/** The end job can die between any two of its steps and be run again: the row is written once. */
module EndRetry {
  import opened Wrappers
  import opened RedisKeys
  import opened Auctions

  datatype Attempt = Attempt(at: int, crash: Crash)

  /** The auction after a sequence of runs of the end job; a job that has completed does not run again. */
  function Attempts(a: Auction, tries: seq<Attempt>): Auction
    decreases |tries|
  {
    if tries == [] || a.endJob.None? then a else Attempts(End(a, tries[0].at, tries[0].crash), tries[1..])
  }

  predicate InOrder(tries: seq<Attempt>) {
    forall i, j :: 0 <= i < j < |tries| ==> tries[i].at <= tries[j].at
  }

  /** Every try but the last dies on the way, and the last one completes. */
  predicate CompletesAtLast(tries: seq<Attempt>) {
    && tries != [] && tries[|tries| - 1].crash == NoCrash
    && forall i :: 0 <= i < |tries| - 1 ==> tries[i].crash != NoCrash
  }

  /** The instant of the first try that gets as far as committing the row. */
  function FirstCommit(tries: seq<Attempt>): int
    requires CompletesAtLast(tries)
    decreases |tries|
  {
    if tries[0].crash != BeforeCommit then tries[0].at else FirstCommit(tries[1..])
  }

  predicate CleansEarly(tries: seq<Attempt>) {
    exists i :: 0 <= i < |tries| && tries[i].crash == AfterCleanup
  }

  predicate IsEnded(a: Auction) {
    a.row.Some? && a.row.value.status == Ended
  }

  /** A price key that can still be read could be read earlier. */
  lemma ReadableEarlier(a: Auction, t: int, u: int)
    requires t <= u && FinalPrice(a, u).Some?
    ensures FinalPrice(a, t) == FinalPrice(a, u)
  {
  }

  /** Once ENDED is committed, no later run changes the row. */
  lemma {:induction false} WrittenOnce(a: Auction, tries: seq<Attempt>)
    requires IsEnded(a)
    ensures Attempts(a, tries).row == a.row && Attempts(a, tries).bids == a.bids
    decreases |tries|
  {
    if tries == [] || a.endJob.None? {
    } else {
      WrittenOnce(End(a, tries[0].at, tries[0].crash), tries[1..]);
    }
  }

  /** After a cleanup nothing is left to do, and the next run completes. */
  lemma AfterTheCleanup(a: Auction, tries: seq<Attempt>)
    requires a.keys == NO_KEYS && CompletesAtLast(tries)
    ensures Attempts(a, tries) == a.(endJob := None)
    decreases |tries|
  {
    if a.endJob.None? || tries[0].crash != BeforeCommit {
    } else {
      assert tries[1..][|tries| - 2] == tries[|tries| - 1];
      AfterTheCleanup(a, tries[1..]);
    }
  }

  /** What is left to do once the row is committed while the price key lives to the last try. */
  lemma {:induction false} AfterTheCommit(a: Auction, tries: seq<Attempt>)
    requires IsEnded(a) && CompletesAtLast(tries) && InOrder(tries)
    requires FinalPrice(a, tries[|tries| - 1].at).Some?
    ensures Attempts(a, tries) == if a.endJob.None? then a else a.(keys := NO_KEYS, endJob := None)
    decreases |tries|
  {
    if a.endJob.None? {
    } else {
      ReadableEarlier(a, tries[0].at, tries[|tries| - 1].at);
      if tries[0].crash != NoCrash {
        assert tries[1..][|tries| - 2] == tries[|tries| - 1];
        if tries[0].crash == AfterCleanup {
          AfterTheCleanup(a.(keys := NO_KEYS), tries[1..]);
        } else {
          AfterTheCommit(a, tries[1..]);
        }
      } else {
        assert |tries| == 1;
      }
    }
  }

  /**
   Whatever the crash points and the number of retries, as long as the price key can still be read
   when the job completes, the outcome is exactly that of one run without a crash at the instant
   of the first try that committed.
   */
  lemma {:induction false} RetriesEqualOneRun(a: Auction, tries: seq<Attempt>)
    requires a.row.Some? && a.row.value.status != Ended && a.endJob.Some?
    requires CompletesAtLast(tries) && InOrder(tries)
    requires FinalPrice(a, tries[|tries| - 1].at).Some?
    ensures Attempts(a, tries) == End(a, FirstCommit(tries), NoCrash)
    ensures IsEnded(Attempts(a, tries)) && Attempts(a, tries).keys == NO_KEYS
    decreases |tries|
  {
    ReadableEarlier(a, tries[0].at, tries[|tries| - 1].at);
    if tries[0].crash == NoCrash {
      assert |tries| == 1;
    } else {
      var b := End(a, tries[0].at, tries[0].crash);
      assert tries[1..][|tries| - 2] == tries[|tries| - 1];
      if tries[0].crash == BeforeCommit {
        RetriesEqualOneRun(a, tries[1..]);
      } else if tries[0].crash == AfterCommit {
        AfterTheCommit(b, tries[1..]);
      } else {
        AfterTheCleanup(b, tries[1..]);
      }
    }
  }

  /**
   When no try got as far as the cleanup before the last one, the completed job leaves the auction
   without keys exactly when the price could still be read then, or there were no keys to begin with.
   */
  lemma {:induction false} CleanedExactlyWhenReadable(a: Auction, tries: seq<Attempt>)
    requires a.row.Some? && a.endJob.Some?
    requires CompletesAtLast(tries) && InOrder(tries) && !CleansEarly(tries)
    requires forall i :: 0 <= i < |tries| - 1 ==> FinalPrice(a, tries[i].at).Some?
    ensures Attempts(a, tries).keys == NO_KEYS <==> FinalPrice(a, tries[|tries| - 1].at).Some? || a.keys == NO_KEYS
    decreases |tries|
  {
    if |tries| == 1 {
      assert tries[1..] == [];
    } else {
      var b := End(a, tries[0].at, tries[0].crash);
      var rest := tries[1..];
      assert tries[0].crash != AfterCleanup;
      assert rest[|rest| - 1] == tries[|tries| - 1];
      assert b.keys == a.keys && b.endJob == a.endJob;
      assert forall t :: FinalPrice(b, t) == FinalPrice(a, t);
      assert forall i :: 0 <= i < |rest| ==> rest[i] == tries[i + 1];
      CleanedExactlyWhenReadable(b, rest);
    }
  }
}
