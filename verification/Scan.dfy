/** Pages of a filtered list from which rows disappear while it is being paged through. */
module Scan {

  const RECONCILIATION_BATCH_SIZE := 100

  function Filter(xs: seq<int>, keep: set<int>): (r: seq<int>)
    ensures forall x :: x in r <==> x in xs && x in keep
    ensures |r| <= |xs|
  {
    if xs == [] then [] else (if xs[0] in keep then [xs[0]] else []) + Filter(xs[1..], keep)
  }

  predicate Ascending(xs: seq<int>) {
    forall i, j :: 0 <= i < j < |xs| ==> xs[i] < xs[j]
  }

  lemma {:induction false} FilterAscending(xs: seq<int>, keep: set<int>)
    requires Ascending(xs)
    ensures Ascending(Filter(xs, keep))
  {
    if xs == [] {
    } else {
      FilterAscending(xs[1..], keep);
      var r := Filter(xs[1..], keep);
      forall j | 0 <= j < |r| ensures xs[0] < r[j] {
        assert r[j] in r;
      }
    }
  }

  lemma {:induction false} FilterAppend(xs: seq<int>, ys: seq<int>, keep: set<int>)
    ensures Filter(xs + ys, keep) == Filter(xs, keep) + Filter(ys, keep)
  {
    if xs == [] {
      assert xs + ys == ys;
    } else {
      assert (xs + ys)[1..] == xs[1..] + ys;
      FilterAppend(xs[1..], ys, keep);
    }
  }

  /** Dropping elements that are not there changes nothing; filtering twice is filtering once. */
  lemma {:induction false} FilterTwice(xs: seq<int>, keep: set<int>, fewer: set<int>)
    requires fewer <= keep
    ensures Filter(Filter(xs, keep), fewer) == Filter(xs, fewer)
  {
    if xs == [] {
    } else {
      FilterTwice(xs[1..], keep, fewer);
      var r := Filter(xs[1..], keep);
      if xs[0] in keep {
        assert Filter(xs, keep) == [xs[0]] + r && ([xs[0]] + r)[1..] == r;
      } else {
        assert Filter(xs, keep) == r;
      }
    }
  }

  lemma {:induction false} FilterAll(xs: seq<int>, keep: set<int>)
    requires forall x :: x in xs ==> x in keep
    ensures Filter(xs, keep) == xs
  {
    if xs == [] {
    } else {
      FilterAll(xs[1..], keep);
      var first := xs[0];
      assert first in xs;
      assert xs == [first] + xs[1..];
    }
  }

  lemma AscendingPrefix(xs: seq<int>, n: nat)
    requires Ascending(xs) && n <= |xs|
    ensures Ascending(xs[..n])
  {
  }

  /** Rows `skip` to `skip + take` of the list, as far as it goes. */
  function Page(xs: seq<int>, skip: nat, take: nat): (page: seq<int>)
    ensures |page| <= take
  {
    if skip >= |xs| then []
    else if skip + take >= |xs| then xs[skip..]
    else xs[skip..skip + take]
  }

  lemma AscendingAppend(xs: seq<int>, x: int)
    requires Ascending(xs) && forall y :: y in xs ==> y < x
    ensures Ascending(xs + [x])
  {
    forall i | 0 <= i < |xs| ensures xs[i] < x {
      var y := xs[i];
      assert y in xs;
    }
  }

  lemma AscendingDisjoint(xs: seq<int>, ys: seq<int>)
    requires Ascending(xs + ys)
    ensures forall x :: x in xs ==> x !in ys
  {
    forall i, j | 0 <= i < |xs| && 0 <= j < |ys| ensures xs[i] < ys[j] {
      assert (xs + ys)[i] < (xs + ys)[|xs| + j];
    }
  }

  lemma PageAscends(xs: seq<int>, skip: nat, take: nat)
    requires Ascending(xs)
    ensures Ascending(Page(xs, skip, take)) && forall x :: x in Page(xs, skip, take) ==> x in xs
  {
  }

  // --- The scan ---

  /** Which rows a batch ends: an id and the number of the batch that holds it. */
  type Ends = (int, nat) -> bool

  /** The rows still listed after the page at `skip`, the one of batch `b`, has been dealt with. */
  function After(listed: seq<int>, skip: nat, b: nat, ends: Ends): (after: seq<int>)
    ensures |after| <= |listed|
  {
    var page := Page(listed, skip, RECONCILIATION_BATCH_SIZE);
    Filter(listed, set id | id in listed && !(id in page && ends(id, b)))
  }

  /** All that is read from the page at `skip` on, page after page until one comes up short. */
  function Batches(listed: seq<int>, skip: nat, b: nat, ends: Ends): seq<int>
    decreases |listed| - skip
  {
    var page := Page(listed, skip, RECONCILIATION_BATCH_SIZE);
    if |page| < RECONCILIATION_BATCH_SIZE then page
    else page + Batches(After(listed, skip, b, ends), skip + RECONCILIATION_BATCH_SIZE, b + 1, ends)
  }

  /** What is listed when the scan is over. */
  function Remaining(listed: seq<int>, skip: nat, b: nat, ends: Ends): seq<int>
    decreases |listed| - skip
  {
    var page := Page(listed, skip, RECONCILIATION_BATCH_SIZE);
    var after := After(listed, skip, b, ends);
    if |page| < RECONCILIATION_BATCH_SIZE then after
    else Remaining(after, skip + RECONCILIATION_BATCH_SIZE, b + 1, ends)
  }

  // --- One page ---

  lemma {:induction false} FilterShorter(xs: seq<int>, keep: set<int>)
    ensures |Filter(xs, keep)| < |xs| <==> exists i :: 0 <= i < |xs| && xs[i] !in keep
  {
    if xs == [] {
    } else {
      FilterShorter(xs[1..], keep);
      if i :| 0 <= i < |xs| - 1 && xs[1..][i] !in keep { assert xs[i + 1] !in keep; }
      if i :| 0 < i < |xs| && xs[i] !in keep { assert xs[1..][i - 1] !in keep; }
    }
  }

  /** The list shrinks exactly when the page holds a row that its batch ends. */
  lemma AfterShrinksExactly(listed: seq<int>, skip: nat, b: nat, ends: Ends)
    ensures var page := Page(listed, skip, RECONCILIATION_BATCH_SIZE);
            && (|After(listed, skip, b, ends)| < |listed| <==> exists i :: 0 <= i < |page| && ends(page[i], b))
            && (|After(listed, skip, b, ends)| == |listed| ==> After(listed, skip, b, ends) == listed)
  {
    var page := Page(listed, skip, RECONCILIATION_BATCH_SIZE);
    var keep := set id | id in listed && !(id in page && ends(id, b));
    FilterShorter(listed, keep);
    if i :| 0 <= i < |listed| && listed[i] !in keep {
      assert listed[i] in page;
    }
    if i :| 0 <= i < |page| && ends(page[i], b) {
      assert page[i] in page && page[i] in listed && page[i] !in keep;
    }
    if |After(listed, skip, b, ends)| == |listed| {
      forall x | x in listed ensures x in keep {
        var i :| 0 <= i < |listed| && listed[i] == x;
      }
      FilterAll(listed, keep);
    }
  }

  /** In an ascending list no row after the page is on the page. */
  lemma RestOffPage(listed: seq<int>, skip: nat, next: nat)
    requires Ascending(listed) && skip <= next <= |listed|
    ensures forall x :: x in listed[next..] ==> x in listed && x !in listed[skip..next]
  {
    forall x | x in listed[next..] ensures x in listed && x !in listed[skip..next] {
      var i :| 0 <= i < |listed| - next && listed[next..][i] == x;
      assert listed[next + i] == x;
      forall j | 0 <= j < next - skip ensures listed[skip..next][j] != x {
        assert listed[skip..next][j] == listed[skip + j];
      }
    }
  }

  lemma FilterSuffix(front: seq<int>, rest: seq<int>, keep: set<int>)
    requires forall x :: x in rest ==> x in keep
    ensures var after := Filter(front + rest, keep);
            && after == Filter(front, keep) + rest
            && after[|after| - |rest|..] == rest
  {
    FilterAppend(front, rest, keep);
    FilterAll(rest, keep);
  }

  lemma FilterTail(xs: seq<int>, next: nat, keep: set<int>)
    requires Ascending(xs) && next <= |xs| && forall x :: x in xs[next..] ==> x in keep
    ensures var after := Filter(xs, keep);
            && Ascending(after)
            && |xs| - |after| <= next && after[next - (|xs| - |after|)..] == xs[next..]
  {
    FilterAscending(xs, keep);
    FilterSuffix(xs[..next], xs[next..], keep);
    assert xs == xs[..next] + xs[next..];
  }

  /** What lies after the page is untouched, and moves up by as many rows as the page loses. */
  lemma AfterKeepsTheRest(listed: seq<int>, skip: nat, b: nat, ends: Ends)
    requires Ascending(listed) && skip + RECONCILIATION_BATCH_SIZE <= |listed|
    ensures var next, after := skip + RECONCILIATION_BATCH_SIZE, After(listed, skip, b, ends);
            && Ascending(after)
            && |listed| - |after| <= next
            && after[next - (|listed| - |after|)..] == listed[next..]
  {
    var next := skip + RECONCILIATION_BATCH_SIZE;
    var page := Page(listed, skip, RECONCILIATION_BATCH_SIZE);
    var keep := set id | id in listed && !(id in page && ends(id, b));
    assert forall x :: x in listed[next..] ==> x in keep by {
      RestOffPage(listed, skip, next);
      assert page == listed[skip..next];
    }
    FilterTail(listed, next, keep);
  }

  /** So a page that ends r rows makes the next one begin r rows too far. */
  lemma PageShifts(listed: seq<int>, skip: nat, b: nat, ends: Ends)
    requires Ascending(listed) && skip + RECONCILIATION_BATCH_SIZE <= |listed|
    ensures var next, after := skip + RECONCILIATION_BATCH_SIZE, After(listed, skip, b, ends);
            && Page(after, next, RECONCILIATION_BATCH_SIZE)
               == Page(listed, next + (|listed| - |after|), RECONCILIATION_BATCH_SIZE)
            && (next <= |after| ==> after[next..] == listed[next + (|listed| - |after|)..])
  {
    var next, after := skip + RECONCILIATION_BATCH_SIZE, After(listed, skip, b, ends);
    var r := |listed| - |after|;
    AfterKeepsTheRest(listed, skip, b, ends);
    forall i | next <= i < |after| ensures after[i] == listed[i + r] {
      assert after[next - r..][i - (next - r)] == listed[next..][i - (next - r)];
    }
  }

  // --- The whole scan ---

  /** What a scan can still read is no more than what lies ahead of it. */
  lemma {:induction false} BatchesBounded(listed: seq<int>, skip: nat, b: nat, ends: Ends)
    ensures |Batches(listed, skip, b, ends)| <= if skip <= |listed| then |listed| - skip else 0
    decreases |listed| - skip
  {
    if |Page(listed, skip, RECONCILIATION_BATCH_SIZE)| < RECONCILIATION_BATCH_SIZE {
    } else {
      BatchesBounded(After(listed, skip, b, ends), skip + RECONCILIATION_BATCH_SIZE, b + 1, ends);
    }
  }

  /** At most as many rows are missed as are lost on the way: what remains listed is no more than what was passed and read. */
  lemma {:induction false} MissedAtMostLost(listed: seq<int>, skip: nat, b: nat, ends: Ends)
    ensures |Remaining(listed, skip, b, ends)| <= skip + |Batches(listed, skip, b, ends)|
    decreases |listed| - skip
  {
    if |Page(listed, skip, RECONCILIATION_BATCH_SIZE)| < RECONCILIATION_BATCH_SIZE {
    } else {
      MissedAtMostLost(After(listed, skip, b, ends), skip + RECONCILIATION_BATCH_SIZE, b + 1, ends);
    }
  }

  /** Rows ahead of the next page lie ahead of it in the list before, too. */
  lemma AheadBefore(listed: seq<int>, skip: nat, b: nat, ends: Ends, x: int)
    requires Ascending(listed) && skip + RECONCILIATION_BATCH_SIZE <= |listed|
    requires var next, after := skip + RECONCILIATION_BATCH_SIZE, After(listed, skip, b, ends);
             next <= |after| && x in after[next..]
    ensures exists i :: skip + RECONCILIATION_BATCH_SIZE <= i < |listed| && listed[i] == x
  {
    var next, after := skip + RECONCILIATION_BATCH_SIZE, After(listed, skip, b, ends);
    var r := |listed| - |after|;
    PageShifts(listed, skip, b, ends);
    var i :| 0 <= i < |after| - next && after[next..][i] == x;
    assert listed[next + r..][i] == listed[next + r + i];
  }

  /** Whatever a scan still reads comes from ahead of it, in order. */
  lemma {:induction false} BatchesAscend(listed: seq<int>, skip: nat, b: nat, ends: Ends)
    requires Ascending(listed)
    ensures Ascending(Batches(listed, skip, b, ends))
    ensures forall x :: x in Batches(listed, skip, b, ends) ==> skip <= |listed| && x in listed[skip..]
    decreases |listed| - skip
  {
    var page := Page(listed, skip, RECONCILIATION_BATCH_SIZE);
    if |page| < RECONCILIATION_BATCH_SIZE {
    } else {
      var next, after := skip + RECONCILIATION_BATCH_SIZE, After(listed, skip, b, ends);
      var rest := Batches(after, next, b + 1, ends);
      assert Ascending(after) by { AfterKeepsTheRest(listed, skip, b, ends); }
      BatchesAscend(after, next, b + 1, ends);
      forall x | x in rest
        ensures exists i :: next <= i < |listed| && listed[i] == x
      {
        AheadBefore(listed, skip, b, ends, x);
      }
      PageBefore(listed, skip, page, rest);
    }
  }

  lemma PageBefore(listed: seq<int>, skip: nat, page: seq<int>, rest: seq<int>)
    requires Ascending(listed) && Ascending(rest) && skip + |page| <= |listed| && page == listed[skip..skip + |page|]
    requires forall x :: x in rest ==> exists i :: skip + |page| <= i < |listed| && listed[i] == x
    ensures Ascending(page + rest)
    ensures forall x :: x in page + rest ==> x in listed[skip..]
  {
    forall i, j | 0 <= i < |page| && 0 <= j < |rest| ensures page[i] < rest[j] {
      assert rest[j] in rest;
      var k :| skip + |page| <= k < |listed| && listed[k] == rest[j];
      assert page[i] == listed[skip + i];
    }
    forall x | x in page + rest ensures x in listed[skip..] {
      if x in page {
        var i :| 0 <= i < |page| && page[i] == x;
        assert listed[skip..][i] == x;
      } else {
        assert x in rest;
        var k :| skip + |page| <= k < |listed| && listed[k] == x;
        assert listed[skip..][k - skip] == x;
      }
    }
  }

  /** A row whose loss shifts a page that is still to come: it is ended, and not in the last page that matters. */
  predicate Shifting(start: seq<int>, k: nat, ends: Ends)
    requires k < |start|
  {
    var b := k / RECONCILIATION_BATCH_SIZE;
    RECONCILIATION_BATCH_SIZE * (b + 1) < |start| && ends(start[k], b)
  }

  /** From batch `b` on the scan, undisturbed so far, reads all there is. */
  predicate Complete(start: seq<int>, b: nat, ends: Ends) {
    var skip := RECONCILIATION_BATCH_SIZE * b;
    skip <= |start| && Batches(start, skip, b, ends) == start[skip..]
  }

  /** The scan reads every row exactly when no row shifts a later page. */
  lemma {:induction false} CompleteExactly(start: seq<int>, b: nat, ends: Ends)
    requires RECONCILIATION_BATCH_SIZE * b <= |start|
    ensures Complete(start, b, ends) <==> NoShift(start, RECONCILIATION_BATCH_SIZE * b, ends)
    decreases |start| - RECONCILIATION_BATCH_SIZE * b
  {
    if RECONCILIATION_BATCH_SIZE * (b + 1) >= |start| {
      LastPage(start, b, ends);
    } else if |After(start, RECONCILIATION_BATCH_SIZE * b, b, ends)| < |start| {
      ShiftedPage(start, b, ends);
    } else {
      UnshiftedPage(start, b, ends);
      CompleteExactly(start, b + 1, ends);
    }
  }

  predicate NoShift(start: seq<int>, from: nat, ends: Ends) {
    forall k :: from <= k < |start| ==> !Shifting(start, k, ends)
  }

  lemma ShiftedPage(start: seq<int>, b: nat, ends: Ends)
    requires RECONCILIATION_BATCH_SIZE * (b + 1) < |start|
    requires |After(start, RECONCILIATION_BATCH_SIZE * b, b, ends)| < |start|
    ensures var skip := RECONCILIATION_BATCH_SIZE * b;
            !NoShift(start, skip, ends) && !Complete(start, b, ends)
  {
    FewerBatches(start, RECONCILIATION_BATCH_SIZE * b, b, ends);
    AfterShrinksExactly(start, RECONCILIATION_BATCH_SIZE * b, b, ends);
    var i :| 0 <= i < RECONCILIATION_BATCH_SIZE && ends(Page(start, RECONCILIATION_BATCH_SIZE * b, RECONCILIATION_BATCH_SIZE)[i], b);
    var k := RECONCILIATION_BATCH_SIZE * b + i;
    assert k / RECONCILIATION_BATCH_SIZE == b;
    assert Shifting(start, k, ends);
  }

  /** A shift costs at least one row that lies beyond the page. */
  lemma FewerBatches(listed: seq<int>, skip: nat, b: nat, ends: Ends)
    requires skip + RECONCILIATION_BATCH_SIZE < |listed| && |After(listed, skip, b, ends)| < |listed|
    ensures |Batches(listed, skip, b, ends)| < |listed| - skip
  {
    BatchesBounded(After(listed, skip, b, ends), skip + RECONCILIATION_BATCH_SIZE, b + 1, ends);
  }

  lemma UnshiftedPage(start: seq<int>, b: nat, ends: Ends)
    requires RECONCILIATION_BATCH_SIZE * (b + 1) < |start|
    requires |After(start, RECONCILIATION_BATCH_SIZE * b, b, ends)| == |start|
    ensures Complete(start, b, ends) <==> Complete(start, b + 1, ends)
    ensures NoShift(start, RECONCILIATION_BATCH_SIZE * b, ends) <==> NoShift(start, RECONCILIATION_BATCH_SIZE * (b + 1), ends)
  {
    var skip, next := RECONCILIATION_BATCH_SIZE * b, RECONCILIATION_BATCH_SIZE * (b + 1);
    AfterShrinksExactly(start, skip, b, ends);
    NoneShifts(start, b, ends);
    OnePageOn(start, skip, Batches(start, next, b + 1, ends));
  }

  lemma OnePageOn(start: seq<int>, skip: nat, rest: seq<int>)
    requires skip + RECONCILIATION_BATCH_SIZE <= |start|
    ensures Page(start, skip, RECONCILIATION_BATCH_SIZE) + rest == start[skip..]
            <==> rest == start[skip + RECONCILIATION_BATCH_SIZE..]
  {
    var page, next := Page(start, skip, RECONCILIATION_BATCH_SIZE), skip + RECONCILIATION_BATCH_SIZE;
    assert start[skip..] == page + start[next..];
    assert (page + rest)[|page|..] == rest && (page + start[next..])[|page|..] == start[next..];
  }

  lemma LastPage(start: seq<int>, b: nat, ends: Ends)
    requires var skip := RECONCILIATION_BATCH_SIZE * b; skip <= |start| <= skip + RECONCILIATION_BATCH_SIZE
    ensures Complete(start, b, ends) && NoShift(start, RECONCILIATION_BATCH_SIZE * b, ends)
  {
    var skip := RECONCILIATION_BATCH_SIZE * b;
    if |start| == skip + RECONCILIATION_BATCH_SIZE {
      BatchesBounded(After(start, skip, b, ends), |start|, b + 1, ends);
    }
  }

  /** On a page that ends no row, none shifts. */
  lemma NoneShifts(start: seq<int>, b: nat, ends: Ends)
    requires RECONCILIATION_BATCH_SIZE * (b + 1) <= |start|
    requires forall i :: 0 <= i < RECONCILIATION_BATCH_SIZE ==>
               !ends(Page(start, RECONCILIATION_BATCH_SIZE * b, RECONCILIATION_BATCH_SIZE)[i], b)
    ensures NoShift(start, RECONCILIATION_BATCH_SIZE * b, ends) <==> NoShift(start, RECONCILIATION_BATCH_SIZE * (b + 1), ends)
  {
    var skip := RECONCILIATION_BATCH_SIZE * b;
    forall k | skip <= k < skip + RECONCILIATION_BATCH_SIZE
      ensures !Shifting(start, k, ends)
    {
      assert k / RECONCILIATION_BATCH_SIZE == b;
      assert Page(start, skip, RECONCILIATION_BATCH_SIZE)[k - skip] == start[k];
    }
  }

  /** With 101 rows the first of which is ended, the last one is never read. */
  lemma LastOneMissed(start: seq<int>, ends: Ends)
    requires Ascending(start) && |start| == 101 && ends(start[0], 0)
    ensures start[100] !in Batches(start, 0, 0, ends)
    ensures Batches(start, 0, 0, ends) == start[..100]
  {
    var page, after := Page(start, 0, RECONCILIATION_BATCH_SIZE), After(start, 0, 0, ends);
    assert page[0] == start[0];
    AfterShrinksExactly(start, 0, 0, ends);
    BatchesBounded(after, RECONCILIATION_BATCH_SIZE, 1, ends);
  }

  // --- A scan under way ---

  /** What has been scanned, and what will be from the current list, are together what the scan reads from the start. */
  predicate OnCourse(start: seq<int>, listed: seq<int>, scanned: seq<int>, b: nat, ends: Ends, more: bool) {
    var skip := RECONCILIATION_BATCH_SIZE * b;
    && Ascending(start) && Ascending(listed)
    && (more ==> |scanned| == skip)
    && scanned + (if more then Batches(listed, skip, b, ends) else []) == Batches(start, 0, 0, ends)
    && (if more then Remaining(listed, skip, b, ends) else listed) == Remaining(start, 0, 0, ends)
  }

  /** One page, then the rest. */
  lemma PageThenRest(listed: seq<int>, skip: nat, b: nat, ends: Ends)
    requires Ascending(listed)
    ensures var page, after := Page(listed, skip, RECONCILIATION_BATCH_SIZE), After(listed, skip, b, ends);
            var next, more := skip + RECONCILIATION_BATCH_SIZE, |page| == RECONCILIATION_BATCH_SIZE;
            && Ascending(after)
            && Batches(listed, skip, b, ends) == page + (if more then Batches(after, next, b + 1, ends) else [])
            && Remaining(listed, skip, b, ends) == if more then Remaining(after, next, b + 1, ends) else after
  {
    var page := Page(listed, skip, RECONCILIATION_BATCH_SIZE);
    FilterAscending(listed, set id | id in listed && !(id in page && ends(id, b)));
  }

  lemma PrefixDisjoint(all: seq<int>, first: seq<int>, second: seq<int>, rest: seq<int>)
    requires Ascending(all) && first + (second + rest) == all
    ensures (first + second) + rest == all && forall id :: id in second ==> id !in first
  {
    assert all[..|first + second|] == first + second;
    AscendingPrefix(all, |first + second|);
    AscendingDisjoint(first, second);
  }

  lemma CourseGoesOn(start: seq<int>, listed: seq<int>, scanned: seq<int>, b: nat, ends: Ends)
    requires OnCourse(start, listed, scanned, b, ends, true)
    ensures var skip := RECONCILIATION_BATCH_SIZE * b;
            var page := Page(listed, skip, RECONCILIATION_BATCH_SIZE);
            && OnCourse(start, After(listed, skip, b, ends), scanned + page, b + 1, ends, |page| == RECONCILIATION_BATCH_SIZE)
            && forall id :: id in page ==> id !in scanned
  {
    var skip := RECONCILIATION_BATCH_SIZE * b;
    var page, after := Page(listed, skip, RECONCILIATION_BATCH_SIZE), After(listed, skip, b, ends);
    var rest := if |page| == RECONCILIATION_BATCH_SIZE then Batches(after, skip + RECONCILIATION_BATCH_SIZE, b + 1, ends) else [];
    PageThenRest(listed, skip, b, ends);
    assert Ascending(Batches(start, 0, 0, ends)) by { BatchesAscend(start, 0, 0, ends); }
    PrefixDisjoint(Batches(start, 0, 0, ends), scanned, page, rest);
  }

  /** How far a scan has come never exceeds the list it began with. */
  lemma CourseBounded(start: seq<int>, listed: seq<int>, scanned: seq<int>, b: nat, ends: Ends, more: bool)
    requires OnCourse(start, listed, scanned, b, ends, more)
    ensures |scanned| <= |start|
  {
    BatchesBounded(start, 0, 0, ends);
  }

  /** When the scan is over: each row read once and in order, as many missed as lost at most, and none exactly when none shifts. */
  lemma CourseOver(start: seq<int>, listed: seq<int>, scanned: seq<int>, b: nat, ends: Ends)
    requires OnCourse(start, listed, scanned, b, ends, false)
    ensures Ascending(scanned) && forall id :: id in scanned ==> id in start
    ensures |start| - |scanned| <= |start| - |listed|
    ensures scanned == start <==> NoShift(start, 0, ends)
  {
    BatchesAscend(start, 0, 0, ends);
    MissedAtMostLost(start, 0, 0, ends);
    CompleteExactly(start, 0, ends);
    assert start[0..] == start && scanned + [] == scanned;
  }
}
