/** The per-socket rate limit: a sliding-window log of the packets let through. */
module RateLimiter {

  datatype Packet = Packet(at: int, passed: bool)

  /** The time stamps later than `after`, in order. */
  function Recent(stamps: seq<int>, after: int): (r: seq<int>)
    ensures |r| <= |stamps|
  {
    if stamps == [] then []
    else
      var n := |stamps| - 1;
      Recent(stamps[..n], after) + if stamps[n] > after then [stamps[n]] else []
  }

  /** The stamps of the packets that passed. */
  function PassedAt(history: seq<Packet>): seq<int> {
    if history == [] then []
    else
      var n := |history| - 1;
      PassedAt(history[..n]) + if history[n].passed then [history[n].at] else []
  }

  class Limiter {
    const windowMs: int
    const maxEvents: nat
    var eventTimestamps: seq<int>

    constructor (windowMs: int, maxEvents: nat)
      ensures eventTimestamps == [] && this.windowMs == windowMs && this.maxEvents == maxEvents
    {
      this.windowMs, this.maxEvents := windowMs, maxEvents;
      eventTimestamps := [];
    }

    /** The middleware that runs on every packet. */
    method OnPacket(now: int) returns (passed: bool)
      modifies this
      ensures (eventTimestamps, passed) == Receive(old(eventTimestamps), now, windowMs, maxEvents)
    {
      var kept := [];
      for i := 0 to |eventTimestamps|
        invariant kept == Recent(eventTimestamps[..i], now - windowMs)
        invariant eventTimestamps == old(eventTimestamps)
      {
        if eventTimestamps[i] > now - windowMs {
          kept := kept + [eventTimestamps[i]];
        }
        assert eventTimestamps[..i + 1][..i] == eventTimestamps[..i];
      }
      assert eventTimestamps[..|eventTimestamps|] == eventTimestamps;
      eventTimestamps := kept;
      if |eventTimestamps| >= maxEvents {
        return false;
      }
      eventTimestamps := eventTimestamps + [now];
      return true;
    }
  }

  /** The log after a packet arriving at `now`, and whether the packet passes. */
  function Receive(log: seq<int>, now: int, windowMs: int, maxEvents: nat): (seq<int>, bool) {
    var kept := Recent(log, now - windowMs);
    if |kept| >= maxEvents then (kept, false) else (kept + [now], true)
  }

  /** The log and the fate of every packet, for packets arriving at the given instants. */
  function Serve(times: seq<int>, windowMs: int, maxEvents: nat): (seq<int>, seq<Packet>) {
    if times == [] then ([], [])
    else
      var n := |times| - 1;
      var (log, history) := Serve(times[..n], windowMs, maxEvents);
      var (log', passed) := Receive(log, times[n], windowMs, maxEvents);
      (log', history + [Packet(times[n], passed)])
  }

  predicate NonDecreasing(times: seq<int>) {
    forall i, j :: 0 <= i < j < |times| ==> times[i] <= times[j]
  }

  predicate AtMost(stamps: seq<int>, t: int) {
    forall i :: 0 <= i < |stamps| ==> stamps[i] <= t
  }

  /** How many packets passed in the window ending at `t`: after `t - windowMs`, up to and including `t`. */
  function InWindow(stamps: seq<int>, t: int, windowMs: int): nat {
    if stamps == [] then 0
    else
      var n := |stamps| - 1;
      InWindow(stamps[..n], t, windowMs) + if t - windowMs < stamps[n] <= t then 1 else 0
  }

  lemma {:induction false} RecentAppend(stamps: seq<int>, x: int, after: int)
    ensures Recent(stamps + [x], after) == Recent(stamps, after) + if x > after then [x] else []
  {
    assert (stamps + [x])[..|stamps|] == stamps;
  }

  lemma {:induction false} WindowAppend(stamps: seq<int>, x: int, t: int, windowMs: int)
    ensures InWindow(stamps + [x], t, windowMs) == InWindow(stamps, t, windowMs) + if t - windowMs < x <= t then 1 else 0
  {
    assert (stamps + [x])[..|stamps|] == stamps;
  }

  /** Forgetting old stamps before forgetting older ones makes no difference. */
  lemma {:induction false} RecentTwice(stamps: seq<int>, after: int, later: int)
    requires after <= later
    ensures Recent(Recent(stamps, after), later) == Recent(stamps, later)
  {
    if stamps == [] {
    } else {
      var n := |stamps| - 1;
      RecentTwice(stamps[..n], after, later);
      if stamps[n] > after {
        RecentAppend(Recent(stamps[..n], after), stamps[n], later);
      } else {
        assert Recent(stamps, after) == Recent(stamps[..n], after);
      }
    }
  }

  /** When no stamp lies after `t`, the window ending at `t` holds exactly the recent ones. */
  lemma {:induction false} WindowIsRecent(stamps: seq<int>, t: int, windowMs: int)
    requires AtMost(stamps, t)
    ensures InWindow(stamps, t, windowMs) == |Recent(stamps, t - windowMs)|
  {
    if stamps == [] {
    } else {
      var n := |stamps| - 1;
      WindowIsRecent(stamps[..n], t, windowMs);
    }
  }

  /** The pruned log and the passes so far look the same to any window ending at `now` or later. */
  predicate Pruned(log: seq<int>, passes: seq<int>, windowMs: int, maxEvents: nat, now: int) {
    && Recent(log, now - windowMs) == Recent(passes, now - windowMs)
    && |log| <= maxEvents
    && AtMost(passes, now)
  }

  /**
   The pruned log and the whole history of passes agree on everything any later window can see,
   and the log never holds more than the limit.
   */
  lemma {:induction false} PrunedLogSuffices(times: seq<int>, windowMs: int, maxEvents: nat, now: int)
    requires NonDecreasing(times + [now])
    ensures var (log, history) := Serve(times, windowMs, maxEvents);
            Pruned(log, PassedAt(history), windowMs, maxEvents, now)
  {
    if times == [] {
    } else {
      var front, last := times[..|times| - 1], times[|times| - 1];
      EarlierTimes(times, now);
      assert times == front + [last];
      PrunedLogSuffices(front, windowMs, maxEvents, last);
      LastServed(times, windowMs, maxEvents);
      var (log, history) := Serve(front, windowMs, maxEvents);
      PrunedStep(log, PassedAt(history), last, windowMs, maxEvents, now);
    }
  }

  lemma PrunedStep(log: seq<int>, passes: seq<int>, last: int, windowMs: int, maxEvents: nat, now: int)
    requires Pruned(log, passes, windowMs, maxEvents, last) && last <= now
    ensures var (log', passed) := Receive(log, last, windowMs, maxEvents);
            Pruned(log', if passed then passes + [last] else passes, windowMs, maxEvents, now)
  {
    var kept := Recent(log, last - windowMs);
    if |kept| >= maxEvents {
      StillPruned(log, passes, windowMs, maxEvents, last, now);
    } else {
      PrunedWithOneMore(log, passes, windowMs, maxEvents, last, now);
    }
  }

  lemma StillPruned(log: seq<int>, passes: seq<int>, windowMs: int, maxEvents: nat, last: int, now: int)
    requires Pruned(log, passes, windowMs, maxEvents, last) && last <= now
    ensures Pruned(Recent(log, last - windowMs), passes, windowMs, maxEvents, now)
  {
    RecentTwice(log, last - windowMs, now - windowMs);
    SameRecentLater(log, passes, last - windowMs, now - windowMs);
  }

  lemma SameRecentLater(log: seq<int>, passes: seq<int>, earlier: int, later: int)
    requires earlier <= later && Recent(log, earlier) == Recent(passes, earlier)
    ensures Recent(log, later) == Recent(passes, later)
  {
    RecentTwice(log, earlier, later);
    RecentTwice(passes, earlier, later);
  }

  lemma PrunedWithOneMore(log: seq<int>, passes: seq<int>, windowMs: int, maxEvents: nat, last: int, now: int)
    requires Pruned(log, passes, windowMs, maxEvents, last) && last <= now && |Recent(log, last - windowMs)| < maxEvents
    ensures Pruned(Recent(log, last - windowMs) + [last], passes + [last], windowMs, maxEvents, now)
  {
    var kept := Recent(log, last - windowMs);
    StillPruned(log, passes, windowMs, maxEvents, last, now);
    RecentAppend(kept, last, now - windowMs);
    RecentAppend(passes, last, now - windowMs);
  }

  lemma LastServed(times: seq<int>, windowMs: int, maxEvents: nat)
    requires times != []
    ensures var front, last := times[..|times| - 1], times[|times| - 1];
            var (log, history) := Serve(front, windowMs, maxEvents);
            var (log', passed) := Receive(log, last, windowMs, maxEvents);
            && Serve(times, windowMs, maxEvents).0 == log'
            && PassedAt(Serve(times, windowMs, maxEvents).1) == if passed then PassedAt(history) + [last] else PassedAt(history)
  {
    var front, last := times[..|times| - 1], times[|times| - 1];
    var (log, history) := Serve(front, windowMs, maxEvents);
    var (log', passed) := Receive(log, last, windowMs, maxEvents);
    assert (history + [Packet(last, passed)])[..|history|] == history;
  }

  /**
   With a clock that never goes back: a packet passes exactly when fewer than the limit passed in
   the window before it, and is refused exactly when as many as the limit did.
   */
  lemma DecidedByHistory(times: seq<int>, now: int, windowMs: int, maxEvents: nat)
    requires NonDecreasing(times + [now])
    ensures var (log, history) := Serve(times, windowMs, maxEvents);
            var before := InWindow(PassedAt(history), now, windowMs);
            && before <= maxEvents
            && (Receive(log, now, windowMs, maxEvents).1 <==> before < maxEvents)
            && (!Receive(log, now, windowMs, maxEvents).1 <==> before == maxEvents)
  {
    PrunedLogSuffices(times, windowMs, maxEvents, now);
    var (log, history) := Serve(times, windowMs, maxEvents);
    WindowIsRecent(PassedAt(history), now, windowMs);
  }

  lemma EarlierTimes(times: seq<int>, now: int)
    requires NonDecreasing(times + [now])
    ensures NonDecreasing(times) && (times != [] ==> times[|times| - 1] <= now)
  {
    assert times != [] ==> (times + [now])[|times| - 1] <= (times + [now])[|times|];
    forall i, j | 0 <= i < j < |times| ensures times[i] <= times[j] {
      assert (times + [now])[i] <= (times + [now])[j];
    }
  }

  /** For every instant `t` whatsoever, at most `maxEvents` packets pass in the window (t - windowMs, t]. */
  lemma {:induction false} NeverMoreThanTheLimit(times: seq<int>, windowMs: int, maxEvents: nat, t: int)
    requires NonDecreasing(times)
    ensures InWindow(PassedAt(Serve(times, windowMs, maxEvents).1), t, windowMs) <= maxEvents
  {
    if times == [] {
    } else {
      var front, last := times[..|times| - 1], times[|times| - 1];
      NeverMoreThanTheLimit(front, windowMs, maxEvents, t);
      LastServed(times, windowMs, maxEvents);
      assert times == front + [last];
      var (log, history) := Serve(front, windowMs, maxEvents);
      if Receive(log, last, windowMs, maxEvents).1 {
        DecidedByHistory(front, last, windowMs, maxEvents);
        PrunedLogSuffices(front, windowMs, maxEvents, last);
        WindowAppend(PassedAt(history), last, t, windowMs);
        if last <= t { WindowShrinks(PassedAt(history), last, t, windowMs); }
      }
    }
  }

  /** Moving the end of the window later without new stamps cannot find more of them. */
  lemma {:induction false} WindowShrinks(stamps: seq<int>, t: int, later: int, windowMs: int)
    requires t <= later && AtMost(stamps, t)
    ensures InWindow(stamps, later, windowMs) <= InWindow(stamps, t, windowMs)
  {
    if stamps == [] {
    } else {
      var n := |stamps| - 1;
      WindowShrinks(stamps[..n], t, later, windowMs);
    }
  }
}
