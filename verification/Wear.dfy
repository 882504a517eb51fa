/** How many rollbacks the price key survives: exactly as long as it has 499 milliseconds to lose for each. */
module Wear {
  import opened Wrappers
  import opened RedisKeys
  import opened Increment
  import opened Auctions
  import opened Protocol
  import opened Expiry
  import opened WholeBid

  // --- Few rollbacks ---

  lemma RollbacksGrowStep(config: BidConfig, s: State, action: Action)
    ensures Next(config, s, action).rollbacks ==
            if EffectiveRollback(s, action) then s.rollbacks + 1 else s.rollbacks
  {
  }

  lemma {:induction false} RollbacksGrow(config: BidConfig, s: State, actions: seq<Action>)
    ensures s.rollbacks <= Run(config, s, actions).rollbacks
    decreases |actions|
  {
    if actions == [] {
    } else {
      RollbacksGrowStep(config, s, actions[0]);
      RollbacksGrow(config, Next(config, s, actions[0]), actions[1..]);
    }
  }

  lemma {:induction false} FewRollbacksAreRegular(config: BidConfig, s: State, actions: seq<Action>)
    requires PunctualRun(config, s, actions) && Run(config, s, actions).rollbacks <= MAX_ROLLBACKS
    ensures RegularRun(config, s, actions)
    decreases |actions|
  {
    if actions == [] {
    } else {
      var t := Next(config, s, actions[0]);
      RollbacksGrowStep(config, s, actions[0]);
      RollbacksGrow(config, t, actions[1..]);
      FewRollbacksAreRegular(config, t, actions[1..]);
    }
  }

  // --- One rollback more ---

  /** Neither a start nor an edit by the owner, and Redis keeps its keys. */
  predicate Quiet(action: Action) {
    !action.StartJob? && !action.UpdateAuction? && !action.LoseRedis?
  }

  predicate QuietRun(actions: seq<Action>) {
    forall i :: 0 <= i < |actions| ==> Quiet(actions[i])
  }

  lemma {:induction false} QuietIsPunctual(config: BidConfig, s: State, actions: seq<Action>)
    requires QuietRun(actions)
    ensures PunctualRun(config, s, actions)
    decreases |actions|
  {
    if actions == [] {
    } else {
      assert Quiet(actions[0]);
      QuietIsPunctual(config, Next(config, s, actions[0]), actions[1..]);
    }
  }

  lemma {:induction false} PunctualAppend(config: BidConfig, s: State, first: seq<Action>, second: seq<Action>)
    requires PunctualRun(config, s, first) && PunctualRun(config, Run(config, s, first), second)
    ensures PunctualRun(config, s, first + second)
    decreases |first|
  {
    if first == [] {
      assert first + second == second;
    } else {
      assert (first + second)[1..] == first[1..] + second;
      PunctualAppend(config, Next(config, s, first[0]), first[1..], second);
    }
  }

  const OWNER := 1
  const BIDDER := 2
  const START := 1

  /** A running auction nobody has bid on: its active key dies at `ends`, its price key at `gone`, and call `n` is the next. */
  predicate Waiting(s: State, ends: int, gone: int, n: nat) {
    var keys := s.auction.keys;
    && keys == AuctionKeys(Stored(1, At(ends)), Stored(START, At(gone)), Stored(OWNER, At(ends + BUFFER_MS)), Missing)
    && (forall c :: c in s.calls ==> c < n)
    && s.rollbacks == n
  }

  /** The amount that just clears the increment due at a price. */
  function Clearing(config: BidConfig, price: int): int {
    price + Ceil(CalcMinIncrement(price, config))
  }

  /** Some instant within a second at which the price key's remaining time is 499 over a whole second. */
  function UnluckyInstant(now: int, gone: int): (t: int)
    ensures now <= t < now + 1000 && (gone - t) % 1000 == 499
  {
    gone - 499 - 1000 * ((gone - 499 - now) / 1000)
  }

  /** One bid that is accepted, not saved and rolled back at an unlucky instant. */
  function Round(config: BidConfig, s: State, gone: int, n: nat): seq<Action> {
    [Tick(UnluckyInstant(s.now, gone))] + Steps(n, BIDDER, Clearing(config, START), false)
  }

  lemma PlacedAndUndone(config: BidConfig, a: Auction, now: int, ends: int, gone: int)
    requires now < ends && gone - now >= 1499 && (gone - now) % 1000 == 499
    requires a.keys == AuctionKeys(Stored(1, At(ends)), Stored(START, At(gone)), Stored(OWNER, At(ends + BUFFER_MS)), Missing)
    ensures Place(config, a, now, BIDDER, Clearing(config, START), false)
            == (a.(keys := a.keys.(price := Stored(START, At(gone - 499)))), ServerError)
  {
    IncrementMonotone(START, START, config);
    var increment := CalcMinIncrement(START, config);
    assert Decision(BIDDER, Clearing(config, START), Some(OWNER), true, Some(START), config) == Ready(increment);
    var (keys, reply) := PlaceBid(a.keys, now, Clearing(config, START), BIDDER, increment);
    assert reply == Accepted(Snapshot(Some(START), None));
    assert keys == a.keys.(price := Stored(Clearing(config, START), At(gone)), bidder := Stored(BIDDER, Never));
    assert Ttl(keys.price, now) == (gone - now - 499) / 1000;
  }

  lemma OneRound(config: BidConfig, s: State, ends: int, gone: int, n: nat)
    requires Waiting(s, ends, gone, n) && s.now + 1000 <= ends && s.now + 2500 <= gone
    ensures var t := Run(config, s, Round(config, s, gone, n));
            Waiting(t, ends, gone - 499, n + 1) && s.now <= t.now < s.now + 1000
    ensures PunctualRun(config, s, Round(config, s, gone, n))
  {
    var at := UnluckyInstant(s.now, gone);
    var ticked := Next(config, s, Tick(at));
    var bid := Steps(n, BIDDER, Clearing(config, START), false);
    assert Round(config, s, gone, n)[1..] == bid;
    PlacedAndUndone(config, s.auction, at, ends, gone);
    PlaceIsARun(config, ticked, n, BIDDER, Clearing(config, START), false);
    assert QuietRun(Round(config, s, gone, n));
    QuietIsPunctual(config, s, Round(config, s, gone, n));
  }

  /** `rounds` bids in a row, each undone, take 499 milliseconds each off the price key's life. */
  lemma {:induction false} ManyRounds(config: BidConfig, s: State, ends: int, gone: int, n: nat, rounds: nat)
    returns (actions: seq<Action>)
    requires Waiting(s, ends, gone, n) && s.now + 1000 * rounds <= ends
    requires s.now + 2500 + 1499 * rounds <= gone
    ensures var t := Run(config, s, actions);
            Waiting(t, ends, gone - 499 * rounds, n + rounds) && s.now <= t.now <= s.now + 1000 * rounds
    ensures PunctualRun(config, s, actions)
    decreases rounds
  {
    if rounds == 0 {
      actions := [];
    } else {
      var round := Round(config, s, gone, n);
      OneRound(config, s, ends, gone, n);
      var rest := ManyRounds(config, Run(config, s, round), ends, gone - 499, n + 1, rounds - 1);
      RunAppend(config, s, round, rest);
      PunctualAppend(config, s, round, rest);
      actions := round + rest;
    }
  }

  const DURATION := 10 * HOUR_MS

  function Opening(): seq<Action> {
    [CreateAuction(OWNER, NewAuction(START, None, DURATION, Details("", "", "", "")), true), Tick(2000), StartJob(SetUp)]
  }

  lemma Opened(config: BidConfig)
    ensures var s := Run(config, Initial(0), Opening());
            && Waiting(s, DURATION, DURATION + BUFFER_MS, 0) && s.now == 2000 && s.calls == map[]
    ensures PunctualRun(config, Initial(0), Opening())
  {
    var s := Next(config, Initial(0), Opening()[0]);
    var t := Next(config, s, Tick(2000));
    assert Opening()[1..] == [Tick(2000), StartJob(SetUp)];
    assert Opening()[1..][1..] == [StartJob(SetUp)];
    assert [StartJob(SetUp)][1..] == [];
    assert Run(config, Initial(0), Opening()) == Next(config, t, StartJob(SetUp));
  }

  /** The property the buffer of an hour is there for. */
  predicate PriceOutlivesActive(s: State) {
    Live(s.auction.keys.active, s.now) ==> PriceLive(s)
  }

  /** With one rollback more, an auction that still takes bids has lost its price. */
  lemma OneTooMany(config: BidConfig) returns (actions: seq<Action>)
    ensures PunctualRun(config, Initial(0), actions)
    ensures var s := Run(config, Initial(0), actions);
            s.rollbacks == MAX_ROLLBACKS + 1 && Live(s.auction.keys.active, s.now) && !PriceLive(s)
  {
    Opened(config);
    var s := Run(config, Initial(0), Opening());
    var worn := ManyRounds(config, s, DURATION, DURATION + BUFFER_MS, 0, MAX_ROLLBACKS + 1);
    var t := Run(config, s, worn);
    var last := [Tick(DURATION - 285)];
    assert DURATION + BUFFER_MS - 499 * (MAX_ROLLBACKS + 1) == DURATION - 285;
    assert last[1..] == [];
    RunAppend(config, Initial(0), Opening(), worn);
    RunAppend(config, Initial(0), Opening() + worn, last);
    PunctualAppend(config, Initial(0), Opening(), worn);
    PunctualAppend(config, Initial(0), Opening() + worn, last);
    actions := Opening() + worn + last;
  }

  /** Every state reached from `Initial` by a punctual run with at most `n` rollbacks. */
  ghost predicate Reached(config: BidConfig, s: State, n: nat) {
    exists start, actions :: Reaches(config, start, actions, s) && s.rollbacks <= n
  }

  predicate Reaches(config: BidConfig, start: int, actions: seq<Action>, s: State) {
    PunctualRun(config, Initial(start), actions) && s == Run(config, Initial(start), actions)
  }

  /** The price key outlives the active key throughout all punctual runs with at most `n` rollbacks exactly up to the limit. */
  lemma PriceOutlivesActiveExactly(config: BidConfig, n: nat)
    ensures (forall s :: Reached(config, s, n) ==> PriceOutlivesActive(s)) <==> n <= MAX_ROLLBACKS
  {
    if n <= MAX_ROLLBACKS {
      forall s | Reached(config, s, n)
        ensures PriceOutlivesActive(s)
      {
        var start, actions :| Reaches(config, start, actions, s);
        FewRollbacksAreRegular(config, Initial(start), actions);
        KeysOkAlways(config, Initial(start), actions);
      }
    } else {
      var actions := OneTooMany(config);
      var s := Run(config, Initial(0), actions);
      assert Reaches(config, 0, actions, s);
      assert Reached(config, s, n) && !PriceOutlivesActive(s);
    }
  }

  // --- A rollback with an extension between its round trips ---

  predicate TimelyRun(config: BidConfig, s: State, actions: seq<Action>)
    decreases |actions|
  {
    actions == [] || (Timely(s, actions[0]) && TimelyRun(config, Next(config, s, actions[0]), actions[1..]))
  }

  /**
   When the auction is extended between the two round trips of a rollback, the price the latter
   writes outlives the active key exactly if the new end lies no later than the old deadline of the
   price key plus the time between the round trips, rounded, or, with less than half a second left
   when the time was read, than an hour after the write.
   */
  lemma StraddledExactly(keys: AuctionKeys, row: Row, rollbacks: nat, read: int, extended: int, seconds: int, written: int,
                         previous: Snapshot)
    requires KeysInOrder(keys, row, rollbacks) && previous.price.Some? && 0 < seconds
    requires read <= extended <= written && Live(keys.active, extended) && Live(keys.price, extended)
    ensures var after := WriteBack(ExtendAuctionTime(keys, extended, seconds), written, previous, Ttl(keys.price, read));
            var gone := keys.price.expiry.deadline;
            var rounding := 500 - (gone - read + 500) % 1000;
            && after.active == Stored(keys.active.value, At(extended + 1000 * seconds))
            && Expires(after.price)
            && (after.active.expiry.deadline <= after.price.expiry.deadline <==>
                  extended + 1000 * seconds <= if gone - read < 500 then written + BUFFER_MS else gone + (written - read) + rounding)
  {
  }

  const LONGER := DURATION + 2 * HOUR_MS

  const EXTENSION := UpdateAuction(OWNER, Changes(None, None, None, Some(LONGER)))

  const UNSAVED := [RunScript(0), Save(0, false), ReadTtl(0)]

  const STRADDLED := [EXTENSION, RollBack(0), Tick(DURATION + HOUR_MS)]

  /** A bid that is not saved, and whose rollback reads the remaining time before the owner extends and writes after it. */
  function Straddling(config: BidConfig): seq<Action> {
    Opening() + (DecidingSteps(0, BIDDER, Clearing(config, START)) + (UNSAVED + STRADDLED))
  }

  /** Two seconds into the auction; the price key shows `price` and the bidder key has no expiry if there is one. */
  predicate Opened2s(s: State, price: int, bidder: Key) {
    && s.now == 2000 && s.rollbacks == 0 && s.auction.bids == []
    && s.auction.row.Some? && s.auction.row.value.status == Active
    && s.auction.row.value.ownerId == OWNER && s.auction.row.value.endTime == DURATION
    && s.auction.keys == AuctionKeys(Stored(1, At(DURATION)), Stored(price, At(DURATION + BUFFER_MS)),
                                     Stored(OWNER, At(DURATION + BUFFER_MS)), bidder)
  }

  lemma RunFirst(config: BidConfig, s: State, action: Action, rest: seq<Action>)
    ensures Run(config, s, [action] + rest) == Run(config, Next(config, s, action), rest)
    ensures TimelyRun(config, s, [action] + rest) <==> Timely(s, action) && TimelyRun(config, Next(config, s, action), rest)
  {
    assert ([action] + rest)[1..] == rest;
  }

  lemma Run3(config: BidConfig, s: State, a: Action, b: Action, c: Action)
    ensures Run(config, s, [a, b, c]) == Next(config, Next(config, Next(config, s, a), b), c)
    ensures TimelyRun(config, s, [a, b, c]) <==>
            && Timely(s, a) && Timely(Next(config, s, a), b) && Timely(Next(config, Next(config, s, a), b), c)
  {
    var t := Next(config, s, a);
    var u := Next(config, t, b);
    assert [a, b, c] == [a] + ([b] + ([c] + []));
    RunFirst(config, s, a, [b] + ([c] + []));
    RunFirst(config, t, b, [c] + []);
    RunFirst(config, u, c, []);
  }

  lemma Unsaved(config: BidConfig, s: State, price: int)
    requires Opened2s(s, price, Stored(BIDDER, Never)) && IsSaving(s, 0)
    ensures var t := Next(config, Next(config, s, Save(0, false)), ReadTtl(0));
            && Opened2s(t, price, Stored(BIDDER, Never))
            && IsRestoring(t, 0) && t.calls[0].phase == Restoring(s.calls[0].phase.previous, 39598)
  {
  }

  lemma UnsavedRun(config: BidConfig, s: State)
    requires Opened2s(s, START, Missing) && 0 in s.calls
    requires s.calls[0] == Call(BIDDER, Clearing(config, START), Ready(CalcMinIncrement(START, config)))
    ensures var t := Run(config, s, UNSAVED);
            && Opened2s(t, Clearing(config, START), Stored(BIDDER, Never))
            && IsRestoring(t, 0) && t.calls[0].phase == Restoring(Snapshot(Some(START), None), 39598)
  {
    Run3(config, s, RunScript(0), Save(0, false), ReadTtl(0));
    Unsaved(config, Next(config, s, RunScript(0)), Clearing(config, START));
  }

  lemma ExtendedLate(config: BidConfig, s: State, price: int)
    requires Opened2s(s, price, Stored(BIDDER, Never)) && IsRestoring(s, 0)
    ensures var t := Next(config, s, EXTENSION);
            && Timely(s, EXTENSION) && t.calls == s.calls && t.now == s.now && t.rollbacks == 0
            && t.auction.keys.active == Stored(1, At(LONGER))
  {
    var row := s.auction.row.value;
    assert SecondsLeft(2000, LONGER) == 43198;
    assert UpdateRefusal(s.auction, 2000, OWNER, EXTENSION.changes).None?;
  }

  lemma StraddledRun(config: BidConfig, s: State, price: int)
    requires Opened2s(s, price, Stored(BIDDER, Never)) && IsRestoring(s, 0)
    requires s.calls[0].phase == Restoring(Snapshot(Some(START), None), 39598)
    ensures var t := Run(config, s, STRADDLED);
            TimelyRun(config, s, STRADDLED) && t.rollbacks == 1 && !PriceOutlivesActive(t)
  {
    Run3(config, s, EXTENSION, RollBack(0), Tick(DURATION + HOUR_MS));
    ExtendedLate(config, s, price);
    var written := Next(config, Next(config, s, EXTENSION), RollBack(0));
    assert written.auction.keys.price == Stored(START, At(DURATION + BUFFER_MS));
  }

  lemma {:induction false} PunctualIsTimely(config: BidConfig, s: State, actions: seq<Action>)
    requires PunctualRun(config, s, actions)
    ensures TimelyRun(config, s, actions)
    decreases |actions|
  {
    if actions == [] {
    } else {
      PunctualIsTimely(config, Next(config, s, actions[0]), actions[1..]);
    }
  }

  lemma {:induction false} TimelyAppend(config: BidConfig, s: State, first: seq<Action>, second: seq<Action>)
    requires TimelyRun(config, s, first) && TimelyRun(config, Run(config, s, first), second)
    ensures TimelyRun(config, s, first + second)
    decreases |first|
  {
    if first == [] {
      assert first + second == second;
    } else {
      assert (first + second)[1..] == first[1..] + second;
      TimelyAppend(config, Next(config, s, first[0]), first[1..], second);
    }
  }

  lemma QuietIsTimely(config: BidConfig, s: State, actions: seq<Action>)
    requires QuietRun(actions)
    ensures TimelyRun(config, s, actions)
  {
    QuietIsPunctual(config, s, actions);
    PunctualIsTimely(config, s, actions);
  }

  /** One rollback is enough when the owner extends the auction by more than an hour in its midst. */
  lemma OneStraddledIsEnough(config: BidConfig)
    ensures TimelyRun(config, Initial(0), Straddling(config))
    ensures var s := Run(config, Initial(0), Straddling(config)); s.rollbacks == 1 && !PriceOutlivesActive(s)
  {
    Opened(config);
    PunctualIsTimely(config, Initial(0), Opening());
    var s := Run(config, Initial(0), Opening());
    var deciding := DecidingSteps(0, BIDDER, Clearing(config, START));
    IncrementMonotone(START, START, config);
    DecidingRun(config, s, 0, BIDDER, Clearing(config, START));
    QuietIsTimely(config, s, deciding);
    var t := Run(config, s, deciding);
    UnsavedRun(config, t);
    QuietIsTimely(config, t, UNSAVED);
    var u := Run(config, t, UNSAVED);
    StraddledRun(config, u, Clearing(config, START));
    RunAppend(config, t, UNSAVED, STRADDLED);
    TimelyAppend(config, t, UNSAVED, STRADDLED);
    RunAppend(config, s, deciding, UNSAVED + STRADDLED);
    TimelyAppend(config, s, deciding, UNSAVED + STRADDLED);
    RunAppend(config, Initial(0), Opening(), deciding + (UNSAVED + STRADDLED));
    TimelyAppend(config, Initial(0), Opening(), deciding + (UNSAVED + STRADDLED));
  }

  /** Every state reached from `Initial` by a timely run with at most `n` rollbacks. */
  ghost predicate TimelyReached(config: BidConfig, s: State, n: nat) {
    exists start, actions :: TimelyReaches(config, start, actions, s) && s.rollbacks <= n
  }

  predicate TimelyReaches(config: BidConfig, start: int, actions: seq<Action>, s: State) {
    TimelyRun(config, Initial(start), actions) && s == Run(config, Initial(start), actions)
  }

  /** As long as no rollback writes, the deadlines stay in order, whatever is extended and lost. */
  lemma {:induction false} UnwrittenStaysInOrder(config: BidConfig, s: State, actions: seq<Action>)
    requires StoreOk(s) && s.rollbacks == 0 && TimelyRun(config, s, actions) && Run(config, s, actions).rollbacks == 0
    ensures StoreOk(Run(config, s, actions))
    decreases |actions|
  {
    if actions == [] {
    } else {
      var t := Next(config, s, actions[0]);
      RollbacksGrowStep(config, s, actions[0]);
      RollbacksGrow(config, t, actions[1..]);
      if Background(actions[0]) {
        BackgroundKeepsStore(config, s, actions[0]);
      } else {
        CallsKeepActive(config, s, actions[0]);
      }
      UnwrittenStaysInOrder(config, t, actions[1..]);
    }
  }

  /** Where extensions may straddle rollbacks, no rollback at all is safe. */
  lemma StraddlingAllowsNoRollback(config: BidConfig, n: nat)
    ensures (forall s :: TimelyReached(config, s, n) ==> PriceOutlivesActive(s)) <==> n == 0
  {
    if n == 0 {
      forall s | TimelyReached(config, s, n)
        ensures PriceOutlivesActive(s)
      {
        var start, actions :| TimelyReaches(config, start, actions, s) && s.rollbacks <= n;
        UnwrittenStaysInOrder(config, Initial(start), actions);
      }
    } else {
      OneStraddledIsEnough(config);
      var s := Run(config, Initial(0), Straddling(config));
      assert TimelyReaches(config, 0, Straddling(config), s);
      assert TimelyReached(config, s, n) && !PriceOutlivesActive(s);
    }
  }
}
