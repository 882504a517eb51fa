/** Exactly when compensating rollbacks are safe: each one must undo the latest accepted bid. */
module RollbackOrder {
  import opened Wrappers
  import opened RedisKeys
  import opened Increment
  import opened Protocol
  import opened Expiry
  import opened Agreement
  import opened WholeBid
  import opened Wear

  predicate KeepsRedis(actions: seq<Action>) {
    forall i :: 0 <= i < |actions| ==> !actions[i].LoseRedis?
  }

  /** Every rollback that reaches Redis undoes the latest accepted bid. */
  predicate LastFirst(config: BidConfig, s: State, actions: seq<Action>)
    decreases |actions|
  {
    actions == [] || (!Harmful(s, actions[0]) && LastFirst(config, Next(config, s, actions[0]), actions[1..]))
  }

  /** Redis agrees with the accepted bids in every state of the run. */
  ghost predicate AgreesThroughout(config: BidConfig, s: State, actions: seq<Action>)
    decreases |actions|
  {
    Agrees(s) && (actions == [] || AgreesThroughout(config, Next(config, s, actions[0]), actions[1..]))
  }

  lemma {:induction false} WithoutKeepsLast(log: seq<Entry>, c: nat)
    requires log != [] && log[|log| - 1].call != c
    ensures Without(log, c) != [] && Without(log, c)[|Without(log, c)| - 1] == log[|log| - 1]
  {
  }

  /** A rollback of any bid but the latest leaves Redis below the top accepted bid. */
  lemma HarmfulRollsBelow(s: State, c: nat)
    requires InAgreement(s) && Harmful(s, RollBack(c))
    ensures var t := RollBackStep(s, c);
            && t.log != [] && PriceLive(t) && t.auction.row.Some?
            && Get(t.auction.keys.price, t.now).value < TopPrice(t.log, t.auction.row.value.startingPrice)
  {
    assert CallOk(s, c);
    var row := s.auction.row.value;
    var previous := s.calls[c].phase.previous;
    var at :| PlacedAt(s, c, previous, at);
    var n := |s.log| - 1;
    assert at < n;
    WithoutKeepsLast(s.log, c);
    assert Outbids(s.log, at, row);
    ChainIncreases(s.log, row, at, n);
  }

  /**
   Whether saves fail or not, Redis equals the latest accepted bid not rolled back in every state
   of a run exactly when rollbacks happen last-accepted-first.
   */
  lemma {:induction false} AgreesExactlyWhenLastFirst(config: BidConfig, s: State, actions: seq<Action>)
    requires InAgreement(s) && RegularRun(config, s, actions) && KeepsRedis(actions)
    ensures AgreesThroughout(config, s, actions) <==> LastFirst(config, s, actions)
    decreases |actions|
  {
    if actions == [] {
    } else {
      var action := actions[0];
      if Harmful(s, action) {
        HarmfulRollsBelow(s, action.call);
      } else {
        AgreementStep(config, s, action);
        AgreesExactlyWhenLastFirst(config, Next(config, s, action), actions[1..]);
      }
    }
  }

  lemma {:induction false} LastFirstIsFaithful(config: BidConfig, s: State, actions: seq<Action>)
    requires RegularRun(config, s, actions) && KeepsRedis(actions) && LastFirst(config, s, actions)
    ensures FaithfulRun(config, s, actions)
    decreases |actions|
  {
    if actions == [] {
    } else {
      LastFirstIsFaithful(config, Next(config, s, actions[0]), actions[1..]);
    }
  }

  // --- A run that needs the order ---

  /** A bid decided on and accepted, not saved yet. */
  function AcceptingSteps(c: nat, user: int, amount: int): seq<Action> {
    DecidingSteps(c, user, amount) + [RunScript(c)]
  }

  /** Redis takes bids, and shows this price and bidder. */
  predicate Shows(s: State, price: int, bidder: Option<int>) {
    var keys := s.auction.keys;
    && Live(keys.active, s.now) && Get(keys.owner, s.now) == Some(OWNER)
    && Get(keys.price, s.now) == Some(price) && Get(keys.bidder, s.now) == bidder
  }

  lemma AcceptingRun(config: BidConfig, s: State, c: nat, user: int, price: int, bidder: Option<int>)
    requires c !in s.calls && user != OWNER && 0 < price && Shows(s, price, bidder) && bidder != Some(user)
    ensures var amount := Clearing(config, price);
            var t := Run(config, s, AcceptingSteps(c, user, amount));
            && amount > price && Shows(t, amount, Some(user))
            && t.log == s.log + [Entry(c, user, amount)] && t.rollbacks == s.rollbacks
            && t.calls.Keys == s.calls.Keys + {c} && IsSaving(t, c)
            && (forall d :: d in s.calls ==> t.calls[d] == s.calls[d])
  {
    var amount := Clearing(config, price);
    IncrementMonotone(price, price, config);
    DecidingRun(config, s, c, user, amount);
    RunLast(config, s, DecidingSteps(c, user, amount), RunScript(c));
  }

  /** Two bids in flight, the first of which cannot be saved. */
  function Crossing(config: BidConfig): seq<Action> {
    var first := Clearing(config, START);
    AcceptingSteps(0, 2, first) + (AcceptingSteps(1, 3, Clearing(config, first)) + [Save(0, false), ReadTtl(0)])
  }

  lemma CrossingRun(config: BidConfig, s: State)
    requires s.calls == map[] && Shows(s, START, None)
    ensures var t := Run(config, s, Crossing(config));
            Harmful(t, RollBack(0)) && t.rollbacks == s.rollbacks
  {
    var first := Clearing(config, START);
    var second := Clearing(config, first);
    AcceptingRun(config, s, 0, 2, START, None);
    var t := Run(config, s, AcceptingSteps(0, 2, first));
    AcceptingRun(config, t, 1, 3, first, Some(2));
    var u := Run(config, t, AcceptingSteps(1, 3, second));
    FailedSave(config, u, 0);
    RunAppend(config, s, AcceptingSteps(0, 2, first), AcceptingSteps(1, 3, second) + [Save(0, false), ReadTtl(0)]);
    RunAppend(config, t, AcceptingSteps(1, 3, second), [Save(0, false), ReadTtl(0)]);
  }

  /** A bid that cannot be saved while a later one stands leaves a harmful rollback to be done. */
  lemma FailedSave(config: BidConfig, s: State, c: nat)
    requires IsSaving(s, c) && PriceLive(s) && s.log != [] && s.log[|s.log| - 1].call != c
    ensures var t := Run(config, s, [Save(c, false), ReadTtl(c)]);
            Harmful(t, RollBack(c)) && t.rollbacks == s.rollbacks
  {
    var steps := [Save(c, false), ReadTtl(c)];
    assert steps == [Save(c, false)] + [ReadTtl(c)];
    RunLast(config, s, [Save(c, false)], ReadTtl(c));
    assert [Save(c, false)] == [] + [Save(c, false)];
    RunLast(config, s, [], Save(c, false));
  }

  lemma CrossingIsQuiet(config: BidConfig)
    ensures QuietRun(Crossing(config)) && KeepsRedis(Crossing(config))
  {
  }

  /** Two accepted bids in flight and the first save failing: its rollback, which nothing prevents, is harmful. */
  lemma HarmIsReachable(config: BidConfig)
    ensures var actions := Opening() + Crossing(config);
            && RegularRun(config, Initial(0), actions) && KeepsRedis(actions)
            && Harmful(Run(config, Initial(0), actions), RollBack(0))
  {
    Opened(config);
    var s := Run(config, Initial(0), Opening());
    CrossingRun(config, s);
    RunAppend(config, Initial(0), Opening(), Crossing(config));
    CrossingIsQuiet(config);
    QuietIsPunctual(config, s, Crossing(config));
    PunctualAppend(config, Initial(0), Opening(), Crossing(config));
    FewRollbacksAreRegular(config, Initial(0), Opening() + Crossing(config));
  }
}
