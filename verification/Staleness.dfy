/** A bid is checked against an increment read earlier; without rollbacks that is never too strict. */
module Staleness {
  import opened RedisKeys
  import opened Increment
  import opened Protocol
  import opened Expiry
  import opened Agreement
  import opened RollbackOrder
  import opened BidTable

  /** What a call has read lies at or below the top accepted bid. */
  predicate Behind(s: State, c: nat)
    requires c in s.calls
  {
    var call := s.calls[c];
    match call.phase
    case Reading(_, _, price) =>
      price.Some? && price.value.Some? ==>
        s.auction.row.Some? && price.value.value <= TopPrice(s.log, s.auction.row.value.startingPrice)
    case _ => true
  }

  /** An increment computed from such a price is at most the one due now. */
  predicate Lenient(config: BidConfig, s: State, c: nat)
    requires c in s.calls
  {
    var call := s.calls[c];
    call.phase.Ready? ==>
      && s.auction.row.Some?
      && call.phase.increment <= CalcMinIncrement(TopPrice(s.log, s.auction.row.value.startingPrice), config)
  }

  ghost predicate ReadsBehind(config: BidConfig, s: State) {
    && (s.auction.row.Some? ==> s.auction.row.value.startingPrice >= 1)
    && NothingToRollBack(s)
    && forall c :: c in s.calls ==> Behind(s, c) && Lenient(config, s, c)
  }

  lemma ReadsBehindStep(config: BidConfig, s: State, action: Action)
    requires InAgreement(s) && ReadsBehind(config, s) && Faithful(s, action)
    requires !(action.Save? && !action.ok)
    ensures ReadsBehind(config, Next(config, s, action))
  {
    var t := Next(config, s, action);
    TopRises(config, s, action);
    forall c | c in t.calls ensures Behind(t, c) && Lenient(config, t, c) {
      if c in s.calls && t.calls[c] == s.calls[c] {
        StaysBehind(config, s, t, c);
      } else {
        ChangedCallBehind(config, s, action, c);
      }
    }
  }

  /** What is behind stays behind as the top price rises. */
  lemma StaysBehind(config: BidConfig, s: State, t: State, c: nat)
    requires c in s.calls && Behind(s, c) && Lenient(config, s, c)
    requires c in t.calls && t.calls[c] == s.calls[c]
    requires s.auction.row.Some? ==>
               && t.auction.row.Some? && t.auction.row.value.startingPrice == s.auction.row.value.startingPrice
               && TopPrice(s.log, s.auction.row.value.startingPrice) <= TopPrice(t.log, t.auction.row.value.startingPrice)
    ensures Behind(t, c) && Lenient(config, t, c)
  {
    if s.auction.row.Some? {
      var start := s.auction.row.value.startingPrice;
      IncrementMonotone(TopPrice(s.log, start), TopPrice(t.log, start), config);
    }
  }

  /** A step that changes a call leaves it behind, too. */
  lemma ChangedCallBehind(config: BidConfig, s: State, action: Action, c: nat)
    requires InAgreement(s) && ReadsBehind(config, s) && c in Next(config, s, action).calls
    requires c in s.calls ==> Next(config, s, action).calls[c] != s.calls[c]
    ensures Behind(Next(config, s, action), c) && Lenient(config, Next(config, s, action), c)
  {
    if c in s.calls {
      assert Behind(s, c);
      if action.Decide? {
        DecidedLeniently(config, s, c);
      } else {
        PriceReadBehind(config, s, action, c);
      }
    }
  }

  /** A price read now is that of the top accepted bid. */
  lemma PriceReadBehind(config: BidConfig, s: State, action: Action, c: nat)
    requires InAgreement(s) && ReadsBehind(config, s) && c in s.calls && Behind(s, c) && !action.Decide?
    requires c in Next(config, s, action).calls && Next(config, s, action).calls[c] != s.calls[c]
    ensures Behind(Next(config, s, action), c) && Lenient(config, Next(config, s, action), c)
  {
  }

  /** Without rollbacks the top accepted price never falls. */
  lemma TopRises(config: BidConfig, s: State, action: Action)
    requires InAgreement(s) && ReadsBehind(config, s) && Faithful(s, action)
    requires !(action.Save? && !action.ok)
    ensures var t := Next(config, s, action);
            && NothingToRollBack(t)
            && (t.auction.row.Some? ==> t.auction.row.value.startingPrice >= 1)
            && (s.auction.row.Some? ==>
                  && t.auction.row.Some? && t.auction.row.value.startingPrice == s.auction.row.value.startingPrice
                  && TopPrice(s.log, s.auction.row.value.startingPrice) <= TopPrice(t.log, t.auction.row.value.startingPrice))
  {
    var t := Next(config, s, action);
    if action.RunScript? && IsReady(s, action.call) {
      AgreementStep(config, s, action);
      if t.log != s.log {
        assert Outbids(t.log, |s.log|, t.auction.row.value);
        assert t.log[..|s.log|] == s.log;
      }
    } else {
      LogStays(config, s, action);
    }
  }

  /** Nothing but the script and a rollback touches the log, and the starting price is fixed. */
  lemma LogStays(config: BidConfig, s: State, action: Action)
    requires NothingToRollBack(s) && !(action.RunScript? && IsReady(s, action.call))
    requires s.auction.row.Some? ==> s.auction.row.value.startingPrice >= 1
    requires !(action.Save? && !action.ok)
    ensures var t := Next(config, s, action);
            && NothingToRollBack(t) && t.log == s.log
            && (s.auction.row.Some? ==>
                  t.auction.row.Some? && t.auction.row.value.startingPrice == s.auction.row.value.startingPrice)
            && (t.auction.row.Some? ==> t.auction.row.value.startingPrice >= 1)
  {
  }

  lemma DecidedLeniently(config: BidConfig, s: State, c: nat)
    requires InAgreement(s) && ReadsBehind(config, s) && IsReading(s, c)
    ensures Lenient(config, DecideStep(s, c, config), c)
  {
    assert CallOk(s, c) && Behind(s, c);
    var t := DecideStep(s, c, config);
    if t.calls[c].phase.Ready? {
      var top := TopPrice(s.log, s.auction.row.value.startingPrice);
      if s.log != [] {
        assert Outbids(s.log, 0, s.auction.row.value);
        if |s.log| > 1 { ChainIncreases(s.log, s.auction.row.value, 0, |s.log| - 1); }
      }
      IncrementMonotone(s.calls[c].phase.price.value.GetOr(0), top, config);
    }
  }

  lemma {:induction false} ReadsBehindAlways(config: BidConfig, s: State, actions: seq<Action>)
    requires InAgreement(s) && ReadsBehind(config, s)
    requires RegularRun(config, s, actions) && KeepsRedis(actions) && SavesSucceed(actions)
    ensures InAgreement(Run(config, s, actions)) && ReadsBehind(config, Run(config, s, actions))
    decreases |actions|
  {
    if actions == [] {
    } else {
      ReadsBehindStep(config, s, actions[0]);
      AgreementStep(config, s, actions[0]);
      ReadsBehindAlways(config, Next(config, s, actions[0]), actions[1..]);
    }
  }

  /**
   In concurrent runs whose saves succeed, every bid the script accepts beats the price it meets
   by a positive increment no larger than the one due at that price, and that price is the top
   accepted bid.
   */
  lemma AcceptedBidsClearTheirPrice(config: BidConfig, start: int, actions: seq<Action>, c: nat)
    requires RegularRun(config, Initial(start), actions) && KeepsRedis(actions) && SavesSucceed(actions)
    requires var s := Run(config, Initial(start), actions);
             IsReady(s, c) && IsSaving(Next(config, s, RunScript(c)), c)
    ensures var s := Run(config, Initial(start), actions);
            && PriceLive(s) && s.auction.row.Some?
            && var price := Get(s.auction.keys.price, s.now).value;
            && price == TopPrice(s.log, s.auction.row.value.startingPrice)
            && 0.0 < s.calls[c].phase.increment <= CalcMinIncrement(price, config)
            && s.calls[c].amount as real >= price as real + s.calls[c].phase.increment
  {
    ReadsBehindAlways(config, Initial(start), actions);
    var s := Run(config, Initial(start), actions);
    assert CallOk(s, c) && Lenient(config, s, c);
    ActiveImpliesPresent(s);
  }
}
