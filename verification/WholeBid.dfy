/**
 One `placeBid` call that nothing interrupts: what it does, what a failed save undoes, and how a
 series of them raises the price.
 */
module WholeBid {
  import opened Wrappers
  import opened RedisKeys
  import opened Increment
  import opened Auctions
  import opened Protocol
  import opened Expiry

  /** The auction and the outcome after a call whose save succeeds or fails as `saveOk` says. */
  function Place(config: BidConfig, a: Auction, now: int, user: int, amount: int, saveOk: bool): (Auction, Outcome) {
    if amount <= 0 then (a, InvalidAmount)
    else
      var decision := Decision(user, amount, Get(a.keys.owner, now), Live(a.keys.active, now), Get(a.keys.price, now), config);
      if decision.Finished? then (a, decision.outcome)
      else
        var (keys, reply) := PlaceBid(a.keys, now, amount, user, decision.increment);
        match reply
        case Rejected(code) => (a, RejectionOutcome(code))
        case Accepted(previous) =>
          if saveOk then (a.(keys := keys, bids := a.bids + [SavedBid(user, amount)]), Success)
          else (a.(keys := RollbackBid(keys, now, previous)), ServerError)
  }

  /** What is due on top of the price shown, or from nothing when none is. */
  function Minimum(config: BidConfig, price: Option<int>): real {
    if price.Some? then price.value as real + CalcMinIncrement(price.value, config) else CalcMinIncrement(0, config)
  }

  /** Bids are taken, and not of this user's own auction. */
  predicate OpenTo(seen: LiveView, user: int) {
    seen.owner.Some? && seen.owner.value != user && seen.active
  }

  /**
   Each outcome of an uninterrupted call has its exact condition on what Redis shows. The bid goes
   through exactly when it is positive and at least the minimum, by somebody who neither owns nor leads
   an auction that takes bids.
   */
  lemma PlacedExactly(config: BidConfig, a: Auction, now: int, user: int, amount: int, saveOk: bool)
    ensures var outcome, seen := Place(config, a, now, user, amount, saveOk).1, ViewOf(a.keys, now);
            var enough := amount as real >= Minimum(config, seen.price);
            && (outcome == InvalidAmount <==> amount <= 0)
            && (outcome == OwnerCannotBid <==> amount > 0 && seen.owner == Some(user))
            && (outcome == AuctionEnded <==> amount > 0 && seen.owner != Some(user) && !OpenTo(seen, user))
            && (outcome == TooLow <==> amount > 0 && OpenTo(seen, user) && seen.price.Some? && !enough)
            && (outcome == AlreadyLeadingOutcome <==>
                  amount > 0 && OpenTo(seen, user) && seen.bidder == Some(user) && (seen.price.Some? ==> enough))
            && (outcome == Outbid <==>
                  amount > 0 && OpenTo(seen, user) && seen.bidder != Some(user) && seen.price.None? && !enough)
            && (outcome == Success || outcome == ServerError <==>
                  amount > 0 && OpenTo(seen, user) && seen.bidder != Some(user) && enough)
            && (outcome == Success ==> saveOk) && (outcome == ServerError ==> !saveOk)
  {
    BidDecidedExactly(a.keys, now, amount, user, CalcMinIncrement(Get(a.keys.price, now).GetOr(0), config));
  }

  /** And what it leaves: a bid that goes through shows and is the last one saved; a refused one changes nothing. */
  lemma PlacedShowsExactly(config: BidConfig, a: Auction, now: int, user: int, amount: int, saveOk: bool)
    ensures var (b, outcome) := Place(config, a, now, user, amount, saveOk);
            && b.row == a.row && b.startJob == a.startJob && b.endJob == a.endJob
            && (outcome != Success && outcome != ServerError ==> b == a)
            && (outcome == Success ==>
                  && ViewOf(b.keys, now) == ViewOf(a.keys, now).(price := Some(amount), bidder := Some(user))
                  && b.bids == a.bids + [SavedBid(user, amount)])
            && (outcome == ServerError ==> b.bids == a.bids && b.keys.active == a.keys.active && b.keys.owner == a.keys.owner)
  {
    BidShowsExactly(a.keys, now, amount, user, CalcMinIncrement(Get(a.keys.price, now).GetOr(0), config));
  }

  /** The steps of call `c` in a row; those that turn out not to be due change nothing. */
  function Steps(c: nat, user: int, amount: int, saveOk: bool): seq<Action> {
    DecidingSteps(c, user, amount) + WritingSteps(c, saveOk)
  }

  function DecidingSteps(c: nat, user: int, amount: int): seq<Action> {
    [Begin(c, user, amount), ReadOwner(c), ReadActive(c), ReadPrice(c), Decide(c)]
  }

  function WritingSteps(c: nat, saveOk: bool): seq<Action> {
    [RunScript(c), Save(c, saveOk), ReadTtl(c), RollBack(c)]
  }

  lemma {:induction false} RunAppend(config: BidConfig, s: State, first: seq<Action>, second: seq<Action>)
    ensures Run(config, s, first + second) == Run(config, Run(config, s, first), second)
    decreases |first|
  {
    if first == [] {
      assert first + second == second;
    } else {
      assert (first + second)[1..] == first[1..] + second;
      RunAppend(config, Next(config, s, first[0]), first[1..], second);
    }
  }

  lemma RunLast(config: BidConfig, s: State, first: seq<Action>, action: Action)
    ensures Run(config, s, first + [action]) == Next(config, Run(config, s, first), action)
  {
    RunAppend(config, s, first, [action]);
    assert [action][1..] == [];
  }

  lemma ReadingRun(config: BidConfig, s: State, c: nat, user: int, amount: int)
    requires c !in s.calls
    ensures var keys := s.auction.keys;
            Run(config, s, DecidingSteps(c, user, amount)[..4]) == s.(calls := s.calls[c := Call(user, amount,
              if amount <= 0 then Finished(InvalidAmount)
              else Reading(Some(Get(keys.owner, s.now)), Some(Live(keys.active, s.now)), Some(Get(keys.price, s.now))))])
  {
    var steps := DecidingSteps(c, user, amount);
    assert steps[..1] == [] + [Begin(c, user, amount)];
    RunLast(config, s, [], Begin(c, user, amount));
    assert steps[..2] == steps[..1] + [ReadOwner(c)];
    RunLast(config, s, steps[..1], ReadOwner(c));
    assert steps[..3] == steps[..2] + [ReadActive(c)];
    RunLast(config, s, steps[..2], ReadActive(c));
    assert steps[..4] == steps[..3] + [ReadPrice(c)];
    RunLast(config, s, steps[..3], ReadPrice(c));
  }

  lemma DecidingRun(config: BidConfig, s: State, c: nat, user: int, amount: int)
    requires c !in s.calls
    ensures var a := s.auction;
            Run(config, s, DecidingSteps(c, user, amount)) == s.(calls := s.calls[c := Call(user, amount,
              if amount <= 0 then Finished(InvalidAmount)
              else Decision(user, amount, Get(a.keys.owner, s.now), Live(a.keys.active, s.now), Get(a.keys.price, s.now), config))])
  {
    var steps := DecidingSteps(c, user, amount);
    ReadingRun(config, s, c, user, amount);
    assert steps == steps[..4] + [Decide(c)];
    RunLast(config, s, steps[..4], Decide(c));
  }

  /** Script, save and, where due, the two round trips of the rollback. */
  function Written(config: BidConfig, s: State, c: nat, saveOk: bool): State {
    Next(config, Next(config, Next(config, Next(config, s, RunScript(c)), Save(c, saveOk)), ReadTtl(c)), RollBack(c))
  }

  lemma WritingRun(config: BidConfig, s: State, c: nat, saveOk: bool)
    requires c in s.calls
    ensures Run(config, s, WritingSteps(c, saveOk)) == Written(config, s, c, saveOk)
  {
    var steps := WritingSteps(c, saveOk);
    assert steps[..1] == [] + [RunScript(c)];
    RunLast(config, s, [], RunScript(c));
    assert steps[..2] == steps[..1] + [Save(c, saveOk)];
    RunLast(config, s, steps[..1], Save(c, saveOk));
    assert steps[..3] == steps[..2] + [ReadTtl(c)];
    RunLast(config, s, steps[..2], ReadTtl(c));
    assert steps == steps[..3] + [RollBack(c)];
    RunLast(config, s, steps[..3], RollBack(c));
  }

  /** The call as a whole is the machine's steps of that call taken without a break. */
  lemma PlaceIsARun(config: BidConfig, s: State, c: nat, user: int, amount: int, saveOk: bool)
    requires c !in s.calls
    ensures var t := Run(config, s, Steps(c, user, amount, saveOk));
            var (a, outcome) := Place(config, s.auction, s.now, user, amount, saveOk);
            && t.now == s.now && t.auction == a && c in t.calls && t.calls[c].phase == Finished(outcome)
            && t.calls.Keys == s.calls.Keys + {c}
            && t.log == (if outcome == Success then s.log + [Entry(c, user, amount)] else s.log)
            && t.rollbacks == (if outcome == ServerError then s.rollbacks + 1 else s.rollbacks)
  {
    RunAppend(config, s, DecidingSteps(c, user, amount), WritingSteps(c, saveOk));
    DecidingRun(config, s, c, user, amount);
    var decided := Run(config, s, DecidingSteps(c, user, amount));
    WritingRun(config, decided, c, saveOk);
    if decided.calls[c].phase.Ready? {
      WritingIsPlacing(config, decided, c, saveOk);
    } else {
      NothingWritten(config, decided, c, saveOk);
    }
  }

  lemma NothingWritten(config: BidConfig, s: State, c: nat, saveOk: bool)
    requires c in s.calls && s.calls[c].phase.Finished?
    ensures Written(config, s, c, saveOk) == s
  {
  }

  /** Script, save and rollback of a call that decided to go on. */
  lemma WritingIsPlacing(config: BidConfig, s: State, c: nat, saveOk: bool)
    requires IsReady(s, c)
    ensures var t := Written(config, s, c, saveOk);
            var a, call := s.auction, s.calls[c];
            var (keys, reply) := PlaceBid(a.keys, s.now, call.amount, call.user, call.phase.increment);
            && t.now == s.now && t.calls.Keys == s.calls.Keys
            && (reply.Rejected? ==>
                  && t.auction == a && t.log == s.log && t.rollbacks == s.rollbacks
                  && t.calls[c].phase == Finished(RejectionOutcome(reply.code)))
            && (reply.Accepted? && saveOk ==>
                  && t.auction == a.(keys := keys, bids := a.bids + [SavedBid(call.user, call.amount)])
                  && t.log == s.log + [Entry(c, call.user, call.amount)] && t.rollbacks == s.rollbacks
                  && t.calls[c].phase == Finished(Success))
            && (reply.Accepted? && !saveOk ==>
                  && t.auction == a.(keys := RollbackBid(keys, s.now, reply.previous))
                  && t.log == s.log && t.rollbacks == s.rollbacks + 1
                  && t.calls[c].phase == Finished(ServerError))
  {
    var t := Next(config, s, RunScript(c));
    if IsSaving(t, c) {
      var u := Next(config, t, Save(c, saveOk));
      if !saveOk { UndoneAtOnce(config, u, c); }
    }
  }

  /** A rollback nothing interrupts does what `RollbackBid` says, and takes the bid off the log. */
  lemma UndoneAtOnce(config: BidConfig, s: State, c: nat)
    requires IsRollingBack(s, c) && PriceLive(s)
    ensures var t := Next(config, Next(config, s, ReadTtl(c)), RollBack(c));
            && t == s.(calls := t.calls, auction := t.auction, log := Without(s.log, c), rollbacks := s.rollbacks + 1)
            && t.calls == s.calls[c := s.calls[c].(phase := Finished(ServerError))]
            && t.auction == s.auction.(keys := RollbackBid(s.auction.keys, s.now, s.calls[c].phase.previous))
  {
    var u := Next(config, s, ReadTtl(c));
    assert IsRestoring(u, c);
    assert u.calls[c := u.calls[c].(phase := Finished(ServerError))] == s.calls[c := s.calls[c].(phase := Finished(ServerError))];
  }

  /**
   In every state of every regular run, a bid that nothing interrupts and that can be saved succeeds
   exactly when the auction takes bids, the bidder neither owns nor leads it, and the amount is at least
   the price plus the increment due at it, however much more that is.
   */
  lemma BidSucceedsExactly(config: BidConfig, start: int, actions: seq<Action>, c: nat, user: int, amount: int)
    requires RegularRun(config, Initial(start), actions)
    requires c !in Run(config, Initial(start), actions).calls
    ensures var s := Run(config, Initial(start), actions);
            var t := Run(config, s, Steps(c, user, amount, true));
            var seen := ViewOf(s.auction.keys, s.now);
            && c in t.calls
            && (t.calls[c].phase == Finished(Success) <==>
                  && seen.active && amount > 0
                  && s.auction.row.Some? && user != s.auction.row.value.ownerId && seen.bidder != Some(user)
                  && seen.price.Some? && amount as real >= seen.price.value as real + CalcMinIncrement(seen.price.value, config))
            && (t.calls[c].phase == Finished(Success) ==>
                  && t.auction.bids == s.auction.bids + [SavedBid(user, amount)]
                  && t.log == s.log + [Entry(c, user, amount)]
                  && ViewOf(t.auction.keys, t.now) == seen.(price := Some(amount), bidder := Some(user)))
  {
    var s := Run(config, Initial(start), actions);
    KeysOkAlways(config, Initial(start), actions);
    PlaceIsARun(config, s, c, user, amount, true);
    PlacedExactly(config, s.auction, s.now, user, amount, true);
    PlacedShowsExactly(config, s.auction, s.now, user, amount, true);
    if Live(s.auction.keys.active, s.now) { ActiveImpliesPresent(s); }
  }

  /**
   A bid whose save fails leaves everything Redis shows and every saved bid as they were; only the
   price key's deadline may have moved.
   */
  lemma FailedBidUndone(config: BidConfig, a: Auction, row: Row, rollbacks: nat, now: int, user: int, amount: int)
    requires KeysInOrder(a.keys, row, rollbacks) && rollbacks < MAX_ROLLBACKS
    ensures var b := Place(config, a, now, user, amount, false).0;
            && ViewOf(b.keys, now) == ViewOf(a.keys, now)
            && b.bids == a.bids && b.row == a.row && b.startJob == a.startJob && b.endJob == a.endJob
            && KeysInOrder(b.keys, row, rollbacks + 1)
            && b.keys.active == a.keys.active && b.keys.owner == a.keys.owner
  {
  }

  // --- One bid after another ---

  datatype Request = Request(now: int, user: int, amount: int)

  /** The auction after each request in turn, all saves succeeding. */
  function PlaceAll(config: BidConfig, a: Auction, requests: seq<Request>): Auction {
    if requests == [] then a
    else
      var n := |requests| - 1;
      Place(config, PlaceAll(config, a, requests[..n]), requests[n].now, requests[n].user, requests[n].amount, true).0
  }

  /** The prices the auction goes through, the first being where it stands. */
  function Ladder(config: BidConfig, a: Auction, requests: seq<Request>): seq<int>
    requires a.keys.price.Stored?
  {
    if requests == [] then [a.keys.price.value]
    else
      var n := |requests| - 1;
      var before := PlaceAll(config, a, requests[..n]);
      var outcome := Place(config, before, requests[n].now, requests[n].user, requests[n].amount, true).1;
      Ladder(config, a, requests[..n]) + if outcome == Success then [requests[n].amount] else []
  }

  lemma {:induction false} LadderClimbs(config: BidConfig, a: Auction, row: Row, requests: seq<Request>)
    requires KeysInOrder(a.keys, row, 0)
    ensures var b, ladder := PlaceAll(config, a, requests), Ladder(config, a, requests);
            && KeysInOrder(b.keys, row, 0)
            && |ladder| > 0 && ladder[0] == a.keys.price.value && b.keys.price.value == ladder[|ladder| - 1]
            && |b.bids| == |a.bids| + |ladder| - 1
            && FreshChain(ladder, config)
  {
    if requests == [] {
    } else {
      var n := |requests| - 1;
      var r := requests[n];
      LadderClimbs(config, a, row, requests[..n]);
      var before, steps := PlaceAll(config, a, requests[..n]), Ladder(config, a, requests[..n]);
      OneRung(config, before, row, r);
      if Place(config, before, r.now, r.user, r.amount, true).1 == Success {
        assert (steps + [r.amount])[..|steps|] == steps;
      } else {
        assert Ladder(config, a, requests) == steps;
      }
    }
  }

  lemma OneRung(config: BidConfig, a: Auction, row: Row, r: Request)
    requires KeysInOrder(a.keys, row, 0)
    ensures var (b, outcome) := Place(config, a, r.now, r.user, r.amount, true);
            && KeysInOrder(b.keys, row, 0)
            && (outcome != Success ==> b == a)
            && (outcome == Success ==>
                  && b.keys.price.value == r.amount && |b.bids| == |a.bids| + 1
                  && r.amount as real >= a.keys.price.value as real + CalcMinIncrement(a.keys.price.value, config))
  {
  }

  /** Bids placed one at a time from a positive price: n saved bids multiply it by (1 + percent/100)^n at least. */
  lemma SavedBidsCompound(config: BidConfig, a: Auction, row: Row, requests: seq<Request>)
    requires KeysInOrder(a.keys, row, 0) && a.keys.price.value > 0 && a.bids == []
    ensures var b := PlaceAll(config, a, requests);
            && b.keys.price.Stored?
            && Grown(|b.bids|, a.keys.price.value, b.keys.price.value, config.percent)
            && (b.keys.price.value <= PRICE_MAX ==>
                  Pow(100.0 + config.percent, |b.bids|) <= Pow(100.0, |b.bids|) * PRICE_MAX as real)
  {
    LadderClimbs(config, a, row, requests);
    CompoundGrowth(Ladder(config, a, requests), config);
    if PlaceAll(config, a, requests).keys.price.value <= PRICE_MAX {
      BidCountBounded(Ladder(config, a, requests), config);
    }
  }
}
