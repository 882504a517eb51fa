/** The end job names the right winner at the right price, and exactly when. */
module Winner {
  import opened Wrappers
  import opened RedisKeys
  import opened Increment
  import opened Auctions
  import opened Protocol
  import opened Expiry
  import opened Agreement
  import opened BidTable
  import opened Lifecycle

  predicate PricesPositive(s: State) {
    s.auction.row.Some? ==> s.auction.row.value.startingPrice >= 1
  }

  lemma {:induction false} PricesPositiveAlways(config: BidConfig, s: State, actions: seq<Action>)
    requires PricesPositive(s)
    ensures PricesPositive(Run(config, s, actions))
    decreases |actions|
  {
    if actions == [] {
    } else {
      PricesPositiveAlways(config, Next(config, s, actions[0]), actions[1..]);
    }
  }

  /** The price is the largest of the starting price and the saved amounts, and the winner placed the bid that reached it. */
  ghost predicate RightlyEnded(row: Row, bids: seq<SavedBid>) {
    && row.status == Ended && row.currentPrice.Some?
    && row.startingPrice <= row.currentPrice.value
    && (forall bid :: bid in bids ==> bid.amount <= row.currentPrice.value)
    && (bids == [] ==> row.currentPrice.value == row.startingPrice && row.winnerId.None?)
    && (bids != [] ==> row.winnerId.Some? && SavedBid(row.winnerId.value, row.currentPrice.value) in bids)
    && row.winnerId != Some(row.ownerId)
  }

  /** One uninterrupted run of the end job ends the auction rightly exactly when the latest accepted bid has been saved. */
  lemma EndsRightlyExactly(s: State, crash: Crash)
    requires InAgreement(s) && TableOk(s) && PricesPositive(s) && HasStatus(s, Active) && PriceLive(s)
    requires crash != BeforeCommit
    ensures var a := End(s.auction, s.now, crash);
            && a.row.Some? && a.row.value.status == Ended && a.bids == s.auction.bids
            && a.row.value.startingPrice == s.auction.row.value.startingPrice
            && a.row.value.currentPrice == Some(TopPrice(s.log, s.auction.row.value.startingPrice))
            && a.row.value.winnerId == TopUser(s.log)
            && (RightlyEnded(a.row.value, a.bids) <==> TopSaved(s))
  {
    if s.log != [] { LatestAboveStart(s); }
    EndedOnTheLatest(s, End(s.auction, s.now, crash).row.value);
  }

  /** A row ended on the latest accepted bid is right exactly when that bid has been saved. */
  lemma EndedOnTheLatest(s: State, row: Row)
    requires InAgreement(s) && TableOk(s) && s.auction.row.Some?
    requires row.status == Ended && row.startingPrice == s.auction.row.value.startingPrice
    requires row.ownerId == s.auction.row.value.ownerId
    requires row.currentPrice == Some(TopPrice(s.log, row.startingPrice)) && row.winnerId == TopUser(s.log)
    ensures RightlyEnded(row, s.auction.bids) <==> TopSaved(s)
  {
    var bids := s.auction.bids;
    if s.log != [] { LatestAboveStart(s); }
    forall bid | bid in bids
      ensures s.log != [] && bid.amount <= s.log[|s.log| - 1].amount
      ensures bid.amount == s.log[|s.log| - 1].amount ==> TopSaved(s)
    {
      SavedMeansAccepted(s, bid);
      assert WasAccepted(s, bid);
      LatestIsHighest(s, bid);
    }
    if bids != [] { assert bids[0] in bids; }
  }

  // --- After the end ---

  /** Ended rightly, closed to bids, and whatever is still being saved lies below the price. */
  ghost predicate StaysRight(s: State) {
    && s.auction.row.Some? && RightlyEnded(s.auction.row.value, s.auction.bids) && Closed(s)
    && forall c :: c in s.calls && IsSaving(s, c) ==>
         s.auction.bids != [] && s.calls[c].amount <= s.auction.row.value.currentPrice.value
  }

  lemma StaysRightStep(config: BidConfig, s: State, action: Action)
    requires JobsOk(s) && StaysRight(s)
    ensures StaysRight(Next(config, s, action))
  {
    var t := Next(config, s, action);
    ClosedStep(config, s, action);
    ClosedSaves(config, s, action);
    forall c | c in t.calls && IsSaving(t, c)
      ensures t.auction.bids != [] && t.calls[c].amount <= t.auction.row.value.currentPrice.value
    {
      assert IsSaving(s, c);
    }
  }

  /** On a closed auction nothing is accepted; a bid saved now is one that was being saved. */
  lemma ClosedSaves(config: BidConfig, s: State, action: Action)
    requires Closed(s)
    ensures var t := Next(config, s, action);
            && (t.auction.bids == s.auction.bids
                || (action.Save? && IsSaving(s, action.call)
                    && t.auction.bids == s.auction.bids + [SavedBid(s.calls[action.call].user, s.calls[action.call].amount)]))
            && forall c :: c in t.calls && IsSaving(t, c) ==> IsSaving(s, c) && t.calls[c] == s.calls[c]
  {
  }

  lemma {:induction false} StaysRightAlways(config: BidConfig, s: State, actions: seq<Action>)
    requires JobsOk(s) && StaysRight(s)
    ensures StaysRight(Run(config, s, actions))
    decreases |actions|
  {
    if actions == [] {
    } else {
      JobsOkStep(config, s, actions[0]);
      StaysRightStep(config, s, actions[0]);
      StaysRightAlways(config, Next(config, s, actions[0]), actions[1..]);
    }
  }

  /** Bids in flight when the end job fires lie at or below the price it writes. */
  lemma InFlightBelow(s: State, c: nat)
    requires InAgreement(s) && TableOk(s) && TopSaved(s) && c in s.calls && IsSaving(s, c)
    ensures s.log != [] && s.calls[c].amount <= s.log[|s.log| - 1].amount && s.auction.bids != []
  {
    assert CallOk(s, c);
    var at :| PlacedAt(s, c, s.calls[c].phase.previous, at);
    var n := |s.log| - 1;
    if at < n { ChainIncreases(s.log, s.auction.row.value, at, n); }
    assert SavedBid(s.log[n].user, s.log[n].amount) in s.auction.bids;
  }

  /** The row is right now and after whatever may still happen. */
  ghost predicate RightForGood(config: BidConfig, s: State) {
    forall actions :: RightAfter(config, s, actions)
  }

  ghost predicate RightAfter(config: BidConfig, s: State, actions: seq<Action>) {
    var t := Run(config, s, actions);
    t.auction.row.Some? && RightlyEnded(t.auction.row.value, t.auction.bids)
  }

  /** A state whose row is wrong is not right for good. */
  lemma WrongNow(config: BidConfig, s: State)
    requires RightForGood(config, s)
    ensures s.auction.row.Some? && RightlyEnded(s.auction.row.value, s.auction.bids)
  {
    assert RightAfter(config, s, []);
  }

  /** A row ended on the latest accepted and saved bid stays right, whatever still happens. */
  lemma EndedOnTheLatestStays(config: BidConfig, s: State, t: State)
    requires InAgreement(s) && TableOk(s) && TopSaved(s) && JobsOk(t) && Closed(t)
    requires t.calls == s.calls && t.auction.bids == s.auction.bids && RightlyEnded(t.auction.row.value, t.auction.bids)
    requires s.log != [] ==> t.auction.row.value.currentPrice.value == s.log[|s.log| - 1].amount
    ensures RightForGood(config, t)
  {
    forall c | c in t.calls && IsSaving(t, c)
      ensures t.auction.bids != [] && t.calls[c].amount <= t.auction.row.value.currentPrice.value
    {
      assert IsSaving(s, c);
      InFlightBelow(s, c);
    }
    forall actions ensures RightAfter(config, t, actions) {
      StaysRightAlways(config, t, actions);
    }
  }

  // --- The end job comes after the end ---

  /** An ACTIVE auction with an end job queued has its active key, and the job is not due before the end time. */
  predicate EndJobTimely(s: State) {
    HasStatus(s, Active) && s.auction.endJob.Some? ==>
      s.auction.keys.active.Stored? && s.auction.row.value.endTime <= s.auction.endJob.value
  }

  lemma EndJobTimelyStep(config: BidConfig, s: State, action: Action)
    requires KeysOk(s) && JobsOk(s) && EndJobTimely(s) && Faithful(s, action)
    ensures EndJobTimely(Next(config, s, action))
  {
  }

  lemma {:induction false} EndJobTimelyAlways(config: BidConfig, s: State, actions: seq<Action>)
    requires KeysOk(s) && JobsOk(s) && EndJobTimely(s) && FaithfulRun(config, s, actions)
    ensures EndJobTimely(Run(config, s, actions))
    decreases |actions|
  {
    if actions == [] {
    } else {
      KeysOkStep(config, s, actions[0]);
      JobsOkStep(config, s, actions[0]);
      EndJobTimelyStep(config, s, actions[0]);
      EndJobTimelyAlways(config, Next(config, s, actions[0]), actions[1..]);
    }
  }

  /** All that holds where the end job fires. */
  lemma Fires(config: BidConfig, start: int, before: seq<Action>)
    requires FaithfulRun(config, Initial(start), before)
    ensures var s := Run(config, Initial(start), before);
            && InAgreement(s) && TableOk(s) && PricesPositive(s) && JobsOk(s)
            && (HasStatus(s, Active) && s.auction.endJob.Some? && s.auction.endJob.value <= s.now ==>
                  s.auction.keys.active.Stored? && !Live(s.auction.keys.active, s.now))
  {
    TableOkAlways(config, Initial(start), before);
    PricesPositiveAlways(config, Initial(start), before);
    JobsOkAlways(config, Initial(start), before);
    EndJobTimelyAlways(config, Initial(start), before);
  }

  /**
   In every run in which rollbacks happen last-accepted-first, a run of the end job, wherever it may
   die, ends the auction rightly, for good and whatever its retries do, exactly when it gets as far as
   its commit, can still read the price, and the latest accepted bid has been saved.
   */
  lemma EndJobNamesTheWinner(config: BidConfig, start: int, before: seq<Action>, crash: Crash)
    requires FaithfulRun(config, Initial(start), before)
    requires var s := Run(config, Initial(start), before);
             HasStatus(s, Active) && s.auction.endJob.Some? && s.auction.endJob.value <= s.now
    ensures var s := Run(config, Initial(start), before);
            RightForGood(config, Next(config, s, EndJob(crash))) <==> crash != BeforeCommit && PriceLive(s) && TopSaved(s)
  {
    var s := Run(config, Initial(start), before);
    var t := Next(config, s, EndJob(crash));
    Fires(config, start, before);
    JobsOkStep(config, s, EndJob(crash));
    if crash != BeforeCommit && PriceLive(s) {
      EndsRightlyExactly(s, crash);
      if TopSaved(s) { EndedOnTheLatestStays(config, s, t); }
    }
    if RightForGood(config, t) { WrongNow(config, t); }
  }

  /** Within an hour of the end time, less the losses of rounding, the latest saved bid decides alone. */
  lemma EndJobInTime(config: BidConfig, start: int, before: seq<Action>, crash: Crash)
    requires FaithfulRun(config, Initial(start), before) && crash != BeforeCommit
    requires var s := Run(config, Initial(start), before);
             && HasStatus(s, Active) && s.auction.endJob.Some? && s.auction.endJob.value <= s.now
             && s.now <= s.auction.row.value.endTime + BUFFER_MS - 1000 - ROLLBACK_LOSS * s.rollbacks
    ensures var s := Run(config, Initial(start), before);
            && (RightForGood(config, Next(config, s, EndJob(crash))) <==> TopSaved(s))
            && (Quiescent(s) ==> TopSaved(s))
  {
    var s := Run(config, Initial(start), before);
    EndJobNamesTheWinner(config, start, before, crash);
    Fires(config, start, before);
    ReadableForAnHour(s);
    if Quiescent(s) { QuiescentTopSaved(s); }
  }

  // --- Between the two reads of the end job ---

  /** Opened, and closed to bids since. */
  predicate Over(s: State) {
    s.auction.row.Some? && !Live(s.auction.keys.active, s.now) && (Terminal(s) || s.auction.keys.active.Stored?)
  }

  /** Once an auction is over, accepted bids are only ever rolled back. */
  lemma OverStep(config: BidConfig, s: State, action: Action)
    requires InAgreement(s) && JobsOk(s) && Over(s) && !Unopened(s) && Faithful(s, action)
    ensures var t := Next(config, s, action); Over(t) && !Unopened(t) && t.log <= s.log
  {
    if Background(action) {
      BackgroundShape(config, s, action);
      OverBackground(config, s, action);
    } else if EffectiveRollback(s, action) {
      RollBackRestores(s, action.call);
    }
  }

  lemma OverBackground(config: BidConfig, s: State, action: Action)
    requires KeysOk(s) && JobsOk(s) && Over(s) && !Unopened(s) && Faithful(s, action) && Background(action)
    ensures var t := Next(config, s, action); Over(t) && !Unopened(t)
  {
  }

  lemma {:induction false} OverAlways(config: BidConfig, s: State, actions: seq<Action>)
    requires InAgreement(s) && TableOk(s) && JobsOk(s) && Over(s) && !Unopened(s) && FaithfulRun(config, s, actions)
    ensures var t := Run(config, s, actions);
            InAgreement(t) && TableOk(t) && JobsOk(t) && Over(t) && t.log <= s.log
    decreases |actions|
  {
    if actions == [] {
    } else {
      AgreementStep(config, s, actions[0]);
      TableOkStep(config, s, actions[0]);
      JobsOkStep(config, s, actions[0]);
      OverStep(config, s, actions[0]);
      OverAlways(config, Next(config, s, actions[0]), actions[1..]);
    }
  }

  /**
   The end job reads the price at `s` and the winner at `t`. If rollbacks come in between, and only
   if they do or the latest bid is not saved, what it writes is wrong: a price nobody was left to pay.
   */
  lemma TornReadExactly(config: BidConfig, start: int, before: seq<Action>, between: seq<Action>)
    requires FaithfulRun(config, Initial(start), before)
    requires FaithfulRun(config, Run(config, Initial(start), before), between)
    requires var s := Run(config, Initial(start), before);
             HasStatus(s, Active) && s.auction.endJob.Some? && s.auction.endJob.value <= s.now && PriceLive(s)
    requires var t := Run(config, Run(config, Initial(start), before), between); HasStatus(t, Active) && PriceLive(t)
    ensures var s := Run(config, Initial(start), before);
            var t := Run(config, s, between);
            var ended := t.(auction := EndAt(t.auction, t.now, FinalPrice(s.auction, s.now), NoCrash));
            RightForGood(config, ended) <==> t.log == s.log && TopSaved(t)
  {
    var s := Run(config, Initial(start), before);
    var t := Run(config, s, between);
    Fires(config, start, before);
    OverAlways(config, s, between);
    EndTimeNeverDecreases(config, s, between);
    TornRead(config, s, t);
  }

  lemma TornRead(config: BidConfig, s: State, t: State)
    requires InAgreement(s) && PricesPositive(s) && PriceLive(s) && HasStatus(s, Active)
    requires InAgreement(t) && TableOk(t) && JobsOk(t) && PriceLive(t) && HasStatus(t, Active) && Over(t)
    requires t.log <= s.log && t.auction.row.value.startingPrice == s.auction.row.value.startingPrice
    ensures var ended := t.(auction := EndAt(t.auction, t.now, FinalPrice(s.auction, s.now), NoCrash));
            RightForGood(config, ended) <==> t.log == s.log && TopSaved(t)
  {
    var ended := t.(auction := EndAt(t.auction, t.now, FinalPrice(s.auction, s.now), NoCrash));
    if s.log != [] { LatestAboveStart(s); }
    assert FinalPrice(s.auction, s.now) == Some(TopPrice(s.log, s.auction.row.value.startingPrice));
    if t.log == s.log {
      EndedOnTheLatest(t, ended.auction.row.value);
      if TopSaved(t) { EndedOnTheLatestStays(config, t, ended); }
      if RightForGood(config, ended) { WrongNow(config, ended); }
    } else {
      RolledBackPrice(s, t);
      if RightForGood(config, ended) { WrongNow(config, ended); }
    }
  }

  /** The price of a bid rolled back since is neither the starting price nor that of a saved bid. */
  lemma RolledBackPrice(s: State, t: State)
    requires InAgreement(s) && InAgreement(t) && TableOk(t) && t.log < s.log && s.auction.row.Some?
    ensures s.auction.row.value.startingPrice < TopPrice(s.log, s.auction.row.value.startingPrice)
    ensures forall bid :: bid in t.auction.bids ==> bid.amount != TopPrice(s.log, s.auction.row.value.startingPrice)
  {
    LatestAboveStart(s);
    var n := |s.log| - 1;
    forall bid | bid in t.auction.bids ensures bid.amount != s.log[n].amount {
      assert WasAccepted(t, bid);
      var i :| SavedFrom(t, i, bid);
      assert t.log[i] == s.log[i];
      ChainIncreases(s.log, s.auction.row.value, i, n);
    }
  }
}
