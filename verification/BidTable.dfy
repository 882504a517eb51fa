/** The saved bids against the accepted ones, and what that says when nothing is in flight. */
module BidTable {
  import opened Wrappers
  import opened RedisKeys
  import opened Increment
  import opened Auctions
  import opened Protocol
  import opened Expiry
  import opened Agreement
  import opened RollbackOrder

  predicate Succeeded(s: State, c: nat) {
    c in s.calls && s.calls[c].phase == Finished(Success)
  }

  ghost predicate SavedFrom(s: State, i: int, bid: SavedBid) {
    && 0 <= i < |s.log|
    && bid == SavedBid(s.log[i].user, s.log[i].amount)
    && Succeeded(s, s.log[i].call)
  }

  ghost predicate WasAccepted(s: State, bid: SavedBid) {
    exists i :: SavedFrom(s, i, bid)
  }

  /** Every saved bid is an accepted one whose call succeeded, each of those is saved, and none twice. */
  ghost predicate TableOk(s: State) {
    var bids := s.auction.bids;
    && (forall bid :: bid in bids ==> WasAccepted(s, bid))
    && (forall i :: 0 <= i < |s.log| && Succeeded(s, s.log[i].call) ==>
          SavedBid(s.log[i].user, s.log[i].amount) in bids)
    && (forall j, k :: 0 <= j < k < |bids| ==> bids[j].amount != bids[k].amount)
  }

  lemma TableOkStep(config: BidConfig, s: State, action: Action)
    requires InAgreement(s) && TableOk(s) && Faithful(s, action)
    ensures TableOk(Next(config, s, action))
  {
    if action.Save? && IsSaving(s, action.call) && action.ok {
      SaveKeepsTable(s, action.call);
    } else if action.RunScript? && IsReady(s, action.call) {
      ScriptKeepsTable(s, action.call);
    } else if EffectiveRollback(s, action) {
      RollBackKeepsTable(s, action.call);
    } else {
      OthersLeaveTable(config, s, action);
      EntriesHaveCalls(s);
      TableCarries(s, Next(config, s, action), |s.log|);
    }
  }

  lemma OthersLeaveTable(config: BidConfig, s: State, action: Action)
    requires !(action.Save? && IsSaving(s, action.call) && action.ok)
    requires !(action.RunScript? && IsReady(s, action.call)) && !EffectiveRollback(s, action)
    ensures var t := Next(config, s, action);
            && t.log == s.log && t.auction.bids == s.auction.bids
            && forall c :: c in s.calls ==> (Succeeded(s, c) <==> Succeeded(t, c))
  {
  }

  lemma EntriesHaveCalls(s: State)
    requires InAgreement(s)
    ensures forall i :: 0 <= i < |s.log| ==> s.log[i].call in s.calls
  {
    forall i | 0 <= i < |s.log| ensures s.log[i].call in s.calls {
      assert EntryOk(s, i);
    }
  }

  lemma ScriptKeepsTable(s: State, c: nat)
    requires InAgreement(s) && TableOk(s) && IsReady(s, c)
    ensures TableOk(ScriptStep(s, c))
  {
    EntriesHaveCalls(s);
    TableCarries(s, ScriptStep(s, c), |s.log|);
  }

  lemma RollBackKeepsTable(s: State, c: nat)
    requires InAgreement(s) && TableOk(s) && EffectiveRollback(s, RollBack(c)) && !Harmful(s, RollBack(c))
    ensures TableOk(RollBackStep(s, c))
  {
    EntriesHaveCalls(s);
    LastOneOut(s.log, c);
    TableCarries(s, RollBackStep(s, c), |s.log| - 1);
  }

  lemma LastOneOut(log: seq<Entry>, c: nat)
    requires log != [] && log[|log| - 1].call == c
    ensures Without(log, c) == log[..|log| - 1]
  {
  }

  /** The table stays in order when the logs share the first n entries and the others belong to unsuccessful calls. */
  lemma TableCarries(s: State, t: State, n: nat)
    requires TableOk(s) && t.auction.bids == s.auction.bids
    requires n <= |s.log| && n <= |t.log| && s.log[..n] == t.log[..n]
    requires forall i :: n <= i < |s.log| ==> !Succeeded(s, s.log[i].call)
    requires forall i :: n <= i < |t.log| ==> !Succeeded(t, t.log[i].call)
    requires forall i :: 0 <= i < n ==> (Succeeded(s, s.log[i].call) <==> Succeeded(t, s.log[i].call))
    ensures TableOk(t)
  {
    assert forall i :: 0 <= i < n ==> s.log[i] == s.log[..n][i] == t.log[..n][i] == t.log[i];
    forall bid | bid in t.auction.bids ensures WasAccepted(t, bid) {
      assert WasAccepted(s, bid);
      var i :| SavedFrom(s, i, bid);
      assert Succeeded(s, s.log[i].call);
      assert SavedFrom(t, i, bid);
    }
  }

  lemma SaveKeepsTable(s: State, c: nat)
    requires InAgreement(s) && TableOk(s) && IsSaving(s, c)
    ensures TableOk(SaveStep(s, c, true))
  {
    var t := SaveStep(s, c, true);
    var bids := s.auction.bids;
    assert CallOk(s, c);
    var at :| PlacedAt(s, c, s.calls[c].phase.previous, at);
    forall bid | bid in t.auction.bids ensures WasAccepted(t, bid) {
      if bid in bids {
        assert WasAccepted(s, bid);
        var i :| SavedFrom(s, i, bid);
        assert SavedFrom(t, i, bid);
      } else {
        assert SavedFrom(t, at, bid);
      }
    }
    forall k | 0 <= k < |bids| ensures bids[k].amount != s.calls[c].amount {
      assert bids[k] in bids && WasAccepted(s, bids[k]);
      var i :| SavedFrom(s, i, bids[k]);
      if i < at { ChainIncreases(s.log, s.auction.row.value, i, at); }
      if at < i { ChainIncreases(s.log, s.auction.row.value, at, i); }
    }
    forall i | 0 <= i < |t.log| && Succeeded(t, t.log[i].call)
      ensures SavedBid(t.log[i].user, t.log[i].amount) in t.auction.bids
    {
      assert EntryOk(s, i);
      assert t.auction.bids[|bids|] in t.auction.bids;
    }
  }

  lemma {:induction false} TableOkAlways(config: BidConfig, s: State, actions: seq<Action>)
    requires InAgreement(s) && TableOk(s) && FaithfulRun(config, s, actions)
    ensures InAgreement(Run(config, s, actions)) && TableOk(Run(config, s, actions))
    decreases |actions|
  {
    if actions == [] {
    } else {
      AgreementStep(config, s, actions[0]);
      TableOkStep(config, s, actions[0]);
      TableOkAlways(config, Next(config, s, actions[0]), actions[1..]);
    }
  }

  // --- The top saved bid ---

  /** `bid` is in the table and nothing there beats it. */
  predicate IsTop(bids: seq<SavedBid>, bid: SavedBid) {
    bid in bids && forall k :: 0 <= k < |bids| ==> bids[k].amount <= bid.amount
  }

  lemma {:induction false} TopBidIsTop(bids: seq<SavedBid>)
    ensures bids == [] <==> TopBid(bids).None?
    ensures bids != [] ==> IsTop(bids, TopBid(bids).value)
  {
    if bids == [] {
    } else {
      var n := |bids| - 1;
      TopBidIsTop(bids[..n]);
      assert bids == bids[..n] + [bids[n]];
    }
  }

  /** What the table should hold on top when `log` has been accepted and saved. */
  function LatestBid(log: seq<Entry>): Option<SavedBid> {
    if log == [] then None else Some(SavedBid(log[|log| - 1].user, log[|log| - 1].amount))
  }

  /** The latest accepted bid has been saved. */
  predicate TopSaved(s: State) {
    s.log == [] || Succeeded(s, s.log[|s.log| - 1].call)
  }

  /** Only the latest accepted bid has its amount, and it is above the starting price. */
  lemma LatestIsHighest(s: State, bid: SavedBid)
    requires InAgreement(s) && s.log != [] && WasAccepted(s, bid)
    ensures bid.amount <= s.log[|s.log| - 1].amount
    ensures bid.amount == s.log[|s.log| - 1].amount ==> bid == LatestBid(s.log).value && TopSaved(s)
  {
    var n := |s.log| - 1;
    var i :| SavedFrom(s, i, bid);
    if i < n { ChainIncreases(s.log, s.auction.row.value, i, n); }
  }

  lemma LatestAboveStart(s: State)
    requires InAgreement(s) && s.log != []
    ensures s.auction.row.value.startingPrice < s.log[|s.log| - 1].amount
    ensures s.log[|s.log| - 1].user != s.auction.row.value.ownerId
  {
    var n, row := |s.log| - 1, s.auction.row.value;
    assert Outbids(s.log, 0, row) && Outbids(s.log, n, row);
    if 0 < n { ChainIncreases(s.log, row, 0, n); }
  }

  lemma SavedMeansAccepted(s: State, bid: SavedBid)
    requires TableOk(s) && bid in s.auction.bids
    ensures s.log != []
  {
    assert WasAccepted(s, bid);
  }

  /** The top row of the table is the latest accepted bid exactly when that bid has been saved. */
  lemma TopIsLatestExactly(s: State)
    requires InAgreement(s) && TableOk(s)
    ensures TopBid(s.auction.bids) == LatestBid(s.log) <==> TopSaved(s)
  {
    var bids := s.auction.bids;
    TopBidIsTop(bids);
    if bids != [] { SavedMeansAccepted(s, bids[0]); }
    if s.log == [] {
    } else {
      var latest := LatestBid(s.log).value;
      if TopSaved(s) {
        assert latest in bids;
        assert WasAccepted(s, TopBid(bids).value);
        LatestIsHighest(s, TopBid(bids).value);
      } else if latest in bids {
        assert WasAccepted(s, latest);
        LatestIsHighest(s, latest);
      }
    }
  }

  /** Price and bidder as the bid table has them. */
  function Tabled(s: State): Snapshot
    requires s.auction.row.Some?
  {
    var top := TopBid(s.auction.bids);
    Snapshot(Some(if top.Some? then top.value.amount else s.auction.row.value.startingPrice), TopBidder(s.auction.bids))
  }

  /**
   While the price key lives, the top row of the table is the price and bidder in Redis exactly when
   the latest accepted bid has been saved.
   */
  lemma TableMatchesRedisExactly(s: State)
    requires InAgreement(s) && TableOk(s) && PriceLive(s)
    ensures Tabled(s) == Snapshot(Get(s.auction.keys.price, s.now), Get(s.auction.keys.bidder, s.now)) <==> TopSaved(s)
  {
    var bids := s.auction.bids;
    TopIsLatestExactly(s);
    TopBidIsTop(bids);
    if bids != [] { SavedMeansAccepted(s, bids[0]); }
    if s.log != [] {
      LatestAboveStart(s);
      if bids != [] {
        assert WasAccepted(s, TopBid(bids).value);
        LatestIsHighest(s, TopBid(bids).value);
      }
    }
  }

  /** The rollback of the latest accepted bid found no price key and left the bid standing. */
  predicate TopAbandoned(s: State) {
    s.log != [] && s.log[|s.log| - 1].call in s.calls && s.calls[s.log[|s.log| - 1].call].phase == Finished(ServerError)
  }

  /**
   Once no call is between script and save or rollback, the latest accepted bid is saved unless its
   rollback came when the auction was past.
   */
  lemma QuiescentTopSaved(s: State)
    requires InAgreement(s) && Quiescent(s)
    ensures TopSaved(s) <==> !TopAbandoned(s)
    ensures TopAbandoned(s) ==> Past(s)
  {
    if s.log != [] { assert EntryOk(s, |s.log| - 1); }
  }

  lemma QuiescentTopMatchesRedis(s: State)
    requires InAgreement(s) && TableOk(s) && Quiescent(s) && PriceLive(s)
    ensures TopBid(s.auction.bids) == LatestBid(s.log) <==> !TopAbandoned(s)
    ensures Tabled(s) == Snapshot(Get(s.auction.keys.price, s.now), Get(s.auction.keys.bidder, s.now)) <==> !TopAbandoned(s)
    ensures TopAbandoned(s) ==> Past(s)
  {
    QuiescentTopSaved(s);
    TopIsLatestExactly(s);
    TableMatchesRedisExactly(s);
  }

  // --- Runs whose saves succeed ---

  predicate SavesSucceed(actions: seq<Action>) {
    forall i :: 0 <= i < |actions| ==> !(actions[i].Save? && !actions[i].ok)
  }

  /** No save has failed. */
  predicate NothingToRollBack(s: State) {
    forall c :: c in s.calls ==> !IsRollingBack(s, c) && !IsRestoring(s, c) && s.calls[c].phase != Finished(ServerError)
  }

  /** Without failed saves nothing is rolled back, and the log only grows. */
  lemma SavingStep(config: BidConfig, s: State, action: Action)
    requires NothingToRollBack(s) && !(action.Save? && !action.ok)
    ensures var t := Next(config, s, action);
            NothingToRollBack(t) && s.log <= t.log && !EffectiveRollback(s, action)
  {
  }

  lemma {:induction false} SavingRunsAreFaithful(config: BidConfig, s: State, actions: seq<Action>)
    requires RegularRun(config, s, actions) && KeepsRedis(actions) && SavesSucceed(actions) && NothingToRollBack(s)
    ensures FaithfulRun(config, s, actions)
    ensures s.log <= Run(config, s, actions).log && NothingToRollBack(Run(config, s, actions))
    decreases |actions|
  {
    if actions == [] {
    } else {
      SavingStep(config, s, actions[0]);
      SavingRunsAreFaithful(config, Next(config, s, actions[0]), actions[1..]);
    }
  }

  /**
   In every interleaving of any number of calls whose saves succeed: accepted amounts strictly
   increase from the starting price, neighbours have different bidders, none is the owner, saved
   rows are accepted bids, Redis holds the last accepted bid while its price key lives, and the top
   saved row is that bid exactly when it has been saved, which it has once nothing is in flight.
   */
  lemma BiddingSafety(config: BidConfig, start: int, actions: seq<Action>)
    requires RegularRun(config, Initial(start), actions) && KeepsRedis(actions) && SavesSucceed(actions)
    ensures var s := Run(config, Initial(start), actions);
            var log, bids := s.log, s.auction.bids;
            && (log != [] ==> s.auction.row.Some?)
            && (s.auction.row.Some? ==>
                  var row := s.auction.row.value;
                  && (forall i :: 0 <= i < |log| ==> row.startingPrice < log[i].amount && log[i].user != row.ownerId)
                  && (forall i, j :: 0 <= i < j < |log| ==> log[i].amount < log[j].amount)
                  && (forall i, j :: 0 <= i && j == i + 1 && j < |log| ==> log[i].user != log[j].user))
            && (forall bid :: bid in bids ==> WasAccepted(s, bid))
            && Agrees(s)
            && (PriceLive(s) ==>
                  && (Tabled(s) == Snapshot(Get(s.auction.keys.price, s.now), Get(s.auction.keys.bidder, s.now)) <==> TopSaved(s))
                  && (Quiescent(s) ==> TopSaved(s)))
  {
    SavingRunsAreFaithful(config, Initial(start), actions);
    TableOkAlways(config, Initial(start), actions);
    var s := Run(config, Initial(start), actions);
    if s.auction.row.Some? {
      var row := s.auction.row.value;
      forall i | 0 <= i < |s.log| ensures row.startingPrice < s.log[i].amount && s.log[i].user != row.ownerId {
        assert Outbids(s.log, 0, row) && Outbids(s.log, i, row);
        if 0 < i { ChainIncreases(s.log, row, 0, i); }
      }
      forall i, j | 0 <= i < j < |s.log| ensures s.log[i].amount < s.log[j].amount {
        ChainIncreases(s.log, row, i, j);
      }
      forall i, j | 0 <= i && j == i + 1 && j < |s.log| ensures s.log[i].user != s.log[j].user {
        assert Outbids(s.log, j, row);
      }
    }
    if PriceLive(s) {
      TableMatchesRedisExactly(s);
      if Quiescent(s) { QuiescentTopSaved(s); }
    }
  }
}
