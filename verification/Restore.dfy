/** What boot-time reconciliation brings back after Redis has lost its keys, and what it cannot. */
module Restore {
  import opened Wrappers
  import opened RedisKeys
  import opened Increment
  import opened Auctions
  import opened Protocol
  import opened Expiry
  import opened Agreement
  import opened BidTable
  import opened Lifecycle
  import opened Winner

  /** Bids never touch the row: until the auction ends the stored price is the starting price and there is no winner. */
  predicate RowUntouched(s: State) {
    s.auction.row.Some? && s.auction.row.value.status != Ended ==>
      && s.auction.row.value.currentPrice == Some(s.auction.row.value.startingPrice)
      && s.auction.row.value.winnerId.None?
  }

  lemma {:induction false} RowUntouchedAlways(config: BidConfig, s: State, actions: seq<Action>)
    requires RowUntouched(s)
    ensures RowUntouched(Run(config, s, actions))
    decreases |actions|
  {
    if actions == [] {
    } else {
      assert RowUntouched(Next(config, s, actions[0]));
      RowUntouchedAlways(config, Next(config, s, actions[0]), actions[1..]);
    }
  }

  function StoredPrice(row: Row): int {
    row.currentPrice.GetOr(row.startingPrice)
  }

  /** The auction after Redis has lost its keys and the server, back at `later`, has reconciled the row. */
  function Recovered(a: Auction, later: int): Auction {
    Reconcile(a.(keys := NO_KEYS), later)
  }

  /**
   After losing all keys of a running auction not past its end, reconciliation restores the active
   flag, the owner and the first-ranked saved bidder, which is the leading one if the latest accepted
   bid was saved; and it restores the whole live state exactly when in addition the stored price is
   the price Redis held.
   */
  lemma RestoresAllButThePrice(s: State, later: int)
    requires InAgreement(s) && TableOk(s) && HasStatus(s, Active)
    requires Live(s.auction.keys.active, s.now) && SecondsLeft(later, s.auction.row.value.endTime) > 0
    ensures var before := ViewOf(s.auction.keys, s.now);
            var after := ViewOf(Recovered(s.auction, later).keys, later);
            && after.active && after.owner == before.owner && after.bidder == TopBidder(s.auction.bids)
            && (TopSaved(s) ==> after.bidder == before.bidder)
            && (after == before <==>
                  TopBidder(s.auction.bids) == before.bidder && Some(StoredPrice(s.auction.row.value)) == before.price)
  {
    ActiveImpliesPresent(s);
    TableMatchesRedisExactly(s);
  }

  /**
   In the runs the server goes through that means: exactly when no bid has been accepted, or, with
   nothing in flight, when none has been saved.
   */
  lemma RestoresLiveStateExactlyWithoutBids(config: BidConfig, start: int, actions: seq<Action>, later: int)
    requires FaithfulRun(config, Initial(start), actions)
    requires var s := Run(config, Initial(start), actions);
             && HasStatus(s, Active) && Live(s.auction.keys.active, s.now)
             && SecondsLeft(later, s.auction.row.value.endTime) > 0
    ensures var s := Run(config, Initial(start), actions);
            && (ViewOf(Recovered(s.auction, later).keys, later) == ViewOf(s.auction.keys, s.now) <==> s.log == [])
            && (Quiescent(s) ==> (s.log == [] <==> s.auction.bids == []))
  {
    var s := Run(config, Initial(start), actions);
    TableOkAlways(config, Initial(start), actions);
    RowUntouchedAlways(config, Initial(start), actions);
    RestoresAllButThePrice(s, later);
    ActiveImpliesPresent(s);
    TopIsLatestExactly(s);
    TopBidIsTop(s.auction.bids);
    if Quiescent(s) { QuiescentTopSaved(s); }
    if s.auction.bids != [] { SavedMeansAccepted(s, s.auction.bids[0]); }
    if s.log != [] { LatestAboveStart(s); }
  }

  /**
   A server that boots less than a second before the end time or later, with the auction's active
   key gone, ends it without looking at the bids: whatever happened before and happens after, the
   row is right exactly when there are none.
   */
  lemma LateBootEndsBlindly(config: BidConfig, start: int, before: seq<Action>, after: seq<Action>)
    requires var s := Run(config, Initial(start), before);
             Orphaned(s.auction, s.now) && SecondsLeft(s.now, s.auction.row.value.endTime) <= 0
    ensures var s := Run(config, Initial(start), before);
            var t := Run(config, Next(config, s, ReconcileRow), after);
            && HasStatus(t, Ended) && t.auction.row.value.winnerId.None?
            && (RightlyEnded(t.auction.row.value, s.auction.bids) <==> s.auction.bids == [])
            && (RightlyEnded(t.auction.row.value, t.auction.bids) <==> t.auction.bids == [])
  {
    var s := Run(config, Initial(start), before);
    RowUntouchedAlways(config, Initial(start), before);
    JobsOkAlways(config, Initial(start), before);
    var t := Next(config, s, ReconcileRow);
    JobsOkStep(config, s, ReconcileRow);
    TerminalRowsAreFinal(config, t, after);
  }

  /**
   When Redis loses its keys between the two round trips of a rollback, the write leaves a price and a
   bidder behind. Reconciliation then shows the first-ranked saved bidder exactly if there is one, the
   write restored none, or what it restored has expired.
   */
  lemma LostInMidRollback(a: Auction, written: int, previous: Snapshot, ttl: int, later: int)
    requires a.row.Some? && a.row.value.status == Active && SecondsLeft(later, a.row.value.endTime) > 0
    ensures var lost := a.(keys := WriteBack(NO_KEYS, written, previous, ttl));
            var after := ViewOf(Reconcile(lost, later).keys, later);
            && after.active && after.owner == Some(a.row.value.ownerId) && after.price == Some(StoredPrice(a.row.value))
            && (after.bidder == TopBidder(a.bids) <==>
                  a.bids != [] || previous.bidder.None? || written + 1000 * SafeTtl(ttl) <= later)
  {
    TopBidIsTop(a.bids);
  }
}
