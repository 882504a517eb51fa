/** The Redis keys of an auction expire in the right order, in every interleaving of every operation. */
module Expiry {
  import opened Wrappers
  import opened RedisKeys
  import opened Increment
  import opened Auctions
  import opened Protocol

  /** The most a rollback takes off the price key's life, in milliseconds. */
  const ROLLBACK_LOSS := 499

  /**
   This many rollbacks cannot bring the deadline of the price key, an hour after that of the active
   key, before the latter; one more can.
   */
  const MAX_ROLLBACKS := 7214

  const BUFFER_MS := 1000 * BUFFER_SECONDS

  /** The start job finds the queue down, and puts the row back to PENDING with Redis already live. */
  predicate StartFails(action: Action) {
    action.StartJob? && action.setup == QueueDown
  }

  /** The owner moves the end time of an ACTIVE auction whose active key is already gone. */
  predicate LateExtension(s: State, action: Action) {
    && action.UpdateAuction? && action.changes.endTime.Some?
    && s.auction.row.Some? && s.auction.row.value.status == Active
    && !Live(s.auction.keys.active, s.now)
  }

  /** An extension of an ACTIVE auction that goes through. */
  predicate Extends(s: State, action: Action) {
    && action.UpdateAuction? && action.changes.endTime.Some?
    && UpdateRefusal(s.auction, s.now, action.user, action.changes).None?
    && s.auction.row.value.status == Active
  }

  /** The auction is extended, or Redis loses its keys, between the two round trips of a rollback. */
  predicate Straddles(s: State, action: Action) {
    (Extends(s, action) || action.LoseRedis?) && exists c :: c in s.calls && IsRestoring(s, c)
  }

  /** The write of a rollback. */
  predicate EffectiveRollback(s: State, action: Action) {
    action.RollBack? && IsRestoring(s, action.call)
  }

  predicate Timely(s: State, action: Action) {
    !StartFails(action) && !LateExtension(s, action)
  }

  predicate Punctual(s: State, action: Action) {
    Timely(s, action) && !Straddles(s, action)
  }

  predicate PunctualRun(config: BidConfig, s: State, actions: seq<Action>)
    decreases |actions|
  {
    actions == [] || (Punctual(s, actions[0]) && PunctualRun(config, Next(config, s, actions[0]), actions[1..]))
  }

  predicate Regular(s: State, action: Action) {
    Punctual(s, action) && (EffectiveRollback(s, action) ==> s.rollbacks < MAX_ROLLBACKS)
  }

  predicate RegularRun(config: BidConfig, s: State, actions: seq<Action>)
    decreases |actions|
  {
    actions == [] || (Regular(s, actions[0]) && RegularRun(config, Next(config, s, actions[0]), actions[1..]))
  }

  predicate Expires(k: Key) {
    k.Stored? && k.expiry.At?
  }

  predicate Outlives(k: Key, deadline: int) {
    k.Stored? ==> (k.expiry.Never? || deadline <= k.expiry.deadline)
  }

  /**
   The order of the deadlines: the owner key runs out an hour after the active key, the price key an
   hour later less 499 milliseconds for each rollback, and the bidder key no earlier than the price key.
   */
  predicate DeadlinesInOrder(keys: AuctionKeys, ownerId: int, rollbacks: nat) {
    && Expires(keys.active) && Expires(keys.price) && Expires(keys.owner)
    && keys.active.expiry.deadline + BUFFER_MS <= keys.price.expiry.deadline + ROLLBACK_LOSS * rollbacks
    && keys.owner.expiry.deadline == keys.active.expiry.deadline + BUFFER_MS
    && keys.owner.value == ownerId
    && Outlives(keys.bidder, keys.price.expiry.deadline)
  }

  /** And the active key itself runs out in the last second before the end time. */
  predicate KeysInOrder(keys: AuctionKeys, row: Row, rollbacks: nat) {
    && DeadlinesInOrder(keys, row.ownerId, rollbacks)
    && row.endTime - 1000 < keys.active.expiry.deadline <= row.endTime
  }

  predicate Terminal(s: State) {
    s.auction.row.Some? && (s.auction.row.value.status == Ended || s.auction.row.value.status == Canceled)
  }

  /** What a late rollback writes for an auction whose keys have been cleaned up: nothing that takes bids. */
  predicate Leftover(keys: AuctionKeys) {
    && keys.active == Missing && keys.owner == Missing
    && Expires(keys.price) && Outlives(keys.bidder, keys.price.expiry.deadline)
  }

  /** What a call that has read how long the price key has left will write outlives the active key as if it had written at once. */
  predicate WrittenInTime(s: State, ttl: int) {
    var active := s.auction.keys.active;
    Expires(active) ==>
      active.expiry.deadline + BUFFER_MS <= s.now + 1000 * SafeTtl(ttl) + ROLLBACK_LOSS * (s.rollbacks + 1)
  }

  /** A call in flight remembers a price, and rolls back in time. */
  predicate CallKeysOk(s: State, c: nat)
    requires c in s.calls
  {
    var a := s.auction;
    match s.calls[c].phase
    case Saving(previous) => previous.price.Some?
    case RollingBack(previous) => previous.price.Some?
    case Restoring(previous, ttl) =>
      && previous.price.Some? && WrittenInTime(s, ttl)
      && a.row.Some? && a.row.value.status != Pending
      && (a.row.value.status == Active ==> Expires(a.keys.active))
    case _ => true
  }

  predicate StoreOk(s: State) {
    var a := s.auction;
    || a.keys == NO_KEYS
    || (a.row.Some? && a.row.value.status != Pending && KeysInOrder(a.keys, a.row.value, s.rollbacks))
    || (Terminal(s) && Leftover(a.keys))
  }

  /** Keys exist only for an auction that was started, and then, while it runs, all but the bidder's at once. */
  predicate KeysOk(s: State) {
    s.rollbacks <= MAX_ROLLBACKS && StoreOk(s) && forall c :: c in s.calls ==> CallKeysOk(s, c)
  }

  /** Steps on the auction and the clock, as opposed to those of a call in flight. */
  predicate Background(action: Action) {
    action.Tick? || action.CreateAuction? || action.StartJob? || action.EndJob? || action.CancelAuction?
    || action.UpdateAuction? || action.ReconcileRow? || action.LoseRedis?
  }

  lemma BackgroundKeepsStore(config: BidConfig, s: State, action: Action)
    requires StoreOk(s) && s.rollbacks <= MAX_ROLLBACKS && Timely(s, action) && Background(action)
    ensures StoreOk(Next(config, s, action))
  {
  }

  /** While a rollback is between its round trips the active key is neither written nor, as long as the auction runs, lost. */
  lemma BackgroundKeepsActive(config: BidConfig, s: State, action: Action)
    requires StoreOk(s) && Regular(s, action) && Background(action) && !Extends(s, action) && !action.LoseRedis?
    requires s.auction.row.Some? && s.auction.row.value.status != Pending
    requires s.auction.row.value.status == Active ==> Expires(s.auction.keys.active)
    ensures var a, b := s.auction, Next(config, s, action).auction;
            && b.row.Some? && b.row.value.status != Pending
            && (b.row.value.status == Active ==> a.row.value.status == Active && Expires(b.keys.active))
            && (Expires(b.keys.active) ==> b.keys.active == a.keys.active)
  {
  }

  lemma BackgroundKeepsKeys(config: BidConfig, s: State, action: Action)
    requires KeysOk(s) && Regular(s, action) && Background(action)
    ensures KeysOk(Next(config, s, action))
  {
    var t := Next(config, s, action);
    BackgroundKeepsStore(config, s, action);
    assert t.calls == s.calls && t.rollbacks == s.rollbacks && s.now <= t.now;
    forall c | c in t.calls ensures CallKeysOk(t, c) {
      assert CallKeysOk(s, c);
      if IsRestoring(s, c) { BackgroundKeepsActive(config, s, action); }
    }
  }

  /** The steps of a call leave the active key and the row alone, and but for the write of a rollback the deadlines in order. */
  lemma CallsKeepActive(config: BidConfig, s: State, action: Action)
    requires StoreOk(s) && s.rollbacks <= MAX_ROLLBACKS && !Background(action)
    ensures var t := Next(config, s, action);
            && t.auction.row == s.auction.row && t.auction.keys.active == s.auction.keys.active && t.now == s.now
            && (!EffectiveRollback(s, action) ==> StoreOk(t) && t.rollbacks == s.rollbacks)
  {
  }

  lemma WriteKeepsStore(config: BidConfig, s: State, action: Action)
    requires KeysOk(s) && Regular(s, action) && EffectiveRollback(s, action)
    ensures StoreOk(Next(config, s, action))
  {
    assert CallKeysOk(s, action.call);
  }

  lemma OneCallMoves(config: BidConfig, s: State, action: Action, c: nat)
    requires !Background(action) && c in Next(config, s, action).calls && c != action.call
    ensures c in s.calls && Next(config, s, action).calls[c] == s.calls[c]
  {
  }

  /** A call that is accepted or reads the remaining time does so of an auction whose keys are in order. */
  lemma OwnCallKeysOk(config: BidConfig, s: State, action: Action)
    requires KeysOk(s) && Regular(s, action) && !Background(action)
    requires action.call in Next(config, s, action).calls
    ensures CallKeysOk(Next(config, s, action), action.call)
  {
    if action.call in s.calls { assert CallKeysOk(s, action.call); }
  }

  lemma CallsKeepKeys(config: BidConfig, s: State, action: Action)
    requires KeysOk(s) && Regular(s, action) && !Background(action)
    ensures KeysOk(Next(config, s, action))
  {
    var t := Next(config, s, action);
    CallsKeepActive(config, s, action);
    if EffectiveRollback(s, action) { WriteKeepsStore(config, s, action); }
    forall c | c in t.calls ensures CallKeysOk(t, c) {
      if c == action.call {
        OwnCallKeysOk(config, s, action);
      } else {
        OneCallMoves(config, s, action, c);
        assert CallKeysOk(s, c);
      }
    }
  }

  lemma KeysOkStep(config: BidConfig, s: State, action: Action)
    requires KeysOk(s) && Regular(s, action)
    ensures KeysOk(Next(config, s, action))
  {
    if Background(action) {
      BackgroundKeepsKeys(config, s, action);
    } else {
      CallsKeepKeys(config, s, action);
    }
  }

  /** In every reachable state of every regular run the deadlines are in order. */
  lemma {:induction false} KeysOkAlways(config: BidConfig, s: State, actions: seq<Action>)
    requires KeysOk(s) && RegularRun(config, s, actions)
    ensures KeysOk(Run(config, s, actions))
    decreases |actions|
  {
    if actions == [] {
    } else {
      KeysOkStep(config, s, actions[0]);
      KeysOkAlways(config, Next(config, s, actions[0]), actions[1..]);
    }
  }

  /** While the active key lives, the price and the right owner can be read. */
  lemma ActiveImpliesPresent(s: State)
    requires KeysOk(s) && Live(s.auction.keys.active, s.now)
    ensures PriceLive(s)
    ensures Get(s.auction.keys.owner, s.now) == Some(s.auction.row.value.ownerId)
  {
  }

  /** No bid is accepted at or after the end time, or for an auction that is not running. */
  lemma {:induction false} NoBidAfterEnd(config: BidConfig, start: int, actions: seq<Action>, action: Action)
    requires RegularRun(config, Initial(start), actions)
    ensures var s := Run(config, Initial(start), actions);
            |s.log| < |Next(config, s, action).log| ==>
              && s.auction.row.Some? && s.auction.row.value.status != Pending
              && s.now < s.auction.row.value.endTime
  {
    KeysOkAlways(config, Initial(start), actions);
    var s := Run(config, Initial(start), actions);
    if action.RollBack? { WithoutShrinks(s.log, action.call); }
  }

  lemma WithoutShrinks(log: seq<Entry>, c: nat)
    ensures |Without(log, c)| <= |log|
  {
  }

  /**
   Until an hour after the end time, less one second for rounding and 499 milliseconds for each
   rollback, whoever finds the keys of an auction still there reads its price and leading bidder.
   */
  lemma ReadableForAnHour(s: State)
    requires KeysOk(s) && s.auction.keys.active.Stored?
    requires s.now <= s.auction.row.value.endTime + BUFFER_MS - 1000 - ROLLBACK_LOSS * s.rollbacks
    ensures PriceLive(s)
    ensures s.auction.keys.bidder.Stored? ==> Live(s.auction.keys.bidder, s.now)
  {
  }

  /**
   Why late extensions are set apart: an accepted extension of a running auction leaves it able to
   take bids exactly when its active key was still alive.
   */
  lemma ExtensionReachesRedis(a: Auction, now: int, user: int, changes: Changes)
    requires a.row.Some? && a.row.value.status == Active && changes.endTime.Some?
    requires UpdateRefusal(a, now, user, changes).None? && SecondsLeft(now, changes.endTime.value) > 0
    ensures var b := Update(a, now, user, changes).0;
            && b.row.value.status == Active && now < b.row.value.endTime
            && (Live(b.keys.active, now) <==> Live(a.keys.active, now))
  {
  }
}
