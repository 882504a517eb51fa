/**
 The four string keys Redis holds for one auction, with their expiry times, and what each
 Redis-side operation does to them. Time is in milliseconds; a key set to expire at `t` can be
 read at every instant before `t`.
 */
module RedisKeys {
  import opened Wrappers

  datatype Expiry = Never | At(deadline: int)

  datatype Key = Missing | Stored(value: int, expiry: Expiry)

  datatype AuctionKeys = AuctionKeys(active: Key, price: Key, owner: Key, bidder: Key)

  const NO_KEYS := AuctionKeys(Missing, Missing, Missing, Missing)

  /** How long the price, owner and bidder keys outlive the active key, in seconds. */
  const BUFFER_SECONDS := 3600

  // --- Redis commands ---

  predicate Live(k: Key, now: int) {
    k.Stored? && (k.expiry.At? ==> now < k.expiry.deadline)
  }

  function Get(k: Key, now: int): Option<int> {
    if Live(k, now) then Some(k.value) else None
  }

  /** SET key value EX seconds; Redis refuses an expiry that is not positive. */
  function SetEx(k: Key, value: int, now: int, seconds: int): Key {
    if seconds <= 0 then k else Stored(value, At(now + 1000 * seconds))
  }

  /** SET key value EX seconds NX. */
  function SetNx(k: Key, value: int, now: int, seconds: int): Key {
    if Live(k, now) then k else SetEx(k, value, now, seconds)
  }

  /** SET key value KEEPTTL: a key that was not there ends up without any expiry. */
  function SetKeepTtl(k: Key, value: int, now: int): Key {
    Stored(value, if Live(k, now) then k.expiry else Never)
  }

  /** EXPIRE key seconds: does nothing on a missing key, deletes on a duration that is not positive. */
  function Expire(k: Key, now: int, seconds: int): Key {
    if !Live(k, now) then k
    else if seconds <= 0 then Missing
    else Stored(k.value, At(now + 1000 * seconds))
  }

  /** TTL key: -2 for a missing key, -1 without expiry, otherwise seconds rounded to the nearest. */
  function Ttl(k: Key, now: int): int {
    if !Live(k, now) then -2
    else if k.expiry.Never? then -1
    else (k.expiry.deadline - now + 500) / 1000
  }

  // --- Auction operations ---

  datatype RejectionCode = AuctionInactive | AlreadyLeading | BidTooLow

  datatype Snapshot = Snapshot(price: Option<int>, bidder: Option<int>)

  datatype BidReply = Accepted(previous: Snapshot) | Rejected(code: RejectionCode)

  /** What a reader of the live state sees: the answers to the four GET/EXISTS commands. */
  datatype LiveView = LiveView(active: bool, price: Option<int>, owner: Option<int>, bidder: Option<int>)

  function ViewOf(ks: AuctionKeys, now: int): LiveView {
    LiveView(Live(ks.active, now), Get(ks.price, now), Get(ks.owner, now), Get(ks.bidder, now))
  }

  /** The atomic bid script. */
  function PlaceBid(ks: AuctionKeys, now: int, amount: int, user: int, increment: real): (AuctionKeys, BidReply) {
    if !Live(ks.active, now) then (ks, Rejected(AuctionInactive))
    else if Get(ks.bidder, now) == Some(user) then (ks, Rejected(AlreadyLeading))
    else if amount as real < Get(ks.price, now).GetOr(0) as real + increment then (ks, Rejected(BidTooLow))
    else (ks.(price := SetKeepTtl(ks.price, amount, now), bidder := SetKeepTtl(ks.bidder, user, now)),
          Accepted(Snapshot(Get(ks.price, now), Get(ks.bidder, now))))
  }

  /** The expiry a rollback gives to the values it writes back, in seconds. */
  function SafeTtl(ttl: int): int {
    if ttl > 0 then ttl else BUFFER_SECONDS
  }

  /** The compensating write after a failed save, given the remaining time of the price key as it was read before. */
  function WriteBack(ks: AuctionKeys, now: int, previous: Snapshot, ttl: int): AuctionKeys {
    ks.(price := if previous.price.Some? then SetEx(ks.price, previous.price.value, now, SafeTtl(ttl)) else Missing,
        bidder := if previous.bidder.Some? then SetEx(ks.bidder, previous.bidder.value, now, SafeTtl(ttl)) else Missing)
  }

  /** A rollback whose two round trips nothing separates. */
  function RollbackBid(ks: AuctionKeys, now: int, previous: Snapshot): AuctionKeys {
    var ttl := Ttl(ks.price, now);
    if ttl == -2 then ks else WriteBack(ks, now, previous, ttl)
  }

  function InitializeAuction(ks: AuctionKeys, now: int, startingPrice: int, seconds: int, owner: int): AuctionKeys {
    ks.(active := SetNx(ks.active, 1, now, seconds),
        price := SetNx(ks.price, startingPrice, now, seconds + BUFFER_SECONDS),
        owner := SetNx(ks.owner, owner, now, seconds + BUFFER_SECONDS))
  }

  function ExtendAuctionTime(ks: AuctionKeys, now: int, seconds: int): AuctionKeys {
    AuctionKeys(Expire(ks.active, now, seconds),
                Expire(ks.price, now, seconds + BUFFER_SECONDS),
                Expire(ks.owner, now, seconds + BUFFER_SECONDS),
                Expire(ks.bidder, now, seconds + BUFFER_SECONDS))
  }

  function RestoreAuction(ks: AuctionKeys, now: int, price: int, seconds: int, owner: int, bidder: Option<int>): AuctionKeys {
    AuctionKeys(SetEx(ks.active, 1, now, seconds),
                SetEx(ks.price, price, now, seconds + BUFFER_SECONDS),
                SetEx(ks.owner, owner, now, seconds + BUFFER_SECONDS),
                if bidder.Some? then SetEx(ks.bidder, bidder.value, now, seconds + BUFFER_SECONDS) else ks.bidder)
  }

  // --- Properties of the operations ---

  /** The instant up to which what a key says can be read, if it has one. */
  predicate ReadableUntil(k: Key, deadline: int) {
    k.Stored? && k.expiry == At(deadline)
  }

  /**
   The script accepts a bid exactly when the active key lives, somebody else leads or nobody, and the
   amount is at least the price, or 0 if there is none, plus the increment; each rejection has its
   exact condition, too.
   */
  lemma BidDecidedExactly(ks: AuctionKeys, now: int, amount: int, user: int, increment: real)
    ensures var reply, before := PlaceBid(ks, now, amount, user, increment).1, ViewOf(ks, now);
            var clears := amount as real >= (if before.price.Some? then before.price.value else 0) as real + increment;
            && (reply.Accepted? <==> before.active && before.bidder != Some(user) && clears)
            && (reply == Rejected(AuctionInactive) <==> !before.active)
            && (reply == Rejected(AlreadyLeading) <==> before.active && before.bidder == Some(user))
            && (reply == Rejected(BidTooLow) <==> before.active && before.bidder != Some(user) && !clears)
  {
  }

  /** An accepted bid shows as the price and the leader, a rejected one changes nothing; no deadline moves. */
  lemma BidShowsExactly(ks: AuctionKeys, now: int, amount: int, user: int, increment: real)
    ensures var (after, reply) := PlaceBid(ks, now, amount, user, increment);
            var before := ViewOf(ks, now);
            && (reply.Rejected? ==> after == ks)
            && (reply.Accepted? ==>
                  && reply.previous == Snapshot(before.price, before.bidder)
                  && ViewOf(after, now) == before.(price := Some(amount), bidder := Some(user))
                  && after.active == ks.active && after.owner == ks.owner
                  && (before.price.Some? ==> after.price.expiry == ks.price.expiry)
                  && (before.bidder.Some? ==> after.bidder.expiry == ks.bidder.expiry))
  {
  }

  /** The remaining time of a key: -2 for none, -1 for a key that never expires, otherwise its seconds to the nearest. */
  lemma TtlExactly(k: Key, now: int)
    ensures Ttl(k, now) == -2 <==> Get(k, now).None?
    ensures Ttl(k, now) == -1 <==> Get(k, now).Some? && k.expiry == Never
    ensures Get(k, now).Some? && k.expiry != Never ==>
              Ttl(k, now) >= 0 && k.expiry.deadline - now - 500 < 1000 * Ttl(k, now) <= k.expiry.deadline - now + 500
  {
  }

  /** The write of a rollback shows what was there before the bid, for the remaining time or else an hour. */
  lemma WriteBackShowsExactly(ks: AuctionKeys, now: int, previous: Snapshot, ttl: int)
    ensures var after := WriteBack(ks, now, previous, ttl);
            var until := now + if ttl > 0 then 1000 * ttl else 3_600_000;
            && ViewOf(after, now) == ViewOf(ks, now).(price := previous.price, bidder := previous.bidder)
            && after.active == ks.active && after.owner == ks.owner
            && (previous.price.Some? ==> ReadableUntil(after.price, until))
            && (previous.bidder.Some? ==> ReadableUntil(after.bidder, until))
  {
  }

  /** Initializing shows a live auction, and what was there already stays with its deadline. */
  lemma InitializedShowsExactly(ks: AuctionKeys, now: int, startingPrice: int, seconds: int, owner: int)
    requires seconds > 0
    ensures var after, before := InitializeAuction(ks, now, startingPrice, seconds, owner), ViewOf(ks, now);
            && ViewOf(after, now) == LiveView(true, Some(before.price.GetOr(startingPrice)), Some(before.owner.GetOr(owner)), before.bidder)
            && after.bidder == ks.bidder
            && (if before.active then after.active == ks.active else ReadableUntil(after.active, now + 1000 * seconds))
            && (if before.price.Some? then after.price == ks.price else ReadableUntil(after.price, now + 1000 * seconds + 3_600_000))
            && (if before.owner.Some? then after.owner == ks.owner else ReadableUntil(after.owner, now + 1000 * seconds + 3_600_000))
  {
  }

  /** Extending shows the same values, each with its new deadline. */
  lemma ExtendedShowsExactly(ks: AuctionKeys, now: int, seconds: int)
    requires seconds > 0
    ensures var after, before := ExtendAuctionTime(ks, now, seconds), ViewOf(ks, now);
            && ViewOf(after, now) == before
            && (before.active ==> ReadableUntil(after.active, now + 1000 * seconds))
            && (before.price.Some? ==> ReadableUntil(after.price, now + 1000 * seconds + 3_600_000))
            && (before.owner.Some? ==> ReadableUntil(after.owner, now + 1000 * seconds + 3_600_000))
            && (before.bidder.Some? ==> ReadableUntil(after.bidder, now + 1000 * seconds + 3_600_000))
  {
  }

  /** Restoring shows what it is given, but for a bidder it is not given. */
  lemma RestoredShowsExactly(ks: AuctionKeys, now: int, price: int, seconds: int, owner: int, bidder: Option<int>)
    requires seconds > 0
    ensures var after := RestoreAuction(ks, now, price, seconds, owner, bidder);
            && ViewOf(after, now) == LiveView(true, Some(price), Some(owner), if bidder.Some? then bidder else ViewOf(ks, now).bidder)
            && ReadableUntil(after.active, now + 1000 * seconds)
            && ReadableUntil(after.price, now + 1000 * seconds + 3_600_000)
            && ReadableUntil(after.owner, now + 1000 * seconds + 3_600_000)
            && (if bidder.Some? then ReadableUntil(after.bidder, now + 1000 * seconds + 3_600_000) else after.bidder == ks.bidder)
  {
  }

  /**
   A rollback that keeps the price moves the price deadline by at most 499 milliseconds back or 500
   forth, because the remaining time is read in whole seconds; with less than half a second left the
   key gains an hour.
   */
  lemma RollbackDrift(ks: AuctionKeys, now: int, previous: Snapshot)
    requires Live(ks.price, now) && ks.price.expiry.At? && previous.price.Some?
    ensures var price := RollbackBid(ks, now, previous).price;
            && Live(price, now) && price.expiry.At? && price.value == previous.price.value
            && ks.price.expiry.deadline - 499 <= price.expiry.deadline
            && (ks.price.expiry.deadline - now >= 500 ==>
                  && price.expiry.deadline == ks.price.expiry.deadline + 500 - (ks.price.expiry.deadline - now + 500) % 1000
                  && price.expiry.deadline <= ks.price.expiry.deadline + 500)
            && (ks.price.expiry.deadline - now < 500 ==> price.expiry.deadline == now + 1000 * BUFFER_SECONDS)
  {
  }

  /** The price key after rolling back the same snapshot at each of the given instants. */
  function RollbackAll(ks: AuctionKeys, times: seq<int>, previous: Snapshot): AuctionKeys
    decreases |times|
  {
    if times == [] then ks else RollbackAll(RollbackBid(ks, times[0], previous), times[1..], previous)
  }

  predicate Sorted(times: seq<int>) {
    forall i, j :: 0 <= i < j < |times| ==> times[i] <= times[j]
  }

  /** The drift adds up: n rollbacks at unlucky instants shorten the price key's life by 499 n. */
  lemma {:induction false} DriftAddsUp(ks: AuctionKeys, n: nat, start: int, previous: Snapshot) returns (times: seq<int>)
    requires ks.price.Stored? && ks.price.expiry.At? && previous.price.Some?
    requires start + 1500 * (n + 1) <= ks.price.expiry.deadline
    ensures |times| == n && Sorted(times)
    ensures forall i :: 0 <= i < n ==> start <= times[i]
    ensures var price := RollbackAll(ks, times, previous).price;
            price == if n == 0 then ks.price else Stored(previous.price.value, At(ks.price.expiry.deadline - 499 * n))
    decreases n
  {
    if n == 0 {
      times := [];
    } else {
      var deadline := ks.price.expiry.deadline;
      // The first instant from `start` on at which the remaining time is 499 over a whole second.
      var seconds := (deadline - 499 - start) / 1000;
      var t := deadline - 499 - 1000 * seconds;
      assert start <= t < start + 1000;
      var ks' := RollbackBid(ks, t, previous);
      assert ks'.price == Stored(previous.price.value, At(deadline - 499));
      var rest := DriftAddsUp(ks', n - 1, t, previous);
      times := [t] + rest;
      assert times[1..] == rest;
    }
  }
}
