/**
 The server's services as objects: the Redis store, the tables and the job queues they change in
 place, and each service method proved to do to one auction what the operation of module Auctions
 (or WholeBid) says, and nothing to any other auction.
 */
module Server {
  import opened Wrappers
  import opened RedisKeys
  import opened Increment
  import opened Auctions
  import opened Protocol
  import opened Ranking
  import opened Scan
  import WholeBid
  import ListCache

  /** The auctions' keys, the participants hashes and the cached lists. */
  class RedisService {
    var store: map<int, AuctionKeys>
    var participants: map<int, map<nat, int>>
    var lists: map<string, ListCache.Cached>

    constructor ()
      ensures (forall id :: KeysOf(id) == NO_KEYS) && participants == map[] && lists == map[]
    {
      store, participants, lists := map[], map[], map[];
    }

    function KeysOf(id: int): AuctionKeys
      reads this`store
    {
      if id in store then store[id] else NO_KEYS
    }

    method GetLivePrice(id: int, now: int) returns (price: Option<int>)
      ensures price == Get(KeysOf(id).price, now)
    {
      price := Get(KeysOf(id).price, now);
    }

    method IsAuctionActive(id: int, now: int) returns (active: bool)
      ensures active == Live(KeysOf(id).active, now)
    {
      active := Live(KeysOf(id).active, now);
    }

    method GetAuctionOwner(id: int, now: int) returns (owner: Option<int>)
      ensures owner == Get(KeysOf(id).owner, now)
    {
      owner := Get(KeysOf(id).owner, now);
    }

    method GetHighestBidderId(id: int, now: int) returns (bidder: Option<int>)
      ensures bidder == Get(KeysOf(id).bidder, now)
    {
      bidder := Get(KeysOf(id).bidder, now);
    }

    /** Which of the given auctions are active, all asked in one round trip. */
    method AreAuctionsActive(ids: seq<int>, now: int) returns (active: set<int>)
      ensures forall id :: id in active <==> id in ids && Live(KeysOf(id).active, now)
    {
      active := {};
      for i := 0 to |ids|
        invariant forall id :: id in active <==> id in ids[..i] && Live(KeysOf(id).active, now)
      {
        if Live(KeysOf(ids[i]).active, now) {
          active := active + {ids[i]};
        }
        assert ids[..i + 1] == ids[..i] + [ids[i]];
      }
      assert ids[..|ids|] == ids;
    }

    method InitializeAuction(id: int, startingPrice: int, seconds: int, owner: int, now: int)
      modifies this`store
      ensures KeysOf(id) == RedisKeys.InitializeAuction(old(KeysOf(id)), now, startingPrice, seconds, owner)
      ensures forall j :: j != id ==> KeysOf(j) == old(KeysOf(j))
    {
      var keys := KeysOf(id);
      keys := keys.(active := SetNx(keys.active, 1, now, seconds));
      keys := keys.(price := SetNx(keys.price, startingPrice, now, seconds + BUFFER_SECONDS));
      keys := keys.(owner := SetNx(keys.owner, owner, now, seconds + BUFFER_SECONDS));
      store := store[id := keys];
    }

    method ExtendAuctionTime(id: int, seconds: int, now: int)
      modifies this`store
      ensures KeysOf(id) == RedisKeys.ExtendAuctionTime(old(KeysOf(id)), now, seconds)
      ensures forall j :: j != id ==> KeysOf(j) == old(KeysOf(j))
    {
      var keys := KeysOf(id);
      keys := keys.(price := Expire(keys.price, now, seconds + BUFFER_SECONDS));
      keys := keys.(active := Expire(keys.active, now, seconds));
      keys := keys.(owner := Expire(keys.owner, now, seconds + BUFFER_SECONDS));
      keys := keys.(bidder := Expire(keys.bidder, now, seconds + BUFFER_SECONDS));
      store := store[id := keys];
    }

    method RestoreAuction(id: int, price: int, seconds: int, owner: int, bidder: Option<int>, now: int)
      modifies this`store
      ensures KeysOf(id) == RedisKeys.RestoreAuction(old(KeysOf(id)), now, price, seconds, owner, bidder)
      ensures forall j :: j != id ==> KeysOf(j) == old(KeysOf(j))
    {
      var keys := KeysOf(id);
      keys := keys.(price := SetEx(keys.price, price, now, seconds + BUFFER_SECONDS));
      keys := keys.(active := SetEx(keys.active, 1, now, seconds));
      keys := keys.(owner := SetEx(keys.owner, owner, now, seconds + BUFFER_SECONDS));
      if bidder.Some? {
        keys := keys.(bidder := SetEx(keys.bidder, bidder.value, now, seconds + BUFFER_SECONDS));
      }
      store := store[id := keys];
    }

    method CleanupAuction(id: int)
      modifies this`store, this`participants
      ensures KeysOf(id) == NO_KEYS && participants == old(participants) - {id}
      ensures forall j :: j != id ==> KeysOf(j) == old(KeysOf(j))
    {
      store, participants := store - {id}, participants - {id};
    }

    method InvalidateLists()
      modifies this`lists
      ensures lists == ListCache.Invalidated(old(lists))
    {
      lists := map key | key in lists && !ListCache.ListPattern(key) :: lists[key];
    }

    method DeletePrice(id: int)
      modifies this`store
      ensures KeysOf(id) == old(KeysOf(id)).(price := Missing)
      ensures forall j :: j != id ==> KeysOf(j) == old(KeysOf(j))
    {
      store := store[id := KeysOf(id).(price := Missing)];
    }

    /** The bid script. */
    method PlaceBidAtomicWithSnapshot(id: int, user: int, amount: int, increment: real, now: int) returns (reply: BidReply)
      modifies this`store
      ensures (KeysOf(id), reply) == PlaceBid(old(KeysOf(id)), now, amount, user, increment)
      ensures forall j :: j != id ==> KeysOf(j) == old(KeysOf(j))
    {
      var keys := KeysOf(id);
      if !Live(keys.active, now) {
        return Rejected(AuctionInactive);
      }
      var currentPrice := Get(keys.price, now);
      var currentBidder := Get(keys.bidder, now);
      if currentBidder == Some(user) {
        return Rejected(AlreadyLeading);
      }
      if amount as real < currentPrice.GetOr(0) as real + increment {
        return Rejected(BidTooLow);
      }
      keys := keys.(price := SetKeepTtl(keys.price, amount, now));
      keys := keys.(bidder := SetKeepTtl(keys.bidder, user, now));
      store := store[id := keys];
      return Accepted(Snapshot(currentPrice, currentBidder));
    }

    /** The first round trip of a rollback. */
    method RemainingTtl(id: int, now: int) returns (remaining: int)
      ensures remaining == Ttl(KeysOf(id).price, now)
    {
      remaining := Ttl(KeysOf(id).price, now);
    }

    /** The second one, a pipeline of two commands. */
    method WriteBack(id: int, previous: Snapshot, remaining: int, now: int)
      modifies this`store
      ensures KeysOf(id) == RedisKeys.WriteBack(old(KeysOf(id)), now, previous, remaining)
      ensures forall j :: j != id ==> KeysOf(j) == old(KeysOf(j))
    {
      var keys := KeysOf(id);
      var safe := if remaining > 0 then remaining else 3600;
      if previous.price.Some? {
        keys := keys.(price := SetEx(keys.price, previous.price.value, now, safe));
      } else {
        keys := keys.(price := Missing);
      }
      if previous.bidder.Some? {
        keys := keys.(bidder := SetEx(keys.bidder, previous.bidder.value, now, safe));
      } else {
        keys := keys.(bidder := Missing);
      }
      store := store[id := keys];
    }

    method RollbackBid(id: int, previous: Snapshot, now: int)
      modifies this`store
      ensures KeysOf(id) == RedisKeys.RollbackBid(old(KeysOf(id)), now, previous)
      ensures forall j :: j != id ==> KeysOf(j) == old(KeysOf(j))
    {
      var remaining := RemainingTtl(id, now);
      if remaining == -2 {
        return;
      }
      WriteBack(id, previous, remaining, now);
    }
  }

  /** The auctions and bids tables; `ids` lists the primary keys in order. */
  class Database {
    var rows: map<int, Row>
    var ids: seq<int>
    var bids: seq<BidRow>
    var nextAuctionId: int
    var nextBidId: int

    ghost predicate Valid()
      reads this
    {
      && Ascending(ids)
      && (forall id :: id in ids <==> id in rows)
      && (forall id :: id in ids ==> id < nextAuctionId)
      && AscendingIds(bids)
      && forall bid :: bid in bids ==> bid.id < nextBidId
    }

    constructor ()
      ensures Valid() && rows == map[] && bids == []
    {
      rows, ids, bids, nextAuctionId, nextBidId := map[], [], [], 1, 1;
    }

    function RowOf(id: int): Option<Row>
      reads this`rows
    {
      if id in rows then Some(rows[id]) else None
    }

    method SaveRow(id: int, row: Row)
      requires Valid() && id in rows
      modifies this`rows
      ensures Valid() && rows == old(rows)[id := row]
    {
      rows := rows[id := row];
    }

    /** Inserts a row with the next id. */
    method InsertRow(row: Row) returns (id: int)
      requires Valid()
      modifies this`rows, this`ids, this`nextAuctionId
      ensures Valid()
      ensures id == old(nextAuctionId) && id !in old(rows) && rows == old(rows)[id := row] && ids == old(ids) + [id]
    {
      id := nextAuctionId;
      AscendingAppend(ids, id);
      rows := rows[id := row];
      ids := ids + [id];
      nextAuctionId := id + 1;
    }

    /** Undoes the insertion of the last row; its id is not handed out again. */
    method UndoInsert()
      requires Valid() && ids != []
      modifies this`rows, this`ids
      ensures Valid()
      ensures ids == old(ids)[..|old(ids)| - 1] && rows == old(rows) - {old(ids)[|old(ids)| - 1]}
    {
      ghost var before := ids;
      var last := ids[|ids| - 1];
      rows := rows - {last};
      ids := ids[..|ids| - 1];
      assert before == ids + [last];
      AscendingPrefix(before, |ids|);
      assert before[..|ids|] == ids;
      assert forall i :: 0 <= i < |ids| ==> ids[i] == before[i] && before[i] < before[|ids|];
    }

    /** Inserts a bid with the next id. */
    method SaveBid(auctionId: int, userId: int, amount: int)
      requires Valid()
      modifies this`bids, this`nextBidId
      ensures Valid()
      ensures BidsOf(bids, auctionId) == BidsOf(old(bids), auctionId) + [SavedBid(userId, amount)]
      ensures forall j :: j != auctionId ==> BidsOf(bids, j) == BidsOf(old(bids), j)
    {
      bids := bids + [BidRow(nextBidId, auctionId, userId, amount)];
      nextBidId := nextBidId + 1;
      assert bids[..|bids| - 1] == old(bids);
    }
  }

  class AuctionScheduler {
    var startJobs: map<int, int>
    var endJobs: map<int, int>

    constructor ()
      ensures startJobs == map[] && endJobs == map[]
    {
      startJobs, endJobs := map[], map[];
    }

    function StartJobOf(id: int): Option<int>
      reads this`startJobs
    {
      if id in startJobs then Some(startJobs[id]) else None
    }

    function EndJobOf(id: int): Option<int>
      reads this`endJobs
    {
      if id in endJobs then Some(endJobs[id]) else None
    }

    method ScheduleAuctionStart(id: int, startsAt: int, now: int)
      modifies this`startJobs
      ensures StartJobOf(id) == AddJob(old(StartJobOf(id)), DueAt(now, startsAt))
      ensures forall j :: j != id ==> StartJobOf(j) == old(StartJobOf(j))
    {
      var delay := startsAt - now;
      if delay <= 0 {
        delay := 2000;
      }
      if id !in startJobs {
        startJobs := startJobs[id := now + delay];
      }
    }

    method CancelAuctionStart(id: int)
      modifies this`startJobs
      ensures StartJobOf(id) == None
      ensures forall j :: j != id ==> StartJobOf(j) == old(StartJobOf(j))
    {
      startJobs := startJobs - {id};
    }

    method ScheduleAuctionEnd(id: int, endsAt: int, now: int)
      modifies this`endJobs
      ensures EndJobOf(id) == AddJob(old(EndJobOf(id)), DueAt(now, endsAt))
      ensures forall j :: j != id ==> EndJobOf(j) == old(EndJobOf(j))
    {
      var delay := endsAt - now;
      if delay <= 0 {
        delay := 2000;
      }
      if id !in endJobs {
        endJobs := endJobs[id := now + delay];
      }
    }

    method CancelAuctionEnd(id: int)
      modifies this`endJobs
      ensures EndJobOf(id) == None
      ensures forall j :: j != id ==> EndJobOf(j) == old(EndJobOf(j))
    {
      endJobs := endJobs - {id};
    }
  }

  /** One auction as it stands across the three stores. */
  function View(redis: RedisService, db: Database, scheduler: AuctionScheduler, id: int): Auction
    reads redis`store, db`rows, db`bids, scheduler
  {
    Auction(db.RowOf(id), BidsOf(db.bids, id), redis.KeysOf(id), scheduler.StartJobOf(id), scheduler.EndJobOf(id))
  }

  class BidService {
    const redis: RedisService
    const db: Database
    const config: BidConfig

    constructor (redis: RedisService, db: Database, config: BidConfig)
      ensures this.redis == redis && this.db == db && this.config == config
    {
      this.redis, this.db, this.config := redis, db, config;
    }

    /** `saveOk` tells whether the database accepts the row. */
    method PlaceBid(id: int, user: int, amount: int, now: int, saveOk: bool, ghost scheduler: AuctionScheduler)
      returns (outcome: Outcome)
      requires db.Valid()
      modifies redis`store, db
      ensures db.Valid()
      ensures (View(redis, db, scheduler, id), outcome)
              == WholeBid.Place(config, old(View(redis, db, scheduler, id)), now, user, amount, saveOk)
      ensures forall j :: j != id ==> View(redis, db, scheduler, j) == old(View(redis, db, scheduler, j))
    {
      if amount <= 0 {
        return InvalidAmount;
      }
      var owner := redis.GetAuctionOwner(id, now);
      var active := redis.IsAuctionActive(id, now);
      var price := redis.GetLivePrice(id, now);
      if owner.None? {
        return AuctionEnded;
      }
      if owner.value == user {
        return OwnerCannotBid;
      }
      if !active {
        return AuctionEnded;
      }
      var increment := CalcMinIncrement(price.GetOr(0), config);
      if price.Some? && (amount as real) < price.value as real + increment {
        return TooLow;
      }
      var reply := redis.PlaceBidAtomicWithSnapshot(id, user, amount, increment, now);
      match reply {
        case Rejected(code) =>
          outcome := RejectionOutcome(code);
        case Accepted(previous) =>
          if saveOk {
            db.SaveBid(id, user, amount);
            outcome := Success;
          } else {
            redis.RollbackBid(id, previous, now);
            outcome := ServerError;
          }
      }
    }
  }

  class AuctionsService {
    const redis: RedisService
    const db: Database
    const scheduler: AuctionScheduler

    constructor (redis: RedisService, db: Database, scheduler: AuctionScheduler)
      ensures this.redis == redis && this.db == db && this.scheduler == scheduler
    {
      this.redis, this.db, this.scheduler := redis, db, scheduler;
    }

    function ViewOf(id: int): Auction
      reads redis`store, db`rows, db`bids, scheduler
    {
      View(redis, db, scheduler, id)
    }

    /** Saves a new auction under a fresh id and queues its start job, or leaves no trace when the queue is down. */
    method CreateAuction(owner: int, request: NewAuction, now: int, queueUp: bool) returns (id: int, reply: Reply)
      requires db.Valid()
      modifies db, scheduler
      ensures db.Valid()
      ensures id == old(db.nextAuctionId) && id !in old(db.rows)
      ensures ViewOf(id) == Create(old(ViewOf(id)), now, owner, request, queueUp)
      ensures reply == Done <==> id in db.rows
      ensures forall j :: j != id ==> ViewOf(j) == old(ViewOf(j))
    {
      id := db.nextAuctionId;
      if !ValidNewAuction(request, now) {
        return id, Refused(Invalid);
      }
      var row := Row(Pending, request.startingPrice, Some(request.startingPrice), owner, request.endTime,
                     None, None, None, request.details);
      id := db.InsertRow(row);
      if !queueUp {
        db.UndoInsert();
        return id, Refused(Invalid);
      }
      scheduler.ScheduleAuctionStart(id, request.startTime.GetOr(now), now);
      return id, Done;
    }

    method CancelAuction(id: int, user: int) returns (reply: Reply)
      requires db.Valid()
      modifies redis, db, scheduler
      ensures db.Valid()
      ensures (ViewOf(id), reply) == Cancel(old(ViewOf(id)), user)
      ensures redis.lists == if reply == Done then ListCache.Invalidated(old(redis.lists)) else old(redis.lists)
      ensures redis.participants ==
              if reply == Done && old(db.rows)[id].status == Active then old(redis.participants) - {id} else old(redis.participants)
      ensures forall j :: j != id ==> ViewOf(j) == old(ViewOf(j))
    {
      var found := db.RowOf(id);
      if found.None? {
        return Refused(NotFound);
      }
      var row := found.value;
      if row.ownerId != user {
        return Refused(NotOwner);
      }
      if row.status != Active && row.status != Pending {
        return Refused(NotOpen);
      }
      if row.status == Active {
        if BidsOf(db.bids, id) != [] {
          return Refused(HasBids);
        }
      }
      var previousStatus := row.status;
      db.SaveRow(id, row.(status := Canceled));
      if previousStatus == Pending {
        scheduler.CancelAuctionStart(id);
      } else {
        scheduler.CancelAuctionEnd(id);
        redis.CleanupAuction(id);
      }
      redis.InvalidateLists();
      redis.DeletePrice(id);
      return Done;
    }

    method UpdateAuction(id: int, changes: Changes, user: int, now: int) returns (reply: Reply)
      requires db.Valid()
      modifies redis`store, redis`lists, db`rows, scheduler`endJobs
      ensures db.Valid()
      ensures (ViewOf(id), reply) == Update(old(ViewOf(id)), now, user, changes)
      ensures redis.lists == if reply == Done then ListCache.Invalidated(old(redis.lists)) else old(redis.lists)
      ensures forall j :: j != id ==> ViewOf(j) == old(ViewOf(j))
    {
      var found := db.RowOf(id);
      if found.None? {
        return Refused(NotFound);
      }
      var row := found.value;
      if row.ownerId != user {
        return Refused(NotOwner);
      }
      if row.status != Active && row.status != Pending {
        return Refused(NotOpen);
      }
      if changes.endTime.Some? {
        if changes.endTime.value <= now {
          return Refused(EndTimePast);
        }
        if changes.endTime.value <= row.endTime {
          return Refused(EndTimeNotLater);
        }
      }
      var endTimeChanged := false;
      if changes.endTime.Some? && row.status == Active {
        if BidsOf(db.bids, id) != [] {
          return Refused(HasBids);
        }
        row := row.(endTime := changes.endTime.value);
        endTimeChanged := true;
      } else if changes.endTime.Some? {
        row := row.(endTime := changes.endTime.value);
        endTimeChanged := true;
      }
      row := row.(details := Edited(row.details, changes));
      db.SaveRow(id, row);
      if endTimeChanged && row.status == Active {
        scheduler.CancelAuctionEnd(id);
        scheduler.ScheduleAuctionEnd(id, row.endTime, now);
        var seconds := SecondsLeft(now, row.endTime);
        if seconds > 0 {
          redis.ExtendAuctionTime(id, seconds, now);
        }
      }
      redis.InvalidateLists();
      return Done;
    }
  }

  class AuctionEndProcessor {
    const redis: RedisService
    const db: Database
    const scheduler: AuctionScheduler

    constructor (redis: RedisService, db: Database, scheduler: AuctionScheduler)
      ensures this.redis == redis && this.db == db && this.scheduler == scheduler
    {
      this.redis, this.db, this.scheduler := redis, db, scheduler;
    }

    function ViewOf(id: int): Auction
      reads redis`store, db`rows, db`bids, scheduler
    {
      View(redis, db, scheduler, id)
    }

    /** One run of the end job, which leaves the queue once it returns normally. */
    method Process(id: int, now: int, crash: Crash)
      requires db.Valid()
      modifies redis, db, scheduler
      ensures db.Valid()
      ensures ViewOf(id) == End(old(ViewOf(id)), now, crash)
      ensures redis.lists ==
              if ListCache.EndInvalidates(old(ViewOf(id)), now, crash) then ListCache.Invalidated(old(redis.lists))
              else old(redis.lists)
      ensures redis.participants ==
              if crash in {NoCrash, AfterCleanup} && FinalPrice(old(ViewOf(id)), now).Some?
              then old(redis.participants) - {id} else old(redis.participants)
      ensures forall j :: j != id ==> ViewOf(j) == old(ViewOf(j))
    {
      if crash == BeforeCommit {
        return;
      }
      var finalPrice := redis.GetLivePrice(id, now);
      if finalPrice.None? || finalPrice.value == 0 {
        scheduler.CancelAuctionEnd(id);
        return;
      }
      var winner := redis.GetHighestBidderId(id, now);
      var found := db.RowOf(id);
      if found.Some? && found.value.status != Ended {
        db.SaveRow(id, found.value.(status := Ended, currentPrice := finalPrice, winnerId := winner, endedAt := Some(now)));
      }
      if crash == AfterCommit {
        return;
      }
      redis.CleanupAuction(id);
      if crash == AfterCleanup {
        return;
      }
      redis.InvalidateLists();
      scheduler.CancelAuctionEnd(id);
    }
  }
}
