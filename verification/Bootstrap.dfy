/** The start processor: running a start job, and reconciling all running auctions when the server boots. */
module Bootstrap {
  import opened Wrappers
  import opened RedisKeys
  import opened Auctions
  import opened Ranking
  import opened Scan
  import opened Server
  import ListCache

  function ActiveSet(rows: map<int, Row>): set<int> {
    set id | id in rows && rows[id].status == Active
  }

  /** The ids of the ACTIVE rows in primary-key order. */
  function ActiveIds(ids: seq<int>, rows: map<int, Row>): seq<int> {
    Filter(ids, ActiveSet(rows))
  }

  /** Running without an active key, and out of time. */
  predicate Overdue(a: Auction, now: int) {
    Orphaned(a, now) && SecondsLeft(now, a.row.value.endTime) <= 0
  }

  predicate Running(a: Auction) {
    a.row.Some? && a.row.value.status == Active
  }

  /** A reconciled running auction is ENDED exactly when it was overdue, and otherwise has an active key. */
  lemma ReconciledIsLiveOrEnded(a: Auction, now: int)
    requires Running(a)
    ensures var b := Reconcile(a, now);
            && b.row.Some?
            && (Overdue(a, now) ==> b.row.value.status == Ended)
            && (!Overdue(a, now) ==> Running(b) && Live(b.keys.active, now))
  {
  }

  /** The auctions as they stand before the scan, by id. */
  type Snapshots = imap<int, Auction>

  /** Which rows a batch ends: those overdue when it is read. */
  ghost function EndsAt(was: Snapshots, clock: nat -> int): Ends {
    (id: int, b: nat) => id in was && Overdue(was[id], clock(b))
  }

  /**
   Of the auctions standing as in `current`, each scanned one is reconciled at the instant of its
   batch, all others are as they were.
   */
  ghost predicate ScannedIn(current: Snapshots, was: Snapshots, scanned: seq<int>, clock: nat -> int) {
    && (forall id :: Untouched(current, was, scanned, id))
    && (forall k :: 0 <= k < |scanned| ==> ReconciledAt(current, was, scanned, k, clock))
  }

  ghost predicate Untouched(current: Snapshots, was: Snapshots, scanned: seq<int>, id: int) {
    id in current && id in was && (id !in scanned ==> current[id] == was[id])
  }

  ghost predicate ReconciledAt(current: Snapshots, was: Snapshots, scanned: seq<int>, k: nat, clock: nat -> int)
    requires k < |scanned|
  {
    var id := scanned[k];
    id in current && id in was && current[id] == Reconcile(was[id], clock(k / RECONCILIATION_BATCH_SIZE))
  }

  lemma BatchScanned(current: Snapshots, before: Snapshots, was: Snapshots,
                     scanned: seq<int>, batch: seq<int>, b: nat, clock: nat -> int)
    requires ScannedIn(before, was, scanned, clock)
    requires |scanned| == RECONCILIATION_BATCH_SIZE * b && |batch| <= RECONCILIATION_BATCH_SIZE
    requires forall id :: id in batch ==> id !in scanned
    requires forall id :: id in current && id in before
               && current[id] == if id in batch then Reconcile(before[id], clock(b)) else before[id]
    ensures ScannedIn(current, was, scanned + batch, clock)
  {
    forall id
      ensures Untouched(current, was, scanned + batch, id)
    {
      assert Untouched(before, was, scanned, id);
    }
    forall k | 0 <= k < |scanned + batch|
      ensures ReconciledAt(current, was, scanned + batch, k, clock)
    {
      var id := (scanned + batch)[k];
      if k < |scanned| {
        assert id in scanned && ReconciledAt(before, was, scanned, k, clock);
      } else {
        assert id in batch && k / RECONCILIATION_BATCH_SIZE == b;
        assert Untouched(before, was, scanned, id);
      }
    }
  }

  class AuctionStartProcessor {
    const redis: RedisService
    const db: Database
    const scheduler: AuctionScheduler

    constructor (redis: RedisService, db: Database, scheduler: AuctionScheduler)
      ensures this.redis == redis && this.db == db && this.scheduler == scheduler
    {
      this.redis, this.db, this.scheduler := redis, db, scheduler;
    }

    function ViewOf(id: int): Auction
      reads redis`store, db`rows, db`bids, scheduler
    {
      View(redis, db, scheduler, id)
    }

    /** What follows the commit of the row as ACTIVE. */
    method Open(id: int, row: Row, seconds: int, now: int, setup: Setup)
      requires db.Valid() && db.RowOf(id) == Some(row.(status := Active, startedAt := Some(now)))
      requires row.status == Pending && seconds == SecondsLeft(now, row.endTime) > 0
      modifies redis`store, redis`lists, db`rows, scheduler
      ensures db.Valid()
      ensures ViewOf(id) == Start(old(ViewOf(id)).(row := Some(row)), now, setup)
      ensures redis.lists == if setup == SetUp then ListCache.Invalidated(old(redis.lists)) else old(redis.lists)
      ensures forall j :: j != id ==> ViewOf(j) == old(ViewOf(j))
    {
      if setup == DiesBeforeRedis {
        return;
      }
      redis.InitializeAuction(id, row.startingPrice, seconds, row.ownerId, now);
      if setup == QueueDown {
        db.SaveRow(id, row.(status := Pending, startedAt := None));
        return;
      }
      if setup == DiesBeforeQueue {
        return;
      }
      scheduler.ScheduleAuctionEnd(id, row.endTime, now);
      if setup == SetUp {
        redis.InvalidateLists();
        scheduler.CancelAuctionStart(id);
      }
    }

    /**
     One run of the start job. When the end job cannot be queued the row goes back and the job stays
     queued, as it does when the process dies on the way.
     */
    method Process(id: int, now: int, setup: Setup)
      requires db.Valid()
      modifies redis`store, redis`lists, db`rows, scheduler
      ensures db.Valid()
      ensures ViewOf(id) == Start(old(ViewOf(id)), now, setup)
      ensures redis.lists ==
              if ListCache.StartInvalidates(old(ViewOf(id)), now, setup) then ListCache.Invalidated(old(redis.lists))
              else old(redis.lists)
      ensures forall j :: j != id ==> ViewOf(j) == old(ViewOf(j))
    {
      var found := db.RowOf(id);
      if found.None? || found.value.status != Pending {
        scheduler.CancelAuctionStart(id);
        return;
      }
      var row := found.value;
      var seconds := SecondsLeft(now, row.endTime);
      if seconds <= 0 {
        db.SaveRow(id, row.(status := Ended, endedAt := Some(now)));
        scheduler.CancelAuctionStart(id);
        return;
      }
      db.SaveRow(id, row.(status := Active, startedAt := Some(now)));
      Open(id, row, seconds, now, setup);
    }

    /** The lookup table from auction to leading bidder, later rows overriding earlier ones. */
    method BidderMap(highest: seq<BidRow>) returns (bidders: map<int, int>)
      ensures forall id :: LookedUp(highest, id, if id in bidders then Some(bidders[id]) else None)
    {
      bidders := map[];
      for i := 0 to |highest|
        invariant forall id :: LookedUp(highest[..i], id, if id in bidders then Some(bidders[id]) else None)
      {
        var row := highest[i];
        ghost var before := bidders;
        bidders := bidders[row.auctionId := row.userId];
        forall id ensures LookedUp(highest[..i + 1], id, if id in bidders then Some(bidders[id]) else None) {
          assert highest[..i + 1] == highest[..i] + [row];
          assert LookedUp(highest[..i], id, if id in before then Some(before[id]) else None);
          if id == row.auctionId {
            assert row in highest[..i + 1];
          }
        }
      }
      assert highest[..|highest|] == highest;
    }

    /** Brings one orphaned running auction back, or ends it when its time is over. */
    method ReconcileOne(id: int, bidder: Option<int>, now: int)
      requires db.Valid() && Orphaned(ViewOf(id), now) && bidder == TopBidder(BidsOf(db.bids, id))
      modifies redis`store, db`rows, scheduler`endJobs
      ensures db.Valid()
      ensures ViewOf(id) == Reconcile(old(ViewOf(id)), now)
      ensures forall j :: j != id ==> ViewOf(j) == old(ViewOf(j))
    {
      var row := db.rows[id];
      var seconds := SecondsLeft(now, row.endTime);
      if seconds <= 0 {
        db.SaveRow(id, row.(status := Ended, endedAt := Some(now)));
      } else {
        redis.RestoreAuction(id, row.currentPrice.GetOr(row.startingPrice), seconds, row.ownerId, bidder, now);
        scheduler.ScheduleAuctionEnd(id, row.endTime, now);
      }
    }

    /** What the lookup table answers for an auction. */
    function KnownBidder(bidders: map<int, int>, id: int): Option<int> {
      if id in bidders then Some(bidders[id]) else None
    }

    /** `id` as it was, or reconciled if it is among `done`. */
    ghost predicate Treated(was: Snapshots, done: seq<int>, id: int, now: int)
      requires id in was
      reads redis`store, db`rows, db`bids, scheduler
    {
      ViewOf(id) == if id in done then Reconcile(was[id], now) else was[id]
    }

    ghost predicate AllTreated(was: Snapshots, done: seq<int>, now: int)
      reads redis`store, db`rows, db`bids, scheduler
    {
      forall id :: id in was && Treated(was, done, id, now)
    }

    method ReconcileOrphans(orphaned: seq<int>, bidders: map<int, int>, now: int, ghost was: Snapshots)
      requires db.Valid() && Ascending(orphaned) && AllTreated(was, [], now)
      requires forall id :: id in orphaned ==> Orphaned(was[id], now)
      requires forall id :: id in orphaned ==> KnownBidder(bidders, id) == TopBidder(BidsOf(db.bids, id))
      modifies redis`store, db`rows, scheduler`endJobs
      ensures db.Valid()
      ensures AllTreated(was, orphaned, now)
    {
      for i := 0 to |orphaned|
        invariant db.Valid()
        invariant AllTreated(was, orphaned[..i], now)
      {
        var id := orphaned[i];
        ghost var done := orphaned[..i];
        assert id in orphaned && id !in done && orphaned[..i + 1] == done + [id];
        assert Treated(was, done, id, now);
        label before:
        ReconcileOne(id, KnownBidder(bidders, id), now);
        forall j
          ensures j in was && Treated(was, done + [id], j, now)
        {
          assert old@before(Treated(was, done, j, now));
        }
      }
      assert orphaned[..|orphaned|] == orphaned;
    }

    /** Reconciles one batch of running auctions against Redis. */
    method ReconcileBatch(batch: seq<int>, now: int, ghost was: Snapshots)
      requires db.Valid() && Ascending(batch) && AllTreated(was, [], now)
      requires forall id :: id in batch ==> Running(was[id])
      modifies redis`store, db`rows, scheduler`endJobs
      ensures db.Valid()
      ensures AllTreated(was, batch, now)
    {
      var activeInRedis := redis.AreAuctionsActive(batch, now);
      var missing := (set id | id in batch) - activeInRedis;
      var orphaned := Filter(batch, missing);
      FilterAscending(batch, missing);
      forall id | id in batch
        ensures id in orphaned <==> Orphaned(was[id], now)
      {
        assert Treated(was, [], id, now);
      }
      if |orphaned| > 0 {
        var highest := FindByOrphanedIds(db.bids, orphaned);
        var bidders := BidderMap(highest);
        forall id | id in orphaned ensures KnownBidder(bidders, id) == TopBidder(BidsOf(db.bids, id)) {
          LookupFindsTopBidder(db.bids, orphaned, id, KnownBidder(bidders, id));
        }
        ReconcileOrphans(orphaned, bidders, now, was);
      }
      forall id
        ensures id in was && Treated(was, batch, id, now)
      {
        assert Treated(was, orphaned, id, now);
      }
    }

    /** The ids of the ACTIVE rows now. */
    function Listed(): seq<int>
      reads db`rows, db`ids
    {
      ActiveIds(db.ids, db.rows)
    }

    /** Every auction as it stands. */
    ghost function Snapshot(): (was: Snapshots)
      reads redis`store, db`rows, db`bids, scheduler
      ensures forall id :: id in was && was[id] == ViewOf(id)
    {
      imap id: int | true :: ViewOf(id)
    }

    /** Fetches one page of the ACTIVE rows and reconciles it; out of the list drop the rows of the page that were overdue. */
    method NextBatch(skip: nat, now: int, ghost b: nat, ghost ends: Ends) returns (batch: seq<int>)
      requires db.Valid()
      requires forall id :: id in Page(Listed(), skip, RECONCILIATION_BATCH_SIZE) ==> (ends(id, b) <==> Overdue(ViewOf(id), now))
      modifies redis`store, db`rows, scheduler`endJobs
      ensures db.Valid()
      ensures batch == Page(old(Listed()), skip, RECONCILIATION_BATCH_SIZE)
      ensures Listed() == After(old(Listed()), skip, b, ends)
      ensures AllTreated(old(Snapshot()), batch, now)
    {
      ghost var was, ids, rows := Snapshot(), db.ids, db.rows;
      var active := Listed();
      batch := Page(active, skip, RECONCILIATION_BATCH_SIZE);
      FilterAscending(db.ids, ActiveSet(db.rows));
      PageAscends(active, skip, RECONCILIATION_BATCH_SIZE);
      ReconcileBatch(batch, now, was);
      ghost var keep := set id | id in active && !(id in batch && ends(id, b));
      forall id
        ensures id in ActiveSet(db.rows) <==> id in keep
      {
        assert Treated(was, batch, id, now);
        if Running(was[id]) { ReconciledIsLiveOrEnded(was[id], now); }
      }
      assert ActiveSet(db.rows) == keep;
      FilterTwice(db.ids, ActiveSet(rows), keep);
    }

    ghost predicate Scanned(was: Snapshots, scanned: seq<int>, clock: nat -> int)
      reads redis`store, db`rows, db`bids, scheduler
    {
      ScannedIn(Snapshot(), was, scanned, clock)
    }

    /** One more batch of a scan that is on course. */
    method ScanBatch(b: nat, clock: nat -> int, ghost scanned: seq<int>, ghost start: seq<int>, ghost was: Snapshots)
      returns (batch: seq<int>)
      requires db.Valid() && Scanned(was, scanned, clock)
      requires OnCourse(start, Listed(), scanned, b, EndsAt(was, clock), true)
      modifies redis`store, db`rows, scheduler`endJobs
      ensures db.Valid() && Scanned(was, scanned + batch, clock)
      ensures OnCourse(start, Listed(), scanned + batch, b + 1, EndsAt(was, clock), |batch| == RECONCILIATION_BATCH_SIZE)
      ensures |batch| <= RECONCILIATION_BATCH_SIZE
    {
      var skip := RECONCILIATION_BATCH_SIZE * b;
      ghost var before := Snapshot();
      CourseGoesOn(start, Listed(), scanned, b, EndsAt(was, clock));
      forall id | id in Page(Listed(), skip, RECONCILIATION_BATCH_SIZE)
        ensures EndsAt(was, clock)(id, b) <==> Overdue(ViewOf(id), clock(b))
      {
        assert Untouched(before, was, scanned, id);
      }
      batch := NextBatch(skip, clock(b), b, EndsAt(was, clock));
      forall id
        ensures id in before && Snapshot()[id] == if id in batch then Reconcile(before[id], clock(b)) else before[id]
      {
        assert Treated(before, batch, id, clock(b));
      }
      BatchScanned(Snapshot(), before, was, scanned, batch, b, clock);
    }

    /** The loop: batch after batch until one comes up short. */
    method ScanAll(clock: nat -> int, ghost was: Snapshots) returns (scanned: seq<int>, ghost b: nat)
      requires db.Valid() && was == Snapshot()
      modifies redis`store, db`rows, scheduler`endJobs
      ensures db.Valid() && Scanned(was, scanned, clock)
      ensures OnCourse(old(Listed()), Listed(), scanned, b, EndsAt(was, clock), false)
    {
      ghost var start := Listed();
      FilterAscending(db.ids, ActiveSet(db.rows));
      scanned := [];
      var batchNumber, fetched := 0, RECONCILIATION_BATCH_SIZE;
      while fetched == RECONCILIATION_BATCH_SIZE
        invariant db.Valid() && Scanned(was, scanned, clock)
        invariant OnCourse(start, Listed(), scanned, batchNumber, EndsAt(was, clock), fetched == RECONCILIATION_BATCH_SIZE)
        invariant |scanned| <= |start|
        decreases |start| - |scanned|, fetched
      {
        var batch := ScanBatch(batchNumber, clock, scanned, start, was);
        scanned := scanned + batch;
        fetched := |batch|;
        batchNumber := batchNumber + 1;
        CourseBounded(start, Listed(), scanned, batchNumber, EndsAt(was, clock), fetched == RECONCILIATION_BATCH_SIZE);
      }
      b := batchNumber;
    }

    /**
     Pages through the ACTIVE rows, reconciling each batch of a hundred at its own instant. `scanned`
     are the batches, one after another. Rows ended on the way drop out of the filtered list, so a
     later page may begin too far: as many rows are missed as are ended at most, and none exactly when
     no row outside the last page is overdue when its batch is read.
     */
    method OnApplicationBootstrap(clock: nat -> int) returns (scanned: seq<int>)
      requires db.Valid()
      modifies redis`store, db`rows, scheduler`endJobs
      ensures db.Valid()
      ensures Ascending(scanned)
      ensures var start, left := old(Listed()), Listed();
              && (forall id :: id in scanned ==> id in start)
              && |start| - |scanned| <= |start| - |left|
              && (scanned == start <==> NoneOverdueEarly(old(Snapshot()), start, clock))
      ensures Scanned(old(Snapshot()), scanned, clock)
      ensures NoneOverdue(old(Snapshot()), old(Listed()), clock) ==> AllLiveAgain(old(Listed()), clock)
    {
      ghost var start, was := Listed(), Snapshot();
      ghost var b: nat;
      ListedRun();
      scanned, b := ScanAll(clock, was);
      ScanOver(start, Listed(), scanned, b, was, clock);
      if NoneOverdue(was, start, clock) { BroughtBack(start, was, clock); }
    }

    /** The listed auctions are the running ones. */
    lemma ListedRun()
      ensures forall id :: id in Listed() ==> Running(ViewOf(id))
    {
    }

    /** When every running auction was scanned and none was overdue, each has an active key at the instant of its batch. */
    lemma BroughtBack(start: seq<int>, was: Snapshots, clock: nat -> int)
      requires Scanned(was, start, clock) && NoneOverdue(was, start, clock)
      requires forall id :: id in start ==> id in was && Running(was[id])
      ensures AllLiveAgain(start, clock)
    {
      forall k | 0 <= k < |start|
        ensures LiveAgain(start, k, clock)
      {
        assert start[k] in start && ReconciledAt(Snapshot(), was, start, k, clock) && !OverdueAt(was, start, k, clock);
        ReconciledIsLiveOrEnded(was[start[k]], clock(k / RECONCILIATION_BATCH_SIZE));
      }
    }

    ghost predicate AllLiveAgain(start: seq<int>, clock: nat -> int)
      reads redis`store, db`rows, db`bids, scheduler
    {
      forall k :: 0 <= k < |start| ==> LiveAgain(start, k, clock)
    }

    ghost predicate LiveAgain(start: seq<int>, k: nat, clock: nat -> int)
      requires k < |start|
      reads redis`store, db`rows, db`bids, scheduler
    {
      Running(ViewOf(start[k])) && Live(ViewOf(start[k]).keys.active, clock(k / RECONCILIATION_BATCH_SIZE))
    }
  }

  /** The row at `k` is overdue when its batch is read. */
  ghost predicate OverdueAt(was: Snapshots, start: seq<int>, k: nat, clock: nat -> int)
    requires k < |start|
  {
    start[k] in was && Overdue(was[start[k]], clock(k / RECONCILIATION_BATCH_SIZE))
  }

  ghost predicate NoneOverdue(was: Snapshots, start: seq<int>, clock: nat -> int) {
    forall k :: 0 <= k < |start| ==> !OverdueAt(was, start, k, clock)
  }

  /** No row is overdue whose loss would shift a page: one with rows beyond its own page. */
  ghost predicate NoneOverdueEarly(was: Snapshots, start: seq<int>, clock: nat -> int) {
    forall k :: 0 <= k < |start| && RECONCILIATION_BATCH_SIZE * (k / RECONCILIATION_BATCH_SIZE + 1) < |start| ==>
                  !OverdueAt(was, start, k, clock)
  }

  /** When the scan is over: each row read once and in order, as many missed as ended at most, none exactly when none shifts a page. */
  lemma ScanOver(start: seq<int>, left: seq<int>, scanned: seq<int>, b: nat, was: Snapshots, clock: nat -> int)
    requires OnCourse(start, left, scanned, b, EndsAt(was, clock), false)
    ensures Ascending(scanned) && forall id :: id in scanned ==> id in start
    ensures |start| - |scanned| <= |start| - |left|
    ensures scanned == start <==> NoneOverdueEarly(was, start, clock)
    ensures NoneOverdue(was, start, clock) ==> scanned == start
  {
    var ends := EndsAt(was, clock);
    CourseOver(start, left, scanned, b, ends);
    if NoShift(start, 0, ends) {
      forall k | 0 <= k < |start| && RECONCILIATION_BATCH_SIZE * (k / RECONCILIATION_BATCH_SIZE + 1) < |start|
        ensures !OverdueAt(was, start, k, clock)
      {
        assert !Shifting(start, k, ends);
      }
    }
    if NoneOverdueEarly(was, start, clock) {
      forall k | 0 <= k < |start|
        ensures !Shifting(start, k, ends)
      {
        assert ends(start[k], k / RECONCILIATION_BATCH_SIZE) ==> OverdueAt(was, start, k, clock);
      }
    }
  }

  /** With 101 running auctions the first of which is overdue at the start, the last one is not looked at. */
  lemma LastOfAHundredAndOneMissed(start: seq<int>, left: seq<int>, scanned: seq<int>, b: nat, was: Snapshots, clock: nat -> int)
    requires OnCourse(start, left, scanned, b, EndsAt(was, clock), false)
    requires |start| == 101 && OverdueAt(was, start, 0, clock)
    ensures scanned == start[..100] && start[100] !in scanned
  {
    LastOneMissed(start, EndsAt(was, clock));
  }
}
