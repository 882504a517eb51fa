/**
 One auction in all the places it lives: its MySQL row and saved bids, its Redis keys and its two
 queue jobs. Each server operation, run as a whole, is a function from this state to the next one.
 */
module Auctions {
  import opened Wrappers
  import opened RedisKeys
  import opened Increment

  datatype Status = Pending | Active | Ended | Canceled

  datatype Details = Details(title: string, description: string, category: string, mainImageUrl: string)

  datatype Row = Row(
    status: Status,
    startingPrice: int,
    currentPrice: Option<int>,
    ownerId: int,
    endTime: int,
    startedAt: Option<int>,
    endedAt: Option<int>,
    winnerId: Option<int>,
    details: Details)

  datatype SavedBid = SavedBid(userId: int, amount: int)

  /** `startJob` and `endJob` hold the instant at which the queued job becomes due. */
  datatype Auction = Auction(
    row: Option<Row>,
    bids: seq<SavedBid>,
    keys: AuctionKeys,
    startJob: Option<int>,
    endJob: Option<int>)

  const NO_AUCTION := Auction(None, [], NO_KEYS, None, None)

  datatype Refusal = NotFound | NotOwner | NotOpen | HasBids | EndTimePast | EndTimeNotLater | Invalid

  datatype Reply = Done | Refused(reason: Refusal)

  // --- Scheduling ---

  /** When a job asked for at `at` becomes due: past instants are pushed two seconds ahead. */
  function DueAt(now: int, at: int): int {
    if at <= now then now + 2000 else at
  }

  /** Adding a job whose id is already queued leaves the queued one in place. */
  function AddJob(job: Option<int>, due: int): Option<int> {
    if job.Some? then job else Some(due)
  }

  /** Whole seconds from `now` to `endTime`, rounded down. */
  function SecondsLeft(now: int, endTime: int): int {
    (endTime - now) / 1000
  }

  // --- Creating, starting ---

  const HOUR_MS := 3_600_000
  const MAX_DURATION_HOURS := 720

  datatype NewAuction = NewAuction(startingPrice: int, startTime: Option<int>, endTime: int, details: Details)

  predicate ValidNewAuction(request: NewAuction, now: int) {
    && 1 <= request.startingPrice <= PRICE_MAX
    && now + HOUR_MS < request.endTime < now + MAX_DURATION_HOURS * HOUR_MS
  }

  /** A new auction is saved and its start job queued, or neither when the queue is unavailable. */
  function Create(a: Auction, now: int, owner: int, request: NewAuction, queueUp: bool): Auction {
    if a.row.Some? || !ValidNewAuction(request, now) || !queueUp then a
    else a.(
      row := Some(Row(Pending, request.startingPrice, Some(request.startingPrice), owner, request.endTime,
                      None, None, None, request.details)),
      startJob := AddJob(a.startJob, DueAt(now, request.startTime.GetOr(now))))
  }

  /**
   How one run of the start job goes once it has committed the row as ACTIVE: to its end, into a queue
   that is down, or dying before it initializes Redis, queues the end job or invalidates the lists.
   */
  datatype Setup = SetUp | QueueDown | DiesBeforeRedis | DiesBeforeQueue | DiesBeforeCache

  function Start(a: Auction, now: int, setup: Setup): Auction {
    if a.row.None? || a.row.value.status != Pending then a.(startJob := None)
    else
      var row := a.row.value;
      var seconds := SecondsLeft(now, row.endTime);
      if seconds <= 0 then
        a.(row := Some(row.(status := Ended, endedAt := Some(now))), startJob := None)
      else
        var started := a.(row := Some(row.(status := Active, startedAt := Some(now))));
        var keys := InitializeAuction(a.keys, now, row.startingPrice, seconds, row.ownerId);
        var endJob := AddJob(a.endJob, DueAt(now, row.endTime));
        match setup
        case SetUp => started.(keys := keys, startJob := None, endJob := endJob)
        // The row goes back to PENDING and the queue retries; Redis keeps the keys.
        case QueueDown => a.(row := Some(row.(startedAt := None)), keys := keys)
        // The queue runs the job again, which then finds the row ACTIVE.
        case DiesBeforeRedis => started
        case DiesBeforeQueue => started.(keys := keys)
        case DiesBeforeCache => started.(keys := keys, endJob := endJob)
  }

  // --- Ending ---

  /** Where one run of the end job dies: nowhere, before the row is committed, after that, or after the cleanup. */
  datatype Crash = NoCrash | BeforeCommit | AfterCommit | AfterCleanup

  function Finalized(row: Row, now: int, price: int, winner: Option<int>): Row {
    if row.status == Ended then row
    else row.(status := Ended, currentPrice := Some(price), winnerId := winner, endedAt := Some(now))
  }

  /** The price the end job works with: none when the key is missing or zero. */
  function FinalPrice(a: Auction, now: int): Option<int> {
    var price := Get(a.keys.price, now);
    if price == Some(0) then None else price
  }

  /** What the end job does once it has read a price, beginning with reading the winner. */
  function EndAt(a: Auction, now: int, price: Option<int>, crash: Crash): Auction {
    if crash == BeforeCommit then a
    else if price.None? then a.(endJob := None)
    else
      var winner := Get(a.keys.bidder, now);
      var committed := a.(row := if a.row.Some? then Some(Finalized(a.row.value, now, price.value, winner)) else None);
      if crash == AfterCommit then committed
      else
        var cleaned := committed.(keys := NO_KEYS);
        if crash == AfterCleanup then cleaned else cleaned.(endJob := None)
  }

  /** The end job with nothing between its two reads. */
  function End(a: Auction, now: int, crash: Crash): Auction {
    EndAt(a, now, FinalPrice(a, now), crash)
  }

  // --- Owner edits ---

  predicate Open(status: Status) {
    status == Active || status == Pending
  }

  function Cancel(a: Auction, user: int): (Auction, Reply) {
    if a.row.None? then (a, Refused(NotFound))
    else
      var row := a.row.value;
      if row.ownerId != user then (a, Refused(NotOwner))
      else if !Open(row.status) then (a, Refused(NotOpen))
      else if row.status == Active && a.bids != [] then (a, Refused(HasBids))
      else
        var canceled := a.(row := Some(row.(status := Canceled)));
        if row.status == Pending then
          (canceled.(startJob := None, keys := a.keys.(price := Missing)), Done)
        else
          (canceled.(endJob := None, keys := NO_KEYS), Done)
  }

  datatype Changes = Changes(title: Option<string>, description: Option<string>, category: Option<string>, endTime: Option<int>)

  function Edited(details: Details, changes: Changes): Details {
    details.(
      title := if changes.title.GetOr("") != "" then changes.title.value else details.title,
      description := if changes.description.GetOr("") != "" then changes.description.value else details.description,
      category := changes.category.GetOr(details.category))
  }

  function UpdateRefusal(a: Auction, now: int, user: int, changes: Changes): Option<Refusal> {
    if a.row.None? then Some(NotFound)
    else
      var row := a.row.value;
      if row.ownerId != user then Some(NotOwner)
      else if !Open(row.status) then Some(NotOpen)
      else if changes.endTime.Some? && changes.endTime.value <= now then Some(EndTimePast)
      else if changes.endTime.Some? && changes.endTime.value <= row.endTime then Some(EndTimeNotLater)
      else if changes.endTime.Some? && row.status == Active && a.bids != [] then Some(HasBids)
      else None
  }

  function Update(a: Auction, now: int, user: int, changes: Changes): (Auction, Reply) {
    var refusal := UpdateRefusal(a, now, user, changes);
    if refusal.Some? then (a, Refused(refusal.value))
    else
      var row := a.row.value;
      var edited := row.(details := Edited(row.details, changes), endTime := changes.endTime.GetOr(row.endTime));
      var saved := a.(row := Some(edited));
      if changes.endTime.Some? && row.status == Active then
        // The queued end job is removed first, so the new one is always added.
        var seconds := SecondsLeft(now, edited.endTime);
        (saved.(endJob := Some(DueAt(now, edited.endTime)),
                keys := if seconds > 0 then ExtendAuctionTime(a.keys, now, seconds) else a.keys), Done)
      else
        (saved, Done)
  }

  // --- Boot-time reconciliation of one row ---

  /** The saved bid ranked first: highest amount, then the earliest saved. */
  function TopBid(bids: seq<SavedBid>): Option<SavedBid> {
    if bids == [] then None
    else
      var n := |bids| - 1;
      var top := TopBid(bids[..n]);
      if top.None? || top.value.amount < bids[n].amount then Some(bids[n]) else top
  }

  function TopBidder(bids: seq<SavedBid>): Option<int> {
    var top := TopBid(bids);
    if top.Some? then Some(top.value.userId) else None
  }

  predicate Orphaned(a: Auction, now: int) {
    a.row.Some? && a.row.value.status == Active && !Live(a.keys.active, now)
  }

  function Reconcile(a: Auction, now: int): Auction {
    if !Orphaned(a, now) then a
    else
      var row := a.row.value;
      var seconds := SecondsLeft(now, row.endTime);
      if seconds <= 0 then
        a.(row := Some(row.(status := Ended, endedAt := Some(now))))
      else
        a.(keys := RestoreAuction(a.keys, now, row.currentPrice.GetOr(row.startingPrice), seconds, row.ownerId, TopBidder(a.bids)),
           endJob := AddJob(a.endJob, DueAt(now, row.endTime)))
  }
}
