/**
 When each server operation on an auction goes through and what it then leaves behind, told by the
 request, the row, and what readers of Redis see. What is not mentioned stays as it was.
 */
module Operations {
  import opened Wrappers
  import opened RedisKeys
  import opened Auctions

  /** Nothing but the row has changed. */
  predicate OnlyRow(a: Auction, b: Auction) {
    b.bids == a.bids && b.keys == a.keys && b.startJob == a.startJob && b.endJob == a.endJob
  }

  /** The owner and the starting price, which nothing ever changes. */
  predicate SameIdentity(r: Row, q: Row) {
    q.ownerId == r.ownerId && q.startingPrice == r.startingPrice
  }

  // --- Creating ---

  /** What a request to create an auction must say: a price up to the cap, and an end between an hour and thirty days away. */
  predicate Acceptable(request: NewAuction, now: int) {
    1 <= request.startingPrice <= 999_999_999 && now + 3_600_000 < request.endTime < now + 2_592_000_000
  }

  /** The instant a new auction's start job becomes due: the one asked for, or two seconds from now. */
  function OpensAt(request: NewAuction, now: int): int {
    if request.startTime.Some? && now < request.startTime.value then request.startTime.value else now + 2000
  }

  /**
   An auction is created exactly when there is none yet, the request is acceptable and the queue is up.
   Its row says what the request says, and its start job is due when the request asks.
   */
  lemma CreatedExactly(a: Auction, now: int, owner: int, request: NewAuction, queueUp: bool)
    requires a.row.None? && a.startJob.None?
    ensures var b := Create(a, now, owner, request, queueUp);
            && (b.row.Some? <==> Acceptable(request, now) && queueUp)
            && (b.row.None? ==> b == a)
            && (b.row.Some? ==>
                  && b.row.value.status == Pending && b.row.value.ownerId == owner
                  && b.row.value.startingPrice == request.startingPrice
                  && b.row.value.currentPrice == Some(request.startingPrice)
                  && b.row.value.endTime == request.endTime && b.row.value.details == request.details
                  && b.row.value.startedAt.None? && b.row.value.endedAt.None? && b.row.value.winnerId.None?
                  && b.startJob == Some(OpensAt(request, now))
                  && b.bids == a.bids && b.keys == a.keys && b.endJob == a.endJob)
  {
  }

  /** Nothing is created over an auction that is there. */
  lemma NeverCreatedTwice(a: Auction, now: int, owner: int, request: NewAuction, queueUp: bool)
    requires a.row.Some?
    ensures Create(a, now, owner, request, queueUp) == a
  {
  }

  // --- Starting ---

  /** The start job has nothing to do unless the auction is PENDING, and then only completes. */
  lemma StartSkipsExactly(a: Auction, now: int, setup: Setup)
    ensures Start(a, now, setup).row == a.row && setup != QueueDown ==> a.row.None? || a.row.value.status != Pending
    ensures a.row.None? || a.row.value.status != Pending ==> Start(a, now, setup) == a.(startJob := None)
  {
  }

  /** A PENDING auction with less than a second to go ends without having run; nobody wins and Redis is left alone. */
  lemma OverdueStartEnds(a: Auction, now: int, setup: Setup)
    requires a.row.Some? && a.row.value.status == Pending && a.row.value.endTime < now + 1000
    ensures var b := Start(a, now, setup);
            && b.row.Some? && b.row.value.status == Ended && b.row.value.endedAt == Some(now)
            && b.row.value.winnerId == a.row.value.winnerId && b.row.value.currentPrice == a.row.value.currentPrice
            && SameIdentity(a.row.value, b.row.value)
            && b.startJob.None? && b.bids == a.bids && b.keys == a.keys && b.endJob == a.endJob
  {
  }

  /** The last instant at which a whole number of seconds from `now` on has passed and the end time has not. */
  predicate LastWholeSecond(now: int, endTime: int, at: int) {
    (at - now) % 1000 == 0 && at <= endTime < at + 1000
  }

  /**
   A PENDING auction with a second or more to go becomes ACTIVE and live in Redis up to its last whole
   second, at the starting price, with its end job due at the end time; what an earlier attempt left
   in Redis or in the queue stays as it is. A job that dies on the way or finds the queue down leaves
   out exactly what comes later.
   */
  lemma StartedExactly(a: Auction, now: int, setup: Setup, until: int)
    requires a.row.Some? && a.row.value.status == Pending && now + 1000 <= a.row.value.endTime
    requires LastWholeSecond(now, a.row.value.endTime, until)
    ensures var b, row, seen := Start(a, now, setup), a.row.value, ViewOf(a.keys, now);
            && b.row.Some? && SameIdentity(row, b.row.value) && b.row.value.endTime == row.endTime && b.bids == a.bids
            && b.row.value.status == (if setup == QueueDown then Pending else Active)
            && b.row.value.startedAt == (if setup == QueueDown then None else Some(now))
            && (setup == DiesBeforeRedis ==> b.keys == a.keys)
            && (setup != DiesBeforeRedis ==>
                  && ViewOf(b.keys, now) == LiveView(true, Some(if seen.price.Some? then seen.price.value else row.startingPrice),
                                                     Some(if seen.owner.Some? then seen.owner.value else row.ownerId), seen.bidder)
                  && (if seen.active then b.keys.active == a.keys.active else ReadableUntil(b.keys.active, until))
                  && (if seen.price.Some? then b.keys.price == a.keys.price else ReadableUntil(b.keys.price, until + 3_600_000))
                  && (if seen.owner.Some? then b.keys.owner == a.keys.owner else ReadableUntil(b.keys.owner, until + 3_600_000)))
            && b.endJob == (if a.endJob.None? && (setup == SetUp || setup == DiesBeforeCache) then Some(row.endTime) else a.endJob)
            && b.startJob == (if setup == SetUp then None else a.startJob)
  {
    var seconds := SecondsLeft(now, a.row.value.endTime);
    assert until - now == 1000 * ((until - now) / 1000);
    assert until == now + 1000 * seconds;
    InitializedShowsExactly(a.keys, now, a.row.value.startingPrice, seconds, a.row.value.ownerId);
  }

  // --- Ending ---

  /**
   An end job that reads no price, or zero, does nothing but complete, or stay queued if it dies
   first. Otherwise it ends the auction at what it reads, unless that is done already, then removes
   its keys, and then completes.
   */
  lemma EndedExactly(a: Auction, now: int, crash: Crash)
    requires a.row.Some?
    ensures var b, price := End(a, now, crash), ViewOf(a.keys, now).price;
            && b.bids == a.bids && b.startJob == a.startJob && b.row.Some?
            && (crash == BeforeCommit ==> b == a)
            && (crash != BeforeCommit && (price == None || price == Some(0)) ==> b == a.(endJob := None))
            && (crash != BeforeCommit && price != None && price != Some(0) ==>
                  && b.row.value.status == Ended && SameIdentity(a.row.value, b.row.value)
                  && (a.row.value.status == Ended ==> b.row == a.row)
                  && (a.row.value.status != Ended ==>
                        && b.row.value.currentPrice == price && b.row.value.winnerId == ViewOf(a.keys, now).bidder
                        && b.row.value.endedAt == Some(now) && b.row.value.endTime == a.row.value.endTime)
                  && b.keys == (if crash == AfterCommit then a.keys else NO_KEYS)
                  && b.endJob == (if crash == NoCrash then None else a.endJob))
  {
  }

  // --- Canceling ---

  /**
   A cancellation goes through exactly for the owner of a PENDING auction, or of an ACTIVE one without
   saved bids. Then only the status changes in the row; a PENDING auction loses its start job and
   price key, an ACTIVE one its end job and all its keys.
   */
  lemma CanceledExactly(a: Auction, user: int)
    ensures var (b, reply) := Cancel(a, user);
            && (reply == Done <==>
                  && a.row.Some? && a.row.value.ownerId == user
                  && (a.row.value.status == Pending || (a.row.value.status == Active && a.bids == [])))
            && (reply != Done ==> b == a)
            && (reply == Refused(NotFound) <==> a.row.None?)
            && (reply == Refused(NotOwner) <==> a.row.Some? && a.row.value.ownerId != user)
            && (reply == Done ==>
                  && b.row == Some(a.row.value.(status := Canceled)) && b.bids == a.bids
                  && (a.row.value.status == Pending ==>
                        b.startJob.None? && b.endJob == a.endJob && b.keys == a.keys.(price := Missing))
                  && (a.row.value.status == Active ==>
                        b.endJob.None? && b.startJob == a.startJob && b.keys == NO_KEYS))
  {
  }

  // --- Editing ---

  /** A new text is taken over unless it is absent or empty. */
  predicate Replaces(given: Option<string>, old_: string, new_: string) {
    new_ == if given == None || given == Some("") then old_ else given.value
  }

  /**
   An edit goes through exactly for the owner of an ACTIVE or PENDING auction; one of the end time only
   to a later one in the future, and while the auction runs only before the first saved bid.
   */
  lemma UpdateAllowedExactly(a: Auction, now: int, user: int, changes: Changes)
    ensures var (b, reply) := Update(a, now, user, changes);
            && (reply == Done <==>
                  && a.row.Some? && a.row.value.ownerId == user
                  && (a.row.value.status == Pending || a.row.value.status == Active)
                  && (changes.endTime.Some? ==>
                        && now < changes.endTime.value && a.row.value.endTime < changes.endTime.value
                        && (a.row.value.status == Pending || a.bids == [])))
            && (reply != Done ==> b == a)
            && (reply == Refused(NotFound) <==> a.row.None?)
            && (reply == Refused(NotOwner) <==> a.row.Some? && a.row.value.ownerId != user)
  {
  }

  /** Each field of the row takes what the edit gives for it; images, prices, owner and status stay. */
  lemma UpdatedRowExactly(a: Auction, now: int, user: int, changes: Changes)
    requires Update(a, now, user, changes).1 == Done
    ensures var b := Update(a, now, user, changes).0;
            && b.row.Some? && b.bids == a.bids && b.startJob == a.startJob
            && Replaces(changes.title, a.row.value.details.title, b.row.value.details.title)
            && Replaces(changes.description, a.row.value.details.description, b.row.value.details.description)
            && b.row.value.details.category ==
               (if changes.category.Some? then changes.category.value else a.row.value.details.category)
            && b.row.value.details.mainImageUrl == a.row.value.details.mainImageUrl
            && b.row.value.endTime == (if changes.endTime.Some? then changes.endTime.value else a.row.value.endTime)
            && b.row.value == a.row.value.(details := b.row.value.details, endTime := b.row.value.endTime)
  {
  }

  /**
   Redis and the end job follow an edit of the end time while the auction runs, and no other edit:
   what can be read stays readable up to the last whole second of the new end, all but the active key
   for an hour more.
   */
  lemma UpdateReachesRedisExactly(a: Auction, now: int, user: int, changes: Changes, until: int)
    requires Update(a, now, user, changes).1 == Done
    requires changes.endTime.Some? ==> LastWholeSecond(now, changes.endTime.value, until)
    ensures var b, seen := Update(a, now, user, changes).0, ViewOf(a.keys, now);
            var follows := changes.endTime.Some? && a.row.value.status == Active;
            && ViewOf(b.keys, now) == seen
            && b.endJob == (if follows then changes.endTime else a.endJob)
            && (!follows || changes.endTime.value < now + 1000 ==> b.keys == a.keys)
            && (follows && now + 1000 <= changes.endTime.value ==>
                  && (seen.active ==> ReadableUntil(b.keys.active, until))
                  && (seen.price.Some? ==> ReadableUntil(b.keys.price, until + 3_600_000))
                  && (seen.owner.Some? ==> ReadableUntil(b.keys.owner, until + 3_600_000))
                  && (seen.bidder.Some? ==> ReadableUntil(b.keys.bidder, until + 3_600_000)))
  {
    if changes.endTime.Some? && a.row.value.status == Active && now + 1000 <= changes.endTime.value {
      var seconds := SecondsLeft(now, changes.endTime.value);
      assert until - now == 1000 * ((until - now) / 1000);
      assert until == now + 1000 * seconds;
      ExtendedShowsExactly(a.keys, now, seconds);
    }
  }

  // --- Reconciling ---

  /**
   A boot touches exactly the ACTIVE auctions whose active key is gone: it ends those with less than a
   second to go, without a winner and at the price the row holds, and makes the others live again up
   to their last whole second, with an end job.
   */
  lemma ReconciledExactly(a: Auction, now: int, until: int)
    requires a.row.Some? && LastWholeSecond(now, a.row.value.endTime, until)
    ensures var b, row := Reconcile(a, now), a.row.value;
            var orphaned := row.status == Active && !ViewOf(a.keys, now).active;
            && (!orphaned ==> b == a)
            && (orphaned && row.endTime < now + 1000 ==>
                  b.row == Some(row.(status := Ended, endedAt := Some(now))) && OnlyRow(a, b))
            && (orphaned && now + 1000 <= row.endTime ==>
                  && b.row == a.row && b.bids == a.bids && b.startJob == a.startJob
                  && b.endJob == (if a.endJob.Some? then a.endJob else Some(row.endTime))
                  && ViewOf(b.keys, now).active && ViewOf(b.keys, now).owner == Some(row.ownerId)
                  && ViewOf(b.keys, now).price ==
                     Some(if row.currentPrice.Some? then row.currentPrice.value else row.startingPrice)
                  && (a.bids != [] ==> ViewOf(b.keys, now).bidder == TopBidder(a.bids))
                  && (a.bids == [] ==> b.keys.bidder == a.keys.bidder)
                  && ReadableUntil(b.keys.active, until)
                  && ReadableUntil(b.keys.price, until + 3_600_000) && ReadableUntil(b.keys.owner, until + 3_600_000))
  {
    var row := a.row.value;
    if Orphaned(a, now) && now + 1000 <= row.endTime {
      var seconds := SecondsLeft(now, row.endTime);
      assert until - now == 1000 * ((until - now) / 1000);
      assert until == now + 1000 * seconds;
      RestoredShowsExactly(a.keys, now, row.currentPrice.GetOr(row.startingPrice), seconds, row.ownerId, TopBidder(a.bids));
    }
  }
}
