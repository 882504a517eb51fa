/** A start job that runs again finds Redis as the bids in between have left it, and keeps them. */
module StartRetry {
  import opened Wrappers
  import opened RedisKeys
  import opened Increment
  import opened Auctions
  import opened Protocol
  import opened Expiry
  import opened Lifecycle

  /** Steps of bids, time, edits of the auction and further runs of the start job that find the queue down. */
  predicate BetweenAttempts(s: State, action: Action) {
    && (!Background(action) || action.Tick? || action.UpdateAuction? || StartFails(action))
    && (EffectiveRollback(s, action) ==> s.rollbacks < MAX_ROLLBACKS)
  }

  predicate RunBetweenAttempts(config: BidConfig, s: State, actions: seq<Action>)
    decreases |actions|
  {
    actions == []
    || (BetweenAttempts(s, actions[0]) && RunBetweenAttempts(config, Next(config, s, actions[0]), actions[1..]))
  }

  predicate CallInOrder(s: State, c: nat)
    requires c in s.calls
  {
    match s.calls[c].phase
    case Saving(previous) => previous.price.Some?
    case RollingBack(previous) => previous.price.Some?
    case Restoring(previous, ttl) => previous.price.Some? && WrittenInTime(s, ttl)
    case _ => true
  }

  predicate CallsInOrder(s: State) {
    forall c :: c in s.calls ==> CallInOrder(s, c)
  }

  /** Redis is live, its deadlines in order with the end time. */
  predicate LiveInOrder(s: State) {
    && s.auction.row.Some? && KeysInOrder(s.auction.keys, s.auction.row.value, s.rollbacks)
    && s.rollbacks <= MAX_ROLLBACKS && CallsInOrder(s)
  }

  /** The row is PENDING although Redis takes bids until `ends`, the end time the auction had at the first attempt to start it. */
  predicate Attempted(s: State, ends: int) {
    && HasStatus(s, Pending) && s.auction.endJob.None?
    && DeadlinesInOrder(s.auction.keys, s.auction.row.value.ownerId, s.rollbacks)
    && s.auction.keys.active.expiry.deadline == ends <= s.auction.row.value.endTime
    && s.rollbacks <= MAX_ROLLBACKS && CallsInOrder(s)
  }

  /** Initializing again changes no value and no expiry exactly while the active key lives. */
  lemma InitializeTwice(keys: AuctionKeys, owner: int, rollbacks: nat, now: int, price: int, seconds: int)
    requires DeadlinesInOrder(keys, owner, rollbacks) && rollbacks <= MAX_ROLLBACKS && 0 < seconds
    ensures InitializeAuction(keys, now, price, seconds, owner) == keys <==> Live(keys.active, now)
  {
  }

  /**
   An attempt that comes after the active key has run out, to an end time moved on since, sets a new
   one; the price key outlives that exactly if the old price is gone or was going to last that long.
   */
  lemma InitializeLate(keys: AuctionKeys, owner: int, rollbacks: nat, now: int, price: int, seconds: int)
    requires DeadlinesInOrder(keys, owner, rollbacks) && 0 < seconds && !Live(keys.active, now)
    ensures var after := InitializeAuction(keys, now, price, seconds, owner);
            && after.active == Stored(1, At(now + 1000 * seconds))
            && (Outlives(after.price, now + 1000 * seconds) <==>
                  !Live(keys.price, now) || now + 1000 * seconds <= keys.price.expiry.deadline)
  {
  }

  /** Edits and further attempts leave Redis and the calls alone. */
  lemma AttemptStep(config: BidConfig, s: State, action: Action, ends: int)
    requires Attempted(s, ends) && BetweenAttempts(s, action) && Background(action)
    requires s.now < ends && Next(config, s, action).now < ends
    ensures var t := Next(config, s, action);
            && s.now <= t.now && t.auction.startJob == (if HasStatus(t, Pending) then s.auction.startJob else None)
            && (HasStatus(t, Pending) ==> Attempted(t, ends))
            && (!HasStatus(t, Pending) ==> HasStatus(t, Ended) && JobsOk(t))
  {
    var t := Next(config, s, action);
    if StartFails(action) && SecondsLeft(s.now, s.auction.row.value.endTime) > 0 {
      var row := s.auction.row.value;
      InitializeTwice(s.auction.keys, row.ownerId, s.rollbacks, s.now, row.startingPrice, SecondsLeft(s.now, row.endTime));
    }
    forall c | c in t.calls && HasStatus(t, Pending) ensures CallInOrder(t, c) { assert CallInOrder(s, c); }
  }

  lemma BidStep(config: BidConfig, s: State, action: Action, ends: int)
    requires Attempted(s, ends) && BetweenAttempts(s, action) && !Background(action) && s.now < ends
    ensures var t := Next(config, s, action);
            Attempted(t, ends) && t.now == s.now && t.auction.startJob == s.auction.startJob && t.auction.row == s.auction.row
  {
  }

  /** Whatever of this happens while the first active key lives, the auction waits with its deadlines in order, or has ended. */
  lemma {:induction false} StaysInOrder(config: BidConfig, s: State, actions: seq<Action>, ends: int)
    requires Attempted(s, ends) && RunBetweenAttempts(config, s, actions)
    requires HasStatus(Run(config, s, actions), Pending) && Run(config, s, actions).now < ends
    ensures var t := Run(config, s, actions); Attempted(t, ends) && s.now <= t.now && t.auction.startJob == s.auction.startJob
    decreases |actions|
  {
    if actions == [] {
    } else {
      var t := Next(config, s, actions[0]);
      TimePasses(config, s, actions);
      TimePasses(config, t, actions[1..]);
      if Background(actions[0]) { AttemptStep(config, s, actions[0], ends); } else { BidStep(config, s, actions[0], ends); }
      if !HasStatus(t, Pending) { TerminalRowsAreFinal(config, t, actions[1..]); }
      StaysInOrder(config, t, actions[1..], ends);
    }
  }

  lemma {:induction false} TimePasses(config: BidConfig, s: State, actions: seq<Action>)
    ensures s.now <= Run(config, s, actions).now
    decreases |actions|
  {
    if actions == [] {
    } else {
      TimePasses(config, Next(config, s, actions[0]), actions[1..]);
    }
  }

  /**
   The start job fails to queue the end job, any number of times; bids go on and the owner may edit
   the auction; and the job is run again in time. Every key, saved bid and accepted bid stays, and
   the auction is ACTIVE with its end job due at the end time. Redis then takes bids up to that end
   time exactly if the owner has not moved it on by a whole second or more.
   */
  lemma RetryKeepsEveryBid(config: BidConfig, s: State, actions: seq<Action>)
    requires KeysOk(s) && HasStatus(s, Pending) && s.auction.endJob.None?
    requires s.auction.startJob.Some? && s.auction.startJob.value <= s.now
    requires SecondsLeft(s.now, s.auction.row.value.endTime) > 0
    requires RunBetweenAttempts(config, Next(config, s, StartJob(QueueDown)), actions)
    requires var t, end := Run(config, Next(config, s, StartJob(QueueDown)), actions), s.auction.row.value.endTime;
             && HasStatus(t, Pending) && SecondsLeft(t.now, t.auction.row.value.endTime) > 0
             && (SecondsLeft(s.now, t.auction.row.value.endTime) == SecondsLeft(s.now, end)
                 || t.now < s.now + 1000 * SecondsLeft(s.now, end))
    ensures var t, end := Run(config, Next(config, s, StartJob(QueueDown)), actions), s.auction.row.value.endTime;
            var u := Next(config, t, StartJob(SetUp));
            && u.auction.keys == t.auction.keys && u.auction.bids == t.auction.bids && u.log == t.log && u.calls == t.calls
            && HasStatus(u, Active) && u.auction.endJob == Some(u.auction.row.value.endTime) && u.auction.startJob.None?
            && (LiveInOrder(u) <==> SecondsLeft(s.now, u.auction.row.value.endTime) == SecondsLeft(s.now, end))
  {
    var r := Next(config, s, StartJob(QueueDown));
    var ends := s.now + 1000 * SecondsLeft(s.now, s.auction.row.value.endTime);
    forall c | c in s.calls ensures CallInOrder(r, c) { assert CallKeysOk(s, c); }
    assert Attempted(r, ends);
    var t := Run(config, r, actions);
    StaysInOrder(config, r, actions, ends);
    var row := t.auction.row.value;
    InitializeTwice(t.auction.keys, row.ownerId, t.rollbacks, t.now, row.startingPrice, SecondsLeft(t.now, row.endTime));
    var u := Next(config, t, StartJob(SetUp));
    forall c | c in t.calls ensures CallInOrder(u, c) { assert CallInOrder(t, c); }
  }

  /**
   An owner who cancels after failed attempts, with no bid saved, leaves an auction that stays without
   bids exactly when none was waiting to be saved and Redis took no bids any more.
   */
  lemma CanceledAfterAttempts(config: BidConfig, s: State, ends: int)
    requires Attempted(s, ends) && s.auction.bids == []
    ensures var t := Next(config, s, CancelAuction(s.auction.row.value.ownerId));
            && HasStatus(t, Canceled)
            && ((forall actions :: Run(config, t, actions).auction.bids == []) <==> NothingToSave(s) && ends <= s.now)
  {
    CanceledWithoutBids(config, s);
  }
}
