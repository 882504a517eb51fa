/** What the life cycle of an auction never undoes. */
module Lifecycle {
  import opened Wrappers
  import opened RedisKeys
  import opened Increment
  import opened Auctions
  import opened Protocol
  import opened Expiry
  import opened WholeBid
  import opened Wear
  import opened Operations

  predicate HasStatus(s: State, status: Status) {
    s.auction.row.Some? && s.auction.row.value.status == status
  }

  /** No end job is queued for an auction that is not there, not started or canceled. */
  predicate JobsOk(s: State) {
    s.auction.row.None? || HasStatus(s, Pending) || HasStatus(s, Canceled) ==> s.auction.endJob.None?
  }

  lemma JobsOkStep(config: BidConfig, s: State, action: Action)
    requires JobsOk(s)
    ensures JobsOk(Next(config, s, action))
  {
  }

  lemma {:induction false} JobsOkAlways(config: BidConfig, s: State, actions: seq<Action>)
    requires JobsOk(s)
    ensures JobsOk(Run(config, s, actions))
    decreases |actions|
  {
    if actions == [] {
    } else {
      JobsOkStep(config, s, actions[0]);
      JobsOkAlways(config, Next(config, s, actions[0]), actions[1..]);
    }
  }

  /** ENDED and CANCELED rows never change again, whatever else happens. */
  lemma {:induction false} TerminalRowsAreFinal(config: BidConfig, s: State, actions: seq<Action>)
    requires JobsOk(s) && (HasStatus(s, Ended) || HasStatus(s, Canceled))
    ensures Run(config, s, actions).auction.row == s.auction.row
    decreases |actions|
  {
    if actions == [] {
    } else {
      JobsOkStep(config, s, actions[0]);
      TerminalRowsAreFinal(config, Next(config, s, actions[0]), actions[1..]);
    }
  }

  lemma EndTimeStep(config: BidConfig, s: State, action: Action)
    requires s.auction.row.Some?
    ensures var row, later := s.auction.row.value, Next(config, s, action).auction.row;
            && later.Some? && row.endTime <= later.value.endTime
            && later.value.ownerId == row.ownerId && later.value.startingPrice == row.startingPrice
  {
  }

  /** The owner and the starting price are fixed, and the end time only ever moves later. */
  lemma {:induction false} EndTimeNeverDecreases(config: BidConfig, s: State, actions: seq<Action>)
    requires s.auction.row.Some?
    ensures var row, later := s.auction.row.value, Run(config, s, actions).auction.row;
            && later.Some? && row.endTime <= later.value.endTime
            && later.value.ownerId == row.ownerId && later.value.startingPrice == row.startingPrice
    decreases |actions|
  {
    if actions == [] {
    } else {
      EndTimeStep(config, s, actions[0]);
      EndTimeNeverDecreases(config, Next(config, s, actions[0]), actions[1..]);
    }
  }

  lemma CommittedStep(config: BidConfig, s: State, action: Action)
    requires JobsOk(s) && HasStatus(s, Active) && s.auction.bids != []
    ensures var t := Next(config, s, action);
            && (HasStatus(t, Active) || HasStatus(t, Ended)) && t.auction.bids != []
            && t.auction.row.value.endTime == s.auction.row.value.endTime
  {
  }

  /** Once an ACTIVE auction has a saved bid its end time is fixed and it can only end. */
  lemma {:induction false} SavedBidCommits(config: BidConfig, s: State, actions: seq<Action>)
    requires JobsOk(s) && HasStatus(s, Active) && s.auction.bids != []
    ensures var t := Run(config, s, actions);
            && (HasStatus(t, Active) || HasStatus(t, Ended))
            && t.auction.row.value.endTime == s.auction.row.value.endTime
    decreases |actions|
  {
    if actions == [] {
    } else {
      var t := Next(config, s, actions[0]);
      JobsOkStep(config, s, actions[0]);
      CommittedStep(config, s, actions[0]);
      if HasStatus(t, Active) {
        SavedBidCommits(config, t, actions[1..]);
      } else {
        TerminalRowsAreFinal(config, t, actions[1..]);
      }
    }
  }

  // --- Who changes an auction, and when it starts ---

  predicate OwnersDoing(row: Row, action: Action) {
    (action.CancelAuction? || action.UpdateAuction?) && action.user == row.ownerId
  }

  /** As long as its owner does nothing, an auction is not canceled and keeps its end time and its details. */
  lemma {:induction false} OnlyTheOwnerEdits(config: BidConfig, s: State, actions: seq<Action>)
    requires s.auction.row.Some? && !HasStatus(s, Canceled)
    requires forall i :: 0 <= i < |actions| ==> !OwnersDoing(s.auction.row.value, actions[i])
    ensures var row, later := s.auction.row.value, Run(config, s, actions).auction.row;
            && later.Some? && later.value.status != Canceled
            && later.value.endTime == row.endTime && later.value.details == row.details
    decreases |actions|
  {
    if actions == [] {
    } else {
      var t := Next(config, s, actions[0]);
      assert !OwnersDoing(s.auction.row.value, actions[0]);
      assert t.auction.row.Some? && t.auction.row.value.ownerId == s.auction.row.value.ownerId;
      OnlyTheOwnerEdits(config, t, actions[1..]);
    }
  }

  /** Before the start job is due the auction waits or is canceled. */
  predicate StartsAt(s: State, due: int) {
    || due <= s.now
    || HasStatus(s, Canceled)
    || (HasStatus(s, Pending) && (s.auction.startJob.Some? ==> s.auction.startJob.value == due))
  }

  lemma StartsAtStep(config: BidConfig, s: State, action: Action, due: int)
    requires JobsOk(s) && StartsAt(s, due)
    ensures StartsAt(Next(config, s, action), due)
  {
  }

  /** No auction is ACTIVE or ENDED before the instant its start was asked for. */
  lemma NeverRunsBeforeItsStart(config: BidConfig, s: State, actions: seq<Action>, due: int)
    requires JobsOk(s) && HasStatus(s, Pending) && s.auction.startJob == Some(due)
    ensures var t := Run(config, s, actions);
            HasStatus(t, Active) || HasStatus(t, Ended) ==> due <= t.now
  {
    StartsAtAlways(config, s, actions, due);
  }

  lemma {:induction false} StartsAtAlways(config: BidConfig, s: State, actions: seq<Action>, due: int)
    requires JobsOk(s) && StartsAt(s, due)
    ensures StartsAt(Run(config, s, actions), due)
    decreases |actions|
  {
    if actions == [] {
    } else {
      JobsOkStep(config, s, actions[0]);
      StartsAtStep(config, s, actions[0], due);
      StartsAtAlways(config, Next(config, s, actions[0]), actions[1..], due);
    }
  }

  /** An auction that is not there has no start job. */
  predicate NoStrayJob(s: State) {
    s.auction.row.None? ==> s.auction.startJob.None?
  }

  lemma {:induction false} NoStrayJobAlways(config: BidConfig, s: State, actions: seq<Action>)
    requires NoStrayJob(s)
    ensures NoStrayJob(Run(config, s, actions))
    decreases |actions|
  {
    if actions == [] {
    } else {
      assert NoStrayJob(Next(config, s, actions[0]));
      NoStrayJobAlways(config, Next(config, s, actions[0]), actions[1..]);
    }
  }

  /**
   Whenever an auction is created, its start job is due at the start time asked for, or two seconds
   later for one that is absent or past, and nothing makes it ACTIVE or ENDED before that.
   */
  lemma OpensWhenAsked(config: BidConfig, start: int, before: seq<Action>, owner: int, request: NewAuction, after: seq<Action>)
    requires var s := Run(config, Initial(start), before);
             s.auction.row.None? && Acceptable(request, s.now)
    ensures var s := Run(config, Initial(start), before);
            var t := Next(config, s, CreateAuction(owner, request, true));
            var u := Run(config, t, after);
            && HasStatus(t, Pending) && t.auction.startJob == Some(OpensAt(request, s.now))
            && (HasStatus(u, Active) || HasStatus(u, Ended) ==>
                  && OpensAt(request, s.now) <= u.now
                  && (request.startTime.Some? && s.now < request.startTime.value ==> request.startTime.value <= u.now))
  {
    var s := Run(config, Initial(start), before);
    NoStrayJobAlways(config, Initial(start), before);
    JobsOkAlways(config, Initial(start), before);
    CreatedExactly(s.auction, s.now, owner, request, true);
    var t := Next(config, s, CreateAuction(owner, request, true));
    JobsOkStep(config, s, CreateAuction(owner, request, true));
    NeverRunsBeforeItsStart(config, t, after, OpensAt(request, s.now));
  }

  // --- When it ends ---

  /** An end job is never due before the end time, and what has ended did so in its last second or later. */
  predicate EndsInTime(s: State) {
    && (HasStatus(s, Active) && s.auction.endJob.Some? ==> s.auction.row.value.endTime <= s.auction.endJob.value)
    && (HasStatus(s, Ended) ==>
          s.auction.row.value.endedAt.Some? && s.auction.row.value.endTime - 1000 < s.auction.row.value.endedAt.value <= s.now)
  }

  lemma EndsInTimeStep(config: BidConfig, s: State, action: Action)
    requires JobsOk(s) && EndsInTime(s)
    ensures EndsInTime(Next(config, s, action))
  {
  }

  /** In every run at all an auction ends in the last second before its end time or later, never earlier. */
  lemma {:induction false} NeverEndsEarly(config: BidConfig, s: State, actions: seq<Action>)
    requires JobsOk(s) && EndsInTime(s)
    ensures EndsInTime(Run(config, s, actions))
    decreases |actions|
  {
    if actions == [] {
    } else {
      JobsOkStep(config, s, actions[0]);
      EndsInTimeStep(config, s, actions[0]);
      NeverEndsEarly(config, Next(config, s, actions[0]), actions[1..]);
    }
  }

  // --- Closed auctions ---

  /** A terminal auction whose active key is gone. */
  predicate Closed(s: State) {
    Terminal(s) && !Live(s.auction.keys.active, s.now)
  }

  predicate NothingToSave(s: State) {
    forall c :: c in s.calls ==> !IsSaving(s, c)
  }

  lemma ClosedStep(config: BidConfig, s: State, action: Action)
    requires JobsOk(s) && Closed(s)
    ensures var t := Next(config, s, action);
            && Closed(t) && t.auction.row == s.auction.row
            && (NothingToSave(s) ==> NothingToSave(t) && t.auction.bids == s.auction.bids)
  {
    if Background(action) { ClosedBackground(config, s, action); } else { ClosedCall(config, s, action); }
  }

  lemma ClosedBackground(config: BidConfig, s: State, action: Action)
    requires JobsOk(s) && Closed(s) && Background(action)
    ensures var t := Next(config, s, action);
            Closed(t) && t.auction.row == s.auction.row && t.calls == s.calls && t.auction.bids == s.auction.bids
  {
  }

  lemma ClosedCall(config: BidConfig, s: State, action: Action)
    requires Closed(s) && !Background(action)
    ensures var t := Next(config, s, action);
            && Closed(t) && t.auction.row == s.auction.row
            && (NothingToSave(s) ==> NothingToSave(t) && t.auction.bids == s.auction.bids)
  {
  }

  /** A closed auction keeps its row and takes no bid; with nothing left to save it gains none either. */
  lemma {:induction false} ClosedForGood(config: BidConfig, s: State, actions: seq<Action>)
    requires JobsOk(s) && Closed(s)
    ensures var t := Run(config, s, actions);
            && Closed(t) && t.auction.row == s.auction.row
            && (NothingToSave(s) ==> NothingToSave(t) && t.auction.bids == s.auction.bids)
    decreases |actions|
  {
    if actions == [] {
    } else {
      var t := Next(config, s, actions[0]);
      JobsOkStep(config, s, actions[0]);
      ClosedStep(config, s, actions[0]);
      ClosedForGood(config, t, actions[1..]);
    }
  }

  // --- Canceled auctions ---

  /** While bids are taken the owner can be read, so that a new call gets as far as the script. */
  predicate OwnerReadable(s: State) {
    Live(s.auction.keys.active, s.now) && s.auction.row.Some? ==>
      Get(s.auction.keys.owner, s.now) == Some(s.auction.row.value.ownerId)
  }

  /**
   When the owner cancels an auction without saved bids, it stays without bids in every possible
   continuation exactly when no accepted bid was still waiting to be saved and it was not a PENDING
   auction that a failed start had left live in Redis.
   */
  lemma CanceledWithoutBids(config: BidConfig, s: State)
    requires JobsOk(s) && OwnerReadable(s) && (HasStatus(s, Active) || HasStatus(s, Pending)) && s.auction.bids == []
    ensures var t := Next(config, s, CancelAuction(s.auction.row.value.ownerId));
            && HasStatus(t, Canceled)
            && ((forall actions :: Run(config, t, actions).auction.bids == []) <==>
                  NothingToSave(s) && !(HasStatus(s, Pending) && Live(s.auction.keys.active, s.now)))
  {
    var t := Next(config, s, CancelAuction(s.auction.row.value.ownerId));
    JobsOkStep(config, s, CancelAuction(s.auction.row.value.ownerId));
    if !NothingToSave(s) {
      var _ := SavedLate(config, t);
    } else if HasStatus(s, Pending) && Live(s.auction.keys.active, s.now) {
      var _ := BidLate(config, t);
    } else {
      forall actions ensures Run(config, t, actions).auction.bids == [] {
        ClosedForGood(config, t, actions);
      }
    }
  }

  /** In regular runs, which have no failed starts, only a bid waiting to be saved matters. */
  lemma CanceledInOrder(config: BidConfig, s: State)
    requires KeysOk(s) && JobsOk(s) && (HasStatus(s, Active) || HasStatus(s, Pending)) && s.auction.bids == []
    ensures var t := Next(config, s, CancelAuction(s.auction.row.value.ownerId));
            (forall actions :: Run(config, t, actions).auction.bids == []) <==> NothingToSave(s)
  {
    CanceledWithoutBids(config, s);
  }

  /** An accepted bid can be saved whatever has become of the auction. */
  lemma SavedLate(config: BidConfig, s: State) returns (actions: seq<Action>)
    requires !NothingToSave(s)
    ensures Run(config, s, actions).auction.bids != []
  {
    var c :| c in s.calls && IsSaving(s, c);
    actions := [Save(c, true)];
    assert actions[1..] == [];
  }

  lemma {:induction false} Above(ids: set<nat>) returns (n: nat)
    ensures forall c :: c in ids ==> c < n
    decreases ids
  {
    if ids == {} {
      n := 0;
    } else {
      var c :| c in ids;
      var m := Above(ids - {c});
      n := if m <= c then c + 1 else m;
      assert forall d :: d in ids ==> d == c || d in ids - {c};
    }
  }

  /** With the active key alive and no price key, somebody new can bid from nothing on. */
  lemma BidLate(config: BidConfig, s: State) returns (actions: seq<Action>)
    requires s.auction.row.Some? && Live(s.auction.keys.active, s.now) && OwnerReadable(s) && s.auction.keys.price == Missing
    ensures Run(config, s, actions).auction.bids != []
  {
    var c := Above(s.calls.Keys);
    var owner, bidder := s.auction.row.value.ownerId, Get(s.auction.keys.bidder, s.now);
    var user := if owner + 1 != bidder.GetOr(owner) then owner + 1 else owner + 2;
    var amount := Clearing(config, 0);
    IncrementMonotone(0, 0, config);
    assert Decision(user, amount, Some(owner), true, None, config) == Ready(CalcMinIncrement(0, config));
    actions := Steps(c, user, amount, true);
    PlaceIsARun(config, s, c, user, amount, true);
  }

  /** A start that finds the queue down, and the owner canceling before the job is run again. */
  function FailedStart(startingPrice: int): seq<Action> {
    [CreateAuction(OWNER, NewAuction(startingPrice, None, DURATION, Details("", "", "", "")), true)]
    + [Tick(2000), StartJob(QueueDown), CancelAuction(OWNER)]
  }

  lemma FailedStartRun(config: BidConfig, startingPrice: int)
    requires 1 <= startingPrice <= PRICE_MAX
    ensures var s := Run(config, Initial(0), FailedStart(startingPrice));
            && HasStatus(s, Canceled) && s.auction.row.value.startingPrice == startingPrice
            && s.auction.row.value.ownerId == OWNER && s.auction.bids == [] && s.calls == map[] && s.now == 2000
            && s.auction.keys == AuctionKeys(Stored(1, At(DURATION)), Missing, Stored(OWNER, At(DURATION + BUFFER_MS)), Missing)
  {
    var create := CreateAuction(OWNER, NewAuction(startingPrice, None, DURATION, Details("", "", "", "")), true);
    var s := Next(config, Initial(0), create);
    RunFirst(config, Initial(0), create, [Tick(2000), StartJob(QueueDown), CancelAuction(OWNER)]);
    Run3(config, s, Tick(2000), StartJob(QueueDown), CancelAuction(OWNER));
    var u := Next(config, Next(config, s, Tick(2000)), StartJob(QueueDown));
    assert u.auction.keys.active == Stored(1, At(DURATION)) && u.auction.row.value.status == Pending;
  }

  /** From the empty system to a CANCELED auction with a saved bid that is below its starting price. */
  lemma CanceledYetBidOn(config: BidConfig, startingPrice: int)
    requires Clearing(config, 0) < startingPrice <= PRICE_MAX
    ensures var s := Run(config, Initial(0), FailedStart(startingPrice));
            var t := Run(config, Initial(0), FailedStart(startingPrice) + Steps(0, BIDDER, Clearing(config, 0), true));
            && HasStatus(s, Canceled) && s.auction.bids == [] && NothingToSave(s)
            && HasStatus(t, Canceled) && t.auction.bids == [SavedBid(BIDDER, Clearing(config, 0))]
            && Clearing(config, 0) < t.auction.row.value.startingPrice
  {
    IncrementMonotone(0, 0, config);
    FailedStartRun(config, startingPrice);
    var s := Run(config, Initial(0), FailedStart(startingPrice));
    RunAppend(config, Initial(0), FailedStart(startingPrice), Steps(0, BIDDER, Clearing(config, 0), true));
    assert Decision(BIDDER, Clearing(config, 0), Some(OWNER), true, None, config) == Ready(CalcMinIncrement(0, config));
    PlaceIsARun(config, s, 0, BIDDER, Clearing(config, 0), true);
  }

  /** Operations run as a whole: an owner never cancels in the middle of somebody's bid. */
  predicate CancelsBetweenBids(s: State, action: Action) {
    action.CancelAuction? ==> NothingToSave(s)
  }

  predicate WholeRun(config: BidConfig, s: State, actions: seq<Action>)
    decreases |actions|
  {
    actions == []
    || (Regular(s, actions[0]) && CancelsBetweenBids(s, actions[0]) && WholeRun(config, Next(config, s, actions[0]), actions[1..]))
  }

  predicate BidlessWhereDue(s: State) {
    s.auction.row.None? || HasStatus(s, Pending) || HasStatus(s, Canceled) ==>
      && s.auction.bids == [] && NothingToSave(s)
      && s.auction.keys.active == Missing && s.auction.keys.owner == Missing
      && (HasStatus(s, Canceled) || s.auction.keys == NO_KEYS)
  }

  lemma BidlessStep(config: BidConfig, s: State, action: Action)
    requires KeysOk(s) && JobsOk(s) && BidlessWhereDue(s) && Regular(s, action) && CancelsBetweenBids(s, action)
    ensures BidlessWhereDue(Next(config, s, action))
  {
    if Background(action) { BidlessBackground(config, s, action); } else { BidlessCall(config, s, action); }
  }

  lemma BidlessBackground(config: BidConfig, s: State, action: Action)
    requires KeysOk(s) && JobsOk(s) && BidlessWhereDue(s) && Regular(s, action) && CancelsBetweenBids(s, action)
    requires Background(action)
    ensures BidlessWhereDue(Next(config, s, action))
  {
  }

  lemma BidlessCall(config: BidConfig, s: State, action: Action)
    requires KeysOk(s) && BidlessWhereDue(s) && !Background(action)
    ensures BidlessWhereDue(Next(config, s, action))
  {
  }

  /** In whole-operation runs an auction that has not started or was canceled has no bids. */
  lemma {:induction false} CanceledAuctionsHaveNoBids(config: BidConfig, s: State, actions: seq<Action>)
    requires KeysOk(s) && JobsOk(s) && BidlessWhereDue(s) && WholeRun(config, s, actions)
    ensures BidlessWhereDue(Run(config, s, actions))
    decreases |actions|
  {
    if actions == [] {
    } else {
      KeysOkStep(config, s, actions[0]);
      JobsOkStep(config, s, actions[0]);
      BidlessStep(config, s, actions[0]);
      CanceledAuctionsHaveNoBids(config, Next(config, s, actions[0]), actions[1..]);
    }
  }

  // --- The end job ---

  /** An ACTIVE auction has its end job queued, due exactly at its current end time. */
  predicate EndJobQueued(s: State) {
    HasStatus(s, Active) ==> s.auction.endJob == Some(s.auction.row.value.endTime)
  }

  /** ACTIVE, and nothing queued that would end it. */
  predicate Forgotten(s: State) {
    HasStatus(s, Active) && s.auction.endJob.None?
  }

  /** The start job dies before it queues the end job, the end job comes too late to read a price, and goes, or the queue is lost. */
  predicate LosesEndJob(s: State, action: Action) {
    match action
    case StartJob(setup) =>
      && HasStatus(s, Pending) && s.auction.startJob.Some? && s.auction.startJob.value <= s.now
      && SecondsLeft(s.now, s.auction.row.value.endTime) > 0
      && (setup == DiesBeforeRedis || setup == DiesBeforeQueue)
    case EndJob(crash) =>
      && HasStatus(s, Active) && s.auction.endJob.Some? && s.auction.endJob.value <= s.now
      && crash != BeforeCommit && FinalPrice(s.auction, s.now).None?
    case LoseRedis(jobsToo) => HasStatus(s, Active) && jobsToo
    case _ => false
  }

  /** Exactly these steps leave an ACTIVE auction without its end job. */
  lemma EndJobLostExactly(config: BidConfig, s: State, action: Action)
    requires JobsOk(s) && EndJobQueued(s)
    ensures EndJobQueued(Next(config, s, action)) <==> !LosesEndJob(s, action)
    ensures LosesEndJob(s, action) ==> Forgotten(Next(config, s, action))
  {
  }

  predicate PromptRun(config: BidConfig, s: State, actions: seq<Action>)
    decreases |actions|
  {
    actions == [] || (!LosesEndJob(s, actions[0]) && PromptRun(config, Next(config, s, actions[0]), actions[1..]))
  }

  lemma {:induction false} EndJobAlwaysQueued(config: BidConfig, s: State, actions: seq<Action>)
    requires JobsOk(s) && EndJobQueued(s) && PromptRun(config, s, actions)
    ensures EndJobQueued(Run(config, s, actions))
    decreases |actions|
  {
    if actions == [] {
    } else {
      JobsOkStep(config, s, actions[0]);
      EndJobLostExactly(config, s, actions[0]);
      EndJobAlwaysQueued(config, Next(config, s, actions[0]), actions[1..]);
    }
  }

  /** A boot that finds the active key gone, or the owner canceling the auction or extending it. */
  predicate Remembers(s: State, action: Action) {
    || (action.ReconcileRow? && Orphaned(s.auction, s.now))
    || (s.auction.row.Some? && OwnersDoing(s.auction.row.value, action))
  }

  predicate UnrememberedRun(config: BidConfig, s: State, actions: seq<Action>)
    decreases |actions|
  {
    actions == [] || (!Remembers(s, actions[0]) && UnrememberedRun(config, Next(config, s, actions[0]), actions[1..]))
  }

  /** Without its owner, and without a boot that finds its active key gone, a forgotten auction stays ACTIVE for good. */
  lemma {:induction false} ForgottenForGood(config: BidConfig, s: State, actions: seq<Action>)
    requires Forgotten(s) && UnrememberedRun(config, s, actions)
    ensures Forgotten(Run(config, s, actions))
    decreases |actions|
  {
    if actions == [] {
    } else {
      var t := Next(config, s, actions[0]);
      assert Forgotten(t);
      ForgottenForGood(config, t, actions[1..]);
    }
  }

  /** A boot remembers a forgotten auction exactly when its active key is gone, and then queues its end job or ends it. */
  lemma BootRemembersExactly(config: BidConfig, s: State)
    requires Forgotten(s)
    ensures var t := Next(config, s, ReconcileRow);
            && (Forgotten(t) <==> Live(s.auction.keys.active, s.now))
            && (Live(s.auction.keys.active, s.now) ==> t == s)
            && (!Forgotten(t) ==>
                  if SecondsLeft(s.now, s.auction.row.value.endTime) > 0
                  then HasStatus(t, Active) && EndJobQueued(t) && Live(t.auction.keys.active, t.now)
                  else HasStatus(t, Ended))
  {
  }

  /** Nothing of the auction is in Redis, and no rollback is about to write. */
  predicate Keyless(s: State) {
    Forgotten(s) && s.auction.keys == NO_KEYS && forall c :: c in s.calls ==> !IsRestoring(s, c)
  }

  lemma {:induction false} KeylessForGood(config: BidConfig, s: State, actions: seq<Action>)
    requires Keyless(s) && UnrememberedRun(config, s, actions)
    ensures Keyless(Run(config, s, actions))
    decreases |actions|
  {
    if actions == [] {
    } else {
      var t := Next(config, s, actions[0]);
      assert Keyless(t);
      KeylessForGood(config, t, actions[1..]);
    }
  }

  /** A start job that dies right after its commit leaves an auction that takes no bids and is not ended, until a boot or its owner. */
  lemma DiedBeforeRedis(config: BidConfig, s: State, actions: seq<Action>)
    requires KeysOk(s) && JobsOk(s) && LosesEndJob(s, StartJob(DiesBeforeRedis))
    requires UnrememberedRun(config, Next(config, s, StartJob(DiesBeforeRedis)), actions)
    ensures Keyless(Run(config, Next(config, s, StartJob(DiesBeforeRedis)), actions))
  {
    var t := Next(config, s, StartJob(DiesBeforeRedis));
    forall c | c in s.calls ensures !IsRestoring(s, c) { assert CallKeysOk(s, c); }
    KeylessForGood(config, t, actions);
  }
}
