/**
 The live auction as a state machine: a clock, the stored auction and any number of `placeBid`
 calls in flight, each taking its steps at its own pace between the steps of all the others.
 */
module Protocol {
  import opened Wrappers
  import opened RedisKeys
  import opened Increment
  import opened Auctions

  datatype Outcome = Success | InvalidAmount | OwnerCannotBid | AuctionEnded | TooLow | AlreadyLeadingOutcome | Outbid | ServerError

  /**
   Where a call stands. While `Reading`, the three answers arrive one by one in any order. An
   accepted call still has its bid to save; one whose save failed still has Redis to roll back, first
   reading how long the price key has left and then writing.
   */
  datatype Phase =
    | Reading(owner: Option<Option<int>>, active: Option<bool>, price: Option<Option<int>>)
    | Ready(increment: real)
    | Saving(previous: Snapshot)
    | RollingBack(previous: Snapshot)
    | Restoring(previous: Snapshot, ttl: int)
    | Finished(outcome: Outcome)

  datatype Call = Call(user: int, amount: int, phase: Phase)

  /** An accepted bid that Redis has not rolled back. */
  datatype Entry = Entry(call: nat, user: int, amount: int)

  /**
   `log` and `rollbacks` are history: the accepted bids not rolled back, oldest first, and how
   many rollbacks have reached Redis.
   */
  datatype State = State(now: int, auction: Auction, calls: map<nat, Call>, log: seq<Entry>, rollbacks: nat)

  function Initial(now: int): State {
    State(now, NO_AUCTION, map[], [], 0)
  }

  datatype Action =
    | Tick(to: int)
    | CreateAuction(owner: int, request: NewAuction, queueUp: bool)
    | StartJob(setup: Setup)
    | EndJob(crash: Crash)
    | CancelAuction(user: int)
    | UpdateAuction(user: int, changes: Changes)
    | ReconcileRow
    | LoseRedis(jobsToo: bool)
    | Begin(call: nat, user: int, amount: int)
    | ReadOwner(call: nat)
    | ReadActive(call: nat)
    | ReadPrice(call: nat)
    | Decide(call: nat)
    | RunScript(call: nat)
    | Save(call: nat, ok: bool)
    | ReadTtl(call: nat)
    | RollBack(call: nat)

  /** What `placeBid` decides from its three reads: an outcome, or the increment to send to the script. */
  function Decision(user: int, amount: int, owner: Option<int>, active: bool, price: Option<int>, config: BidConfig)
    : (decision: Phase)
    ensures decision.Finished? || (decision.Ready? && owner.Some? && owner.value != user && active)
  {
    if owner.None? then Finished(AuctionEnded)
    else if owner.value == user then Finished(OwnerCannotBid)
    else if !active then Finished(AuctionEnded)
    else
      var increment := CalcMinIncrement(price.GetOr(0), config);
      if price.Some? && (amount as real) < price.value as real + increment then Finished(TooLow)
      else Ready(increment)
  }

  /** Which refusal is given, and when the call goes on to the script. */
  lemma DecidedExactly(user: int, amount: int, owner: Option<int>, active: bool, price: Option<int>, config: BidConfig)
    ensures var decision := Decision(user, amount, owner, active, price, config);
            && (decision == Finished(OwnerCannotBid) <==> owner == Some(user))
            && (decision == Finished(AuctionEnded) <==> owner.None? || (owner.value != user && !active))
            && (decision == Finished(TooLow) <==>
                  && owner.Some? && owner.value != user && active
                  && price.Some? && amount as real < price.value as real + CalcMinIncrement(price.value, config))
            && (decision.Ready? <==>
                  && owner.Some? && owner.value != user && active
                  && (price.Some? ==> amount as real >= price.value as real + CalcMinIncrement(price.value, config)))
            && (decision.Ready? ==> decision.increment == CalcMinIncrement(price.GetOr(0), config))
  {
  }

  function RejectionOutcome(code: RejectionCode): Outcome {
    match code
    case AuctionInactive => AuctionEnded
    case AlreadyLeading => AlreadyLeadingOutcome
    case BidTooLow => Outbid
  }

  // --- Enabledness ---

  predicate IsReading(s: State, c: nat) {
    c in s.calls && s.calls[c].phase.Reading?
  }

  predicate IsReady(s: State, c: nat) {
    c in s.calls && s.calls[c].phase.Ready?
  }

  predicate IsSaving(s: State, c: nat) {
    c in s.calls && s.calls[c].phase.Saving?
  }

  predicate IsRollingBack(s: State, c: nat) {
    c in s.calls && s.calls[c].phase.RollingBack?
  }

  predicate IsRestoring(s: State, c: nat) {
    c in s.calls && s.calls[c].phase.Restoring?
  }

  /** Between script and save, or between a failed save and the end of its rollback. */
  predicate InFlight(s: State, c: nat) {
    IsSaving(s, c) || IsRollingBack(s, c) || IsRestoring(s, c)
  }

  predicate Quiescent(s: State) {
    forall c :: c in s.calls ==> !InFlight(s, c)
  }

  predicate PriceLive(s: State) {
    Live(s.auction.keys.price, s.now)
  }

  // --- Steps ---

  function SetPhase(s: State, c: nat, phase: Phase): State
    requires c in s.calls
  {
    s.(calls := s.calls[c := s.calls[c].(phase := phase)])
  }

  function DecideStep(s: State, c: nat, config: BidConfig): State
    requires IsReading(s, c)
  {
    var call := s.calls[c];
    var answers := call.phase;
    if answers.owner.None? || answers.active.None? || answers.price.None? then s
    else SetPhase(s, c, Decision(call.user, call.amount, answers.owner.value, answers.active.value, answers.price.value, config))
  }

  function ScriptStep(s: State, c: nat): State
    requires IsReady(s, c)
  {
    var call := s.calls[c];
    var (keys, reply) := PlaceBid(s.auction.keys, s.now, call.amount, call.user, call.phase.increment);
    match reply
    case Rejected(code) => SetPhase(s, c, Finished(RejectionOutcome(code)))
    case Accepted(previous) =>
      SetPhase(s, c, Saving(previous)).(auction := s.auction.(keys := keys), log := s.log + [Entry(c, call.user, call.amount)])
  }

  function SaveStep(s: State, c: nat, ok: bool): State
    requires IsSaving(s, c)
  {
    var call := s.calls[c];
    if ok then
      SetPhase(s, c, Finished(Success)).(auction := s.auction.(bids := s.auction.bids + [SavedBid(call.user, call.amount)]))
    else
      SetPhase(s, c, RollingBack(call.phase.previous))
  }

  /** The log without the entry of call `c`. */
  function Without(log: seq<Entry>, c: nat): seq<Entry> {
    if log == [] then []
    else
      var n := |log| - 1;
      if log[n].call == c then log[..n] else Without(log[..n], c) + [log[n]]
  }

  /** The first round trip of a rollback, which is skipped when there is no price key. */
  function ReadTtlStep(s: State, c: nat): State
    requires IsRollingBack(s, c)
  {
    var ttl := Ttl(s.auction.keys.price, s.now);
    SetPhase(s, c, if ttl == -2 then Finished(ServerError) else Restoring(s.calls[c].phase.previous, ttl))
  }

  /** The second round trip, which writes whatever has become of the keys. */
  function RollBackStep(s: State, c: nat): State
    requires IsRestoring(s, c)
  {
    var phase := s.calls[c].phase;
    SetPhase(s, c, Finished(ServerError)).(
      auction := s.auction.(keys := WriteBack(s.auction.keys, s.now, phase.previous, phase.ttl)),
      log := Without(s.log, c), rollbacks := s.rollbacks + 1)
  }

  /** One step of the system; an action that is not enabled changes nothing. */
  function Next(config: BidConfig, s: State, action: Action): State {
    var keys := s.auction.keys;
    match action
    case Tick(to) => if s.now <= to then s.(now := to) else s
    case CreateAuction(owner, request, queueUp) => s.(auction := Create(s.auction, s.now, owner, request, queueUp))
    case StartJob(setup) =>
      if s.auction.startJob.Some? && s.auction.startJob.value <= s.now
      then s.(auction := Start(s.auction, s.now, setup)) else s
    case EndJob(crash) =>
      if s.auction.endJob.Some? && s.auction.endJob.value <= s.now
      then s.(auction := End(s.auction, s.now, crash)) else s
    case CancelAuction(user) => s.(auction := Cancel(s.auction, user).0)
    case UpdateAuction(user, changes) => s.(auction := Update(s.auction, s.now, user, changes).0)
    case ReconcileRow => s.(auction := Reconcile(s.auction, s.now))
    case LoseRedis(jobsToo) =>
      s.(auction := s.auction.(keys := NO_KEYS,
                               startJob := if jobsToo then None else s.auction.startJob,
                               endJob := if jobsToo then None else s.auction.endJob))
    case Begin(c, user, amount) =>
      if c in s.calls then s
      else s.(calls := s.calls[c := Call(user, amount, if amount <= 0 then Finished(InvalidAmount) else Reading(None, None, None))])
    case ReadOwner(c) =>
      if IsReading(s, c) && s.calls[c].phase.owner.None?
      then SetPhase(s, c, s.calls[c].phase.(owner := Some(Get(keys.owner, s.now)))) else s
    case ReadActive(c) =>
      if IsReading(s, c) && s.calls[c].phase.active.None?
      then SetPhase(s, c, s.calls[c].phase.(active := Some(Live(keys.active, s.now)))) else s
    case ReadPrice(c) =>
      if IsReading(s, c) && s.calls[c].phase.price.None?
      then SetPhase(s, c, s.calls[c].phase.(price := Some(Get(keys.price, s.now)))) else s
    case Decide(c) => if IsReading(s, c) then DecideStep(s, c, config) else s
    case RunScript(c) => if IsReady(s, c) then ScriptStep(s, c) else s
    case Save(c, ok) => if IsSaving(s, c) then SaveStep(s, c, ok) else s
    case ReadTtl(c) => if IsRollingBack(s, c) then ReadTtlStep(s, c) else s
    case RollBack(c) => if IsRestoring(s, c) then RollBackStep(s, c) else s
  }

  function Run(config: BidConfig, s: State, actions: seq<Action>): State
    decreases |actions|
  {
    if actions == [] then s else Run(config, Next(config, s, actions[0]), actions[1..])
  }

  // --- What the steps of a call come to ---

  /** Only call `c` moves, to this phase; the auction stays. */
  predicate OnlyMoves(s: State, t: State, c: nat, phase: Phase) {
    c in s.calls && t == s.(calls := s.calls[c := s.calls[c].(phase := phase)])
  }

  /** Each of the three reads keeps the answer Redis gives at that instant, the first time it is made. */
  lemma ReadsExactly(config: BidConfig, s: State, c: nat)
    requires IsReading(s, c)
    ensures var phase, seen := s.calls[c].phase, ViewOf(s.auction.keys, s.now);
            && OnlyMoves(s, Next(config, s, ReadOwner(c)), c, phase.(owner := if phase.owner.Some? then phase.owner else Some(seen.owner)))
            && OnlyMoves(s, Next(config, s, ReadActive(c)), c, phase.(active := if phase.active.Some? then phase.active else Some(seen.active)))
            && OnlyMoves(s, Next(config, s, ReadPrice(c)), c, phase.(price := if phase.price.Some? then phase.price else Some(seen.price)))
  {
    assert s.calls[c := s.calls[c]] == s.calls;
    assert s.calls[c].(phase := s.calls[c].phase) == s.calls[c];
  }

  /** A call decides once all three answers are there, and by them alone, whatever Redis shows by then. */
  lemma DecidesExactly(config: BidConfig, s: State, c: nat)
    requires IsReading(s, c)
    ensures var t, call, answers := Next(config, s, Decide(c)), s.calls[c], s.calls[c].phase;
            if answers.owner.Some? && answers.active.Some? && answers.price.Some?
            then OnlyMoves(s, t, c, Decision(call.user, call.amount, answers.owner.value, answers.active.value, answers.price.value, config))
            else t == s
  {
  }

  /** A save enters the bid and is the end of the call, or leaves it to be rolled back; the log and Redis stay. */
  lemma SavesExactly(config: BidConfig, s: State, c: nat)
    requires IsSaving(s, c)
    ensures var call, saved := s.calls[c], Next(config, s, Save(c, true));
            && saved.calls == s.calls[c := call.(phase := Finished(Success))] && saved.log == s.log
            && saved.auction == s.auction.(bids := s.auction.bids + [SavedBid(call.user, call.amount)])
            && OnlyMoves(s, Next(config, s, Save(c, false)), c, RollingBack(call.phase.previous))
  {
  }

  /** A rollback goes on exactly if the price key is there, with the time it has left. */
  lemma ReadTtlExactly(config: BidConfig, s: State, c: nat)
    requires IsRollingBack(s, c)
    ensures var t, price := Next(config, s, ReadTtl(c)), s.auction.keys.price;
            if PriceLive(s) then OnlyMoves(s, t, c, Restoring(s.calls[c].phase.previous, Ttl(price, s.now)))
            else OnlyMoves(s, t, c, Finished(ServerError))
  {
    TtlExactly(s.auction.keys.price, s.now);
  }

  /**
   The script accepts a call exactly when the auction takes bids, somebody else leads or nobody, and
   the amount is at least the price plus the increment the call has brought along, whatever else is in flight.
   */
  lemma ScriptAcceptsExactly(config: BidConfig, s: State, c: nat)
    requires IsReady(s, c)
    ensures var t, call, seen := Next(config, s, RunScript(c)), s.calls[c], ViewOf(s.auction.keys, s.now);
            && (IsSaving(t, c) <==>
                  && seen.active && seen.bidder != Some(call.user)
                  && call.amount as real >= (if seen.price.Some? then seen.price.value else 0) as real + call.phase.increment)
            && (IsSaving(t, c) ==>
                  && t.calls[c] == call.(phase := Saving(Snapshot(seen.price, seen.bidder)))
                  && t.log == s.log + [Entry(c, call.user, call.amount)]
                  && ViewOf(t.auction.keys, t.now) == seen.(price := Some(call.amount), bidder := Some(call.user)))
            && (!IsSaving(t, c) ==> t.auction == s.auction && t.log == s.log)
  {
    var call := s.calls[c];
    BidDecidedExactly(s.auction.keys, s.now, call.amount, call.user, call.phase.increment);
    BidShowsExactly(s.auction.keys, s.now, call.amount, call.user, call.phase.increment);
  }

  /** The write of a rollback shows the snapshot taken before the bid, whatever has happened since. */
  lemma RollBackShowsSnapshot(config: BidConfig, s: State, c: nat)
    requires IsRestoring(s, c)
    ensures var t, previous := Next(config, s, RollBack(c)), s.calls[c].phase.previous;
            && ViewOf(t.auction.keys, t.now) == ViewOf(s.auction.keys, s.now).(price := previous.price, bidder := previous.bidder)
            && t.auction == s.auction.(keys := t.auction.keys)
  {
    WriteBackShowsExactly(s.auction.keys, s.now, s.calls[c].phase.previous, s.calls[c].phase.ttl);
  }
}
