/**
 Redis and the bid table agree, whatever the interleaving of the calls in flight: as long as every
 rollback undoes the latest accepted bid, Redis holds exactly that bid, and once nothing is in
 flight the top saved row is the same bid.
 */
module Agreement {
  import opened Wrappers
  import opened RedisKeys
  import opened Increment
  import opened Auctions
  import opened Protocol
  import opened Expiry

  // --- The accepted bids as a stack ---

  function TopPrice(log: seq<Entry>, start: int): int {
    if log == [] then start else log[|log| - 1].amount
  }

  function TopUser(log: seq<Entry>): Option<int> {
    if log == [] then None else Some(log[|log| - 1].user)
  }

  /** What Redis should answer when `log` is what has been accepted. */
  function Standing(log: seq<Entry>, start: int): Snapshot {
    Snapshot(Some(TopPrice(log, start)), TopUser(log))
  }

  /** Entry `i` outbids what stood before it, by somebody who was not leading and does not own the auction. */
  predicate Outbids(log: seq<Entry>, i: int, row: Row)
    requires 0 <= i < |log|
  {
    && TopPrice(log[..i], row.startingPrice) < log[i].amount
    && TopUser(log[..i]) != Some(log[i].user)
    && log[i].user != row.ownerId
  }

  ghost predicate Chain(log: seq<Entry>, row: Row) {
    forall i :: 0 <= i < |log| ==> Outbids(log, i, row)
  }

  lemma {:induction false} ChainIncreases(log: seq<Entry>, row: Row, i: int, j: int)
    requires Chain(log, row) && 0 <= i < j < |log|
    ensures log[i].amount < log[j].amount
    decreases j - i
  {
    assert Outbids(log, j, row);
    if i == j - 1 {
    } else {
      ChainIncreases(log, row, i, j - 1);
    }
  }

  ghost predicate DistinctCalls(log: seq<Entry>) {
    forall i, j :: 0 <= i < j < |log| ==> log[i].call != log[j].call
  }

  // --- The invariant ---

  /** While the price key lives, Redis shows the latest accepted bid not rolled back, or the initial state. */
  ghost predicate Agrees(s: State) {
    PriceLive(s) ==>
      && s.auction.row.Some?
      && Snapshot(Get(s.auction.keys.price, s.now), Get(s.auction.keys.bidder, s.now))
         == Standing(s.log, s.auction.row.value.startingPrice)
  }

  /** The call in flight stands in the log at `i`, and its snapshot is what stood before it. */
  predicate PlacedAt(s: State, c: nat, previous: Snapshot, i: int)
    requires c in s.calls && s.auction.row.Some?
  {
    && 0 <= i < |s.log|
    && s.log[i] == Entry(c, s.calls[c].user, s.calls[c].amount)
    && previous == Standing(s.log[..i], s.auction.row.value.startingPrice)
  }

  ghost predicate CallOk(s: State, c: nat)
    requires c in s.calls
  {
    var call := s.calls[c];
    match call.phase
    case Reading(owner, _, _) =>
      owner.Some? && owner.value.Some? ==> s.auction.row.Some? && owner.value.value == s.auction.row.value.ownerId
    case Ready(increment) => s.auction.row.Some? && call.user != s.auction.row.value.ownerId && increment > 0.0
    case Saving(previous) => s.auction.row.Some? && exists i :: PlacedAt(s, c, previous, i)
    case RollingBack(previous) => s.auction.row.Some? && exists i :: PlacedAt(s, c, previous, i)
    case Restoring(previous, _) => s.auction.row.Some? && exists i :: PlacedAt(s, c, previous, i)
    case Finished(_) => true
  }

  /**
   The auction takes no bids any more, and has ended or is an hour past its end, less one second for
   rounding and 499 milliseconds for each rollback: only then can a rollback find no price key.
   */
  predicate Past(s: State) {
    && !Live(s.auction.keys.active, s.now)
    && (Terminal(s)
        || (s.auction.row.Some? && s.auction.row.value.endTime + BUFFER_MS - 1000 - ROLLBACK_LOSS * s.rollbacks < s.now))
  }

  /** Every accepted bid is saved, being saved or rolled back, or failed too late for Redis to be rolled back. */
  ghost predicate EntryOk(s: State, i: int)
    requires 0 <= i < |s.log|
  {
    var e := s.log[i];
    && e.call in s.calls && s.calls[e.call].user == e.user && s.calls[e.call].amount == e.amount
    && (InFlight(s, e.call) || s.calls[e.call].phase == Finished(Success)
        || (s.calls[e.call].phase == Finished(ServerError) && Past(s)))
  }

  /** The auction has never had keys in Redis that could take a bid. */
  predicate Unopened(s: State) {
    var a := s.auction;
    a.row.None? || a.row.value.status == Pending || (a.row.value.status == Active && a.keys == NO_KEYS)
  }

  /** Such an auction has no bids, and its row the price it was created with. */
  predicate Unbid(s: State) {
    && s.log == [] && s.auction.bids == []
    && (s.auction.row.Some? ==> s.auction.row.value.currentPrice == Some(s.auction.row.value.startingPrice))
  }

  ghost predicate InAgreement(s: State) {
    var a := s.auction;
    && KeysOk(s)
    && (Unopened(s) ==> Unbid(s))
    && (a.row.Some? ==> Chain(s.log, a.row.value))
    && DistinctCalls(s.log)
    && Agrees(s)
    && (forall c :: c in s.calls ==> CallOk(s, c))
    && (forall i :: 0 <= i < |s.log| ==> EntryOk(s, i))
  }

  /** A rollback that reaches Redis although its bid is not the latest accepted one. */
  predicate Harmful(s: State, action: Action) {
    && EffectiveRollback(s, action)
    && !(s.log != [] && s.log[|s.log| - 1].call == action.call)
  }

  predicate Faithful(s: State, action: Action) {
    Regular(s, action) && !action.LoseRedis? && !Harmful(s, action)
  }

  predicate FaithfulRun(config: BidConfig, s: State, actions: seq<Action>)
    decreases |actions|
  {
    actions == [] || (Faithful(s, actions[0]) && FaithfulRun(config, Next(config, s, actions[0]), actions[1..]))
  }

  // --- Steps that leave the log alone ---

  lemma BackgroundShape(config: BidConfig, s: State, action: Action)
    requires Background(action)
    ensures var t := Next(config, s, action);
            && t.calls == s.calls && t.log == s.log && t.rollbacks == s.rollbacks
            && (s.auction.row.Some? ==>
                  && t.auction.row.Some? && t.auction.row.value.startingPrice == s.auction.row.value.startingPrice
                  && t.auction.row.value.ownerId == s.auction.row.value.ownerId)
  {
  }

  /** Live values only ever disappear, unless the auction starts or comes back with none. */
  ghost predicate Fades(s: State, t: State) {
    && (Unopened(t) ==> Unbid(t))
    && Agrees(t)
    && (s.log != [] && Past(s) ==> Past(t))
  }

  predicate Job(action: Action) {
    action.StartJob? || action.EndJob?
  }

  lemma JobFades(config: BidConfig, s: State, action: Action)
    requires InAgreement(s) && Faithful(s, action) && Job(action)
    ensures Fades(s, Next(config, s, action))
  {
  }

  lemma BootFades(config: BidConfig, s: State)
    requires InAgreement(s)
    ensures Fades(s, Next(config, s, ReconcileRow))
  {
  }

  lemma OwnerFades(config: BidConfig, s: State, action: Action)
    requires InAgreement(s) && Faithful(s, action) && Background(action) && !Job(action) && !action.ReconcileRow?
    ensures Fades(s, Next(config, s, action))
  {
  }

  // The calls and the log stay as they are, and the live values only ever disappear.
  lemma BackgroundStep(config: BidConfig, s: State, action: Action)
    requires InAgreement(s) && Faithful(s, action) && Background(action)
    ensures InAgreement(Next(config, s, action))
  {
    var t := Next(config, s, action);
    KeysOkStep(config, s, action);
    BackgroundShape(config, s, action);
    if Job(action) {
      JobFades(config, s, action);
    } else if action.ReconcileRow? {
      BootFades(config, s);
    } else {
      OwnerFades(config, s, action);
    }
    forall c | c in t.calls ensures CallOk(t, c) {
      assert CallOk(s, c);
      Moved(s, t, c);
    }
    forall i | 0 <= i < |t.log| ensures EntryOk(t, i) {
      assert EntryOk(s, i);
    }
    if t.auction.row.Some? {
      forall i | 0 <= i < |t.log| ensures Outbids(t.log, i, t.auction.row.value) {
        assert Outbids(s.log, i, s.auction.row.value);
      }
    }
  }

  /** A call keeps its place when neither it, the log nor the constants of the row change. */
  lemma Moved(s: State, t: State, c: nat)
    requires c in s.calls && CallOk(s, c)
    requires c in t.calls && t.calls[c] == s.calls[c] && t.log == s.log
    requires s.auction.row.Some? ==> t.auction.row.Some? && t.auction.row.value.startingPrice == s.auction.row.value.startingPrice
                                     && t.auction.row.value.ownerId == s.auction.row.value.ownerId
    ensures CallOk(t, c)
  {
    if InFlight(s, c) {
      var i :| PlacedAt(s, c, s.calls[c].phase.previous, i);
      assert PlacedAt(t, c, t.calls[c].phase.previous, i);
    }
  }

  /** Steps of a call before its script. */
  predicate Private(action: Action) {
    action.Begin? || action.ReadOwner? || action.ReadActive? || action.ReadPrice? || action.Decide?
  }

  /** Such a step changes the call it names and nothing else, and that one only before its script. */
  lemma PrivateShape(config: BidConfig, s: State, action: Action)
    requires Private(action)
    ensures var t := Next(config, s, action);
            && t == s.(calls := t.calls)
            && (forall c :: c in s.calls && (c != action.call || !s.calls[c].phase.Reading?) ==>
                  c in t.calls && t.calls[c] == s.calls[c])
            && (forall c :: c in t.calls && c != action.call ==> c in s.calls)
            && (action.call in s.calls ==>
                  && action.call in t.calls
                  && t.calls[action.call].user == s.calls[action.call].user
                  && t.calls[action.call].amount == s.calls[action.call].amount)
  {
  }

  lemma PrivateCallOk(config: BidConfig, s: State, action: Action)
    requires KeysOk(s) && Private(action) && (action.call in s.calls ==> CallOk(s, action.call))
    ensures var t := Next(config, s, action);
            action.call in t.calls && (action.call !in s.calls || s.calls[action.call].phase.Reading?) ==> CallOk(t, action.call)
  {
    var t := Next(config, s, action);
    var c := action.call;
    if action.Decide? && IsReading(s, c) && t.calls[c].phase.Ready? {
      var price := s.calls[c].phase.price.value.GetOr(0);
      IncrementMonotone(price, price, config);
    }
  }

  /** Changing one call, not yet past its script, keeps agreement when that call stays in order. */
  lemma OneCallChanged(s: State, t: State, c: nat)
    requires InAgreement(s) && KeysOk(t) && t == s.(calls := t.calls)
    requires forall d :: d in s.calls && (d != c || !s.calls[d].phase.Reading?) ==> d in t.calls && t.calls[d] == s.calls[d]
    requires forall d :: d in t.calls && d != c ==> d in s.calls
    requires c in s.calls ==> c in t.calls && t.calls[c].user == s.calls[c].user && t.calls[c].amount == s.calls[c].amount
    requires c in t.calls && (c !in s.calls || s.calls[c].phase.Reading?) ==> CallOk(t, c)
    ensures InAgreement(t)
  {
    forall d | d in t.calls ensures CallOk(t, d) {
      if d in s.calls && (d != c || !s.calls[d].phase.Reading?) {
        assert CallOk(s, d);
        Moved(s, t, d);
      }
    }
    forall i | 0 <= i < |t.log| ensures EntryOk(t, i) {
      assert EntryOk(s, i);
    }
  }

  lemma PrivateStep(config: BidConfig, s: State, action: Action)
    requires InAgreement(s) && Private(action)
    ensures InAgreement(Next(config, s, action))
  {
    PrivateShape(config, s, action);
    KeysOkStep(config, s, action);
    assert action.call in s.calls ==> CallOk(s, action.call);
    PrivateCallOk(config, s, action);
    OneCallChanged(s, Next(config, s, action), action.call);
  }

  lemma SaveKeepsAgreement(s: State, c: nat, ok: bool)
    requires InAgreement(s) && IsSaving(s, c)
    ensures InAgreement(SaveStep(s, c, ok))
  {
    var t := SaveStep(s, c, ok);
    forall d | d in t.calls ensures CallOk(t, d) {
      assert CallOk(s, d);
      if d != c {
        Moved(s, t, d);
      } else if !ok {
        var i :| PlacedAt(s, c, s.calls[c].phase.previous, i);
        assert PlacedAt(t, c, t.calls[c].phase.previous, i);
      }
    }
    forall i | 0 <= i < |t.log| ensures EntryOk(t, i) {
      assert EntryOk(s, i);
    }
  }

  // --- The script and the rollback ---

  lemma RejectionKeepsAgreement(s: State, c: nat)
    requires InAgreement(s) && IsReady(s, c) && ScriptStep(s, c).log == s.log
    ensures InAgreement(ScriptStep(s, c))
  {
    var t := ScriptStep(s, c);
    forall d | d in t.calls ensures CallOk(t, d) {
      assert CallOk(s, d);
      if d != c { Moved(s, t, d); }
    }
    forall i | 0 <= i < |t.log| ensures EntryOk(t, i) { assert EntryOk(s, i); }
  }

  /** An accepted bid goes on top of the log, outbids what stood there, and takes along a snapshot of it. */
  lemma AcceptanceStacks(config: BidConfig, s: State, c: nat)
    requires InAgreement(s) && IsReady(s, c) && ScriptStep(s, c).log != s.log
    ensures var t, n := ScriptStep(s, c), |s.log|;
            && t.log == s.log + [Entry(c, s.calls[c].user, s.calls[c].amount)]
            && s.auction.row.Some? && s.auction.row.value.status != Pending && t.auction.row == s.auction.row
            && KeysOk(t) && t.auction.keys != NO_KEYS && Agrees(t) && PriceLive(s) && PriceLive(t)
            && Outbids(t.log, n, s.auction.row.value)
            && IsSaving(t, c) && t == s.(calls := s.calls[c := t.calls[c]], auction := t.auction, log := t.log)
            && t.calls[c].user == s.calls[c].user && t.calls[c].amount == s.calls[c].amount
            && PlacedAt(t, c, t.calls[c].phase.previous, n)
  {
    var t, n := ScriptStep(s, c), |s.log|;
    KeysOkStep(config, s, RunScript(c));
    assert CallOk(s, c);
    ActiveImpliesPresent(s);
    assert t.log[..n] == s.log;
  }

  /** A call in flight keeps its place under a longer log. */
  lemma PlaceKept(s: State, t: State, d: nat)
    requires d in s.calls && CallOk(s, d) && d in t.calls && t.calls[d] == s.calls[d]
    requires t.auction.row == s.auction.row && s.log <= t.log
    ensures CallOk(t, d)
  {
    if InFlight(s, d) {
      var i :| PlacedAt(s, d, s.calls[d].phase.previous, i);
      assert t.log[..i] == s.log[..i];
      assert PlacedAt(t, d, t.calls[d].phase.previous, i);
    }
  }

  lemma AcceptanceKeepsAgreement(config: BidConfig, s: State, c: nat)
    requires InAgreement(s) && IsReady(s, c) && ScriptStep(s, c).log != s.log
    ensures InAgreement(ScriptStep(s, c))
  {
    var t, n := ScriptStep(s, c), |s.log|;
    AcceptanceStacks(config, s, c);
    var row := s.auction.row.value;
    forall i | 0 <= i < n ensures s.log[i].call != c { assert EntryOk(s, i); }
    forall i | 0 <= i < |t.log| ensures Outbids(t.log, i, row) {
      if i < n { assert Outbids(s.log, i, row) && t.log[..i] == s.log[..i]; }
    }
    forall d | d in t.calls ensures CallOk(t, d) {
      if d != c { PlaceKept(s, t, d); }
    }
    forall i | 0 <= i < |t.log| ensures EntryOk(t, i) {
      if i < n { assert EntryOk(s, i); }
    }
  }

  /** A rollback finds no price key only of an auction that is past. */
  lemma NoPriceMeansPast(s: State)
    requires KeysOk(s) && !PriceLive(s) && !Unopened(s)
    ensures Past(s)
  {
  }

  /** The first round trip of a rollback touches only its call, which it ends when there is no price key. */
  lemma ReadTtlKeepsAgreement(config: BidConfig, s: State, c: nat)
    requires InAgreement(s) && IsRollingBack(s, c) && Regular(s, ReadTtl(c))
    ensures InAgreement(ReadTtlStep(s, c))
  {
    var t := ReadTtlStep(s, c);
    KeysOkStep(config, s, ReadTtl(c));
    assert CallOk(s, c);
    var at :| PlacedAt(s, c, s.calls[c].phase.previous, at);
    if !PriceLive(s) { NoPriceMeansPast(s); }
    forall d | d in t.calls ensures CallOk(t, d) {
      assert CallOk(s, d);
      if d != c { Moved(s, t, d); } else if IsRestoring(t, c) { assert PlacedAt(t, c, t.calls[c].phase.previous, at); }
    }
    forall i | 0 <= i < |t.log| ensures EntryOk(t, i) { assert EntryOk(s, i); }
  }

  /** A rollback of the latest bid takes Redis back to what stood before it. */
  lemma RollBackRestores(s: State, c: nat)
    requires InAgreement(s) && IsRestoring(s, c) && Faithful(s, RollBack(c))
    ensures s.log != [] && s.log[|s.log| - 1].call == c
    ensures RollBackStep(s, c).log == s.log[..|s.log| - 1] && Agrees(RollBackStep(s, c))
  {
    assert CallOk(s, c);
    var at :| PlacedAt(s, c, s.calls[c].phase.previous, at);
    assert at == |s.log| - 1;
  }

  /** A call in flight other than that of the latest bid keeps its place when the latter goes. */
  lemma PlaceBelowKept(s: State, t: State, d: nat)
    requires d in s.calls && CallOk(s, d) && d in t.calls && t.calls[d] == s.calls[d]
    requires s.log != [] && s.log[|s.log| - 1].call != d
    requires t.auction.row == s.auction.row && t.log == s.log[..|s.log| - 1]
    ensures CallOk(t, d)
  {
    if InFlight(s, d) {
      var i :| PlacedAt(s, d, s.calls[d].phase.previous, i);
      assert t.log[..i] == s.log[..i];
      assert PlacedAt(t, d, t.calls[d].phase.previous, i);
    }
  }

  lemma RollBackKeepsAgreement(config: BidConfig, s: State, c: nat)
    requires InAgreement(s) && IsRestoring(s, c) && Faithful(s, RollBack(c))
    ensures InAgreement(RollBackStep(s, c))
  {
    var t := RollBackStep(s, c);
    var n := |s.log| - 1;
    KeysOkStep(config, s, RollBack(c));
    assert CallOk(s, c);
    RollBackRestores(s, c);
    forall i | 0 <= i < n ensures Outbids(t.log, i, t.auction.row.value) {
      assert Outbids(s.log, i, s.auction.row.value) && t.log[..i] == s.log[..i];
    }
    forall d | d in t.calls && d != c ensures CallOk(t, d) {
      PlaceBelowKept(s, t, d);
    }
    forall i | 0 <= i < |t.log| ensures EntryOk(t, i) { assert EntryOk(s, i); }
  }

  lemma AgreementStep(config: BidConfig, s: State, action: Action)
    requires InAgreement(s) && Faithful(s, action)
    ensures InAgreement(Next(config, s, action))
  {
    if Background(action) {
      BackgroundStep(config, s, action);
    } else if Private(action) {
      PrivateStep(config, s, action);
    } else if action.RunScript? && IsReady(s, action.call) {
      if ScriptStep(s, action.call).log == s.log {
        RejectionKeepsAgreement(s, action.call);
      } else {
        AcceptanceKeepsAgreement(config, s, action.call);
      }
    } else if action.Save? && IsSaving(s, action.call) {
      SaveKeepsAgreement(s, action.call, action.ok);
    } else if action.ReadTtl? && IsRollingBack(s, action.call) {
      ReadTtlKeepsAgreement(config, s, action.call);
    } else if EffectiveRollback(s, action) {
      RollBackKeepsAgreement(config, s, action.call);
    }
  }

  lemma {:induction false} AgreementAlways(config: BidConfig, s: State, actions: seq<Action>)
    requires InAgreement(s) && FaithfulRun(config, s, actions)
    ensures InAgreement(Run(config, s, actions))
    decreases |actions|
  {
    if actions == [] {
    } else {
      AgreementStep(config, s, actions[0]);
      AgreementAlways(config, Next(config, s, actions[0]), actions[1..]);
    }
  }
}
