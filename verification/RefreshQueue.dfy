/** The client's token refresh: one request refreshes, the others that meet a 401 meanwhile wait for its outcome. */
module RefreshQueue {
  import opened Wrappers

  /** What happens to the refresh as a whole. */
  datatype Signal = Started | Resolved(token: string) | Rejected

  /** What becomes of a request that met a 401. */
  datatype Outcome = Retried(token: string) | OriginalError | RefreshError

  /** `at` is how many signals had been given when the request was settled. */
  datatype Settlement = Settlement(request: nat, at: nat, outcome: Outcome)

  /**
   `waiters` are subscribed in order; a leader awaits its refresh, a retrying one its repeated request.
   `trace`, `queuedAt`, `settlements`, `seen` and `canceled` are history.
   */
  datatype State = State(
    accessToken: Option<string>,
    loggedIn: bool,
    isRefreshing: bool,
    waiters: seq<nat>,
    leaders: set<nat>,
    retrying: set<nat>,
    trace: seq<Signal>,
    queuedAt: map<nat, nat>,
    settlements: seq<Settlement>,
    seen: set<nat>,
    canceled: set<nat>)

  const INITIAL := State(None, false, false, [], {}, {}, [], map[], [], {}, {})

  datatype Event =
    | Unauthorized(request: nat)
    | RefreshSucceeds(request: nat, token: string)
    | RefreshFails(request: nat)
    | RetrySucceeds(request: nat)
    | RetryFails(request: nat)
    | GuardRefreshes(token: string)
    | GuardFails
    | Login(token: string)
    | Logout
    | Cancel(request: nat)

  // --- Steps ---

  /** A queued request is retried with a token that is not empty, and otherwise fails as it first did. */
  function QueuedOutcome(signal: Signal): Outcome {
    if signal.Resolved? && signal.token != "" then Retried(signal.token) else OriginalError
  }

  function SettleAll(waiters: seq<nat>, at: nat, outcome: Outcome): (settled: seq<Settlement>)
    ensures |settled| == |waiters|
  {
    seq(|waiters|, i requires 0 <= i < |waiters| => Settlement(waiters[i], at, outcome))
  }

  /** The end of a refresh, one way or the other, told to everybody waiting. */
  function Signalled(s: State, signal: Signal): State {
    s.(isRefreshing := false, waiters := [], trace := s.trace + [signal],
       settlements := s.settlements + SettleAll(s.waiters, |s.trace|, QueuedOutcome(signal)))
  }

  function LoggedOut(s: State): State {
    s.(accessToken := None, loggedIn := false)
  }

  function Settled(s: State, request: nat, at: nat, outcome: Outcome): State {
    s.(settlements := s.settlements + [Settlement(request, at, outcome)])
  }

  function Without(waiters: seq<nat>, request: nat): seq<nat> {
    if waiters == [] then []
    else (if waiters[0] == request then [] else [waiters[0]]) + Without(waiters[1..], request)
  }

  function Met401(s: State, request: nat): State {
    var met := s.(seen := s.seen + {request});
    if s.isRefreshing then met.(waiters := s.waiters + [request], queuedAt := s.queuedAt[request := |s.trace|])
    else if !s.loggedIn then Settled(met, request, |s.trace|, OriginalError)
    else met.(isRefreshing := true, leaders := s.leaders + {request}, trace := s.trace + [Started])
  }

  function Next(s: State, event: Event): State {
    match event
    case Unauthorized(r) => if r in s.seen then s else Met401(s, r)
    case RefreshSucceeds(r, token) =>
      if r !in s.leaders then s
      else Settled(Signalled(s, Resolved(token)), r, |s.trace|, Retried(token))
           .(accessToken := Some(token), leaders := s.leaders - {r}, retrying := s.retrying + {r})
    case RefreshFails(r) =>
      if r !in s.leaders then s
      else Settled(LoggedOut(Signalled(s, Rejected)), r, |s.trace|, RefreshError).(leaders := s.leaders - {r})
    case RetrySucceeds(r) => s.(retrying := s.retrying - {r})
    case RetryFails(r) =>
      // The handler around the refresh also catches an error of the leader's own retry.
      if r !in s.retrying then s else LoggedOut(Signalled(s, Rejected)).(retrying := s.retrying - {r})
    case GuardRefreshes(token) => s.(accessToken := Some(token))
    case GuardFails => LoggedOut(Signalled(s, Rejected))
    case Login(token) => s.(accessToken := Some(token), loggedIn := true)
    case Logout => LoggedOut(s)
    case Cancel(r) =>
      s.(waiters := Without(s.waiters, r), leaders := s.leaders - {r}, retrying := s.retrying - {r},
         canceled := if r in s.waiters || r in s.leaders then s.canceled + {r} else s.canceled)
  }

  function Run(s: State, events: seq<Event>): State
    decreases |events|
  {
    if events == [] then s else Run(Next(s, events[0]), events[1..])
  }

  // --- One refresh at a time ---

  /** Requests wait only during a refresh, and a refresh that started ends before another one starts. */
  predicate OneRefresh(s: State) {
    && (s.waiters != [] ==> s.isRefreshing)
    && (s.isRefreshing <==> s.trace != [] && s.trace[|s.trace| - 1] == Started)
    && (forall i :: 0 < i < |s.trace| && s.trace[i] == Started ==> s.trace[i - 1] != Started)
  }

  lemma OneRefreshNext(s: State, event: Event)
    requires OneRefresh(s)
    ensures OneRefresh(Next(s, event))
  {
  }

  lemma {:induction false} OneRefreshAlways(s: State, events: seq<Event>)
    requires OneRefresh(s)
    ensures OneRefresh(Run(s, events))
    decreases |events|
  {
    if events == [] {
    } else {
      OneRefreshNext(s, events[0]);
      OneRefreshAlways(Next(s, events[0]), events[1..]);
    }
  }

  // --- Every request settled once ---

  function SettledRequests(settlements: seq<Settlement>): set<nat> {
    set i | 0 <= i < |settlements| :: settlements[i].request
  }

  predicate DistinctWaiters(waiters: seq<nat>) {
    forall i, j :: 0 <= i < j < |waiters| ==> waiters[i] != waiters[j]
  }

  predicate SettledOnce(settlements: seq<Settlement>) {
    forall i, j :: 0 <= i < j < |settlements| ==> settlements[i].request != settlements[j].request
  }

  /** Every request seen is in exactly one of four places. */
  predicate Accounted(s: State) {
    var waiting := set r | r in s.waiters;
    var settled := SettledRequests(s.settlements);
    && DistinctWaiters(s.waiters) && SettledOnce(s.settlements)
    && s.seen == waiting + s.leaders + settled + s.canceled
    && waiting !! s.leaders && (waiting + s.leaders) !! settled && (waiting + s.leaders + settled) !! s.canceled
  }

  lemma SettledByAll(waiters: seq<nat>, at: nat, outcome: Outcome)
    ensures SettledRequests(SettleAll(waiters, at, outcome)) == set r | r in waiters
    ensures DistinctWaiters(waiters) ==> SettledOnce(SettleAll(waiters, at, outcome))
  {
    var settled := SettleAll(waiters, at, outcome);
    forall r | r in waiters
      ensures r in SettledRequests(settled)
    {
      var i :| 0 <= i < |waiters| && waiters[i] == r;
      assert settled[i].request == r;
    }
  }

  lemma SettledAppend(first: seq<Settlement>, second: seq<Settlement>)
    ensures SettledRequests(first + second) == SettledRequests(first) + SettledRequests(second)
    ensures SettledOnce(first) && SettledOnce(second) && SettledRequests(first) !! SettledRequests(second)
            ==> SettledOnce(first + second)
  {
    var both := first + second;
    forall r | r in SettledRequests(first) + SettledRequests(second)
      ensures r in SettledRequests(both)
    {
      if r in SettledRequests(first) {
        var i :| 0 <= i < |first| && first[i].request == r;
        assert both[i].request == r;
      } else {
        var i :| 0 <= i < |second| && second[i].request == r;
        assert both[|first| + i].request == r;
      }
    }
    if SettledOnce(first) && SettledOnce(second) && SettledRequests(first) !! SettledRequests(second) {
      forall i, j | 0 <= i < j < |both|
        ensures both[i].request != both[j].request
      {
        if i < |first| <= j {
          assert first[i].request in SettledRequests(first);
          assert second[j - |first|].request in SettledRequests(second);
        }
      }
    }
  }

  lemma AccountedSignalled(s: State, signal: Signal)
    requires Accounted(s)
    ensures Accounted(Signalled(s, signal))
  {
    var settled := SettleAll(s.waiters, |s.trace|, QueuedOutcome(signal));
    SettledByAll(s.waiters, |s.trace|, QueuedOutcome(signal));
    SettledAppend(s.settlements, settled);
  }

  /** A leader, or a request that is not seen yet, is settled on its own. */
  lemma AccountedSettled(s: State, request: nat, at: nat, outcome: Outcome)
    requires Accounted(s) && (request in s.leaders || request !in s.seen)
    ensures Accounted(Settled(s, request, at, outcome).(leaders := s.leaders - {request}, seen := s.seen + {request}))
  {
    var one := [Settlement(request, at, outcome)];
    SettledAppend(s.settlements, one);
    assert SettledRequests(one) == {request} by { assert one[0].request == request; }
  }

  lemma {:induction false} WithoutOne(waiters: seq<nat>, request: nat)
    ensures forall r :: r in Without(waiters, request) <==> r in waiters && r != request
    ensures DistinctWaiters(waiters) ==> DistinctWaiters(Without(waiters, request))
  {
    if waiters == [] {
    } else {
      var rest := Without(waiters[1..], request);
      WithoutOne(waiters[1..], request);
      forall i | 0 <= i < |rest| && DistinctWaiters(waiters)
        ensures rest[i] != waiters[0]
      {
        assert rest[i] in rest;
        var j :| 0 <= j < |waiters| - 1 && waiters[1..][j] == rest[i];
        assert waiters[j + 1] == rest[i];
      }
    }
  }

  lemma AccountedCancel(s: State, request: nat)
    requires Accounted(s)
    ensures Accounted(Next(s, Cancel(request)))
  {
    WithoutOne(s.waiters, request);
  }

  lemma AccountedMet(s: State, request: nat)
    requires Accounted(s) && request !in s.seen
    ensures Accounted(Met401(s, request))
  {
    if s.isRefreshing {
      var t := Met401(s, request);
      assert (set r | r in t.waiters) == (set r | r in s.waiters) + {request};
    } else if !s.loggedIn {
      AccountedSettled(s, request, |s.trace|, OriginalError);
      assert s.leaders - {request} == s.leaders;
    }
  }

  /** `Accounted` looks at no other parts of the state. */
  lemma AccountedSame(s: State, t: State)
    requires Accounted(s)
    requires t.waiters == s.waiters && t.leaders == s.leaders && t.settlements == s.settlements
    requires t.seen == s.seen && t.canceled == s.canceled
    ensures Accounted(t)
  {
  }

  lemma AccountedNext(s: State, event: Event)
    requires Accounted(s)
    ensures Accounted(Next(s, event))
  {
    var t := Next(s, event);
    match event
    case Unauthorized(r) =>
      if r !in s.seen { AccountedMet(s, r); }
    case RefreshSucceeds(r, token) =>
      if r in s.leaders {
        AccountedSignalled(s, Resolved(token));
        AccountedSettled(Signalled(s, Resolved(token)), r, |s.trace|, Retried(token));
        assert s.seen + {r} == s.seen;
      }
    case RefreshFails(r) =>
      if r in s.leaders {
        AccountedSignalled(s, Rejected);
        AccountedSettled(Signalled(s, Rejected), r, |s.trace|, RefreshError);
        assert s.seen + {r} == s.seen;
      }
    case RetryFails(r) =>
      if r in s.retrying {
        AccountedSignalled(s, Rejected);
        AccountedSame(Signalled(s, Rejected), t);
      }
    case GuardFails =>
      AccountedSignalled(s, Rejected);
      AccountedSame(Signalled(s, Rejected), t);
    case Cancel(r) => AccountedCancel(s, r);
    case _ => AccountedSame(s, t);
  }

  lemma {:induction false} AccountedAlways(s: State, events: seq<Event>)
    requires Accounted(s)
    ensures Accounted(Run(s, events))
    decreases |events|
  {
    if events == [] {
    } else {
      AccountedNext(s, events[0]);
      AccountedAlways(Next(s, events[0]), events[1..]);
    }
  }

  /** At any time, a request that met a 401 waits, refreshes, has been settled exactly once or was canceled. */
  lemma EachRequestOnce(events: seq<Event>)
    ensures Accounted(Run(INITIAL, events)) && OneRefresh(Run(INITIAL, events))
  {
    AccountedAlways(INITIAL, events);
    OneRefreshAlways(INITIAL, events);
  }

  // --- Settled by the next signal ---

  predicate SettledIn(s: State, request: nat, at: nat, outcome: Outcome) {
    Settlement(request, at, outcome) in s.settlements
  }

  /** A queued request is either still waiting, no signal having come, or settled as the next signal says. */
  predicate FollowsTheSignal(s: State, request: nat, at: nat) {
    || (|s.trace| == at && request in s.waiters && s.isRefreshing)
    || (|s.trace| > at && s.trace[at] != Started && SettledIn(s, request, at, QueuedOutcome(s.trace[at])))
  }

  lemma SettledWithAll(s: State, signal: Signal, request: nat)
    requires request in s.waiters
    ensures SettledIn(Signalled(s, signal), request, |s.trace|, QueuedOutcome(signal))
  {
    var i :| 0 <= i < |s.waiters| && s.waiters[i] == request;
    var t := Signalled(s, signal);
    assert t.settlements[|s.settlements| + i] == Settlement(request, |s.trace|, QueuedOutcome(signal));
  }

  lemma FollowsNext(s: State, event: Event, request: nat, at: nat)
    requires FollowsTheSignal(s, request, at) && event != Cancel(request)
    ensures FollowsTheSignal(Next(s, event), request, at)
  {
    var t := Next(s, event);
    if |s.trace| == at {
      match event
      case RefreshSucceeds(r, token) => if r in s.leaders { SettledWithAll(s, Resolved(token), request); }
      case RefreshFails(r) => if r in s.leaders { SettledWithAll(s, Rejected, request); }
      case RetryFails(r) => if r in s.retrying { SettledWithAll(s, Rejected, request); }
      case GuardFails => SettledWithAll(s, Rejected, request);
      case Cancel(r) => WithoutOne(s.waiters, r);
      case _ =>
    } else {
      assert s.settlements <= t.settlements && s.trace <= t.trace;
    }
  }

  lemma {:induction false} FollowsAlways(s: State, events: seq<Event>, request: nat, at: nat)
    requires FollowsTheSignal(s, request, at) && Cancel(request) !in events
    ensures FollowsTheSignal(Run(s, events), request, at)
    decreases |events|
  {
    if events == [] {
    } else {
      FollowsNext(s, events[0], request, at);
      FollowsAlways(Next(s, events[0]), events[1..], request, at);
    }
  }

  /**
   A request that meets a 401 during a refresh waits for the next signal and no longer: it is then
   retried with the new token, or fails with its own error when there is none.
   */
  lemma QueuedRequestFollowsTheNextSignal(s: State, request: nat, events: seq<Event>)
    requires s.isRefreshing && request !in s.seen && Cancel(request) !in events
    ensures FollowsTheSignal(Run(Next(s, Unauthorized(request)), events), request, |s.trace|)
  {
    FollowsAlways(Next(s, Unauthorized(request)), events, request, |s.trace|);
  }

  /** A request that meets a 401 waits during a refresh; otherwise it leads one, or fails when nobody is logged in. */
  lemma Met401Exactly(s: State, request: nat)
    requires request !in s.seen
    ensures var t := Next(s, Unauthorized(request));
            && t.waiters == (if s.isRefreshing then s.waiters + [request] else s.waiters)
            && t.leaders == (if !s.isRefreshing && s.loggedIn then s.leaders + {request} else s.leaders)
            && t.isRefreshing == (s.isRefreshing || s.loggedIn)
            && t.settlements == s.settlements +
               (if !s.isRefreshing && !s.loggedIn then [Settlement(request, |s.trace|, OriginalError)] else [])
            && t.accessToken == s.accessToken && t.loggedIn == s.loggedIn
  {
  }

  /** Who is logged in and with which token: the last login, refresh or logout decides, and a failing retry logs out. */
  lemma TokenFollows(s: State, event: Event)
    ensures var t := Next(s, event);
            match event
            case RefreshSucceeds(r, token) =>
              if r in s.leaders then t.accessToken == Some(token) && t.loggedIn == s.loggedIn else t == s
            case GuardRefreshes(token) => t.accessToken == Some(token) && t.loggedIn == s.loggedIn
            case Login(token) => t.accessToken == Some(token) && t.loggedIn
            case RefreshFails(r) => if r in s.leaders then t.accessToken.None? && !t.loggedIn else t == s
            case RetryFails(r) => if r in s.retrying then t.accessToken.None? && !t.loggedIn else t == s
            case GuardFails => t.accessToken.None? && !t.loggedIn
            case Logout => t.accessToken.None? && !t.loggedIn
            case _ => t.accessToken == s.accessToken && t.loggedIn == s.loggedIn
  {
  }

  // --- The request that leads ---

  /** The end of the refresh that `request` leads, or of the request itself. */
  predicate OwnEnd(event: Event, request: nat) {
    (event.RefreshSucceeds? || event.RefreshFails? || event.Cancel?) && event.request == request
  }

  lemma {:induction false} LeadsUntilItsEnd(s: State, events: seq<Event>, request: nat)
    requires request in s.leaders && forall i :: 0 <= i < |events| ==> !OwnEnd(events[i], request)
    ensures request in Run(s, events).leaders
    decreases |events|
  {
    if events == [] {
    } else {
      assert !OwnEnd(events[0], request);
      LeadsUntilItsEnd(Next(s, events[0]), events[1..], request);
    }
  }

  lemma {:induction false} SettledForGood(s: State, events: seq<Event>)
    ensures s.settlements <= Run(s, events).settlements
    decreases |events|
  {
    if events == [] {
    } else {
      assert s.settlements <= Next(s, events[0]).settlements;
      SettledForGood(Next(s, events[0]), events[1..]);
    }
  }

  /** What becomes of the leader when its refresh has ended with a token, or without one. */
  function LeaderOutcome(token: Option<string>): Outcome {
    if token.Some? then Retried(token.value) else RefreshError
  }

  function EndOfRefresh(request: nat, token: Option<string>): Event {
    if token.Some? then RefreshSucceeds(request, token.value) else RefreshFails(request)
  }

  lemma OneSettlement(s: State, request: nat, at: nat, outcome: Outcome, other: Settlement)
    requires SettledOnce(s.settlements) && SettledIn(s, request, at, outcome)
    requires other in s.settlements && other.request == request
    ensures other == Settlement(request, at, outcome)
  {
  }

  /**
   In every run, a request that leads a refresh leads until that ends, and is then settled for good and
   only once: repeated with the new token, which becomes the access token, or failed with the error of
   the refresh, which logs the user out. Whoever waits at that moment is repeated with the token, too,
   or fails with its own error.
   */
  lemma LeaderSettled(before: seq<Event>, request: nat, meanwhile: seq<Event>, token: Option<string>, after: seq<Event>)
    requires var s := Run(INITIAL, before); !s.isRefreshing && s.loggedIn && request !in s.seen
    requires forall i :: 0 <= i < |meanwhile| ==> !OwnEnd(meanwhile[i], request)
    ensures var t := Run(Next(Run(INITIAL, before), Unauthorized(request)), meanwhile);
            var u := Next(t, EndOfRefresh(request, token));
            var v := Run(u, after);
            && request in t.leaders && request !in u.leaders && (token.Some? ==> request in u.retrying)
            && SettledIn(v, request, |t.trace|, LeaderOutcome(token))
            && (forall other :: other in v.settlements && other.request == request ==>
                  other == Settlement(request, |t.trace|, LeaderOutcome(token)))
            && !u.isRefreshing && u.waiters == [] && u.accessToken == token
            && u.loggedIn == (token.Some? && t.loggedIn)
            && (forall w :: w in t.waiters ==>
                  SettledIn(u, w, |t.trace|, if token.GetOr("") != "" then Retried(token.value) else OriginalError))
  {
    var s := Run(INITIAL, before);
    var t := Run(Next(s, Unauthorized(request)), meanwhile);
    var u := Next(t, EndOfRefresh(request, token));
    var v := Run(u, after);
    Met401Exactly(s, request);
    LeadsUntilItsEnd(Next(s, Unauthorized(request)), meanwhile, request);
    LeaderTold(t, request, token);
    SettledForGood(u, after);
    AccountedAlways(INITIAL, before);
    AccountedNext(s, Unauthorized(request));
    AccountedAlways(Next(s, Unauthorized(request)), meanwhile);
    AccountedNext(t, EndOfRefresh(request, token));
    AccountedAlways(u, after);
    forall other | other in v.settlements && other.request == request
      ensures other == Settlement(request, |t.trace|, LeaderOutcome(token))
    {
      OneSettlement(v, request, |t.trace|, LeaderOutcome(token), other);
    }
  }

  /** The end of a refresh, told to its leader and to everybody waiting. */
  lemma LeaderTold(s: State, request: nat, token: Option<string>)
    requires request in s.leaders
    ensures var t := Next(s, EndOfRefresh(request, token));
            && request !in t.leaders && !t.isRefreshing && t.waiters == [] && (token.Some? ==> request in t.retrying)
            && t.accessToken == token && t.loggedIn == (token.Some? && s.loggedIn)
            && SettledIn(t, request, |s.trace|, LeaderOutcome(token))
            && forall w :: w in s.waiters ==>
                 SettledIn(t, w, |s.trace|, if token.GetOr("") != "" then Retried(token.value) else OriginalError)
  {
    var signal := if token.Some? then Resolved(token.value) else Rejected;
    var t := Next(s, EndOfRefresh(request, token));
    assert t.settlements[|t.settlements| - 1] == Settlement(request, |s.trace|, LeaderOutcome(token));
    forall w | w in s.waiters
      ensures SettledIn(t, w, |s.trace|, if token.GetOr("") != "" then Retried(token.value) else OriginalError)
    {
      SettledWithAll(s, signal, w);
      assert Signalled(s, signal).settlements <= t.settlements;
    }
  }

  /** A leader whose own retry fails, for whatever reason, also fails the requests waiting for a later refresh. */
  lemma FailedRetryFailsLaterWaiters(s: State, leader: nat, request: nat)
    requires leader in s.retrying && request in s.waiters
    ensures var t := Next(s, RetryFails(leader));
            && SettledIn(t, request, |s.trace|, OriginalError)
            && t.leaders == s.leaders && !t.isRefreshing && !t.loggedIn
  {
    SettledWithAll(s, Rejected, request);
  }

  /** A failing route guard ends a refresh for everybody waiting, but not for its leader, and logs the user out. */
  lemma GuardFailureEndsTheWait(s: State)
    ensures var t := Next(s, GuardFails);
            && !t.isRefreshing && t.waiters == [] && t.leaders == s.leaders && t.retrying == s.retrying && !t.loggedIn
            && forall w :: w in s.waiters ==> SettledIn(t, w, |s.trace|, OriginalError)
  {
    forall w | w in s.waiters ensures SettledIn(Next(s, GuardFails), w, |s.trace|, OriginalError) {
      SettledWithAll(s, Rejected, w);
    }
  }

  /** A request that is unsubscribed is nowhere any more and all others stay where they are; a leader whose retry has come back is done. */
  lemma GoneExactly(s: State, request: nat)
    ensures var t := Next(s, Cancel(request));
            && (forall w :: w in t.waiters <==> w in s.waiters && w != request)
            && t.leaders == s.leaders - {request} && t.retrying == s.retrying - {request}
            && t.settlements == s.settlements && t.isRefreshing == s.isRefreshing
    ensures var t := Next(s, RetrySucceeds(request)); t == s.(retrying := s.retrying - {request})
  {
    WithoutOne(s.waiters, request);
  }

  /** Neither the end of a refresh in flight, nor a failing guard, nor the request itself going away. */
  predicate Uneventful(event: Event, request: nat) {
    !event.RefreshSucceeds? && !event.RefreshFails? && !event.GuardFails? && event != Cancel(request)
  }

  predicate UneventfulRun(events: seq<Event>, request: nat) {
    forall i :: 0 <= i < |events| ==> Uneventful(events[i], request)
  }

  predicate StillWaiting(s: State, request: nat) {
    s.isRefreshing && request in s.waiters
  }

  lemma {:induction false} WaitsWithoutRetries(s: State, events: seq<Event>, request: nat)
    requires StillWaiting(s, request) && s.retrying == {} && UneventfulRun(events, request)
    ensures StillWaiting(Run(s, events), request)
    decreases |events|
  {
    if events == [] {
    } else {
      var event := events[0];
      assert Uneventful(event, request);
      if event.Cancel? { WithoutOne(s.waiters, event.request); }
      WaitsWithoutRetries(Next(s, event), events[1..], request);
    }
  }

  /**
   A waiting request is settled by nothing but the end of a refresh in flight, a failing guard or its
   own going away exactly when no earlier leader is still retrying.
   */
  lemma WaitersSafeExactly(s: State, request: nat)
    requires StillWaiting(s, request)
    ensures (forall events :: UneventfulRun(events, request) ==> StillWaiting(Run(s, events), request)) <==> s.retrying == {}
  {
    if s.retrying == {} {
      forall events | UneventfulRun(events, request)
        ensures StillWaiting(Run(s, events), request)
      {
        WaitsWithoutRetries(s, events, request);
      }
    } else {
      var leader :| leader in s.retrying;
      var events := [RetryFails(leader)];
      assert events[1..] == [];
      assert UneventfulRun(events, request) && !StillWaiting(Run(s, events), request);
    }
  }

  lemma RunFirst(s: State, event: Event, rest: seq<Event>)
    ensures Run(s, [event] + rest) == Run(Next(s, event), rest)
  {
    assert ([event] + rest)[1..] == rest;
  }

  /** A second refresh starts while the leader of the first is still retrying. */
  function Overlap(token: string): seq<Event> {
    [Login(token), Unauthorized(0), RefreshSucceeds(0, token), Unauthorized(1), Unauthorized(2)]
  }

  lemma OverlapRun(token: string)
    ensures Run(INITIAL, Overlap(token)) ==
            Next(Next(Next(Next(Next(INITIAL, Login(token)), Unauthorized(0)), RefreshSucceeds(0, token)), Unauthorized(1)),
                 Unauthorized(2))
  {
    var last: seq<Event> := [];
    var fourth := [Unauthorized(2)] + last;
    var third := [Unauthorized(1)] + fourth;
    var second := [RefreshSucceeds(0, token)] + third;
    var first := [Unauthorized(0)] + second;
    assert Overlap(token) == [Login(token)] + first;
    var a := Next(INITIAL, Login(token));
    var b := Next(a, Unauthorized(0));
    var c := Next(b, RefreshSucceeds(0, token));
    RunFirst(INITIAL, Login(token), first);
    RunFirst(a, Unauthorized(0), second);
    RunFirst(b, RefreshSucceeds(0, token), third);
    RunFirst(c, Unauthorized(1), fourth);
    RunFirst(Next(c, Unauthorized(1)), Unauthorized(2), last);
  }

  /** Such a leader and such a request are soon there. */
  lemma RetryMeetsLaterRefresh(token: string)
    ensures var s := Run(INITIAL, Overlap(token));
            && StillWaiting(s, 2) && s.retrying == {0} && s.leaders == {1}
            && SettledIn(Next(s, RetryFails(0)), 2, |s.trace|, OriginalError)
  {
    OverlapRun(token);
    SettledWithAll(Run(INITIAL, Overlap(token)), Rejected, 2);
  }

  // --- Whether the signal comes ---

  predicate SomebodyRefreshes(s: State) {
    s.isRefreshing ==> s.leaders != {}
  }

  /** The one request that would end the refresh goes away. */
  predicate CancelsOnlyLeader(s: State, event: Event) {
    event.Cancel? && s.isRefreshing && s.leaders == {event.request}
  }

  /** A step leaves a refresh with nobody to end it exactly when it cancels its only leader. */
  lemma LeaderlessExactly(s: State, event: Event)
    requires SomebodyRefreshes(s)
    ensures SomebodyRefreshes(Next(s, event)) <==> !CancelsOnlyLeader(s, event)
  {
    if event.Cancel? && s.isRefreshing && event.request !in s.leaders {
      assert s.leaders - {event.request} == s.leaders;
    }
    if event.Cancel? && event.request in s.leaders && s.leaders - {event.request} == {} {
      assert s.leaders == {event.request};
    }
  }

  predicate LeadersStay(s: State, events: seq<Event>)
    decreases |events|
  {
    events == [] || (!CancelsOnlyLeader(s, events[0]) && LeadersStay(Next(s, events[0]), events[1..]))
  }

  /** Unless the only leader of a refresh is canceled, a refresh in progress has a request in flight that will end it. */
  lemma {:induction false} SomebodyAlwaysRefreshes(s: State, events: seq<Event>)
    requires SomebodyRefreshes(s) && LeadersStay(s, events)
    ensures SomebodyRefreshes(Run(s, events))
    decreases |events|
  {
    if events == [] {
    } else {
      LeaderlessExactly(s, events[0]);
      SomebodyAlwaysRefreshes(Next(s, events[0]), events[1..]);
    }
  }

  /**
   A canceled leader leaves its refresh unfinished: from then on, with no other refresh or retry in
   flight, only a failing route guard ends the wait, and every further 401 joins it.
   */
  lemma CanceledLeaderLeavesAllWaiting(s: State, leader: nat, events: seq<Event>)
    requires s.isRefreshing && s.leaders == {leader} && s.retrying == {}
    ensures var t := Next(s, Cancel(leader));
            t.isRefreshing && t.leaders == {} && t.retrying == {} && (GuardFails !in events ==> Stuck(Run(t, events), |s.trace|))
  {
    var t := Next(s, Cancel(leader));
    assert t.leaders == {};
    if GuardFails !in events { StuckAlways(t, events, |s.trace|); }
  }

  predicate Stuck(s: State, signals: nat) {
    s.isRefreshing && s.leaders == {} && s.retrying == {} && |s.trace| == signals
  }

  lemma {:induction false} StuckAlways(s: State, events: seq<Event>, signals: nat)
    requires Stuck(s, signals) && GuardFails !in events
    ensures Stuck(Run(s, events), signals)
    decreases |events|
  {
    if events == [] {
    } else {
      StuckAlways(Next(s, events[0]), events[1..], signals);
    }
  }

  // --- The services ---

  class TokenService {
    var accessToken: Option<string>
    var isRefreshing: bool
    var waiters: seq<nat>
    var trace: seq<Signal>

    constructor ()
      ensures accessToken == None && !isRefreshing && waiters == [] && trace == []
    {
      accessToken, isRefreshing, waiters, trace := None, false, [], [];
    }

    method SetAccessToken(token: string)
      modifies this`accessToken
      ensures accessToken == Some(token)
    {
      accessToken := Some(token);
    }

    method ClearAccessToken()
      modifies this`accessToken
      ensures accessToken == None
    {
      accessToken := None;
    }

    method StartRefresh()
      modifies this`isRefreshing, this`trace
      ensures isRefreshing && trace == old(trace) + [Started]
    {
      isRefreshing := true;
      trace := trace + [Started];
    }

    /** Hands over the subscribers to be told of the token, in the order they came. */
    method ResolveRefresh(token: string) returns (told: seq<nat>)
      modifies this
      ensures !isRefreshing && accessToken == Some(token) && waiters == [] && told == old(waiters)
      ensures trace == old(trace) + [Resolved(token)]
    {
      isRefreshing := false;
      SetAccessToken(token);
      told, waiters := waiters, [];
      trace := trace + [Resolved(token)];
    }

    /** Hands over the subscribers to be told that there is no token. */
    method RejectRefresh() returns (told: seq<nat>)
      modifies this`isRefreshing, this`waiters, this`trace
      ensures !isRefreshing && waiters == [] && told == old(waiters)
      ensures trace == old(trace) + [Rejected]
    {
      isRefreshing := false;
      told, waiters := waiters, [];
      trace := trace + [Rejected];
    }

    /** The token at once when no refresh is in progress; otherwise the caller is subscribed. */
    method WaitForToken(request: nat) returns (token: Option<Option<string>>)
      modifies this`waiters
      ensures old(isRefreshing) ==> token == None && waiters == old(waiters) + [request]
      ensures !old(isRefreshing) ==> token == Some(accessToken) && waiters == old(waiters)
    {
      if !isRefreshing { return Some(accessToken); }
      waiters := waiters + [request];
      token := None;
    }
  }

  /** The interceptor, with the requests it is responsible for. */
  class RefreshInterceptor {
    const tokens: TokenService
    var loggedIn: bool
    var leaders: set<nat>
    var retrying: set<nat>
    var queuedAt: map<nat, nat>
    var settlements: seq<Settlement>
    var seen: set<nat>
    var canceled: set<nat>

    constructor (tokens: TokenService)
      ensures this.tokens == tokens && !loggedIn && leaders == {} && retrying == {}
      ensures queuedAt == map[] && settlements == [] && seen == {} && canceled == {}
    {
      this.tokens, loggedIn, leaders, retrying := tokens, false, {}, {};
      queuedAt, settlements, seen, canceled := map[], [], {}, {};
    }

    function View(): State
      reads this, tokens
    {
      State(tokens.accessToken, loggedIn, tokens.isRefreshing, tokens.waiters, leaders, retrying, tokens.trace,
            queuedAt, settlements, seen, canceled)
    }

    /** Every subscriber in turn retries with the token, or fails with its own error. */
    method Tell(told: seq<nat>, at: nat, token: string)
      modifies this`settlements
      ensures settlements == old(settlements)
                + SettleAll(told, at, if token == "" then OriginalError else Retried(token))
    {
      ghost var all := SettleAll(told, at, if token == "" then OriginalError else Retried(token));
      for i := 0 to |told|
        invariant settlements == old(settlements) + all[..i]
      {
        var outcome := if token == "" then OriginalError else Retried(token);
        settlements := settlements + [Settlement(told[i], at, outcome)];
        assert all[..i + 1] == all[..i] + [all[i]];
      }
      assert all[..|told|] == all;
    }

    /** A request comes back with status 401. */
    method OnUnauthorized(request: nat)
      requires request !in seen
      modifies this, tokens
      ensures View() == Next(old(View()), Unauthorized(request))
    {
      seen := seen + {request};
      if tokens.isRefreshing {
        queuedAt := queuedAt[request := |tokens.trace|];
        var _ := tokens.WaitForToken(request);
      } else if !loggedIn {
        settlements := settlements + [Settlement(request, |tokens.trace|, OriginalError)];
      } else {
        tokens.StartRefresh();
        leaders := leaders + {request};
      }
    }

    method OnRefreshSucceeded(request: nat, token: string)
      requires request in leaders
      modifies this, tokens
      ensures View() == Next(old(View()), RefreshSucceeds(request, token))
    {
      var at := |tokens.trace|;
      var told := tokens.ResolveRefresh(token);
      Tell(told, at, token);
      tokens.SetAccessToken(token);
      leaders, retrying := leaders - {request}, retrying + {request};
      settlements := settlements + [Settlement(request, at, Retried(token))];
    }

    /** The handler of errors: all subscribers fail, and the user is logged out. */
    method GiveUp()
      modifies this`settlements, this`loggedIn, tokens
      ensures View() == LoggedOut(Signalled(old(View()), Rejected))
    {
      var at := |tokens.trace|;
      var told := tokens.RejectRefresh();
      Tell(told, at, "");
      tokens.ClearAccessToken();
      loggedIn := false;
    }

    method OnRefreshFailed(request: nat)
      requires request in leaders
      modifies this, tokens
      ensures View() == Next(old(View()), RefreshFails(request))
    {
      var at := |tokens.trace|;
      GiveUp();
      leaders := leaders - {request};
      settlements := settlements + [Settlement(request, at, RefreshError)];
    }

    method OnRetryFailed(request: nat)
      requires request in retrying
      modifies this, tokens
      ensures View() == Next(old(View()), RetryFails(request))
    {
      GiveUp();
      retrying := retrying - {request};
    }
  }
}
