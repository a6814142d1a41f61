// What every run of the authorization flow keeps (app/network_flow.py:75-240), and what the result
// of an exchange says. Other users of the tracker may cancel, expire and answer between the steps.
module FlowRuns {
  import opened Results
  import opened Canonical
  import opened Iso8583
  import opened Iso8583Adapter
  import opened NetworkCoordinator
  import opened NetworkRouting
  import opened NetworkFlow
  import Transport = NetworkTransport
  import Lifecycle

  /** The flow's objects and the attempts `start` has handed out. */
  datatype Sys = Sys(net: Net, attempts: seq<Attempt>)

  const INITIAL := Sys(Net(UNUSED, NO_LINKS, []), [])

  datatype Move =
    | Start(canonical: AuthorizationRequest, request: Message, now: real, timeout: real)
    | DoExchange(i: nat, completedAt: real, outside: Outside)
    | Late(i: nat, response: Message, now: real, historyUp: bool)
    | Elsewhere(call: Lifecycle.Call)

  predicate Enabled(sys: Sys, move: Move) {
    match move
    case DoExchange(i, _, _) => i < |sys.attempts|
    case Late(i, _, _, _) => i < |sys.attempts|
    case Elsewhere(call) => !call.Register?
    case _ => true
  }

  function Apply(c: ValidConfig, sys: Sys, move: Move): (after: Sys)
    requires Enabled(sys, move)
  {
    match move
    case Start(canonical, request, now, timeout) =>
      var answer := StartAnswer(c, sys.net.tracker, canonical, request, now, timeout);
      Sys(sys.net.(tracker := Started(c, sys.net.tracker, canonical, request, now, timeout)),
          if answer.Ok? then sys.attempts + [answer.value] else sys.attempts)
    case DoExchange(i, completedAt, outside) =>
      sys.(net := Exchanged(c, sys.net, sys.attempts[i], completedAt, outside).1)
    case Late(i, response, now, historyUp) =>
      sys.(net := AnsweredLate(sys.net, sys.attempts[i], response, now, historyUp).1)
    case Elsewhere(call) => sys.(net := sys.net.(tracker := Lifecycle.Apply(sys.net.tracker, call, c.comparable)))
  }

  predicate Schedule(c: ValidConfig, sys: Sys, moves: seq<Move>)
    decreases |moves|
  {
    moves == [] || (Enabled(sys, moves[0]) && Schedule(c, Apply(c, sys, moves[0]), moves[1..]))
  }

  function After(c: ValidConfig, sys: Sys, moves: seq<Move>): Sys
    requires Schedule(c, sys, moves)
    decreases |moves|
  {
    if moves == [] then sys else After(c, Apply(c, sys, moves[0]), moves[1..])
  }

  // ----- the invariant -----------------------------------------------------------------

  /** No later attempt uses the same key. */
  predicate Latest(attempts: seq<Attempt>, i: nat) {
    i < |attempts| && forall j :: i < j < |attempts| ==> attempts[j].correlation != attempts[i].correlation
  }

  /** While a key is pending its deadline is the attempt's. */
  predicate Current(t: Tracker, a: Attempt) {
    a.correlation in t.pending ==> t.pending[a.correlation] == a.deadline
  }

  predicate LatestAreCurrent(sys: Sys) {
    forall i :: 0 <= i < |sys.attempts| && Latest(sys.attempts, i) ==> Current(sys.net.tracker, sys.attempts[i])
  }

  predicate AttemptKeyed(a: Attempt) {
    CorrelationKey(a.request) == Ok(a.correlation) && a.timeout > 0.0 && a.deadline == a.startedAt + a.timeout
  }

  predicate AttemptsKeyed(sys: Sys) {
    forall i :: 0 <= i < |sys.attempts| ==> AttemptKeyed(sys.attempts[i])
  }

  /** A transaction with a reversal is no longer pending, and never will be. */
  predicate ReversedAreOver(net: Net) {
    forall k :: k in net.links.byOriginal ==> k in net.tracker.timedOut || k in net.tracker.completed
  }

  /** The shapes of the rows the flow writes. */
  predicate RowShape(row: Observation) {
    && row.latency >= 0.0
    && (row.outcome.Timeout? <==> row.deliveryUnknown)
    && (row.outcome.Timeout? <==> row.reversalReason == Some(NetworkRouting.Timeout))
    && (row.reversalReason.Some? ==> row.outcome.Timeout?)
    && (row.outcome.Timeout? ==> row.disposition == Some(TimedOut))
    && (row.outcome.Failure? <==> row.disposition.None?)
  }

  predicate RowsShaped(net: Net) {
    forall i :: 0 <= i < |net.history| ==> RowShape(net.history[i])
  }

  ghost predicate NetInv(net: Net) {
    net.tracker.Disjoint() && net.links.Valid() && ReversedAreOver(net) && RowsShaped(net)
  }

  ghost predicate FlowInv(sys: Sys) {
    NetInv(sys.net) && AttemptsKeyed(sys) && LatestAreCurrent(sys)
  }

  /** How a tracker may change when nothing is registered: pending keys only leave, with their
      deadlines untouched, and a key that is over stays over. */
  predicate OnlyEnds(t: Tracker, after: Tracker) {
    && (forall k :: k in after.pending ==> k in t.pending && after.pending[k] == t.pending[k])
    && (forall k :: k in t.timedOut + t.completed ==> k in after.timedOut + after.completed)
    && (t.Disjoint() ==> after.Disjoint())
  }

  lemma CallOnlyEnds(t: Tracker, call: Lifecycle.Call, comparable: bool)
    requires !call.Register?
    ensures OnlyEnds(t, Lifecycle.Apply(t, call, comparable))
  {
    hide CorrelationKey, CorrelatesResponse, CanSort;
  }

  lemma OnlyEndsTwice(t: Tracker, mid: Tracker, after: Tracker)
    requires OnlyEnds(t, mid) && OnlyEnds(mid, after)
    ensures OnlyEnds(t, after)
  {
  }

  /** What a step of the flow keeps of its objects, apart from the history it may add to. */
  ghost predicate Keeps(net: Net, after: Net) {
    && OnlyEnds(net.tracker, after.tracker)
    && after.history == net.history
    && (net.links.Valid() ==> after.links.Valid())
    && (ReversedAreOver(net) ==> ReversedAreOver(after))
  }

  lemma TrackerStepKeeps(net: Net, after: Net)
    requires after == net.(tracker := after.tracker) && OnlyEnds(net.tracker, after.tracker)
    ensures Keeps(net, after)
  {
    forall k | k in net.links.byOriginal && ReversedAreOver(net)
      ensures k in after.tracker.timedOut + after.tracker.completed
    {
      assert k in net.tracker.timedOut + net.tracker.completed;
    }
  }

  lemma FailureKeeps(net: Net, a: Attempt, error: Option<Transport.ErrorText>)
    ensures Keeps(net, AfterFailure(net, a, error).1)
  {
    hide CancelAnswer, Cancelled, Keeps;
    CallOnlyEnds(net.tracker, Lifecycle.Cancel(a.request), false);
    TrackerStepKeeps(net, AfterFailure(net, a, error).1);
  }

  lemma TimeoutKeeps(
    c: ValidConfig, net: Net, a: Attempt, error: Option<Transport.ErrorText>, completedAt: real,
    reversalKey: Option<NetworkCorrelation>)
    ensures Keeps(net, AfterTimeout(c, net, a, error, completedAt, reversalKey).1)
  {
    hide DueKeys, CanSort;
    var after := AfterTimeout(c, net, a, error, completedAt, reversalKey).1;
    CallOnlyEnds(net.tracker, Lifecycle.Expire(completedAt), c.comparable);
    SameKeeps(net);
    var expired := net.(tracker := Expired(net.tracker, completedAt, c.comparable));
    TrackerStepKeeps(net, expired);
    if after.links != net.links && net.links.Valid() {
      LinkKeepsValid(net.links, a.correlation, reversalKey.value, NetworkRouting.Timeout);
    }
  }

  lemma SameKeeps(net: Net)
    ensures Keeps(net, net)
  {
  }

  lemma ResponseKeeps(c: ValidConfig, net: Net, a: Attempt, response: Message, completedAt: real)
    ensures Keeps(net, AfterResponse(c, net, a, response, completedAt).1)
  {
    hide ResponseAnswer, Responded, Expired, DueKeys, CanSort, Keeps;
    var t := Overdue(c, net.tracker, a, completedAt);
    SameKeeps(net);
    CallOnlyEnds(net.tracker, Lifecycle.Expire(completedAt), c.comparable);
    assert OnlyEnds(net.tracker, t);
    CallOnlyEnds(t, Lifecycle.Respond(a.request, response, completedAt), c.comparable);
    OnlyEndsTwice(net.tracker, t, Responded(t, a.request, response, completedAt));
    TrackerStepKeeps(net, AfterResponse(c, net, a, response, completedAt).1);
  }

  lemma SettledKeeps(c: ValidConfig, net: Net, a: Attempt, completedAt: real, outside: Outside)
    ensures Keeps(net, Settled(c, net, a, completedAt, outside).1)
  {
    hide Transport.Exchange, AfterFailure, AfterTimeout, AfterResponse, Keeps;
    var result := Transport.Exchange(c.specs, a.request, a.timeout, outside.answer);
    SameKeeps(net);
    if result.Ok? {
      FailureKeeps(net, a, result.value.error);
      TimeoutKeeps(c, net, a, result.value.error, completedAt, outside.reversalKey);
      if result.value.outcome.Response? {
        ResponseKeeps(c, net, a, result.value.response.value, completedAt);
      }
    }
  }

  /** What a returned result looks like, whatever the attempt. */
  lemma ResultShape(c: ValidConfig, net: Net, a: Attempt, completedAt: real, outside: Outside)
    requires Settled(c, net, a, completedAt, outside).0.Ok?
    ensures var r := Settled(c, net, a, completedAt, outside).0.value;
      && (r.outcome.Timeout? <==> r.deliveryUnknown)
      && (r.outcome.Timeout? <==> r.reversal.Some?)
      && (r.outcome.Timeout? ==> r.disposition == Some(TimedOut))
      && (r.outcome.Failure? <==> r.disposition.None?)
      && (r.reversal.Some? ==> r.reversal.value.reason == NetworkRouting.Timeout)
      && (r.reversal.Some? ==> r.reversal.value.original == a.correlation)
  {
    hide Transport.Exchange, CancelAnswer, Cancelled, DueKeys, CanSort, Expired, ResponseAnswer, Responded, Overdue;
  }

  /** A step that keeps the objects and writes at most one well shaped row keeps the invariant. */
  lemma StepKeepsNet(net: Net, mid: Net, after: Net, rows: seq<Observation>)
    requires NetInv(net) && Keeps(net, mid) && after == mid.(history := mid.history + rows)
    requires |rows| <= 1 && (rows != [] ==> RowShape(rows[0]))
    ensures NetInv(after)
  {
    hide RowShape, Tracker.Disjoint, Links.Valid;
  }

  lemma ExchangeKeepsNet(c: ValidConfig, net: Net, a: Attempt, completedAt: real, outside: Outside)
    requires NetInv(net)
    ensures NetInv(Exchanged(c, net, a, completedAt, outside).1)
    ensures OnlyEnds(net.tracker, Exchanged(c, net, a, completedAt, outside).1.tracker)
  {
    hide Settled, NetInv, OnlyEnds;
    var (result, mid) := Settled(c, net, a, completedAt, outside);
    SettledKeeps(c, net, a, completedAt, outside);
    if result.Ok? {
      ResultShape(c, net, a, completedAt, outside);
      StepKeepsNet(net, mid, mid.(history := mid.history + [ObservationOf(a, result.value, completedAt)]),
                   [ObservationOf(a, result.value, completedAt)]);
    }
    assert mid.history + [] == mid.history;
    StepKeepsNet(net, mid, mid, []);
  }

  lemma LateKeepsNet(net: Net, a: Attempt, response: Message, now: real, historyUp: bool)
    requires NetInv(net)
    ensures NetInv(AnsweredLate(net, a, response, now, historyUp).1)
    ensures OnlyEnds(net.tracker, AnsweredLate(net, a, response, now, historyUp).1.tracker)
  {
    hide ResponseAnswer, Responded, NetInv, OnlyEnds;
    var mid := net.(tracker := Responded(net.tracker, a.request, response, now));
    CallOnlyEnds(net.tracker, Lifecycle.Respond(a.request, response, now), false);
    TrackerStepKeeps(net, mid);
    var answer := ResponseAnswer(net.tracker, a.request, response, now);
    if answer.Ok? {
      StepKeepsNet(net, mid, mid.(history := mid.history + [LateObservation(a, answer.value, now)]),
                   [LateObservation(a, answer.value, now)]);
    }
    assert mid.history + [] == mid.history;
    StepKeepsNet(net, mid, mid, []);
  }

  lemma StartKeeps(
    c: ValidConfig, sys: Sys, canonical: AuthorizationRequest, request: Message, now: real, timeout: real)
    requires FlowInv(sys)
    ensures FlowInv(Apply(c, sys, Start(canonical, request, now, timeout)))
  {
    hide CorrelationKey, Route, RowShape, Links.Valid;
    var after := Apply(c, sys, Start(canonical, request, now, timeout));
    if StartAnswer(c, sys.net.tracker, canonical, request, now, timeout).Ok? {
      var key := CorrelationKey(request).value;
      assert after.net.tracker.pending == sys.net.tracker.pending[key := now + timeout];
      forall i | 0 <= i < |after.attempts| && Latest(after.attempts, i)
        ensures Current(after.net.tracker, after.attempts[i])
      {
        if i < |sys.attempts| {
          LatestBefore(sys.attempts, after.attempts[|sys.attempts|], i);
        }
      }
    }
  }

  lemma LatestBefore(attempts: seq<Attempt>, a: Attempt, i: nat)
    requires i < |attempts| && Latest(attempts + [a], i)
    ensures Latest(attempts, i) && a.correlation != attempts[i].correlation
  {
    var longer := attempts + [a];
    assert longer[|attempts|] == a;
    assert forall j :: 0 <= j < |attempts| ==> longer[j] == attempts[j];
  }

  lemma MoveKeeps(c: ValidConfig, sys: Sys, move: Move)
    requires FlowInv(sys) && Enabled(sys, move)
    ensures FlowInv(Apply(c, sys, move))
  {
    hide NetInv, AttemptsKeyed, LatestAreCurrent, Exchanged, AnsweredLate, StartAnswer, Started, Lifecycle.Apply;
    var after := Apply(c, sys, move);
    match move
    case Start(canonical, request, now, timeout) => StartKeeps(c, sys, canonical, request, now, timeout);
    case DoExchange(i, completedAt, outside) =>
      ExchangeKeepsNet(c, sys.net, sys.attempts[i], completedAt, outside);
      EndsKeepAttempts(sys, after);
    case Late(i, response, now, historyUp) =>
      LateKeepsNet(sys.net, sys.attempts[i], response, now, historyUp);
      EndsKeepAttempts(sys, after);
    case Elsewhere(call) =>
      CallOnlyEnds(sys.net.tracker, call, c.comparable);
      EndsKeepAttempts(sys, after);
      TrackerStepKeeps(sys.net, after.net);
      assert after.net == after.net.(history := after.net.history + []);
      StepKeepsNet(sys.net, after.net, after.net, []);
  }

  lemma EndsKeepAttempts(sys: Sys, after: Sys)
    requires AttemptsKeyed(sys) && LatestAreCurrent(sys)
    requires OnlyEnds(sys.net.tracker, after.net.tracker) && after.attempts == sys.attempts
    ensures AttemptsKeyed(after) && LatestAreCurrent(after)
  {
    hide AttemptKeyed;
  }

  lemma {:induction false} RunKeeps(c: ValidConfig, sys: Sys, moves: seq<Move>)
    requires FlowInv(sys) && Schedule(c, sys, moves)
    ensures FlowInv(After(c, sys, moves))
    decreases |moves|
  {
    hide FlowInv, Enabled, Apply;
    if moves != [] {
      MoveKeeps(c, sys, moves[0]);
      RunKeeps(c, Apply(c, sys, moves[0]), moves[1..]);
    }
  }

  /** Every state a run reaches satisfies the invariant. */
  lemma ReachableFlow(c: ValidConfig, moves: seq<Move>)
    requires Schedule(c, INITIAL, moves)
    ensures FlowInv(After(c, INITIAL, moves))
  {
    RunKeeps(c, INITIAL, moves);
  }

  // ----- what the results say ----------------------------------------------------------

  /** An exchange answers TIMED_OUT to a response exactly when the key is pending with a deadline that
      has passed although the attempt's own has not: the key was registered again, by a later attempt. */
  predicate StaleAnswer(c: ValidConfig, net: Net, a: Attempt, completedAt: real, outside: Outside) {
    && outside.answer.Returned?
    && outside.answer.exchange.outcome.Response?
    && var decoded := Decode(c.specs, outside.answer.exchange.responsePayload.value);
    && decoded.Ok?
    && CorrelatesResponse(a.request, decoded.value)
    && a.correlation in net.tracker.pending
    && net.tracker.pending[a.correlation] <= completedAt < a.deadline
  }

  /** When a returned result can disagree about its timeout: exactly on a stale answer. */
  lemma OutcomesAgreeExactly(c: ValidConfig, net: Net, a: Attempt, completedAt: real, outside: Outside)
    requires net.tracker.Disjoint() && AttemptKeyed(a)
    requires Exchanged(c, net, a, completedAt, outside).0.Ok?
    ensures var r := Exchanged(c, net, a, completedAt, outside).0.value;
      && (r.outcome.Timeout? <==> r.deliveryUnknown)
      && (r.outcome.Timeout? <==> r.reversal.Some?)
      && ((r.outcome.Timeout? <==> r.disposition == Some(TimedOut)) <==> !StaleAnswer(c, net, a, completedAt, outside))
  {
    hide Settled, CorrelationKey, Decode, Encode, CorrelatesResponse;
    ResultShape(c, net, a, completedAt, outside);
    SettledResponse(c, net, a, completedAt, outside);
  }

  lemma SettledResponse(c: ValidConfig, net: Net, a: Attempt, completedAt: real, outside: Outside)
    requires net.tracker.Disjoint() && AttemptKeyed(a)
    requires Settled(c, net, a, completedAt, outside).0.Ok?
    ensures var r := Settled(c, net, a, completedAt, outside).0.value;
      (r.outcome.Response? && r.disposition == Some(TimedOut)) <==> StaleAnswer(c, net, a, completedAt, outside)
  {
    hide CorrelationKey, Decode, Encode, AfterFailure, AfterTimeout, AfterResponse, CorrelatesResponse;
    hide Transport.Exchange;
    Transport.ResultsExactly(c.specs, a.request, a.timeout, outside.answer);
    var result := Transport.Exchange(c.specs, a.request, a.timeout, outside.answer);
    OutcomeIsTransports(c, net, a, completedAt, outside);
    if result.value.outcome.Response? {
      ResponseTimesOut(c, net, a, result.value.response.value, completedAt);
    }
  }

  lemma OutcomeIsTransports(c: ValidConfig, net: Net, a: Attempt, completedAt: real, outside: Outside)
    requires Settled(c, net, a, completedAt, outside).0.Ok?
    ensures var result := Transport.Exchange(c.specs, a.request, a.timeout, outside.answer);
      result.Ok? && Settled(c, net, a, completedAt, outside).0.value.outcome == result.value.outcome
  {
    hide Transport.Exchange, CancelAnswer, Cancelled, DueKeys, CanSort, Expired, ResponseAnswer, Responded, Overdue;
  }

  lemma ResponseTimesOut(c: ValidConfig, net: Net, a: Attempt, response: Message, completedAt: real)
    requires net.tracker.Disjoint() && AttemptKeyed(a) && AfterResponse(c, net, a, response, completedAt).0.Ok?
    ensures AfterResponse(c, net, a, response, completedAt).0.value.disposition == Some(TimedOut) <==>
      && CorrelatesResponse(a.request, response)
      && a.correlation in net.tracker.pending
      && net.tracker.pending[a.correlation] <= completedAt < a.deadline
  {
    hide CorrelationKey;
  }

  /** When `start` hands out an attempt, and what the attempt is. */
  lemma StartExactly(
    c: ValidConfig, t: Tracker, canonical: AuthorizationRequest, request: Message, now: real, timeout: real)
    ensures var answer := StartAnswer(c, t, canonical, request, now, timeout);
      var after := Started(c, t, canonical, request, now, timeout);
      && (answer.Ok? <==>
            && CorrelationKey(request) == Ok(canonical.correlation) && Route(c.routes, canonical).Ok?
            && timeout > 0.0 && !t.Uses(canonical.correlation))
      && (answer.Ok? ==>
            && AttemptKeyed(answer.value) && answer.value.correlation == canonical.correlation
            && Route(c.routes, canonical) == Ok(answer.value.route)
            && after == t.(pending := t.pending[canonical.correlation := answer.value.deadline]))
      && (answer.Err? ==> after == t)
  {
    hide CorrelationKey, Route;
  }

  /** For the latest attempt of its key, an exchange that returns says the same thing four times: the
      transport timed out, delivery is unknown, a reversal is linked, the disposition is TIMED_OUT. */
  lemma LatestOutcomesAgree(c: ValidConfig, moves: seq<Move>, i: nat, completedAt: real, outside: Outside)
    requires Schedule(c, INITIAL, moves) && Latest(After(c, INITIAL, moves).attempts, i)
    requires var sys := After(c, INITIAL, moves);
      Exchanged(c, sys.net, sys.attempts[i], completedAt, outside).0.Ok?
    ensures var sys := After(c, INITIAL, moves);
      var r := Exchanged(c, sys.net, sys.attempts[i], completedAt, outside).0.value;
      && (r.outcome.Timeout? <==> r.deliveryUnknown)
      && (r.outcome.Timeout? <==> r.reversal.Some?)
      && (r.outcome.Timeout? <==> r.disposition == Some(TimedOut))
  {
    ReachableFlow(c, moves);
    var sys := After(c, INITIAL, moves);
    hide After, Schedule, Exchanged, AttemptKeyed, Tracker.Disjoint, Links.Valid;
    assert Current(sys.net.tracker, sys.attempts[i]);
    OutcomesAgreeExactly(c, sys.net, sys.attempts[i], completedAt, outside);
  }

  /** A transaction never gets a second reversal: that error is not reachable. */
  lemma NeverAlreadyReversed(c: ValidConfig, moves: seq<Move>, i: nat, completedAt: real, outside: Outside)
    requires Schedule(c, INITIAL, moves) && i < |After(c, INITIAL, moves).attempts|
    ensures var sys := After(c, INITIAL, moves);
      Exchanged(c, sys.net, sys.attempts[i], completedAt, outside).0 != Err(NotLinked(AlreadyReversed))
  {
    hide After, Schedule;
    ReachableFlow(c, moves);
    SettledNotReversed(c, After(c, INITIAL, moves).net, After(c, INITIAL, moves).attempts[i], completedAt, outside);
  }

  lemma SettledNotReversed(c: ValidConfig, net: Net, a: Attempt, completedAt: real, outside: Outside)
    requires NetInv(net)
    ensures Exchanged(c, net, a, completedAt, outside).0 != Err(NotLinked(AlreadyReversed))
  {
    hide Transport.Exchange, CancelAnswer, Cancelled, ResponseAnswer, Responded, Overdue, Links.Valid, RowsShaped;
  }

  lemma FailureFreesKey(c: ValidConfig, net: Net, a: Attempt, completedAt: real, outside: Outside)
    requires NetInv(net) && AttemptKeyed(a)
    requires Exchanged(c, net, a, completedAt, outside).0.Ok?
    requires Exchanged(c, net, a, completedAt, outside).0.value.outcome.Failure?
    ensures !Exchanged(c, net, a, completedAt, outside).1.tracker.Uses(a.correlation)
    ensures a.correlation in net.tracker.pending
  {
    hide Transport.Exchange, CorrelationKey, AfterTimeout, AfterResponse, RowsShaped, Links.Valid;
    OutcomeIsTransports(c, net, a, completedAt, outside);
  }

  lemma {:induction false} RunExtends(c: ValidConfig, sys: Sys, moves: seq<Move>, move: Move)
    requires Schedule(c, sys, moves) && Enabled(After(c, sys, moves), move)
    ensures Schedule(c, sys, moves + [move])
    ensures After(c, sys, moves + [move]) == Apply(c, After(c, sys, moves), move)
    decreases |moves|
  {
    hide Enabled, Apply;
    var longer := moves + [move];
    if moves == [] {
      assert longer[1..] == [];
    } else {
      assert longer[0] == moves[0] && longer[1..] == moves[1..] + [move];
      RunExtends(c, Apply(c, sys, moves[0]), moves[1..], move);
    }
  }

  lemma Go(c: ValidConfig, moves: seq<Move>, sys: Sys, move: Move) returns (longer: seq<Move>, after: Sys)
    requires Schedule(c, INITIAL, moves) && After(c, INITIAL, moves) == sys && Enabled(sys, move)
    ensures longer == moves + [move] && after == Apply(c, sys, move)
    ensures Schedule(c, INITIAL, longer) && After(c, INITIAL, longer) == after
  {
    hide Enabled, Apply;
    RunExtends(c, INITIAL, moves, move);
    longer, after := moves + [move], Apply(c, sys, move);
  }

  /** A local failure leaves the key reusable: in every reachable state an exchange that reports one can
      be followed by a start of the same request, which hands out a new attempt of the same key. */
  lemma FailedAttemptRestarts(
    c: ValidConfig, moves: seq<Move>, i: nat, completedAt: real, outside: Outside,
    canonical: AuthorizationRequest, now: real, timeout: real)
    requires Schedule(c, INITIAL, moves) && i < |After(c, INITIAL, moves).attempts|
    requires var sys := After(c, INITIAL, moves);
      var r := Exchanged(c, sys.net, sys.attempts[i], completedAt, outside).0;
      r.Ok? && r.value.outcome.Failure?
    requires canonical.correlation == After(c, INITIAL, moves).attempts[i].correlation
    requires Route(c.routes, canonical).Ok? && timeout > 0.0
    ensures var sys := After(c, INITIAL, moves);
      var again := moves + [DoExchange(i, completedAt, outside)]
        + [Start(canonical, sys.attempts[i].request, now, timeout)];
      && Schedule(c, INITIAL, again)
      && var after := After(c, INITIAL, again); var n := |sys.attempts|;
      && |after.attempts| == n + 1 && Latest(after.attempts, n)
      && after.attempts[n].correlation == sys.attempts[i].correlation
      && after.attempts[n].correlation in after.net.tracker.pending
  {
    hide Schedule, After, Exchanged, NetInv, LatestAreCurrent, CorrelationKey, Route;
    ReachableFlow(c, moves);
    var sys := After(c, INITIAL, moves);
    var a := sys.attempts[i];
    assert AttemptKeyed(a);
    FailureFreesKey(c, sys.net, a, completedAt, outside);
    var failed, freed := Go(c, moves, sys, DoExchange(i, completedAt, outside));
    StartExactly(c, freed.net.tracker, canonical, a.request, now, timeout);
    var again, after := Go(c, failed, freed, Start(canonical, a.request, now, timeout));
  }

  lemma TimeoutReturnsExactly(
    c: ValidConfig, net: Net, a: Attempt, error: Option<Transport.ErrorText>, completedAt: real,
    reversalKey: Option<NetworkCorrelation>)
    requires NetInv(net)
    ensures AfterTimeout(c, net, a, error, completedAt, reversalKey).0.Ok? <==>
      && a.deadline <= completedAt
      && a.correlation in DueKeys(net.tracker, completedAt)
      && CanSort(DueKeys(net.tracker, completedAt), c.comparable)
      && reversalKey.Some? && reversalKey.value != a.correlation
      && reversalKey.value !in net.links.reversalKeys
  {
    hide RowsShaped, Links.Valid;
  }

  /** In every reachable state, a timeout is reported exactly when the request can be sent, the transport
      times out at or after the deadline of a request that is still pending, nothing blocks the expiry,
      a reversal key is drawn that is new and not the request's own, and the outcome can be recorded. */
  lemma TimeoutReportedExactly(c: ValidConfig, moves: seq<Move>, i: nat, completedAt: real, outside: Outside)
    requires Schedule(c, INITIAL, moves) && i < |After(c, INITIAL, moves).attempts|
    ensures var net := After(c, INITIAL, moves).net; var a := After(c, INITIAL, moves).attempts[i];
      var r := Exchanged(c, net, a, completedAt, outside).0;
      (r.Ok? && r.value.outcome.Timeout?) <==>
        && Encode(c.specs, a.request).Some?
        && outside.answer.Returned? && outside.answer.exchange.outcome.Timeout?
        && a.deadline <= completedAt
        && a.correlation in DueKeys(net.tracker, completedAt)
        && CanSort(DueKeys(net.tracker, completedAt), c.comparable)
        && outside.reversalKey.Some? && outside.reversalKey.value != a.correlation
        && outside.reversalKey.value !in net.links.reversalKeys
        && outside.historyUp
  {
    hide Schedule, After, NetInv, LatestAreCurrent, CorrelationKey, Encode, Decode, DueKeys, CanSort;
    hide AfterTimeout, AfterFailure, AfterResponse, Transport.Exchange;
    ReachableFlow(c, moves);
    var net, a := After(c, INITIAL, moves).net, After(c, INITIAL, moves).attempts[i];
    assert AttemptKeyed(a);
    Transport.ResultsExactly(c.specs, a.request, a.timeout, outside.answer);
    var result := Transport.Exchange(c.specs, a.request, a.timeout, outside.answer);
    if result.Ok? {
      TimeoutReturnsExactly(c, net, a, result.value.error, completedAt, outside.reversalKey);
      if Settled(c, net, a, completedAt, outside).0.Ok? {
        OutcomeIsTransports(c, net, a, completedAt, outside);
      }
    }
  }

  /** In every run each original has at most one reversal and each reversal one original. */
  lemma ReversalsPairUp(c: ValidConfig, moves: seq<Move>)
    requires Schedule(c, INITIAL, moves)
    ensures After(c, INITIAL, moves).net.links.Valid()
  {
    hide After, Schedule;
    ReachableFlow(c, moves);
  }

  // ----- what does not hold ------------------------------------------------------------

  /** A timeout also moves other attempts' due keys, without a reversal: here `other` loses its place
      although nothing was exchanged for it. */
  lemma OthersExpireUnreversed(
    c: ValidConfig, net: Net, a: Attempt, error: Option<Transport.ErrorText>, completedAt: real,
    reversalKey: Option<NetworkCorrelation>, other: NetworkCorrelation)
    requires NetInv(net) && other != a.correlation && other in DueKeys(net.tracker, completedAt)
    requires AfterTimeout(c, net, a, error, completedAt, reversalKey).0.Ok?
    ensures var after := AfterTimeout(c, net, a, error, completedAt, reversalKey).1;
      other in after.tracker.timedOut && other !in after.links.byOriginal && c.comparable
  {
    hide RowsShaped, Links.Valid;
    if !c.comparable {
      Lifecycle.TwoDueKeysBlockExpiry(net.tracker, a.correlation, other, completedAt, completedAt);
    }
  }

  /** A key that failed locally and was registered again with an earlier deadline: the exchange of the
      first attempt then answers TIMED_OUT to a response, with no unknown delivery and no reversal. */
  lemma StaleAnswerHappens(c: ValidConfig, canonical: AuthorizationRequest, request: Message, response: Message)
    returns (moves: seq<Move>, outside: Outside)
    requires CorrelationKey(request) == Ok(canonical.correlation) && Route(c.routes, canonical).Ok?
    requires Encode(c.specs, request).Some? && Encode(c.specs, response).Some?
    requires CorrelatesResponse(request, response)
    ensures Schedule(c, INITIAL, moves) && |After(c, INITIAL, moves).attempts| == 2
    ensures var sys := After(c, INITIAL, moves);
      && StaleAnswer(c, sys.net, sys.attempts[0], 50.0, outside)
      && var r := Exchanged(c, sys.net, sys.attempts[0], 50.0, outside).0;
      && r.Ok? && r.value.disposition == Some(TimedOut) && !r.value.deliveryUnknown && r.value.reversal.None?
  {
    hide Schedule, After, CorrelationKey, Route, Encode, Decode, CorrelatesResponse;
    var key := canonical.correlation;
    RunStarts(c);
    var failure := Transport.Returned(Transport.TransportExchange(Transport.Failure, None, None, false));
    var sys: Sys;
    moves, sys := Go(c, [], INITIAL, Start(canonical, request, 0.0, 100.0));
    moves, sys := Go(c, moves, sys, DoExchange(0, 0.0, Outside(failure, None, true)));
    moves, sys := Go(c, moves, sys, Start(canonical, request, 0.0, 1.0));
    assert sys.net.tracker.pending == map[key := 1.0] && sys.attempts[0].deadline == 100.0;
    DecodeOfEncode(c.specs, response);
    SameKey(request, response);
    outside := Outside(
      Transport.Returned(Transport.TransportExchange(Transport.Response, Encode(c.specs, response), None, false)),
      None, true);
  }

  lemma SameKey(request: Message, response: Message)
    requires CorrelatesResponse(request, response)
    ensures CorrelationKey(response) == CorrelationKey(request)
  {
    hide CorrelationKey;
  }

  lemma RunStarts(c: ValidConfig)
    ensures Schedule(c, INITIAL, []) && After(c, INITIAL, []) == INITIAL
  {
  }

  /** It happens to every request within the default profile that has a route. */
  lemma StaleAnswerForEveryRequest(c: ValidConfig, r: AuthorizationRequest)
    returns (moves: seq<Move>, outside: Outside)
    requires c.specs == DefaultSpecs() && r.Valid() && WithinProfile(r) && Route(c.routes, r).Ok?
    ensures Schedule(c, INITIAL, moves) && |After(c, INITIAL, moves).attempts| == 2
    ensures var sys := After(c, INITIAL, moves); StaleAnswer(c, sys.net, sys.attempts[0], 50.0, outside)
  {
    hide Schedule, After, Route, Encode, Decode, StaleAnswer, DefaultSpecs;
    ToOctetsExact(r);
    var request := ToMessage(r).value;
    var response := request.(mti := "0210");
    MappedMessage(r);
    ResponseEncodes(c.specs, request, "0210");
    moves, outside := StaleAnswerHappens(c, r, request, response);
  }

  lemma MappedMessage(r: AuthorizationRequest)
    requires r.Valid() && ToMessage(r).Ok?
    ensures ToMessage(r).value.mti == "0200"
    ensures forall mti :: CorrelationKey(ToMessage(r).value.(mti := mti)) == Ok(r.correlation)
    ensures CorrelationKey(ToMessage(r).value) == Ok(r.correlation)
  {
  }

  lemma ResponseEncodes(specs: FieldSpecs, request: Message, mti: string)
    requires Encode(specs, request).Some? && EncodeMti(mti).Ok?
    ensures Encode(specs, request.(mti := mti)).Some?
  {
    hide BitmapOctets, Body, FieldsEncodable;
  }

  // ----- what is recorded --------------------------------------------------------------

  /** An exchange that returns adds one row: its route, what it answered, why it was reversed if it was,
      and the milliseconds since the attempt began, or none when the clock went back. */
  lemma ExchangeRecords(c: ValidConfig, net: Net, a: Attempt, completedAt: real, outside: Outside)
    ensures var (r, after) := Exchanged(c, net, a, completedAt, outside);
      if r.Err? then after.history == net.history
      else (
        && |after.history| == |net.history| + 1 && net.history <= after.history
        && var row := after.history[|net.history|];
        && row.route == a.route && row.outcome == r.value.outcome && row.disposition == r.value.disposition
        && row.deliveryUnknown == r.value.deliveryUnknown
        && (row.reversalReason.Some? <==> r.value.reversal.Some?)
        && (r.value.reversal.Some? ==> row.reversalReason.value == r.value.reversal.value.reason)
        && (completedAt >= a.startedAt ==> row.latency / 1000.0 == completedAt - a.startedAt)
        && (completedAt < a.startedAt ==> row.latency == 0.0))
    ensures Exchanged(c, net, a, completedAt, outside).0.Ok? ==>
      Exchanged(c, net, a, completedAt, outside).0.value.route == a.route
  {
    hide Settled;
    SettledKeeps(c, net, a, completedAt, outside);
    RouteIsTheAttempts(c, net, a, completedAt, outside);
  }

  lemma RouteIsTheAttempts(c: ValidConfig, net: Net, a: Attempt, completedAt: real, outside: Outside)
    ensures Settled(c, net, a, completedAt, outside).0.Ok? ==>
      Settled(c, net, a, completedAt, outside).0.value.route == a.route
  {
    hide Transport.Exchange, CancelAnswer, Cancelled, DueKeys, CanSort, Expired, ResponseAnswer, Responded, Overdue;
  }

  /** A late response that is classified adds one row: a response of the attempt's route with that
      disposition, no unknown delivery and no reversal. */
  lemma LateRecords(net: Net, a: Attempt, response: Message, now: real, historyUp: bool)
    ensures var (r, after) := AnsweredLate(net, a, response, now, historyUp);
      if r.Err? then after.history == net.history
      else (
        && |after.history| == |net.history| + 1 && net.history <= after.history
        && var row := after.history[|net.history|];
        && row.route == a.route && row.outcome.Response? && row.disposition == Some(r.value)
        && !row.deliveryUnknown && row.reversalReason.None?
        && (now >= a.startedAt ==> row.latency / 1000.0 == now - a.startedAt)
        && (now < a.startedAt ==> row.latency == 0.0))
  {
    hide ResponseAnswer, Responded;
  }

  /** The error text of a failure or a timeout is the transport's own, or says what did not decode. */
  lemma ErrorTexts(c: ValidConfig, net: Net, a: Attempt, completedAt: real, outside: Outside)
    requires Settled(c, net, a, completedAt, outside).0.Ok?
    ensures var r := Settled(c, net, a, completedAt, outside).0.value; var exchange := outside.answer.exchange;
      r.error ==
        if exchange.outcome.Response? then (
          var decoded := Decode(c.specs, exchange.responsePayload.value);
          if decoded.Err? then Some(Transport.InvalidResponse(decoded.error)) else None)
        else if exchange.error.Some? then Some(Transport.FromTransport(exchange.error.value))
        else None
  {
    hide Encode, Decode, CancelAnswer, Cancelled, DueKeys, CanSort, Expired, ResponseAnswer, Responded, Overdue;
  }

  // ----- which timed-out keys have a reversal ------------------------------------------

  /** A key gets its reversal exactly by an exchange of an attempt of that key that settles as a timeout,
      whether or not the outcome can then be recorded; no other move of the flow or of other users links. */
  lemma LinkedExactly(c: ValidConfig, sys: Sys, move: Move, key: NetworkCorrelation)
    requires Enabled(sys, move) && key !in sys.net.links.byOriginal
    ensures key in Apply(c, sys, move).net.links.byOriginal <==>
      && move.DoExchange?
      && sys.attempts[move.i].correlation == key
      && var settled := Settled(c, sys.net, sys.attempts[move.i], move.completedAt, move.outside).0;
      && settled.Ok? && settled.value.outcome.Timeout?
  {
    hide Settled, StartAnswer, Started, Lifecycle.Apply;
    if move.DoExchange? {
      SettledLinks(c, sys.net, sys.attempts[move.i], move.completedAt, move.outside, key);
    }
  }

  lemma SettledLinks(
    c: ValidConfig, net: Net, a: Attempt, completedAt: real, outside: Outside, key: NetworkCorrelation)
    requires key !in net.links.byOriginal
    ensures var (result, after) := Settled(c, net, a, completedAt, outside);
      key in after.links.byOriginal <==>
        a.correlation == key && result.Ok? && result.value.outcome.Timeout?
  {
    hide Transport.Exchange, CancelAnswer, Cancelled, DueKeys, CanSort, Expired, ResponseAnswer, Responded, Overdue;
  }

  /** A key can time out with no reversal at all: a response that does not correlate comes at or after the
      deadline. Here the network echoes the request; comparable keys or not, it happens to every request
      within the default profile that has a route. */
  lemma TimedOutUnreversed(c: ValidConfig, r: AuthorizationRequest) returns (moves: seq<Move>)
    requires c.specs == DefaultSpecs() && r.Valid() && WithinProfile(r) && Route(c.routes, r).Ok?
    ensures Schedule(c, INITIAL, moves)
    ensures var net := After(c, INITIAL, moves).net;
      r.correlation in net.tracker.timedOut && net.links == NO_LINKS && |net.history| == 1
  {
    hide Schedule, After, CorrelationKey, Route, Encode, Decode, DefaultSpecs, ToMessage;
    RunStarts(c);
    ToOctetsExact(r);
    MappedMessage(r);
    var request := ToMessage(r).value;
    DecodeOfEncode(c.specs, request);
    var echo := Transport.TransportExchange(Transport.Response, Encode(c.specs, request), None, false);
    var sys: Sys;
    moves, sys := Go(c, [], INITIAL, Start(r, request, 0.0, 1.0));
    assert DueKeys(sys.net.tracker, 2.0) == {r.correlation};
    moves, sys := Go(c, moves, sys, DoExchange(0, 2.0, Outside(Transport.Returned(echo), None, true)));
  }

  /** Where keys can be compared, the timeout of one request ends another one that is due. */
  lemma OthersExpireHappens(
    c: ValidConfig, canonical: AuthorizationRequest, request: Message, other: AuthorizationRequest,
    otherRequest: Message, reversal: NetworkCorrelation)
    returns (moves: seq<Move>)
    requires c.comparable && Route(c.routes, canonical).Ok? && Route(c.routes, other).Ok?
    requires CorrelationKey(request) == Ok(canonical.correlation) && Encode(c.specs, request).Some?
    requires CorrelationKey(otherRequest) == Ok(other.correlation)
    requires canonical.correlation != other.correlation && canonical.correlation != reversal
    ensures Schedule(c, INITIAL, moves)
    ensures var net := After(c, INITIAL, moves).net;
      && net.tracker.timedOut == {canonical.correlation, other.correlation}
      && net.links.byOriginal.Keys == {canonical.correlation}
  {
    hide Schedule, After, CorrelationKey, Route, Encode, Decode;
    RunStarts(c);
    var key, otherKey := canonical.correlation, other.correlation;
    var timeout := Transport.TransportExchange(Transport.Timeout, None, None, true);
    var sys: Sys;
    moves, sys := Go(c, [], INITIAL, Start(canonical, request, 0.0, 1.0));
    moves, sys := Go(c, moves, sys, Start(other, otherRequest, 0.0, 1.0));
    assert DueKeys(sys.net.tracker, 1.0) == {key, otherKey};
    moves, sys := Go(c, moves, sys,
                     DoExchange(0, 1.0, Outside(Transport.Returned(timeout), Some(reversal), true)));
  }
}
