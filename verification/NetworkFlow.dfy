// One authorization across routing, transport, tracker and reversals (app/network_flow.py). A step
// that raises leaves the changes of the steps before it.
module NetworkFlow {
  import opened Results
  import opened Canonical
  import opened Iso8583
  import opened Iso8583Adapter
  import opened NetworkCoordinator
  import opened NetworkRouting
  import Transport = NetworkTransport

  type TransportOutcome = Transport.TransportOutcome

  datatype Config = Config(routes: seq<IssuerRoute>, specs: FieldSpecs, comparable: bool)

  type ValidConfig = c: Config | ValidSpecs(c.specs) witness Config([], DefaultSpecs(), false)

  datatype Attempt = Attempt(
    route: IssuerRoute, request: Message, correlation: NetworkCorrelation, startedAt: real, deadline: real,
    timeout: real)

  datatype FlowResult = FlowResult(
    route: IssuerRoute, outcome: TransportOutcome, disposition: Option<Disposition>, deliveryUnknown: bool,
    reversal: Option<ReversalLink>, error: Option<Transport.ErrorText>)

  /** A row of network_observations. */
  datatype Observation = Observation(
    route: IssuerRoute, outcome: TransportOutcome, disposition: Option<Disposition>, deliveryUnknown: bool,
    latency: real, reversalReason: Option<ReversalReason>)

  datatype FlowError =
    | WireKey(reason: MappingError)
    | CorrelationsDiffer
    | NotRouted(routing: RoutingError)
    | Coordinator(cause: CoordinatorError)
    | Adapter(fault: Transport.AdapterError)
    | FailedAfterPending
    | TimeoutBeforeDeadline
    | NotPendingAtDeadline
    | NoReversalKey
    | NotLinked(link: LinkError)
    | NotRecorded

  /** What the objects the flow works on hold. */
  datatype Net = Net(tracker: Tracker, links: Links, history: seq<Observation>)

  /** What the outside does during one exchange: the transport's answer, the reversal key its provider
      draws, and whether the history can be written. */
  datatype Outside = Outside(
    answer: Transport.TransportAnswer, reversalKey: Option<NetworkCorrelation>, historyUp: bool)

  // ----- the methods as functions ------------------------------------------------------

  /** `start`. */
  function StartAnswer(
    c: ValidConfig, t: Tracker, canonical: AuthorizationRequest, request: Message, now: real, timeout: real):
    (r: Result<Attempt, FlowError>)
  {
    if CorrelationKey(request).Err? then Err(WireKey(CorrelationKey(request).error))
    else if CorrelationKey(request).value != canonical.correlation then Err(CorrelationsDiffer)
    else if Route(c.routes, canonical).Err? then Err(NotRouted(Route(c.routes, canonical).error))
    else if RegisterAnswer(t, request, timeout).Err? then Err(Coordinator(RegisterAnswer(t, request, timeout).error))
    else
      Ok(Attempt(Route(c.routes, canonical).value, request, RegisterAnswer(t, request, timeout).value,
                 now, now + timeout, timeout))
  }

  function Started(
    c: ValidConfig, t: Tracker, canonical: AuthorizationRequest, request: Message, now: real, timeout: real): Tracker
  {
    if StartAnswer(c, t, canonical, request, now, timeout).Ok? then Registered(t, request, now, timeout) else t
  }

  /** `_exchange` when the transport failed locally. */
  function AfterFailure(net: Net, a: Attempt, error: Option<Transport.ErrorText>):
    (r: (Result<FlowResult, FlowError>, Net))
  {
    var answer := CancelAnswer(net.tracker, a.request);
    var after := net.(tracker := Cancelled(net.tracker, a.request));
    if answer.Err? then (Err(Coordinator(answer.error)), after)
    else if !answer.value then (Err(FailedAfterPending), after)
    else (Ok(FlowResult(a.route, Transport.Failure, None, false, None, error)), after)
  }

  /** `_exchange` when the transport timed out. */
  function AfterTimeout(
    c: ValidConfig, net: Net, a: Attempt, error: Option<Transport.ErrorText>, completedAt: real,
    reversalKey: Option<NetworkCorrelation>):
    (r: (Result<FlowResult, FlowError>, Net))
  {
    if completedAt < a.deadline then (Err(TimeoutBeforeDeadline), net)
    else if !CanSort(DueKeys(net.tracker, completedAt), c.comparable) then (Err(Coordinator(KeysNotComparable)), net)
    else
      var expired := net.(tracker := Expired(net.tracker, completedAt, c.comparable));
      if a.correlation !in ExpiredKeys(net.tracker, completedAt, c.comparable) then (Err(NotPendingAtDeadline), expired)
      else if reversalKey.None? then (Err(NoReversalKey), expired)
      else
        var link := LinkAnswer(net.links, a.correlation, reversalKey.value, NetworkRouting.Timeout);
        var linked := expired.(links := Linked(net.links, a.correlation, reversalKey.value, NetworkRouting.Timeout));
        if link.Err? then (Err(NotLinked(link.error)), linked)
        else (Ok(FlowResult(a.route, Transport.Timeout, Some(TimedOut), true, Some(link.value), error)), linked)
  }

  /** The tracker once a response that came after the deadline has expired what was due. */
  function Overdue(c: ValidConfig, t: Tracker, a: Attempt, completedAt: real): Tracker {
    if completedAt >= a.deadline then Expired(t, completedAt, c.comparable) else t
  }

  /** `_exchange` when a response was decoded. */
  function AfterResponse(c: ValidConfig, net: Net, a: Attempt, response: Message, completedAt: real):
    (r: (Result<FlowResult, FlowError>, Net))
  {
    if completedAt >= a.deadline && !CanSort(DueKeys(net.tracker, completedAt), c.comparable) then
      (Err(Coordinator(KeysNotComparable)), net)
    else
      var t := Overdue(c, net.tracker, a, completedAt);
      var answer := ResponseAnswer(t, a.request, response, completedAt);
      var after := net.(tracker := Responded(t, a.request, response, completedAt));
      if answer.Err? then (Err(Coordinator(answer.error)), after)
      else (Ok(FlowResult(a.route, Transport.Response, Some(answer.value), false, None, None)), after)
  }

  /** `_exchange`. */
  function Settled(c: ValidConfig, net: Net, a: Attempt, completedAt: real, outside: Outside):
    (r: (Result<FlowResult, FlowError>, Net))
  {
    var result := Transport.Exchange(c.specs, a.request, a.timeout, outside.answer);
    if result.Err? then (Err(Adapter(result.error)), net)
    else if result.value.outcome.Failure? then AfterFailure(net, a, result.value.error)
    else if result.value.outcome.Timeout? then
      AfterTimeout(c, net, a, result.value.error, completedAt, outside.reversalKey)
    else AfterResponse(c, net, a, result.value.response.value, completedAt)
  }

  function Latency(a: Attempt, completedAt: real): (ms: real)
    ensures ms >= 0.0
  {
    if completedAt > a.startedAt then (completedAt - a.startedAt) * 1000.0 else 0.0
  }

  function ObservationOf(a: Attempt, r: FlowResult, completedAt: real): Observation {
    Observation(a.route, r.outcome, r.disposition, r.deliveryUnknown, Latency(a, completedAt),
                if r.reversal.Some? then Some(r.reversal.value.reason) else None)
  }

  /** `exchange`: the outcome is recorded after everything else has happened. */
  function Exchanged(c: ValidConfig, net: Net, a: Attempt, completedAt: real, outside: Outside):
    (r: (Result<FlowResult, FlowError>, Net))
  {
    var (result, after) := Settled(c, net, a, completedAt, outside);
    if result.Err? then (result, after)
    else if !outside.historyUp then (Err(NotRecorded), after)
    else (result, after.(history := after.history + [ObservationOf(a, result.value, completedAt)]))
  }

  function LateObservation(a: Attempt, disposition: Disposition, now: real): Observation {
    Observation(a.route, Transport.Response, Some(disposition), false, Latency(a, now), None)
  }

  /** `handle_late_response`. */
  function AnsweredLate(net: Net, a: Attempt, response: Message, now: real, historyUp: bool):
    (r: (Result<Disposition, FlowError>, Net))
  {
    var answer := ResponseAnswer(net.tracker, a.request, response, now);
    var after := net.(tracker := Responded(net.tracker, a.request, response, now));
    if answer.Err? then (Err(Coordinator(answer.error)), after)
    else if !historyUp then (Err(NotRecorded), after)
    else (Ok(answer.value), after.(history := after.history + [LateObservation(a, answer.value, now)]))
  }

  // ----- the object --------------------------------------------------------------------

  class AuthorizationNetworkFlow {
    const config: ValidConfig
    const coordinator: NetworkTransactionCoordinator
    const reversals: ReversalRegistry
    var history: seq<Observation>

    ghost predicate Valid()
      reads this, coordinator, reversals
    {
      coordinator.comparable == config.comparable && reversals.State().Valid()
    }

    function State(): Net
      reads this, coordinator, reversals
    {
      Net(coordinator.State(), reversals.State(), history)
    }

    constructor (config: ValidConfig, coordinator: NetworkTransactionCoordinator, reversals: ReversalRegistry)
      requires coordinator.comparable == config.comparable && reversals.State().Valid()
      ensures Valid() && this.config == config && this.coordinator == coordinator && this.reversals == reversals
      ensures State() == Net(coordinator.State(), reversals.State(), [])
    {
      this.config, this.coordinator, this.reversals := config, coordinator, reversals;
      history := [];
    }

    /** `start`. */
    method Start(canonical: AuthorizationRequest, request: Message, now: real, timeout: real)
      returns (r: Result<Attempt, FlowError>)
      requires Valid()
      modifies coordinator
      ensures Valid()
      ensures r == StartAnswer(config, old(coordinator.State()), canonical, request, now, timeout)
      ensures coordinator.State() == Started(config, old(coordinator.State()), canonical, request, now, timeout)
    {
      hide CorrelationKey, Route, RegisterAnswer, Registered;
      var key := CorrelationKey(request);
      if key.Err? {
        return Err(WireKey(key.error));
      }
      if key.value != canonical.correlation {
        return Err(CorrelationsDiffer);
      }
      var route := Route(config.routes, canonical);
      if route.Err? {
        return Err(NotRouted(route.error));
      }
      FailedRegistration(coordinator.State(), request, now, timeout);
      var registered := coordinator.Register(request, now, timeout);
      if registered.Err? {
        return Err(Coordinator(registered.error));
      }
      r := Ok(Attempt(route.value, request, registered.value, now, now + timeout, timeout));
    }

    /** `_exchange`. */
    method Settle(a: Attempt, completedAt: real, outside: Outside) returns (r: Result<FlowResult, FlowError>)
      requires Valid()
      modifies coordinator, reversals
      ensures Valid()
      ensures r == Settled(config, old(State()), a, completedAt, outside).0
      ensures State() == Settled(config, old(State()), a, completedAt, outside).1
    {
      hide Transport.Exchange, CancelAnswer, Cancelled, DueKeys, CanSort, LinkAnswer, Linked, ResponseAnswer, Responded;
      var result := Transport.Exchange(config.specs, a.request, a.timeout, outside.answer);
      if result.Err? {
        return Err(Adapter(result.error));
      }
      if result.value.outcome.Failure? {
        var cancelled := coordinator.Cancel(a.request);
        if cancelled.Err? {
          return Err(Coordinator(cancelled.error));
        }
        if !cancelled.value {
          return Err(FailedAfterPending);
        }
        return Ok(FlowResult(a.route, Transport.Failure, None, false, None, result.value.error));
      }
      if result.value.outcome.Timeout? {
        if completedAt < a.deadline {
          return Err(TimeoutBeforeDeadline);
        }
        var expired := coordinator.Expire(completedAt);
        if expired.Err? {
          return Err(Coordinator(expired.error));
        }
        if a.correlation !in expired.value {
          return Err(NotPendingAtDeadline);
        }
        if outside.reversalKey.None? {
          return Err(NoReversalKey);
        }
        var link := reversals.Link(a.correlation, outside.reversalKey.value, NetworkRouting.Timeout);
        if link.Err? {
          return Err(NotLinked(link.error));
        }
        return Ok(FlowResult(a.route, Transport.Timeout, Some(TimedOut), true, Some(link.value), result.value.error));
      }
      if completedAt >= a.deadline {
        var expired := coordinator.Expire(completedAt);
        if expired.Err? {
          return Err(Coordinator(expired.error));
        }
      }
      var answer := coordinator.HandleResponse(a.request, result.value.response.value, completedAt);
      if answer.Err? {
        return Err(Coordinator(answer.error));
      }
      r := Ok(FlowResult(a.route, Transport.Response, Some(answer.value), false, None, None));
    }

    /** `exchange`. */
    method Exchange(a: Attempt, completedAt: real, outside: Outside) returns (r: Result<FlowResult, FlowError>)
      requires Valid()
      modifies this, coordinator, reversals
      ensures Valid()
      ensures r == Exchanged(config, old(State()), a, completedAt, outside).0
      ensures State() == Exchanged(config, old(State()), a, completedAt, outside).1
    {
      hide Settled;
      r := Settle(a, completedAt, outside);
      if r.Ok? {
        if !outside.historyUp {
          return Err(NotRecorded);
        }
        history := history + [ObservationOf(a, r.value, completedAt)];
      }
    }

    /** `handle_late_response`. */
    method HandleLateResponse(a: Attempt, response: Message, now: real, historyUp: bool)
      returns (r: Result<Disposition, FlowError>)
      requires Valid()
      modifies this, coordinator
      ensures Valid()
      ensures r == AnsweredLate(old(State()), a, response, now, historyUp).0
      ensures State() == AnsweredLate(old(State()), a, response, now, historyUp).1
    {
      hide ResponseAnswer, Responded;
      var answer := coordinator.HandleResponse(a.request, response, now);
      if answer.Err? {
        return Err(Coordinator(answer.error));
      }
      if !historyUp {
        return Err(NotRecorded);
      }
      history := history + [LateObservation(a, answer.value, now)];
      r := Ok(answer.value);
    }
  }

  lemma FailedRegistration(t: Tracker, request: Message, now: real, timeout: real)
    ensures RegisterAnswer(t, request, timeout).Err? ==> Registered(t, request, now, timeout) == t
  {
    hide RegisterAnswer;
  }
}
