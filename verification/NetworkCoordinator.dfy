// The request lifecycle tracker (app/network_coordinator.py): its methods, and what every run of
// them keeps for each correlation key.
module NetworkCoordinator {
  import opened Results
  import opened Strings
  import opened Canonical
  import opened Iso8583
  import opened Iso8583Adapter

  datatype Disposition = Accepted | Mismatched | TimedOut | Late | Duplicate

  datatype CoordinatorError =
    | BadTimeout
    | KeyInUse
    | BadCorrelation(reason: MappingError)
    | KeysNotComparable

  /** The tracker's tables: deadlines of pending keys, answered keys, and keys that ran out of time. */
  datatype Tracker = Tracker(
    pending: map<NetworkCorrelation, real>, completed: set<NetworkCorrelation>, timedOut: set<NetworkCorrelation>)
  {
    predicate Uses(key: NetworkCorrelation) {
      key in pending || key in completed || key in timedOut
    }

    predicate Disjoint() {
      pending.Keys !! completed && pending.Keys !! timedOut && completed !! timedOut
    }
  }

  const UNUSED := Tracker(map[], {}, {})

  // ----- the methods as functions of the tables ----------------------------------------

  function RegisterAnswer(t: Tracker, request: Message, timeout: real):
    (r: Result<NetworkCorrelation, CoordinatorError>)
  {
    if timeout <= 0.0 then Err(BadTimeout)
    else if CorrelationKey(request).Err? then Err(BadCorrelation(CorrelationKey(request).error))
    else if t.Uses(CorrelationKey(request).value) then Err(KeyInUse)
    else Ok(CorrelationKey(request).value)
  }

  function Registered(t: Tracker, request: Message, now: real, timeout: real): Tracker {
    var r := RegisterAnswer(t, request, timeout);
    if r.Ok? then t.(pending := t.pending[r.value := now + timeout]) else t
  }

  function CancelAnswer(t: Tracker, request: Message): (r: Result<bool, CoordinatorError>)
  {
    var key := CorrelationKey(request);
    if key.Err? then Err(BadCorrelation(key.error)) else Ok(key.value in t.pending)
  }

  function Cancelled(t: Tracker, request: Message): Tracker {
    var key := CorrelationKey(request);
    if key.Ok? then t.(pending := t.pending - {key.value}) else t
  }

  function DueKeys(t: Tracker, now: real): set<NetworkCorrelation> {
    set k | k in t.pending && t.pending[k] <= now
  }

  /** Sorting needs an order as soon as there are two keys. `comparable` is false of the program as it
      stands: `NetworkCorrelation` defines no order, and sorting two of them raises TypeError. */
  predicate CanSort(due: set<NetworkCorrelation>, comparable: bool) {
    comparable || |due| <= 1
  }

  /** The keys `expire` moves: none when it raises. */
  function ExpiredKeys(t: Tracker, now: real, comparable: bool): set<NetworkCorrelation> {
    if CanSort(DueKeys(t, now), comparable) then DueKeys(t, now) else {}
  }

  function Expired(t: Tracker, now: real, comparable: bool): Tracker {
    var gone := ExpiredKeys(t, now, comparable);
    t.(pending := t.pending - gone, timedOut := t.timedOut + gone)
  }

  function ResponseAnswer(t: Tracker, request: Message, response: Message, now: real):
    (r: Result<Disposition, CoordinatorError>)
  {
    if CorrelationKey(response).Err? then Err(BadCorrelation(CorrelationKey(response).error))
    else if !CorrelatesResponse(request, response) then Ok(Mismatched)
    else
      var key := CorrelationKey(response).value;
      if key in t.completed then Ok(Duplicate)
      else if key in t.timedOut then Ok(Late)
      else if key !in t.pending then Ok(Mismatched)
      else if t.pending[key] <= now then Ok(TimedOut)
      else Ok(Accepted)
  }

  function Responded(t: Tracker, request: Message, response: Message, now: real): Tracker {
    var r := ResponseAnswer(t, request, response, now);
    if r.Err? || r.value.Mismatched? || r.value.Duplicate? then t
    else
      var key := CorrelationKey(response).value;
      match r.value
      case Late => t.(timedOut := t.timedOut - {key}, completed := t.completed + {key})
      case TimedOut => t.(pending := t.pending - {key}, timedOut := t.timedOut + {key})
      case _ => t.(pending := t.pending - {key}, completed := t.completed + {key})
  }

  // ----- the object --------------------------------------------------------------------

  /** The order `expire` asks for: STAN, then RRN. */
  predicate KeyLess(a: NetworkCorrelation, b: NetworkCorrelation) {
    TextLess(a.stan, b.stan) || (a.stan == b.stan && TextLess(a.rrn, b.rrn))
  }

  predicate SortedKeys(keys: seq<NetworkCorrelation>) {
    forall i, j :: 0 <= i < j < |keys| ==> KeyLess(keys[i], keys[j])
  }

  class NetworkTransactionCoordinator {
    const comparable: bool
    var pending: map<NetworkCorrelation, real>
    var completed: set<NetworkCorrelation>
    var timedOut: set<NetworkCorrelation>

    function State(): Tracker
      reads this
    {
      Tracker(pending, completed, timedOut)
    }

    constructor (comparable: bool)
      ensures State() == UNUSED && this.comparable == comparable
    {
      this.comparable := comparable;
      pending, completed, timedOut := map[], {}, {};
    }

    /** `register`. */
    method Register(request: Message, now: real, timeout: real)
      returns (r: Result<NetworkCorrelation, CoordinatorError>)
      modifies this
      ensures r == RegisterAnswer(old(State()), request, timeout)
      ensures State() == Registered(old(State()), request, now, timeout)
    {
      hide CorrelationKey;
      if timeout <= 0.0 {
        return Err(BadTimeout);
      }
      var key := CorrelationKey(request);
      if key.Err? {
        return Err(BadCorrelation(key.error));
      }
      if key.value in pending || key.value in completed || key.value in timedOut {
        return Err(KeyInUse);
      }
      pending := pending[key.value := now + timeout];
      r := Ok(key.value);
    }

    /** `cancel`. */
    method Cancel(request: Message) returns (r: Result<bool, CoordinatorError>)
      modifies this
      ensures r == CancelAnswer(old(State()), request)
      ensures State() == Cancelled(old(State()), request)
    {
      hide CorrelationKey;
      var key := CorrelationKey(request);
      if key.Err? {
        return Err(BadCorrelation(key.error));
      }
      r := Ok(key.value in pending);
      pending := pending - {key.value};
    }

    /** `expire`: the keys that were due, in order, or an error and no change. */
    method Expire(now: real) returns (r: Result<seq<NetworkCorrelation>, CoordinatorError>)
      modifies this
      ensures r.Ok? <==> CanSort(DueKeys(old(State()), now), comparable)
      ensures r.Err? ==> r.error == KeysNotComparable
      ensures r.Ok? ==> SortedKeys(r.value) && forall k :: k in r.value <==> k in DueKeys(old(State()), now)
      ensures State() == Expired(old(State()), now, comparable)
    {
      hide KeyLess, SortedKeys;
      var due := DueKeys(State(), now);
      if !comparable && |due| > 1 {
        return Err(KeysNotComparable);
      }
      var expired := SortKeys(due);
      SortedDistinct(expired);
      for i := 0 to |expired|
        invariant pending == old(pending) - KeysIn(expired[..i])
        invariant timedOut == old(timedOut) + KeysIn(expired[..i])
        invariant completed == old(completed)
      {
        assert KeysIn(expired[..i + 1]) == KeysIn(expired[..i]) + {expired[i]};
        pending := pending - {expired[i]};
        timedOut := timedOut + {expired[i]};
      }
      assert expired[..|expired|] == expired && KeysIn(expired) == due;
      r := Ok(expired);
    }

    /** `handle_response`. */
    method HandleResponse(request: Message, response: Message, now: real)
      returns (r: Result<Disposition, CoordinatorError>)
      modifies this
      ensures r == ResponseAnswer(old(State()), request, response, now)
      ensures State() == Responded(old(State()), request, response, now)
    {
      hide CorrelationKey, CorrelatesResponse;
      var correlation := CorrelationKey(response);
      if correlation.Err? {
        return Err(BadCorrelation(correlation.error));
      }
      if !CorrelatesResponse(request, response) {
        return Ok(Mismatched);
      }
      var key := correlation.value;
      if key in completed {
        return Ok(Duplicate);
      }
      if key in timedOut {
        timedOut := timedOut - {key};
        completed := completed + {key};
        return Ok(Late);
      }
      if key !in pending {
        return Ok(Mismatched);
      }
      if pending[key] <= now {
        pending := pending - {key};
        timedOut := timedOut + {key};
        return Ok(TimedOut);
      }
      pending := pending - {key};
      completed := completed + {key};
      r := Ok(Accepted);
    }
  }

  function KeysIn(keys: seq<NetworkCorrelation>): set<NetworkCorrelation> {
    set k | k in keys
  }

  lemma KeyLessTotal(a: NetworkCorrelation, b: NetworkCorrelation)
    ensures a == b || KeyLess(a, b) || KeyLess(b, a)
    ensures !(KeyLess(a, b) && KeyLess(b, a)) && !KeyLess(a, a)
  {
    hide TextLess;
    TextLessTotal(a.stan, b.stan);
    TextLessTotal(a.rrn, b.rrn);
    TextLessTotal(a.stan, a.stan);
    TextLessTotal(a.rrn, a.rrn);
  }

  lemma KeyLessTransitive(a: NetworkCorrelation, b: NetworkCorrelation, c: NetworkCorrelation)
    requires KeyLess(a, b) && KeyLess(b, c)
    ensures KeyLess(a, c)
  {
    hide TextLess;
    if TextLess(a.stan, b.stan) && TextLess(b.stan, c.stan) {
      TextLessTransitive(a.stan, b.stan, c.stan);
    }
    if TextLess(a.rrn, b.rrn) && TextLess(b.rrn, c.rrn) {
      TextLessTransitive(a.rrn, b.rrn, c.rrn);
    }
  }

  /** Keys in order go by STAN, and by retrieval reference where STANs are equal. */
  lemma SortedExactly(keys: seq<NetworkCorrelation>, i: nat, j: nat)
    requires SortedKeys(keys) && i < j < |keys|
    ensures keys[i].stan != keys[j].stan ==> TextLess(keys[i].stan, keys[j].stan)
    ensures keys[i].stan == keys[j].stan ==> TextLess(keys[i].rrn, keys[j].rrn)
  {
    hide TextLess;
    assert KeyLess(keys[i], keys[j]);
    TextLessIrreflexive(keys[i].stan);
  }

  lemma SortedDistinct(keys: seq<NetworkCorrelation>)
    requires SortedKeys(keys)
    ensures forall i, j :: 0 <= i < j < |keys| ==> keys[i] != keys[j]
  {
    hide KeyLess;
    forall i, j | 0 <= i < j < |keys|
      ensures keys[i] != keys[j]
    {
      KeyLessTotal(keys[i], keys[j]);
    }
  }

  /** The least key of a set. */
  method LeastKey(keys: set<NetworkCorrelation>) returns (least: NetworkCorrelation)
    requires keys != {}
    ensures least in keys && forall k :: k in keys ==> k == least || KeyLess(least, k)
  {
    hide KeyLess;
    least :| least in keys;
    var left := keys - {least};
    while left != {}
      invariant left <= keys && least in keys
      invariant forall k :: k in keys - left ==> k == least || KeyLess(least, k)
      decreases left
    {
      var k :| k in left;
      NewLeast(keys - left, least, k);
      if KeyLess(k, least) {
        least := k;
      }
      left := left - {k};
    }
  }

  lemma NewLeast(seen: set<NetworkCorrelation>, least: NetworkCorrelation, k: NetworkCorrelation)
    requires forall s :: s in seen ==> s == least || KeyLess(least, s)
    ensures KeyLess(k, least) ==> forall s :: s in seen ==> KeyLess(k, s)
    ensures k == least || KeyLess(k, least) || KeyLess(least, k)
  {
    hide KeyLess;
    KeyLessTotal(k, least);
    forall s | s in seen && KeyLess(k, least)
      ensures KeyLess(k, s)
    {
      if s != least {
        KeyLessTransitive(k, least, s);
      }
    }
  }

  /** `sorted`. */
  method SortKeys(keys: set<NetworkCorrelation>) returns (sorted: seq<NetworkCorrelation>)
    ensures SortedKeys(sorted)
    ensures forall k :: k in sorted <==> k in keys
  {
    hide KeyLess;
    sorted := [];
    var left := keys;
    while left != {}
      invariant left <= keys && SortedKeys(sorted)
      invariant forall k :: k in sorted <==> k in keys - left
      invariant forall i, k :: 0 <= i < |sorted| && k in left ==> KeyLess(sorted[i], k)
      decreases left
    {
      var least := LeastKey(left);
      sorted := sorted + [least];
      left := left - {least};
    }
  }
}
