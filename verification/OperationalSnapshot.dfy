// The operational snapshot (app/operational_snapshot.py): what it counts, and what its numbers and
// its health mean on tables the service can reach.
module OperationalSnapshot {
  import opened Results
  import opened Payments
  import opened Reconciliation
  import opened Grouping
  import NetworkCoordinator
  import NetworkFlow
  import Transport = NetworkTransport
  import Outbox
  import FlowRuns

  type Observation = NetworkFlow.Observation
  type Disposition = NetworkCoordinator.Disposition

  datatype RouteKey = RouteKey(name: string, issuerId: string, acquirerId: string)

  datatype RouteCounts = RouteCounts(
    observations: nat, accepted: nat, timeouts: nat, lateResponses: nat, deliveryUnknown: nat)

  datatype NetworkCounts = NetworkCounts(
    observations: nat, timeouts: nat, lateResponses: nat, byDisposition: map<Disposition, nat>,
    routes: map<RouteKey, RouteCounts>)

  // ----- counting rows of network_observations -----------------------------------------

  function KeyOf(row: Observation): RouteKey {
    RouteKey(row.route.name, row.route.issuerId, row.route.acquirerId)
  }

  predicate IsTimeout(row: Observation) {
    row.outcome.Timeout?
  }

  predicate Is(row: Observation, disposition: Disposition) {
    row.disposition == Some(disposition)
  }

  /** The positions of the rows a FILTER keeps. */
  function Where(history: seq<Observation>, wanted: Observation -> bool): set<int> {
    set i | 0 <= i < |history| && wanted(history[i])
  }

  function RouteAt(history: seq<Observation>): int -> RouteKey {
    i => if 0 <= i < |history| then KeyOf(history[i]) else RouteKey("", "", "")
  }

  /** Read only where there is a disposition. */
  function DispositionAt(history: seq<Observation>): int -> Disposition {
    i => if 0 <= i < |history| && history[i].disposition.Some? then history[i].disposition.value
         else NetworkCoordinator.Mismatched
  }

  function RoutesOf(history: seq<Observation>): set<RouteKey> {
    Keys(Where(history, row => true), RouteAt(history))
  }

  /** `COUNT(*) FILTER (WHERE ...)` of one route's group. */
  function CountIn(history: seq<Observation>, wanted: Observation -> bool, k: RouteKey): nat {
    |Group(Where(history, wanted), RouteAt(history), k)|
  }

  function RouteRow(history: seq<Observation>, k: RouteKey): RouteCounts {
    RouteCounts(
      CountIn(history, row => true, k),
      CountIn(history, (row: Observation) => Is(row, NetworkCoordinator.Accepted), k),
      CountIn(history, (row: Observation) => IsTimeout(row), k),
      CountIn(history, (row: Observation) => Is(row, NetworkCoordinator.Late), k),
      CountIn(history, (row: Observation) => row.deliveryUnknown, k))
  }

  /** The network part of `_measure_database`. */
  function MeasureNetwork(history: seq<Observation>): NetworkCounts {
    NetworkCounts(
      |Where(history, row => true)|,
      |Where(history, (row: Observation) => IsTimeout(row))|,
      |Where(history, (row: Observation) => Is(row, NetworkCoordinator.Late))|,
      Counts(Where(history, (row: Observation) => row.disposition.Some?), DispositionAt(history)),
      map k | k in RoutesOf(history) :: RouteRow(history, k))
  }

  // ----- what the numbers count --------------------------------------------------------

  /** How many rows are wanted, counted one by one. */
  function CountRows(history: seq<Observation>, wanted: Observation -> bool): nat {
    if history == [] then 0
    else
      var last := |history| - 1;
      CountRows(history[..last], wanted) + if wanted(history[last]) then 1 else 0
  }

  lemma {:induction false} WhereCounts(history: seq<Observation>, wanted: Observation -> bool)
    ensures |Where(history, wanted)| == CountRows(history, wanted)
  {
    if history != [] {
      var front, last := history[..|history| - 1], |history| - 1;
      WhereCounts(front, wanted);
      forall i
        ensures i in Where(history, wanted) <==> i in Where(front, wanted) || (i == last && wanted(history[last]))
      {
        assert 0 <= i < last ==> front[i] == history[i];
      }
      if wanted(history[last]) {
        assert Where(history, wanted) == Where(front, wanted) + {last};
      } else {
        assert Where(history, wanted) == Where(front, wanted);
      }
    }
  }

  lemma {:induction false} CountAll(history: seq<Observation>)
    ensures CountRows(history, row => true) == |history|
  {
    if history != [] {
      CountAll(history[..|history| - 1]);
    }
  }

  /** A row of the route with this name, issuer and acquirer. */
  predicate OnRoute(row: Observation, k: RouteKey) {
    row.route.name == k.name && row.route.issuerId == k.issuerId && row.route.acquirerId == k.acquirerId
  }

  lemma CountInCounts(history: seq<Observation>, wanted: Observation -> bool, both: Observation -> bool, k: RouteKey)
    requires forall row :: both(row) <==> OnRoute(row, k) && wanted(row)
    ensures CountIn(history, wanted, k) == CountRows(history, both)
  {
    WhereCounts(history, both);
    assert Group(Where(history, wanted), RouteAt(history), k) == Where(history, both);
  }

  /** The totals are counts over all rows. */
  lemma TotalsCount(history: seq<Observation>)
    ensures var m := MeasureNetwork(history);
      && m.observations == |history|
      && m.timeouts == CountRows(history, (row: Observation) => row.outcome.Timeout?)
      && m.lateResponses == CountRows(history, (row: Observation) => row.disposition == Some(NetworkCoordinator.Late))
  {
    hide Where, Counts, RoutesOf, CountRows;
    CountAll(history);
    WhereCounts(history, row => true);
    WhereCounts(history, (row: Observation) => IsTimeout(row));
    WhereCounts(history, (row: Observation) => Is(row, NetworkCoordinator.Late));
    CountsAgree(history, (row: Observation) => IsTimeout(row), (row: Observation) => row.outcome.Timeout?);
    CountsAgree(history, (row: Observation) => Is(row, NetworkCoordinator.Late),
                (row: Observation) => row.disposition == Some(NetworkCoordinator.Late));
  }

  lemma {:induction false} CountsAgree(history: seq<Observation>, a: Observation -> bool, b: Observation -> bool)
    requires forall row :: a(row) == b(row)
    ensures CountRows(history, a) == CountRows(history, b)
  {
    if history != [] {
      CountsAgree(history[..|history| - 1], a, b);
    }
  }

  /** There is one route row for each route that occurs, and its columns are counts over that route's rows. */
  lemma RouteRowsCount(history: seq<Observation>, k: RouteKey)
    ensures var m := MeasureNetwork(history);
      && (k in m.routes <==> exists i :: 0 <= i < |history| && OnRoute(history[i], k))
      && (k in m.routes ==>
            && m.routes[k].observations == CountRows(history, (row: Observation) => OnRoute(row, k))
            && m.routes[k].accepted == CountRows(history,
                 (row: Observation) => OnRoute(row, k) && row.disposition == Some(NetworkCoordinator.Accepted))
            && m.routes[k].timeouts == CountRows(history,
                 (row: Observation) => OnRoute(row, k) && row.outcome.Timeout?)
            && m.routes[k].lateResponses == CountRows(history,
                 (row: Observation) => OnRoute(row, k) && row.disposition == Some(NetworkCoordinator.Late))
            && m.routes[k].deliveryUnknown == CountRows(history,
                 (row: Observation) => OnRoute(row, k) && row.deliveryUnknown))
  {
    hide CountRows, CountIn, Counts;
    RouteOccurs(history, k);
    CountInCounts(history, row => true, (row: Observation) => OnRoute(row, k), k);
    CountInCounts(history, (row: Observation) => Is(row, NetworkCoordinator.Accepted),
                  (row: Observation) => OnRoute(row, k) && row.disposition == Some(NetworkCoordinator.Accepted), k);
    CountInCounts(history, (row: Observation) => IsTimeout(row),
                  (row: Observation) => OnRoute(row, k) && row.outcome.Timeout?, k);
    CountInCounts(history, (row: Observation) => Is(row, NetworkCoordinator.Late),
                  (row: Observation) => OnRoute(row, k) && row.disposition == Some(NetworkCoordinator.Late), k);
    CountInCounts(history, (row: Observation) => row.deliveryUnknown,
                  (row: Observation) => OnRoute(row, k) && row.deliveryUnknown, k);
  }

  lemma RouteOccurs(history: seq<Observation>, k: RouteKey)
    ensures k in RoutesOf(history) <==> exists i :: 0 <= i < |history| && OnRoute(history[i], k)
  {
    if i :| 0 <= i < |history| && OnRoute(history[i], k) {
      assert i in Where(history, row => true) && RouteAt(history)(i) == k;
    }
  }

  /** A disposition is listed when it occurs, with the number of rows that have it. */
  lemma DispositionsCount(history: seq<Observation>, d: Disposition)
    ensures var m := MeasureNetwork(history);
      && (d in m.byDisposition <==> exists i :: 0 <= i < |history| && history[i].disposition == Some(d))
      && (d in m.byDisposition ==>
            m.byDisposition[d] == CountRows(history, (row: Observation) => row.disposition == Some(d)))
  {
    hide CountRows, RoutesOf, RouteRow;
    var answered := Where(history, (row: Observation) => row.disposition.Some?);
    var wanted := (row: Observation) => row.disposition == Some(d);
    WhereCounts(history, wanted);
    assert Group(answered, DispositionAt(history), d) == Where(history, wanted);
    if i :| 0 <= i < |history| && history[i].disposition == Some(d) {
      assert i in answered && DispositionAt(history)(i) == d;
    }
  }

  // ----- the numbers add up ------------------------------------------------------------

  /** One column of the route rows. */
  function Column(rows: map<RouteKey, RouteCounts>, column: RouteCounts -> nat): map<RouteKey, nat> {
    map k | k in rows :: column(rows[k])
  }

  /** A filtered count, route by route, adds up to the filtered count of the table. */
  lemma RoutesAddUp(history: seq<Observation>, wanted: Observation -> bool)
    ensures Sum(map k | k in RoutesOf(history) :: CountIn(history, wanted, k)) == |Where(history, wanted)|
  {
    var rows, all := Where(history, wanted), Where(history, row => true);
    forall i | i in rows
      ensures RouteAt(history)(i) in RoutesOf(history)
    {
      assert i in all;
    }
    GroupsAddUp(rows, RouteAt(history), RoutesOf(history));
    assert Tally(rows, RouteAt(history), RoutesOf(history))
      == map k | k in RoutesOf(history) :: CountIn(history, wanted, k);
  }

  /** For every history, the route rows' counts of observations, timeouts and late responses each add
      up to the total reported beside them. */
  lemma TotalsMatchRoutes(history: seq<Observation>)
    ensures var m := MeasureNetwork(history);
      && Sum(Column(m.routes, (row: RouteCounts) => row.observations)) == m.observations
      && Sum(Column(m.routes, (row: RouteCounts) => row.timeouts)) == m.timeouts
      && Sum(Column(m.routes, (row: RouteCounts) => row.lateResponses)) == m.lateResponses
  {
    hide Sum, Where, CountIn, RoutesOf;
    var m := MeasureNetwork(history);
    RoutesAddUp(history, row => true);
    RoutesAddUp(history, (row: Observation) => IsTimeout(row));
    RoutesAddUp(history, (row: Observation) => Is(row, NetworkCoordinator.Late));
    assert Column(m.routes, (row: RouteCounts) => row.observations)
      == map k | k in RoutesOf(history) :: CountIn(history, row => true, k);
    assert Column(m.routes, (row: RouteCounts) => row.timeouts)
      == map k | k in RoutesOf(history) :: CountIn(history, (row: Observation) => IsTimeout(row), k);
    assert Column(m.routes, (row: RouteCounts) => row.lateResponses)
      == map k | k in RoutesOf(history) :: CountIn(history, (row: Observation) => Is(row, NetworkCoordinator.Late), k);
  }

  predicate RowsShaped(history: seq<Observation>) {
    forall i :: 0 <= i < |history| ==> FlowRuns.RowShape(history[i])
  }

  /** For histories of rows the flow writes: in each route row the deliveries that are unknown are the
      timeouts, and the observations are the rows with a disposition and the failures. */
  lemma UnknownDeliveriesAreTimeouts(history: seq<Observation>)
    requires RowsShaped(history)
    ensures var m := MeasureNetwork(history);
      && (forall k :: k in m.routes ==> m.routes[k].deliveryUnknown == m.routes[k].timeouts)
      && m.observations == Sum(m.byDisposition) + |Where(history, (row: Observation) => row.outcome.Failure?)|
  {
    hide Sum, Counts, Keys, RouteAt, DispositionAt;
    var timeouts := Where(history, (row: Observation) => IsTimeout(row));
    assert timeouts == Where(history, (row: Observation) => row.deliveryUnknown);
    var answered := Where(history, (row: Observation) => row.disposition.Some?);
    var failed := Where(history, (row: Observation) => row.outcome.Failure?);
    CountsAddUp(answered, DispositionAt(history));
    assert Where(history, row => true) == answered + failed;
    assert answered !! failed;
  }

  /** Every history a run of the flow leaves is of that kind. */
  lemma FlowHistories(c: NetworkFlow.ValidConfig, moves: seq<FlowRuns.Move>)
    requires FlowRuns.Schedule(c, FlowRuns.INITIAL, moves)
    ensures RowsShaped(FlowRuns.After(c, FlowRuns.INITIAL, moves).net.history)
  {
    hide FlowRuns.After, FlowRuns.Schedule, FlowRuns.RowShape;
    FlowRuns.ReachableFlow(c, moves);
  }

  // ----- the snapshot ------------------------------------------------------------------

  datatype Health = Healthy | Degraded | Critical

  datatype Snapshot = Snapshot(
    health: Health,
    paymentTotal: nat, byStatus: map<PaymentStatus, nat>, operations: nat,
    balanced: bool, discrepancies: nat, kinds: map<DiscrepancyKind, nat>,
    unpublished: nat, poison: nat,
    network: NetworkCounts, incidents: seq<string>)

  function StatusOf(db: Db): string -> PaymentStatus {
    p => if p in db.payments then db.payments[p].status else Pending
  }

  function KindOf(d: Discrepancy): DiscrepancyKind {
    d.kind
  }

  function Unpublished(rows: map<string, Outbox.Row>): set<string> {
    set id | id in rows && rows[id].publishedAt.None?
  }

  /** Unpublished events at the retry limit. */
  function Poison(rows: map<string, Outbox.Row>, maxAttempts: int): set<string> {
    set id | id in rows && rows[id].publishedAt.None? && rows[id].attempts >= maxAttempts
  }

  function IncidentsOf(discrepancies: nat, poison: nat): seq<string> {
    (if discrepancies > 0 then ["ledger/reconciliation has " + NatText(discrepancies) + " discrepancy(s)"] else [])
    + (if poison > 0 then ["outbox has " + NatText(poison) + " unpublished event(s) at retry limit"] else [])
  }

  /** What a snapshot of the tables says, given the reconciler's report on them. */
  predicate Describes(
    s: Snapshot, db: Db, rows: map<string, Outbox.Row>, history: seq<Observation>, maxAttempts: int,
    report: seq<Discrepancy>)
  {
    && s.byStatus == Counts(db.payments.Keys, StatusOf(db)) && s.paymentTotal == |db.payments|
    && s.operations == |db.operations|
    && s.discrepancies == |report| && (s.balanced <==> report == [])
    && s.kinds == Counts((set d | d in report), KindOf)
    && s.unpublished == |Unpublished(rows)| && s.poison == |Poison(rows, maxAttempts)|
    && s.network == MeasureNetwork(history)
    && (s.health.Critical? <==> report != [] || s.poison > 0)
    && (s.health.Degraded? <==> report == [] && s.poison == 0 && s.unpublished > 0)
    && s.incidents == IncidentsOf(|report|, s.poison)
  }

  /** `PostgresOperationalSnapshotReader.read`. */
  method Read(db: Db, rows: map<string, Outbox.Row>, history: seq<Observation>, maxAttempts: int)
    returns (s: Snapshot, report: seq<Discrepancy>)
    requires OperationIdsUnique(db)
    ensures Ordered(report) && forall d :: d in report <==> Finding(db, d)
    ensures Describes(s, db, rows, history, maxAttempts, report)
  {
    hide MeasureNetwork, OperationIdsUnique, Ordered, Finding, Counts, Sum, NatText;
    var byStatus := Counts(db.payments.Keys, StatusOf(db));
    var total := SumValues(byStatus);
    CountsAddUp(db.payments.Keys, StatusOf(db));
    var unpublished, poison := |Unpublished(rows)|, |Poison(rows, maxAttempts)|;
    var network := MeasureNetwork(history);
    report := Inspect(db);
    var kinds := Counts((set d | d in report), KindOf);
    var incidents: seq<string> := [];
    if report != [] {
      incidents := incidents + ["ledger/reconciliation has " + NatText(|report|) + " discrepancy(s)"];
    }
    if poison > 0 {
      incidents := incidents + ["outbox has " + NatText(poison) + " unpublished event(s) at retry limit"];
    }
    var health := Healthy;
    if report != [] || poison > 0 {
      health := Critical;
    } else if unpublished > 0 {
      health := Degraded;
    }
    s := Snapshot(health, total, byStatus, |db.operations|, report == [], |report|, kinds, unpublished, poison,
                  network, incidents);
  }

  // ----- what it means on reachable tables ---------------------------------------------

  /** An unpublished event is poison exactly when no claim with that limit can ever take it. */
  lemma PoisonCannotBeClaimed(row: Outbox.Row, maxAttempts: int, lease: int)
    requires row.publishedAt.None?
    ensures row.attempts >= maxAttempts <==> forall now :: !Outbox.Available(row, now, maxAttempts, lease)
  {
    var later := if row.lockedAt.Some? then row.lockedAt.value + lease * Outbox.SECOND + 1 else 0;
    assert row.attempts < maxAttempts ==> Outbox.Available(row, later, maxAttempts, lease);
  }

  /** One discrepancy per refunded payment, counted. */
  lemma {:induction false} ReportCount(db: Db, report: seq<Discrepancy>, refunded: set<string>)
    requires OneEach(db) && Distinct(report) && Corresponds(db, report, refunded)
    ensures |report| == |refunded|
  {
    hide Reports;
    if report == [] {
      assert refunded == {};
    } else {
      var front, last := report[..|report| - 1], report[|report| - 1];
      assert last in report && last !in front;
      var p :| p in refunded && Reports(db, p, last);
      forall d | d in front
        ensures exists q :: q in refunded - {p} && Reports(db, q, d)
      {
        assert d in report;
        var q :| q in refunded && Reports(db, q, d);
        assert q != p;
      }
      forall q | q in refunded - {p}
        ensures exists d :: d in front && Reports(db, q, d)
      {
        var d :| d in report && Reports(db, q, d);
        assert d != last;
      }
      ReportCount(db, front, refunded - {p});
    }
  }

  /** How many payments have a status. */
  function WithStatus(db: Db, status: PaymentStatus): nat {
    |Group(db.payments.Keys, StatusOf(db), status)|
  }

  /** The positions of the operations, and the payment each is about. */
  function Positions(operations: seq<OperationRow>): set<int> {
    set i | 0 <= i < |operations| && IsPosition(operations, i)
  }

  predicate IsPosition(operations: seq<OperationRow>, i: int) {
    0 <= i < |operations|
  }

  function PaymentAt(operations: seq<OperationRow>): int -> string {
    i => if 0 <= i < |operations| then operations[i].request.paymentId else ""
  }

  lemma {:induction false} PositionsCount(operations: seq<OperationRow>)
    ensures |Positions(operations)| == |operations|
  {
    if operations != [] {
      var front := operations[..|operations| - 1];
      PositionsCount(front);
      forall i
        ensures i in Positions(operations) <==> i in Positions(front) || i == |front|
      {
        assert IsPosition(operations, i) <==> IsPosition(front, i) || i == |front|;
      }
      assert Positions(operations) == Positions(front) + {|front|};
    }
  }

  lemma {:induction false} HistoryLength(operations: seq<OperationRow>, p: string)
    ensures |Group(Positions(operations), PaymentAt(operations), p)| == |History(operations, p)|
  {
    if operations != [] {
      var front, last := operations[..|operations| - 1], operations[|operations| - 1];
      HistoryLength(front, p);
      var all := Group(Positions(operations), PaymentAt(operations), p);
      var some := Group(Positions(front), PaymentAt(front), p);
      forall i
        ensures i in all <==> i in some || (i == |front| && last.request.paymentId == p)
      {
        assert IsPosition(operations, i) <==> IsPosition(front, i) || i == |front|;
        assert 0 <= i < |front| ==> operations[i] == front[i];
      }
      if last.request.paymentId == p {
        assert all == some + {|front|};
      } else {
        assert all == some;
      }
    }
  }

  /** How many operations a payment of a status has had. */
  function OperationsFor(status: PaymentStatus): nat {
    |HistoryFor(status)|
  }

  lemma {:induction false} WeighPayments(ids: set<string>, status: string -> PaymentStatus)
    ensures Sum(map p | p in ids :: OperationsFor(status(p)))
      == |Group(ids, status, Captured)| + 2 * |Group(ids, status, Refunded)| + |Group(ids, status, Reversed)|
    decreases ids
  {
    var weights := map p | p in ids :: OperationsFor(status(p));
    if ids == {} {
      assert weights == map[];
    } else {
      var p :| p in ids;
      var rest := ids - {p};
      WeighPayments(rest, status);
      SumPick(weights, p);
      assert weights - {p} == map q | q in rest :: OperationsFor(status(q));
      GroupWithout(ids, status, p, Captured);
      GroupWithout(ids, status, p, Refunded);
      GroupWithout(ids, status, p, Reversed);
    }
  }

  lemma GroupWithout(ids: set<string>, status: string -> PaymentStatus, p: string, s: PaymentStatus)
    requires p in ids
    ensures |Group(ids, status, s)| == |Group(ids - {p}, status, s)| + if status(p) == s then 1 else 0
  {
    if status(p) == s {
      assert Group(ids, status, s) == Group(ids - {p}, status, s) + {p};
    } else {
      assert Group(ids, status, s) == Group(ids - {p}, status, s);
    }
  }

  /** On reachable tables every recorded operation is accounted for by a payment's status: one for each
      captured or reversed payment, two for each refunded one. */
  lemma OperationsMatchStatuses(db: Db)
    requires DbInv(db)
    ensures |db.operations| == WithStatus(db, Captured) + 2 * WithStatus(db, Refunded) + WithStatus(db, Reversed)
  {
    hide EventsBacked, EntriesPlaced, JournalsBalanced, OperationsDistinct, AmountsPositive, History, Sum;
    var rows, about := Positions(db.operations), PaymentAt(db.operations);
    forall i | i in rows
      ensures about(i) in db.payments.Keys
    {
      assert RowBacked(db, db.operations[i]);
    }
    GroupsAddUp(rows, about, db.payments.Keys);
    PositionsCount(db.operations);
    forall p | p in db.payments
      ensures |Group(rows, about, p)| == OperationsFor(StatusOf(db)(p))
    {
      HistoryLength(db.operations, p);
    }
    assert Tally(rows, about, db.payments.Keys) == map p | p in db.payments.Keys :: OperationsFor(StatusOf(db)(p));
    WeighPayments(db.payments.Keys, StatusOf(db));
  }

  function OperationIdAt(operations: seq<OperationRow>): int -> Option<string> {
    i => if 0 <= i < |operations| then Some(operations[i].id) else None
  }

  function OperationOf(db: Db): string -> Option<string> {
    e => if e in db.outbox then db.outbox[e].operationId else None
  }

  /** On reachable tables there are as many events as operations. */
  lemma EventsMatchOperations(db: Db)
    requires DbInv(db)
    ensures |db.outbox| == |db.operations|
  {
    hide DbInv, EventsBacked, OperationsDistinct;
    EventsTellApart(db);
    var rows, events := Positions(db.operations), db.outbox.Keys;
    PositionsCount(db.operations);
    DistinctKeysCount(rows, OperationIdAt(db.operations));
    DistinctKeysCount(events, OperationOf(db));
    forall i | i in rows
      ensures OperationIdAt(db.operations)(i) in Keys(events, OperationOf(db))
    {
      var e := EventOfOperation(db, i);
      assert OperationOf(db)(e) == Some(db.operations[i].id);
    }
    forall e | e in events
      ensures OperationOf(db)(e) in Keys(rows, OperationIdAt(db.operations))
    {
      var i := OperationOfEvent(db, e);
      assert IsPosition(db.operations, i) && OperationIdAt(db.operations)(i) == OperationOf(db)(e);
    }
    assert Keys(events, OperationOf(db)) == Keys(rows, OperationIdAt(db.operations));
  }

  lemma EventsTellApart(db: Db)
    requires DbInv(db)
    ensures forall e, f :: e in db.outbox && f in db.outbox && OperationOf(db)(e) == OperationOf(db)(f) ==> e == f
    ensures var id := OperationIdAt(db.operations);
      forall i, j :: 0 <= i < |db.operations| && 0 <= j < |db.operations| && id(i) == id(j) ==> i == j
  {
    hide HistoriesMatch, RowsBacked, EntriesPlaced, JournalsBalanced, AmountsPositive, EventBacked, RowAnnounced;
  }

  lemma RefundedsAreGroup(db: Db)
    ensures |Refundeds(db)| == WithStatus(db, Refunded)
  {
    assert Refundeds(db) == Group(db.payments.Keys, StatusOf(db), Refunded);
  }

  /** What a snapshot of reachable tables means: one discrepancy per refunded payment; critical iff a
      payment is refunded or an event is poison; healthy iff none is and every event is published. */
  lemma SnapshotOnReachable(
    s: Snapshot, db: Db, rows: map<string, Outbox.Row>, history: seq<Observation>, maxAttempts: int,
    report: seq<Discrepancy>)
    requires DbInv(db)
    requires Describes(s, db, rows, history, maxAttempts, report)
    requires Ordered(report) && forall d :: d in report <==> Finding(db, d)
    ensures s.discrepancies == WithStatus(db, Refunded)
    ensures s.operations == WithStatus(db, Captured) + 2 * WithStatus(db, Refunded) + WithStatus(db, Reversed)
    ensures rows.Keys == db.outbox.Keys ==> |rows| == s.operations && s.unpublished <= s.operations
    ensures s.health.Critical? <==>
      || (exists p :: p in db.payments && db.payments[p].status == Refunded)
      || (exists id :: id in rows && rows[id].publishedAt.None? && rows[id].attempts >= maxAttempts)
    ensures s.health.Healthy? <==>
      && (forall p :: p in db.payments ==> db.payments[p].status != Refunded)
      && (forall id :: id in rows ==> rows[id].publishedAt.Some?)
  {
    hide DbInv, Ordered, Finding, WithStatus, MeasureNetwork, Counts, Refundeds, Unpublished, Poison;
    ReportSize(db, report);
    OperationsMatchStatuses(db);
    EventsMatchOperations(db);
    UnpublishedCount(rows);
    PublishedOrNot(rows, maxAttempts);
    SomeRefunded(db);
  }

  lemma SomeRefunded(db: Db)
    ensures Refundeds(db) != {} <==> exists p :: p in db.payments && db.payments[p].status == Refunded
  {
    if p :| p in db.payments && db.payments[p].status == Refunded {
      assert p in Refundeds(db);
    }
  }

  lemma UnpublishedCount(rows: map<string, Outbox.Row>)
    ensures |Unpublished(rows)| <= |rows|
  {
    SubsetSize(Unpublished(rows), rows.Keys);
  }

  lemma ReportSize(db: Db, report: seq<Discrepancy>)
    requires DbInv(db)
    requires Ordered(report) && forall d :: d in report <==> Finding(db, d)
    ensures |report| == WithStatus(db, Refunded)
    ensures report == [] <==> Refundeds(db) == {}
  {
    hide DbInv, Ordered, Finding, OneEach, Corresponds, Distinct, WithStatus, Refundeds;
    ReportOnReachable(db, report);
    ReportCount(db, report, Refundeds(db));
    RefundedsAreGroup(db);
  }

  lemma PublishedOrNot(rows: map<string, Outbox.Row>, maxAttempts: int)
    ensures Unpublished(rows) == {} <==> forall id :: id in rows ==> rows[id].publishedAt.Some?
    ensures Poison(rows, maxAttempts) <= Unpublished(rows)
    ensures Poison(rows, maxAttempts) != {} <==>
      exists id :: id in rows && rows[id].publishedAt.None? && rows[id].attempts >= maxAttempts
  {
    if forall id :: id in rows ==> rows[id].publishedAt.Some? {
      assert Unpublished(rows) == {};
    }
    forall id | id in rows && Unpublished(rows) == {}
      ensures rows[id].publishedAt.Some?
    {
      assert id !in Unpublished(rows);
    }
    if id :| id in rows && rows[id].publishedAt.None? && rows[id].attempts >= maxAttempts {
      assert id in Poison(rows, maxAttempts);
    }
  }

  /** What the other numbers of a snapshot count. */
  lemma SnapshotCounts(
    s: Snapshot, db: Db, rows: map<string, Outbox.Row>, history: seq<Observation>, maxAttempts: int,
    report: seq<Discrepancy>, status: PaymentStatus, kind: DiscrepancyKind)
    requires Describes(s, db, rows, history, maxAttempts, report)
    ensures status in s.byStatus <==> exists p :: p in db.payments && db.payments[p].status == status
    ensures status in s.byStatus ==>
      s.byStatus[status] == |set p | p in db.payments && db.payments[p].status == status|
    ensures kind in s.kinds <==> exists d :: d in report && d.kind == kind
    ensures kind in s.kinds ==> s.kinds[kind] == |set d | d in report && d.kind == kind|
    ensures s.unpublished == |set id | id in rows && rows[id].publishedAt.None?|
    ensures s.poison == |set id | id in rows && rows[id].publishedAt.None? && rows[id].attempts >= maxAttempts|
  {
    hide MeasureNetwork, Counts, IncidentsOf;
    StatusCounts(db, status);
    KindCounts(report, kind);
  }

  lemma StatusCounts(db: Db, status: PaymentStatus)
    ensures var counts := Counts(db.payments.Keys, StatusOf(db));
      && (status in counts <==> exists p :: p in db.payments && db.payments[p].status == status)
      && (status in counts ==> counts[status] == |set p | p in db.payments && db.payments[p].status == status|)
  {
    assert Group(db.payments.Keys, StatusOf(db), status)
      == set p | p in db.payments && db.payments[p].status == status;
    if p :| p in db.payments && db.payments[p].status == status {
      assert StatusOf(db)(p) == status;
    }
  }

  lemma KindCounts(report: seq<Discrepancy>, kind: DiscrepancyKind)
    ensures var counts := Counts((set d | d in report), KindOf);
      && (kind in counts <==> exists d :: d in report && d.kind == kind)
      && (kind in counts ==> counts[kind] == |set d | d in report && d.kind == kind|)
  {
    assert Group((set d | d in report), KindOf, kind) == set d | d in report && d.kind == kind;
    if d :| d in report && d.kind == kind {
      assert d in (set x | x in report) && KindOf(d) == kind;
    }
  }
}
