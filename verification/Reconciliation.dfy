// The read-only reconciler (app/reconciliation.py): what it reports on any tables, and exactly what
// it reports on the tables the service can reach.
module Reconciliation {
  import opened Results
  import opened Strings
  import opened Bytes
  import opened Ledger
  import opened Payments

  datatype DiscrepancyKind =
    | OperationWithoutPayment
    | OperationWithoutJournal
    | OperationWithoutOutbox
    | OutboxWithoutOperation
    | PaymentStatusMismatch
    | JournalEntryCountInvalid
    | JournalUnbalanced

  function KindValue(kind: DiscrepancyKind): string {
    match kind
    case OperationWithoutPayment => "operation_without_payment"
    case OperationWithoutJournal => "operation_without_journal"
    case OperationWithoutOutbox => "operation_without_outbox"
    case OutboxWithoutOperation => "outbox_without_operation"
    case PaymentStatusMismatch => "payment_status_mismatch"
    case JournalEntryCountInvalid => "journal_entry_count_invalid"
    case JournalUnbalanced => "journal_unbalanced"
  }

  datatype Discrepancy = Discrepancy(kind: DiscrepancyKind, entityId: string, detail: string)

  function StatusValue(status: PaymentStatus): string {
    match status
    case Pending => "pending"
    case Authorized => "authorized"
    case Captured => "captured"
    case Refunded => "refunded"
    case Reversed => "reversed"
    case Failed => "failed"
    case Cancelled => "cancelled"
  }

  function NatText(n: nat): string {
    (if n < 10 then "" else NatText(n / 10)) + [('0' as int + n % 10) as char]
  }

  function IntText(n: int): string {
    if n < 0 then "-" + NatText(-n) else NatText(n)
  }

  // ----- the seven queries -------------------------------------------------------------

  predicate HasEvent(db: Db, row: OperationRow) {
    exists e :: e in db.outbox
      && db.outbox[e].aggregateType == "payment" && db.outbox[e].aggregateId == row.request.paymentId
      && db.outbox[e].operationId == Some(row.id)
  }

  predicate HasOperation(db: Db, operationId: string) {
    exists i :: 0 <= i < |db.operations| && db.operations[i].id == operationId
  }

  function ListIf(condition: bool, d: Discrepancy): seq<Discrepancy> {
    if condition then [d] else []
  }

  /** What the four queries over operations report of one row. */
  function RowFindings(db: Db, row: OperationRow): (s: seq<Discrepancy>)
  {
    var p := row.request.paymentId;
    ListIf(p !in db.payments, Discrepancy(OperationWithoutPayment, row.id, "payment " + p + " is missing"))
    + ListIf(row.journalId !in db.journals,
             Discrepancy(OperationWithoutJournal, row.id, "journal " + row.journalId + " is missing"))
    + ListIf(!HasEvent(db, row),
             Discrepancy(OperationWithoutOutbox, row.id, "transactional outbox event is missing"))
    + if p in db.payments then ListIf(db.payments[p].status != row.toStatus, MismatchOf(db.payments[p].status, row))
      else []
  }

  function MismatchOf(status: PaymentStatus, row: OperationRow): Discrepancy {
    Discrepancy(PaymentStatusMismatch, row.id,
                "payment status " + StatusValue(status) + " != operation target " + StatusValue(row.toStatus))
  }

  function EventFindings(db: Db, id: string): (s: seq<Discrepancy>)
    requires id in db.outbox
  {
    var event := db.outbox[id];
    if event.aggregateType != "payment" || event.operationId.None? then []
    else
      ListIf(!HasOperation(db, event.operationId.value),
             Discrepancy(OutboxWithoutOperation, id, "operation " + event.operationId.value + " is missing"))
  }

  function JournalFindings(db: Db, id: string): (s: seq<Discrepancy>)
  {
    var rows := Rows(EntriesOf(db.entries, id));
    var debits, credits := SideTotal(rows, Debit), SideTotal(rows, Credit);
    ListIf(|rows| < 2,
           Discrepancy(JournalEntryCountInvalid, id, "journal has " + NatText(|rows|) + " entries"))
    + ListIf(debits != credits,
             Discrepancy(JournalUnbalanced, id, "debits=" + IntText(debits) + ", credits=" + IntText(credits)))
  }

  /** Everything the reconciler reports, as a set. */
  ghost predicate Finding(db: Db, d: Discrepancy) {
    || (exists i :: 0 <= i < |db.operations| && d in RowFindings(db, db.operations[i]))
    || (exists e :: e in db.outbox && d in EventFindings(db, e))
    || (exists j :: j in db.journals && d in JournalFindings(db, j))
  }

  // ----- the order of the report -------------------------------------------------------

  /** The sort key of the report: kind value, entity, detail. */
  predicate Before(a: Discrepancy, b: Discrepancy) {
    || TextLess(KindValue(a.kind), KindValue(b.kind))
    || (KindValue(a.kind) == KindValue(b.kind)
        && (TextLess(a.entityId, b.entityId)
            || (a.entityId == b.entityId && TextLess(a.detail, b.detail))))
  }

  lemma KindValueInjective(a: DiscrepancyKind, b: DiscrepancyKind)
    requires KindValue(a) == KindValue(b)
    ensures a == b
  {
    assert |KindValue(a)| == |KindValue(b)|;
    if a.OperationWithoutPayment? || a.OperationWithoutJournal? {
      assert KindValue(a)[18] == KindValue(b)[18];
    }
  }

  lemma BeforeTotal(a: Discrepancy, b: Discrepancy)
    ensures a == b || Before(a, b) || Before(b, a)
    ensures !(Before(a, b) && Before(b, a)) && !Before(a, a)
  {
    hide TextLess, KindValue;
    TextLessTotal(KindValue(a.kind), KindValue(b.kind));
    TextLessTotal(KindValue(a.kind), KindValue(a.kind));
    TextLessTotal(a.entityId, b.entityId);
    TextLessTotal(a.entityId, a.entityId);
    TextLessTotal(a.detail, b.detail);
    TextLessTotal(a.detail, a.detail);
    if KindValue(a.kind) == KindValue(b.kind) {
      KindValueInjective(a.kind, b.kind);
    }
  }

  lemma BeforeTransitive(a: Discrepancy, b: Discrepancy, c: Discrepancy)
    requires Before(a, b) && Before(b, c)
    ensures Before(a, c)
  {
    hide TextLess, KindValue;
    if TextLess(KindValue(a.kind), KindValue(b.kind)) && TextLess(KindValue(b.kind), KindValue(c.kind)) {
      TextLessTransitive(KindValue(a.kind), KindValue(b.kind), KindValue(c.kind));
    }
    if TextLess(a.entityId, b.entityId) && TextLess(b.entityId, c.entityId) {
      TextLessTransitive(a.entityId, b.entityId, c.entityId);
    }
    if TextLess(a.detail, b.detail) && TextLess(b.detail, c.detail) {
      TextLessTransitive(a.detail, b.detail, c.detail);
    }
  }

  predicate Ordered(report: seq<Discrepancy>) {
    forall i, j :: 0 <= i < j < |report| ==> Before(report[i], report[j])
  }

  /** The first discrepancy of an ordered report comes before the rest, and is not among it. */
  lemma OrderedHead(a: seq<Discrepancy>)
    requires Ordered(a) && a != []
    ensures forall d :: d in a ==> d == a[0] || Before(a[0], d)
    ensures forall d :: d in a[1..] <==> d in a && d != a[0]
    ensures Ordered(a[1..])
  {
    hide Before;
    forall d | d in a[1..]
      ensures Before(a[0], d) && d != a[0]
    {
      var i :| 0 <= i < |a| - 1 && a[1..][i] == d;
      assert a[i + 1] == d;
      BeforeTotal(d, d);
    }
    assert a == [a[0]] + a[1..];
  }

  lemma HeadIsMember(b: seq<Discrepancy>)
    ensures b == [] || b[0] in b
  {
  }

  /** Two ordered reports with the same members are the same report. */
  lemma {:induction false} OrderedUnique(a: seq<Discrepancy>, b: seq<Discrepancy>)
    requires Ordered(a) && Ordered(b) && forall d :: d in a <==> d in b
    ensures a == b
  {
    hide Before, Ordered;
    if a == [] {
      HeadIsMember(b);
    } else {
      assert a[0] in a && a[0] in b;
      OrderedHead(a);
      OrderedHead(b);
      assert b[0] in b && b[0] in a;
      BeforeTotal(a[0], b[0]);
      OrderedUnique(a[1..], b[1..]);
      assert a == [a[0]] + a[1..] && b == [b[0]] + b[1..];
    }
  }

  // ----- inspect -----------------------------------------------------------------------

  /** One insertion of the final sort. */
  method Insert(report: seq<Discrepancy>, d: Discrepancy) returns (longer: seq<Discrepancy>)
    requires Ordered(report) && d !in report
    ensures Ordered(longer)
    ensures forall x :: x in longer <==> x == d || x in report
  {
    hide Before, KindValue;
    var i := 0;
    while i < |report| && Before(report[i], d)
      invariant 0 <= i <= |report|
      invariant forall k :: 0 <= k < i ==> Before(report[k], d)
    {
      i := i + 1;
    }
    longer := report[..i] + [d] + report[i..];
    InsertedOrdered(report, d, i);
    assert report == report[..i] + report[i..];
  }

  lemma InsertedOrdered(report: seq<Discrepancy>, d: Discrepancy, i: nat)
    requires Ordered(report) && d !in report && i <= |report|
    requires forall k :: 0 <= k < i ==> Before(report[k], d)
    requires i < |report| ==> !Before(report[i], d)
    ensures Ordered(report[..i] + [d] + report[i..])
  {
    hide Before;
    forall k | i <= k < |report|
      ensures Before(d, report[k])
    {
      BeforeTotal(d, report[i]);
      if k > i {
        assert Before(report[i], report[k]);
        BeforeTransitive(d, report[i], report[k]);
      }
    }
  }

  /** `discrepancies.sort(key=...)`. */
  method Sort(found: seq<Discrepancy>) returns (report: seq<Discrepancy>)
    requires Distinct(found)
    ensures Ordered(report)
    ensures forall d :: d in report <==> d in found
  {
    hide Ordered, Before;
    report := [];
    EmptyOrdered();
    for i := 0 to |found|
      invariant Ordered(report)
      invariant forall d :: d in report <==> d in found[..i]
    {
      assert found[i] !in found[..i];
      report := Insert(report, found[i]);
      assert found[..i + 1] == found[..i] + [found[i]];
    }
    assert found[..|found|] == found;
  }

  lemma EmptyOrdered()
    ensures Ordered([])
  {
  }

  predicate Distinct(found: seq<Discrepancy>) {
    forall i, j :: 0 <= i < j < |found| ==> found[i] != found[j]
  }

  /** The table whose rows a kind of discrepancy names. */
  function TableOf(kind: DiscrepancyKind): nat {
    if kind == OutboxWithoutOperation then 1
    else if kind == JournalEntryCountInvalid || kind == JournalUnbalanced then 2
    else 0
  }

  lemma RowFindingsNameRow(db: Db, row: OperationRow, d: Discrepancy)
    requires d in RowFindings(db, row)
    ensures d.entityId == row.id && TableOf(d.kind) == 0
  {
    hide HasEvent, StatusValue;
  }

  lemma EventFindingsNameEvent(db: Db, e: string, d: Discrepancy)
    requires e in db.outbox && d in EventFindings(db, e)
    ensures d.entityId == e && TableOf(d.kind) == 1
  {
  }

  lemma JournalFindingsNameJournal(db: Db, j: string, d: Discrepancy)
    requires d in JournalFindings(db, j)
    ensures d.entityId == j && TableOf(d.kind) == 2
  {
    hide NatText, IntText, EntriesOf;
  }

  lemma FindingsDistinct(db: Db)
    ensures forall row :: Distinct(RowFindings(db, row))
    ensures forall e :: e in db.outbox ==> Distinct(EventFindings(db, e))
    ensures forall j :: Distinct(JournalFindings(db, j))
  {
    hide HasEvent, NatText, IntText, EntriesOf;
  }

  /** Everything found so far names a row of the table being read that was already visited, or an earlier table. */
  ghost predicate Visited(found: seq<Discrepancy>, table: nat, seen: set<string>) {
    forall d :: d in found ==> TableOf(d.kind) < table || (TableOf(d.kind) == table && d.entityId in seen)
  }

  lemma DistinctAppend(found: seq<Discrepancy>, more: seq<Discrepancy>, table: nat, seen: set<string>, id: string)
    requires Distinct(found) && Distinct(more) && Visited(found, table, seen) && id !in seen
    requires forall d :: d in more ==> d.entityId == id && TableOf(d.kind) == table
    ensures Distinct(found + more) && Visited(found + more, table, seen + {id})
  {
    hide TableOf;
    var all := found + more;
    forall i, j | 0 <= i < j < |all|
      ensures all[i] != all[j]
    {
      if i < |found| <= j {
        assert all[i] in found && all[j] in more;
      }
    }
  }

  function IdsUpTo(db: Db, n: nat): set<string>
    requires n <= |db.operations|
  {
    set k | 0 <= k < n :: db.operations[k].id
  }

  /** `id` is the primary key of payment_operations. */
  predicate OperationIdsUnique(db: Db) {
    forall i, j :: 0 <= i < j < |db.operations| ==> db.operations[i].id != db.operations[j].id
  }

  ghost predicate FoundInRows(db: Db, n: nat, d: Discrepancy)
    requires n <= |db.operations|
  {
    exists k :: 0 <= k < n && d in RowFindings(db, db.operations[k])
  }

  ghost predicate FoundInEvents(db: Db, events: set<string>, d: Discrepancy) {
    exists e :: e in events && e in db.outbox && d in EventFindings(db, e)
  }

  ghost predicate FoundInJournals(db: Db, journals: set<string>, d: Discrepancy) {
    exists j :: j in journals && d in JournalFindings(db, j)
  }

  lemma Begin(db: Db)
    ensures Distinct([]) && Visited([], 0, IdsUpTo(db, 0))
    ensures forall d :: !FoundInRows(db, 0, d)
    ensures forall d :: !FoundInEvents(db, {}, d) && !FoundInJournals(db, {}, d)
  {
  }

  lemma NextRow(db: Db, found: seq<Discrepancy>, i: nat)
    requires OperationIdsUnique(db) && i < |db.operations|
    requires Distinct(found) && Visited(found, 0, IdsUpTo(db, i))
    ensures Distinct(found + RowFindings(db, db.operations[i]))
    ensures Visited(found + RowFindings(db, db.operations[i]), 0, IdsUpTo(db, i + 1))
    ensures forall d :: FoundInRows(db, i + 1, d) <==> FoundInRows(db, i, d) || d in RowFindings(db, db.operations[i])
  {
    hide RowFindings, Distinct, Visited, TableOf;
    var id := db.operations[i].id;
    FindingsDistinct(db);
    forall d | d in RowFindings(db, db.operations[i])
      ensures d.entityId == id && TableOf(d.kind) == 0
    {
      RowFindingsNameRow(db, db.operations[i], d);
    }
    DistinctAppend(found, RowFindings(db, db.operations[i]), 0, IdsUpTo(db, i), id);
    assert IdsUpTo(db, i + 1) == IdsUpTo(db, i) + {id};
  }

  lemma NextEvent(db: Db, found: seq<Discrepancy>, seen: set<string>, e: string)
    requires e in db.outbox && e !in seen
    requires Distinct(found) && Visited(found, 1, seen)
    ensures Distinct(found + EventFindings(db, e)) && Visited(found + EventFindings(db, e), 1, seen + {e})
    ensures forall d :: FoundInEvents(db, seen + {e}, d) <==> FoundInEvents(db, seen, d) || d in EventFindings(db, e)
  {
    hide EventFindings, Distinct, Visited, TableOf;
    FindingsDistinct(db);
    forall d | d in EventFindings(db, e)
      ensures d.entityId == e && TableOf(d.kind) == 1
    {
      EventFindingsNameEvent(db, e, d);
    }
    DistinctAppend(found, EventFindings(db, e), 1, seen, e);
  }

  lemma NextJournal(db: Db, found: seq<Discrepancy>, seen: set<string>, j: string)
    requires j !in seen
    requires Distinct(found) && Visited(found, 2, seen)
    ensures Distinct(found + JournalFindings(db, j)) && Visited(found + JournalFindings(db, j), 2, seen + {j})
    ensures forall d ::
      FoundInJournals(db, seen + {j}, d) <==> FoundInJournals(db, seen, d) || d in JournalFindings(db, j)
  {
    hide JournalFindings, Distinct, Visited, TableOf;
    FindingsDistinct(db);
    forall d | d in JournalFindings(db, j)
      ensures d.entityId == j && TableOf(d.kind) == 2
    {
      JournalFindingsNameJournal(db, j, d);
    }
    DistinctAppend(found, JournalFindings(db, j), 2, seen, j);
  }

  lemma NextTable(db: Db, found: seq<Discrepancy>, table: nat, seen: set<string>)
    requires Visited(found, table, seen)
    ensures Visited(found, table + 1, {})
  {
    hide TableOf;
  }

  lemma FindingByTable(db: Db)
    ensures forall d :: Finding(db, d) <==>
      || FoundInRows(db, |db.operations|, d)
      || FoundInEvents(db, db.outbox.Keys, d)
      || FoundInJournals(db, db.journals.Keys, d)
  {
    hide RowFindings, EventFindings, JournalFindings;
  }

  /** `PostgresReconciler.inspect`: the rows of a table are visited in any order. The report lists
      each finding once, and it is ordered, so it does not depend on that order. */
  method Inspect(db: Db) returns (report: seq<Discrepancy>)
    requires OperationIdsUnique(db)
    ensures Ordered(report)
    ensures forall d :: d in report <==> Finding(db, d)
  {
    hide RowFindings, EventFindings, JournalFindings, Ordered, FoundInRows, FoundInEvents, FoundInJournals,
      Visited, Distinct, TableOf, Finding;
    FindingsDistinct(db);
    var found: seq<Discrepancy> := [];
    Begin(db);
    for i := 0 to |db.operations|
      invariant Distinct(found) && Visited(found, 0, IdsUpTo(db, i))
      invariant forall d :: d in found <==> FoundInRows(db, i, d)
    {
      NextRow(db, found, i);
      found := found + RowFindings(db, db.operations[i]);
    }
    NextTable(db, found, 0, IdsUpTo(db, |db.operations|));
    var events := db.outbox.Keys;
    assert db.outbox.Keys - events == {};
    while events != {}
      invariant events <= db.outbox.Keys && Distinct(found) && Visited(found, 1, db.outbox.Keys - events)
      invariant forall d :: d in found <==>
        FoundInRows(db, |db.operations|, d) || FoundInEvents(db, db.outbox.Keys - events, d)
      decreases events
    {
      var e :| e in events;
      NextEvent(db, found, db.outbox.Keys - events, e);
      found := found + EventFindings(db, e);
      var rest := events - {e};
      assert db.outbox.Keys - rest == db.outbox.Keys - events + {e};
      events := rest;
    }
    assert db.outbox.Keys - events == db.outbox.Keys;
    NextTable(db, found, 1, db.outbox.Keys);
    var journals := db.journals.Keys;
    assert db.journals.Keys - journals == {};
    while journals != {}
      invariant journals <= db.journals.Keys && Distinct(found) && Visited(found, 2, db.journals.Keys - journals)
      invariant forall d :: d in found <==>
        FoundInRows(db, |db.operations|, d) || FoundInEvents(db, db.outbox.Keys, d)
        || FoundInJournals(db, db.journals.Keys - journals, d)
      decreases journals
    {
      var j :| j in journals;
      NextJournal(db, found, db.journals.Keys - journals, j);
      found := found + JournalFindings(db, j);
      var rest := journals - {j};
      assert db.journals.Keys - rest == db.journals.Keys - journals + {j};
      journals := rest;
    }
    assert db.journals.Keys - journals == db.journals.Keys;
    report := Sort(found);
    FindingByTable(db);
  }

  // ----- what the findings are, on any tables ------------------------------------------

  predicate EventTellsRow(event: Event, row: OperationRow) {
    event.aggregateType == "payment" && event.aggregateId == row.request.paymentId && event.operationId == Some(row.id)
  }

  /** What is wrong with an operation: its payment, its journal or its event is not there, or the payment
      has another status. */
  predicate RowWrong(db: Db, row: OperationRow, d: Discrepancy) {
    var p := row.request.paymentId;
    && d.entityId == row.id
    && match d.kind
       case OperationWithoutPayment => p !in db.payments && d.detail == "payment " + p + " is missing"
       case OperationWithoutJournal =>
         row.journalId !in db.journals && d.detail == "journal " + row.journalId + " is missing"
       case OperationWithoutOutbox =>
         && (forall e :: e in db.outbox ==> !EventTellsRow(db.outbox[e], row))
         && d.detail == "transactional outbox event is missing"
       case PaymentStatusMismatch =>
         && p in db.payments && db.payments[p].status != row.toStatus
         && d.detail == "payment status " + StatusValue(db.payments[p].status) + " != operation target "
                        + StatusValue(row.toStatus)
       case _ => false
  }

  /** What is wrong with an event: it is a payment's, names an operation, and there is none of that id. */
  predicate EventWrong(db: Db, id: string, d: Discrepancy)
    requires id in db.outbox
  {
    var event := db.outbox[id];
    && d.kind == OutboxWithoutOperation && d.entityId == id
    && event.aggregateType == "payment" && event.operationId.Some?
    && (forall i :: 0 <= i < |db.operations| ==> db.operations[i].id != event.operationId.value)
    && d.detail == "operation " + event.operationId.value + " is missing"
  }

  /** What is wrong with a journal: fewer than two entries, or sides that differ. */
  predicate JournalWrong(db: Db, id: string, d: Discrepancy) {
    var rows := Rows(EntriesOf(db.entries, id));
    && d.entityId == id
    && match d.kind
       case JournalEntryCountInvalid => |rows| < 2 && d.detail == "journal has " + NatText(|rows|) + " entries"
       case JournalUnbalanced =>
         && SideTotal(rows, Debit) != SideTotal(rows, Credit)
         && d.detail == "debits=" + IntText(SideTotal(rows, Debit)) + ", credits=" + IntText(SideTotal(rows, Credit))
       case _ => false
  }

  lemma RowFindingsExactly(db: Db, row: OperationRow, d: Discrepancy)
    ensures d in RowFindings(db, row) <==> RowWrong(db, row, d)
  {
    hide StatusValue;
    if HasEvent(db, row) {
      var e :| e in db.outbox && EventTellsRow(db.outbox[e], row);
    }
  }

  lemma EventFindingsExactly(db: Db, id: string, d: Discrepancy)
    requires id in db.outbox
    ensures d in EventFindings(db, id) <==> EventWrong(db, id, d)
  {
  }

  lemma JournalFindingsExactly(db: Db, id: string, d: Discrepancy)
    ensures d in JournalFindings(db, id) <==> JournalWrong(db, id, d)
  {
    hide NatText, IntText, EntriesOf, SideTotal;
  }

  /** On any tables, the findings are exactly what is wrong with some operation, event or journal. */
  lemma FindingsExactly(db: Db, d: Discrepancy)
    ensures Finding(db, d) <==>
      || (exists i :: 0 <= i < |db.operations| && RowWrong(db, db.operations[i], d))
      || (exists e :: e in db.outbox && EventWrong(db, e, d))
      || (exists j :: j in db.journals && JournalWrong(db, j, d))
  {
    hide RowFindings, EventFindings, JournalFindings, RowWrong, EventWrong, JournalWrong;
    forall i | 0 <= i < |db.operations|
      ensures d in RowFindings(db, db.operations[i]) <==> RowWrong(db, db.operations[i], d)
    {
      RowFindingsExactly(db, db.operations[i], d);
    }
    forall e | e in db.outbox
      ensures d in EventFindings(db, e) <==> EventWrong(db, e, d)
    {
      EventFindingsExactly(db, e, d);
    }
    forall j | j in db.journals
      ensures d in JournalFindings(db, j) <==> JournalWrong(db, j, d)
    {
      JournalFindingsExactly(db, j, d);
    }
  }

  /** The order of a report: by the kind's name, then by entity, then by detail. */
  lemma OrderedExactly(report: seq<Discrepancy>, i: nat, j: nat)
    requires Ordered(report) && i < j < |report|
    ensures var a, b := report[i], report[j];
      && (a.kind != b.kind ==> TextLess(KindValue(a.kind), KindValue(b.kind)))
      && (a.kind == b.kind && a.entityId != b.entityId ==> TextLess(a.entityId, b.entityId))
      && (a.kind == b.kind && a.entityId == b.entityId ==> TextLess(a.detail, b.detail))
  {
    hide TextLess, KindValue;
    assert Before(report[i], report[j]);
    TextLessIrreflexive(KindValue(report[i].kind));
    TextLessIrreflexive(report[i].entityId);
    if report[i].kind != report[j].kind && KindValue(report[i].kind) == KindValue(report[j].kind) {
      KindValueInjective(report[i].kind, report[j].kind);
    }
  }

  /** The names of the kinds and of the statuses. */
  lemma Names(kind: DiscrepancyKind, status: PaymentStatus)
    ensures (kind, KindValue(kind)) in {
      (OperationWithoutPayment, "operation_without_payment"), (OperationWithoutJournal, "operation_without_journal"),
      (OperationWithoutOutbox, "operation_without_outbox"), (OutboxWithoutOperation, "outbox_without_operation"),
      (PaymentStatusMismatch, "payment_status_mismatch"), (JournalEntryCountInvalid, "journal_entry_count_invalid"),
      (JournalUnbalanced, "journal_unbalanced")}
    ensures (status, StatusValue(status)) in {
      (Pending, "pending"), (Authorized, "authorized"), (Captured, "captured"), (Refunded, "refunded"),
      (Reversed, "reversed"), (Failed, "failed"), (Cancelled, "cancelled")}
  {
  }

  /** A number is written in decimal digits, without leading zeros. */
  lemma {:induction false} NatTextExactly(n: nat)
    ensures AllDigits(NatText(n)) && DecimalValue(NatText(n)) == n
    ensures NatText(n) != "" && (NatText(n)[0] == '0' ==> NatText(n) == "0")
  {
    hide DecimalValue;
    var front := if n < 10 then "" else NatText(n / 10);
    if n >= 10 {
      NatTextExactly(n / 10);
    } else {
      EmptyDecimal();
    }
    DecimalSnoc(front, ('0' as int + n % 10) as char);
    if n < 10 {
      assert NatText(n) == [('0' as int + n) as char];
    }
  }

  /** A sum is written with its sign only when it is negative. */
  lemma IntTextExactly(n: int)
    ensures n >= 0 ==> AllDigits(IntText(n)) && DecimalValue(IntText(n)) == n
    ensures n < 0 ==>
      && IntText(n) != "" && IntText(n)[0] == '-'
      && AllDigits(IntText(n)[1..]) && DecimalValue(IntText(n)[1..]) == -n
  {
    hide NatText, DecimalValue;
    NatTextExactly(if n < 0 then -n else n);
  }

  // ----- what it reports on reachable tables -------------------------------------------

  /** An operation whose payment has since been refunded: the only kind of row reported. */
  predicate Superseded(db: Db, row: OperationRow) {
    && row.request.operation == Capture
    && row.request.paymentId in db.payments
    && db.payments[row.request.paymentId].status == Refunded
  }

  /** Row `i` is the superseded capture of payment `p`. */
  predicate SupersededBy(db: Db, p: string, i: int) {
    0 <= i < |db.operations| && Superseded(db, db.operations[i]) && db.operations[i].request.paymentId == p
  }

  ghost predicate SupersededMismatch(db: Db, d: Discrepancy) {
    exists i :: 0 <= i < |db.operations| && MismatchAt(db, i, d)
  }

  predicate MismatchAt(db: Db, i: nat, d: Discrepancy)
    requires i < |db.operations|
  {
    Superseded(db, db.operations[i]) && d == MismatchOf(Refunded, db.operations[i])
  }

  lemma ReachableRowFindings(db: Db, i: nat)
    requires DbInv(db) && i < |db.operations|
    ensures RowFindings(db, db.operations[i])
      == if Superseded(db, db.operations[i]) then [MismatchOf(Refunded, db.operations[i])] else []
  {
    hide EntriesPlaced, JournalsBalanced, AmountsPositive, OperationsDistinct, EventsBacked, EntriesOf, MismatchOf;
    var row := db.operations[i];
    var p := row.request.paymentId;
    assert RowBacked(db, row);
    HistoryHas(db.operations, p, row.request.operation, i);
    ReachableEvent(db, i);
  }

  lemma ReachableEvent(db: Db, i: nat)
    requires DbInv(db) && i < |db.operations|
    ensures HasEvent(db, db.operations[i])
  {
    hide HistoriesMatch, RowsBacked, EntriesPlaced, JournalsBalanced, AmountsPositive;
    var row := db.operations[i];
    assert RowAnnounced(db, row);
    var e :| e in db.outbox && db.outbox[e].operationId == Some(row.id);
    assert EventBacked(db, db.outbox[e]);
  }

  lemma ReachableEventFindings(db: Db, e: string)
    requires DbInv(db) && e in db.outbox
    ensures EventFindings(db, e) == []
  {
    hide HistoriesMatch, RowsBacked, EntriesPlaced, JournalsBalanced, AmountsPositive, OperationsDistinct;
    assert EventBacked(db, db.outbox[e]);
  }

  lemma ReachableJournalFindings(db: Db, j: string)
    requires DbInv(db) && j in db.journals
    ensures JournalFindings(db, j) == []
  {
    hide HistoriesMatch, RowsBacked, EntriesPlaced, EventsBacked, AmountsPositive, OperationsDistinct, SideTotal,
      EntriesOf, NatText, IntText;
  }

  /** On reachable tables the findings are exactly the superseded captures of refunded payments. */
  lemma FindingsOnReachable(db: Db, d: Discrepancy)
    requires DbInv(db)
    ensures Finding(db, d) <==> SupersededMismatch(db, d)
  {
    hide DbInv, RowFindings, EventFindings, JournalFindings, MismatchOf, Superseded;
    forall i | 0 <= i < |db.operations|
      ensures d in RowFindings(db, db.operations[i]) <==> MismatchAt(db, i, d)
    {
      ReachableRowFindings(db, i);
    }
    forall e | e in db.outbox
      ensures d !in EventFindings(db, e)
    {
      ReachableEventFindings(db, e);
    }
    forall j | j in db.journals
      ensures d !in JournalFindings(db, j)
    {
      ReachableJournalFindings(db, j);
    }
  }

  predicate IsRowOf(row: OperationRow, p: string, op: PaymentOperation) {
    row.request.paymentId == p && row.request.operation == op
  }

  lemma {:induction false} HistoryWitness(operations: seq<OperationRow>, p: string, op: PaymentOperation)
    requires op in History(operations, p)
    ensures exists i :: 0 <= i < |operations| && IsRowOf(operations[i], p, op)
  {
    var front, last := operations[..|operations| - 1], operations[|operations| - 1];
    if !IsRowOf(last, p, op) {
      HistoryWitness(front, p, op);
      var i :| 0 <= i < |front| && IsRowOf(front[i], p, op);
      assert operations[i] == front[i];
    }
  }

  /** A refunded payment has a superseded capture. */
  lemma RefundedHasCapture(db: Db, p: string)
    requires DbInv(db) && p in Refundeds(db)
    ensures exists i :: SupersededBy(db, p, i)
  {
    hide DbInv, History;
    RefundedHistory(db, p);
    HistoryWitness(db.operations, p, Capture);
    var i :| 0 <= i < |db.operations| && IsRowOf(db.operations[i], p, Capture);
    assert SupersededBy(db, p, i);
  }

  lemma RefundedHistory(db: Db, p: string)
    requires DbInv(db) && p in Refundeds(db)
    ensures History(db.operations, p) == [Capture, Refund]
  {
    hide RowsBacked, EventsBacked, EntriesPlaced, JournalsBalanced, OperationsDistinct, AmountsPositive, History;
  }

  /** It has no other. */
  lemma OneCapture(db: Db, p: string, i: int, j: int)
    requires DbInv(db) && SupersededBy(db, p, i) && SupersededBy(db, p, j)
    ensures i == j
  {
    hide DbInv;
    AtMostOneCommit(db, i, j);
  }

  function Refundeds(db: Db): set<string> {
    set p | p in db.payments && db.payments[p].status == Refunded
  }

  /** `d` is the mismatch of the superseded capture of payment `p`. */
  ghost predicate Reports(db: Db, p: string, d: Discrepancy) {
    exists i :: SupersededBy(db, p, i) && d == MismatchOf(Refunded, db.operations[i])
  }

  /** Every listed discrepancy is about one of the payments, and each of these is listed. */
  ghost predicate Corresponds(db: Db, report: seq<Discrepancy>, payments: set<string>) {
    && (forall d :: d in report ==> exists p :: p in payments && Reports(db, p, d))
    && (forall p :: p in payments ==> exists d :: d in report && Reports(db, p, d))
  }

  /** No discrepancy is about two payments, and no payment is the subject of two. */
  ghost predicate OneEach(db: Db) {
    && (forall p, q, d :: Reports(db, p, d) && Reports(db, q, d) ==> p == q)
    && (forall p, d, e :: Reports(db, p, d) && Reports(db, p, e) ==> d == e)
  }

  /** On reachable tables the report is one mismatch per refunded payment, so it is clean exactly
      when no payment is refunded. */
  lemma ReportOnReachable(db: Db, report: seq<Discrepancy>)
    requires DbInv(db)
    requires Ordered(report) && forall d :: d in report <==> Finding(db, d)
    ensures Corresponds(db, report, Refundeds(db)) && OneEach(db) && Distinct(report)
    ensures report == [] <==> Refundeds(db) == {}
  {
    hide DbInv, Ordered, Finding, Reports, Refundeds;
    forall d | d in report
      ensures exists p :: p in Refundeds(db) && Reports(db, p, d)
    {
      ReportedIsRefunded(db, d);
    }
    forall p | p in Refundeds(db)
      ensures exists d :: d in report && Reports(db, p, d)
    {
      RefundedIsReported(db, p);
    }
    forall p, q, d | Reports(db, p, d) && Reports(db, q, d)
      ensures p == q
    {
      OneSubject(db, p, q, d);
    }
    forall p, d, e | Reports(db, p, d) && Reports(db, p, e)
      ensures d == e
    {
      OneReport(db, p, d, e);
    }
    forall k, m | 0 <= k < m < |report|
      ensures report[k] != report[m]
    {
      OrderedDistinct(report, k, m);
    }
    HeadIsMember(report);
    assert Refundeds(db) == {} || exists p :: p in Refundeds(db);
  }

  lemma ReportedIsRefunded(db: Db, d: Discrepancy)
    requires DbInv(db) && Finding(db, d)
    ensures exists p :: p in Refundeds(db) && Reports(db, p, d)
  {
    hide DbInv, Finding, MismatchOf;
    FindingsOnReachable(db, d);
    var i :| 0 <= i < |db.operations| && MismatchAt(db, i, d);
    var p := db.operations[i].request.paymentId;
    assert SupersededBy(db, p, i) && p in Refundeds(db);
  }

  lemma RefundedIsReported(db: Db, p: string)
    requires DbInv(db) && p in Refundeds(db)
    ensures exists d :: Finding(db, d) && Reports(db, p, d)
  {
    hide DbInv, Finding, MismatchOf;
    RefundedHasCapture(db, p);
    var i :| SupersededBy(db, p, i);
    var d := MismatchOf(Refunded, db.operations[i]);
    assert MismatchAt(db, i, d);
    FindingsOnReachable(db, d);
  }

  lemma OrderedDistinct(report: seq<Discrepancy>, k: nat, m: nat)
    requires Ordered(report) && k < m < |report|
    ensures report[k] != report[m]
  {
    hide Before;
    BeforeTotal(report[k], report[m]);
  }

  lemma OneSubject(db: Db, p: string, q: string, d: Discrepancy)
    requires DbInv(db) && Reports(db, p, d) && Reports(db, q, d)
    ensures p == q
  {
    assert OperationsDistinct(db);
    hide DbInv, Superseded;
    var i :| SupersededBy(db, p, i) && d == MismatchOf(Refunded, db.operations[i]);
    var j :| SupersededBy(db, q, j) && d == MismatchOf(Refunded, db.operations[j]);
    SameId(db, i, j);
  }

  lemma SameId(db: Db, i: nat, j: nat)
    requires OperationsDistinct(db) && i < |db.operations| && j < |db.operations|
    requires db.operations[i].id == db.operations[j].id
    ensures i == j
  {
  }

  lemma OneReport(db: Db, p: string, d: Discrepancy, e: Discrepancy)
    requires DbInv(db) && Reports(db, p, d) && Reports(db, p, e)
    ensures d == e
  {
    hide DbInv, MismatchOf;
    var i :| SupersededBy(db, p, i) && d == MismatchOf(Refunded, db.operations[i]);
    var j :| SupersededBy(db, p, j) && e == MismatchOf(Refunded, db.operations[j]);
    OneCapture(db, p, i, j);
  }

  /** The report is a function of the tables: any ordered listing of the findings is the same one. */
  lemma ReportUnique(db: Db, report: seq<Discrepancy>, other: seq<Discrepancy>)
    requires Ordered(report) && forall d :: d in report <==> Finding(db, d)
    requires Ordered(other) && forall d :: d in other <==> Finding(db, d)
    ensures report == other
  {
    hide Finding, Ordered;
    OrderedUnique(report, other);
  }

  function CaptureAndRefund(): seq<Action> {
    [CreatePayment("p", 5, "EUR"), Authorize("p"), OpenAccount("a", "EUR"), OpenAccount("b", "EUR"),
     Operate(Request("p", Capture, "a", "b"), "k1", Ids("o1", "j1", "e1")),
     Operate(Request("p", Refund, "b", "a"), "k2", Ids("o2", "j2", "e2"))]
  }

  /** The tables can reach a report that is not clean, without any fault: after an ordinary refund. */
  lemma RefundIsNeverClean(report: seq<Discrepancy>)
    requires var db := Run(EMPTY, CaptureAndRefund());
      Ordered(report) && forall d :: d in report <==> Finding(db, d)
    ensures report != []
  {
    hide DbInv, Ordered, Finding;
    ReachableInv(CaptureAndRefund());
    ReportOnReachable(Run(EMPTY, CaptureAndRefund()), report);
    RefundReached();
  }

  lemma UpperEur()
    ensures Upper("EUR") == "EUR"
  {
  }

  lemma RunByStep(db: Db, actions: seq<Action>)
    requires actions != []
    ensures Run(db, actions) == Step(Run(db, actions[..|actions| - 1]), actions[|actions| - 1])
  {
    hide Step, Run;
    var front, last := actions[..|actions| - 1], actions[|actions| - 1];
    assert actions == front + [last];
    RunConcat(db, front, [last]);
    RunOne(Run(db, front), last);
  }

  /** The tables before the capture. */
  function Opened(): Db {
    EMPTY.(payments := map["p" := Payment(Authorized, 5, "EUR")], accounts := map["a" := "EUR", "b" := "EUR"])
  }

  lemma OpenedReached()
    ensures Run(EMPTY, CaptureAndRefund()[..4]) == Opened()
  {
    hide Execute, Upper, PostAnswer;
    UpperEur();
    var s := CaptureAndRefund()[..4];
    assert s[1..][0] == Authorize("p") && s[1..][1..][0] == OpenAccount("a", "EUR");
    assert s[1..][1..][1..] == [OpenAccount("b", "EUR")];
    RunOne(Step(Step(Step(EMPTY, s[0]), s[1]), s[2]), s[3]);
    assert Run(EMPTY, s) == Step(Step(Step(Step(EMPTY, s[0]), s[1]), s[2]), s[3]);
  }

  /** The tables after the capture and the refund. */
  lemma RefundReached()
    ensures "p" in Refundeds(Run(EMPTY, CaptureAndRefund()))
  {
    hide Run, Upper, EntriesFor, EventFor, ReferenceOf, Answer;
    var s := CaptureAndRefund();
    OpenedReached();
    RunByStep(EMPTY, s[..5]);
    RunByStep(EMPTY, s);
    assert s[..5][..4] == s[..4] && s[..6] == s;
    FirstExecutes();
    SecondExecutes();
  }

  /** The tables between the two. */
  function CapturedOnce(): (db: Db)
  {
    Execute(Opened(), Request("p", Capture, "a", "b"), "k1", Ids("o1", "j1", "e1"))
  }

  lemma CapturedTables()
    ensures CapturedOnce().payments == map["p" := Payment(Captured, 5, "EUR")]
    ensures CapturedOnce().accounts == Opened().accounts
    ensures CapturedOnce().operations == [NewRow(Request("p", Capture, "a", "b"), "k1", Ids("o1", "j1", "e1"))]
    ensures CapturedOnce().journals.Keys == {"j1"} && CapturedOnce().outbox.Keys == {"e1"}
  {
    hide Upper, Answer, EntriesFor, EventFor, ReferenceOf;
    FirstExecutes();
  }

  lemma FirstExecutes()
    ensures Executes(Opened(), Request("p", Capture, "a", "b"), "k1", Ids("o1", "j1", "e1"))
  {
    hide Upper, Answer;
    UpperEur();
    assert !IsSpace("k1"[0]);
    ExecutesMeans(Opened(), Request("p", Capture, "a", "b"), "k1", Ids("o1", "j1", "e1"));
  }

  lemma SecondExecutes()
    ensures Executes(CapturedOnce(), Request("p", Refund, "b", "a"), "k2", Ids("o2", "j2", "e2"))
  {
    hide Upper, Answer, CapturedOnce;
    UpperEur();
    CapturedTables();
    var db, req := CapturedOnce(), Request("p", Refund, "b", "a");
    assert !IsSpace("k2"[0]);
    assert db.operations[1..] == [];
    assert EntriesInsertable(db, req, db.payments["p"]);
    assert KeysFree(db, "k2", Ids("o2", "j2", "e2"));
    ExecutesMeans(db, req, "k2", Ids("o2", "j2", "e2"));
  }
}
