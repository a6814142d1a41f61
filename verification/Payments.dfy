// The payment tables and the atomic operations on them (app/payment_operations.py, app/ledger.py):
// one committed transaction is one step of the functions below.
module Payments {
  import opened Results
  import opened Strings
  import opened Ledger

  datatype PaymentStatus = Pending | Authorized | Captured | Refunded | Reversed | Failed | Cancelled

  datatype PaymentOperation = Capture | Refund | Reversal

  /** `_TRANSITIONS`: the status an operation expects and the one it leaves. */
  function ExpectedFrom(op: PaymentOperation): PaymentStatus {
    if op == Refund then Captured else Authorized
  }

  function TargetOf(op: PaymentOperation): PaymentStatus {
    match op
    case Capture => Captured
    case Refund => Refunded
    case Reversal => Reversed
  }

  function OperationName(op: PaymentOperation): string {
    match op
    case Capture => "capture"
    case Refund => "refund"
    case Reversal => "reversal"
  }

  datatype Payment = Payment(status: PaymentStatus, amount: int, currency: string)

  /** The arguments the request fingerprint digests; equal fingerprints mean equal requests. */
  datatype Request = Request(
    paymentId: string, operation: PaymentOperation, sourceAccount: string, destinationAccount: string)

  datatype Journal = Journal(reference: string, currency: string)

  datatype OperationRow = OperationRow(
    id: string, key: string, request: Request, fromStatus: PaymentStatus, toStatus: PaymentStatus,
    journalId: string)

  /** An outbox row with the payload fields of a payment operation; other producers' events may lack an
      operation id. The delivery columns belong to module Outbox. */
  datatype Event = Event(
    aggregateType: string, aggregateId: string, eventStatus: PaymentStatus, amount: int, currency: string,
    fromStatus: PaymentStatus, toStatus: PaymentStatus, journalId: string,
    operation: PaymentOperation, operationId: Option<string>)

  datatype Db = Db(
    payments: map<string, Payment>,
    accounts: map<string, string>,
    journals: map<string, Journal>,
    entries: seq<Entry>,
    operations: seq<OperationRow>,
    outbox: map<string, Event>)

  const EMPTY := Db(map[], map[], map[], [], [], map[])

  /** The identifiers drawn for one call; a repeated draw is caught by a primary key. */
  datatype Ids = Ids(operationId: string, journalId: string, eventId: string)

  datatype OperationResult = OperationResult(
    operationId: string, paymentId: string, operation: PaymentOperation,
    fromStatus: PaymentStatus, toStatus: PaymentStatus, journalId: string, replayed: bool)

  datatype OperationError =
    | EmptyKey
    | SameAccounts
    | KeyConflict
    | PaymentMissing
    | InvalidTransition
    | IntegrityError
    | Unbalanced

  // ----- execute as one atomic step ----------------------------------------------------

  /** `SELECT ... WHERE idempotency_key = key`. */
  function FindKey(operations: seq<OperationRow>, key: string): (r: Option<OperationRow>)
  {
    if operations == [] then None
    else if operations[0].key == key then Some(operations[0])
    else FindKey(operations[1..], key)
  }

  function ResultOf(row: OperationRow, replayed: bool): OperationResult {
    OperationResult(row.id, row.request.paymentId, row.request.operation, row.fromStatus, row.toStatus,
                    row.journalId, replayed)
  }

  function NewRow(req: Request, key: string, ids: Ids): OperationRow {
    OperationRow(ids.operationId, key, req, ExpectedFrom(req.operation), TargetOf(req.operation), ids.journalId)
  }

  function NewPostings(req: Request, amount: int): seq<Posting> {
    [Posting(req.sourceAccount, Debit, amount), Posting(req.destinationAccount, Credit, amount)]
  }

  function EventFor(row: OperationRow, payment: Payment): Event {
    Event("payment", row.request.paymentId, row.toStatus, payment.amount, Upper(payment.currency),
          row.fromStatus, row.toStatus, row.journalId, row.request.operation, Some(row.id))
  }

  /** Whether an account exists in a currency: the composite foreign key of an entry. */
  predicate AccountIn(db: Db, account: string, currency: string) {
    account in db.accounts && db.accounts[account] == currency
  }

  /** The foreign keys and checks of the two entries `execute` inserts. */
  predicate EntriesInsertable(db: Db, req: Request, payment: Payment) {
    && AccountIn(db, req.sourceAccount, Upper(payment.currency))
    && AccountIn(db, req.destinationAccount, Upper(payment.currency))
    && payment.amount > 0
  }

  /** The primary and unique keys of the journal, operation and outbox rows. */
  predicate KeysFree(db: Db, key: string, ids: Ids) {
    && ids.journalId !in db.journals
    && ids.eventId !in db.outbox
    && forall i :: 0 <= i < |db.operations| ==>
      var row := db.operations[i];
      row.id != ids.operationId && row.key != key && row.journalId != ids.journalId
  }

  /** All the rows one successful call writes. */
  function Written(db: Db, req: Request, key: string, ids: Ids, payment: Payment): Db {
    var row := NewRow(req, key, ids);
    var currency := Upper(payment.currency);
    Db(db.payments[req.paymentId := payment.(status := TargetOf(req.operation))],
       db.accounts,
       db.journals[ids.journalId := Journal(ReferenceOf(req, ids), currency)],
       db.entries + EntriesFor(ids.journalId, currency, NewPostings(req, payment.amount)),
       db.operations + [row],
       db.outbox[ids.eventId := EventFor(row, payment)])
  }

  function ReferenceOf(req: Request, ids: Ids): string {
    "payment:" + req.paymentId + ":" + OperationName(req.operation) + ":" + ids.operationId
  }

  /** What a call answers once the key has been looked up and the payment row read. */
  function Attempt(db: Db, req: Request, key: string, ids: Ids): (r: Result<OperationResult, OperationError>)
  {
    if req.paymentId !in db.payments then Err(PaymentMissing)
    else
      var payment := db.payments[req.paymentId];
      if payment.status != ExpectedFrom(req.operation) then Err(InvalidTransition)
      else if !EntriesInsertable(db, req, payment) || !KeysFree(db, key, ids) then Err(IntegrityError)
      else Ok(ResultOf(NewRow(req, key, ids), false))
  }

  /** The answer of `execute`. */
  function Answer(db: Db, req: Request, key: string, ids: Ids): (r: Result<OperationResult, OperationError>)
  {
    if IsBlank(key) then Err(EmptyKey)
    else if req.sourceAccount == req.destinationAccount then Err(SameAccounts)
    else match FindKey(db.operations, key)
      case Some(row) => if row.request != req then Err(KeyConflict) else Ok(ResultOf(row, true))
      case None => Attempt(db, req, key, ids)
  }

  /** The tables after `execute`: they change only when a new operation succeeds. */
  function Execute(db: Db, req: Request, key: string, ids: Ids): (after: Db)
  {
    var answer := Answer(db, req, key, ids);
    if answer.Ok? && !answer.value.replayed then Written(db, req, key, ids, db.payments[req.paymentId]) else db
  }

  // ----- the other committed steps -----------------------------------------------------

  predicate Postable(db: Db, id: string, currency: string, postings: seq<Posting>) {
    && id !in db.journals
    && forall i :: 0 <= i < |postings| ==> AccountIn(db, postings[i].accountId, currency)
  }

  /** The answer of `PostgresLedger.post`. */
  function PostAnswer(db: Db, id: string, currency: string, postings: seq<Posting>): (r: Result<(), LedgerError>)
  {
    var _ :- ValidatePostings(postings);
    if |currency| != 3 then Err(BadCurrency)
    else if !Postable(db, id, Upper(currency), postings) then Err(IntegrityViolation)
    else Ok(())
  }

  datatype Action =
    | CreatePayment(id: string, amount: int, currency: string)
    | Authorize(id: string)
    | OpenAccount(id: string, currency: string)
    | PostJournal(id: string, reference: string, currency: string, postings: seq<Posting>)
    | Operate(request: Request, key: string, ids: Ids)

  function Step(db: Db, a: Action): (after: Db)
  {
    match a
    case CreatePayment(id, amount, currency) =>
      if id in db.payments || amount <= 0 then db
      else db.(payments := db.payments[id := Payment(Pending, amount, currency)])
    case Authorize(id) =>
      if id in db.payments && db.payments[id].status == Pending then
        db.(payments := db.payments[id := db.payments[id].(status := Authorized)])
      else db
    case OpenAccount(id, currency) =>
      if id in db.accounts || |currency| != 3 then db
      else db.(accounts := db.accounts[id := Upper(currency)])
    case PostJournal(id, reference, currency, postings) =>
      if PostAnswer(db, id, currency, postings).Err? then db
      else
        db.(journals := db.journals[id := Journal(reference, Upper(currency))],
            entries := db.entries + EntriesFor(id, Upper(currency), postings))
    case Operate(request, key, ids) => Execute(db, request, key, ids)
  }

  function Run(db: Db, actions: seq<Action>): (after: Db)
    decreases |actions|
  {
    if actions == [] then db else Run(Step(db, actions[0]), actions[1..])
  }

  lemma {:induction false} RunConcat(db: Db, a: seq<Action>, b: seq<Action>)
    ensures Run(db, a + b) == Run(Run(db, a), b)
    decreases |a|
  {
    hide Step;
    if a == [] {
      assert a + b == b;
    } else {
      var ab := a + b;
      assert ab[0] == a[0] && ab[1..] == a[1..] + b;
      RunConcat(Step(db, a[0]), a[1..], b);
    }
  }

  // ----- the reachable-state invariant -------------------------------------------------

  /** The operations recorded for a payment, in commit order. */
  function History(operations: seq<OperationRow>, paymentId: string): (s: seq<PaymentOperation>)
  {
    if operations == [] then []
    else
      var last := operations[|operations| - 1];
      History(operations[..|operations| - 1], paymentId)
      + if last.request.paymentId == paymentId then [last.request.operation] else []
  }

  /** The only history a payment in a given status can have. */
  function HistoryFor(status: PaymentStatus): seq<PaymentOperation> {
    match status
    case Captured => [Capture]
    case Refunded => [Capture, Refund]
    case Reversed => [Reversal]
    case _ => []
  }

  predicate HistoriesMatch(db: Db) {
    forall p :: p in db.payments ==> History(db.operations, p) == HistoryFor(db.payments[p].status)
  }

  predicate AmountsPositive(db: Db) {
    forall p :: p in db.payments ==> db.payments[p].amount > 0
  }

  /** No two operations share an id, a key or a journal. */
  predicate OperationsDistinct(db: Db) {
    forall i, j :: 0 <= i < j < |db.operations| ==>
      && db.operations[i].id != db.operations[j].id
      && db.operations[i].key != db.operations[j].key
      && db.operations[i].journalId != db.operations[j].journalId
  }

  /** The journal of an operation is one debit and one credit of the payment's amount. */
  predicate RowBacked(db: Db, row: OperationRow) {
    && row.request.paymentId in db.payments
    && row.request.sourceAccount != row.request.destinationAccount
    && row.fromStatus == ExpectedFrom(row.request.operation)
    && row.toStatus == TargetOf(row.request.operation)
    && row.journalId in db.journals
    && var payment := db.payments[row.request.paymentId];
    && db.journals[row.journalId].currency == Upper(payment.currency)
    && EntriesOf(db.entries, row.journalId)
       == EntriesFor(row.journalId, Upper(payment.currency), NewPostings(row.request, payment.amount))
  }

  predicate RowsBacked(db: Db) {
    forall i :: 0 <= i < |db.operations| ==> RowBacked(db, db.operations[i])
  }

  /** Some outbox event announces the operation. */
  predicate RowAnnounced(db: Db, row: OperationRow) {
    exists e :: e in db.outbox && db.outbox[e].operationId == Some(row.id)
  }

  /** Every event is that of a recorded operation, and no two events share one. */
  predicate EventsBacked(db: Db) {
    && (forall i :: 0 <= i < |db.operations| ==> RowAnnounced(db, db.operations[i]))
    && (forall e :: e in db.outbox ==> EventBacked(db, db.outbox[e]))
    && (forall e, f :: e in db.outbox && f in db.outbox && e != f ==>
          db.outbox[e].operationId != db.outbox[f].operationId)
  }

  predicate EventBacked(db: Db, event: Event) {
    exists i :: 0 <= i < |db.operations| && EventOf(db, event, db.operations[i])
  }

  predicate EventOf(db: Db, event: Event, row: OperationRow) {
    row.request.paymentId in db.payments && event == EventFor(row, db.payments[row.request.paymentId])
  }

  /** Every entry belongs to a journal and an account of its currency. */
  predicate EntriesPlaced(db: Db) {
    forall e :: e in db.entries ==>
      && e.journalId in db.journals && db.journals[e.journalId].currency == e.currency
      && AccountIn(db, e.accountId, e.currency) && e.amount > 0
  }

  predicate JournalsBalanced(db: Db) {
    forall j :: j in db.journals ==> TriggerAccepts(Rows(EntriesOf(db.entries, j)))
  }

  predicate DbInv(db: Db) {
    && AmountsPositive(db)
    && HistoriesMatch(db)
    && OperationsDistinct(db)
    && RowsBacked(db)
    && EventsBacked(db)
    && EntriesPlaced(db)
    && JournalsBalanced(db)
  }

  // ----- preservation ------------------------------------------------------------------

  lemma {:induction false} FindKeySound(operations: seq<OperationRow>, key: string)
    ensures FindKey(operations, key).Some? ==>
      FindKey(operations, key).value in operations && FindKey(operations, key).value.key == key
    ensures FindKey(operations, key).None? <==> forall row :: row in operations ==> row.key != key
  {
    if operations != [] {
      FindKeySound(operations[1..], key);
    }
  }

  /** Rows appended later never hide the row of a key. */
  lemma {:induction false} FindKeyAppend(operations: seq<OperationRow>, more: seq<OperationRow>, key: string)
    ensures FindKey(operations, key).Some? ==> FindKey(operations + more, key) == FindKey(operations, key)
    ensures FindKey(operations, key).None? ==> FindKey(operations + more, key) == FindKey(more, key)
  {
    if operations == [] {
      assert operations + more == more;
    } else {
      assert (operations + more)[1..] == operations[1..] + more;
      FindKeyAppend(operations[1..], more, key);
    }
  }

  lemma HistoryAppend(operations: seq<OperationRow>, row: OperationRow, p: string)
    ensures History(operations + [row], p) ==
      History(operations, p) + if row.request.paymentId == p then [row.request.operation] else []
  {
    assert (operations + [row])[..|operations|] == operations;
  }

  /** New journal rows under a fresh id leave the entries of the other journals alone. */
  lemma FreshJournal(db: Db, id: string, currency: string, postings: seq<Posting>)
    requires EntriesPlaced(db) && id !in db.journals
    ensures var more := EntriesFor(id, currency, postings);
      && EntriesOf(db.entries + more, id) == more
      && forall j :: j != id ==> EntriesOf(db.entries + more, j) == EntriesOf(db.entries, j)
  {
    var more := EntriesFor(id, currency, postings);
    EntriesOfConcat(db.entries, more, id);
    EntriesOfNone(db.entries, id);
    EntriesOfAll(more, id);
    forall j | j != id
      ensures EntriesOf(db.entries + more, j) == EntriesOf(db.entries, j)
    {
      EntriesOfConcat(db.entries, more, j);
      EntriesOfNone(more, j);
    }
  }

  lemma NewEntriesPlaced(db: Db, after: Db, id: string, reference: string, currency: string, postings: seq<Posting>)
    requires EntriesPlaced(db) && Postable(db, id, currency, postings) && AllPositive(postings)
    requires after.accounts == db.accounts
    requires after.journals == db.journals[id := Journal(reference, currency)]
    requires after.entries == db.entries + EntriesFor(id, currency, postings)
    ensures EntriesPlaced(after)
  {
    var more := EntriesFor(id, currency, postings);
    forall e | e in after.entries
      ensures e.journalId in after.journals && after.journals[e.journalId].currency == e.currency
      ensures AccountIn(after, e.accountId, e.currency) && e.amount > 0
    {
      if e in db.entries {
        assert e.journalId != id;
      } else {
        var i :| 0 <= i < |more| && more[i] == e;
        assert AccountIn(db, postings[i].accountId, currency) && postings[i].amount > 0;
      }
    }
  }

  lemma NewJournalBalanced(db: Db, after: Db, id: string, reference: string, currency: string, postings: seq<Posting>)
    requires EntriesPlaced(db) && JournalsBalanced(db) && id !in db.journals && TriggerAccepts(postings)
    requires after.journals == db.journals[id := Journal(reference, currency)]
    requires after.entries == db.entries + EntriesFor(id, currency, postings)
    ensures JournalsBalanced(after)
  {
    hide TriggerAccepts, EntriesPlaced, EntriesOf, Rows;
    FreshJournal(db, id, currency, postings);
    forall j | j in after.journals
      ensures TriggerAccepts(Rows(EntriesOf(after.entries, j)))
    {
      assert j == id || j in db.journals;
    }
  }

  lemma NewPostingsBalance(req: Request, amount: int)
    requires amount > 0
    ensures AllPositive(NewPostings(req, amount)) && TriggerAccepts(NewPostings(req, amount))
  {
    var debit := Posting(req.sourceAccount, Debit, amount);
    var credit := Posting(req.destinationAccount, Credit, amount);
    assert NewPostings(req, amount) == ([] + [debit]) + [credit];
    SideTotalAppend([], debit, Debit);
    SideTotalAppend([], debit, Credit);
    SideTotalAppend([] + [debit], credit, Debit);
    SideTotalAppend([] + [debit], credit, Credit);
  }

  /** The premises under which `Execute` writes. */
  predicate Executes(db: Db, req: Request, key: string, ids: Ids) {
    Answer(db, req, key, ids).Ok? && !Answer(db, req, key, ids).value.replayed
  }

  lemma ExecutesMeans(db: Db, req: Request, key: string, ids: Ids)
    ensures Executes(db, req, key, ids) <==>
      && !IsBlank(key) && req.sourceAccount != req.destinationAccount
      && FindKey(db.operations, key).None?
      && req.paymentId in db.payments
      && db.payments[req.paymentId].status == ExpectedFrom(req.operation)
      && EntriesInsertable(db, req, db.payments[req.paymentId])
      && KeysFree(db, key, ids)
  {
    hide IsBlank, FindKey, EntriesInsertable, KeysFree;
  }

  lemma WrittenHistories(db: Db, req: Request, key: string, ids: Ids)
    requires HistoriesMatch(db) && Executes(db, req, key, ids)
    ensures HistoriesMatch(Execute(db, req, key, ids))
    ensures AmountsPositive(db) ==> AmountsPositive(Execute(db, req, key, ids))
  {
    hide IsBlank, FindKey, EntriesInsertable, KeysFree, Answer, History;
    ExecutesMeans(db, req, key, ids);
    var after := Execute(db, req, key, ids);
    forall p | p in after.payments
      ensures History(after.operations, p) == HistoryFor(after.payments[p].status)
    {
      HistoryAppend(db.operations, NewRow(req, key, ids), p);
      assert p in db.payments;
      if p != req.paymentId {
        assert History(db.operations, p) + [] == History(db.operations, p);
      }
    }
  }

  lemma WrittenDistinct(db: Db, req: Request, key: string, ids: Ids)
    requires OperationsDistinct(db) && Executes(db, req, key, ids)
    ensures OperationsDistinct(Execute(db, req, key, ids))
  {
    hide IsBlank, FindKey, EntriesInsertable, Answer;
    ExecutesMeans(db, req, key, ids);
  }

  lemma WrittenJournals(db: Db, req: Request, key: string, ids: Ids)
    requires EntriesPlaced(db) && JournalsBalanced(db) && Executes(db, req, key, ids)
    ensures var after := Execute(db, req, key, ids);
      && EntriesPlaced(after) && JournalsBalanced(after)
      && forall j :: j in db.journals ==> EntriesOf(after.entries, j) == EntriesOf(db.entries, j)
  {
    hide IsBlank, FindKey, Answer, EntriesPlaced, JournalsBalanced, TriggerAccepts, EntriesOf, EntriesFor;
    ExecutesMeans(db, req, key, ids);
    var after := Execute(db, req, key, ids);
    var payment := db.payments[req.paymentId];
    var postings := NewPostings(req, payment.amount);
    var currency := Upper(payment.currency);
    NewPostingsBalance(req, payment.amount);
    NewEntriesPlaced(db, after, ids.journalId, ReferenceOf(req, ids), currency, postings);
    NewJournalBalanced(db, after, ids.journalId, ReferenceOf(req, ids), currency, postings);
    FreshJournal(db, ids.journalId, currency, postings);
  }

  lemma WrittenRows(db: Db, req: Request, key: string, ids: Ids)
    requires EntriesPlaced(db) && JournalsBalanced(db) && RowsBacked(db) && Executes(db, req, key, ids)
    ensures RowsBacked(Execute(db, req, key, ids))
  {
    hide IsBlank, FindKey, Answer, EntriesPlaced, JournalsBalanced, EntriesOf, EntriesFor;
    ExecutesMeans(db, req, key, ids);
    WrittenJournals(db, req, key, ids);
    var after := Execute(db, req, key, ids);
    var payment := db.payments[req.paymentId];
    FreshJournal(db, ids.journalId, Upper(payment.currency), NewPostings(req, payment.amount));
    forall i | 0 <= i < |after.operations|
      ensures RowBacked(after, after.operations[i])
    {
      if i < |db.operations| {
        assert RowBacked(db, db.operations[i]);
      }
    }
  }

  lemma AnnouncedAppend(db: Db, after: Db, row: OperationRow, id: string, event: Event)
    requires forall i :: 0 <= i < |db.operations| ==> RowAnnounced(db, db.operations[i])
    requires id !in db.outbox && event.operationId == Some(row.id)
    requires after.operations == db.operations + [row] && after.outbox == db.outbox[id := event]
    ensures forall i :: 0 <= i < |after.operations| ==> RowAnnounced(after, after.operations[i])
  {
    forall i | 0 <= i < |after.operations|
      ensures RowAnnounced(after, after.operations[i])
    {
      if i < |db.operations| {
        assert RowAnnounced(db, db.operations[i]);
        var e :| e in db.outbox && db.outbox[e].operationId == Some(db.operations[i].id);
        assert after.outbox[e] == db.outbox[e];
      } else {
        assert after.outbox[id] == event;
      }
    }
  }

  lemma NewEventId(db: Db, req: Request, key: string, ids: Ids)
    requires req.paymentId in db.payments
    ensures EventFor(NewRow(req, key, ids), db.payments[req.paymentId]).operationId == Some(ids.operationId)
  {
  }

  lemma EventStays(db: Db, req: Request, key: string, ids: Ids, event: Event)
    requires EventBacked(db, event) && Executes(db, req, key, ids)
    ensures EventBacked(Execute(db, req, key, ids), event)
  {
    hide IsBlank, FindKey, EntriesInsertable, KeysFree, Answer;
    ExecutesMeans(db, req, key, ids);
    var after := Execute(db, req, key, ids);
    var i :| 0 <= i < |db.operations| && EventOf(db, event, db.operations[i]);
    assert after.operations[i] == db.operations[i];
    assert EventOf(after, event, after.operations[i]);
  }

  lemma WrittenEventsBacked(db: Db, req: Request, key: string, ids: Ids)
    requires EventsBacked(db) && Executes(db, req, key, ids)
    ensures var after := Execute(db, req, key, ids);
      forall e :: e in after.outbox ==> EventBacked(after, after.outbox[e])
  {
    hide IsBlank, FindKey, EntriesInsertable, KeysFree, Answer, EventBacked, EventFor;
    ExecutesMeans(db, req, key, ids);
    var after := Execute(db, req, key, ids);
    forall e | e in after.outbox
      ensures EventBacked(after, after.outbox[e])
    {
      if e == ids.eventId {
        NewEventBacked(db, req, key, ids);
      } else {
        EventStays(db, req, key, ids, db.outbox[e]);
      }
    }
  }

  lemma NewEventBacked(db: Db, req: Request, key: string, ids: Ids)
    requires Executes(db, req, key, ids)
    ensures var after := Execute(db, req, key, ids);
      ids.eventId in after.outbox && EventBacked(after, after.outbox[ids.eventId])
  {
    hide IsBlank, FindKey, EntriesInsertable, KeysFree, Answer;
    ExecutesMeans(db, req, key, ids);
    var after := Execute(db, req, key, ids);
    var i := |db.operations|;
    assert after.operations[i] == NewRow(req, key, ids);
    assert EventOf(after, after.outbox[ids.eventId], after.operations[i]);
  }

  lemma WrittenEvents(db: Db, req: Request, key: string, ids: Ids)
    requires EventsBacked(db) && Executes(db, req, key, ids)
    ensures EventsBacked(Execute(db, req, key, ids))
  {
    hide IsBlank, FindKey, EntriesInsertable, Answer, EventBacked, RowAnnounced, EventFor;
    ExecutesMeans(db, req, key, ids);
    WrittenEventsBacked(db, req, key, ids);
    NewEventId(db, req, key, ids);
    var row := NewRow(req, key, ids);
    AnnouncedAppend(db, Execute(db, req, key, ids), row, ids.eventId, EventFor(row, db.payments[req.paymentId]));
    forall e | e in db.outbox
      ensures db.outbox[e].operationId != Some(ids.operationId)
    {
      BackedEventId(db, db.outbox[e]);
    }
  }

  lemma BackedEventId(db: Db, event: Event)
    requires EventBacked(db, event)
    ensures exists i :: 0 <= i < |db.operations| && event.operationId == Some(db.operations[i].id)
  {
    var i :| 0 <= i < |db.operations| && EventOf(db, event, db.operations[i]);
    assert event.operationId == Some(db.operations[i].id);
  }

  /** `execute` keeps the invariant, whatever it answers. */
  lemma ExecuteKeepsInv(db: Db, req: Request, key: string, ids: Ids)
    requires DbInv(db)
    ensures DbInv(Execute(db, req, key, ids))
  {
    hide HistoriesMatch, AmountsPositive, OperationsDistinct, RowsBacked, EventsBacked, EntriesPlaced, JournalsBalanced;
    hide Answer, Written;
    if Executes(db, req, key, ids) {
      WrittenHistories(db, req, key, ids);
      WrittenDistinct(db, req, key, ids);
      WrittenRows(db, req, key, ids);
      WrittenEvents(db, req, key, ids);
      WrittenJournals(db, req, key, ids);
    }
  }

  lemma BalancedPost(db: Db, id: string, reference: string, currency: string, postings: seq<Posting>)
    requires DbInv(db) && PostAnswer(db, id, currency, postings).Ok?
    ensures DbInv(Step(db, PostJournal(id, reference, currency, postings)))
  {
    hide HistoriesMatch, AmountsPositive, OperationsDistinct, EntriesPlaced, JournalsBalanced, TriggerAccepts;
    hide EntriesOf, EntriesFor, EventsBacked, Postable;
    PostableMeans(db, id, currency, postings);
    var after := Step(db, PostJournal(id, reference, currency, postings));
    NewEntriesPlaced(db, after, id, reference, Upper(currency), postings);
    NewJournalBalanced(db, after, id, reference, Upper(currency), postings);
    FreshJournal(db, id, Upper(currency), postings);
    SamePaymentsAndRows(db, after);
    forall i | 0 <= i < |after.operations|
      ensures RowBacked(after, after.operations[i])
    {
      assert RowBacked(db, db.operations[i]);
    }
  }

  lemma PostableMeans(db: Db, id: string, currency: string, postings: seq<Posting>)
    requires PostAnswer(db, id, currency, postings).Ok?
    ensures AllPositive(postings) && TriggerAccepts(postings) && Postable(db, id, Upper(currency), postings)
    ensures id !in db.journals
  {
    hide TriggerAccepts;
    ServiceAgreesWithTrigger(postings);
  }

  lemma SamePaymentsAndRows(db: Db, after: Db)
    requires after.payments == db.payments && after.operations == db.operations && after.outbox == db.outbox
    ensures HistoriesMatch(db) ==> HistoriesMatch(after)
    ensures AmountsPositive(db) ==> AmountsPositive(after)
    ensures OperationsDistinct(db) ==> OperationsDistinct(after)
    ensures EventsBacked(db) ==> EventsBacked(after)
  {
    forall event: Event
      ensures EventBacked(db, event) ==> EventBacked(after, event)
    {
      if EventBacked(db, event) {
        var i :| 0 <= i < |db.operations| && EventOf(db, event, db.operations[i]);
        assert EventOf(after, event, after.operations[i]);
      }
    }
    assert forall row :: RowAnnounced(db, row) ==> RowAnnounced(after, row);
  }

  /** Opening an account only widens the foreign keys. */
  lemma OpenAccountKeepsInv(db: Db, id: string, currency: string)
    requires DbInv(db)
    ensures DbInv(Step(db, OpenAccount(id, currency)))
  {
    hide HistoriesMatch, AmountsPositive, OperationsDistinct, TriggerAccepts, EntriesOf, EventsBacked;
    var after := Step(db, OpenAccount(id, currency));
    SamePaymentsAndRows(db, after);
    assert forall row :: RowBacked(db, row) ==> RowBacked(after, row);
  }

  /** The amount and currency columns never change. */
  predicate SameMoney(db: Db, after: Db) {
    forall p :: p in db.payments ==> (
      && p in after.payments
      && after.payments[p].amount == db.payments[p].amount
      && after.payments[p].currency == db.payments[p].currency)
  }

  lemma SameMoneyRows(db: Db, after: Db)
    requires after == db.(payments := after.payments) && SameMoney(db, after) && RowsBacked(db)
    ensures RowsBacked(after)
  {
    hide EntriesOf, EntriesFor;
    forall i | 0 <= i < |after.operations|
      ensures RowBacked(after, after.operations[i])
    {
      assert RowBacked(db, db.operations[i]);
    }
  }

  lemma SameMoneyEvents(db: Db, after: Db)
    requires after == db.(payments := after.payments) && SameMoney(db, after) && EventsBacked(db)
    ensures EventsBacked(after)
  {
    hide EventFor, EventBacked;
    forall i | 0 <= i < |after.operations|
      ensures RowAnnounced(after, after.operations[i])
    {
      assert RowAnnounced(db, db.operations[i]);
    }
    forall e | e in after.outbox
      ensures EventBacked(after, after.outbox[e])
    {
      SameEventFor(db, after, db.outbox[e]);
    }
  }

  lemma SameEventFor(db: Db, after: Db, event: Event)
    requires EventBacked(db, event) && after.operations == db.operations && SameMoney(db, after)
    ensures EventBacked(after, event)
  {
    var i :| 0 <= i < |db.operations| && EventOf(db, event, db.operations[i]);
    assert EventOf(after, event, after.operations[i]);
  }

  /** A payment that appears, or whose status moves between statuses without history, keeps the invariant. */
  lemma QuietPaymentChange(db: Db, after: Db, id: string)
    requires DbInv(db)
    requires after == db.(payments := after.payments) && after.payments.Keys == db.payments.Keys + {id}
    requires forall p :: p in db.payments && p != id ==> after.payments[p] == db.payments[p]
    requires SameMoney(db, after)
    requires after.payments[id].amount > 0 && HistoryFor(after.payments[id].status) == []
    requires id in db.payments ==> HistoryFor(db.payments[id].status) == []
    ensures DbInv(after)
  {
    hide RowsBacked, EventsBacked, JournalsBalanced, History, SameMoney;
    SameMoneyRows(db, after);
    SameMoneyEvents(db, after);
    forall p | p in after.payments
      ensures History(after.operations, p) == HistoryFor(after.payments[p].status)
    {
      if p == id && id !in db.payments {
        NoHistory(db, id);
      }
    }
    SameJournals(db, after);
  }

  lemma SameJournals(db: Db, after: Db)
    requires after.journals == db.journals && after.entries == db.entries && after.accounts == db.accounts
    ensures JournalsBalanced(db) ==> JournalsBalanced(after)
    ensures EntriesPlaced(db) ==> EntriesPlaced(after)
  {
    hide EntriesOf, TriggerAccepts;
  }

  lemma NoHistory(db: Db, p: string)
    requires RowsBacked(db) && p !in db.payments
    ensures History(db.operations, p) == []
  {
    forall row | row in db.operations
      ensures row.request.paymentId != p
    {
      var i :| 0 <= i < |db.operations| && db.operations[i] == row;
      assert RowBacked(db, db.operations[i]);
    }
    HistoryOfNone(db.operations, p);
  }

  lemma {:induction false} HistoryOfNone(operations: seq<OperationRow>, p: string)
    requires forall row :: row in operations ==> row.request.paymentId != p
    ensures History(operations, p) == []
  {
    if operations != [] {
      assert operations[|operations| - 1] in operations;
      HistoryOfNone(operations[..|operations| - 1], p);
    }
  }

  /** Every committed step keeps the invariant. */
  lemma StepKeepsInv(db: Db, a: Action)
    requires DbInv(db)
    ensures DbInv(Step(db, a))
  {
    hide DbInv, PostAnswer, Execute;
    match a
    case CreatePayment(id, amount, currency) =>
      if id !in db.payments && amount > 0 {
        QuietPaymentChange(db, Step(db, a), id);
      }
    case Authorize(id) =>
      if id in db.payments && db.payments[id].status == Pending {
        PaymentAmount(db, id);
        QuietPaymentChange(db, Step(db, a), id);
      }
    case OpenAccount(id, currency) => OpenAccountKeepsInv(db, id, currency);
    case PostJournal(id, reference, currency, postings) =>
      if PostAnswer(db, id, currency, postings).Ok? {
        BalancedPost(db, id, reference, currency, postings);
      }
    case Operate(request, key, ids) => ExecuteKeepsInv(db, request, key, ids);
  }

  lemma PaymentAmount(db: Db, id: string)
    requires DbInv(db) && id in db.payments
    ensures db.payments[id].amount > 0
  {
  }

  lemma {:induction false} RunKeepsInv(db: Db, actions: seq<Action>)
    requires DbInv(db)
    ensures DbInv(Run(db, actions))
    decreases |actions|
  {
    hide DbInv, Step;
    if actions != [] {
      StepKeepsInv(db, actions[0]);
      RunKeepsInv(Step(db, actions[0]), actions[1..]);
    }
  }

  /** Every state reachable from empty tables satisfies the invariant. */
  lemma ReachableInv(actions: seq<Action>)
    ensures DbInv(Run(EMPTY, actions))
  {
    RunKeepsInv(EMPTY, actions);
  }

  /** The journal of a recorded operation: one debit of the source and one credit of the destination. */
  lemma JournalOfOperation(db: Db, i: nat)
    requires DbInv(db) && i < |db.operations|
    ensures var row := db.operations[i]; var p := row.request.paymentId;
      && p in db.payments
      && var amount, currency := db.payments[p].amount, Upper(db.payments[p].currency);
      && EntriesOf(db.entries, row.journalId) == [
           Entry(row.journalId, row.request.sourceAccount, Debit, amount, currency),
           Entry(row.journalId, row.request.destinationAccount, Credit, amount, currency)]
  {
    hide HistoriesMatch, AmountsPositive, EntriesPlaced, JournalsBalanced, EventsBacked, EntriesOf, Upper;
    assert RowBacked(db, db.operations[i]);
  }

  /** A recorded operation has exactly one event, which tells it as it was recorded. */
  lemma EventOfOperation(db: Db, i: nat) returns (e: string)
    requires DbInv(db) && i < |db.operations|
    ensures e in db.outbox && Tells(db, db.outbox[e], db.operations[i])
    ensures forall f :: f in db.outbox && db.outbox[f].operationId == Some(db.operations[i].id) ==> f == e
  {
    hide HistoriesMatch, AmountsPositive, EntriesPlaced, JournalsBalanced, RowBacked, EventBacked;
    var row := db.operations[i];
    assert RowAnnounced(db, row) && RowBacked(db, row);
    e :| e in db.outbox && db.outbox[e].operationId == Some(row.id);
    assert EventBacked(db, db.outbox[e]);
    EventTells(db, db.outbox[e], i);
  }

  lemma EventTells(db: Db, event: Event, i: nat)
    requires OperationsDistinct(db) && i < |db.operations| && RowBacked(db, db.operations[i])
    requires EventBacked(db, event) && event.operationId == Some(db.operations[i].id)
    ensures Tells(db, event, db.operations[i])
  {
    hide EntriesOf, EntriesFor, Upper;
    var j :| 0 <= j < |db.operations| && EventOf(db, event, db.operations[j]);
    assert db.operations[j].id == db.operations[i].id;
  }

  /** Every event is that of a recorded operation. */
  lemma OperationOfEvent(db: Db, e: string) returns (i: nat)
    requires DbInv(db) && e in db.outbox
    ensures i < |db.operations| && Tells(db, db.outbox[e], db.operations[i])
  {
    hide HistoriesMatch, EntriesPlaced, JournalsBalanced, AmountsPositive, RowBacked;
    assert EventBacked(db, db.outbox[e]);
    i :| 0 <= i < |db.operations| && EventOf(db, db.outbox[e], db.operations[i]);
    assert RowBacked(db, db.operations[i]);
    EventTells(db, db.outbox[e], i);
  }

  predicate Tells(db: Db, event: Event, row: OperationRow) {
    && event.operationId == Some(row.id) && event.operation == row.request.operation && event.journalId == row.journalId
    && event.aggregateType == "payment"
    && event.aggregateId == row.request.paymentId && event.aggregateId in db.payments
    && event.amount == db.payments[event.aggregateId].amount
    && event.currency == Upper(db.payments[event.aggregateId].currency)
    && event.fromStatus == ExpectedFrom(row.request.operation)
    && event.toStatus == event.eventStatus == TargetOf(row.request.operation)
  }

  // ----- what an answer says -----------------------------------------------------------

  /** Field by field, the result a recorded row stands for. */
  predicate Recorded(row: OperationRow, r: OperationResult) {
    && r.operationId == row.id && r.paymentId == row.request.paymentId && r.operation == row.request.operation
    && r.fromStatus == row.fromStatus && r.toStatus == row.toStatus && r.journalId == row.journalId
  }

  /** The three moves a payment can make. */
  predicate Permitted(op: PaymentOperation, before: PaymentStatus, after: PaymentStatus) {
    (op, before, after)
    in {(Capture, Authorized, Captured), (Refund, Captured, Refunded), (Reversal, Authorized, Reversed)}
  }

  /** A result that is true of the tables: a replay tells a recorded row of the key and the request; a new
      operation tells the call's own identifiers, the status the payment had, and the one it has now. */
  predicate Truthful(db: Db, req: Request, key: string, ids: Ids, r: OperationResult) {
    if r.replayed then
      exists i :: 0 <= i < |db.operations|
        && db.operations[i].key == key && db.operations[i].request == req && Recorded(db.operations[i], r)
    else
      var after := Execute(db, req, key, ids).payments;
      && r.operationId == ids.operationId && r.journalId == ids.journalId
      && r.paymentId == req.paymentId && r.operation == req.operation
      && req.paymentId in db.payments && r.fromStatus == db.payments[req.paymentId].status
      && req.paymentId in after && r.toStatus == after[req.paymentId].status
      && Permitted(r.operation, r.fromStatus, r.toStatus)
  }

  /** Every result `execute` returns is true of the tables. */
  lemma AnswersTruthful(db: Db, req: Request, key: string, ids: Ids)
    requires Answer(db, req, key, ids).Ok?
    ensures Truthful(db, req, key, ids, Answer(db, req, key, ids).value)
  {
    hide IsBlank, EntriesInsertable, KeysFree, EventFor, EntriesFor, ReferenceOf, Upper;
    FindKeySound(db.operations, key);
    var existing := FindKey(db.operations, key);
    if existing.Some? {
      var i :| 0 <= i < |db.operations| && db.operations[i] == existing.value;
      assert db.operations[i].key == key;
    }
  }

  /** A new call on a payment that exists is refused for the payment's status exactly when the status does
      not permit the operation. */
  lemma RefusedTransitions(db: Db, req: Request, key: string, ids: Ids)
    requires !IsBlank(key) && req.sourceAccount != req.destinationAccount
    requires FindKey(db.operations, key).None? && req.paymentId in db.payments
    ensures Answer(db, req, key, ids) == Err(InvalidTransition) <==>
      (req.operation, db.payments[req.paymentId].status)
      !in {(Capture, Authorized), (Refund, Captured), (Reversal, Authorized)}
  {
    hide IsBlank, FindKey, EntriesInsertable, KeysFree;
  }

  /** What the other steps do: a payment is created pending, and authorized only from pending; an account is
      opened once, in its upper-cased currency; a journal is posted with an entry for each posting. */
  lemma OtherSteps(db: Db, id: string, amount: int, currency: string, reference: string, postings: seq<Posting>)
    ensures Step(db, CreatePayment(id, amount, currency)) ==
      if id !in db.payments && amount >= 1 then
        db.(payments := db.payments[id := Payment(Pending, amount, currency)])
      else db
    ensures Step(db, Authorize(id)) ==
      if id in db.payments && db.payments[id].status == Pending then
        db.(payments := db.payments[id := Payment(Authorized, db.payments[id].amount, db.payments[id].currency)])
      else db
    ensures Step(db, OpenAccount(id, currency)) ==
      if id !in db.accounts && |currency| == 3 then db.(accounts := db.accounts[id := Upper(currency)]) else db
    ensures var after := Step(db, PostJournal(id, reference, currency, postings));
      if ValidatePostings(postings).Err? || |currency| != 3 || id in db.journals
         || exists i :: 0 <= i < |postings| && (
              postings[i].accountId !in db.accounts || db.accounts[postings[i].accountId] != Upper(currency))
      then after == db
      else (
        && after == db.(journals := db.journals[id := Journal(reference, Upper(currency))], entries := after.entries)
        && |after.entries| == |db.entries| + |postings|
        && (forall i :: 0 <= i < |db.entries| ==> after.entries[i] == db.entries[i])
        && forall i :: 0 <= i < |postings| ==> (
             after.entries[|db.entries| + i] ==
               Entry(id, postings[i].accountId, postings[i].side, postings[i].amount, Upper(currency))))
  {
    hide ValidatePostings, Upper;
  }

  /** The journal a committed call writes names the payment, the operation and the operation's id. */
  lemma JournalReference(db: Db, req: Request, key: string, ids: Ids)
    requires Executes(db, req, key, ids)
    ensures var name := if req.operation == Capture then "capture" else if req.operation == Refund then "refund"
        else "reversal";
      && ids.journalId in Execute(db, req, key, ids).journals
      && Execute(db, req, key, ids).journals[ids.journalId].reference
         == "payment:" + req.paymentId + ":" + name + ":" + ids.operationId
  {
    hide IsBlank, FindKey, EntriesInsertable, KeysFree, EventFor, EntriesFor, Upper;
  }

  // ----- replay, uniqueness and conservation -------------------------------------------

  /** Rows are only ever appended. */
  lemma {:induction false} RunAppends(db: Db, actions: seq<Action>)
    ensures db.operations <= Run(db, actions).operations
    decreases |actions|
  {
    hide Answer, PostAnswer;
    if actions != [] {
      RunAppends(Step(db, actions[0]), actions[1..]);
    }
  }

  /** Once a call has succeeded, repeating its request under its key returns the first result,
      marked as replayed, and changes nothing, whatever was committed in between. */
  lemma ReplayReturnsFirstResult(db: Db, req: Request, key: string, ids: Ids, between: seq<Action>, again: Ids)
    requires Answer(db, req, key, ids).Ok?
    ensures var later := Run(Execute(db, req, key, ids), between);
      && Answer(later, req, key, again) == Ok(Answer(db, req, key, ids).value.(replayed := true))
      && Execute(later, req, key, again) == later
  {
    var once := Execute(db, req, key, ids);
    var later := Run(once, between);
    RunAppends(once, between);
    assert later.operations == once.operations + later.operations[|once.operations|..];
    FindKeyAppend(once.operations, later.operations[|once.operations|..], key);
    if Executes(db, req, key, ids) {
      hide KeysFree, EntriesInsertable, IsBlank;
      ExecutesMeans(db, req, key, ids);
      var row := NewRow(req, key, ids);
      assert once.operations == db.operations + [row];
      FindKeyAppend(db.operations, [row], key);
      assert FindKey([row], key) == Some(row);
    }
  }

  lemma {:induction false} HistoryCounts(operations: seq<OperationRow>, p: string, op: PaymentOperation, i: nat, j: nat)
    requires i < j < |operations|
    requires operations[i].request.paymentId == p && operations[i].request.operation == op
    requires operations[j].request.paymentId == p && operations[j].request.operation == op
    ensures multiset(History(operations, p))[op] >= 2
  {
    var front, last := operations[..|operations| - 1], operations[|operations| - 1];
    if j < |front| {
      HistoryCounts(front, p, op, i, j);
    } else {
      HistoryHas(front, p, op, i);
    }
  }

  lemma {:induction false} HistoryHas(operations: seq<OperationRow>, p: string, op: PaymentOperation, i: nat)
    requires i < |operations|
    requires operations[i].request.paymentId == p && operations[i].request.operation == op
    ensures multiset(History(operations, p))[op] >= 1
  {
    if i < |operations| - 1 {
      HistoryHas(operations[..|operations| - 1], p, op, i);
    }
  }

  lemma NoRepeats(status: PaymentStatus, op: PaymentOperation)
    ensures multiset(HistoryFor(status))[op] <= 1
  {
  }

  /** In a reachable state a key, and a pair of payment and operation, committed at most once. */
  lemma AtMostOneCommit(db: Db, i: nat, j: nat)
    requires DbInv(db) && i < |db.operations| && j < |db.operations|
    requires
      || db.operations[i].key == db.operations[j].key
      || (db.operations[i].request.paymentId == db.operations[j].request.paymentId
          && db.operations[i].request.operation == db.operations[j].request.operation)
    ensures i == j
  {
    hide EventsBacked, EntriesPlaced, JournalsBalanced, History;
    if i != j && db.operations[i].key != db.operations[j].key {
      var lo, hi := if i < j then i else j, if i < j then j else i;
      var p := db.operations[lo].request.paymentId;
      var op := db.operations[lo].request.operation;
      assert RowBacked(db, db.operations[lo]);
      NoRepeats(db.payments[p].status, op);
      HistoryCounts(db.operations, p, op, lo, hi);
      assert false;
    }
  }

  /** The signed entries of every currency sum to zero after every step. */
  ghost predicate Conserved(db: Db) {
    forall c :: CurrencyTotal(db.entries, c) == 0
  }

  lemma StepConserves(db: Db, a: Action)
    requires Conserved(db)
    ensures Conserved(Step(db, a))
  {
    hide CurrencyTotal, SideTotal, IsBlank, FindKey, KeysFree, Answer;
    var after := Step(db, a);
    forall c
      ensures CurrencyTotal(after.entries, c) == 0
    {
      if a.PostJournal? && PostAnswer(db, a.id, a.currency, a.postings).Ok? {
        TotalConcat(db.entries, EntriesFor(a.id, Upper(a.currency), a.postings), c);
        TotalOfPostings(a.id, Upper(a.currency), a.postings, c);
      } else if a.Operate? && Executes(db, a.request, a.key, a.ids) {
        ExecutesMeans(db, a.request, a.key, a.ids);
        var payment := db.payments[a.request.paymentId];
        var postings := NewPostings(a.request, payment.amount);
        NewPostingsBalance(a.request, payment.amount);
        TotalConcat(db.entries, EntriesFor(a.ids.journalId, Upper(payment.currency), postings), c);
        TotalOfPostings(a.ids.journalId, Upper(payment.currency), postings, c);
      }
    }
  }

  lemma {:induction false} RunConserves(db: Db, actions: seq<Action>)
    requires Conserved(db)
    ensures Conserved(Run(db, actions))
    decreases |actions|
  {
    hide Conserved, Step;
    if actions != [] {
      StepConserves(db, actions[0]);
      RunConserves(Step(db, actions[0]), actions[1..]);
    }
  }

  /** In every reachable state the account balances of each currency sum to zero. */
  lemma BalancesSumToZero(actions: seq<Action>, currency: string)
    ensures var db := Run(EMPTY, actions);
      BalanceSum((set a | a in db.accounts && db.accounts[a] == currency), db.entries) == 0
  {
    hide HistoriesMatch, OperationsDistinct, RowsBacked, EventsBacked, JournalsBalanced, Run;
    var db := Run(EMPTY, actions);
    ReachableInv(actions);
    RunConserves(EMPTY, actions);
    forall e | e in db.entries
      ensures e.accountId in db.accounts && db.accounts[e.accountId] == e.currency
    {
      assert AccountIn(db, e.accountId, e.currency);
    }
    BalancesSumToTotal(db.accounts, db.entries, currency);
  }

  lemma StepKeepsMoney(db: Db, a: Action)
    ensures SameMoney(db, Step(db, a))
  {
    hide PostAnswer, IsBlank, FindKey, EntriesInsertable, KeysFree, EventFor, EntriesFor, ReferenceOf;
  }

  lemma {:induction false} RunKeepsMoney(db: Db, actions: seq<Action>, p: string)
    requires p in db.payments
    ensures p in Run(db, actions).payments
    ensures Run(db, actions).payments[p].amount == db.payments[p].amount
    ensures Run(db, actions).payments[p].currency == db.payments[p].currency
    decreases |actions|
  {
    hide Step;
    if actions != [] {
      StepKeepsMoney(db, actions[0]);
      RunKeepsMoney(Step(db, actions[0]), actions[1..], p);
    }
  }

  lemma ExecutedBalance(db: Db, req: Request, key: string, ids: Ids, account: string)
    requires Executes(db, req, key, ids)
    ensures req.paymentId in db.payments && req.sourceAccount != req.destinationAccount
    ensures Balance(Execute(db, req, key, ids).entries, account) == Balance(db.entries, account)
      + (if account == req.sourceAccount then db.payments[req.paymentId].amount
         else if account == req.destinationAccount then -db.payments[req.paymentId].amount else 0)
  {
    hide IsBlank, FindKey, EntriesInsertable, KeysFree, Answer;
    ExecutesMeans(db, req, key, ids);
    var payment := db.payments[req.paymentId];
    var s := EntriesFor(ids.journalId, Upper(payment.currency), NewPostings(req, payment.amount));
    BalanceConcat(db.entries, s, account);
    assert s == [s[0]] + [s[1]];
    BalanceConcat([s[0]], [s[1]], account);
    assert [s[0]][..0] == [] && [s[1]][..0] == [];
  }

  /** A capture and its refund with the accounts swapped cancel in every balance, whatever is
      committed between them: each balance moves only by what the steps in between did to it. */
  lemma CaptureThenRefundRestores(
      db: Db, p: string, source: string, destination: string, key: string, ids: Ids,
      between: seq<Action>, refundKey: string, refundIds: Ids, account: string)
    requires Executes(db, Request(p, Capture, source, destination), key, ids)
    requires Executes(Run(Execute(db, Request(p, Capture, source, destination), key, ids), between),
                      Request(p, Refund, destination, source), refundKey, refundIds)
    ensures var captured := Execute(db, Request(p, Capture, source, destination), key, ids);
      var later := Run(captured, between);
      var refunded := Execute(later, Request(p, Refund, destination, source), refundKey, refundIds);
      Balance(refunded.entries, account) - Balance(db.entries, account)
      == Balance(later.entries, account) - Balance(captured.entries, account)
  {
    hide Run, Execute, Executes, Balance;
    var capture, refund := Request(p, Capture, source, destination), Request(p, Refund, destination, source);
    var captured := Execute(db, capture, key, ids);
    var later := Run(captured, between);
    ExecutedBalance(db, capture, key, ids, account);
    ExecutedBalance(later, refund, refundKey, refundIds, account);
    RunKeepsMoney(db, [Operate(capture, key, ids)], p);
    RunOne(db, Operate(capture, key, ids));
    RunKeepsMoney(captured, between, p);
  }

  lemma RunOne(db: Db, a: Action)
    ensures Run(db, [a]) == Step(db, a)
    ensures a.Operate? ==> Step(db, a) == Execute(db, a.request, a.key, a.ids)
  {
    hide Execute;
    assert [a][1..] == [];
  }
}
