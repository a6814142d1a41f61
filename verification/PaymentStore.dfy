// `PostgresPaymentOperations` and `PostgresLedger` as one store whose methods run a transaction
// statement by statement on a private copy and publish it at commit.
module PaymentStore {
  import opened Results
  import opened Strings
  import opened Ledger
  import opened Payments

  class Store {
    var payments: map<string, Payment>
    var accounts: map<string, string>
    var journals: map<string, Journal>
    var entries: seq<Entry>
    var operations: seq<OperationRow>
    var outbox: map<string, Event>

    /** The committed tables. */
    function Tables(): Db
      reads this
    {
      Db(payments, accounts, journals, entries, operations, outbox)
    }

    constructor ()
      ensures Tables() == EMPTY
    {
      payments := map[];
      accounts := map[];
      journals := map[];
      entries := [];
      operations := [];
      outbox := map[];
    }

    /** `PostgresPaymentOperations.execute`. An early return leaves the tables as they were: the
        transaction is rolled back. The commit trigger never rejects. */
    method Execute(req: Request, key: string, ids: Ids)
      returns (r: Result<OperationResult, OperationError>)
      modifies this
      ensures r == Answer(old(Tables()), req, key, ids)
      ensures Tables() == Payments.Execute(old(Tables()), req, key, ids)
      ensures r != Err(Unbalanced)
    {
      hide IsBlank, FindKey, KeysFree, EventFor, EntriesFor, TriggerAccepts, ReferenceOf;
      ghost var before := Tables();
      if IsBlank(key) {
        return Err(EmptyKey);
      }
      if req.sourceAccount == req.destinationAccount {
        return Err(SameAccounts);
      }
      var existing := FindKey(operations, key);
      if existing.Some? {
        if existing.value.request != req {
          return Err(KeyConflict);
        }
        return Ok(ResultOf(existing.value, true));
      }
      if req.paymentId !in payments {
        return Err(PaymentMissing);
      }
      var payment := payments[req.paymentId];
      if payment.status != ExpectedFrom(req.operation) {
        return Err(InvalidTransition);
      }
      var tables := Tables();
      if !KeysFree(tables, key, ids) {
        return Err(IntegrityError);
      }
      var currency := Upper(payment.currency);
      tables := tables.(journals := tables.journals[ids.journalId := Journal(ReferenceOf(req, ids), currency)]);
      if !EntriesInsertable(tables, req, payment) {
        return Err(IntegrityError);
      }
      var postings := NewPostings(req, payment.amount);
      tables := tables.(entries := tables.entries + EntriesFor(ids.journalId, currency, postings));
      tables := tables.(payments := tables.payments[req.paymentId := payment.(status := TargetOf(req.operation))]);
      var row := NewRow(req, key, ids);
      tables := tables.(operations := tables.operations + [row]);
      tables := tables.(outbox := tables.outbox[ids.eventId := EventFor(row, payment)]);
      NewPostingsBalance(req, payment.amount);
      if !TriggerAccepts(postings) {
        return Err(Unbalanced);
      }
      Commit(tables);
      r := Ok(ResultOf(row, false));
    }

    method Commit(tables: Db)
      modifies this
      ensures Tables() == tables
    {
      payments, accounts, journals := tables.payments, tables.accounts, tables.journals;
      entries, operations, outbox := tables.entries, tables.operations, tables.outbox;
    }

    /** `PostgresLedger.post`: after the service's own check the database has no balance to reject. */
    method Post(id: string, reference: string, currency: string, postings: seq<Posting>)
      returns (r: Result<string, LedgerError>)
      modifies this
      ensures r == match PostAnswer(old(Tables()), id, currency, postings)
                   case Ok(_) => Ok(id)
                   case Err(e) => Err(e)
      ensures Tables() == Step(old(Tables()), PostJournal(id, reference, currency, postings))
      ensures r != Err(TriggerRejected)
    {
      hide TriggerAccepts, EntriesFor;
      var valid := ValidatePostings(postings);
      if valid.Err? {
        return Err(valid.error);
      }
      var normalized := Upper(currency);
      if |normalized| != 3 {
        return Err(BadCurrency);
      }
      if !Postable(Tables(), id, normalized, postings) {
        return Err(IntegrityViolation);
      }
      ServiceAgreesWithTrigger(postings);
      if !TriggerAccepts(postings) {
        return Err(TriggerRejected);
      }
      journals := journals[id := Journal(reference, normalized)];
      entries := entries + EntriesFor(id, normalized, postings);
      r := Ok(id);
    }

    /** `PostgresLedger.create_account`. */
    method CreateAccount(id: string, currency: string) returns (r: Result<string, LedgerError>)
      modifies this
      ensures Tables() == Step(old(Tables()), OpenAccount(id, currency))
      ensures r.Ok? <==> |currency| == 3 && id !in old(accounts)
      ensures r.Ok? ==> r.value == Upper(currency) && accounts == old(accounts)[id := r.value]
    {
      var normalized := Upper(currency);
      if |normalized| != 3 {
        return Err(BadCurrency);
      }
      if id in accounts {
        return Err(IntegrityViolation);
      }
      accounts := accounts[id := normalized];
      r := Ok(normalized);
    }

    /** `PostgresLedger.account_balance`, one row at a time. */
    method AccountBalance(account: string) returns (balance: int)
      ensures balance == Balance(entries, account)
    {
      balance := 0;
      for i := 0 to |entries|
        invariant balance == Balance(entries[..i], account)
      {
        assert entries[..i + 1] == entries[..i] + [entries[i]];
        assert entries[..i + 1][..i] == entries[..i];
        if entries[i].accountId == account {
          balance := balance + Signed(entries[i]);
        }
      }
      assert entries[..|entries|] == entries;
    }
  }
}
