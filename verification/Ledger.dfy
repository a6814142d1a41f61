// The double-entry ledger (app/ledger.py, migrations/002_double_entry_ledger.sql): the posting
// check of the service, the deferred commit trigger of the database, and balances over entries.
module Ledger {
  import opened Results

  datatype Side = Debit | Credit

  datatype Posting = Posting(accountId: string, side: Side, amount: int)

  datatype Entry = Entry(journalId: string, accountId: string, side: Side, amount: int, currency: string)

  datatype LedgerError =
    | TooFewPostings
    | NonPositiveAmount
    | UnbalancedPostings
    | BadCurrency
    | IntegrityViolation
    | TriggerRejected

  /** The total of the postings on one side. */
  function SideTotal(postings: seq<Posting>, side: Side): int
  {
    if postings == [] then 0
    else
      var last := postings[|postings| - 1];
      SideTotal(postings[..|postings| - 1], side) + if last.side == side then last.amount else 0
  }

  lemma SideTotalAppend(front: seq<Posting>, last: Posting, side: Side)
    ensures SideTotal(front + [last], side) == SideTotal(front, side) + if last.side == side then last.amount else 0
  {
    assert (front + [last])[..|front|] == front;
  }

  predicate AllPositive(postings: seq<Posting>) {
    forall i :: 0 <= i < |postings| ==> postings[i].amount > 0
  }

  /** `_validate_postings`. */
  function ValidatePostings(postings: seq<Posting>): (r: Result<(), LedgerError>)
  {
    if |postings| < 2 then Err(TooFewPostings)
    else if !AllPositive(postings) then Err(NonPositiveAmount)
    else if SideTotal(postings, Debit) != SideTotal(postings, Credit) then Err(UnbalancedPostings)
    else Ok(())
  }

  /** The fault of refused postings: their number, then an amount, then the balance. */
  lemma PostingFaults(postings: seq<Posting>)
    requires ValidatePostings(postings).Err?
    ensures ValidatePostings(postings).error ==
      if |postings| == 0 || |postings| == 1 then TooFewPostings
      else if exists i :: 0 <= i < |postings| && postings[i].amount <= 0 then NonPositiveAmount
      else UnbalancedPostings
  {
    hide SideTotal;
  }

  /** The deferred trigger's test at commit, on the rows of the new journal. */
  predicate TriggerAccepts(rows: seq<Posting>) {
    && |rows| >= 2
    && SideTotal(rows, Debit) != 0
    && SideTotal(rows, Credit) != 0
    && SideTotal(rows, Debit) == SideTotal(rows, Credit)
  }

  lemma {:induction false} PositiveTotals(postings: seq<Posting>)
    requires AllPositive(postings)
    ensures SideTotal(postings, Debit) >= 0 && SideTotal(postings, Credit) >= 0
    ensures postings != [] ==> SideTotal(postings, Debit) + SideTotal(postings, Credit) > 0
  {
    if postings != [] {
      PositiveTotals(postings[..|postings| - 1]);
    }
  }

  /** The service accepts exactly the lists of positive postings the commit trigger accepts. */
  lemma ServiceAgreesWithTrigger(postings: seq<Posting>)
    ensures ValidatePostings(postings).Ok? <==> AllPositive(postings) && TriggerAccepts(postings)
  {
    if AllPositive(postings) {
      PositiveTotals(postings);
    }
  }

  // ----- entries and balances ----------------------------------------------------------

  function Signed(e: Entry): int {
    if e.side == Debit then e.amount else -e.amount
  }

  /** `account_balance`: debits minus credits over the entries of an account. */
  function Balance(entries: seq<Entry>, account: string): int
  {
    if entries == [] then 0
    else
      var last := entries[|entries| - 1];
      Balance(entries[..|entries| - 1], account) + if last.accountId == account then Signed(last) else 0
  }

  function CurrencyTotal(entries: seq<Entry>, currency: string): int
  {
    if entries == [] then 0
    else
      var last := entries[|entries| - 1];
      CurrencyTotal(entries[..|entries| - 1], currency) + if last.currency == currency then Signed(last) else 0
  }

  function EntriesOf(entries: seq<Entry>, journalId: string): seq<Entry>
  {
    if entries == [] then []
    else
      var last := entries[|entries| - 1];
      EntriesOf(entries[..|entries| - 1], journalId) + if last.journalId == journalId then [last] else []
  }

  /** The rows of one journal as the trigger sees them. */
  function Rows(entries: seq<Entry>): (s: seq<Posting>)
    ensures |s| == |entries|
  {
    seq(|entries|, i requires 0 <= i < |entries| =>
      Posting(entries[i].accountId, entries[i].side, entries[i].amount))
  }

  /** The entries a posting list inserts under one journal. */
  function EntriesFor(journalId: string, currency: string, postings: seq<Posting>): (s: seq<Entry>)
    ensures |s| == |postings|
    ensures Rows(s) == postings
  {
    var s := seq(|postings|, i requires 0 <= i < |postings| =>
      Entry(journalId, postings[i].accountId, postings[i].side, postings[i].amount, currency));
    assert Rows(s) == postings;
    s
  }

  lemma {:induction false} BalanceConcat(a: seq<Entry>, b: seq<Entry>, account: string)
    ensures Balance(a + b, account) == Balance(a, account) + Balance(b, account)
  {
    if b == [] {
      assert a + b == a;
    } else {
      var c := a + b;
      assert c[..|c| - 1] == a + b[..|b| - 1] && c[|c| - 1] == b[|b| - 1];
      BalanceConcat(a, b[..|b| - 1], account);
    }
  }

  lemma {:induction false} TotalConcat(a: seq<Entry>, b: seq<Entry>, currency: string)
    ensures CurrencyTotal(a + b, currency) == CurrencyTotal(a, currency) + CurrencyTotal(b, currency)
  {
    if b == [] {
      assert a + b == a;
    } else {
      var c := a + b;
      assert c[..|c| - 1] == a + b[..|b| - 1] && c[|c| - 1] == b[|b| - 1];
      TotalConcat(a, b[..|b| - 1], currency);
    }
  }

  lemma {:induction false} EntriesOfConcat(a: seq<Entry>, b: seq<Entry>, journalId: string)
    ensures EntriesOf(a + b, journalId) == EntriesOf(a, journalId) + EntriesOf(b, journalId)
  {
    if b == [] {
      assert a + b == a;
      assert EntriesOf(a, journalId) + [] == EntriesOf(a, journalId);
    } else {
      var c := a + b;
      var front, last := b[..|b| - 1], b[|b| - 1];
      assert c[..|c| - 1] == a + front && c[|c| - 1] == last;
      EntriesOfConcat(a, front, journalId);
      var tail := if last.journalId == journalId then [last] else [];
      assert EntriesOf(c, journalId) == EntriesOf(a + front, journalId) + tail;
      assert EntriesOf(b, journalId) == EntriesOf(front, journalId) + tail;
    }
  }

  lemma {:induction false} EntriesOfNone(entries: seq<Entry>, journalId: string)
    requires forall e :: e in entries ==> e.journalId != journalId
    ensures EntriesOf(entries, journalId) == []
  {
    if entries != [] {
      assert entries[|entries| - 1] in entries;
      EntriesOfNone(entries[..|entries| - 1], journalId);
    }
  }

  lemma {:induction false} EntriesOfAll(entries: seq<Entry>, journalId: string)
    requires forall e :: e in entries ==> e.journalId == journalId
    ensures EntriesOf(entries, journalId) == entries
  {
    if entries != [] {
      var front, last := entries[..|entries| - 1], entries[|entries| - 1];
      assert entries == front + [last] && last in entries;
      EntriesOfAll(front, journalId);
      assert EntriesOf(entries, journalId) == EntriesOf(front, journalId) + [last];
    }
  }

  /** The signed total of the entries of one posting list, all in one currency. */
  lemma {:induction false} TotalOfPostings(journalId: string, currency: string, postings: seq<Posting>, c: string)
    ensures CurrencyTotal(EntriesFor(journalId, currency, postings), c) ==
      if c == currency then SideTotal(postings, Debit) - SideTotal(postings, Credit) else 0
  {
    if postings != [] {
      var front := postings[..|postings| - 1];
      var s := EntriesFor(journalId, currency, postings);
      assert s[..|s| - 1] == EntriesFor(journalId, currency, front);
      TotalOfPostings(journalId, currency, front, c);
    }
  }

  // ----- sums over accounts ------------------------------------------------------------

  /** The sum of the balances of a set of accounts. */
  ghost function BalanceSum(accounts: set<string>, entries: seq<Entry>): int
  {
    if accounts == {} then 0
    else Balance(entries, First(accounts)) + BalanceSum(accounts - {First(accounts)}, entries)
  }

  /** The account `BalanceSum` takes out of the set first. */
  ghost function First(accounts: set<string>): string
    requires accounts != {}
  {
    var a :| a in accounts;
    a
  }

  lemma {:induction false} BalanceSumExtend(accounts: set<string>, entries: seq<Entry>, e: Entry)
    ensures BalanceSum(accounts, entries + [e]) ==
      BalanceSum(accounts, entries) + if e.accountId in accounts then Signed(e) else 0
  {
    if accounts == {} {
    } else {
      var a := First(accounts);
      BalanceSumExtend(accounts - {a}, entries, e);
      BalanceConcat(entries, [e], a);
      assert [e][..0] == [];
      assert Balance([e], a) == if e.accountId == a then Signed(e) else 0;
    }
  }

  lemma {:induction false} BalanceSumOfNothing(accounts: set<string>)
    ensures BalanceSum(accounts, []) == 0
  {
    if accounts == {} {
    } else {
      BalanceSumOfNothing(accounts - {First(accounts)});
      assert Balance([], First(accounts)) == 0;
    }
  }

  /** If every entry is in the currency of its account, the balances of the accounts of a currency
      sum to the signed total of the entries in that currency. */
  lemma {:induction false} BalancesSumToTotal(accounts: map<string, string>, entries: seq<Entry>, currency: string)
    requires forall e :: e in entries ==> e.accountId in accounts && accounts[e.accountId] == e.currency
    ensures BalanceSum((set a | a in accounts && accounts[a] == currency), entries) == CurrencyTotal(entries, currency)
  {
    var chosen := set a | a in accounts && accounts[a] == currency;
    if entries == [] {
      BalanceSumOfNothing(chosen);
    } else {
      var front, last := entries[..|entries| - 1], entries[|entries| - 1];
      assert entries == front + [last] && last in entries;
      BalancesSumToTotal(accounts, front, currency);
      BalanceSumExtend(chosen, front, last);
    }
  }
}
