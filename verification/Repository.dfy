// Idempotent payment creation (app/repository.py): the dictionary implementation, which is also the
// specification of the database one in module Creation.
module Repository {
  import opened Results

  datatype CreateRequest = CreateRequest(amount: int, currency: string, merchantReference: string)

  /** A stored payment; its status is pending, and nothing here changes it. */
  datatype StoredPayment = StoredPayment(id: string, request: CreateRequest, createdAt: int)

  /** What a call draws for the payment it may store. */
  datatype Candidate = Candidate(id: string, createdAt: int)

  datatype CreateError = KeyConflict | ClaimDisappeared | PaymentMissing | NoResult

  type Outcome = Result<StoredPayment, CreateError>

  /** `_payments` and `_idempotency`; equal fingerprints mean equal requests. */
  datatype Book = Book(payments: map<string, StoredPayment>, keys: map<string, (CreateRequest, string)>) {
    /** A key points at the payment its request stored, and at no other key's. */
    predicate Valid() {
      && (forall p :: p in payments ==> payments[p].id == p)
      && (forall k :: k in keys ==> keys[k].1 in payments && payments[keys[k].1].request == keys[k].0)
      && (forall k, l :: k in keys && l in keys && keys[k].1 == keys[l].1 ==> k == l)
    }
  }

  const NO_PAYMENTS := Book(map[], map[])

  /** An empty key is no key. */
  predicate UsesKey(key: Option<string>) {
    key.Some? && key.value != ""
  }

  function NewPayment(request: CreateRequest, c: Candidate): StoredPayment {
    StoredPayment(c.id, request, c.createdAt)
  }

  datatype Call = Call(request: CreateRequest, key: Option<string>, candidate: Candidate) {
    predicate Known(book: Book) {
      UsesKey(key) && key.value in book.keys
    }
  }

  /** The answer of `create_payment`. */
  function Answer(book: Book, call: Call): (r: Outcome)
  {
    if !call.Known(book) then Ok(NewPayment(call.request, call.candidate))
    else
      var (previous, id) := book.keys[call.key.value];
      if previous != call.request then Err(KeyConflict)
      else if id in book.payments then Ok(book.payments[id])
      else Err(PaymentMissing)
  }

  function Create(book: Book, call: Call): (after: Book)
  {
    if call.Known(book) then book
    else
      Book(book.payments[call.candidate.id := NewPayment(call.request, call.candidate)],
           if UsesKey(call.key) then book.keys[call.key.value := (call.request, call.candidate.id)] else book.keys)
  }

  class InMemoryPaymentRepository {
    var payments: map<string, StoredPayment>
    var keys: map<string, (CreateRequest, string)>

    function State(): Book
      reads this
    {
      Book(payments, keys)
    }

    constructor ()
      ensures State() == NO_PAYMENTS && State().Valid()
    {
      payments, keys := map[], map[];
    }

    /** `create_payment`; the candidate's id is a fresh uuid. */
    method CreatePayment(request: CreateRequest, key: Option<string>, candidate: Candidate)
      returns (payment: Result<StoredPayment, CreateError>)
      requires State().Valid() && candidate.id !in payments
      modifies this
      ensures State().Valid()
      ensures payment == Answer(old(State()), Call(request, key, candidate))
      ensures State() == Create(old(State()), Call(request, key, candidate))
      ensures payment.Err? ==> payment.error == KeyConflict
      ensures key.None? || key.value == "" || key.value !in old(keys) ==>
        && payment == Ok(StoredPayment(candidate.id, request, candidate.createdAt))
        && payments == old(payments)[candidate.id := payment.value]
        && keys == if key.None? || key.value == "" then old(keys)
                   else old(keys)[key.value := (request, candidate.id)]
    {
      CreateKeepsValid(State(), Call(request, key, candidate));
      if UsesKey(key) && key.value in keys {
        var (previous, id) := keys[key.value];
        if previous != request {
          return Err(KeyConflict);
        }
        return Ok(payments[id]);
      }
      var created := NewPayment(request, candidate);
      payments := payments[created.id := created];
      if UsesKey(key) {
        keys := keys[key.value := (request, created.id)];
      }
      payment := Ok(created);
    }
  }

  lemma CreateKeepsValid(book: Book, call: Call)
    requires book.Valid() && call.candidate.id !in book.payments
    ensures Create(book, call).Valid()
    ensures Answer(book, call).Err? ==> Answer(book, call).error == KeyConflict
  {
  }

  /** Without a key, or with an empty one, every call stores its own payment as it was asked for. */
  lemma NoKeyAlwaysCreates(book: Book, call: Call)
    requires call.key.None? || call.key.value == ""
    ensures Answer(book, call) == Ok(StoredPayment(call.candidate.id, call.request, call.candidate.createdAt))
    ensures Create(book, call).keys == book.keys
    ensures Create(book, call).payments == book.payments[call.candidate.id := Answer(book, call).value]
  {
  }

  /** A key that is not empty and not known is remembered with the request and the payment it stored. */
  lemma NewKeyIsRemembered(book: Book, call: Call)
    requires call.key.Some? && call.key.value != "" && call.key.value !in book.keys
    ensures Answer(book, call) == Ok(StoredPayment(call.candidate.id, call.request, call.candidate.createdAt))
    ensures Create(book, call).keys == book.keys[call.key.value := (call.request, call.candidate.id)]
    ensures Create(book, call).payments == book.payments[call.candidate.id := Answer(book, call).value]
  {
  }

  function Run(book: Book, calls: seq<Call>): Book
    decreases |calls|
  {
    if calls == [] then book else Run(Create(book, calls[0]), calls[1..])
  }

  /** Candidates are fresh: none is stored already, and no two calls draw the same. */
  predicate FreshCandidates(book: Book, calls: seq<Call>) {
    && (forall i :: 0 <= i < |calls| ==> calls[i].candidate.id !in book.payments)
    && (forall i, j :: 0 <= i < j < |calls| ==> calls[i].candidate.id != calls[j].candidate.id)
  }

  lemma FreshLater(book: Book, calls: seq<Call>)
    requires FreshCandidates(book, calls) && calls != []
    ensures FreshCandidates(Create(book, calls[0]), calls[1..])
  {
    var rest := calls[1..];
    forall i | 0 <= i < |rest|
      ensures rest[i].candidate.id !in Create(book, calls[0]).payments
    {
      assert rest[i] == calls[i + 1] && calls[0].candidate.id != calls[i + 1].candidate.id;
    }
  }

  /** Payments and keys stay as they were stored. */
  lemma {:induction false} RunKeeps(book: Book, calls: seq<Call>)
    requires book.Valid() && FreshCandidates(book, calls)
    ensures Run(book, calls).Valid()
    ensures var after := Run(book, calls);
      && (forall p :: p in book.payments ==> p in after.payments && after.payments[p] == book.payments[p])
      && (forall k :: k in book.keys ==> k in after.keys && after.keys[k] == book.keys[k])
    decreases |calls|
  {
    hide Book.Valid, FreshCandidates;
    if calls != [] {
      assert calls[0].candidate.id !in book.payments by {
        FirstFresh(book, calls);
      }
      CreateKeepsValid(book, calls[0]);
      FreshLater(book, calls);
      RunKeeps(Create(book, calls[0]), calls[1..]);
    }
  }

  lemma FirstFresh(book: Book, calls: seq<Call>)
    requires FreshCandidates(book, calls) && calls != []
    ensures calls[0].candidate.id !in book.payments
  {
  }

  /** Repeating a call under its key returns the payment the first call returned and stores nothing;
      another request under the key is refused; both whatever calls came in between. */
  lemma RepeatReturnsFirst(book: Book, call: Call, between: seq<Call>, again: Call)
    requires book.Valid() && FreshCandidates(book, [call] + between)
    requires UsesKey(call.key) && again.key == call.key && Answer(book, call).Ok?
    ensures var later := Run(Create(book, call), between);
      && Create(later, again) == later
      && Answer(later, again) == if again.request == call.request then Answer(book, call) else Err(KeyConflict)
  {
    assert ([call] + between)[0] == call && ([call] + between)[1..] == between;
    FirstFresh(book, [call] + between);
    FreshLater(book, [call] + between);
    CreateKeepsValid(book, call);
    RunKeeps(Create(book, call), between);
  }
}
