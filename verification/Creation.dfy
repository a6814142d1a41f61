// Concurrent payment creation against the database (app/repository.py:110-175): insert a candidate,
// claim the key, and delete the candidate when the claim is lost. Any schedule, any number of calls.
module Creation {
  import opened Results
  import opened Repository

  /** How far a transaction has come. `Read` holds the key's record; `Settled` holds the two local
      variables the answer is made of once the transaction has committed. */
  datatype Phase =
    | Started
    | Inserted
    | Claimed
    | Lost
    | Deleted
    | Read(previous: CreateRequest, id: string)
    | Settled(result: Option<StoredPayment>, conflict: bool)
    | Done(outcome: Outcome, position: nat)
    | Aborted

  /** A call, and the rows its transaction has written and not committed. */
  datatype Txn = Txn(call: Call, row: Option<StoredPayment>, holdsClaim: bool, phase: Phase) {
    predicate Finished() {
      phase.Done? || phase.Aborted?
    }
  }

  /** The committed tables, the keys whose claims are not committed yet, the calls, and the order in
      which the finished ones took effect. */
  datatype Sys = Sys(book: Book, claims: map<string, nat>, txns: map<nat, Txn>, log: seq<Call>)

  const INITIAL := Sys(NO_PAYMENTS, map[], map[], [])

  datatype Move =
    | Spawn(t: nat, call: Call)
    | Insert(t: nat)
    | SkipKey(t: nat)
    | Claim(t: nat)
    | Keep(t: nat)
    | Delete(t: nat)
    | LookUp(t: nat)
    | Fetch(t: nat)
    | Commit(t: nat)
    | Abort(t: nat)

  predicate At(sys: Sys, t: nat, phase: Phase) {
    t in sys.txns && sys.txns[t].phase == phase
  }

  /** Candidate ids are fresh uuids. */
  predicate FreshId(sys: Sys, id: string) {
    id !in sys.book.payments && forall t :: t in sys.txns ==> sys.txns[t].call.candidate.id != id
  }

  /** Whether a move can be taken. Claiming a key waits while another claim of it is not committed. */
  predicate Enabled(sys: Sys, move: Move) {
    match move
    case Spawn(t, call) => t !in sys.txns && FreshId(sys, call.candidate.id)
    case Insert(t) => At(sys, t, Started)
    case SkipKey(t) => At(sys, t, Inserted) && !UsesKey(sys.txns[t].call.key)
    case Claim(t) =>
      At(sys, t, Inserted) && UsesKey(sys.txns[t].call.key) && sys.txns[t].call.key.value !in sys.claims
    case Keep(t) => At(sys, t, Claimed)
    case Delete(t) => At(sys, t, Lost)
    case LookUp(t) => At(sys, t, Deleted)
    case Fetch(t) => t in sys.txns && sys.txns[t].phase.Read?
    case Commit(t) => t in sys.txns && sys.txns[t].phase.Settled?
    case Abort(t) => t in sys.txns && !sys.txns[t].Finished()
  }

  function SetTxn(sys: Sys, t: nat, txn: Txn): Sys {
    sys.(txns := sys.txns[t := txn])
  }

  function SetPhase(sys: Sys, t: nat, phase: Phase): Sys
    requires t in sys.txns
  {
    SetTxn(sys, t, sys.txns[t].(phase := phase))
  }

  /** The claim of a transaction that ends is no longer in progress. */
  function Unclaimed(sys: Sys, t: nat): map<string, nat>
    requires t in sys.txns
  {
    var txn := sys.txns[t];
    if txn.holdsClaim && txn.call.key.Some? then sys.claims - {txn.call.key.value} else sys.claims
  }

  /** The transaction ends without publishing its rows; a call that answers takes its place in the order. */
  function RolledBack(sys: Sys, t: nat, outcome: Outcome): Sys
    requires t in sys.txns
  {
    Sys(sys.book, Unclaimed(sys, t),
        sys.txns[t := sys.txns[t].(row := None, holdsClaim := false, phase := Done(outcome, |sys.log|))],
        sys.log + [sys.txns[t].call])
  }

  /** The tables with the rows of a transaction published. */
  function Published(book: Book, txn: Txn): Book {
    Book(if txn.row.Some? then book.payments[txn.row.value.id := txn.row.value] else book.payments,
         if txn.holdsClaim && txn.call.key.Some? then
           book.keys[txn.call.key.value := (txn.call.request, txn.call.candidate.id)]
         else book.keys)
  }

  /** What the code after the transaction answers. */
  function AnswerOf(result: Option<StoredPayment>, conflict: bool): Outcome {
    if conflict then Err(KeyConflict) else if result.None? then Err(NoResult) else Ok(result.value)
  }

  function Apply(sys: Sys, move: Move): (after: Sys)
    requires Enabled(sys, move)
  {
    match move
    case Spawn(t, call) => SetTxn(sys, t, Txn(call, None, false, Started))
    case Insert(t) =>
      var call := sys.txns[t].call;
      SetTxn(sys, t, sys.txns[t].(row := Some(NewPayment(call.request, call.candidate)), phase := Inserted))
    case SkipKey(t) => SetPhase(sys, t, Settled(sys.txns[t].row, false))
    case Claim(t) =>
      var key := sys.txns[t].call.key.value;
      if key in sys.book.keys then SetPhase(sys, t, Lost)
      else SetTxn(sys.(claims := sys.claims[key := t]), t, sys.txns[t].(holdsClaim := true, phase := Claimed))
    case Keep(t) => SetPhase(sys, t, Settled(sys.txns[t].row, false))
    case Delete(t) => SetTxn(sys, t, sys.txns[t].(row := None, phase := Deleted))
    case LookUp(t) =>
      var key := sys.txns[t].call.key;
      if key.None? || key.value !in sys.book.keys then RolledBack(sys, t, Err(ClaimDisappeared))
      else SetPhase(sys, t, Read(sys.book.keys[key.value].0, sys.book.keys[key.value].1))
    case Fetch(t) =>
      var phase := sys.txns[t].phase;
      if phase.previous != sys.txns[t].call.request then SetPhase(sys, t, Settled(None, true))
      else if phase.id !in sys.book.payments then RolledBack(sys, t, Err(PaymentMissing))
      else SetPhase(sys, t, Settled(Some(sys.book.payments[phase.id]), false))
    case Commit(t) =>
      var txn := sys.txns[t];
      Sys(Published(sys.book, txn), Unclaimed(sys, t),
          sys.txns[t := txn.(row := None, holdsClaim := false,
                             phase := Done(AnswerOf(txn.phase.result, txn.phase.conflict), |sys.log|))],
          sys.log + [txn.call])
    case Abort(t) =>
      Sys(sys.book, Unclaimed(sys, t), sys.txns[t := sys.txns[t].(row := None, holdsClaim := false, phase := Aborted)],
          sys.log)
  }

  predicate Schedule(sys: Sys, moves: seq<Move>)
    decreases |moves|
  {
    moves == [] || (Enabled(sys, moves[0]) && Schedule(Apply(sys, moves[0]), moves[1..]))
  }

  function After(sys: Sys, moves: seq<Move>): Sys
    requires Schedule(sys, moves)
    decreases |moves|
  {
    if moves == [] then sys else After(Apply(sys, moves[0]), moves[1..])
  }

  // ----- the invariant -----------------------------------------------------------------

  /** A claim in progress belongs to the one transaction that made it, and its key is not committed. */
  predicate ClaimsOk(sys: Sys) {
    && (forall t :: t in sys.txns && sys.txns[t].holdsClaim ==> ClaimHeld(sys, t))
    && (forall k :: k in sys.claims ==>
          sys.claims[k] in sys.txns && sys.txns[sys.claims[k]].holdsClaim
          && sys.txns[sys.claims[k]].call.key == Some(k) && k !in sys.book.keys)
  }

  predicate ClaimHeld(sys: Sys, t: nat)
    requires t in sys.txns
  {
    var key := sys.txns[t].call.key;
    UsesKey(key) && key.value in sys.claims && sys.claims[key.value] == t
  }

  /** What a transaction in progress has written and seen. */
  predicate ViewOk(book: Book, txn: Txn) {
    var own := NewPayment(txn.call.request, txn.call.candidate);
    match txn.phase
    case Started => txn.row.None? && !txn.holdsClaim
    case Inserted => txn.row == Some(own) && !txn.holdsClaim
    case Claimed => txn.row == Some(own) && txn.holdsClaim && UsesKey(txn.call.key)
    case Lost => txn.row == Some(own) && !txn.holdsClaim && txn.call.Known(book)
    case Deleted => txn.row.None? && !txn.holdsClaim && txn.call.Known(book)
    case Read(previous, id) =>
      && txn.row.None? && !txn.holdsClaim && txn.call.Known(book)
      && book.keys[txn.call.key.value] == (previous, id)
    case Settled(result, conflict) => SettledOk(book, txn, own, result, conflict)
    case _ => txn.row.None? && !txn.holdsClaim
  }

  /** What is settled is what the dictionary answers, now and at any later time before the commit. */
  predicate SettledOk(book: Book, txn: Txn, own: StoredPayment, result: Option<StoredPayment>, conflict: bool) {
    if txn.row.Some? then
      txn.row == Some(own) && result == Some(own) && !conflict && (txn.holdsClaim <==> UsesKey(txn.call.key))
    else
      !txn.holdsClaim && txn.call.Known(book) && AnswerOf(result, conflict) == Answer(book, txn.call)
  }

  predicate ViewsOk(sys: Sys) {
    forall t :: t in sys.txns ==> ViewOk(sys.book, sys.txns[t])
  }

  /** Every call's candidate is its own, and is stored exactly when the call returned it. */
  predicate CandidatesOk(sys: Sys) {
    && (forall t, u :: t in sys.txns && u in sys.txns && t != u ==>
          sys.txns[t].call.candidate.id != sys.txns[u].call.candidate.id)
    && (forall t :: t in sys.txns ==> CandidateOk(sys.book, sys.txns[t]))
  }

  predicate CandidateOk(book: Book, txn: Txn) {
    txn.call.candidate.id in book.payments <==>
    txn.phase.Done? && txn.phase.outcome == Ok(NewPayment(txn.call.request, txn.call.candidate))
  }

  /** The dictionary after the first `n` calls of the order. */
  function Serial(log: seq<Call>, n: nat): Book
    requires n <= |log|
    decreases n
  {
    if n == 0 then NO_PAYMENTS else Create(Serial(log, n - 1), log[n - 1])
  }

  /** A finished call stands at its place and answered what the dictionary answers there. */
  predicate Placed(sys: Sys, t: nat)
    requires t in sys.txns
  {
    var txn := sys.txns[t];
    txn.phase.Done? ==>
      && txn.phase.position < |sys.log|
      && sys.log[txn.phase.position] == txn.call
      && txn.phase.outcome == Answer(Serial(sys.log, txn.phase.position), txn.call)
  }

  predicate AllPlaced(sys: Sys) {
    forall t :: t in sys.txns ==> Placed(sys, t)
  }

  predicate SysInv(sys: Sys) {
    && sys.book.Valid()
    && sys.book == Serial(sys.log, |sys.log|)
    && ClaimsOk(sys) && ViewsOk(sys) && CandidatesOk(sys) && AllPlaced(sys)
  }

  // ----- preservation ------------------------------------------------------------------

  lemma {:induction false} SerialPrefix(log: seq<Call>, more: seq<Call>, n: nat)
    requires n <= |log|
    ensures Serial(log + more, n) == Serial(log, n)
    decreases n
  {
    if n > 0 {
      SerialPrefix(log, more, n - 1);
    }
  }

  /** A settled transaction publishes what the dictionary stores and answers what it answers. */
  lemma CommitIsCreate(book: Book, txn: Txn)
    requires ViewOk(book, txn) && txn.phase.Settled?
    requires txn.holdsClaim ==> txn.call.key.Some? && txn.call.key.value !in book.keys
    ensures Published(book, txn) == Create(book, txn.call)
    ensures AnswerOf(txn.phase.result, txn.phase.conflict) == Answer(book, txn.call)
  {
  }

  /** A commit never changes what another transaction has seen. */
  lemma ViewSurvives(book: Book, call: Call, txn: Txn)
    requires book.Valid() && ViewOk(book, txn) && (call.candidate.id !in book.payments || call.Known(book))
    ensures ViewOk(Create(book, call), txn)
  {
  }

  /** The errors for a claim or a payment that is gone never arise. */
  lemma RecordsAreThere(sys: Sys, move: Move)
    requires SysInv(sys) && Enabled(sys, move)
    ensures move.LookUp? ==> sys.txns[move.t].call.Known(sys.book)
    ensures move.Fetch? ==> sys.txns[move.t].phase.id in sys.book.payments
  {
    hide CandidatesOk, AllPlaced, Serial, ClaimsOk;
    if move.LookUp? || move.Fetch? {
      assert ViewOk(sys.book, sys.txns[move.t]);
    }
  }

  /** A move inside a transaction: nothing is committed. */
  predicate Inside(sys: Sys, after: Sys, t: nat) {
    && after.book == sys.book && after.log == sys.log
    && t in after.txns && after.txns == sys.txns[t := after.txns[t]]
    && !after.txns[t].phase.Done?
    && (t in sys.txns ==> !sys.txns[t].Finished() && after.txns[t].call == sys.txns[t].call)
    && (t !in sys.txns ==> FreshId(sys, after.txns[t].call.candidate.id))
  }

  lemma InsideKeepsInv(sys: Sys, after: Sys, t: nat)
    requires SysInv(sys) && Inside(sys, after, t)
    requires ViewOk(sys.book, after.txns[t]) && ClaimsOk(after)
    ensures SysInv(after)
  {
    hide ViewOk, ClaimsOk, Serial, Book.Valid;
    forall u | u in after.txns
      ensures Placed(after, u) && CandidateOk(after.book, after.txns[u]) && ViewOk(after.book, after.txns[u])
    {
      if u in sys.txns {
        assert Placed(sys, u) && CandidateOk(sys.book, sys.txns[u]) && ViewOk(sys.book, sys.txns[u]);
      }
    }
  }

  /** A transaction that goes on with or without its claim keeps the claims consistent. */
  lemma SameClaims(sys: Sys, after: Sys, t: nat)
    requires ClaimsOk(sys) && Inside(sys, after, t) && after.claims == sys.claims
    requires t in sys.txns ==> after.txns[t].holdsClaim == sys.txns[t].holdsClaim
    requires t !in sys.txns ==> !after.txns[t].holdsClaim
    ensures ClaimsOk(after)
  {
    hide FreshId;
    forall u | u in after.txns && after.txns[u].holdsClaim
      ensures ClaimHeld(after, u)
    {
      assert ClaimHeld(sys, u);
    }
  }

  lemma NewClaim(sys: Sys, after: Sys, t: nat, key: string)
    requires ClaimsOk(sys) && Inside(sys, after, t) && t in sys.txns && after.txns[t].holdsClaim
    requires sys.txns[t].call.key == Some(key) && UsesKey(Some(key))
    requires key !in sys.claims && key !in sys.book.keys && after.claims == sys.claims[key := t]
    ensures ClaimsOk(after)
  {
    hide FreshId;
    forall u | u in after.txns && after.txns[u].holdsClaim
      ensures ClaimHeld(after, u)
    {
      assert u != t ==> ClaimHeld(sys, u);
    }
  }

  lemma ClaimGone(sys: Sys, after: Sys, t: nat)
    requires ClaimsOk(sys) && Inside(sys, after, t) && t in sys.txns && !after.txns[t].holdsClaim
    requires after.claims == Unclaimed(sys, t)
    ensures ClaimsOk(after)
  {
    hide FreshId;
    if sys.txns[t].holdsClaim {
      assert ClaimHeld(sys, t);
    }
    forall u | u in after.txns && after.txns[u].holdsClaim
      ensures ClaimHeld(after, u)
    {
      assert ClaimHeld(sys, u);
    }
  }

  lemma ClaimsInside(sys: Sys, move: Move)
    requires ClaimsOk(sys) && Enabled(sys, move) && !move.Commit?
    requires Inside(sys, Apply(sys, move), move.t)
    ensures ClaimsOk(Apply(sys, move))
  {
    hide Book.Valid, FreshId, ClaimsOk, Inside;
    var t, after := move.t, Apply(sys, move);
    InsideLogs(sys, after, t);
    if move.Abort? {
      ClaimGone(sys, after, t);
    } else if move.Claim? && sys.txns[t].call.key.value !in sys.book.keys {
      NewClaim(sys, after, t, sys.txns[t].call.key.value);
    } else {
      SameClaims(sys, after, t);
    }
  }

  lemma InsideLogs(sys: Sys, after: Sys, t: nat)
    requires Inside(sys, after, t)
    ensures after.log == sys.log && t in after.txns
  {
  }

  lemma ViewInside(sys: Sys, move: Move)
    requires SysInv(sys) && Enabled(sys, move) && !move.Commit?
    ensures Inside(sys, Apply(sys, move), move.t)
    ensures ViewOk(sys.book, Apply(sys, move).txns[move.t])
  {
    hide CandidatesOk, AllPlaced, Serial, ClaimsOk, FreshId, Unclaimed, ViewOk;
    RecordsAreThere(sys, move);
    if move.t in sys.txns {
      assert ViewOk(sys.book, sys.txns[move.t]);
      StepView(sys, move);
    } else {
      EmptyView(sys.book, move.call);
    }
  }

  lemma EmptyView(book: Book, call: Call)
    ensures ViewOk(book, Txn(call, None, false, Started))
  {
  }

  /** The next step of a transaction finds things as the last one left them. */
  lemma StepView(sys: Sys, move: Move)
    requires Enabled(sys, move) && !move.Commit? && move.t in sys.txns && sys.book.Valid()
    requires ViewOk(sys.book, sys.txns[move.t])
    ensures ViewOk(sys.book, Apply(sys, move).txns[move.t])
  {
    hide FreshId, Unclaimed;
  }

  lemma CommitKeepsClaims(sys: Sys, t: nat)
    requires ClaimsOk(sys) && Enabled(sys, Commit(t))
    ensures ClaimsOk(Apply(sys, Commit(t)))
    ensures sys.txns[t].holdsClaim ==> sys.txns[t].call.key.Some? && sys.txns[t].call.key.value !in sys.book.keys
  {
    if sys.txns[t].holdsClaim {
      assert ClaimHeld(sys, t);
    }
    var after := Apply(sys, Commit(t));
    forall u | u in after.txns && after.txns[u].holdsClaim
      ensures ClaimHeld(after, u)
    {
      assert u != t && ClaimHeld(sys, u);
    }
  }

  lemma CommitKeepsCandidates(sys: Sys, t: nat)
    requires SysInv(sys) && Enabled(sys, Commit(t))
    ensures CandidatesOk(Apply(sys, Commit(t)))
  {
    hide Serial, AllPlaced;
    var txn := sys.txns[t];
    var after := Apply(sys, Commit(t));
    CommitKeepsClaims(sys, t);
    assert ViewOk(sys.book, txn) && CandidateOk(sys.book, txn);
    CommitIsCreate(sys.book, txn);
    forall u | u in after.txns
      ensures CandidateOk(after.book, after.txns[u])
    {
      assert CandidateOk(sys.book, sys.txns[u]);
    }
  }

  lemma CommitKeepsPlaces(sys: Sys, t: nat)
    requires SysInv(sys) && Enabled(sys, Commit(t))
    requires AnswerOf(sys.txns[t].phase.result, sys.txns[t].phase.conflict) == Answer(sys.book, sys.txns[t].call)
    ensures AllPlaced(Apply(sys, Commit(t)))
  {
    hide Answer, AnswerOf, Published, Unclaimed, Book.Valid;
    var after := Apply(sys, Commit(t));
    forall u | u in after.txns
      ensures Placed(after, u)
    {
      assert Placed(sys, u);
      if after.txns[u].phase.Done? {
        SerialPrefix(sys.log, [sys.txns[t].call], after.txns[u].phase.position);
      }
    }
  }

  lemma CommitKeepsInv(sys: Sys, t: nat)
    requires SysInv(sys) && Enabled(sys, Commit(t))
    ensures SysInv(Apply(sys, Commit(t)))
  {
    hide Answer, AnswerOf, Published, Unclaimed, Book.Valid, ClaimsOk, CandidatesOk, AllPlaced, ViewOk, Create;
    var txn := sys.txns[t];
    var after := Apply(sys, Commit(t));
    assert ViewOk(sys.book, txn);
    CommitKeepsClaims(sys, t);
    CommitKeepsCandidates(sys, t);
    CommitIsCreate(sys.book, txn);
    CommitKeepsPlaces(sys, t);
    CandidateFresh(sys, t);
    SerialPrefix(sys.log, [txn.call], |sys.log|);
    assert after.book == Create(sys.book, txn.call);
    assert after.log[|sys.log|] == txn.call;
    CreateKnownOrFresh(sys.book, txn.call);
    forall u | u in after.txns
      ensures ViewOk(after.book, after.txns[u])
    {
      if u == t {
        EndedView(after.book, after.txns[t]);
      } else {
        ViewSurvives(sys.book, txn.call, sys.txns[u]);
      }
    }
  }

  lemma EndedView(book: Book, txn: Txn)
    requires txn.Finished() && txn.row.None? && !txn.holdsClaim
    ensures ViewOk(book, txn)
  {
  }

  lemma CandidateFresh(sys: Sys, t: nat)
    requires CandidatesOk(sys) && t in sys.txns && !sys.txns[t].phase.Done?
    ensures sys.txns[t].call.candidate.id !in sys.book.payments
  {
    assert CandidateOk(sys.book, sys.txns[t]);
  }

  lemma CreateKnownOrFresh(book: Book, call: Call)
    requires book.Valid() && call.candidate.id !in book.payments
    ensures Create(book, call).Valid()
  {
    CreateKeepsValid(book, call);
  }

  /** Every move keeps the invariant. */
  lemma MoveKeepsInv(sys: Sys, move: Move)
    requires SysInv(sys) && Enabled(sys, move)
    ensures SysInv(Apply(sys, move))
  {
    if move.Commit? {
      hide SysInv, Apply;
      CommitKeepsInv(sys, move.t);
    } else {
      hide Apply, Serial, CandidatesOk, AllPlaced, ClaimsOk, ViewsOk, Enabled, Book.Valid;
      ViewInside(sys, move);
      ClaimsInside(sys, move);
      InsideKeepsInv(sys, Apply(sys, move), move.t);
    }
  }

  lemma {:induction false} ScheduleKeepsInv(sys: Sys, moves: seq<Move>)
    requires SysInv(sys) && Schedule(sys, moves)
    ensures SysInv(After(sys, moves))
    decreases |moves|
  {
    hide SysInv, Apply, Enabled;
    if moves != [] {
      MoveKeepsInv(sys, moves[0]);
      ScheduleKeepsInv(Apply(sys, moves[0]), moves[1..]);
    }
  }

  // ----- whose the entries of the order are --------------------------------------------

  /** Call `t` finished at place `i` of the order. */
  predicate StandsAt(sys: Sys, t: nat, i: int) {
    t in sys.txns && sys.txns[t].phase.Done? && sys.txns[t].phase.position == i
  }

  ghost predicate OwnedAt(sys: Sys, i: int) {
    exists t :: StandsAt(sys, t, i)
  }

  /** Each place of the order is that of a finished call, and of no other. */
  ghost predicate PlacesOwned(sys: Sys) {
    && (forall i :: 0 <= i < |sys.log| ==> OwnedAt(sys, i))
    && (forall t, i :: StandsAt(sys, t, i) ==> i < |sys.log|)
    && (forall t, u, i :: StandsAt(sys, t, i) && StandsAt(sys, u, i) ==> t == u)
  }

  /** A move leaves finished calls where they are; a call that finishes takes the next place. */
  lemma PlacesStep(sys: Sys, move: Move)
    requires Enabled(sys, move)
    ensures var after := Apply(sys, move);
      || (after.log == sys.log && forall t, i :: StandsAt(after, t, i) <==> StandsAt(sys, t, i))
      || (|after.log| == |sys.log| + 1
          && forall t, i :: StandsAt(after, t, i) <==> StandsAt(sys, t, i) || (t == move.t && i == |sys.log|))
  {
    hide FreshId, Published, Unclaimed, AnswerOf;
  }

  lemma MoveKeepsOwners(sys: Sys, move: Move)
    requires Enabled(sys, move) && PlacesOwned(sys)
    ensures PlacesOwned(Apply(sys, move))
  {
    hide Enabled, Apply, StandsAt;
    PlacesStep(sys, move);
    var after := Apply(sys, move);
    forall i | 0 <= i < |after.log|
      ensures OwnedAt(after, i)
    {
      if i < |sys.log| {
        assert OwnedAt(sys, i);
        var t :| StandsAt(sys, t, i);
        assert StandsAt(after, t, i);
      } else {
        assert StandsAt(after, move.t, i);
      }
    }
  }

  lemma {:induction false} ScheduleKeepsOwners(sys: Sys, moves: seq<Move>)
    requires PlacesOwned(sys) && Schedule(sys, moves)
    ensures PlacesOwned(After(sys, moves))
    decreases |moves|
  {
    hide Apply, Enabled, PlacesOwned;
    if moves != [] {
      MoveKeepsOwners(sys, moves[0]);
      ScheduleKeepsOwners(Apply(sys, moves[0]), moves[1..]);
    }
  }

  // ----- the refinement theorem --------------------------------------------------------

  function Prefix(log: seq<Call>, n: nat): seq<Call>
    requires n <= |log|
  {
    log[..n]
  }

  lemma {:induction false} RunAppend(book: Book, calls: seq<Call>, call: Call)
    ensures Run(book, calls + [call]) == Create(Run(book, calls), call)
    decreases |calls|
  {
    hide Create;
    var longer := calls + [call];
    if calls == [] {
      assert longer[1..] == [];
    } else {
      assert longer[0] == calls[0] && longer[1..] == calls[1..] + [call];
      RunAppend(Create(book, calls[0]), calls[1..], call);
    }
  }

  lemma {:induction false} SerialIsRun(log: seq<Call>, n: nat)
    requires n <= |log|
    ensures Serial(log, n) == Run(NO_PAYMENTS, Prefix(log, n))
    decreases n
  {
    if n > 0 {
      SerialIsRun(log, n - 1);
      assert Prefix(log, n) == Prefix(log, n - 1) + [log[n - 1]];
      RunAppend(NO_PAYMENTS, Prefix(log, n - 1), log[n - 1]);
    }
  }

  /** What a finished call may conclude from its place in the order. */
  predicate AnsweredAsDictionary(sys: Sys, t: nat)
    requires t in sys.txns && sys.txns[t].phase.Done?
  {
    var txn := sys.txns[t];
    && txn.phase.position < |sys.log|
    && sys.log[txn.phase.position] == txn.call
    && txn.phase.outcome == Answer(Run(NO_PAYMENTS, Prefix(sys.log, txn.phase.position)), txn.call)
  }

  /** Whatever the schedule, the stored payments and keys, and every answer, are those of the dictionary
      given the same calls with the same candidates in one order. That order holds every finished call
      once, and nothing else. */
  lemma CreationIsSerial(moves: seq<Move>)
    requires Schedule(INITIAL, moves)
    ensures var sys := After(INITIAL, moves);
      && sys.book == Run(NO_PAYMENTS, sys.log)
      && PlacesOwned(sys)
      && forall t :: t in sys.txns && sys.txns[t].phase.Done? ==> AnsweredAsDictionary(sys, t)
  {
    hide Schedule, After, ClaimsOk, ViewsOk, CandidatesOk, Answer, Run, Serial, Book.Valid;
    InitialInv();
    ScheduleKeepsInv(INITIAL, moves);
    ScheduleKeepsOwners(INITIAL, moves);
    hide PlacesOwned;
    var sys := After(INITIAL, moves);
    SerialIsRun(sys.log, |sys.log|);
    assert Prefix(sys.log, |sys.log|) == sys.log;
    forall t | t in sys.txns && sys.txns[t].phase.Done?
      ensures AnsweredAsDictionary(sys, t)
    {
      assert Placed(sys, t);
      SerialIsRun(sys.log, sys.txns[t].phase.position);
    }
  }

  lemma InitialInv()
    ensures SysInv(INITIAL)
  {
  }

  /** A payment is stored exactly when it was returned to the call that drew its id: the candidates of
      losing, refused and rolled back calls leave no row. */
  lemma LosersLeaveNoRow(moves: seq<Move>, t: nat)
    requires Schedule(INITIAL, moves) && t in After(INITIAL, moves).txns
    ensures CandidateOk(After(INITIAL, moves).book, After(INITIAL, moves).txns[t])
  {
    hide Schedule, After, ClaimsOk, ViewsOk, AllPlaced, Serial, CandidateOk, Book.Valid;
    InitialInv();
    ScheduleKeepsInv(INITIAL, moves);
  }

  lemma AnswerErrors(sys: Sys, t: nat)
    requires AllPlaced(sys) && t in sys.txns && sys.txns[t].phase.Done?
    requires Serial(sys.log, sys.txns[t].phase.position).Valid()
    ensures sys.txns[t].phase.outcome.Err? ==> sys.txns[t].phase.outcome.error == KeyConflict
  {
    hide Serial;
    assert Placed(sys, t);
  }

  /** The candidates along the order are fresh at their places, so every prefix is consistent. */
  predicate LogFresh(log: seq<Call>) {
    forall i :: 0 <= i < |log| ==> log[i].candidate.id !in Serial(log, i).payments
  }

  lemma {:induction false} FreshLogValid(log: seq<Call>, n: nat)
    requires LogFresh(log) && n <= |log|
    ensures Serial(log, n).Valid()
    decreases n
  {
    hide Book.Valid, LogFresh, Create;
    if n == 0 {
      EmptyValid();
    } else {
      FreshLogValid(log, n - 1);
      FreshAt(log, n - 1);
      CreateKnownOrFresh(Serial(log, n - 1), log[n - 1]);
    }
  }

  lemma FreshAt(log: seq<Call>, i: nat)
    requires LogFresh(log) && i < |log|
    ensures log[i].candidate.id !in Serial(log, i).payments
  {
    hide Serial;
  }

  lemma EmptyValid()
    ensures NO_PAYMENTS.Valid()
  {
  }

  lemma MoveKeepsFresh(sys: Sys, move: Move)
    requires SysInv(sys) && Enabled(sys, move) && LogFresh(sys.log)
    ensures LogFresh(Apply(sys, move).log)
  {
    hide Serial, ViewsOk, ClaimsOk, AllPlaced, Book.Valid;
    if move.Commit? {
      CandidateFresh(sys, move.t);
      var log := sys.log + [sys.txns[move.t].call];
      forall i | 0 <= i < |log|
        ensures log[i].candidate.id !in Serial(log, i).payments
      {
        SerialPrefix(sys.log, [sys.txns[move.t].call], i);
      }
    } else {
      hide SysInv, Enabled, Apply, LogFresh;
      ViewInside(sys, move);
      InsideLogs(sys, Apply(sys, move), move.t);
    }
  }

  lemma {:induction false} ScheduleKeepsFresh(sys: Sys, moves: seq<Move>)
    requires SysInv(sys) && LogFresh(sys.log) && Schedule(sys, moves)
    ensures LogFresh(After(sys, moves).log)
    decreases |moves|
  {
    hide SysInv, Apply, Enabled, LogFresh;
    if moves != [] {
      MoveKeepsInv(sys, moves[0]);
      MoveKeepsFresh(sys, moves[0]);
      ScheduleKeepsFresh(Apply(sys, moves[0]), moves[1..]);
    }
  }

  /** No call ever ends with a claim that disappeared, a payment that is missing, or no result. */
  lemma OnlyConflictsAreReported(moves: seq<Move>, t: nat)
    requires Schedule(INITIAL, moves) && t in After(INITIAL, moves).txns
    requires After(INITIAL, moves).txns[t].phase.Done?
    ensures var outcome := After(INITIAL, moves).txns[t].phase.outcome;
      outcome.Err? ==> outcome.error == KeyConflict
  {
    hide Schedule, After, ClaimsOk, ViewsOk, CandidatesOk, Book.Valid, Serial;
    InitialInv();
    ScheduleKeepsInv(INITIAL, moves);
    ScheduleKeepsFresh(INITIAL, moves);
    var sys := After(INITIAL, moves);
    assert Placed(sys, t);
    FreshLogValid(sys.log, sys.txns[t].phase.position);
    AnswerErrors(sys, t);
  }

  // ----- order in real time, and progress ----------------------------------------------

  /** Every call that finishes after state `base` comes after those finished in it. */
  predicate Later(base: Sys, sys: Sys) {
    && |base.log| <= |sys.log|
    && (forall t :: t in base.txns && base.txns[t].phase.Done? ==> t in sys.txns && sys.txns[t] == base.txns[t])
    && (forall t :: t in sys.txns && sys.txns[t].phase.Done? && !(t in base.txns && base.txns[t].phase.Done?) ==>
          |base.log| <= sys.txns[t].phase.position)
  }

  lemma MoveKeepsLater(base: Sys, sys: Sys, move: Move)
    requires Later(base, sys) && Enabled(sys, move)
    ensures Later(base, Apply(sys, move))
  {
    hide FreshId, Published, Unclaimed, AnswerOf;
  }

  lemma {:induction false} ScheduleKeepsLater(base: Sys, sys: Sys, moves: seq<Move>)
    requires Later(base, sys) && Schedule(sys, moves)
    ensures Later(base, After(sys, moves))
    decreases |moves|
  {
    hide Later, Enabled, Apply;
    if moves != [] {
      MoveKeepsLater(base, sys, moves[0]);
      ScheduleKeepsLater(base, Apply(sys, moves[0]), moves[1..]);
    }
  }

  /** The order respects real time: a call that had finished comes before any that finishes later. */
  lemma RealTimeOrder(base: Sys, moves: seq<Move>, t: nat, u: nat)
    requires SysInv(base) && Schedule(base, moves)
    requires t in base.txns && base.txns[t].phase.Done?
    requires u in After(base, moves).txns && After(base, moves).txns[u].phase.Done?
    requires !(u in base.txns && base.txns[u].phase.Done?)
    ensures var later := After(base, moves);
      t in later.txns && later.txns[t] == base.txns[t] && later.txns[t].phase.position < later.txns[u].phase.position
  {
    hide After, Schedule, ClaimsOk, ViewsOk, CandidatesOk, Serial, Book.Valid;
    ScheduleKeepsLater(base, base, moves);
    assert Placed(base, t);
  }

  /** No deadlock: while a call is unfinished, some unfinished call can go on without aborting. */
  lemma SomeCallCanGoOn(sys: Sys, t: nat) returns (move: Move)
    requires SysInv(sys) && t in sys.txns && !sys.txns[t].Finished()
    ensures !move.Spawn? && !move.Abort? && Enabled(sys, move)
  {
    hide CandidatesOk, AllPlaced, Serial, Book.Valid;
    var u := t;
    var key := sys.txns[t].call.key;
    if sys.txns[t].phase.Inserted? && UsesKey(key) && key.value in sys.claims {
      u := sys.claims[key.value];
    }
    assert ViewOk(sys.book, sys.txns[u]);
    match sys.txns[u].phase
    case Started => move := Insert(u);
    case Inserted => move := if UsesKey(sys.txns[u].call.key) then Claim(u) else SkipKey(u);
    case Claimed => move := Keep(u);
    case Lost => move := Delete(u);
    case Deleted => move := LookUp(u);
    case Read(_, _) => move := Fetch(u);
    case Settled(_, _) => move := Commit(u);
  }

  /** How many moves a call may still need. */
  function Remaining(phase: Phase): nat {
    match phase
    case Started => 7
    case Inserted => 6
    case Lost => 5
    case Deleted => 4
    case Read(_, _) => 3
    case Claimed => 2
    case Settled(_, _) => 1
    case _ => 0
  }

  ghost function Pick(ts: set<nat>): nat
    requires ts != {}
  {
    var t :| t in ts;
    t
  }

  ghost function Work(ts: set<nat>, txns: map<nat, Txn>): nat
    requires ts <= txns.Keys
  {
    if ts == {} then 0 else Remaining(txns[Pick(ts)].phase) + Work(ts - {Pick(ts)}, txns)
  }

  lemma {:induction false} WorkShrinks(ts: set<nat>, txns: map<nat, Txn>, after: map<nat, Txn>, t: nat)
    requires ts <= txns.Keys && txns.Keys == after.Keys
    requires forall u :: u in ts && u != t ==> after[u].phase == txns[u].phase
    requires t in ts ==> Remaining(after[t].phase) < Remaining(txns[t].phase)
    ensures if t in ts then Work(ts, after) < Work(ts, txns) else Work(ts, after) == Work(ts, txns)
  {
    hide Remaining;
    if ts != {} {
      WorkShrinks(ts - {Pick(ts)}, txns, after, t);
    }
  }

  /** Each of a call's own moves brings it closer to its end and leaves the other calls alone. */
  lemma AdvanceShrinksWork(sys: Sys, move: Move)
    requires Enabled(sys, move) && !move.Spawn? && !move.Abort?
    ensures var after := Apply(sys, move);
      after.txns.Keys == sys.txns.Keys && Work(after.txns.Keys, after.txns) < Work(sys.txns.Keys, sys.txns)
  {
    hide Work;
    AdvanceStep(sys, move);
    var after := Apply(sys, move);
    hide Apply, Enabled;
    assert after.txns.Keys == sys.txns.Keys;
    WorkShrinks(sys.txns.Keys, sys.txns, after.txns, move.t);
  }

  lemma AdvanceStep(sys: Sys, move: Move)
    requires Enabled(sys, move) && !move.Spawn? && !move.Abort?
    ensures move.t in sys.txns && Apply(sys, move).txns == sys.txns[move.t := Apply(sys, move).txns[move.t]]
    ensures Remaining(Apply(sys, move).txns[move.t].phase) < Remaining(sys.txns[move.t].phase)
  {
    hide FreshId, Published, Unclaimed, AnswerOf;
  }

  /** Every reachable state can be driven, without aborting anyone, to one where all calls are done. */
  lemma {:induction false} AllCallsCanFinish(sys: Sys) returns (moves: seq<Move>)
    requires SysInv(sys)
    ensures Schedule(sys, moves) && forall i :: 0 <= i < |moves| ==> !moves[i].Spawn? && !moves[i].Abort?
    ensures forall t :: t in sys.txns ==> t in After(sys, moves).txns && After(sys, moves).txns[t].Finished()
    decreases Work(sys.txns.Keys, sys.txns)
  {
    hide SysInv, Enabled, Apply, Work, Txn.Finished;
    if t :| t in sys.txns && !sys.txns[t].Finished() {
      var move := SomeCallCanGoOn(sys, t);
      AdvanceShrinksWork(sys, move);
      MoveKeepsInv(sys, move);
      var rest := AllCallsCanFinish(Apply(sys, move));
      moves := [move] + rest;
      assert moves[0] == move && moves[1..] == rest;
    } else {
      moves := [];
    }
  }
}
