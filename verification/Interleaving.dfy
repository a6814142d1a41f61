// Concurrent `execute` calls (app/payment_operations.py:116-229) as interleaved transactions: take
// the advisory key lock, look the key up, lock the payment row, write, commit. Any schedule, any
// number of transactions, any key-hash function.
module Interleaving {
  import opened Results
  import opened Strings
  import opened Ledger
  import opened Payments

  type Outcome = Result<OperationResult, OperationError>

  /** How far a call has come. `Done` remembers its place in the serial order. */
  datatype Phase =
    | Started
    | KeyHeld
    | KeyUnused
    | RowHeld(payment: Payment)
    | Wrote(payment: Payment)
    | Done(outcome: Outcome, position: nat)
    | Aborted

  datatype Txn = Txn(request: Request, key: string, ids: Ids, born: nat, phase: Phase) {
    predicate HoldsKey() {
      phase.KeyHeld? || phase.KeyUnused? || phase.RowHeld? || phase.Wrote?
    }

    predicate HoldsRow() {
      phase.RowHeld? || phase.Wrote?
    }

    predicate Finished() {
      phase.Done? || phase.Aborted?
    }

    predicate ArgumentsValid() {
      !IsBlank(key) && request.sourceAccount != request.destinationAccount
    }

    function AsAction(): Action {
      Operate(request, key, ids)
    }
  }

  /** A committed step: its effect, and the answer it gave when it was a call of `execute`. */
  datatype Committed = Committed(action: Action, answer: Option<Outcome>)

  /** The committed tables, the two kinds of locks, the calls, and the serial order so far. */
  datatype Sys = Sys(
    db: Db, keyLocks: map<int, nat>, rowLocks: map<string, nat>, txns: map<nat, Txn>, log: seq<Committed>)

  const INITIAL := Sys(EMPTY, map[], map[], map[], [])

  datatype Move =
    | Spawn(t: nat, request: Request, key: string, ids: Ids)
    | Reject(t: nat)
    | TakeKey(t: nat)
    | LookUp(t: nat)
    | TakeRow(t: nat)
    | Write(t: nat)
    | Commit(t: nat)
    | Abort(t: nat)
    | Environment(action: Action)

  /** Whether a move can be taken now: lock moves wait until their lock is free. */
  predicate Enabled(sys: Sys, move: Move, hash: string -> int) {
    match move
    case Spawn(t, _, _, _) => t !in sys.txns
    case Reject(t) => t in sys.txns && sys.txns[t].phase.Started? && !sys.txns[t].ArgumentsValid()
    case TakeKey(t) =>
      t in sys.txns && sys.txns[t].phase.Started? && sys.txns[t].ArgumentsValid()
      && hash(sys.txns[t].key) !in sys.keyLocks
    case LookUp(t) => t in sys.txns && sys.txns[t].phase.KeyHeld?
    case TakeRow(t) =>
      t in sys.txns && sys.txns[t].phase.KeyUnused?
      && (sys.txns[t].request.paymentId in sys.db.payments ==>
            sys.txns[t].request.paymentId !in sys.rowLocks)
    case Write(t) => t in sys.txns && sys.txns[t].phase.RowHeld?
    case Commit(t) => t in sys.txns && sys.txns[t].phase.Wrote?
    case Abort(t) => t in sys.txns && !sys.txns[t].Finished()
    case Environment(a) => !a.Operate? && (a.Authorize? ==> a.id !in sys.rowLocks)
  }

  function SetPhase(sys: Sys, t: nat, phase: Phase): Sys
    requires t in sys.txns
  {
    sys.(txns := sys.txns[t := sys.txns[t].(phase := phase)])
  }

  /** Both locks are transaction scoped: they go when the call ends. */
  function Release(sys: Sys, t: nat, hash: string -> int): Sys
    requires t in sys.txns
  {
    var txn := sys.txns[t];
    sys.(keyLocks := if txn.HoldsKey() then sys.keyLocks - {hash(txn.key)} else sys.keyLocks,
         rowLocks := if txn.HoldsRow() then sys.rowLocks - {txn.request.paymentId} else sys.rowLocks)
  }

  /** A call ends with `outcome`, leaving the tables as `db`, and takes its place in the order. */
  function Finish(sys: Sys, t: nat, outcome: Outcome, db: Db, hash: string -> int): Sys
    requires t in sys.txns
  {
    var released := Release(sys, t, hash);
    SetPhase(released.(db := db, log := sys.log + [Committed(sys.txns[t].AsAction(), Some(outcome))]),
             t, Done(outcome, |sys.log|))
  }

  function Apply(sys: Sys, move: Move, hash: string -> int): (after: Sys)
    requires Enabled(sys, move, hash)
  {
    match move
    case Spawn(t, request, key, ids) =>
      sys.(txns := sys.txns[t := Txn(request, key, ids, |sys.log|, Started)])
    case Reject(t) =>
      Finish(sys, t, Err(if IsBlank(sys.txns[t].key) then EmptyKey else SameAccounts), sys.db, hash)
    case TakeKey(t) =>
      SetPhase(sys.(keyLocks := sys.keyLocks[hash(sys.txns[t].key) := t]), t, KeyHeld)
    case LookUp(t) =>
      var existing := FindKey(sys.db.operations, sys.txns[t].key);
      if existing.None? then SetPhase(sys, t, KeyUnused)
      else if existing.value.request != sys.txns[t].request then Finish(sys, t, Err(KeyConflict), sys.db, hash)
      else Finish(sys, t, Ok(ResultOf(existing.value, true)), sys.db, hash)
    case TakeRow(t) =>
      var request := sys.txns[t].request;
      if request.paymentId !in sys.db.payments then Finish(sys, t, Err(PaymentMissing), sys.db, hash)
      else
        var payment := sys.db.payments[request.paymentId];
        if payment.status != ExpectedFrom(request.operation) then Finish(sys, t, Err(InvalidTransition), sys.db, hash)
        else SetPhase(sys.(rowLocks := sys.rowLocks[request.paymentId := t]), t, RowHeld(payment))
    case Write(t) =>
      var payment := sys.txns[t].phase.payment;
      if !EntriesInsertable(sys.db, sys.txns[t].request, payment) then Finish(sys, t, Err(IntegrityError), sys.db, hash)
      else SetPhase(sys, t, Wrote(payment))
    case Commit(t) =>
      var txn := sys.txns[t];
      if !KeysFree(sys.db, txn.key, txn.ids) then Finish(sys, t, Err(IntegrityError), sys.db, hash)
      else
        Finish(sys, t, Ok(ResultOf(NewRow(txn.request, txn.key, txn.ids), false)),
               Written(sys.db, txn.request, txn.key, txn.ids, txn.phase.payment), hash)
    case Abort(t) => SetPhase(Release(sys, t, hash), t, Aborted)
    case Environment(a) => sys.(db := Step(sys.db, a), log := sys.log + [Committed(a, None)])
  }

  /** The states a schedule passes through; a schedule is a sequence of enabled moves. */
  predicate Schedule(sys: Sys, moves: seq<Move>, hash: string -> int)
    decreases |moves|
  {
    moves == [] ||
    (Enabled(sys, moves[0], hash) && Schedule(Apply(sys, moves[0], hash), moves[1..], hash))
  }

  function After(sys: Sys, moves: seq<Move>, hash: string -> int): (after: Sys)
    requires Schedule(sys, moves, hash)
    decreases |moves|
  {
    if moves == [] then sys else After(Apply(sys, moves[0], hash), moves[1..], hash)
  }

  // ----- the invariant -----------------------------------------------------------------

  /** A key lock is held exactly by the one call whose key hashes to it. */
  predicate KeyLocksOk(sys: Sys, hash: string -> int) {
    && (forall t :: t in sys.txns && sys.txns[t].HoldsKey() ==>
          hash(sys.txns[t].key) in sys.keyLocks && sys.keyLocks[hash(sys.txns[t].key)] == t)
    && (forall h :: h in sys.keyLocks ==>
          sys.keyLocks[h] in sys.txns && sys.txns[sys.keyLocks[h]].HoldsKey()
          && hash(sys.txns[sys.keyLocks[h]].key) == h)
  }

  predicate RowLocksOk(sys: Sys) {
    && (forall t :: t in sys.txns && sys.txns[t].HoldsRow() ==>
          sys.txns[t].request.paymentId in sys.rowLocks && sys.rowLocks[sys.txns[t].request.paymentId] == t)
    && (forall p :: p in sys.rowLocks ==>
          sys.rowLocks[p] in sys.txns && sys.txns[sys.rowLocks[p]].HoldsRow()
          && sys.txns[sys.rowLocks[p]].request.paymentId == p)
  }

  /** What a call in progress has seen is still true of the committed tables. */
  predicate ViewCurrent(db: Db, txn: Txn) {
    && (txn.HoldsKey() ==> txn.ArgumentsValid())
    && (txn.phase.KeyUnused? || txn.HoldsRow() ==> FindKey(db.operations, txn.key).None?)
    && (txn.HoldsRow() ==>
          && txn.request.paymentId in db.payments
          && db.payments[txn.request.paymentId] == txn.phase.payment
          && txn.phase.payment.status == ExpectedFrom(txn.request.operation))
    && (txn.phase.Wrote? ==> EntriesInsertable(db, txn.request, txn.phase.payment))
  }

  predicate ViewsCurrent(sys: Sys) {
    forall t :: t in sys.txns ==> ViewCurrent(sys.db, sys.txns[t])
  }

  /** A finished call stands in the serial order at its own place, after everything that had
      committed when it was made. */
  predicate PlacedInLog(sys: Sys, t: nat)
    requires t in sys.txns
  {
    var txn := sys.txns[t];
    && txn.born <= |sys.log|
    && (txn.phase.Done? ==>
          && txn.born <= txn.phase.position < |sys.log|
          && sys.log[txn.phase.position] == Committed(txn.AsAction(), Some(txn.phase.outcome)))
  }

  predicate AllPlaced(sys: Sys) {
    && (forall t :: t in sys.txns ==> PlacedInLog(sys, t))
    && (forall t, u :: t in sys.txns && u in sys.txns && t != u ==> PlacedApart(sys.txns[t], sys.txns[u]))
  }

  predicate PlacedApart(a: Txn, b: Txn) {
    a.phase.Done? && b.phase.Done? ==> a.phase.position != b.phase.position
  }

  function Actions(log: seq<Committed>): (s: seq<Action>)
    ensures |s| == |log|
  {
    seq(|log|, i requires 0 <= i < |log| => log[i].action)
  }

  /** The tables a serial execution of the first `n` committed steps produces. */
  function Serial(log: seq<Committed>, n: nat): (db: Db)
    requires n <= |log|
    decreases n
  {
    if n == 0 then EMPTY else Step(Serial(log, n - 1), log[n - 1].action)
  }

  /** Every logged call answered what the atomic `execute` answers at its place. */
  predicate AnswersSerial(log: seq<Committed>) {
    forall i :: 0 <= i < |log| ==> AnswerSerial(log, i)
  }

  predicate AnswerSerial(log: seq<Committed>, i: nat)
    requires i < |log|
  {
    match log[i].action
    case Operate(request, key, ids) => log[i].answer == Some(Answer(Serial(log, i), request, key, ids))
    case _ => log[i].answer == None
  }

  predicate SysInv(sys: Sys, hash: string -> int) {
    && KeyLocksOk(sys, hash)
    && RowLocksOk(sys)
    && ViewsCurrent(sys)
    && AllPlaced(sys)
    && AnswersSerial(sys.log)
    && sys.db == Serial(sys.log, |sys.log|)
  }

  // ----- the serial order --------------------------------------------------------------

  lemma {:induction false} SerialPrefix(log: seq<Committed>, more: seq<Committed>, n: nat)
    requires n <= |log|
    ensures Serial(log + more, n) == Serial(log, n)
    decreases n
  {
    hide Step;
    if n > 0 {
      SerialPrefix(log, more, n - 1);
    }
  }

  lemma LogAppend(log: seq<Committed>, c: Committed)
    requires AnswersSerial(log)
    requires match c.action
             case Operate(request, key, ids) => c.answer == Some(Answer(Serial(log, |log|), request, key, ids))
             case _ => c.answer == None
    ensures AnswersSerial(log + [c])
    ensures Serial(log + [c], |log| + 1) == Step(Serial(log, |log|), c.action)
  {
    hide Step, Answer;
    var longer := log + [c];
    forall i | 0 <= i < |longer|
      ensures AnswerSerial(longer, i)
    {
      SerialPrefix(log, [c], i);
      if i < |log| {
        assert AnswerSerial(log, i);
      }
    }
    SerialPrefix(log, [c], |log|);
  }

  lemma {:induction false} SerialIsRun(log: seq<Committed>, n: nat)
    requires n <= |log|
    ensures Serial(log, n) == Run(EMPTY, Actions(log)[..n])
    decreases n
  {
    hide Step;
    var actions := Actions(log);
    if n == 0 {
      assert actions[..0] == [];
    } else {
      SerialIsRun(log, n - 1);
      assert actions[..n] == actions[..n - 1] + [actions[n - 1]];
      RunConcat(EMPTY, actions[..n - 1], [actions[n - 1]]);
      RunOne(Run(EMPTY, actions[..n - 1]), actions[n - 1]);
    }
  }

  // ----- preservation ------------------------------------------------------------------

  /** A change of the tables that leaves what `txn` has seen alone. */
  predicate Undisturbed(db: Db, after: Db, txn: Txn) {
    && (FindKey(db.operations, txn.key).None? ==> FindKey(after.operations, txn.key).None?)
    && (txn.HoldsRow() && txn.request.paymentId in db.payments ==>
          txn.request.paymentId in after.payments
          && after.payments[txn.request.paymentId] == db.payments[txn.request.paymentId])
    && (forall a :: a in db.accounts ==> a in after.accounts && after.accounts[a] == db.accounts[a])
  }

  lemma ViewSurvives(db: Db, after: Db, txn: Txn)
    requires ViewCurrent(db, txn)
    requires (txn.phase.KeyUnused? || txn.HoldsRow()) ==> Undisturbed(db, after, txn)
    ensures ViewCurrent(after, txn)
  {
    hide IsBlank, FindKey, Upper;
  }

  /** The environment never disturbs a call: it respects row locks and writes no operation. */
  lemma EnvironmentUndisturbing(sys: Sys, a: Action, hash: string -> int, t: nat)
    requires Enabled(sys, Environment(a), hash) && RowLocksOk(sys) && t in sys.txns
    ensures Undisturbed(sys.db, Step(sys.db, a), sys.txns[t])
  {
    hide PostAnswer, FindKey, EntriesFor, Upper;
  }

  /** A commit never disturbs another call: its key and its payment are locked. */
  lemma CommitUndisturbing(sys: Sys, t: nat, u: nat, hash: string -> int)
    requires KeyLocksOk(sys, hash) && RowLocksOk(sys)
    requires t in sys.txns && u in sys.txns && t != u
    requires sys.txns[t].phase.Wrote? && sys.txns[u].HoldsKey()
    requires sys.txns[t].request.paymentId in sys.db.payments
    ensures var txn := sys.txns[t];
      Undisturbed(sys.db, Written(sys.db, txn.request, txn.key, txn.ids, txn.phase.payment), sys.txns[u])
  {
    hide IsBlank, EntriesFor, EventFor, ReferenceOf, Upper, FindKey;
    var txn := sys.txns[t];
    var row := NewRow(txn.request, txn.key, txn.ids);
    assert sys.txns[u].key != txn.key;
    FindKeyAppend(sys.db.operations, [row], sys.txns[u].key);
    OtherKey(row, sys.txns[u].key);
  }

  lemma OtherKey(row: OperationRow, key: string)
    ensures row.key != key ==> FindKey([row], key).None?
  {
    assert [row][1..] == [];
  }

  /** Ending a call keeps the locks consistent. */
  lemma ReleaseKeepsLocks(sys: Sys, t: nat, hash: string -> int, phase: Phase, db: Db, log: seq<Committed>)
    requires KeyLocksOk(sys, hash) && RowLocksOk(sys) && t in sys.txns
    requires phase.Done? || phase.Aborted?
    ensures var after := SetPhase(Release(sys, t, hash).(db := db, log := log), t, phase);
      KeyLocksOk(after, hash) && RowLocksOk(after)
  {
  }

  /** Appending to the log keeps every finished call in its place. */
  lemma PlacesSurvive(sys: Sys, after: Sys, t: nat, c: Committed)
    requires AllPlaced(sys) && t in sys.txns && !sys.txns[t].Finished()
    requires after.log == sys.log + [c]
    requires after.txns == sys.txns || (c == Committed(sys.txns[t].AsAction(), c.answer) && c.answer.Some?
      && after.txns == sys.txns[t := sys.txns[t].(phase := Done(c.answer.value, |sys.log|))])
    ensures AllPlaced(after)
  {
    forall u | u in after.txns
      ensures PlacedInLog(after, u)
    {
      assert PlacedInLog(sys, u);
    }
    forall u, v | u in after.txns && v in after.txns && u != v
      ensures PlacedApart(after.txns[u], after.txns[v])
    {
      assert PlacedApart(sys.txns[u], sys.txns[v]);
      assert PlacedInLog(sys, u) && PlacedInLog(sys, v);
    }
  }

  /** A call that ends with the atomic answer and the atomic effect keeps the invariant. */
  lemma FinishKeepsInv(sys: Sys, t: nat, outcome: Outcome, db: Db, hash: string -> int)
    requires SysInv(sys, hash) && t in sys.txns && !sys.txns[t].Finished()
    requires outcome == Answer(sys.db, sys.txns[t].request, sys.txns[t].key, sys.txns[t].ids)
    requires db == Execute(sys.db, sys.txns[t].request, sys.txns[t].key, sys.txns[t].ids)
    requires db == sys.db || forall u :: u in sys.txns && u != t && sys.txns[u].HoldsKey() ==>
      Undisturbed(sys.db, db, sys.txns[u])
    ensures SysInv(Finish(sys, t, outcome, db, hash), hash)
  {
    hide Answer, Execute, KeyLocksOk, RowLocksOk, AllPlaced, AnswersSerial, ViewCurrent, Undisturbed, Serial, Release;
    var c := Committed(sys.txns[t].AsAction(), Some(outcome));
    var after := Finish(sys, t, outcome, db, hash);
    ReleaseKeepsLocks(sys, t, hash, Done(outcome, |sys.log|), db, sys.log + [c]);
    ReleaseKeepsRest(sys, t, hash);
    PlacesSurvive(sys, after, t, c);
    LogAppend(sys.log, c);
    StepIsExecute(sys.db, sys.txns[t]);
    forall u | u in after.txns
      ensures ViewCurrent(after.db, after.txns[u])
    {
      assert ViewCurrent(sys.db, sys.txns[u]);
      if u == t {
        DoneViews(db, after.txns[u]);
      } else if db != sys.db {
        ViewSurvivesHeld(sys.db, db, sys.txns[u]);
      }
    }
  }

  lemma ReleaseKeepsRest(sys: Sys, t: nat, hash: string -> int)
    requires t in sys.txns
    ensures var r := Release(sys, t, hash); r.txns == sys.txns && r.log == sys.log && r.db == sys.db
  {
  }

  lemma StepIsExecute(db: Db, txn: Txn)
    ensures Step(db, txn.AsAction()) == Execute(db, txn.request, txn.key, txn.ids)
  {
    hide Execute;
  }

  lemma DoneViews(db: Db, txn: Txn)
    requires txn.Finished()
    ensures ViewCurrent(db, txn)
  {
  }

  lemma ViewSurvivesHeld(db: Db, after: Db, txn: Txn)
    requires ViewCurrent(db, txn) && (txn.HoldsKey() ==> Undisturbed(db, after, txn))
    ensures ViewCurrent(after, txn)
  {
    ViewSurvives(db, after, txn);
  }

  /** A move that changes one call in progress and no table. */
  lemma PhaseChangeKeepsInv(sys: Sys, after: Sys, t: nat, hash: string -> int)
    requires SysInv(sys, hash) && t in sys.txns && !sys.txns[t].Finished()
    requires after.db == sys.db && after.log == sys.log
    requires t in after.txns && after.txns == sys.txns[t := after.txns[t]]
    requires after.txns[t] == sys.txns[t].(phase := after.txns[t].phase)
    requires !after.txns[t].phase.Done? && ViewCurrent(sys.db, after.txns[t])
    requires KeyLocksOk(after, hash) && RowLocksOk(after)
    ensures SysInv(after, hash)
  {
    hide KeyLocksOk, RowLocksOk, AnswersSerial, ViewCurrent, Serial;
    forall u | u in after.txns
      ensures PlacedInLog(after, u)
    {
      assert PlacedInLog(sys, u);
    }
    forall u, v | u in after.txns && v in after.txns && u != v
      ensures PlacedApart(after.txns[u], after.txns[v])
    {
      assert PlacedApart(sys.txns[u], sys.txns[v]);
    }
  }

  lemma SpawnKeepsLocks(sys: Sys, t: nat, txn: Txn, hash: string -> int)
    requires KeyLocksOk(sys, hash) && RowLocksOk(sys) && t !in sys.txns && txn.phase.Started?
    ensures var after := sys.(txns := sys.txns[t := txn]); KeyLocksOk(after, hash) && RowLocksOk(after)
  {
  }

  lemma SpawnKeepsInv(sys: Sys, t: nat, request: Request, key: string, ids: Ids, hash: string -> int)
    requires SysInv(sys, hash) && t !in sys.txns
    ensures SysInv(Apply(sys, Spawn(t, request, key, ids), hash), hash)
  {
    hide AnswersSerial, Serial, FindKey, IsBlank, EntriesInsertable, KeyLocksOk, RowLocksOk;
    var after := Apply(sys, Spawn(t, request, key, ids), hash);
    SpawnKeepsLocks(sys, t, after.txns[t], hash);
    forall u | u in after.txns
      ensures PlacedInLog(after, u) && ViewCurrent(after.db, after.txns[u])
    {
      assert u != t ==> PlacedInLog(sys, u) && ViewCurrent(sys.db, sys.txns[u]);
    }
    forall u, v | u in after.txns && v in after.txns && u != v
      ensures PlacedApart(after.txns[u], after.txns[v])
    {
      assert u != t && v != t ==> PlacedApart(sys.txns[u], sys.txns[v]);
    }
  }

  lemma RejectKeepsInv(sys: Sys, t: nat, hash: string -> int)
    requires SysInv(sys, hash) && Enabled(sys, Reject(t), hash)
    ensures SysInv(Apply(sys, Reject(t), hash), hash)
  {
    hide SysInv, IsBlank, Finish;
    var txn := sys.txns[t];
    FinishKeepsInv(sys, t, Answer(sys.db, txn.request, txn.key, txn.ids), sys.db, hash);
  }

  lemma TakeKeyKeepsInv(sys: Sys, t: nat, hash: string -> int)
    requires SysInv(sys, hash) && Enabled(sys, TakeKey(t), hash)
    ensures SysInv(Apply(sys, TakeKey(t), hash), hash)
  {
    hide ViewsCurrent, AllPlaced, AnswersSerial, Serial, FindKey, IsBlank;
    PhaseChangeKeepsInv(sys, Apply(sys, TakeKey(t), hash), t, hash);
  }

  lemma LookUpKeepsInv(sys: Sys, t: nat, hash: string -> int)
    requires SysInv(sys, hash) && Enabled(sys, LookUp(t), hash)
    ensures SysInv(Apply(sys, LookUp(t), hash), hash)
  {
    hide AllPlaced, AnswersSerial, Serial, FindKey, IsBlank, Finish, KeyLocksOk, RowLocksOk, EntriesInsertable;
    assert ViewCurrent(sys.db, sys.txns[t]);
    var after := Apply(sys, LookUp(t), hash);
    if FindKey(sys.db.operations, sys.txns[t].key).None? {
      SameLocks(sys, after, t, hash);
      PhaseChangeKeepsInv(sys, after, t, hash);
    } else {
      var txn := sys.txns[t];
      FinishKeepsInv(sys, t, Answer(sys.db, txn.request, txn.key, txn.ids), sys.db, hash);
    }
  }

  /** A call that goes on holding the same locks keeps them consistent. */
  lemma SameLocks(sys: Sys, after: Sys, t: nat, hash: string -> int)
    requires KeyLocksOk(sys, hash) && RowLocksOk(sys) && t in sys.txns && t in after.txns
    requires after.keyLocks == sys.keyLocks && after.rowLocks == sys.rowLocks
    requires after.txns == sys.txns[t := after.txns[t]]
    requires after.txns[t] == sys.txns[t].(phase := after.txns[t].phase)
    requires after.txns[t].HoldsKey() == sys.txns[t].HoldsKey()
    requires after.txns[t].HoldsRow() == sys.txns[t].HoldsRow()
    ensures KeyLocksOk(after, hash) && RowLocksOk(after)
  {
  }

  lemma TakeRowKeepsInv(sys: Sys, t: nat, hash: string -> int)
    requires SysInv(sys, hash) && Enabled(sys, TakeRow(t), hash)
    ensures SysInv(Apply(sys, TakeRow(t), hash), hash)
  {
    hide AllPlaced, AnswersSerial, Serial, FindKey, IsBlank, Finish, EntriesInsertable, KeysFree;
    assert ViewCurrent(sys.db, sys.txns[t]);
    var txn := sys.txns[t];
    var after := Apply(sys, TakeRow(t), hash);
    if txn.request.paymentId in sys.db.payments
       && sys.db.payments[txn.request.paymentId].status == ExpectedFrom(txn.request.operation) {
      NewRowLock(sys, after, t, hash);
      PhaseChangeKeepsInv(sys, after, t, hash);
    } else {
      FinishKeepsInv(sys, t, Answer(sys.db, txn.request, txn.key, txn.ids), sys.db, hash);
    }
  }

  lemma NewRowLock(sys: Sys, after: Sys, t: nat, hash: string -> int)
    requires KeyLocksOk(sys, hash) && RowLocksOk(sys) && t in sys.txns && t in after.txns
    requires sys.txns[t].phase.KeyUnused? && sys.txns[t].request.paymentId !in sys.rowLocks
    requires after.keyLocks == sys.keyLocks
    requires after.rowLocks == sys.rowLocks[sys.txns[t].request.paymentId := t]
    requires after.txns == sys.txns[t := after.txns[t]]
    requires after.txns[t] == sys.txns[t].(phase := after.txns[t].phase) && after.txns[t].phase.RowHeld?
    ensures KeyLocksOk(after, hash) && RowLocksOk(after)
  {
  }

  lemma WriteKeepsInv(sys: Sys, t: nat, hash: string -> int)
    requires SysInv(sys, hash) && Enabled(sys, Write(t), hash)
    ensures SysInv(Apply(sys, Write(t), hash), hash)
  {
    hide AllPlaced, AnswersSerial, Serial, FindKey, IsBlank, Finish, EntriesInsertable, KeysFree, KeyLocksOk,
      RowLocksOk;
    assert ViewCurrent(sys.db, sys.txns[t]);
    var txn := sys.txns[t];
    var after := Apply(sys, Write(t), hash);
    if EntriesInsertable(sys.db, txn.request, txn.phase.payment) {
      SameLocks(sys, after, t, hash);
      PhaseChangeKeepsInv(sys, after, t, hash);
    } else {
      FinishKeepsInv(sys, t, Answer(sys.db, txn.request, txn.key, txn.ids), sys.db, hash);
    }
  }

  lemma CommitKeepsInv(sys: Sys, t: nat, hash: string -> int)
    requires SysInv(sys, hash) && Enabled(sys, Commit(t), hash)
    ensures SysInv(Apply(sys, Commit(t), hash), hash)
  {
    hide AllPlaced, AnswersSerial, Serial, FindKey, IsBlank, Finish, EntriesInsertable, KeysFree, KeyLocksOk,
      RowLocksOk;
    hide Undisturbed, Written;
    assert ViewCurrent(sys.db, sys.txns[t]);
    var txn := sys.txns[t];
    var db := Execute(sys.db, txn.request, txn.key, txn.ids);
    if KeysFree(sys.db, txn.key, txn.ids) {
      forall u | u in sys.txns && u != t && sys.txns[u].HoldsKey()
        ensures Undisturbed(sys.db, db, sys.txns[u])
      {
        CommitUndisturbing(sys, t, u, hash);
      }
    }
    FinishKeepsInv(sys, t, Answer(sys.db, txn.request, txn.key, txn.ids), db, hash);
  }

  lemma AbortKeepsInv(sys: Sys, t: nat, hash: string -> int)
    requires SysInv(sys, hash) && Enabled(sys, Abort(t), hash)
    ensures SysInv(Apply(sys, Abort(t), hash), hash)
  {
    hide AllPlaced, AnswersSerial, Serial, ViewsCurrent, KeyLocksOk, RowLocksOk, Release;
    ReleaseKeepsLocks(sys, t, hash, Aborted, sys.db, sys.log);
    ReleaseKeepsRest(sys, t, hash);
    var after := Apply(sys, Abort(t), hash);
    assert after == SetPhase(Release(sys, t, hash).(db := sys.db, log := sys.log), t, Aborted);
    DoneViews(sys.db, after.txns[t]);
    PhaseChangeKeepsInv(sys, after, t, hash);
  }

  lemma EnvironmentKeepsInv(sys: Sys, a: Action, hash: string -> int)
    requires SysInv(sys, hash) && Enabled(sys, Environment(a), hash)
    ensures SysInv(Apply(sys, Environment(a), hash), hash)
  {
    hide AnswersSerial, Serial, ViewCurrent, Step, Undisturbed;
    var after := Apply(sys, Environment(a), hash);
    LogAppend(sys.log, Committed(a, None));
    forall t | t in after.txns
      ensures ViewCurrent(after.db, after.txns[t])
    {
      assert ViewCurrent(sys.db, sys.txns[t]);
      EnvironmentUndisturbing(sys, a, hash, t);
      ViewSurvives(sys.db, after.db, sys.txns[t]);
    }
    forall t | t in after.txns
      ensures PlacedInLog(after, t)
    {
      assert PlacedInLog(sys, t);
    }
  }

  /** Every enabled move keeps the invariant. */
  lemma MoveKeepsInv(sys: Sys, move: Move, hash: string -> int)
    requires SysInv(sys, hash) && Enabled(sys, move, hash)
    ensures SysInv(Apply(sys, move, hash), hash)
  {
    hide SysInv, Apply, Enabled;
    match move
    case Spawn(t, request, key, ids) => SpawnEnabled(sys, t, request, key, ids, hash);
    case Reject(t) => RejectKeepsInv(sys, t, hash);
    case TakeKey(t) => TakeKeyKeepsInv(sys, t, hash);
    case LookUp(t) => LookUpKeepsInv(sys, t, hash);
    case TakeRow(t) => TakeRowKeepsInv(sys, t, hash);
    case Write(t) => WriteKeepsInv(sys, t, hash);
    case Commit(t) => CommitKeepsInv(sys, t, hash);
    case Abort(t) => AbortKeepsInv(sys, t, hash);
    case Environment(a) => EnvironmentKeepsInv(sys, a, hash);
  }

  lemma SpawnEnabled(sys: Sys, t: nat, request: Request, key: string, ids: Ids, hash: string -> int)
    requires SysInv(sys, hash) && Enabled(sys, Spawn(t, request, key, ids), hash)
    ensures SysInv(Apply(sys, Spawn(t, request, key, ids), hash), hash)
  {
    hide SysInv;
    SpawnKeepsInv(sys, t, request, key, ids, hash);
  }

  lemma {:induction false} ScheduleKeepsInv(sys: Sys, moves: seq<Move>, hash: string -> int)
    requires SysInv(sys, hash) && Schedule(sys, moves, hash)
    ensures SysInv(After(sys, moves, hash), hash)
    decreases |moves|
  {
    hide SysInv, Apply, Enabled;
    if moves != [] {
      MoveKeepsInv(sys, moves[0], hash);
      ScheduleKeepsInv(Apply(sys, moves[0], hash), moves[1..], hash);
    }
  }

  lemma InitialInv(hash: string -> int)
    ensures SysInv(INITIAL, hash)
  {
  }

  // ----- whose the log entries are -----------------------------------------------------

  /** Call `t` finished at place `i` of the log. */
  predicate StandsAt(sys: Sys, t: nat, i: nat) {
    t in sys.txns && sys.txns[t].phase.Done? && sys.txns[t].phase.position == i
  }

  /** The entry at place `i`, when it is a call of `execute`, is that of a call that finished there. */
  ghost predicate OwnedAt(sys: Sys, i: nat)
    requires i < |sys.log|
  {
    sys.log[i].action.Operate? ==> exists t :: StandsAt(sys, t, i)
  }

  ghost predicate EntriesOwned(sys: Sys) {
    forall i :: 0 <= i < |sys.log| ==> OwnedAt(sys, i)
  }

  /** A move adds at most one entry to the log. */
  lemma LogStep(sys: Sys, move: Move, hash: string -> int)
    requires Enabled(sys, move, hash)
    ensures sys.log <= Apply(sys, move, hash).log && |Apply(sys, move, hash).log| <= |sys.log| + 1
  {
    hide Step, Written, Answer, FindKey, KeysFree, EntriesInsertable, IsBlank, ExpectedFrom;
  }

  /** An added entry is one of the environment, or that of the call that made the move. */
  lemma NewEntryOwned(sys: Sys, move: Move, hash: string -> int)
    requires Enabled(sys, move, hash) && |Apply(sys, move, hash).log| > |sys.log|
    ensures OwnedAt(Apply(sys, move, hash), |sys.log|)
  {
    hide Step, Written, Answer, FindKey, KeysFree, EntriesInsertable, IsBlank, ExpectedFrom, Release;
    if !move.Environment? && !move.Spawn? {
      ReleaseKeepsRest(sys, move.t, hash);
      assert StandsAt(Apply(sys, move, hash), move.t, |sys.log|);
    }
  }

  /** A finished call keeps its place. */
  lemma StandsStill(sys: Sys, move: Move, hash: string -> int, t: nat, i: nat)
    requires Enabled(sys, move, hash) && StandsAt(sys, t, i)
    ensures StandsAt(Apply(sys, move, hash), t, i)
  {
    hide Enabled, Apply;
    ApplyShape(sys, move, hash);
  }

  lemma MoveKeepsOwners(sys: Sys, move: Move, hash: string -> int)
    requires Enabled(sys, move, hash) && EntriesOwned(sys)
    ensures EntriesOwned(Apply(sys, move, hash))
  {
    hide Enabled, Apply, StandsAt;
    LogStep(sys, move, hash);
    var after := Apply(sys, move, hash);
    forall i | 0 <= i < |after.log|
      ensures OwnedAt(after, i)
    {
      if i == |sys.log| {
        NewEntryOwned(sys, move, hash);
      } else if after.log[i].action.Operate? {
        assert OwnedAt(sys, i) && sys.log[i] == after.log[i];
        var t :| StandsAt(sys, t, i);
        StandsStill(sys, move, hash, t, i);
      }
    }
  }

  lemma {:induction false} ScheduleKeepsOwners(sys: Sys, moves: seq<Move>, hash: string -> int)
    requires EntriesOwned(sys) && Schedule(sys, moves, hash)
    ensures EntriesOwned(After(sys, moves, hash))
    decreases |moves|
  {
    hide Apply, Enabled, EntriesOwned;
    if moves != [] {
      MoveKeepsOwners(sys, moves[0], hash);
      ScheduleKeepsOwners(Apply(sys, moves[0], hash), moves[1..], hash);
    }
  }

  // ----- the refinement theorem --------------------------------------------------------

  /** Whatever the schedule, the committed tables and every answer are those of one serial order
      of atomic calls: the log. Every call of `execute` in it is that of exactly one finished call, and
      every finished call has a place of its own. Every result is true of the tables at its place, and the
      invariant of the tables holds throughout. */
  lemma InterleavedIsSerial(moves: seq<Move>, hash: string -> int)
    requires Schedule(INITIAL, moves, hash)
    ensures var sys := After(INITIAL, moves, hash); var actions := Actions(sys.log);
      && sys.db == Run(EMPTY, actions)
      && DbInv(sys.db)
      && EntriesOwned(sys)
      && (forall t, u, i :: StandsAt(sys, t, i) && StandsAt(sys, u, i) ==> t == u)
      && (forall t :: t in sys.txns && sys.txns[t].phase.Done? ==>
            var txn := sys.txns[t]; var i := txn.phase.position;
            && i < |actions| && actions[i] == txn.AsAction()
            && txn.phase.outcome == Answer(Run(EMPTY, actions[..i]), txn.request, txn.key, txn.ids)
            && (txn.phase.outcome.Ok? ==>
                  Truthful(Run(EMPTY, actions[..i]), txn.request, txn.key, txn.ids, txn.phase.outcome.value)))
  {
    hide Schedule, After, KeyLocksOk, RowLocksOk, ViewsCurrent, Answer, DbInv, Run, Serial;
    InitialInv(hash);
    ScheduleKeepsInv(INITIAL, moves, hash);
    ScheduleKeepsOwners(INITIAL, moves, hash);
    var sys := After(INITIAL, moves, hash);
    forall t, u, i | StandsAt(sys, t, i) && StandsAt(sys, u, i)
      ensures t == u
    {
      assert t != u ==> PlacedApart(sys.txns[t], sys.txns[u]);
    }
    hide OwnedAt, StandsAt, Truthful;
    var actions := Actions(sys.log);
    SerialIsRun(sys.log, |sys.log|);
    assert actions[..|actions|] == actions;
    ReachableInv(actions);
    forall t | t in sys.txns && sys.txns[t].phase.Done?
      ensures var txn := sys.txns[t]; var i := txn.phase.position;
        && i < |actions| && actions[i] == txn.AsAction()
        && txn.phase.outcome == Answer(Run(EMPTY, actions[..i]), txn.request, txn.key, txn.ids)
        && (txn.phase.outcome.Ok? ==>
              Truthful(Run(EMPTY, actions[..i]), txn.request, txn.key, txn.ids, txn.phase.outcome.value))
    {
      var i := sys.txns[t].phase.position;
      assert PlacedInLog(sys, t);
      assert AnswerSerial(sys.log, i);
      SerialIsRun(sys.log, i);
      if sys.txns[t].phase.outcome.Ok? {
        AnswersTruthful(Run(EMPTY, actions[..i]), sys.txns[t].request, sys.txns[t].key, sys.txns[t].ids);
      }
    }
  }

  /** A move changes the phase of at most one call, which was unfinished, and never shortens the log. */
  predicate Shape(sys: Sys, move: Move, after: Sys) {
    && |sys.log| <= |after.log|
    && after.txns.Keys == sys.txns.Keys + (if move.Spawn? then {move.t} else {})
    && (move.Spawn? ==> move.t !in sys.txns && after.txns[move.t].born == |sys.log|)
    && (forall u :: u in sys.txns ==> after.txns[u] == sys.txns[u].(phase := after.txns[u].phase))
    && (forall u :: u in sys.txns && sys.txns[u].Finished() ==> after.txns[u] == sys.txns[u])
    && (Advances(move) ==>
          && move.t in sys.txns
          && Remaining(after.txns[move.t].phase) < Remaining(sys.txns[move.t].phase)
          && forall u :: u in sys.txns && u != move.t ==> after.txns[u] == sys.txns[u])
  }

  lemma FinishShape(sys: Sys, move: Move, t: nat, outcome: Outcome, db: Db, hash: string -> int)
    requires t in sys.txns && !sys.txns[t].Finished() && Advances(move) && move.t == t
    ensures Shape(sys, move, Finish(sys, t, outcome, db, hash))
  {
    hide Release;
    ReleaseKeepsRest(sys, t, hash);
  }

  lemma PhaseShape(sys: Sys, move: Move, after: Sys, t: nat)
    requires t in sys.txns && !sys.txns[t].Finished() && !move.Spawn? && (Advances(move) ==> move.t == t)
    requires after.log == sys.log && t in after.txns && after.txns == sys.txns[t := after.txns[t]]
    requires after.txns[t] == sys.txns[t].(phase := after.txns[t].phase)
    requires Remaining(after.txns[t].phase) < Remaining(sys.txns[t].phase)
    ensures Shape(sys, move, after)
  {
  }

  lemma ApplyShape(sys: Sys, move: Move, hash: string -> int)
    requires Enabled(sys, move, hash)
    ensures Shape(sys, move, Apply(sys, move, hash))
  {
    hide Step, Written, Answer, FindKey, KeysFree, EntriesInsertable, IsBlank, Finish, Release, Shape;
    match move
    case Spawn(t, request, key, ids) => QuietShape(sys, move, hash);
    case Environment(a) => QuietShape(sys, move, hash);
    case Abort(t) =>
      ReleaseKeepsRest(sys, t, hash);
      PhaseShape(sys, move, Apply(sys, move, hash), t);
    case TakeKey(t) => PhaseShape(sys, move, Apply(sys, move, hash), t);
    case Reject(t) =>
      FinishShape(sys, move, t, Err(if IsBlank(sys.txns[t].key) then EmptyKey else SameAccounts), sys.db, hash);
    case _ => LaterShape(sys, move, hash);
  }

  lemma QuietShape(sys: Sys, move: Move, hash: string -> int)
    requires Enabled(sys, move, hash) && (move.Spawn? || move.Environment?)
    ensures Shape(sys, move, Apply(sys, move, hash))
  {
    hide Step;
  }

  lemma LaterShape(sys: Sys, move: Move, hash: string -> int)
    requires Enabled(sys, move, hash) && (move.LookUp? || move.TakeRow? || move.Write? || move.Commit?)
    ensures Shape(sys, move, Apply(sys, move, hash))
  {
    hide Written, FindKey, KeysFree, EntriesInsertable, Finish, Shape, ExpectedFrom;
    var t := move.t;
    forall outcome, db
      ensures Shape(sys, move, Finish(sys, t, outcome, db, hash))
    {
      FinishShape(sys, move, t, outcome, db, hash);
    }
    if Apply(sys, move, hash).log == sys.log {
      var after := Apply(sys, move, hash);
      FinishLogs(sys, t, hash);
      PhaseShape(sys, move, after, t);
    }
  }

  lemma FinishLogs(sys: Sys, t: nat, hash: string -> int)
    requires t in sys.txns
    ensures forall outcome, db :: Finish(sys, t, outcome, db, hash).log != sys.log
  {
    forall outcome, db
      ensures Finish(sys, t, outcome, db, hash).log != sys.log
    {
      assert |Finish(sys, t, outcome, db, hash).log| == |sys.log| + 1;
    }
  }

  /** Every call made from state `base` on was made at or after the log position of that state. */
  predicate BornAfter(base: Sys, sys: Sys) {
    && |base.log| <= |sys.log|
    && (forall t :: t in base.txns ==> (
          t in sys.txns && (base.txns[t].phase.Done? ==> sys.txns[t].phase == base.txns[t].phase)))
    && (forall t :: t in sys.txns && t !in base.txns ==> |base.log| <= sys.txns[t].born)
  }

  lemma MoveKeepsBirths(base: Sys, sys: Sys, move: Move, hash: string -> int)
    requires BornAfter(base, sys) && Enabled(sys, move, hash)
    ensures BornAfter(base, Apply(sys, move, hash))
  {
    hide Enabled, Apply;
    ApplyShape(sys, move, hash);
  }

  lemma {:induction false} ScheduleKeepsBirths(base: Sys, sys: Sys, moves: seq<Move>, hash: string -> int)
    requires BornAfter(base, sys) && Schedule(sys, moves, hash)
    ensures BornAfter(base, After(sys, moves, hash))
    decreases |moves|
  {
    hide BornAfter, Enabled, Apply;
    if moves != [] {
      MoveKeepsBirths(base, sys, moves[0], hash);
      ScheduleKeepsBirths(base, Apply(sys, moves[0], hash), moves[1..], hash);
    }
  }

  /** The serial order respects real time: a call that had finished before another was made comes
      before it. */
  lemma RealTimeOrder(base: Sys, moves: seq<Move>, hash: string -> int, t: nat, u: nat)
    requires SysInv(base, hash) && Schedule(base, moves, hash)
    requires t in base.txns && base.txns[t].phase.Done? && u !in base.txns
    requires u in After(base, moves, hash).txns && After(base, moves, hash).txns[u].phase.Done?
    ensures var later := After(base, moves, hash);
      && t in later.txns && later.txns[t].phase == base.txns[t].phase
      && later.txns[t].phase.position < later.txns[u].phase.position
  {
    hide KeyLocksOk, RowLocksOk, ViewsCurrent, AnswersSerial, Serial, After, Schedule;
    var later := After(base, moves, hash);
    ScheduleKeepsInv(base, moves, hash);
    ScheduleKeepsBirths(base, base, moves, hash);
    assert PlacedInLog(base, t) && PlacedInLog(later, u);
  }

  // ----- progress ----------------------------------------------------------------------

  /** The moves by which a call itself goes on, aborts excluded. */
  predicate Advances(move: Move) {
    move.Reject? || move.TakeKey? || move.LookUp? || move.TakeRow? || move.Write? || move.Commit?
  }

  lemma KeyHolder(sys: Sys, hash: string -> int, h: int)
    requires KeyLocksOk(sys, hash) && h in sys.keyLocks
    ensures sys.keyLocks[h] in sys.txns && sys.txns[sys.keyLocks[h]].HoldsKey()
  {
  }

  lemma RowHolder(sys: Sys, p: string)
    requires RowLocksOk(sys) && p in sys.rowLocks
    ensures sys.rowLocks[p] in sys.txns && sys.txns[sys.rowLocks[p]].HoldsRow()
  {
  }

  /** No deadlock: while some call is unfinished, some unfinished call can go on. The key lock is
      always taken before the row lock, so a holder of a row lock never waits. */
  lemma SomeCallCanGoOn(sys: Sys, hash: string -> int, t: nat) returns (move: Move)
    requires SysInv(sys, hash) && t in sys.txns && !sys.txns[t].Finished()
    ensures Advances(move) && Enabled(sys, move, hash)
  {
    hide IsBlank, AllPlaced, AnswersSerial, Serial, ViewsCurrent, KeyLocksOk, RowLocksOk;
    var u := t;
    if sys.txns[t].phase.Started? && sys.txns[t].ArgumentsValid() && hash(sys.txns[t].key) in sys.keyLocks {
      KeyHolder(sys, hash, hash(sys.txns[t].key));
      u := sys.keyLocks[hash(sys.txns[t].key)];
    }
    var request := sys.txns[u].request;
    if sys.txns[u].phase.KeyUnused? && request.paymentId in sys.rowLocks {
      RowHolder(sys, request.paymentId);
      u := sys.rowLocks[request.paymentId];
    }
    match sys.txns[u].phase
    case Started => move := if sys.txns[u].ArgumentsValid() then TakeKey(u) else Reject(u);
    case KeyHeld => move := LookUp(u);
    case KeyUnused => move := TakeRow(u);
    case RowHeld(_) => move := Write(u);
    case Wrote(_) => move := Commit(u);
  }

  /** How many moves a call may still need. */
  function Remaining(phase: Phase): nat {
    match phase
    case Started => 5
    case KeyHeld => 4
    case KeyUnused => 3
    case RowHeld(_) => 2
    case Wrote(_) => 1
    case _ => 0
  }

  ghost function Pick(ts: set<nat>): nat
    requires ts != {}
  {
    var t :| t in ts;
    t
  }

  ghost function Work(ts: set<nat>, txns: map<nat, Txn>): nat
    requires ts <= txns.Keys
  {
    if ts == {} then 0 else Remaining(txns[Pick(ts)].phase) + Work(ts - {Pick(ts)}, txns)
  }

  lemma {:induction false} WorkShrinks(ts: set<nat>, txns: map<nat, Txn>, after: map<nat, Txn>, t: nat)
    requires ts <= txns.Keys && txns.Keys == after.Keys
    requires forall u :: u in ts && u != t ==> after[u].phase == txns[u].phase
    requires t in ts ==> Remaining(after[t].phase) < Remaining(txns[t].phase)
    ensures if t in ts then Work(ts, after) < Work(ts, txns) else Work(ts, after) == Work(ts, txns)
  {
    if ts == {} {
    } else {
      WorkShrinks(ts - {Pick(ts)}, txns, after, t);
    }
  }

  lemma AdvancesIsNotSpawn(move: Move)
    ensures Advances(move) ==> !move.Spawn? && !move.Environment?
  {
  }

  /** Each of a call's own moves brings it closer to its end and leaves the other calls alone. */
  lemma AdvanceShrinksWork(sys: Sys, move: Move, hash: string -> int)
    requires Enabled(sys, move, hash) && Advances(move)
    ensures var after := Apply(sys, move, hash);
      && after.txns.Keys == sys.txns.Keys
      && Work(after.txns.Keys, after.txns) < Work(sys.txns.Keys, sys.txns)
  {
    hide Enabled, Apply, Work, Advances;
    ApplyShape(sys, move, hash);
    AdvancesIsNotSpawn(move);
    var after := Apply(sys, move, hash);
    assert after.txns.Keys == sys.txns.Keys;
    WorkShrinks(sys.txns.Keys, sys.txns, after.txns, move.t);
  }

  /** Every reachable state can be driven, without aborting anyone, to one where all calls are done. */
  lemma {:induction false} AllCallsCanFinish(sys: Sys, hash: string -> int) returns (moves: seq<Move>)
    requires SysInv(sys, hash)
    ensures Schedule(sys, moves, hash) && forall i :: 0 <= i < |moves| ==> Advances(moves[i])
    ensures forall t :: t in sys.txns ==>
      t in After(sys, moves, hash).txns && After(sys, moves, hash).txns[t].Finished()
    decreases Work(sys.txns.Keys, sys.txns)
  {
    hide SysInv, Enabled, Apply, Work, Txn.Finished;
    if t :| t in sys.txns && !sys.txns[t].Finished() {
      var move := SomeCallCanGoOn(sys, hash, t);
      AdvanceShrinksWork(sys, move, hash);
      MoveKeepsInv(sys, move, hash);
      var rest := AllCallsCanFinish(Apply(sys, move, hash), hash);
      moves := [move] + rest;
      assert moves[0] == move && moves[1..] == rest;
    } else {
      moves := [];
    }
  }
}
