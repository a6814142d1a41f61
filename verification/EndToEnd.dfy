// Payment operations and the delivery of their events as one system (app/payment_operations.py:94-229,
// app/outbox.py): `execute` inserts the outbox row in the transaction that commits the operation, and
// publishers and consumers work on the rows that are there.
module EndToEnd {
  import opened Results
  import opened Payments
  import Outbox
  import Delivery
  import Reconciliation

  /** The payment tables and the delivery side of the same outbox. */
  datatype Sys = Sys(db: Db, delivery: Delivery.Sys)

  const INITIAL := Sys(EMPTY, Delivery.INITIAL)

  /** `Pay` is a committed step on the payment tables, with the payload text of the event it may write. */
  datatype Move =
    | Pay(action: Action, payload: string)
    | Deliver(move: Delivery.Move)

  /** The columns of an event's outbox row that are written once. */
  function BodyOf(event: Event, payload: string): Outbox.Body {
    Outbox.Body(event.aggregateType, event.aggregateId,
                "payment." + Reconciliation.StatusValue(event.eventStatus), payload)
  }

  /** Whether the step commits a new operation, and with it an event. */
  predicate Writes(db: Db, action: Action) {
    action.Operate? && Executes(db, action.request, action.key, action.ids)
  }

  /** The row `execute` inserts. */
  function InsertFor(db: Db, action: Action, payload: string): Delivery.Move
    requires Writes(db, action) && action.ids.eventId in Step(db, action).outbox
  {
    Delivery.Insert(action.ids.eventId, BodyOf(Step(db, action).outbox[action.ids.eventId], payload))
  }

  /** Rows appear only through `Pay`; the insert's primary key is free whenever the operation commits. */
  predicate Enabled(sys: Sys, move: Move) {
    match move
    case Pay(action, payload) =>
      Writes(sys.db, action) ==>
        action.ids.eventId in Step(sys.db, action).outbox && action.ids.eventId !in sys.delivery.rows
    case Deliver(m) => !m.Insert? && Delivery.Enabled(sys.delivery, m)
  }

  function Apply(sys: Sys, move: Move): (after: Sys)
    requires Enabled(sys, move)
  {
    match move
    case Pay(action, payload) =>
      Sys(Step(sys.db, action),
          if Writes(sys.db, action) then Delivery.Apply(sys.delivery, InsertFor(sys.db, action, payload))
          else sys.delivery)
    case Deliver(m) => sys.(delivery := Delivery.Apply(sys.delivery, m))
  }

  predicate Schedule(sys: Sys, moves: seq<Move>)
    decreases |moves|
  {
    moves == [] || (Enabled(sys, moves[0]) && Schedule(Apply(sys, moves[0]), moves[1..]))
  }

  function After(sys: Sys, moves: seq<Move>): Sys
    requires Schedule(sys, moves)
    decreases |moves|
  {
    if moves == [] then sys else After(Apply(sys, moves[0]), moves[1..])
  }

  /** Publishing calls `consume_once` for one consumer. */
  predicate OnlyConsumer(moves: seq<Move>, consumer: string) {
    forall i :: 0 <= i < |moves| && moves[i].Deliver? ==> Delivery.ConsumesAs(moves[i].move, consumer)
  }

  // ----- the invariant -----------------------------------------------------------------

  /** The two sides hold the same events, and a row says what its event says. */
  predicate SameEvents(sys: Sys) {
    && sys.delivery.rows.Keys == sys.db.outbox.Keys
    && forall id :: id in sys.db.outbox ==> RowTells(sys, id)
  }

  predicate RowTells(sys: Sys, id: string)
    requires id in sys.db.outbox
  {
    && id in sys.delivery.rows
    && var body := sys.delivery.rows[id].body; body == BodyOf(sys.db.outbox[id], body.payload)
  }

  /** Whatever is claimed or was consumed is an event that is there, and a worker holds what its row says. */
  predicate NothingForeign(d: Delivery.Sys) {
    && (forall t :: t in d.claims ==> HoldsRow(d, t))
    && (forall m :: m in d.consumed ==> m.1 in d.rows)
  }

  predicate HoldsRow(d: Delivery.Sys, t: nat)
    requires t in d.claims
  {
    var claim := d.claims[t];
    && claim.event in d.rows && claim.handed.id == claim.event
    && claim.handed.body == d.rows[claim.event].body
  }

  ghost predicate Inv(sys: Sys, consumer: string) {
    && DbInv(sys.db) && Delivery.DedupInv(sys.delivery, consumer)
    && SameEvents(sys) && NothingForeign(sys.delivery)
  }

  /** What a step on the payment tables does to the outbox. */
  lemma OutboxAfter(db: Db, action: Action)
    ensures Writes(db, action) ==>
      && action.ids.eventId !in db.outbox
      && Step(db, action).outbox.Keys == db.outbox.Keys + {action.ids.eventId}
      && forall id :: id in db.outbox ==> Step(db, action).outbox[id] == db.outbox[id]
    ensures !Writes(db, action) ==> Step(db, action).outbox == db.outbox
  {
    hide Answer, PostAnswer, EventFor, EntriesInsertable;
    if Writes(db, action) {
      ExecutesMeans(db, action.request, action.key, action.ids);
    }
  }

  lemma RowKeysAfter(d: Delivery.Sys, m: Delivery.Move)
    requires Delivery.Enabled(d, m)
    ensures Delivery.Apply(d, m).rows.Keys == d.rows.Keys + if m.Insert? then {m.id} else {}
  {
    hide Outbox.Available, Outbox.LockRow, Outbox.AcknowledgeRow, Outbox.FailRow, Outbox.ResetRow;
  }

  lemma BodyAfter(d: Delivery.Sys, m: Delivery.Move, after: Delivery.Sys, id: string)
    requires Delivery.Enabled(d, m) && after == Delivery.Apply(d, m) && id in after.rows
    ensures m.Insert? && m.id == id ==> after.rows[id].body == m.body
    ensures id in d.rows ==> after.rows[id].body == d.rows[id].body
  {
    hide Outbox.Available;
  }

  /** What a delivery move does to the rows: none goes, and bodies stay. */
  lemma RowsAfter(d: Delivery.Sys, m: Delivery.Move)
    requires Delivery.Enabled(d, m)
    ensures var after := Delivery.Apply(d, m);
      && after.rows.Keys == d.rows.Keys + (if m.Insert? then {m.id} else {})
      && (m.Insert? ==> after.rows[m.id].body == m.body)
      && forall id :: id in d.rows ==> after.rows[id].body == d.rows[id].body
  {
    hide Delivery.Apply, Delivery.Enabled;
    RowKeysAfter(d, m);
    forall id | id in Delivery.Apply(d, m).rows
      ensures m.Insert? && m.id == id ==> Delivery.Apply(d, m).rows[id].body == m.body
      ensures id in d.rows ==> Delivery.Apply(d, m).rows[id].body == d.rows[id].body
    {
      BodyAfter(d, m, Delivery.Apply(d, m), id);
    }
  }

  lemma NothingForeignAfter(d: Delivery.Sys, m: Delivery.Move)
    requires Delivery.Enabled(d, m) && NothingForeign(d)
    ensures NothingForeign(Delivery.Apply(d, m))
  {
    hide Delivery.Apply, Delivery.Enabled;
    var after := Delivery.Apply(d, m);
    RowsAfter(d, m);
    Delivery.ConsumedAfter(d, m);
    forall t | t in after.claims
      ensures HoldsRow(after, t)
    {
      assert t in d.claims ==> HoldsRow(d, t);
      Delivery.ClaimBefore(d, m, after, t);
      NewClaimKnown(d, m, after, t);
    }
  }

  lemma NewClaimKnown(d: Delivery.Sys, m: Delivery.Move, after: Delivery.Sys, t: nat)
    requires Delivery.Enabled(d, m) && after == Delivery.Apply(d, m)
    ensures m.ClaimEvent? && m.token == t ==>
      && t in after.claims && after.claims[t].event == m.id && m.id in d.rows && t !in d.claims
      && after.claims[t].handed.id == m.id && after.claims[t].handed.body == d.rows[m.id].body
  {
  }

  lemma DeliverKeepsDedup(d: Delivery.Sys, m: Delivery.Move, consumer: string)
    requires Delivery.DedupInv(d, consumer) && Delivery.Enabled(d, m) && Delivery.ConsumesAs(m, consumer)
    ensures Delivery.DedupInv(Delivery.Apply(d, m), consumer)
  {
    hide Delivery.DedupInv, Delivery.Enabled, Delivery.Apply, Delivery.ConsumesAs;
    assert [m][1..] == [];
    Delivery.RunKeepsDedup(d, [m], consumer);
  }

  /** In every state of the invariant any step on the payment tables can be taken. */
  lemma PayIsEnabled(sys: Sys, action: Action, payload: string)
    requires SameEvents(sys)
    ensures Enabled(sys, Pay(action, payload))
  {
    hide Writes, Step;
    OutboxAfter(sys.db, action);
  }

  lemma MoveKeepsEvents(sys: Sys, move: Move)
    requires Enabled(sys, move) && SameEvents(sys)
    ensures SameEvents(Apply(sys, move))
  {
    hide Step, Executes, Delivery.Apply, Delivery.Enabled, BodyOf;
    var after := Apply(sys, move);
    match move
    case Pay(action, payload) =>
      OutboxAfter(sys.db, action);
      if Writes(sys.db, action) {
        InsertIsEnabled(sys, action, payload);
        RowsAfter(sys.delivery, InsertFor(sys.db, action, payload));
        BodyIsOf(after.db.outbox[action.ids.eventId], payload);
      }
      forall id | id in after.db.outbox
        ensures RowTells(after, id)
      {
        assert id in sys.db.outbox ==> RowTells(sys, id);
      }
    case Deliver(m) =>
      RowsAfter(sys.delivery, m);
      forall id | id in after.db.outbox
        ensures RowTells(after, id)
      {
        assert RowTells(sys, id);
      }
  }

  lemma InsertIsEnabled(sys: Sys, action: Action, payload: string)
    requires Writes(sys.db, action) && Enabled(sys, Pay(action, payload))
    ensures Delivery.Enabled(sys.delivery, InsertFor(sys.db, action, payload))
  {
  }

  lemma BodyIsOf(event: Event, payload: string)
    ensures BodyOf(event, payload).payload == payload
  {
  }

  lemma MoveKeepsInv(sys: Sys, move: Move, consumer: string)
    requires Inv(sys, consumer) && Enabled(sys, move)
    requires move.Deliver? ==> Delivery.ConsumesAs(move.move, consumer)
    ensures Inv(Apply(sys, move), consumer)
  {
    hide DbInv, Delivery.DedupInv, SameEvents, NothingForeign, Writes, Step, Delivery.Apply, Delivery.Enabled;
    hide Delivery.ConsumesAs;
    MoveKeepsEvents(sys, move);
    match move
    case Pay(action, payload) =>
      StepKeepsInv(sys.db, action);
      if Writes(sys.db, action) {
        var insert := InsertFor(sys.db, action, payload);
        InsertIsEnabled(sys, action, payload);
        InsertConsumes(insert, consumer);
        DeliverKeepsDedup(sys.delivery, insert, consumer);
        NothingForeignAfter(sys.delivery, insert);
      }
    case Deliver(m) =>
      DeliverKeepsDedup(sys.delivery, m, consumer);
      NothingForeignAfter(sys.delivery, m);
  }

  lemma InsertConsumes(m: Delivery.Move, consumer: string)
    ensures m.Insert? ==> Delivery.ConsumesAs(m, consumer)
  {
  }

  lemma {:induction false} RunKeepsInv(sys: Sys, moves: seq<Move>, consumer: string)
    requires Inv(sys, consumer) && Schedule(sys, moves) && OnlyConsumer(moves, consumer)
    ensures Inv(After(sys, moves), consumer)
    decreases |moves|
  {
    hide Inv, Enabled, Apply, Delivery.ConsumesAs;
    if moves != [] {
      MoveKeepsInv(sys, moves[0], consumer);
      RunKeepsInv(Apply(sys, moves[0]), moves[1..], consumer);
    }
  }

  lemma InitialInv(consumer: string)
    ensures Inv(INITIAL, consumer)
  {
    hide DbInv, Delivery.DedupInv;
    ReachableInv([]);
    Delivery.InitialDedup(consumer);
  }

  // ----- from the operation to the handler ---------------------------------------------

  /** Every committed operation has exactly one event; its row tells it; and once it is published, the
      handler has committed for it exactly once, before the one acknowledgement. */
  lemma OperationHandledOnce(moves: seq<Move>, consumer: string, i: nat) returns (e: string)
    requires Schedule(INITIAL, moves) && OnlyConsumer(moves, consumer)
    requires i < |After(INITIAL, moves).db.operations|
    ensures var sys := After(INITIAL, moves);
      && e in sys.db.outbox && Tells(sys.db, sys.db.outbox[e], sys.db.operations[i])
      && (forall f :: f in sys.db.outbox && sys.db.outbox[f].operationId == Some(sys.db.operations[i].id) ==> f == e)
      && RowTells(sys, e)
      && (sys.delivery.rows[e].publishedAt.Some? ==>
            exists h, a :: Delivery.HandledThenAcked(sys.delivery.log, consumer, e, h, a))
  {
    hide Schedule, After, DbInv, Delivery.DedupInv, NothingForeign, RowTells, Delivery.HandledThenAcked;
    InitialInv(consumer);
    RunKeepsInv(INITIAL, moves, consumer);
    var sys := After(INITIAL, moves);
    e := EventOfOperation(sys.db, i);
    assert RowTells(sys, e);
    RowIsThere(sys, e);
    if sys.delivery.rows[e].publishedAt.Some? {
      Delivery.HandledAndAcked(sys.delivery, consumer, e);
    }
  }

  lemma RowIsThere(sys: Sys, e: string)
    requires e in sys.db.outbox && RowTells(sys, e)
    ensures e in sys.delivery.rows
  {
  }

  /** Nothing else is ever handled: every committed handler run, published or not, is for the event of a
      committed operation, and no two runs are for the same one. */
  lemma HandledIsAnOperation(moves: seq<Move>, consumer: string, h: nat) returns (i: nat)
    requires Schedule(INITIAL, moves) && OnlyConsumer(moves, consumer)
    requires h < |After(INITIAL, moves).delivery.log| && After(INITIAL, moves).delivery.log[h].Handled?
    ensures var sys := After(INITIAL, moves); var e := sys.delivery.log[h].event;
      && i < |sys.db.operations| && e in sys.db.outbox
      && Tells(sys.db, sys.db.outbox[e], sys.db.operations[i])
      && forall k :: 0 <= k < |sys.delivery.log| && sys.delivery.log[k] == sys.delivery.log[h] ==> k == h
  {
    hide Schedule, After, DbInv, Tells;
    InitialInv(consumer);
    RunKeepsInv(INITIAL, moves, consumer);
    var sys := After(INITIAL, moves);
    HandledIsKnown(sys.delivery, consumer, h);
    i := OperationOfEvent(sys.db, sys.delivery.log[h].event);
  }

  lemma HandledIsKnown(d: Delivery.Sys, consumer: string, h: nat)
    requires Delivery.DedupInv(d, consumer) && NothingForeign(d) && h < |d.log| && d.log[h].Handled?
    ensures d.log[h].event in d.rows
    ensures forall k :: 0 <= k < |d.log| && d.log[k] == d.log[h] ==> k == h
  {
    hide Delivery.AckInv, Delivery.ConsumerOf, Delivery.ReturnedAfterHandled, Delivery.MarkersHeld,
      Delivery.HandlersHold;
    assert Delivery.Earlier(d.log, |d.log|, Delivery.Handled(d.log[h].consumer, d.log[h].event));
    assert (d.log[h].consumer, d.log[h].event) in d.consumed;
  }

  /** What a publisher is handed, and hands on to the handler, tells the operation: its event, its payment,
      and what became of the payment. */
  lemma HandedTellsOperation(moves: seq<Move>, consumer: string, t: nat) returns (i: nat)
    requires Schedule(INITIAL, moves) && OnlyConsumer(moves, consumer)
    requires t in After(INITIAL, moves).delivery.claims
    ensures var sys := After(INITIAL, moves); var handed := sys.delivery.claims[t].handed;
      && handed.id == sys.delivery.claims[t].event
      && i < |sys.db.operations| && handed.id in sys.db.outbox
      && Tells(sys.db, sys.db.outbox[handed.id], sys.db.operations[i])
      && handed.body.aggregateType == "payment"
      && handed.body.aggregateId == sys.db.operations[i].request.paymentId
      && handed.body.eventType == match sys.db.operations[i].request.operation
           case Capture => "payment.captured"
           case Refund => "payment.refunded"
           case Reversal => "payment.reversed"
  {
    hide Schedule, After, DbInv, Delivery.DedupInv;
    InitialInv(consumer);
    RunKeepsInv(INITIAL, moves, consumer);
    var sys := After(INITIAL, moves);
    assert HoldsRow(sys.delivery, t);
    var e := sys.delivery.claims[t].event;
    assert RowTells(sys, e);
    i := OperationOfEvent(sys.db, e);
  }
}
