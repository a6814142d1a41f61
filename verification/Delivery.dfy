// Workers that publish from the outbox concurrently (app/outbox.py:47-180): claims with leases, a
// clock, crashes, redelivery, operator resets and consumers that remember what they handled.
module Delivery {
  import opened Results
  import opened Strings
  import opened Outbox

  /** How far a worker has come with one claimed event. */
  datatype Stage =
    | Holding
    | Handling(consumer: string)
    | Delivered
    | Returned
    | Refused(text: string)
    | Over

  /** One event of one claimed batch: `at` is the claiming transaction's NOW(), and `handed` is what the
      worker holds, and hands to the publish call and the handler. */
  datatype Claim = Claim(event: string, at: int, lease: int, handed: OutboxEvent, stage: Stage)

  /** What the runs are judged by. */
  datatype Fact =
    | Handled(consumer: string, event: string)
    | PublishReturned(token: nat, event: string)
    | AckedTrue(token: nat, event: string)

  datatype Sys = Sys(
    clock: int, rows: map<string, Row>, claims: map<nat, Claim>,
    consuming: map<(string, string), nat>, consumed: set<(string, string)>, log: seq<Fact>)

  const INITIAL := Sys(0, map[], map[], map[], {}, [])

  /** `Publish` is a callback without deduplication; `ConsumeBegin` and `ConsumeEnd` are the two ends of
      a callback that calls `consume_once`. */
  datatype Move =
    | Tick(duration: nat)
    | Insert(id: string, body: Body)
    | ClaimEvent(token: nat, id: string, now: int, maxAttempts: int, lease: int)
    | Publish(token: nat, failure: Option<string>)
    | ConsumeBegin(token: nat, consumer: string)
    | ConsumeEnd(token: nat, failure: Option<string>)
    | Return(token: nat)
    | Acknowledge(token: nat, time: int)
    | RecordFailure(token: nat)
    | Crash(token: nat)
    | Reset(id: string)

  predicate AtStage(sys: Sys, token: nat, stage: Stage) {
    token in sys.claims && sys.claims[token].stage == stage
  }

  /** Whether a move can be taken. An insert of a marker waits for the one in progress to end. */
  predicate Enabled(sys: Sys, move: Move) {
    match move
    case Tick(_) => true
    case Insert(id, _) => id !in sys.rows
    case ClaimEvent(token, id, now, maxAttempts, lease) =>
      && token !in sys.claims && id in sys.rows && now <= sys.clock && maxAttempts > 0 && lease > 0
      && Available(sys.rows[id], now, maxAttempts, lease)
    case Publish(token, _) => AtStage(sys, token, Holding)
    case ConsumeBegin(token, consumer) =>
      AtStage(sys, token, Holding) && (consumer, sys.claims[token].event) !in sys.consuming
    case ConsumeEnd(token, _) => token in sys.claims && sys.claims[token].stage.Handling?
    case Return(token) => AtStage(sys, token, Delivered)
    case Acknowledge(token, _) => AtStage(sys, token, Returned)
    case RecordFailure(token) => token in sys.claims && sys.claims[token].stage.Refused?
    case Crash(token) => token in sys.claims && !sys.claims[token].stage.Over?
    case Reset(_) => true
  }

  function SetStage(sys: Sys, token: nat, stage: Stage): Sys
    requires token in sys.claims
  {
    sys.(claims := sys.claims[token := sys.claims[token].(stage := stage)])
  }

  /** Ends the consumer's transaction of a claim, if it has one open. */
  function Unlocked(sys: Sys, token: nat): Sys
    requires token in sys.claims
  {
    var claim := sys.claims[token];
    if claim.stage.Handling? then sys.(consuming := sys.consuming - {(claim.stage.consumer, claim.event)}) else sys
  }

  function Log(sys: Sys, fact: Fact): Sys {
    sys.(log := sys.log + [fact])
  }

  /** Whether the row an UPDATE names is there and unpublished. */
  predicate Unpublished(sys: Sys, id: string) {
    id in sys.rows && sys.rows[id].publishedAt.None?
  }

  function Apply(sys: Sys, move: Move): (after: Sys)
    requires Enabled(sys, move)
  {
    match move
    case Tick(duration) => sys.(clock := sys.clock + duration)
    case Insert(id, body) => sys.(rows := sys.rows[id := Row(body, sys.clock, None, 0, None, None)])
    case ClaimEvent(token, id, now, _, lease) =>
      sys.(rows := sys.rows[id := LockRow(sys.rows[id], now)],
           claims := sys.claims[token := Claim(id, now, lease, EventAt(sys.rows, id), Holding)])
    case Publish(token, failure) =>
      SetStage(sys, token, if failure.None? then Delivered else Refused(failure.value))
    case ConsumeBegin(token, consumer) =>
      var marker := (consumer, sys.claims[token].event);
      if IsBlank(consumer) then SetStage(sys, token, Refused("consumer_name must not be empty"))
      else if marker in sys.consumed then SetStage(sys, token, Delivered)
      else SetStage(sys.(consuming := sys.consuming[marker := token]), token, Handling(consumer))
    case ConsumeEnd(token, failure) =>
      var claim := sys.claims[token];
      var marker := (claim.stage.consumer, claim.event);
      if failure.Some? then SetStage(Unlocked(sys, token), token, Refused(failure.value))
      else
        var ended := SetStage(Unlocked(sys, token), token, Delivered);
        Log(ended.(consumed := sys.consumed + {marker}), Handled(marker.0, marker.1))
    case Return(token) =>
      Log(SetStage(sys, token, Returned), PublishReturned(token, sys.claims[token].event))
    case Acknowledge(token, time) =>
      var id := sys.claims[token].event;
      var ended := SetStage(sys, token, Over);
      if !Unpublished(sys, id) then ended
      else Log(ended.(rows := sys.rows[id := AcknowledgeRow(sys.rows[id], time)]), AckedTrue(token, id))
    case RecordFailure(token) =>
      var claim := sys.claims[token];
      var ended := SetStage(sys, token, Over);
      if !Unpublished(sys, claim.event) then ended
      else ended.(rows := sys.rows[claim.event := FailRow(sys.rows[claim.event], claim.stage.text)])
    case Crash(token) => SetStage(Unlocked(sys, token), token, Over)
    case Reset(id) =>
      if IsBlank(id) || !Unpublished(sys, id) then sys
      else sys.(rows := sys.rows[id := ResetRow(sys.rows[id])])
  }

  /** A run: every move is enabled when it is taken. */
  predicate Schedule(sys: Sys, moves: seq<Move>)
    decreases |moves|
  {
    moves == [] || (Enabled(sys, moves[0]) && Schedule(Apply(sys, moves[0]), moves[1..]))
  }

  function After(sys: Sys, moves: seq<Move>): Sys
    requires Schedule(sys, moves)
    decreases |moves|
  {
    if moves == [] then sys else After(Apply(sys, moves[0]), moves[1..])
  }

  // ----- lease safety ------------------------------------------------------------------

  predicate Live(sys: Sys, token: nat) {
    && token in sys.claims && !sys.claims[token].stage.Over?
    && sys.clock <= sys.claims[token].at + sys.claims[token].lease * SECOND
  }

  /** The discipline lease safety needs: one lease, one ceiling, and rows touched only under a live lease. */
  predicate Disciplined(sys: Sys, move: Move, maxAttempts: int, lease: int) {
    && (move.ClaimEvent? ==> move.maxAttempts == maxAttempts && move.lease == lease)
    && (move.Acknowledge? || move.RecordFailure? ==> Live(sys, move.token))
  }

  predicate DisciplinedRun(sys: Sys, moves: seq<Move>, maxAttempts: int, lease: int)
    requires Schedule(sys, moves)
    decreases |moves|
  {
    moves == [] || (
      && Disciplined(sys, moves[0], maxAttempts, lease)
      && DisciplinedRun(Apply(sys, moves[0]), moves[1..], maxAttempts, lease))
  }

  /** A live claim is the one its row's lock records. */
  ghost predicate LockIsLive(sys: Sys) {
    forall t :: Live(sys, t) ==> LockedBy(sys, t)
  }

  /** The row of a claim is there, and while it is unpublished its lock is the claim's. */
  predicate LockedBy(sys: Sys, t: nat)
    requires t in sys.claims
  {
    var id := sys.claims[t].event;
    id in sys.rows && (Unpublished(sys, id) ==> sys.rows[id].lockedAt == Some(sys.claims[t].at))
  }

  ghost predicate NoTwoLive(sys: Sys) {
    forall t, u :: Live(sys, t) && Live(sys, u) && sys.claims[t].event == sys.claims[u].event ==> t == u
  }

  predicate Bounded(row: Row, maxAttempts: int) {
    row.attempts + (if row.lockedAt.Some? then 1 else 0) <= maxAttempts
  }

  predicate AllBounded(sys: Sys, maxAttempts: int) {
    forall id :: id in sys.rows ==> Bounded(sys.rows[id], maxAttempts)
  }

  predicate OneLease(sys: Sys, lease: int) {
    forall t :: t in sys.claims ==> sys.claims[t].lease == lease
  }

  ghost predicate LeaseInv(sys: Sys, maxAttempts: int, lease: int) {
    LockIsLive(sys) && NoTwoLive(sys) && AllBounded(sys, maxAttempts) && OneLease(sys, lease)
  }

  /** A move changes at most the stage of one claim, and never reopens one; only `ClaimEvent` adds one. */
  lemma ClaimBefore(sys: Sys, move: Move, after: Sys, t: nat)
    requires Enabled(sys, move) && after == Apply(sys, move) && t in after.claims
    ensures after.clock >= sys.clock
    ensures t !in sys.claims ==> move.ClaimEvent? && move.token == t
    ensures t in sys.claims ==> after.claims[t] == sys.claims[t].(stage := after.claims[t].stage)
  {
    hide LockRow, AcknowledgeRow, FailRow, ResetRow, Available, IsBlank, Unpublished;
  }

  lemma StageBefore(sys: Sys, move: Move, after: Sys, t: nat)
    requires Enabled(sys, move) && after == Apply(sys, move) && t in after.claims
    ensures t in sys.claims && sys.claims[t].stage.Over? ==> after.claims[t].stage.Over?
    ensures (move.Acknowledge? || move.RecordFailure?) && move.token == t ==> after.claims[t].stage.Over?
    ensures after.claims[t].stage.Returned? ==>
      t in sys.claims && (sys.claims[t].stage.Returned? || (move.Return? && move.token == t))
  {
    hide LockRow, AcknowledgeRow, FailRow, ResetRow, Available, IsBlank, Unpublished;
  }

  /** A move makes no claim live again. */
  lemma LiveBefore(sys: Sys, move: Move, t: nat)
    requires Enabled(sys, move) && Live(Apply(sys, move), t)
    ensures !(move.ClaimEvent? && move.token == t) ==>
      && Live(sys, t)
      && Apply(sys, move).claims[t].event == sys.claims[t].event
      && Apply(sys, move).claims[t].at == sys.claims[t].at
    ensures (move.Acknowledge? || move.RecordFailure?) ==> move.token != t
  {
    hide Apply, Enabled;
    ClaimBefore(sys, move, Apply(sys, move), t);
    StageBefore(sys, move, Apply(sys, move), t);
  }

  /** The event whose row a move may lock, unlock or publish. */
  predicate Touches(sys: Sys, move: Move, id: string) {
    || (move.ClaimEvent? && move.id == id)
    || ((move.Acknowledge? || move.RecordFailure?) && move.token in sys.claims && sys.claims[move.token].event == id)
  }

  lemma LockKept(sys: Sys, move: Move, id: string)
    requires Enabled(sys, move) && id in sys.rows && !Touches(sys, move, id)
    ensures id in Apply(sys, move).rows
    ensures Unpublished(Apply(sys, move), id) <==> Unpublished(sys, id)
    ensures Apply(sys, move).rows[id].lockedAt == sys.rows[id].lockedAt
  {
    hide Available, IsBlank;
  }

  /** An event with a live claim is not available. */
  lemma LiveNotAvailable(sys: Sys, move: Move, t: nat, lease: int)
    requires LockIsLive(sys) && OneLease(sys, lease) && Live(sys, t)
    requires move.ClaimEvent? && Enabled(sys, move) && move.lease == lease
    ensures sys.claims[t].event != move.id
  {
  }

  lemma MoveKeepsLocks(sys: Sys, move: Move, maxAttempts: int, lease: int, t: nat)
    requires LeaseInv(sys, maxAttempts, lease)
    requires Enabled(sys, move) && Disciplined(sys, move, maxAttempts, lease)
    requires Live(Apply(sys, move), t)
    ensures LockedBy(Apply(sys, move), t)
  {
    hide AllBounded;
    if move.ClaimEvent? && move.token == t {
    } else {
      LiveBefore(sys, move, t);
      hide Live, Apply;
      if move.ClaimEvent? {
        LiveNotAvailable(sys, move, t, lease);
      }
      LockKept(sys, move, sys.claims[t].event);
    }
  }

  lemma MoveKeepsNoTwo(sys: Sys, move: Move, maxAttempts: int, lease: int, t: nat, u: nat)
    requires LeaseInv(sys, maxAttempts, lease)
    requires Enabled(sys, move) && Disciplined(sys, move, maxAttempts, lease)
    requires Live(Apply(sys, move), t) && Live(Apply(sys, move), u)
    requires Apply(sys, move).claims[t].event == Apply(sys, move).claims[u].event
    ensures t == u
  {
    LiveBefore(sys, move, t);
    LiveBefore(sys, move, u);
  }

  lemma MoveKeepsBounds(sys: Sys, move: Move, maxAttempts: int, lease: int)
    requires maxAttempts > 0 && LockIsLive(sys) && AllBounded(sys, maxAttempts) && OneLease(sys, lease)
    requires Enabled(sys, move) && Disciplined(sys, move, maxAttempts, lease)
    ensures AllBounded(Apply(sys, move), maxAttempts) && OneLease(Apply(sys, move), lease)
  {
  }

  lemma MoveKeepsLease(sys: Sys, move: Move, maxAttempts: int, lease: int)
    requires maxAttempts > 0 && LeaseInv(sys, maxAttempts, lease)
    requires Enabled(sys, move) && Disciplined(sys, move, maxAttempts, lease)
    ensures LeaseInv(Apply(sys, move), maxAttempts, lease)
  {
    hide Enabled, Apply, Disciplined, LockedBy, AllBounded, OneLease;
    var after := Apply(sys, move);
    forall t | Live(after, t)
      ensures LockedBy(after, t)
    {
      MoveKeepsLocks(sys, move, maxAttempts, lease, t);
    }
    forall t, u | Live(after, t) && Live(after, u) && after.claims[t].event == after.claims[u].event
      ensures t == u
    {
      MoveKeepsNoTwo(sys, move, maxAttempts, lease, t, u);
    }
    MoveKeepsBounds(sys, move, maxAttempts, lease);
  }

  lemma {:induction false} RunKeepsLease(sys: Sys, moves: seq<Move>, maxAttempts: int, lease: int)
    requires maxAttempts > 0 && LeaseInv(sys, maxAttempts, lease)
    requires Schedule(sys, moves) && DisciplinedRun(sys, moves, maxAttempts, lease)
    ensures LeaseInv(After(sys, moves), maxAttempts, lease)
    decreases |moves|
  {
    hide LeaseInv, Enabled, Apply, Disciplined;
    if moves != [] {
      MoveKeepsLease(sys, moves[0], maxAttempts, lease);
      RunKeepsLease(Apply(sys, moves[0]), moves[1..], maxAttempts, lease);
    }
  }

  /** Lease safety: in every disciplined run no event has two live claims, and the attempts of an
      event, counting the one in progress, never exceed the ceiling. */
  lemma LeaseSafety(moves: seq<Move>, maxAttempts: int, lease: int)
    requires maxAttempts > 0
    requires Schedule(INITIAL, moves) && DisciplinedRun(INITIAL, moves, maxAttempts, lease)
    ensures NoTwoLive(After(INITIAL, moves)) && AllBounded(After(INITIAL, moves), maxAttempts)
  {
    RunKeepsLease(INITIAL, moves, maxAttempts, lease);
  }

  // ----- the attempt ceiling -----------------------------------------------------------

  /** Moves under one ceiling that never reset an event. */
  predicate NeverResets(moves: seq<Move>, id: string, maxAttempts: int) {
    forall i :: 0 <= i < |moves| ==>
      && moves[i] != Reset(id)
      && (moves[i].ClaimEvent? ==> moves[i].maxAttempts == maxAttempts)
  }

  lemma MoveKeepsCeiling(sys: Sys, move: Move, id: string, maxAttempts: int)
    requires Enabled(sys, move) && id in sys.rows && sys.rows[id].attempts >= maxAttempts
    requires move != Reset(id) && (move.ClaimEvent? ==> move.maxAttempts == maxAttempts)
    ensures id in Apply(sys, move).rows && Apply(sys, move).rows[id].attempts >= maxAttempts
    ensures ClaimsOn(Apply(sys, move), id) == ClaimsOn(sys, id)
  {
    hide Apply, ClaimsOn;
    AttemptsGrow(sys, move, id);
    ClaimsOnAfter(sys, move, id);
  }

  lemma AttemptsGrow(sys: Sys, move: Move, id: string)
    requires Enabled(sys, move) && id in sys.rows && move != Reset(id)
    ensures id in Apply(sys, move).rows && Apply(sys, move).rows[id].attempts >= sys.rows[id].attempts
  {
    hide IsBlank, Available;
  }

  lemma ClaimsOnAfter(sys: Sys, move: Move, id: string)
    requires Enabled(sys, move) && !(move.ClaimEvent? && move.id == id)
    ensures ClaimsOn(Apply(sys, move), id) == ClaimsOn(sys, id)
  {
    hide LockRow, AcknowledgeRow, FailRow, ResetRow, Available, IsBlank, Unpublished;
  }

  /** All claims of an event, past ones included. */
  function ClaimsOn(sys: Sys, id: string): set<nat> {
    set t | t in sys.claims && sys.claims[t].event == id
  }

  /** An event at the ceiling is not claimed again, whatever happens, until it is reset. */
  lemma {:induction false} CeilingStopsClaims(sys: Sys, moves: seq<Move>, id: string, maxAttempts: int)
    requires Schedule(sys, moves) && NeverResets(moves, id, maxAttempts)
    requires id in sys.rows && sys.rows[id].attempts >= maxAttempts
    ensures id in After(sys, moves).rows && After(sys, moves).rows[id].attempts >= maxAttempts
    ensures ClaimsOn(After(sys, moves), id) == ClaimsOn(sys, id)
    decreases |moves|
  {
    hide Enabled, Apply, ClaimsOn;
    if moves != [] {
      MoveKeepsCeiling(sys, moves[0], id, maxAttempts);
      CeilingStopsClaims(Apply(sys, moves[0]), moves[1..], id, maxAttempts);
    }
  }

  // ----- delivery: no lease assumption -------------------------------------------------

  /** `fact` is in the log before position `i`. */
  predicate Earlier(log: seq<Fact>, i: nat, fact: Fact) {
    exists j :: 0 <= j < i && j < |log| && log[j] == fact
  }

  ghost predicate AckedAtAll(log: seq<Fact>, id: string) {
    exists i :: 0 <= i < |log| && log[i].AckedTrue? && log[i].event == id
  }

  /** An event is published exactly when some acknowledgement of it answered True. */
  ghost predicate PublishedIsAcked(sys: Sys) {
    && (forall id :: id in sys.rows ==> (sys.rows[id].publishedAt.Some? <==> AckedAtAll(sys.log, id)))
    && (forall id :: AckedAtAll(sys.log, id) ==> id in sys.rows)
  }

  predicate AckedOnce(sys: Sys) {
    forall i, j :: 0 <= i < j < |sys.log| && sys.log[i].AckedTrue? && sys.log[j].AckedTrue? ==>
      sys.log[i].event != sys.log[j].event
  }

  predicate AckedAfterReturn(sys: Sys) {
    forall i :: 0 <= i < |sys.log| && sys.log[i].AckedTrue? ==>
      Earlier(sys.log, i, PublishReturned(sys.log[i].token, sys.log[i].event))
  }

  predicate ReturnedIsLogged(sys: Sys) {
    forall t :: t in sys.claims && sys.claims[t].stage.Returned? ==>
      Earlier(sys.log, |sys.log|, PublishReturned(t, sys.claims[t].event))
  }

  ghost predicate AckInv(sys: Sys) {
    PublishedIsAcked(sys) && AckedOnce(sys) && AckedAfterReturn(sys) && ReturnedIsLogged(sys)
  }

  lemma EarlierStays(log: seq<Fact>, more: seq<Fact>, i: nat, fact: Fact)
    requires i <= |log| && Earlier(log, i, fact)
    ensures forall k :: i <= k ==> Earlier(log + more, k, fact)
  {
    var j :| 0 <= j < i && j < |log| && log[j] == fact;
    assert (log + more)[j] == fact;
  }

  lemma AckedAtAllAppend(log: seq<Fact>, fact: Fact, id: string)
    ensures AckedAtAll(log + [fact], id) <==> AckedAtAll(log, id) || (fact.AckedTrue? && fact.event == id)
  {
    var longer := log + [fact];
    if AckedAtAll(log, id) {
      var i :| 0 <= i < |log| && log[i].AckedTrue? && log[i].event == id;
      assert longer[i] == log[i];
    }
    assert longer[|log|] == fact;
  }

  /** What a move adds to the log. */
  function Added(sys: Sys, move: Move): seq<Fact>
    requires Enabled(sys, move)
  {
    match move
    case ConsumeEnd(token, failure) =>
      if failure.Some? then [] else [Handled(sys.claims[token].stage.consumer, sys.claims[token].event)]
    case Return(token) => [PublishReturned(token, sys.claims[token].event)]
    case Acknowledge(token, _) =>
      if Unpublished(sys, sys.claims[token].event) then [AckedTrue(token, sys.claims[token].event)] else []
    case _ => []
  }

  lemma LogAfter(sys: Sys, move: Move)
    requires Enabled(sys, move)
    ensures Apply(sys, move).log == sys.log + Added(sys, move)
  {
    hide LockRow, AcknowledgeRow, FailRow, ResetRow, Available, IsBlank, Unpublished;
  }

  /** What a move does to the publication of a row. */
  lemma PublicationAfter(sys: Sys, move: Move, id: string)
    requires Enabled(sys, move)
    ensures var after := Apply(sys, move);
      && (id in sys.rows ==> id in after.rows)
      && (id in after.rows ==>
            (after.rows[id].publishedAt.Some? <==>
             (id in sys.rows && sys.rows[id].publishedAt.Some?)
             || Acks(sys, move, id)))
  {
    hide IsBlank, Available;
  }

  /** The move is the acknowledgement that publishes `id`. */
  predicate Acks(sys: Sys, move: Move, id: string) {
    && move.Acknowledge? && move.token in sys.claims && sys.claims[move.token].event == id
    && Unpublished(sys, id)
  }

  lemma AckedAfterMove(sys: Sys, move: Move, id: string)
    requires Enabled(sys, move)
    ensures AckedAtAll(Apply(sys, move).log, id) <==>
      AckedAtAll(sys.log, id) || Acks(sys, move, id)
  {
    hide AckedAtAll, Apply;
    LogAfter(sys, move);
    if Added(sys, move) == [] {
      assert sys.log + [] == sys.log;
    } else {
      AckedAtAllAppend(sys.log, Added(sys, move)[0], id);
    }
  }

  lemma MoveKeepsPublished(sys: Sys, move: Move)
    requires Enabled(sys, move) && PublishedIsAcked(sys)
    ensures PublishedIsAcked(Apply(sys, move))
  {
    hide Enabled, Apply, Added, AckedAtAll;
    var after := Apply(sys, move);
    forall id
      ensures id in after.rows ==> (after.rows[id].publishedAt.Some? <==> AckedAtAll(after.log, id))
      ensures AckedAtAll(after.log, id) ==> id in after.rows
    {
      PublicationAfter(sys, move, id);
      AckedAfterMove(sys, move, id);
    }
  }

  lemma MoveKeepsAckedOnce(sys: Sys, move: Move)
    requires Enabled(sys, move) && PublishedIsAcked(sys) && AckedOnce(sys)
    ensures AckedOnce(Apply(sys, move))
  {
    hide Apply;
    LogAfter(sys, move);
    if move.Acknowledge? && Unpublished(sys, sys.claims[move.token].event) {
      assert !AckedAtAll(sys.log, sys.claims[move.token].event);
    }
  }

  lemma MoveKeepsReturned(sys: Sys, move: Move)
    requires Enabled(sys, move) && ReturnedIsLogged(sys)
    ensures ReturnedIsLogged(Apply(sys, move))
  {
    hide Apply, Earlier;
    LogAfter(sys, move);
    var after := Apply(sys, move);
    forall t | t in after.claims && after.claims[t].stage.Returned?
      ensures Earlier(after.log, |after.log|, PublishReturned(t, after.claims[t].event))
    {
      ClaimBefore(sys, move, after, t);
      StageBefore(sys, move, after, t);
      if move.Return? && move.token == t {
        LastIsEarlier(sys.log, PublishReturned(t, sys.claims[t].event));
      } else {
        EarlierStays(sys.log, Added(sys, move), |sys.log|, PublishReturned(t, after.claims[t].event));
      }
    }
  }

  lemma LastIsEarlier(log: seq<Fact>, fact: Fact)
    ensures Earlier(log + [fact], |log| + 1, fact)
  {
    assert (log + [fact])[|log|] == fact;
  }

  lemma MoveKeepsAckedAfterReturn(sys: Sys, move: Move)
    requires Enabled(sys, move) && AckedAfterReturn(sys) && ReturnedIsLogged(sys)
    ensures AckedAfterReturn(Apply(sys, move))
  {
    hide Apply, Earlier;
    LogAfter(sys, move);
    var log := sys.log + Added(sys, move);
    forall i | 0 <= i < |log| && log[i].AckedTrue?
      ensures Earlier(log, i, PublishReturned(log[i].token, log[i].event))
    {
      EarlierStays(sys.log, Added(sys, move), i, PublishReturned(log[i].token, log[i].event));
    }
  }

  lemma MoveKeepsAck(sys: Sys, move: Move)
    requires Enabled(sys, move) && AckInv(sys)
    ensures AckInv(Apply(sys, move))
  {
    hide Enabled, Apply, PublishedIsAcked, AckedOnce, AckedAfterReturn, ReturnedIsLogged;
    MoveKeepsPublished(sys, move);
    MoveKeepsAckedOnce(sys, move);
    MoveKeepsReturned(sys, move);
    MoveKeepsAckedAfterReturn(sys, move);
  }

  lemma {:induction false} RunKeepsAck(sys: Sys, moves: seq<Move>)
    requires AckInv(sys) && Schedule(sys, moves)
    ensures AckInv(After(sys, moves))
    decreases |moves|
  {
    hide Enabled, Apply, AckInv;
    if moves != [] {
      MoveKeepsAck(sys, moves[0]);
      RunKeepsAck(Apply(sys, moves[0]), moves[1..]);
    }
  }

  /** In every run, with any leases and late workers: an event is published exactly when an
      acknowledgement of it answered True, that happens at most once, and only after the publish
      call of the same claim returned. */
  lemma AcknowledgedOnceAfterPublish(moves: seq<Move>)
    requires Schedule(INITIAL, moves)
    ensures AckInv(After(INITIAL, moves))
  {
    RunKeepsAck(INITIAL, moves);
  }

  // ----- consumers ---------------------------------------------------------------------

  /** A consumer has consumed an event exactly when a handler run of it has committed. */
  ghost predicate HandledIsConsumed(sys: Sys) {
    forall c, e :: Earlier(sys.log, |sys.log|, Handled(c, e)) <==> (c, e) in sys.consumed
  }

  predicate HandledOnce(sys: Sys) {
    forall i, j :: 0 <= i < j < |sys.log| && sys.log[i].Handled? ==> sys.log[i] != sys.log[j]
  }

  /** Markers being inserted belong to the claims whose handlers run, and are not committed yet. */
  predicate MarkersHeld(sys: Sys) {
    forall m :: m in sys.consuming ==> MarkerHeld(sys, m)
  }

  predicate MarkerHeld(sys: Sys, m: (string, string))
    requires m in sys.consuming
  {
    && m !in sys.consumed
    && sys.consuming[m] in sys.claims
    && sys.claims[sys.consuming[m]].stage == Handling(m.0)
    && sys.claims[sys.consuming[m]].event == m.1
  }

  predicate HandlersHold(sys: Sys) {
    forall t :: t in sys.claims && sys.claims[t].stage.Handling? ==> HandlerHolds(sys, t)
  }

  predicate HandlerHolds(sys: Sys, t: nat)
    requires t in sys.claims && sys.claims[t].stage.Handling?
  {
    MarkerOf(sys, t) in sys.consuming && sys.consuming[MarkerOf(sys, t)] == t
  }

  ghost predicate ConsumeInv(sys: Sys) {
    HandledIsConsumed(sys) && HandledOnce(sys) && MarkersHeld(sys) && HandlersHold(sys)
  }

  /** The handler run a move commits. */
  predicate Commits(sys: Sys, move: Move) {
    move.ConsumeEnd? && move.failure.None? && move.token in sys.claims && sys.claims[move.token].stage.Handling?
  }

  function MarkerOf(sys: Sys, token: nat): (string, string)
    requires token in sys.claims && sys.claims[token].stage.Handling?
  {
    (sys.claims[token].stage.consumer, sys.claims[token].event)
  }

  lemma ConsumedAfter(sys: Sys, move: Move)
    requires Enabled(sys, move)
    ensures Apply(sys, move).consumed == sys.consumed + if Commits(sys, move) then {MarkerOf(sys, move.token)} else {}
  {
    hide LockRow, AcknowledgeRow, FailRow, ResetRow, Available, IsBlank, Unpublished;
  }

  lemma EarlierAppend(log: seq<Fact>, fact: Fact, wanted: Fact)
    ensures Earlier(log + [fact], |log| + 1, wanted) <==> Earlier(log, |log|, wanted) || fact == wanted
  {
    if Earlier(log, |log|, wanted) {
      EarlierStays(log, [fact], |log|, wanted);
    }
    LastIsEarlier(log, fact);
  }

  lemma MoveKeepsHandled(sys: Sys, move: Move)
    requires Enabled(sys, move) && ConsumeInv(sys)
    ensures HandledIsConsumed(Apply(sys, move)) && HandledOnce(Apply(sys, move))
  {
    hide Apply, Earlier, MarkersHeld, HandlersHold;
    LogAfter(sys, move);
    ConsumedAfter(sys, move);
    var added := Added(sys, move);
    if added == [] {
      assert sys.log + [] == sys.log;
    } else {
      forall c, e
        ensures Earlier(sys.log + added, |sys.log| + 1, Handled(c, e))
          <==> Earlier(sys.log, |sys.log|, Handled(c, e)) || added[0] == Handled(c, e)
      {
        EarlierAppend(sys.log, added[0], Handled(c, e));
      }
    }
    if Commits(sys, move) {
      NotYetConsumed(sys, move.token);
      NotLogged(sys.log, added[0]);
    }
  }

  lemma NotYetConsumed(sys: Sys, token: nat)
    requires MarkersHeld(sys) && HandlersHold(sys) && token in sys.claims && sys.claims[token].stage.Handling?
    ensures MarkerOf(sys, token) !in sys.consumed
  {
  }

  lemma NotLogged(log: seq<Fact>, fact: Fact)
    requires !Earlier(log, |log|, fact)
    ensures forall i :: 0 <= i < |log| ==> log[i] != fact
  {
  }

  /** The move starts a handler. */
  predicate Opens(sys: Sys, move: Move) {
    && move.ConsumeBegin? && move.token in sys.claims && !IsBlank(move.consumer)
    && (move.consumer, sys.claims[move.token].event) !in sys.consumed
  }

  /** The move ends a running handler. */
  predicate Closes(sys: Sys, move: Move) {
    (move.ConsumeEnd? || move.Crash?) && move.token in sys.claims && sys.claims[move.token].stage.Handling?
  }

  lemma ConsumingAfter(sys: Sys, move: Move)
    requires Enabled(sys, move)
    ensures Apply(sys, move).consuming ==
      if Opens(sys, move) then sys.consuming[(move.consumer, sys.claims[move.token].event) := move.token]
      else if Closes(sys, move) then sys.consuming - {MarkerOf(sys, move.token)}
      else sys.consuming
  {
    hide LockRow, AcknowledgeRow, FailRow, ResetRow, Available, IsBlank, Unpublished;
  }

  lemma HandlingAfter(sys: Sys, move: Move, after: Sys, t: nat)
    requires Enabled(sys, move) && after == Apply(sys, move) && t in after.claims
    ensures Opens(sys, move) && move.token == t ==>
      after.claims[t].stage == Handling(move.consumer) && t in sys.claims && !sys.claims[t].stage.Handling?
    ensures Closes(sys, move) && move.token == t ==> !after.claims[t].stage.Handling?
    ensures !((Opens(sys, move) || Closes(sys, move)) && move.token == t) ==>
      (if t in sys.claims && sys.claims[t].stage.Handling? then after.claims[t] == sys.claims[t]
       else !after.claims[t].stage.Handling?)
  {
    hide LockRow, AcknowledgeRow, FailRow, ResetRow, Available, IsBlank, Unpublished;
  }

  lemma MoveKeepsHandlers(sys: Sys, move: Move, t: nat)
    requires Enabled(sys, move) && MarkersHeld(sys) && HandlersHold(sys)
    requires t in Apply(sys, move).claims && Apply(sys, move).claims[t].stage.Handling?
    ensures HandlerHolds(Apply(sys, move), t)
  {
    hide Apply;
    ConsumingAfter(sys, move);
    HandlingAfter(sys, move, Apply(sys, move), t);
    ClaimBefore(sys, move, Apply(sys, move), t);
  }

  lemma MoveKeepsMarker(sys: Sys, move: Move, m: (string, string))
    requires Enabled(sys, move) && MarkersHeld(sys) && HandlersHold(sys)
    requires m in Apply(sys, move).consuming
    ensures MarkerHeld(Apply(sys, move), m)
  {
    hide Apply;
    var after := Apply(sys, move);
    var t := after.consuming[m];
    ConsumingAfter(sys, move);
    ConsumedAfter(sys, move);
    ClaimStays(sys, move, t);
    HandlingAfter(sys, move, after, t);
    ClaimBefore(sys, move, after, t);
  }

  lemma ClaimStays(sys: Sys, move: Move, t: nat)
    requires Enabled(sys, move) && t in sys.claims
    ensures t in Apply(sys, move).claims
  {
    hide LockRow, AcknowledgeRow, FailRow, ResetRow, Available, IsBlank, Unpublished;
  }

  lemma MoveKeepsMarkers(sys: Sys, move: Move)
    requires Enabled(sys, move) && MarkersHeld(sys) && HandlersHold(sys)
    ensures MarkersHeld(Apply(sys, move)) && HandlersHold(Apply(sys, move))
  {
    hide Apply, Enabled;
    forall m | m in Apply(sys, move).consuming
      ensures MarkerHeld(Apply(sys, move), m)
    {
      MoveKeepsMarker(sys, move, m);
    }
    forall t | t in Apply(sys, move).claims && Apply(sys, move).claims[t].stage.Handling?
      ensures HandlerHolds(Apply(sys, move), t)
    {
      MoveKeepsHandlers(sys, move, t);
    }
  }

  /** The two ends of a callback that calls `consume_once`: a blank name raises; an event consumed before is
      passed over; otherwise the handler runs, and its marker is committed unless it raises. What was
      raised is what the failure record will say. */
  lemma ConsumesOnce(sys: Sys, token: nat, consumer: string, failure: Option<string>)
    requires Enabled(sys, ConsumeBegin(token, consumer))
    ensures var e := sys.claims[token].event; var begun := Apply(sys, ConsumeBegin(token, consumer));
      && begun.consumed == sys.consumed && begun.log == sys.log
      && begun.claims[token].stage ==
           (if IsBlank(consumer) then Refused("consumer_name must not be empty")
            else if (consumer, e) in sys.consumed then Delivered
            else Handling(consumer))
      && (begun.claims[token].stage.Handling? ==>
            && Enabled(begun, ConsumeEnd(token, failure))
            && var ended := Apply(begun, ConsumeEnd(token, failure));
            && ended.claims[token].stage == (if failure.None? then Delivered else Refused(failure.value))
            && ended.consumed == (if failure.None? then sys.consumed + {(consumer, e)} else sys.consumed)
            && ended.rows == sys.rows)
  {
  }

  /** A new event is unpublished, unlocked and untried, and was created now; a claim locks its row, hands
      it out and records when and for how long. */
  lemma NewRowsAndClaims(sys: Sys, id: string, body: Body, token: nat, now: int, maxAttempts: int, lease: int)
    ensures Enabled(sys, Insert(id, body)) ==>
      Apply(sys, Insert(id, body)).rows == sys.rows[id := Row(body, sys.clock, None, 0, None, None)]
    ensures Enabled(sys, ClaimEvent(token, id, now, maxAttempts, lease)) ==>
      && var after := Apply(sys, ClaimEvent(token, id, now, maxAttempts, lease));
      && after.rows == sys.rows[id := sys.rows[id].(lockedAt := Some(now))]
      && after.claims == sys.claims[token :=
           Claim(id, now, lease, OutboxEvent(id, sys.rows[id].body, sys.rows[id].attempts), Holding)]
  {
  }

  /** An acknowledgement, and an operator's reset, of a row that is there and unpublished; of any other row,
      and a reset of a blank id, they change no row. */
  lemma TouchedRows(sys: Sys, token: nat, time: int, id: string)
    ensures Enabled(sys, Acknowledge(token, time)) ==>
      && var e := sys.claims[token].event; var after := Apply(sys, Acknowledge(token, time));
      && after.claims[token].stage == Over
      && (if e in sys.rows && sys.rows[e].publishedAt == None then
            && after.log == sys.log + [AckedTrue(token, e)]
            && after.rows == sys.rows[e := Row(sys.rows[e].body, sys.rows[e].createdAt, Some(time),
                                               sys.rows[e].attempts + 1, None, None)]
          else after.log == sys.log && after.rows == sys.rows)
    ensures var after := Apply(sys, Reset(id));
      after.rows ==
        if !IsBlank(id) && id in sys.rows && sys.rows[id].publishedAt == None then
          sys.rows[id := Row(sys.rows[id].body, sys.rows[id].createdAt, None, 0, None, sys.rows[id].lockedAt)]
        else sys.rows
  {
    hide IsBlank;
  }

  /** A failure record keeps the first thousand characters of what was raised. */
  lemma FailureIsRecorded(sys: Sys, token: nat)
    requires Enabled(sys, RecordFailure(token)) && Unpublished(sys, sys.claims[token].event)
    ensures var row := Apply(sys, RecordFailure(token)).rows[sys.claims[token].event];
      var text := sys.claims[token].stage.text;
      row.lastError == Some(if |text| > 1000 then text[..1000] else text)
  {
  }

  /** Runs whose every publish callback is `consume_once` for one consumer. */
  predicate OnlyConsumer(moves: seq<Move>, consumer: string) {
    forall i :: 0 <= i < |moves| ==> ConsumesAs(moves[i], consumer)
  }

  predicate ConsumesAs(move: Move, consumer: string) {
    !move.Publish? && (move.ConsumeBegin? ==> move.consumer == consumer)
  }

  predicate ConsumerOf(sys: Sys, consumer: string) {
    forall t :: t in sys.claims ==> ClaimOf(sys, consumer, t)
  }

  predicate ClaimOf(sys: Sys, consumer: string, t: nat)
    requires t in sys.claims
  {
    && (sys.claims[t].stage.Handling? ==> sys.claims[t].stage.consumer == consumer)
    && (sys.claims[t].stage.Delivered? || sys.claims[t].stage.Returned? ==>
          (consumer, sys.claims[t].event) in sys.consumed)
  }

  predicate ReturnedAfterHandled(sys: Sys, consumer: string) {
    forall i :: 0 <= i < |sys.log| && sys.log[i].PublishReturned? ==>
      Earlier(sys.log, i, Handled(consumer, sys.log[i].event))
  }

  ghost predicate DedupInv(sys: Sys, consumer: string) {
    AckInv(sys) && ConsumeInv(sys) && ConsumerOf(sys, consumer) && ReturnedAfterHandled(sys, consumer)
  }

  lemma MoveKeepsConsumer(sys: Sys, move: Move, consumer: string)
    requires Enabled(sys, move) && ConsumesAs(move, consumer) && ConsumerOf(sys, consumer)
    ensures ConsumerOf(Apply(sys, move), consumer)
  {
    hide Apply, Enabled, ClaimOf, ConsumesAs;
    forall t | t in Apply(sys, move).claims
      ensures ClaimOf(Apply(sys, move), consumer, t)
    {
      assert t in sys.claims ==> ClaimOf(sys, consumer, t);
      ClaimKeepsConsumer(sys, move, consumer, Apply(sys, move), t);
    }
  }

  lemma ClaimKeepsConsumer(sys: Sys, move: Move, consumer: string, after: Sys, t: nat)
    requires Enabled(sys, move) && ConsumesAs(move, consumer) && after == Apply(sys, move) && t in after.claims
    requires t in sys.claims ==> ClaimOf(sys, consumer, t)
    ensures ClaimOf(after, consumer, t)
  {
    hide LockRow, AcknowledgeRow, FailRow, ResetRow, Available, IsBlank, Unpublished;
  }

  lemma MoveKeepsReturnedAfterHandled(sys: Sys, move: Move, consumer: string)
    requires Enabled(sys, move) && HandledIsConsumed(sys) && ConsumerOf(sys, consumer)
    requires ReturnedAfterHandled(sys, consumer)
    ensures ReturnedAfterHandled(Apply(sys, move), consumer)
  {
    hide Apply, Earlier;
    LogAfter(sys, move);
    var log := sys.log + Added(sys, move);
    forall i | 0 <= i < |log| && log[i].PublishReturned?
      ensures Earlier(log, i, Handled(consumer, log[i].event))
    {
      EarlierStays(sys.log, Added(sys, move), i, Handled(consumer, log[i].event));
    }
  }

  lemma {:induction false} RunKeepsConsumed(sys: Sys, moves: seq<Move>)
    requires ConsumeInv(sys) && Schedule(sys, moves)
    ensures ConsumeInv(After(sys, moves))
    decreases |moves|
  {
    hide Enabled, Apply, HandledIsConsumed, HandledOnce, MarkersHeld, HandlersHold;
    if moves != [] {
      MoveKeepsHandled(sys, moves[0]);
      MoveKeepsMarkers(sys, moves[0]);
      RunKeepsConsumed(Apply(sys, moves[0]), moves[1..]);
    }
  }

  lemma {:induction false} RunKeepsDedup(sys: Sys, moves: seq<Move>, consumer: string)
    requires DedupInv(sys, consumer) && Schedule(sys, moves) && OnlyConsumer(moves, consumer)
    ensures DedupInv(After(sys, moves), consumer)
    decreases |moves|
  {
    hide Enabled, Apply, HandledIsConsumed, HandledOnce, MarkersHeld, HandlersHold, AckInv, ConsumerOf,
      ReturnedAfterHandled, ConsumesAs;
    if moves != [] {
      MoveKeepsAck(sys, moves[0]);
      MoveKeepsHandled(sys, moves[0]);
      MoveKeepsMarkers(sys, moves[0]);
      MoveKeepsConsumer(sys, moves[0], consumer);
      MoveKeepsReturnedAfterHandled(sys, moves[0], consumer);
      RunKeepsDedup(Apply(sys, moves[0]), moves[1..], consumer);
    }
  }

  /** In every run, whatever publishers do, a consumer's handler commits at most once per event. */
  lemma HandlersCommitOnce(moves: seq<Move>)
    requires Schedule(INITIAL, moves)
    ensures HandledOnce(After(INITIAL, moves)) && HandledIsConsumed(After(INITIAL, moves))
  {
    RunKeepsConsumed(INITIAL, moves);
  }

  /** The end to end guarantee: when the publish callback is `consume_once`, every published event has
      exactly one committed handler run, and it came before the acknowledgement. */
  lemma PublishedMeansHandledOnce(moves: seq<Move>, consumer: string, id: string)
    requires Schedule(INITIAL, moves) && OnlyConsumer(moves, consumer)
    requires id in After(INITIAL, moves).rows && After(INITIAL, moves).rows[id].publishedAt.Some?
    ensures exists h, a :: HandledThenAcked(After(INITIAL, moves).log, consumer, id, h, a)
  {
    hide After, DedupInv;
    InitialDedup(consumer);
    RunKeepsDedup(INITIAL, moves, consumer);
    HandledAndAcked(After(INITIAL, moves), consumer, id);
  }

  lemma InitialDedup(consumer: string)
    ensures DedupInv(INITIAL, consumer)
  {
  }

  lemma HandledAndAcked(sys: Sys, consumer: string, id: string)
    requires DedupInv(sys, consumer) && id in sys.rows && sys.rows[id].publishedAt.Some?
    ensures exists h, a :: HandledThenAcked(sys.log, consumer, id, h, a)
  {
    hide ConsumerOf, MarkersHeld, HandlersHold, ReturnedIsLogged, HandledIsConsumed, HandledOnce, AckedOnce;
    hide HandledThenAcked;
    assert AckedAtAll(sys.log, id);
    hide PublishedIsAcked;
    var a :| 0 <= a < |sys.log| && sys.log[a].AckedTrue? && sys.log[a].event == id;
    assert Earlier(sys.log, a, PublishReturned(sys.log[a].token, id));
    var r :| 0 <= r < a && sys.log[r] == PublishReturned(sys.log[a].token, id);
    assert Earlier(sys.log, r, Handled(consumer, id));
    var h :| 0 <= h < r && sys.log[h] == Handled(consumer, id);
    OnlyThere(sys, consumer, id, h, a);
  }

  lemma OnlyThere(sys: Sys, consumer: string, id: string, h: nat, a: nat)
    requires HandledOnce(sys) && AckedOnce(sys) && h < a < |sys.log|
    requires sys.log[h] == Handled(consumer, id) && sys.log[a].AckedTrue? && sys.log[a].event == id
    ensures HandledThenAcked(sys.log, consumer, id, h, a)
  {
  }

  /** The handler of the event committed at `h` and nowhere else; the event was acknowledged at `a`,
      later, and nowhere else. */
  predicate HandledThenAcked(log: seq<Fact>, consumer: string, id: string, h: nat, a: nat) {
    && h < a < |log|
    && (forall i :: 0 <= i < |log| ==> (log[i] == Handled(consumer, id) <==> i == h))
    && (forall i :: 0 <= i < |log| ==> (log[i].AckedTrue? && log[i].event == id <==> i == a))
  }

  // ----- what discipline is worth, and recovery ----------------------------------------

  predicate IsTouch(move: Move) {
    move.Acknowledge? || move.RecordFailure?
  }

  ghost predicate NoOtherLive(sys: Sys, move: Move)
    requires IsTouch(move) && move.token in sys.claims
  {
    forall u :: Live(sys, u) && u != move.token ==> sys.claims[u].event != sys.claims[move.token].event
  }

  /** The touch takes no lock away: it publishes, or finds nothing to update, or no other claim is live. */
  ghost predicate TakesNoLock(sys: Sys, move: Move)
    requires IsTouch(move) && move.token in sys.claims
  {
    move.Acknowledge? || !Unpublished(sys, sys.claims[move.token].event) || NoOtherLive(sys, move)
  }

  /** Its attempt fits under the ceiling, counted by a lock or by the attempts made. */
  predicate AttemptFits(sys: Sys, move: Move, maxAttempts: int)
    requires IsTouch(move) && move.token in sys.claims
  {
    var id := sys.claims[move.token].event;
    Unpublished(sys, id) ==> sys.rows[id].lockedAt.Some? || sys.rows[id].attempts < maxAttempts
  }

  /** A touch that does not have to be made under a live lease. */
  ghost predicate Harmless(sys: Sys, move: Move, maxAttempts: int)
    requires Enabled(sys, move)
  {
    IsTouch(move) ==> TakesNoLock(sys, move) && AttemptFits(sys, move, maxAttempts)
  }

  /** A touch keeps the lock of every live claim on an unpublished event exactly when it takes none:
      only a failure record, of an event another live claim holds, goes wrong. */
  lemma TouchIsSafeExactly(sys: Sys, move: Move)
    requires LockIsLive(sys) && Enabled(sys, move) && IsTouch(move)
    ensures LockIsLive(Apply(sys, move)) <==> TakesNoLock(sys, move)
  {
    var after := Apply(sys, move);
    var id := sys.claims[move.token].event;
    forall u
      ensures Live(after, u) <==> Live(sys, u) && u != move.token
      ensures Live(after, u) ==> after.claims[u] == sys.claims[u]
      ensures Live(after, u) ==> (
        LockedBy(after, u) <==> sys.claims[u].event != id || move.Acknowledge? || !Unpublished(sys, id))
    {
      assert Live(sys, u) ==> LockedBy(sys, u);
    }
  }

  /** It keeps the ceiling exactly when the row is gone, published or locked, or has attempts left. */
  lemma TouchFitsExactly(sys: Sys, move: Move, maxAttempts: int)
    requires AllBounded(sys, maxAttempts) && Enabled(sys, move) && IsTouch(move)
    ensures AllBounded(Apply(sys, move), maxAttempts) <==> AttemptFits(sys, move, maxAttempts)
  {
    var id := sys.claims[move.token].event;
    if Unpublished(sys, id) {
      assert Bounded(sys.rows[id], maxAttempts);
      assert Bounded(Apply(sys, move).rows[id], maxAttempts) <==> AttemptFits(sys, move, maxAttempts);
    }
  }

  /** One move under the common lease and ceiling keeps the lease invariant exactly when it is harmless. */
  lemma MoveSafeExactly(sys: Sys, move: Move, maxAttempts: int, lease: int)
    requires maxAttempts > 0 && LeaseInv(sys, maxAttempts, lease) && Enabled(sys, move)
    requires move.ClaimEvent? ==> move.maxAttempts == maxAttempts && move.lease == lease
    ensures LeaseInv(Apply(sys, move), maxAttempts, lease) <==> Harmless(sys, move, maxAttempts)
  {
    hide Enabled, Apply, LockIsLive, NoTwoLive, AllBounded, OneLease, TakesNoLock, AttemptFits, Live;
    if IsTouch(move) {
      TouchIsSafeExactly(sys, move);
      TouchFitsExactly(sys, move, maxAttempts);
      TouchAddsNoClaim(sys, move, lease);
    } else {
      hide LeaseInv;
      MoveKeepsLease(sys, move, maxAttempts, lease);
    }
  }

  lemma TouchAddsNoClaim(sys: Sys, move: Move, lease: int)
    requires NoTwoLive(sys) && OneLease(sys, lease) && Enabled(sys, move) && IsTouch(move)
    ensures NoTwoLive(Apply(sys, move)) && OneLease(Apply(sys, move), lease)
  {
    hide AcknowledgeRow, FailRow, Unpublished;
  }

  // ----- exactly which touches endanger the two guarantees -----------------------------

  /** However workers that keep the discipline go on, no event has two live claims and no event's
      attempts exceed the ceiling. */
  ghost predicate StaysSafe(sys: Sys, maxAttempts: int, lease: int) {
    forall moves :: Schedule(sys, moves) && DisciplinedRun(sys, moves, maxAttempts, lease) ==>
      NoTwoLive(After(sys, moves)) && AllBounded(After(sys, moves), maxAttempts)
  }

  lemma InvStaysSafe(sys: Sys, maxAttempts: int, lease: int)
    requires maxAttempts > 0 && LeaseInv(sys, maxAttempts, lease)
    ensures StaysSafe(sys, maxAttempts, lease)
  {
    hide LeaseInv, Schedule, After, DisciplinedRun;
    forall moves | Schedule(sys, moves) && DisciplinedRun(sys, moves, maxAttempts, lease)
      ensures NoTwoLive(After(sys, moves)) && AllBounded(After(sys, moves), maxAttempts)
    {
      RunKeepsLease(sys, moves, maxAttempts, lease);
      InvMeans(After(sys, moves), maxAttempts, lease);
    }
  }

  lemma InvMeans(sys: Sys, maxAttempts: int, lease: int)
    requires LeaseInv(sys, maxAttempts, lease)
    ensures NoTwoLive(sys) && AllBounded(sys, maxAttempts)
  {
  }

  lemma SafeNow(sys: Sys, maxAttempts: int, lease: int)
    ensures StaysSafe(sys, maxAttempts, lease) ==> NoTwoLive(sys) && AllBounded(sys, maxAttempts)
  {
    hide NoTwoLive, AllBounded;
    assert Schedule(sys, []) && DisciplinedRun(sys, [], maxAttempts, lease) && After(sys, []) == sys;
  }

  lemma SafeNext(sys: Sys, move: Move, maxAttempts: int, lease: int)
    requires Enabled(sys, move) && Disciplined(sys, move, maxAttempts, lease)
    ensures StaysSafe(sys, maxAttempts, lease) ==> StaysSafe(Apply(sys, move), maxAttempts, lease)
  {
    hide Enabled, Apply, Disciplined, NoTwoLive, AllBounded;
    if StaysSafe(sys, maxAttempts, lease) {
      var next := Apply(sys, move);
      forall moves | Schedule(next, moves) && DisciplinedRun(next, moves, maxAttempts, lease)
        ensures NoTwoLive(After(next, moves)) && AllBounded(After(next, moves), maxAttempts)
      {
        var longer := [move] + moves;
        assert longer[0] == move && longer[1..] == moves;
        assert Schedule(sys, longer) && DisciplinedRun(sys, longer, maxAttempts, lease);
        assert After(sys, longer) == After(next, moves);
      }
    }
  }

  lemma {:induction false} FreshToken(used: set<nat>) returns (t: nat)
    ensures forall u :: u in used ==> u < t
  {
    t := 0;
    if used != {} {
      var u :| u in used;
      var above := FreshToken(used - {u});
      t := if above > u then above else u + 1;
      assert forall v :: v in used ==> v == u || v in used - {u};
    }
  }

  /** A live claim whose unpublished row is not locked any more. */
  predicate LostLock(sys: Sys, u: nat) {
    && Live(sys, u) && Unpublished(sys, sys.claims[u].event)
    && sys.rows[sys.claims[u].event].lockedAt.None?
  }

  /** If the event has attempts left, somebody else can claim it now. */
  lemma LostLockIsClaimed(sys: Sys, u: nat, maxAttempts: int, lease: int)
    requires LostLock(sys, u) && maxAttempts > 0 && lease > 0
    requires sys.rows[sys.claims[u].event].attempts < maxAttempts
    ensures !StaysSafe(sys, maxAttempts, lease)
  {
    hide StaysSafe;
    var t := FreshToken(sys.claims.Keys);
    var move := ClaimEvent(t, sys.claims[u].event, sys.clock, maxAttempts, lease);
    var after := Apply(sys, move);
    assert Live(after, t) && Live(after, u) && after.claims[t].event == after.claims[u].event;
    SafeNext(sys, move, maxAttempts, lease);
    SafeNow(after, maxAttempts, lease);
  }

  /** How many moves a claim is from its record. */
  function ToRecord(stage: Stage): nat {
    match stage
    case Holding => 3
    case Handling(_) => 2
    case Delivered => 2
    case _ => 1
  }

  /** If it has none left, the holder's own record, made in time, is one too many. */
  lemma {:induction false} LostLockOverruns(sys: Sys, u: nat, maxAttempts: int, lease: int)
    requires LostLock(sys, u) && sys.rows[sys.claims[u].event].attempts >= maxAttempts
    ensures !StaysSafe(sys, maxAttempts, lease)
    decreases ToRecord(sys.claims[u].stage)
  {
    hide StaysSafe;
    var move := match sys.claims[u].stage
      case Holding => Publish(u, None)
      case Handling(_) => ConsumeEnd(u, Some(""))
      case Delivered => Return(u)
      case Returned => Acknowledge(u, 0)
      case _ => RecordFailure(u);
    var after := Apply(sys, move);
    SafeNext(sys, move, maxAttempts, lease);
    if IsTouch(move) {
      assert !Bounded(after.rows[sys.claims[u].event], maxAttempts);
      SafeNow(after, maxAttempts, lease);
    } else {
      LostLockOverruns(after, u, maxAttempts, lease);
    }
  }

  /** A touch that is not harmless endangers the guarantees themselves: a disciplined continuation
      breaks one of them. */
  lemma HarmfulEndangers(sys: Sys, move: Move, maxAttempts: int, lease: int)
    requires maxAttempts > 0 && lease > 0 && LeaseInv(sys, maxAttempts, lease)
    requires Enabled(sys, move) && !Harmless(sys, move, maxAttempts)
    ensures !StaysSafe(Apply(sys, move), maxAttempts, lease)
  {
    hide StaysSafe, LockIsLive, NoTwoLive, AllBounded, OneLease;
    var after := Apply(sys, move);
    if !AttemptFits(sys, move, maxAttempts) {
      TouchFitsExactly(sys, move, maxAttempts);
      SafeNow(after, maxAttempts, lease);
    } else {
      var u :| Live(sys, u) && u != move.token && sys.claims[u].event == sys.claims[move.token].event;
      assert LostLock(after, u);
      if after.rows[after.claims[u].event].attempts < maxAttempts {
        LostLockIsClaimed(after, u, maxAttempts, lease);
      } else {
        LostLockOverruns(after, u, maxAttempts, lease);
      }
    }
  }

  /** Claims under one lease and one ceiling; nothing is asked of acknowledgements and failure records. */
  predicate Uniform(moves: seq<Move>, maxAttempts: int, lease: int) {
    forall i :: 0 <= i < |moves| && moves[i].ClaimEvent? ==>
      moves[i].maxAttempts == maxAttempts && moves[i].lease == lease
  }

  ghost predicate AllHarmless(sys: Sys, moves: seq<Move>, maxAttempts: int)
    requires Schedule(sys, moves)
    decreases |moves|
  {
    moves == [] || (
      && Harmless(sys, moves[0], maxAttempts)
      && AllHarmless(Apply(sys, moves[0]), moves[1..], maxAttempts))
  }

  /** The guarantees hold in every state of the run and stay safe from each of them. */
  ghost predicate AlwaysSafe(sys: Sys, moves: seq<Move>, maxAttempts: int, lease: int)
    requires Schedule(sys, moves)
    decreases |moves|
  {
    && StaysSafe(sys, maxAttempts, lease)
    && (moves != [] ==> AlwaysSafe(Apply(sys, moves[0]), moves[1..], maxAttempts, lease))
  }

  lemma {:induction false} SafeExactlyFrom(sys: Sys, moves: seq<Move>, maxAttempts: int, lease: int)
    requires maxAttempts > 0 && lease > 0 && LeaseInv(sys, maxAttempts, lease)
    requires Schedule(sys, moves) && Uniform(moves, maxAttempts, lease)
    ensures AlwaysSafe(sys, moves, maxAttempts, lease) <==> AllHarmless(sys, moves, maxAttempts)
    decreases |moves|
  {
    hide LeaseInv, Enabled, Apply, Harmless, StaysSafe;
    InvStaysSafe(sys, maxAttempts, lease);
    if moves != [] {
      MoveSafeExactly(sys, moves[0], maxAttempts, lease);
      if Harmless(sys, moves[0], maxAttempts) {
        SafeExactlyFrom(Apply(sys, moves[0]), moves[1..], maxAttempts, lease);
      } else {
        HarmfulEndangers(sys, moves[0], maxAttempts, lease);
        NotSafe(Apply(sys, moves[0]), moves[1..], maxAttempts, lease);
      }
    }
  }

  lemma NotSafe(sys: Sys, moves: seq<Move>, maxAttempts: int, lease: int)
    requires Schedule(sys, moves) && !StaysSafe(sys, maxAttempts, lease)
    ensures !AlwaysSafe(sys, moves, maxAttempts, lease)
  {
    hide StaysSafe, Enabled, Apply;
  }

  /** The discipline that is just enough: from the start, a run with one lease and one ceiling keeps
      live claims unique and attempts bounded for good if and only if every touch in it is harmless. */
  lemma SafeExactlyWhenHarmless(moves: seq<Move>, maxAttempts: int, lease: int)
    requires maxAttempts > 0 && lease > 0
    requires Schedule(INITIAL, moves) && Uniform(moves, maxAttempts, lease)
    ensures AlwaysSafe(INITIAL, moves, maxAttempts, lease) <==> AllHarmless(INITIAL, moves, maxAttempts)
  {
    hide AlwaysSafe, AllHarmless, Schedule, Uniform;
    SafeExactlyFrom(INITIAL, moves, maxAttempts, lease);
  }

  /** A run goes on with any enabled move. */
  lemma {:induction false} RunExtends(sys: Sys, moves: seq<Move>, move: Move)
    requires Schedule(sys, moves) && Enabled(After(sys, moves), move)
    ensures Schedule(sys, moves + [move]) && After(sys, moves + [move]) == Apply(After(sys, moves), move)
    decreases |moves|
  {
    hide Enabled, Apply;
    var longer := moves + [move];
    if moves == [] {
      assert longer[1..] == [];
    } else {
      assert longer[0] == moves[0] && longer[1..] == moves[1..] + [move];
      RunExtends(Apply(sys, moves[0]), moves[1..], move);
    }
  }

  lemma Go(start: Sys, moves: seq<Move>, sys: Sys, move: Move) returns (longer: seq<Move>, after: Sys)
    requires Schedule(start, moves) && After(start, moves) == sys && Enabled(sys, move)
    ensures Schedule(start, longer) && After(start, longer) == after && after == Apply(sys, move)
    ensures longer == moves + [move]
  {
    hide Enabled, Apply;
    RunExtends(start, moves, move);
    longer, after := moves + [move], Apply(sys, move);
  }

  /** A worker that comes late, as the service lets it: its failure record clears the lock of the
      worker that holds the event now, and a third one claims the event as well. */
  lemma LateWorkerBreaksLease(body: Body) returns (moves: seq<Move>)
    ensures Schedule(INITIAL, moves) && !NoTwoLive(After(INITIAL, moves))
  {
    hide Schedule, After;
    moves := [];
    var sys := INITIAL;
    RunStarts(sys);
    moves, sys := Go(INITIAL, moves, sys, Insert("e", body));
    moves, sys := Go(INITIAL, moves, sys, ClaimEvent(0, "e", 0, 5, 1));
    moves, sys := Go(INITIAL, moves, sys, Publish(0, Some("timeout")));
    moves, sys := Go(INITIAL, moves, sys, Tick(SECOND + 1));
    moves, sys := Go(INITIAL, moves, sys, ClaimEvent(1, "e", SECOND + 1, 5, 1));
    moves, sys := Go(INITIAL, moves, sys, RecordFailure(0));
    moves, sys := Go(INITIAL, moves, sys, ClaimEvent(2, "e", SECOND + 1, 5, 1));
    assert Live(sys, 1) && Live(sys, 2);
  }

  /** Two workers whose leases on an event of one permitted attempt ran out before either reported. */
  lemma TwoLateWorkers(body: Body) returns (moves: seq<Move>, sys: Sys)
    ensures Schedule(INITIAL, moves) && After(INITIAL, moves) == sys && Uniform(moves, 1, 1)
    ensures LateAt(sys, 0) && LateAt(sys, 1) && forall u :: !Live(sys, u)
    ensures Unpublished(sys, "e") && sys.rows["e"].attempts == 0
  {
    hide Schedule, After, Uniform;
    moves, sys := [], INITIAL;
    RunStarts(sys);
    moves, sys := Go(INITIAL, moves, sys, Insert("e", body));
    moves, sys := Go(INITIAL, moves, sys, ClaimEvent(0, "e", 0, 1, 1));
    moves, sys := Go(INITIAL, moves, sys, Publish(0, Some("timeout")));
    moves, sys := Go(INITIAL, moves, sys, Tick(SECOND + 1));
    moves, sys := Go(INITIAL, moves, sys, ClaimEvent(1, "e", SECOND + 1, 1, 1));
    moves, sys := Go(INITIAL, moves, sys, Publish(1, Some("timeout")));
    moves, sys := Go(INITIAL, moves, sys, Tick(SECOND + 1));
    UniformSeven(moves);
  }

  lemma UniformSeven(moves: seq<Move>)
    requires forall m :: m in moves && m.ClaimEvent? ==> m.maxAttempts == 1 && m.lease == 1
    ensures Uniform(moves, 1, 1)
  {
  }

  /** A worker about to record a failure of event "e". */
  predicate LateAt(sys: Sys, token: nat) {
    AtStage(sys, token, Refused("timeout")) && sys.claims[token].event == "e"
  }

  /** Late workers also overrun the ceiling: no other claim is live at either failure record, and yet the
      event of one permitted attempt ends with two. */
  lemma LateWorkersExceedCeiling(body: Body) returns (moves: seq<Move>)
    ensures Schedule(INITIAL, moves) && Uniform(moves, 1, 1) && forall u :: !Live(After(INITIAL, moves), u)
    ensures Schedule(INITIAL, moves + [RecordFailure(0)] + [RecordFailure(1)])
    ensures !AllBounded(After(INITIAL, moves + [RecordFailure(0)] + [RecordFailure(1)]), 1)
  {
    hide Schedule, After, Live, Uniform;
    var late: Sys;
    moves, late := TwoLateWorkers(body);
    var first, one := Go(INITIAL, moves, late, RecordFailure(0));
    var both, two := Go(INITIAL, first, one, RecordFailure(1));
    assert !Bounded(two.rows["e"], 1);
  }

  lemma RunStarts(sys: Sys)
    ensures Schedule(sys, []) && After(sys, []) == sys
  {
  }

  /** Nothing is lost to a crash: from any state an unpublished event under the ceiling can still be
      claimed by a new worker, once its lease has run out, and published. */
  lemma CanStillBePublished(moves: seq<Move>, id: string, token: nat, maxAttempts: int, lease: int, time: int)
    returns (longer: seq<Move>)
    requires Schedule(INITIAL, moves) && Unpublished(After(INITIAL, moves), id)
    requires After(INITIAL, moves).rows[id].attempts < maxAttempts && lease > 0
    requires token !in After(INITIAL, moves).claims
    ensures moves <= longer && Schedule(INITIAL, longer)
    ensures id in After(INITIAL, longer).rows && After(INITIAL, longer).rows[id].publishedAt == Some(time)
  {
    hide Schedule, After;
    longer := moves;
    var sys := After(INITIAL, moves);
    var row := sys.rows[id];
    var expiry := if row.lockedAt.Some? then row.lockedAt.value + lease * SECOND + 1 else sys.clock;
    longer, sys := Go(INITIAL, longer, sys, Tick(if expiry > sys.clock then expiry - sys.clock else 0));
    longer, sys := Go(INITIAL, longer, sys, ClaimEvent(token, id, sys.clock, maxAttempts, lease));
    longer, sys := Go(INITIAL, longer, sys, Publish(token, None));
    longer, sys := Go(INITIAL, longer, sys, Return(token));
    longer, sys := Go(INITIAL, longer, sys, Acknowledge(token, time));
  }

  // ----- a publishing round is a run ---------------------------------------------------

  /** The claims a round makes, at one token per event. */
  predicate Holds(sys: Sys, ids: seq<string>, base: nat, from: nat, to: nat) {
    forall j :: from <= j < to && j < |ids| ==> HoldsAt(sys, ids, base, j)
  }

  predicate HoldsAt(sys: Sys, ids: seq<string>, base: nat, j: nat)
    requires j < |ids|
  {
    base + j in sys.claims && sys.claims[base + j].event == ids[j] && sys.claims[base + j].stage == Holding
  }

  predicate TokensBelow(sys: Sys, base: nat) {
    forall t :: t in sys.claims ==> t < base
  }

  /** What `publish_batch` does to the table is what a run of claims, publish calls and their records
      does: first all claims, then one attempt after another. */
  lemma RoundIsARun(
    start: Sys, ids: seq<string>, publish: Publisher, maxAttempts: int, lease: int, base: nat)
    returns (moves: seq<Move>)
    requires DistinctIds(ids) && AllIn(ids, start.rows) && TokensBelow(start, base) && maxAttempts > 0 && lease > 0
    requires forall i :: 0 <= i < |ids| ==> Available(start.rows[ids[i]], start.clock, maxAttempts, lease)
    ensures Schedule(start, moves)
    ensures RoundDone(start.rows, After(start, moves).rows, ids, publish)
  {
    hide Schedule, After;
    var now, before := start.clock, start.rows;
    moves := [];
    var sys := start;
    RunStarts(start);
    for i := 0 to |ids|
      invariant Schedule(start, moves) && After(start, moves) == sys && sys.clock == now
      invariant OnlyLocked(before, sys.rows, Members(ids[..i]), now)
      invariant Holds(sys, ids, base, 0, i) && TokensBelow(sys, base + i)
    {
      ClaimNext(sys, before, ids, i, base, maxAttempts, lease);
      moves, sys := Go(start, moves, sys, ClaimEvent(base + i, ids[i], now, maxAttempts, lease));
    }
    assert ids[..|ids|] == ids;
    ClaimedUnpublished(before, sys.rows, ids, now, maxAttempts, lease);
    for i := 0 to |ids|
      invariant Schedule(start, moves) && After(start, moves) == sys
      invariant RoundSoFar(before, sys.rows, ids, i, publish, now)
      invariant Holds(sys, ids, base, i, |ids|)
    {
      moves, sys := AttemptNext(start, moves, sys, before, ids, i, publish, now, base);
    }
    RoundEnds(before, sys.rows, ids, publish, now);
  }

  lemma ClaimNext(sys: Sys, before: map<string, Row>, ids: seq<string>, i: nat, base: nat, maxAttempts: int, lease: int)
    requires i < |ids| && DistinctIds(ids) && AllIn(ids, before) && maxAttempts > 0 && lease > 0
    requires OnlyLocked(before, sys.rows, Members(ids[..i]), sys.clock)
    requires Holds(sys, ids, base, 0, i) && TokensBelow(sys, base + i)
    requires Available(before[ids[i]], sys.clock, maxAttempts, lease)
    ensures var move := ClaimEvent(base + i, ids[i], sys.clock, maxAttempts, lease);
      && Enabled(sys, move)
      && OnlyLocked(before, Apply(sys, move).rows, Members(ids[..i + 1]), sys.clock)
      && Holds(Apply(sys, move), ids, base, 0, i + 1) && TokensBelow(Apply(sys, move), base + i + 1)
  {
    hide Available;
    assert ids[i] !in ids[..i];
    assert ids[..i + 1] == ids[..i] + [ids[i]];
    var after := Apply(sys, ClaimEvent(base + i, ids[i], sys.clock, maxAttempts, lease));
    forall j | 0 <= j < i + 1
      ensures HoldsAt(after, ids, base, j)
    {
      assert j < i ==> HoldsAt(sys, ids, base, j);
    }
  }

  lemma AttemptNext(
    start: Sys, moves: seq<Move>, sys: Sys, before: map<string, Row>, ids: seq<string>, i: nat,
    publish: Publisher, now: int, base: nat)
    returns (longer: seq<Move>, after: Sys)
    requires Schedule(start, moves) && After(start, moves) == sys && i < |ids|
    requires RoundSoFar(before, sys.rows, ids, i, publish, now) && Holds(sys, ids, base, i, |ids|)
    ensures Schedule(start, longer) && After(start, longer) == after
    ensures RoundSoFar(before, after.rows, ids, i + 1, publish, now) && Holds(after, ids, base, i + 1, |ids|)
  {
    hide Schedule, After, FailRow, AcknowledgeRow;
    assert HoldsAt(sys, ids, base, i) && ids[i] in before;
    hide RoundSoFar, Holds, Attempted;
    NextInRound(before, sys.rows, ids, i, publish, now);
    var report := publish(i, EventAt(before, ids[i]));
    longer, after := AttemptOne(start, moves, sys, base + i, report);
    HoldsRest(sys, after, ids, i, base);
  }

  lemma HoldsRest(sys: Sys, after: Sys, ids: seq<string>, i: nat, base: nat)
    requires Holds(sys, ids, base, i, |ids|)
    requires forall t :: t in sys.claims && t != base + i ==> t in after.claims && after.claims[t] == sys.claims[t]
    ensures Holds(after, ids, base, i + 1, |ids|)
  {
    forall j | i + 1 <= j < |ids|
      ensures HoldsAt(after, ids, base, j)
    {
      assert HoldsAt(sys, ids, base, j);
    }
  }

  /** One claimed event: the publish call, and the record of how it went. */
  lemma AttemptOne(start: Sys, moves: seq<Move>, sys: Sys, token: nat, report: Report)
    returns (longer: seq<Move>, after: Sys)
    requires Schedule(start, moves) && After(start, moves) == sys && AtStage(sys, token, Holding)
    requires Unpublished(sys, sys.claims[token].event)
    ensures Schedule(start, longer) && After(start, longer) == after
    ensures var id := sys.claims[token].event; after.rows == sys.rows[id := Attempted(sys.rows[id], report)]
    ensures forall t :: t in sys.claims && t != token ==> t in after.claims && after.claims[t] == sys.claims[t]
  {
    hide Schedule, After, FailRow, AcknowledgeRow;
    longer, after := Go(start, moves, sys, Publish(token, report.failure));
    if report.failure.Some? {
      longer, after := Go(start, longer, after, RecordFailure(token));
    } else {
      longer, after := Go(start, longer, after, Return(token));
      longer, after := Go(start, longer, after, Acknowledge(token, report.time));
    }
  }
}
