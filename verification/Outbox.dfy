// The transactional outbox of one database connection (app/outbox.py) and the operator's replay
// reset (app/reconciliation.py:178-197). What concurrent workers do is in module Delivery.
module Outbox {
  import opened Results
  import opened Strings

  /** Timestamps count microseconds; leases count seconds. */
  const SECOND := 1_000_000

  datatype Body = Body(aggregateType: string, aggregateId: string, eventType: string, payload: string)

  datatype Row = Row(
    body: Body, createdAt: int, publishedAt: Option<int>, attempts: nat, lastError: Option<string>,
    lockedAt: Option<int>)

  /** An event as a publisher sees it. */
  datatype OutboxEvent = OutboxEvent(id: string, body: Body, attempts: nat)

  datatype OutboxError =
    | BadBatchSize
    | BadMaxAttempts
    | BadLease
    | BlankEventId
    | BlankConsumer
    | HandlerFailed(text: string)

  // ----- what each statement does to a row ---------------------------------------------

  /** The claim query's condition on a row. */
  predicate Available(row: Row, now: int, maxAttempts: int, lease: int) {
    && row.publishedAt.None?
    && row.attempts < maxAttempts
    && (row.lockedAt.Some? ==> row.lockedAt.value < now - lease * SECOND)
  }

  /** A row is available when it is unpublished, has attempts left, and was never locked or was locked
      more than the lease, in microseconds, ago. */
  lemma AvailableExactly(row: Row, now: int, maxAttempts: int, lease: int)
    ensures Available(row, now, maxAttempts, lease) <==>
      && row.publishedAt == None && row.attempts + 1 <= maxAttempts
      && (row.lockedAt == None || now - row.lockedAt.value > 1_000_000 * lease)
  {
  }

  function LockRow(row: Row, now: int): Row {
    row.(lockedAt := Some(now))
  }

  function AcknowledgeRow(row: Row, time: int): Row {
    row.(publishedAt := Some(time), attempts := row.attempts + 1, lastError := None, lockedAt := None)
  }

  function FailRow(row: Row, text: string): Row {
    row.(attempts := row.attempts + 1, lastError := Some(Clipped(text)), lockedAt := None)
  }

  function ResetRow(row: Row): Row {
    row.(attempts := 0, lastError := None)
  }

  /** `error[:1000]`. */
  function Clipped(text: string): string {
    if |text| <= 1000 then text else text[..1000]
  }

  /** What each statement leaves of a row: its body and age always; its publication unless it publishes. */
  lemma StatementsExactly(row: Row, time: int, text: string)
    ensures AcknowledgeRow(row, time) == Row(row.body, row.createdAt, Some(time), row.attempts + 1, None, None)
    ensures ResetRow(row) == Row(row.body, row.createdAt, row.publishedAt, 0, None, row.lockedAt)
    ensures LockRow(row, time) == Row(row.body, row.createdAt, row.publishedAt, row.attempts, row.lastError, Some(time))
    ensures FailRow(row, text) ==
      Row(row.body, row.createdAt, row.publishedAt, row.attempts + 1,
          Some(if |text| > 1000 then text[..1000] else text), None)
  {
  }

  function EventAt(rows: map<string, Row>, id: string): OutboxEvent
    requires id in rows
  {
    OutboxEvent(id, rows[id].body, rows[id].attempts)
  }

  // ----- claiming ----------------------------------------------------------------------

  function AvailableIds(rows: map<string, Row>, now: int, maxAttempts: int, lease: int): (s: set<string>)
    ensures s <= rows.Keys
  {
    set id | id in rows && Available(rows[id], now, maxAttempts, lease)
  }

  predicate DistinctIds(ids: seq<string>) {
    forall i, j :: 0 <= i < j < |ids| ==> ids[i] != ids[j]
  }

  predicate AllIn(ids: seq<string>, rows: map<string, Row>) {
    forall i :: 0 <= i < |ids| ==> ids[i] in rows
  }

  /** No element of `later` was created before a chosen one, and the chosen are in creation order. */
  predicate OldestFirst(rows: map<string, Row>, chosen: seq<string>, later: set<string>)
    requires AllIn(chosen, rows) && later <= rows.Keys
  {
    && (forall i, j :: 0 <= i < j < |chosen| ==> rows[chosen[i]].createdAt <= rows[chosen[j]].createdAt)
    && (forall i, id :: 0 <= i < |chosen| && id in later ==> rows[chosen[i]].createdAt <= rows[id].createdAt)
  }

  /** What a claim may return: `limit` of the available events, or all when there are fewer, none
      twice, oldest first, and none passed over for a younger one. */
  predicate Selection(rows: map<string, Row>, available: set<string>, limit: nat, chosen: seq<string>)
    requires available <= rows.Keys
  {
    && DistinctIds(chosen)
    && (forall i :: 0 <= i < |chosen| ==> chosen[i] in available)
    && |chosen| == (if |available| < limit then |available| else limit)
    && OldestFirst(rows, chosen, available - Members(chosen))
  }

  function Members(ids: seq<string>): set<string> {
    set id | id in ids
  }

  /** The table in which the rows of `ids` are locked and the others are as before. */
  predicate OnlyLocked(before: map<string, Row>, after: map<string, Row>, ids: set<string>, now: int) {
    && after.Keys == before.Keys
    && forall id :: id in before ==> after[id] == if id in ids then LockRow(before[id], now) else before[id]
  }

  // ----- one publishing round ----------------------------------------------------------

  /** How one call of the publish callback went, and the clock when its acknowledgement is written. */
  datatype Report = Report(failure: Option<string>, time: int)

  /** The calls of one round, in order; two calls may answer differently even for equal events. */
  type Publisher = (nat, OutboxEvent) -> Report

  /** A delivery attempt of a claimed row: acknowledged when the callback returned, else failed. */
  function Attempted(row: Row, report: Report): Row {
    if report.failure.None? then AcknowledgeRow(row, report.time) else FailRow(row, report.failure.value)
  }

  /** The table after a round over `ids`: every claimed row had one attempt, the others none. */
  predicate RoundDone(before: map<string, Row>, after: map<string, Row>, ids: seq<string>, publish: Publisher)
    requires AllIn(ids, before)
  {
    && after.Keys == before.Keys
    && (forall i :: 0 <= i < |ids| ==>
          after[ids[i]] == Attempted(before[ids[i]], publish(i, EventAt(before, ids[i]))))
    && (forall id :: id in before && id !in ids ==> after[id] == before[id])
  }

  /** How many of the claimed events the callback accepted. */
  function Accepted(before: map<string, Row>, ids: seq<string>, publish: Publisher): nat
    requires AllIn(ids, before)
  {
    if ids == [] then 0
    else
      var last := |ids| - 1;
      Accepted(before, ids[..last], publish)
      + if publish(last, EventAt(before, ids[last])).failure.None? then 1 else 0
  }

  class PostgresOutbox {
    var rows: map<string, Row>
    var consumed: set<(string, string)>

    constructor ()
      ensures rows == map[] && consumed == {}
    {
      rows := map[];
      consumed := {};
    }

    /** `claim_batch`. */
    method ClaimBatch(batchSize: int, maxAttempts: int, lease: int, now: int)
      returns (r: Result<seq<OutboxEvent>, OutboxError>)
      modifies this
      ensures consumed == old(consumed)
      ensures batchSize <= 0 ==> r == Err(BadBatchSize)
      ensures batchSize > 0 && maxAttempts <= 0 ==> r == Err(BadMaxAttempts)
      ensures batchSize > 0 && maxAttempts > 0 && lease <= 0 ==> r == Err(BadLease)
      ensures r.Ok? <==> batchSize > 0 && maxAttempts > 0 && lease > 0
      ensures r.Err? ==> rows == old(rows)
      ensures r.Ok? ==>
        var ids := IdsOf(r.value);
        && Selection(old(rows), AvailableIds(old(rows), now, maxAttempts, lease), batchSize, ids)
        && (forall i :: 0 <= i < |r.value| ==>
              r.value[i] == OutboxEvent(ids[i], old(rows)[ids[i]].body, old(rows)[ids[i]].attempts))
        && OnlyLocked(old(rows), rows, Members(ids), now)
        && (forall id :: id in ids ==> id in rows && rows[id] == old(rows)[id].(lockedAt := Some(now)))
    {
      if batchSize <= 0 {
        return Err(BadBatchSize);
      }
      if maxAttempts <= 0 {
        return Err(BadMaxAttempts);
      }
      if lease <= 0 {
        return Err(BadLease);
      }
      hide Available, Selection, LockRow;
      var table := rows;
      var available := AvailableIds(table, now, maxAttempts, lease);
      var chosen := Select(table, available, batchSize);
      SelectionIsIn(table, available, batchSize, chosen);
      var events := seq(|chosen|, i requires 0 <= i < |chosen| => EventAt(table, chosen[i]));
      rows := map id | id in table :: if id in Members(chosen) then LockRow(table[id], now) else table[id];
      assert IdsOf(events) == chosen;
      r := Ok(events);
    }

    /** `acknowledge`: True exactly when this call is the one that published the event. */
    method Acknowledge(id: string, time: int) returns (first: bool)
      modifies this
      ensures consumed == old(consumed)
      ensures first <==> id in old(rows) && old(rows)[id].publishedAt.None?
      ensures rows == if first then old(rows)[id := AcknowledgeRow(old(rows)[id], time)] else old(rows)
      ensures first ==>
        && rows[id].publishedAt == Some(time) && rows[id].attempts == old(rows)[id].attempts + 1
        && rows[id].lastError.None? && rows[id].lockedAt.None?
    {
      first := id in rows && rows[id].publishedAt.None?;
      if first {
        rows := rows[id := AcknowledgeRow(rows[id], time)];
      }
    }

    /** `record_failure`. */
    method RecordFailure(id: string, text: string) returns (recorded: bool)
      modifies this
      ensures consumed == old(consumed)
      ensures recorded <==> id in old(rows) && old(rows)[id].publishedAt.None?
      ensures rows == if recorded then old(rows)[id := FailRow(old(rows)[id], text)] else old(rows)
      ensures recorded ==>
        && rows[id].publishedAt.None? && rows[id].attempts == old(rows)[id].attempts + 1
        && rows[id].lockedAt.None? && rows[id].lastError.Some? && rows[id].lastError.value <= text
        && (|rows[id].lastError.value| == 1000 || (|text| < 1000 && rows[id].lastError.value == text))
    {
      recorded := id in rows && rows[id].publishedAt.None?;
      if recorded {
        rows := rows[id := FailRow(rows[id], text)];
      }
    }

    /** What follows one call of the publish callback (app/outbox.py:145-152). */
    method RecordReport(id: string, report: Report) returns (first: bool)
      requires id in rows && rows[id].publishedAt.None?
      modifies this
      ensures consumed == old(consumed)
      ensures rows == old(rows)[id := Attempted(old(rows)[id], report)]
      ensures first <==> report.failure.None?
    {
      if report.failure.Some? {
        var _ := RecordFailure(id, report.failure.value);
        return false;
      }
      first := Acknowledge(id, report.time);
    }

    /** `publish_batch`: claim, then one call of the callback and one record per event. */
    method PublishBatch(
      publish: Publisher, batchSize: int, maxAttempts: int, lease: int, now: int)
      returns (r: Result<nat, OutboxError>, ghost ids: seq<string>)
      modifies this
      ensures consumed == old(consumed)
      ensures r.Ok? <==> batchSize > 0 && maxAttempts > 0 && lease > 0
      ensures r.Err? ==> rows == old(rows)
      ensures r.Ok? ==>
        && Selection(old(rows), AvailableIds(old(rows), now, maxAttempts, lease), batchSize, ids)
        && AllIn(ids, old(rows))
        && RoundDone(old(rows), rows, ids, publish)
        && (forall i :: 0 <= i < |ids| ==>
              var event := OutboxEvent(ids[i], old(rows)[ids[i]].body, old(rows)[ids[i]].attempts);
              rows[ids[i]] == Attempted(old(rows)[ids[i]], publish(i, event)))
        && r.value == Accepted(old(rows), ids, publish)
    {
      hide Available, Selection, LockRow, RoundSoFar, OnlyLocked, AvailableIds, Attempted, RoundDone;
      var claim := ClaimBatch(batchSize, maxAttempts, lease, now);
      ids := [];
      if claim.Err? {
        return Err(claim.error), [];
      }
      var events := claim.value;
      ghost var before := old(rows);
      ids := IdsOf(events);
      SelectionIsIn(before, AvailableIds(before, now, maxAttempts, lease), batchSize, ids);
      ClaimedUnpublished(before, rows, ids, now, maxAttempts, lease);
      var published := 0;
      for i := 0 to |events|
        invariant consumed == old(consumed)
        invariant RoundSoFar(before, rows, ids, i, publish, now)
        invariant published == Accepted(before, ids[..i], publish)
      {
        assert ids[..i + 1][..i] == ids[..i] && ids[..i + 1][i] == ids[i];
        NextInRound(before, rows, ids, i, publish, now);
        var first := RecordReport(events[i].id, publish(i, events[i]));
        if first {
          published := published + 1;
        }
      }
      assert ids[..|events|] == ids;
      RoundEnds(before, rows, ids, publish, now);
      RoundHands(before, rows, ids, publish);
      r := Ok(published);
    }

    /** `consume_once`: the marker and the handler's work commit together or not at all. */
    method ConsumeOnce(consumer: string, event: OutboxEvent, handler: OutboxEvent -> Option<string>)
      returns (r: Result<bool, OutboxError>)
      modifies this
      ensures rows == old(rows)
      ensures IsBlank(consumer) ==> r == Err(BlankConsumer)
      ensures !IsBlank(consumer) && (consumer, event.id) in old(consumed) ==> r == Ok(false)
      ensures !IsBlank(consumer) && (consumer, event.id) !in old(consumed) ==>
        r == if handler(event).None? then Ok(true) else Err(HandlerFailed(handler(event).value))
      ensures consumed == old(consumed) + if r == Ok(true) then {(consumer, event.id)} else {}
    {
      if IsBlank(consumer) {
        return Err(BlankConsumer);
      }
      if (consumer, event.id) in consumed {
        return Ok(false);
      }
      var marked := consumed + {(consumer, event.id)};
      var failure := handler(event);
      if failure.Some? {
        return Err(HandlerFailed(failure.value));
      }
      consumed := marked;
      r := Ok(true);
    }

    /** `reset_outbox_event`: the lock stays. */
    method ResetEvent(id: string) returns (r: Result<bool, OutboxError>)
      modifies this
      ensures consumed == old(consumed)
      ensures r == if IsBlank(id) then Err(BlankEventId) else Ok(id in old(rows) && old(rows)[id].publishedAt.None?)
      ensures rows == if r == Ok(true) then old(rows)[id := ResetRow(old(rows)[id])] else old(rows)
      ensures r == Ok(true) ==>
        && rows[id].attempts == 0 && rows[id].lastError.None? && rows[id].publishedAt.None?
        && rows[id].lockedAt == old(rows)[id].lockedAt
    {
      if IsBlank(id) {
        return Err(BlankEventId);
      }
      if id in rows && rows[id].publishedAt.None? {
        rows := rows[id := ResetRow(rows[id])];
        return Ok(true);
      }
      r := Ok(false);
    }
  }

  function IdsOf(events: seq<OutboxEvent>): seq<string> {
    seq(|events|, i requires 0 <= i < |events| => events[i].id)
  }

  /** `ORDER BY created_at ... LIMIT`. */
  method Select(rows: map<string, Row>, available: set<string>, limit: nat) returns (chosen: seq<string>)
    requires available <= rows.Keys
    ensures Selection(rows, available, limit, chosen)
  {
    hide DistinctIds, Members, OldestFirst;
    chosen := [];
    var left := available;
    NoneChosen(rows, available);
    while |chosen| < limit && left != {}
      invariant left <= available && |chosen| + |left| == |available| && |chosen| <= limit
      invariant DistinctIds(chosen) && left == available - Members(chosen)
      invariant forall i :: 0 <= i < |chosen| ==> chosen[i] in available
      invariant OldestFirst(rows, chosen, left)
      decreases |left|
    {
      var oldest := Oldest(rows, left);
      NextChosen(rows, chosen, left, oldest);
      chosen := chosen + [oldest];
      left := left - {oldest};
    }
  }

  lemma NoneChosen(rows: map<string, Row>, available: set<string>)
    requires available <= rows.Keys
    ensures DistinctIds([]) && Members([]) == {} && OldestFirst(rows, [], available)
  {
  }

  lemma NextChosen(rows: map<string, Row>, chosen: seq<string>, left: set<string>, oldest: string)
    requires left <= rows.Keys && AllIn(chosen, rows) && OldestFirst(rows, chosen, left)
    requires DistinctIds(chosen) && oldest in left && oldest !in Members(chosen)
    requires forall id :: id in left ==> rows[oldest].createdAt <= rows[id].createdAt
    ensures Members(chosen + [oldest]) == Members(chosen) + {oldest}
    ensures DistinctIds(chosen + [oldest]) && AllIn(chosen + [oldest], rows)
    ensures OldestFirst(rows, chosen + [oldest], left - {oldest})
  {
    var more := chosen + [oldest];
    forall i, j | 0 <= i < j < |more|
      ensures more[i] != more[j] && rows[more[i]].createdAt <= rows[more[j]].createdAt
    {
      assert more[i] == chosen[i] && chosen[i] in Members(chosen);
    }
  }

  method Oldest(rows: map<string, Row>, ids: set<string>) returns (oldest: string)
    requires ids != {} && ids <= rows.Keys
    ensures oldest in ids
    ensures forall id :: id in ids ==> rows[oldest].createdAt <= rows[id].createdAt
  {
    oldest :| oldest in ids;
    var left := ids;
    while left != {}
      invariant left <= ids && oldest in ids
      invariant forall id :: id in ids - left ==> rows[oldest].createdAt <= rows[id].createdAt
      decreases left
    {
      var id :| id in left;
      if rows[id].createdAt < rows[oldest].createdAt {
        oldest := id;
      }
      left := left - {id};
    }
  }

  // ----- the publishing loop -----------------------------------------------------------

  lemma SelectionIsIn(rows: map<string, Row>, available: set<string>, limit: nat, ids: seq<string>)
    requires available <= rows.Keys && Selection(rows, available, limit, ids)
    ensures AllIn(ids, rows) && DistinctIds(ids) && forall i :: 0 <= i < |ids| ==> ids[i] in available
  {
  }

  /** The table in the middle of a round: the first `n` rows had their attempt, the others wait locked. */
  predicate RoundSoFar(
    before: map<string, Row>, after: map<string, Row>, ids: seq<string>, n: nat,
    publish: Publisher, now: int)
  {
    && n <= |ids| && DistinctIds(ids) && AllIn(ids, before)
    && after.Keys == before.Keys
    && (forall i :: 0 <= i < n ==>
          after[ids[i]] == Attempted(before[ids[i]], publish(i, EventAt(before, ids[i]))))
    && (forall i :: n <= i < |ids| ==>
          after[ids[i]] == LockRow(before[ids[i]], now) && before[ids[i]].publishedAt.None?)
    && (forall id :: id in before && id !in Members(ids) ==> after[id] == before[id])
  }

  lemma ClaimedUnpublished(
    before: map<string, Row>, after: map<string, Row>, ids: seq<string>, now: int, maxAttempts: int, lease: int)
    requires AllIn(ids, before) && DistinctIds(ids) && OnlyLocked(before, after, Members(ids), now)
    requires forall i :: 0 <= i < |ids| ==> ids[i] in AvailableIds(before, now, maxAttempts, lease)
    ensures forall publish :: RoundSoFar(before, after, ids, 0, publish, now)
  {
    hide LockRow;
  }

  /** The callback is handed each claimed row's own id, body and attempts. */
  lemma RoundHands(before: map<string, Row>, after: map<string, Row>, ids: seq<string>, publish: Publisher)
    requires AllIn(ids, before) && RoundDone(before, after, ids, publish)
    ensures forall i :: 0 <= i < |ids| ==> ids[i] in after
    ensures forall i :: 0 <= i < |ids| ==>
      var event := OutboxEvent(ids[i], before[ids[i]].body, before[ids[i]].attempts);
      after[ids[i]] == Attempted(before[ids[i]], publish(i, event))
  {
    hide Attempted;
  }

  lemma NextInRound(
    before: map<string, Row>, after: map<string, Row>, ids: seq<string>, n: nat,
    publish: Publisher, now: int)
    requires RoundSoFar(before, after, ids, n, publish, now) && n < |ids|
    ensures ids[n] in after && after[ids[n]].publishedAt.None?
    ensures RoundSoFar(
      before, after[ids[n] := Attempted(after[ids[n]], publish(n, EventAt(before, ids[n])))],
      ids, n + 1, publish, now)
  {
  }

  lemma RoundEnds(
    before: map<string, Row>, after: map<string, Row>, ids: seq<string>,
    publish: Publisher, now: int)
    requires AllIn(ids, before) && RoundSoFar(before, after, ids, |ids|, publish, now)
    ensures RoundDone(before, after, ids, publish)
  {
    hide Attempted;
  }
}
