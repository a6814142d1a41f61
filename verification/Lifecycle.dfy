// What every run of the tracker (app/network_coordinator.py:37-90) keeps for each correlation key:
// the labels a key collects always spell one of the lifecycles below.
module Lifecycle {
  import opened Results
  import opened Bytes
  import opened Canonical
  import opened Iso8583
  import opened Iso8583Adapter
  import opened NetworkCoordinator
  import opened Grouping

  datatype Call =
    | Register(request: Message, now: real, timeout: real)
    | Cancel(request: Message)
    | Expire(now: real)
    | Respond(request: Message, response: Message, now: real)

  /** What a call meant for one key. */
  datatype Label =
    | Began(deadline: real)
    | Withdrawn
    | RanOut(at: real)
    | WasAccepted(at: real)
    | CameLate
    | CameAgain

  function Apply(t: Tracker, call: Call, comparable: bool): Tracker {
    match call
    case Register(request, now, timeout) => Registered(t, request, now, timeout)
    case Cancel(request) => Cancelled(t, request)
    case Expire(now) => Expired(t, now, comparable)
    case Respond(request, response, now) => Responded(t, request, response, now)
  }

  function ResponseLabels(answer: Disposition, now: real): seq<Label> {
    match answer
    case Accepted => [WasAccepted(now)]
    case TimedOut => [RanOut(now)]
    case Late => [CameLate]
    case Duplicate => [CameAgain]
    case Mismatched => []
  }

  /** The labels a call adds to a key: read off what the call answered. */
  function Labels(t: Tracker, call: Call, comparable: bool, key: NetworkCorrelation): (s: seq<Label>)
  {
    match call
    case Register(request, now, timeout) =>
      if RegisterAnswer(t, request, timeout) == Ok(key) then [Began(now + timeout)] else []
    case Cancel(request) =>
      if CancelAnswer(t, request) == Ok(true) && CorrelationKey(request) == Ok(key) then [Withdrawn] else []
    case Expire(now) => if key in ExpiredKeys(t, now, comparable) then [RanOut(now)] else []
    case Respond(request, response, now) =>
      var answer := ResponseAnswer(t, request, response, now);
      if answer.Ok? && CorrelationKey(response) == Ok(key) then ResponseLabels(answer.value, now) else []
  }

  function Run(t: Tracker, calls: seq<Call>, comparable: bool): Tracker
    decreases |calls|
  {
    if calls == [] then t else Run(Apply(t, calls[0], comparable), calls[1..], comparable)
  }

  /** All labels of a key in a run. */
  function Story(t: Tracker, calls: seq<Call>, comparable: bool, key: NetworkCorrelation): seq<Label>
    decreases |calls|
  {
    if calls == [] then []
    else Labels(t, calls[0], comparable, key) + Story(Apply(t, calls[0], comparable), calls[1..], comparable, key)
  }

  // ----- the lifecycles ----------------------------------------------------------------

  /** Requests that were registered and withdrawn again. */
  function Retries(deadlines: seq<real>): seq<Label> {
    if deadlines == [] then []
    else Retries(deadlines[..|deadlines| - 1]) + [Began(deadlines[|deadlines| - 1]), Withdrawn]
  }

  function Again(n: nat): seq<Label> {
    if n == 0 then [] else Again(n - 1) + [CameAgain]
  }

  /** How the last request of a key stands. */
  datatype Ending =
    | NoRequest
    | Waiting(deadline: real)
    | InTime(deadline: real, at: real, again: nat)
    | OutOfTime(deadline: real, at: real)
    | AfterTimeout(deadline: real, at: real, again: nat)
  {
    /** An accepted answer came before the deadline, a timeout at or after it. */
    predicate Timely() {
      match this
      case InTime(deadline, at, _) => at < deadline
      case OutOfTime(deadline, at) => deadline <= at
      case AfterTimeout(deadline, at, _) => deadline <= at
      case _ => true
    }

    function Spelled(): seq<Label> {
      match this
      case NoRequest => []
      case Waiting(deadline) => [Began(deadline)]
      case InTime(deadline, at, again) => [Began(deadline), WasAccepted(at)] + Again(again)
      case OutOfTime(deadline, at) => [Began(deadline), RanOut(at)]
      case AfterTimeout(deadline, at, again) => [Began(deadline), RanOut(at), CameLate] + Again(again)
    }

    /** Where the tracker keeps the key. */
    predicate KeptIn(t: Tracker, key: NetworkCorrelation) {
      match this
      case NoRequest => !t.Uses(key)
      case Waiting(deadline) => key in t.pending && t.pending[key] == deadline
      case OutOfTime(_, _) => key in t.timedOut
      case _ => key in t.completed
    }
  }

  lemma CallKeepsDisjoint(t: Tracker, call: Call, comparable: bool)
    requires t.Disjoint()
    ensures Apply(t, call, comparable).Disjoint()
  {
    hide CorrelationKey, CorrelatesResponse, CanSort;
  }

  /** How the ending of a key changes with the labels a call gives it. */
  function NextEnding(ending: Ending, tag: Label): Ending {
    match tag
    case Began(deadline) => Waiting(deadline)
    case Withdrawn => NoRequest
    case RanOut(at) => if ending.Waiting? then OutOfTime(ending.deadline, at) else ending
    case WasAccepted(at) => if ending.Waiting? then InTime(ending.deadline, at, 0) else ending
    case CameLate => if ending.OutOfTime? then AfterTimeout(ending.deadline, ending.at, 0) else ending
    case CameAgain =>
      if ending.InTime? || ending.AfterTimeout? then ending.(again := ending.again + 1) else ending
  }

  /** Which label may follow an ending. */
  predicate MayFollow(ending: Ending, tag: Label) {
    match tag
    case Began(_) => ending.NoRequest?
    case Withdrawn => ending.Waiting?
    case RanOut(at) => ending.Waiting? && ending.deadline <= at
    case WasAccepted(at) => ending.Waiting? && at < ending.deadline
    case CameLate => ending.OutOfTime?
    case CameAgain => ending.InTime? || ending.AfterTimeout?
  }

  /** A response labels its own key, as the disposition says, and moves it. */
  lemma RespondMovesEnding(
    t: Tracker, request: Message, response: Message, now: real, comparable: bool, key: NetworkCorrelation,
    ending: Ending)
    requires t.Disjoint() && ending.KeptIn(t, key)
    ensures var call := Respond(request, response, now); var labels := Labels(t, call, comparable, key);
      if labels == [] then ending.KeptIn(Apply(t, call, comparable), key)
      else (
        && |labels| == 1 && MayFollow(ending, labels[0])
        && NextEnding(ending, labels[0]).KeptIn(Apply(t, call, comparable), key))
  {
    hide CorrelationKey, CorrelatesResponse, ResponseAnswer, Answers;
    if CorrelationKey(response).Ok? {
      ResponseExactly(t, request, response, now);
    } else {
      MalformedResponse(t, request, response, now);
    }
  }

  lemma MalformedResponse(t: Tracker, request: Message, response: Message, now: real)
    requires CorrelationKey(response).Err?
    ensures ResponseAnswer(t, request, response, now).Err?
  {
    hide CorrelationKey;
  }

  /** A call labels a key at most once, with a label its ending allows, and moves it accordingly. */
  lemma CallMovesEnding(t: Tracker, call: Call, comparable: bool, key: NetworkCorrelation, ending: Ending)
    requires t.Disjoint() && ending.KeptIn(t, key)
    ensures var labels := Labels(t, call, comparable, key);
      if labels == [] then ending.KeptIn(Apply(t, call, comparable), key)
      else (
        && |labels| == 1 && MayFollow(ending, labels[0])
        && NextEnding(ending, labels[0]).KeptIn(Apply(t, call, comparable), key))
  {
    hide CorrelationKey, CorrelatesResponse, CanSort, ResponseAnswer;
    if call.Respond? {
      RespondMovesEnding(t, call.request, call.response, call.now, comparable, key, ending);
    }
  }

  /** What a response with a valid key is taken for: it answers a request only by one of three pairs of
      MTIs and the request's own STAN and RRN, and then its disposition says where the key was. Only a
      mismatch and a duplicate change nothing. */
  lemma ResponseExactly(t: Tracker, request: Message, response: Message, now: real)
    requires t.Disjoint() && CorrelationKey(response).Ok?
    ensures var answer := ResponseAnswer(t, request, response, now); var key := CorrelationKey(response).value;
      && answer.Ok?
      && (answer.value.Mismatched? <==> !Answers(request, response) || !t.Uses(key))
      && (answer.value.Duplicate? <==> Answers(request, response) && key in t.completed)
      && (answer.value.Late? <==> Answers(request, response) && key in t.timedOut)
      && (answer.value.TimedOut? <==> Answers(request, response) && key in t.pending && t.pending[key] <= now)
      && (answer.value.Accepted? <==> Answers(request, response) && key in t.pending && now < t.pending[key])
    ensures var answer := ResponseAnswer(t, request, response, now);
      answer.value.Mismatched? || answer.value.Duplicate? <==> Responded(t, request, response, now) == t
  {
    hide CorrelationKey, CorrelatesResponse, Answers;
    CorrelatesExactly(request, response);
    var after, key := Responded(t, request, response, now), CorrelationKey(response).value;
    if key in t.pending && Answers(request, response) {
      assert key !in after.pending;
    }
    if key in t.timedOut && Answers(request, response) {
      assert key !in after.timedOut;
    }
  }

  lemma EndingSpells(retries: seq<real>, ending: Ending, tag: Label) returns (more: seq<real>)
    requires MayFollow(ending, tag) && ending.Timely()
    ensures NextEnding(ending, tag).Timely()
    ensures Retries(more) + NextEnding(ending, tag).Spelled() == Retries(retries) + ending.Spelled() + [tag]
  {
    more := retries;
    if tag.Withdrawn? {
      more := retries + [ending.deadline];
      assert more[..|retries|] == retries;
    }
  }

  lemma {:induction false} StoryLives(
    t: Tracker, calls: seq<Call>, comparable: bool, key: NetworkCorrelation, retries: seq<real>, ending: Ending)
    returns (allRetries: seq<real>, last: Ending)
    requires t.Disjoint() && ending.Timely() && ending.KeptIn(t, key)
    ensures Run(t, calls, comparable).Disjoint()
    ensures last.Timely() && last.KeptIn(Run(t, calls, comparable), key)
    ensures Retries(retries) + ending.Spelled() + Story(t, calls, comparable, key)
      == Retries(allRetries) + last.Spelled()
    decreases |calls|
  {
    hide Apply, Labels, MayFollow, NextEnding, Ending.KeptIn, Ending.Timely, Ending.Spelled, Retries, Tracker.Disjoint;
    allRetries, last := retries, ending;
    if calls != [] {
      var labels := Labels(t, calls[0], comparable, key);
      var next := Apply(t, calls[0], comparable);
      CallKeepsDisjoint(t, calls[0], comparable);
      CallMovesEnding(t, calls[0], comparable, key, ending);
      if labels != [] {
        allRetries := EndingSpells(retries, ending, labels[0]);
        last := NextEnding(ending, labels[0]);
        assert labels == [labels[0]];
      }
      var spelled := Retries(allRetries) + last.Spelled();
      assert spelled == Retries(retries) + ending.Spelled() + labels;
      allRetries, last := StoryLives(next, calls[1..], comparable, key, allRetries, last);
    }
  }

  /** In every run from an unused tracker, the tables stay disjoint, every key's labels are retries
      followed by one ending, and the ending says in which table the key is. */
  lemma EveryKeyLives(calls: seq<Call>, comparable: bool, key: NetworkCorrelation)
    returns (retries: seq<real>, ending: Ending)
    ensures Run(UNUSED, calls, comparable).Disjoint()
    ensures ending.Timely() && ending.KeptIn(Run(UNUSED, calls, comparable), key)
    ensures Story(UNUSED, calls, comparable, key) == Retries(retries) + ending.Spelled()
  {
    retries, ending := StoryLives(UNUSED, calls, comparable, key, [], NoRequest);
    assert [] + Story(UNUSED, calls, comparable, key) == Story(UNUSED, calls, comparable, key);
  }

  predicate IsAnswer(tag: Label) {
    tag.WasAccepted? || tag.CameLate?
  }

  lemma {:induction false} RetriesTags(deadlines: seq<real>)
    ensures forall i :: 0 <= i < |Retries(deadlines)| ==>
      Retries(deadlines)[i].Began? || Retries(deadlines)[i].Withdrawn?
  {
    if deadlines != [] {
      RetriesTags(deadlines[..|deadlines| - 1]);
    }
  }

  lemma {:induction false} AgainTags(n: nat)
    ensures forall i :: 0 <= i < |Again(n)| ==> Again(n)[i] == CameAgain
  {
    if n > 0 {
      AgainTags(n - 1);
    }
  }

  lemma SpelledTags(ending: Ending)
    ensures var s := ending.Spelled();
      && (forall i, j :: 0 <= i < j < |s| ==> !(IsAnswer(s[i]) && IsAnswer(s[j])))
      && (forall i, j :: 0 <= i < |s| && 0 <= j < |s| && s[i].WasAccepted? ==> !s[j].RanOut?)
      && (forall i, j :: 0 <= i < j < |s| ==> !(s[i].RanOut? && s[j].RanOut?))
  {
    if ending.InTime? || ending.AfterTimeout? {
      AgainTags(ending.again);
    }
  }

  /** Over a whole run a key is answered at most once, in time or late; it times out at most once;
      and a key that was accepted never times out, before or after. */
  lemma AnsweredAtMostOnce(calls: seq<Call>, comparable: bool, key: NetworkCorrelation, i: nat, j: nat)
    requires i < |Story(UNUSED, calls, comparable, key)| && j < |Story(UNUSED, calls, comparable, key)|
    ensures var story := Story(UNUSED, calls, comparable, key);
      && (IsAnswer(story[i]) && IsAnswer(story[j]) ==> i == j)
      && (story[i].RanOut? && story[j].RanOut? ==> i == j)
      && !(story[i].WasAccepted? && story[j].RanOut?)
  {
    hide Ending.Spelled, Retries, Ending.Timely, Ending.KeptIn, Tracker.Disjoint, Story, Run;
    var retries, ending := EveryKeyLives(calls, comparable, key);
    RetriesTags(retries);
    SpelledTags(ending);
    var n := |Retries(retries)|;
    var story, s := Story(UNUSED, calls, comparable, key), ending.Spelled();
    assert forall k :: n <= k < |story| ==> story[k] == s[k - n];
    assert forall k :: 0 <= k < n ==> story[k] == Retries(retries)[k];
  }

  // ----- expiry without an order -------------------------------------------------------

  /** Without an order, two due keys block `expire` at that time and, while both stay pending, at every
      later one: the tables stay as they are. With an order both would time out. */
  lemma TwoDueKeysBlockExpiry(t: Tracker, a: NetworkCorrelation, b: NetworkCorrelation, now: real, later: real)
    requires a != b && a in DueKeys(t, now) && b in DueKeys(t, now) && now <= later
    ensures !CanSort(DueKeys(t, later), false) && Expired(t, later, false) == t
    ensures Expired(t, later, true).timedOut >= {a, b}
  {
    assert {a, b} <= DueKeys(t, later);
    SubsetSize({a, b}, DueKeys(t, later));
  }

  function KeyMessage(stan: string): Message {
    Message("0200", map[11 := Text(stan), 37 := Text("000000000001")])
  }

  lemma KeyOfMessage(stan: string)
    requires |stan| == 6 && AllDigits(stan)
    ensures CorrelationKey(KeyMessage(stan)) == Ok(NetworkCorrelation(stan, "000000000001"))
  {
    var rrn := "000000000001";
    assert |rrn| == 12 && forall i :: 0 <= i < 12 ==> rrn[i] == '0' || rrn[i] == '1';
  }

  /** Two ordinary registrations are enough to get there. */
  lemma ExpiryIsBlocked() returns (calls: seq<Call>)
    ensures var t := Run(UNUSED, calls, false);
      && |DueKeys(t, 1.0)| == 2 && !CanSort(DueKeys(t, 1.0), false)
      && forall later :: later >= 1.0 ==> Expired(t, later, false) == t
  {
    hide CorrelationKey;
    var a, b := NetworkCorrelation("000001", "000000000001"), NetworkCorrelation("000002", "000000000001");
    KeyOfMessage("000001");
    KeyOfMessage("000002");
    calls := [Register(KeyMessage("000001"), 0.0, 1.0), Register(KeyMessage("000002"), 0.0, 1.0)];
    assert a.stan[5] != b.stan[5];
    assert calls[1..] == [calls[1]] && [calls[1]][1..] == [];
    var t := Run(UNUSED, calls, false);
    assert t.pending == map[a := 1.0, b := 1.0];
    assert DueKeys(t, 1.0) == {a, b};
    forall later | later >= 1.0
      ensures Expired(t, later, false) == t
    {
      TwoDueKeysBlockExpiry(t, a, b, 1.0, later);
    }
  }
}
