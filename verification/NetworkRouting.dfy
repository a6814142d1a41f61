// Issuer routing and reversal links (app/network_routing.py).
module NetworkRouting {
  import opened Results
  import opened Strings
  import opened Canonical

  datatype IssuerRoute = IssuerRoute(
    name: string, acquirerId: string, issuerId: string, panPrefix: string, currencies: set<string>)

  /** The two errors of the router, the second with its text. */
  datatype RoutingError = NoRoute | Ambiguous(message: string)

  predicate Eligible(route: IssuerRoute, request: AuthorizationRequest) {
    route.panPrefix <= request.instrument.pan && request.currency in route.currencies
  }

  function Keep(routes: seq<IssuerRoute>, wanted: IssuerRoute -> bool): (kept: seq<IssuerRoute>)
  {
    if routes == [] then []
    else
      var last := routes[|routes| - 1];
      Keep(routes[..|routes| - 1], wanted) + if wanted(last) then [last] else []
  }

  function LongestPrefix(routes: seq<IssuerRoute>): (longest: nat)
    ensures forall i :: 0 <= i < |routes| ==> |routes[i].panPrefix| <= longest
    ensures routes != [] ==> exists i :: 0 <= i < |routes| && |routes[i].panPrefix| == longest
  {
    if routes == [] then 0
    else
      var front := LongestPrefix(routes[..|routes| - 1]);
      var last := |routes[|routes| - 1].panPrefix|;
      assert forall i :: 0 <= i < |routes| - 1 ==> routes[..|routes| - 1][i] == routes[i];
      if front < last || |routes| == 1 then last else front
  }

  function Matches(routes: seq<IssuerRoute>, request: AuthorizationRequest): seq<IssuerRoute> {
    Keep(routes, (route: IssuerRoute) => Eligible(route, request))
  }

  function MostSpecific(matches: seq<IssuerRoute>): seq<IssuerRoute> {
    var longest := LongestPrefix(matches);
    Keep(matches, (route: IssuerRoute) => |route.panPrefix| == longest)
  }

  const AMBIGUOUS := "ambiguous issuer routing between: "

  function InsertName(names: seq<string>, name: string): (longer: seq<string>)
    ensures |longer| == |names| + 1
  {
    if names == [] then [name]
    else if TextLess(name, names[0]) then [name] + names
    else [names[0]] + InsertName(names[1..], name)
  }

  /** `sorted(route.name for route in routes)`. */
  function SortedNames(routes: seq<IssuerRoute>): (names: seq<string>)
    ensures |names| == |routes|
  {
    if routes == [] then [] else InsertName(SortedNames(routes[..|routes| - 1]), routes[|routes| - 1].name)
  }

  /** `", ".join(names)`. */
  function Join(names: seq<string>): string {
    if names == [] then "" else if |names| == 1 then names[0] else names[0] + ", " + Join(names[1..])
  }

  /** `NetworkRouter.route`. */
  function Route(routes: seq<IssuerRoute>, request: AuthorizationRequest): (r: Result<IssuerRoute, RoutingError>)
  {
    var matches := Matches(routes, request);
    if matches == [] then Err(NoRoute)
    else
      var best := MostSpecific(matches);
      if |best| != 1 then Err(Ambiguous(AMBIGUOUS + Join(SortedNames(best)))) else Ok(best[0])
  }

  // ----- what is kept ------------------------------------------------------------------

  lemma {:induction false} KeepCounts(routes: seq<IssuerRoute>, wanted: IssuerRoute -> bool, route: IssuerRoute)
    ensures multiset(Keep(routes, wanted))[route] == if wanted(route) then multiset(routes)[route] else 0
  {
    if routes != [] {
      var front, last := routes[..|routes| - 1], routes[|routes| - 1];
      assert routes == front + [last];
      KeepCounts(front, wanted, route);
    }
  }

  lemma KeepPermuted(a: seq<IssuerRoute>, b: seq<IssuerRoute>, wanted: IssuerRoute -> bool)
    requires multiset(a) == multiset(b)
    ensures multiset(Keep(a, wanted)) == multiset(Keep(b, wanted))
  {
    forall route
      ensures multiset(Keep(a, wanted))[route] == multiset(Keep(b, wanted))[route]
    {
      KeepCounts(a, wanted, route);
      KeepCounts(b, wanted, route);
    }
  }

  lemma KeepHas(routes: seq<IssuerRoute>, wanted: IssuerRoute -> bool, route: IssuerRoute)
    ensures route in Keep(routes, wanted) <==> route in routes && wanted(route)
  {
    KeepCounts(routes, wanted, route);
    assert route in Keep(routes, wanted) <==> route in multiset(Keep(routes, wanted));
    assert route in routes <==> route in multiset(routes);
  }

  lemma LongestPermuted(a: seq<IssuerRoute>, b: seq<IssuerRoute>)
    requires multiset(a) == multiset(b)
    ensures LongestPrefix(a) == LongestPrefix(b)
  {
    assert forall route :: route in a <==> route in multiset(a);
    assert forall route :: route in b <==> route in multiset(b);
    LongestSame(a, b);
    LongestSame(b, a);
  }

  lemma LongestSame(a: seq<IssuerRoute>, b: seq<IssuerRoute>)
    requires forall route :: route in a ==> route in b
    ensures LongestPrefix(a) <= LongestPrefix(b)
  {
    if a != [] {
      var i :| 0 <= i < |a| && |a[i].panPrefix| == LongestPrefix(a);
      assert a[i] in b;
    }
  }

  /** A route is eligible when the PAN begins with its prefix, digit by digit, and it serves the currency. */
  lemma EligibleExactly(route: IssuerRoute, request: AuthorizationRequest)
    ensures Eligible(route, request) <==>
      && |route.panPrefix| <= |request.instrument.pan|
      && (forall i :: 0 <= i < |route.panPrefix| ==> route.panPrefix[i] == request.instrument.pan[i])
      && request.currency in route.currencies
  {
  }

  // ----- the names in the message ------------------------------------------------------

  /** Names are joined by a comma and a space. */
  lemma {:induction false} JoinedNames(names: seq<string>, name: string)
    ensures Join([name]) == name
    ensures names != [] ==> Join(names + [name]) == Join(names) + ", " + name
  {
    if |names| > 1 {
      assert (names + [name])[1..] == names[1..] + [name];
      JoinedNames(names[1..], name);
    } else if |names| == 1 {
      assert (names + [name])[1..] == [name];
    }
  }

  predicate InOrder(names: seq<string>) {
    forall i, j :: 0 <= i < j < |names| ==> !TextLess(names[j], names[i])
  }

  lemma {:induction false} InsertKeepsOrder(names: seq<string>, name: string)
    requires InOrder(names)
    ensures InOrder(InsertName(names, name))
    ensures multiset(InsertName(names, name)) == multiset(names) + multiset{name}
  {
    if names == [] {
    } else if TextLess(name, names[0]) {
      forall j | 0 <= j < |names|
        ensures !TextLess(names[j], name)
      {
        TextLessTotal(names[j], name);
        if TextLess(names[j], name) {
          TextLessTransitive(names[j], name, names[0]);
        }
        TextLessTotal(names[j], names[0]);
      }
    } else {
      var tail := InsertName(names[1..], name);
      InsertKeepsOrder(names[1..], name);
      assert names == [names[0]] + names[1..];
      forall j | 0 <= j < |tail|
        ensures !TextLess(tail[j], names[0])
      {
        assert tail[j] in multiset(tail);
        assert tail[j] == name || tail[j] in names[1..];
      }
    }
  }

  function Names(routes: seq<IssuerRoute>): seq<string> {
    seq(|routes|, i requires 0 <= i < |routes| => routes[i].name)
  }

  /** The names of the routes, each as often as it occurs, in order. */
  lemma {:induction false} NamesSorted(routes: seq<IssuerRoute>)
    ensures InOrder(SortedNames(routes))
    ensures multiset(SortedNames(routes)) == multiset(Names(routes))
  {
    hide InOrder, InsertName;
    if routes == [] {
      EmptyInOrder();
    } else {
      var front, last := routes[..|routes| - 1], routes[|routes| - 1];
      NamesSorted(front);
      InsertKeepsOrder(SortedNames(front), last.name);
      assert Names(routes) == Names(front) + [last.name];
    }
  }

  lemma EmptyInOrder()
    ensures InOrder([])
  {
  }

  lemma {:induction false} InsertCommutes(names: seq<string>, a: string, b: string)
    ensures InsertName(InsertName(names, a), b) == InsertName(InsertName(names, b), a)
  {
    TextLessTotal(a, b);
    if names != [] {
      var head := names[0];
      if TextLess(a, b) && TextLess(b, head) {
        TextLessTransitive(a, b, head);
      }
      if TextLess(b, a) && TextLess(a, head) {
        TextLessTransitive(b, a, head);
      }
      InsertCommutes(names[1..], a, b);
      assert ([head] + InsertName(names[1..], a))[1..] == InsertName(names[1..], a);
      assert ([head] + InsertName(names[1..], b))[1..] == InsertName(names[1..], b);
      assert ([a] + names)[1..] == names && ([b] + names)[1..] == names;
    }
  }

  /** Which route comes last does not matter to the sorted names. */
  lemma {:induction false} TakenOut(before: seq<IssuerRoute>, route: IssuerRoute, after: seq<IssuerRoute>)
    ensures SortedNames(before + [route] + after) == InsertName(SortedNames(before + after), route.name)
    decreases |after|
  {
    hide InsertName;
    var all := before + [route] + after;
    if after == [] {
      assert all == before + [route] && all[..|before|] == before && before + after == before;
    } else {
      var front, last := after[..|after| - 1], after[|after| - 1];
      assert all[..|all| - 1] == before + [route] + front;
      assert (before + after)[..|before + after| - 1] == before + front;
      TakenOut(before, route, front);
      InsertCommutes(SortedNames(before + front), route.name, last.name);
    }
  }

  lemma LastInserted(routes: seq<IssuerRoute>)
    requires routes != []
    ensures SortedNames(routes)
      == InsertName(SortedNames(routes[..|routes| - 1]), routes[|routes| - 1].name)
  {
  }

  lemma OneLess(front: seq<IssuerRoute>, route: IssuerRoute, before: seq<IssuerRoute>, after: seq<IssuerRoute>)
    requires multiset(front + [route]) == multiset(before + [route] + after)
    ensures multiset(front) == multiset(before + after)
  {
    assert multiset(front) == multiset(front + [route]) - multiset{route};
    assert multiset(before + after) == multiset(before + [route] + after) - multiset{route};
  }

  lemma {:induction false} NamesIgnoreOrder(a: seq<IssuerRoute>, b: seq<IssuerRoute>)
    requires multiset(a) == multiset(b)
    ensures SortedNames(a) == SortedNames(b)
    decreases |a|
  {
    hide InsertName, SortedNames;
    if a == [] {
      assert |multiset(b)| == |b|;
      assert b == [];
    } else {
      LastInserted(a);
      var front, last := a[..|a| - 1], a[|a| - 1];
      assert a == front + [last] && last in multiset(b);
      var j :| 0 <= j < |b| && b[j] == last;
      var before, after := b[..j], b[j + 1..];
      assert b == before + [last] + after;
      OneLess(front, last, before, after);
      NamesIgnoreOrder(front, before + after);
      TakenOut(before, last, after);
    }
  }

  /** The answer does not depend on the order of the table, the error included. */
  lemma RouteIgnoresOrder(a: seq<IssuerRoute>, b: seq<IssuerRoute>, request: AuthorizationRequest)
    requires multiset(a) == multiset(b)
    ensures Route(a, request) == Route(b, request)
  {
    hide Eligible, LongestPrefix, SortedNames, Join;
    var ma, mb := Matches(a, request), Matches(b, request);
    KeepPermuted(a, b, (route: IssuerRoute) => Eligible(route, request));
    SizesAgree(ma, mb);
    LongestPermuted(ma, mb);
    var longest := LongestPrefix(ma);
    KeepPermuted(ma, mb, (route: IssuerRoute) => |route.panPrefix| == longest);
    SizesAgree(MostSpecific(ma), MostSpecific(mb));
    NamesIgnoreOrder(MostSpecific(ma), MostSpecific(mb));
  }

  lemma SizesAgree(a: seq<IssuerRoute>, b: seq<IssuerRoute>)
    requires multiset(a) == multiset(b)
    ensures |a| == |b|
    ensures |a| == 1 ==> a == b
  {
    assert |multiset(a)| == |a| && |multiset(b)| == |b|;
    if |a| == 1 {
      assert a[0] in multiset(b);
    }
  }

  // ----- what is chosen ----------------------------------------------------------------

  /** Position `i` holds an eligible route and no eligible route has a longer prefix. */
  predicate Best(routes: seq<IssuerRoute>, request: AuthorizationRequest, i: int) {
    && 0 <= i < |routes| && Eligible(routes[i], request)
    && forall j :: 0 <= j < |routes| && Eligible(routes[j], request) ==> |routes[j].panPrefix| <= |routes[i].panPrefix|
  }

  function Positions(routes: seq<IssuerRoute>, wanted: IssuerRoute -> bool): set<int> {
    set i | 0 <= i < |routes| && wanted(routes[i])
  }

  /** The most specific routes, counted with repetitions, are those at the best positions. */
  lemma {:induction false} KeptPositions(routes: seq<IssuerRoute>, wanted: IssuerRoute -> bool)
    ensures |Keep(routes, wanted)| == |Positions(routes, wanted)|
  {
    if routes != [] {
      var front, last := routes[..|routes| - 1], routes[|routes| - 1];
      KeptPositions(front, wanted);
      var all, some := Positions(routes, wanted), Positions(front, wanted);
      forall i
        ensures i in all <==> i in some || (i == |front| && wanted(last))
      {
        assert 0 <= i < |front| ==> front[i] == routes[i];
      }
      if wanted(last) {
        assert all == some + {|front|};
      } else {
        assert all == some;
      }
    }
  }

  lemma {:induction false} KeepKeep(
    routes: seq<IssuerRoute>, first: IssuerRoute -> bool, second: IssuerRoute -> bool, both: IssuerRoute -> bool)
    requires forall route :: both(route) <==> first(route) && second(route)
    ensures Keep(Keep(routes, first), second) == Keep(routes, both)
  {
    if routes != [] {
      var front, last := routes[..|routes| - 1], routes[|routes| - 1];
      KeepKeep(front, first, second, both);
      KeepAppend(Keep(front, first), if first(last) then [last] else [], second);
    }
  }

  lemma KeepAppend(front: seq<IssuerRoute>, last: seq<IssuerRoute>, wanted: IssuerRoute -> bool)
    requires |last| <= 1
    ensures Keep(front + last, wanted) == Keep(front, wanted) + if last != [] && wanted(last[0]) then last else []
  {
    if last == [] {
      assert front + last == front;
    } else {
      assert (front + last)[..|front|] == front;
    }
  }

  function BestPositions(routes: seq<IssuerRoute>, request: AuthorizationRequest): set<int> {
    set i | 0 <= i < |routes| && Best(routes, request, i)
  }

  lemma MatchesHas(routes: seq<IssuerRoute>, request: AuthorizationRequest)
    ensures forall route :: route in Matches(routes, request) <==> route in routes && Eligible(route, request)
  {
    forall route
      ensures route in Matches(routes, request) <==> route in routes && Eligible(route, request)
    {
      KeepHas(routes, (r: IssuerRoute) => Eligible(r, request), route);
    }
  }

  /** Being best is being eligible with the longest prefix among the matches. */
  lemma BestHasLongest(routes: seq<IssuerRoute>, request: AuthorizationRequest, i: int)
    requires 0 <= i < |routes|
    ensures Best(routes, request, i) <==>
      Eligible(routes[i], request) && |routes[i].panPrefix| == LongestPrefix(Matches(routes, request))
  {
    hide Eligible;
    var matches := Matches(routes, request);
    MatchesHas(routes, request);
    if Eligible(routes[i], request) {
      assert routes[i] in matches;
      var m :| 0 <= m < |matches| && |matches[m].panPrefix| == LongestPrefix(matches);
      assert matches[m] in routes;
      forall j | 0 <= j < |routes| && Eligible(routes[j], request)
        ensures |routes[j].panPrefix| <= LongestPrefix(matches)
      {
        assert routes[j] in matches;
      }
    }
  }

  /** The routes the error or the answer is about are those at the best positions. */
  lemma MostSpecificPositions(routes: seq<IssuerRoute>, request: AuthorizationRequest)
    ensures |MostSpecific(Matches(routes, request))| == |BestPositions(routes, request)|
    ensures forall route :: route in MostSpecific(Matches(routes, request)) <==>
      exists i :: Best(routes, request, i) && routes[i] == route
  {
    hide Eligible, LongestPrefix, Best;
    var longest := LongestPrefix(Matches(routes, request));
    var both := (route: IssuerRoute) => Eligible(route, request) && |route.panPrefix| == longest;
    KeepKeep(routes, (route: IssuerRoute) => Eligible(route, request),
             (route: IssuerRoute) => |route.panPrefix| == longest, both);
    KeptPositions(routes, both);
    BestInRange(routes, request);
    forall i | 0 <= i < |routes|
      ensures Best(routes, request, i) <==> both(routes[i])
    {
      BestHasLongest(routes, request, i);
    }
    assert Positions(routes, both) == BestPositions(routes, request);
    forall route
      ensures route in Keep(routes, both) <==> exists i :: Best(routes, request, i) && routes[i] == route
    {
      KeepHas(routes, both, route);
    }
  }

  lemma BestInRange(routes: seq<IssuerRoute>, request: AuthorizationRequest)
    ensures forall i :: Best(routes, request, i) ==> 0 <= i < |routes|
  {
  }

  lemma SomeIsMostSpecific(matches: seq<IssuerRoute>)
    ensures matches != [] ==> MostSpecific(matches) != []
    ensures matches == [] ==> MostSpecific(matches) == []
  {
    if matches != [] {
      var longest := LongestPrefix(matches);
      var m :| 0 <= m < |matches| && |matches[m].panPrefix| == longest;
      KeepHas(matches, (route: IssuerRoute) => |route.panPrefix| == longest, matches[m]);
    }
  }

  /** The kind of answer is the number of best positions: none, one, or several. */
  lemma RouteByCount(routes: seq<IssuerRoute>, request: AuthorizationRequest)
    ensures Route(routes, request) == Err(NoRoute) <==> |BestPositions(routes, request)| == 0
    ensures Route(routes, request).Ok? <==> |BestPositions(routes, request)| == 1
    ensures Route(routes, request).Ok? ==>
      exists i :: i in BestPositions(routes, request) && routes[i] == Route(routes, request).value
  {
    hide Eligible, Best, MostSpecific, Matches, LongestPrefix;
    MostSpecificPositions(routes, request);
    SomeIsMostSpecific(Matches(routes, request));
    BestInRange(routes, request);
    if Route(routes, request).Ok? {
      assert Route(routes, request).value in MostSpecific(Matches(routes, request));
    }
  }

  lemma SomeMember(at: set<int>)
    ensures at != {} ==> exists i :: i in at
  {
    if forall i :: i !in at {
      assert at == {};
    }
  }

  lemma CountMeans(at: set<int>)
    ensures |at| == 0 <==> forall i :: i !in at
    ensures |at| == 1 <==> exists i :: at == {i}
    ensures |at| > 1 <==> exists i, j :: i < j && i in at && j in at
  {
    SomeMember(at);
    if at != {} {
      var i: int :| i in at;
      var rest := at - {i};
      SomeMember(rest);
      if rest == {} {
        assert at == {i};
      } else {
        var j: int :| j in rest;
        assert at == rest - {j} + {i, j};
        assert if i < j then i in at && j in at else j < i;
      }
    }
  }

  /** The answer is the route at the one best position. */
  lemma RouteIsTheBest(routes: seq<IssuerRoute>, request: AuthorizationRequest, i: int)
    requires Best(routes, request, i) && forall j :: Best(routes, request, j) ==> j == i
    ensures Route(routes, request) == Ok(routes[i])
  {
    hide Route;
    RouteByCount(routes, request);
    assert BestPositions(routes, request) == {i};
  }

  /** There is an answer only when one position is best. */
  lemma OkHasOneBest(routes: seq<IssuerRoute>, request: AuthorizationRequest)
    requires Route(routes, request).Ok?
    ensures exists i :: (
      && Best(routes, request, i) && (forall j :: Best(routes, request, j) ==> j == i)
      && Route(routes, request) == Ok(routes[i]))
  {
    hide Route, Best;
    RouteByCount(routes, request);
    BestInRange(routes, request);
    var at := BestPositions(routes, request);
    CountMeans(at);
    var i :| at == {i};
    assert i in at;
    assert forall j :: Best(routes, request, j) ==> j in at;
  }

  /** No route is the answer exactly when no position is eligible. */
  lemma NoRouteExactly(routes: seq<IssuerRoute>, request: AuthorizationRequest)
    ensures Route(routes, request) == Err(NoRoute) <==> forall i :: 0 <= i < |routes| ==> !Eligible(routes[i], request)
  {
    hide Eligible;
    MatchesHas(routes, request);
    var matches := Matches(routes, request);
    assert matches != [] ==> matches[0] in matches;
  }

  /** The choice is ambiguous exactly when two positions share the longest eligible prefix. */
  lemma AmbiguousExactly(routes: seq<IssuerRoute>, request: AuthorizationRequest)
    ensures (Route(routes, request).Err? && Route(routes, request).error.Ambiguous?) <==> Tied(routes, request)
  {
    hide Route;
    RouteByCount(routes, request);
    CountMeans(BestPositions(routes, request));
    var at := BestPositions(routes, request);
    if i, j :| i < j && i in at && j in at {
      SamePrefix(routes, request, i, j);
    }
    if i, j :| i < j && Best(routes, request, i) && Best(routes, request, j) {
      assert i in at && j in at;
    }
  }

  /** The message names exactly the routes at the best positions, once for each position, in order. */
  lemma AmbiguousNames(routes: seq<IssuerRoute>, request: AuthorizationRequest)
    requires Route(routes, request).Err? && Route(routes, request).error.Ambiguous?
    ensures var names := SortedNames(MostSpecific(Matches(routes, request)));
      && Route(routes, request).error.message == "ambiguous issuer routing between: " + Join(names)
      && InOrder(names) && |names| == |BestPositions(routes, request)|
      && forall name :: name in names <==> BestIsNamed(routes, request, name)
  {
    hide Eligible, Best, MostSpecific, Matches, InOrder, SortedNames, Join;
    var best := MostSpecific(Matches(routes, request));
    MostSpecificPositions(routes, request);
    BestInRange(routes, request);
    NamesSorted(best);
    forall name
      ensures name in SortedNames(best) <==> BestIsNamed(routes, request, name)
    {
      assert name in SortedNames(best) <==> name in multiset(SortedNames(best));
      NameOfMember(best, name);
      if route :| route in best && route.name == name {
        var i :| Best(routes, request, i) && routes[i] == route;
      }
      if i :| Best(routes, request, i) && 0 <= i < |routes| && routes[i].name == name {
        assert routes[i] in best;
      }
    }
  }

  lemma NameOfMember(routes: seq<IssuerRoute>, name: string)
    ensures name in multiset(Names(routes)) <==> exists route :: route in routes && route.name == name
  {
    if route :| route in routes && route.name == name {
      var i :| 0 <= i < |routes| && routes[i] == route;
      assert Names(routes)[i] == name;
    }
  }

  ghost predicate BestIsNamed(routes: seq<IssuerRoute>, request: AuthorizationRequest, name: string) {
    exists i :: Best(routes, request, i) && 0 <= i < |routes| && routes[i].name == name
  }

  ghost predicate Tied(routes: seq<IssuerRoute>, request: AuthorizationRequest) {
    exists i, j :: i < j && Best(routes, request, i) && Best(routes, request, j)
      && routes[i].panPrefix == routes[j].panPrefix
  }

  /** Two prefixes of one PAN with the same length are the same. */
  lemma SamePrefix(routes: seq<IssuerRoute>, request: AuthorizationRequest, i: int, j: int)
    requires Best(routes, request, i) && Best(routes, request, j)
    ensures routes[i].panPrefix == routes[j].panPrefix
  {
    var pan := request.instrument.pan;
    assert routes[i].panPrefix == pan[..|routes[i].panPrefix|];
    assert routes[j].panPrefix == pan[..|routes[j].panPrefix|];
  }

  /** No two positions serve the same prefix and currency. */
  predicate NoRepeats(routes: seq<IssuerRoute>) {
    forall i, j :: 0 <= i < j < |routes| && routes[i].panPrefix == routes[j].panPrefix ==>
      routes[i].currencies !! routes[j].currencies
  }

  /** Such a table is never ambiguous, for any request. */
  lemma NoRepeatsNeverAmbiguous(routes: seq<IssuerRoute>, request: AuthorizationRequest)
    requires NoRepeats(routes)
    ensures Route(routes, request).Ok? || Route(routes, request) == Err(NoRoute)
  {
    hide Route;
    AmbiguousExactly(routes, request);
    BestServeCurrency(routes, request);
    hide Best;
  }

  lemma BestServeCurrency(routes: seq<IssuerRoute>, request: AuthorizationRequest)
    ensures forall i :: Best(routes, request, i) ==> 0 <= i < |routes| && request.currency in routes[i].currencies
  {
  }

  // ----- reversal links ----------------------------------------------------------------

  datatype ReversalReason = Timeout | LateResponse | Operator

  datatype ReversalLink = ReversalLink(
    original: NetworkCorrelation, reversal: NetworkCorrelation, reason: ReversalReason)

  datatype LinkError = SameCorrelation | AlreadyReversed | ReversalInUse

  /** The registry's tables. */
  datatype Links = Links(byOriginal: map<NetworkCorrelation, ReversalLink>, reversalKeys: set<NetworkCorrelation>)
  {
    /** The keys are those of the links, each filed under its original, none a reversal of itself,
        and no reversal serves two originals. */
    ghost predicate Valid() {
      && (forall o :: o in byOriginal ==>
            byOriginal[o].original == o && byOriginal[o].reversal != o && byOriginal[o].reversal in reversalKeys)
      && (forall k :: k in reversalKeys ==> exists o :: o in byOriginal && byOriginal[o].reversal == k)
      && (forall o, p ::
            o in byOriginal && p in byOriginal && byOriginal[o].reversal == byOriginal[p].reversal ==> o == p)
    }
  }

  const NO_LINKS := Links(map[], {})

  function LinkAnswer(links: Links, original: NetworkCorrelation, reversal: NetworkCorrelation, reason: ReversalReason):
    (r: Result<ReversalLink, LinkError>)
  {
    if original == reversal then Err(SameCorrelation)
    else if original in links.byOriginal then Err(AlreadyReversed)
    else if reversal in links.reversalKeys then Err(ReversalInUse)
    else Ok(ReversalLink(original, reversal, reason))
  }

  function Linked(links: Links, original: NetworkCorrelation, reversal: NetworkCorrelation, reason: ReversalReason):
    (after: Links)
  {
    var r := LinkAnswer(links, original, reversal, reason);
    if r.Err? then links else Links(links.byOriginal[original := r.value], links.reversalKeys + {reversal})
  }

  class ReversalRegistry {
    var byOriginal: map<NetworkCorrelation, ReversalLink>
    var reversalKeys: set<NetworkCorrelation>

    function State(): Links
      reads this
    {
      Links(byOriginal, reversalKeys)
    }

    constructor ()
      ensures State() == NO_LINKS
    {
      byOriginal, reversalKeys := map[], {};
    }

    /** `link`. */
    method Link(original: NetworkCorrelation, reversal: NetworkCorrelation, reason: ReversalReason)
      returns (r: Result<ReversalLink, LinkError>)
      requires State().Valid()
      modifies this
      ensures State().Valid()
      ensures r == LinkAnswer(old(State()), original, reversal, reason)
      ensures State() == Linked(old(State()), original, reversal, reason)
    {
      LinkKeepsValid(State(), original, reversal, reason);
      if original == reversal {
        return Err(SameCorrelation);
      }
      if original in byOriginal {
        return Err(AlreadyReversed);
      }
      if reversal in reversalKeys {
        return Err(ReversalInUse);
      }
      var link := ReversalLink(original, reversal, reason);
      byOriginal := byOriginal[original := link];
      reversalKeys := reversalKeys + {reversal};
      r := Ok(link);
    }
  }

  /** Linking keeps the tables consistent, and never changes or drops an earlier link. */
  lemma LinkKeepsValid(links: Links, original: NetworkCorrelation, reversal: NetworkCorrelation, reason: ReversalReason)
    requires links.Valid()
    ensures Linked(links, original, reversal, reason).Valid()
    ensures forall o :: o in links.byOriginal ==>
      o in Linked(links, original, reversal, reason).byOriginal
      && Linked(links, original, reversal, reason).byOriginal[o] == links.byOriginal[o]
  {
    var after := Linked(links, original, reversal, reason);
    if LinkAnswer(links, original, reversal, reason).Ok? {
      forall k | k in after.reversalKeys
        ensures exists o :: o in after.byOriginal && after.byOriginal[o].reversal == k
      {
        if k == reversal {
          assert after.byOriginal[original].reversal == k;
        } else {
          var o :| o in links.byOriginal && links.byOriginal[o].reversal == k;
          assert after.byOriginal[o].reversal == k;
        }
      }
    }
  }
}
