/** From traces to source routes: the learned graph, the search on it, and the option it yields. */
module Router {
  import opened Types
  import opened Graph
  import opened SearchSpec
  import opened SearchRun
  import opened SearchCuts
  import opened SearchMiddles
  import opened SearchLevels
  import opened TwinSearch
  import opened Routes
  import opened RouteSearch
  import opened RouteVector
  import opened TopologyStore
  import LsrrOption

  const IP_ROUTES_TO_SEARCH := 10
  const MAX_EDGES := 10

  /** The promise of a search for a different, non-adjacent target. */
  ghost predicate GoodRoutes(g: Multigraph, a: ui32, b: ui32, routes: seq<Route>) {
    && (forall i :: 0 <= i < |routes| ==> IsSimplePath(g, routes[i], a, b) && 3 <= |routes[i]| <= MAX_EDGES + 1)
    && (forall i, j :: 0 <= i < j < |routes| ==> routes[i] != routes[j])
    && (routes != [] <==> b in Ball(g, a, MAX_EDGES))
    && forall d, m :: 0 <= d <= MAX_EDGES && AtDistance(g, a, b, d) && m in Midpoints(g, a, b, d) ==>
         exists i :: 0 <= i < |routes| && |routes[i]| == d + 1 && m in routes[i]
  }

  ghost predicate HasRouteOf(routes: seq<Route>, edges: nat) {
    exists i :: 0 <= i < |routes| && |routes[i]| - 1 == edges
  }

  /** Some route has h edges and v in its middle, nearer to b when h is odd. */
  ghost predicate HasRouteVia(routes: seq<Route>, h: nat, v: ui32) {
    exists i :: 0 <= i < |routes| && |routes[i]| - 1 == h && routes[i][|routes[i]| / 2] == v
  }

  function HowMany(routes: seq<Route>, edges: nat): nat {
    if routes == [] then 0
    else HowMany(routes[..|routes| - 1], edges) + if |routes[|routes| - 1]| - 1 == edges then 1 else 0
  }

  /** One route per vertex met, with that vertex in its middle, and of as many edges as half-steps
      were made to meet it. */
  ghost predicate AsMet(routes: seq<Route>, t: Trail) {
    && |routes| == |t.met|
    && (forall h: nat, v :: HasRouteVia(routes, h, v) <==> v in t.metAt && t.metAt[v] == h)
    && (forall h: nat :: HasRouteOf(routes, h) <==> MetIn(t.metAt, h))
    && forall h: nat :: HowMany(routes, h) == |MetDuring(t.metAt, h)|
  }

  ghost function MetDuring(metAt: map<ui32, nat>, h: nat): set<ui32> {
    set v | v in metAt && metAt[v] == h
  }

  /** The routes are those of the run of this search. */
  ghost predicate FromRun(g: Multigraph, a: ui32, b: ui32, limit: nat, routes: seq<Route>) {
    exists na: nat, nb: nat :: Turns(na, nb) && StopsAt(g, a, b, limit, na, nb) &&
                               AsMet(routes, TrailAfter(g, a, b, na, nb))
  }

  /** The routes by walks alone: one for every middle of the walks within reach, of exactly as many
      edges as the walks that have it. */
  ghost predicate ByWalks(g: Multigraph, a: ui32, b: ui32, limit: nat, routes: seq<Route>) {
    var reach := Reach(g, a, b, limit);
    && |routes| == |Middles(g, a, b, reach)|
    && (forall h: nat, v :: HasRouteVia(routes, h, v) <==> h <= reach && v in MiddlesAt(g, a, b, h))
    && forall h: nat :: HowMany(routes, h) == if h <= reach then |MiddlesAt(g, a, b, h)| else 0
  }

  /** No walk is shorter than a route unless it passes through the middle of another one. */
  ghost predicate LocallyShortest(g: Multigraph, a: ui32, b: ui32, limit: nat, routes: seq<Route>) {
    forall i, p :: 0 <= i < |routes| && routes[i] != [] && IsWalk(g, p, a, b) && |p| < |routes[i]| ==>
      Cut(p, Middles(g, a, b, Reach(g, a, b, limit)) - {routes[i][|routes[i]| / 2]})
  }

  /** `p` shares a vertex other than its ends with one of the routes. */
  ghost predicate Crosses(p: seq<ui32>, a: ui32, b: ui32, routes: seq<Route>) {
    exists i, j :: 0 <= i < |routes| && 0 <= j < |p| && p[j] != a && p[j] != b && p[j] in routes[i]
  }

  /** With fewer routes than asked for, nothing within ten edges avoids all of them. */
  ghost predicate Exhaustive(g: Multigraph, a: ui32, b: ui32, limit: nat, routes: seq<Route>) {
    |routes| < limit ==> forall p :: IsWalk(g, p, a, b) && |p| <= MAX_EDGES + 1 ==> Crosses(p, a, b, routes)
  }

  /** The middles of the routes that `rounds` rounds can find, nearer to the target in odd routes. */
  ghost function ShortMiddles(found: seq<Route>, rounds: nat): set<ui32> {
    set r | r in found && 0 < |r| <= 2 * rounds + 1 :: r[|r| / 2]
  }

  /** What a caller may rely on, in plain numbers: distinct simple paths from vertex 0 of two to ten
      edges; no walk within ten edges is shorter than all of them; with fewer than ten of them, each
      such walk crosses one; and no round follows one that ended with ten middles. */
  ghost predicate Promised(g: Multigraph, target: ui32, found: seq<Route>) {
    && (forall i :: 0 <= i < |found| ==> IsSimplePath(g, found[i], 0, target) && 3 <= |found[i]| <= 11)
    && (forall i, j :: 0 <= i < j < |found| ==> found[i][|found[i]| / 2] != found[j][|found[j]| / 2])
    && (forall p :: IsWalk(g, p, 0, target) && |p| <= 11 ==> exists r :: r in found && |r| <= |p|)
    && (|found| < 10 ==>
          forall p :: IsWalk(g, p, 0, target) && |p| <= 11 ==>
            exists r, x :: r in found && x in r && x in p && x != 0 && x != target)
    && (forall k: nat, r :: 1 <= k <= 4 && r in found && |r| - 1 > 2 * k ==> |ShortMiddles(found, k)| < 10)
  }

  /** The promise of a search for ourselves: one there-and-back walk per neighbour. */
  ghost predicate TwinOnly(g: Multigraph, s: ui32, routes: seq<Route>) {
    && (forall r :: r in routes ==> exists v :: v in Around(g, s) && r == [s, v, s])
    && (forall v :: v in Around(g, s) ==> [s, v, s] in routes)
    && (forall i, j :: 0 <= i < j < |routes| ==> routes[i] != routes[j])
  }

  /** `routes[i]` goes through `order[i]` and has as many edges as its generations add up to. */
  ghost predicate Lengths(g: Multigraph, a: Side, b: Side, met: set<ui32>, order: seq<ui32>, routes: seq<Route>) {
    && met <= a.gen.Keys && met <= b.gen.Keys && |routes| == |order|
    && (forall v :: v in met <==> v in order)
    && forall i :: 0 <= i < |routes| ==>
         && order[i] in met && routes[i] != [] && routes[i][|routes[i]| / 2] == order[i]
         && |routes[i]| == a.gen[order[i]] + b.gen[order[i]] + 1
  }

  lemma RoutesHaveLengths(g: Multigraph, a: Side, b: Side, met: set<ui32>, na: nat, nb: nat,
                          order: seq<ui32>, routes: seq<Route>)
    requires Symmetric(g) && SearchOk(g, a, b, met, na, nb) && !Edge(g, a.origin, b.origin)
    requires RoutesThrough(a.reverse, b.reverse, a.origin, b.origin, met, order, routes)
    ensures Lengths(g, a, b, met, order, routes)
    ensures forall i :: 0 <= i < |routes| ==>
              IsSimplePath(g, routes[i], a.origin, b.origin) && 3 <= |routes[i]| <= na + nb + 1
    ensures forall i, j :: 0 <= i < j < |routes| ==> routes[i] != routes[j]
  {
    forall i | 0 <= i < |routes|
      ensures order[i] in met && routes[i] != [] && routes[i][|routes[i]| / 2] == order[i]
      ensures IsSimplePath(g, routes[i], a.origin, b.origin) && 3 <= |routes[i]| <= na + nb + 1
      ensures |routes[i]| == a.gen[order[i]] + b.gen[order[i]] + 1
    {
      hide SearchOk, Neighbours, Symmetric, IsRoute;
      RouteThroughIntersection(g, a, b, met, na, nb, order[i], routes[i]);
    }
    forall i, j | 0 <= i < j < |routes|
      ensures routes[i] != routes[j]
    {
      assert order[i] != order[j];
    }
  }

  lemma ShortestAmongRoutes(g: Multigraph, a: Side, b: Side, met: set<ui32>, order: seq<ui32>, routes: seq<Route>,
                            d: nat, m: ui32)
    requires Lengths(g, a, b, met, order, routes) && FirstMet(g, a, b, met, d)
    requires m in Midpoints(g, a.origin, b.origin, d)
    ensures exists i :: 0 <= i < |routes| && |routes[i]| == d + 1 && m in routes[i]
  {
  }

  lemma SearchGivesGoodRoutes(g: Multigraph, a: Side, b: Side, met: set<ui32>, na: nat, nb: nat,
                              order: seq<ui32>, routes: seq<Route>)
    requires Symmetric(g) && SearchOk(g, a, b, met, na, nb) && na + nb <= MAX_EDGES
    requires Complete(g, a, b, met, MAX_EDGES) && !Edge(g, a.origin, b.origin)
    requires RoutesThrough(a.reverse, b.reverse, a.origin, b.origin, met, order, routes)
    ensures GoodRoutes(g, a.origin, b.origin, routes)
  {
    hide SearchOk, Neighbours, Ball, Midpoints, Symmetric, IsRoute, IsSimplePath, FirstMet;
    RoutesHaveLengths(g, a, b, met, na, nb, order, routes);
    if routes != [] {
      assert order[0] in met;
    }
    if met != {} {
      var v :| v in met;
      assert v in order;
    }
    forall d, m | && 0 <= d <= MAX_EDGES && AtDistance(g, a.origin, b.origin, d)
                  && m in Midpoints(g, a.origin, b.origin, d)
      ensures exists i :: 0 <= i < |routes| && |routes[i]| == d + 1 && m in routes[i]
    {
      ShortestAmongRoutes(g, a, b, met, order, routes, d, m);
    }
  }

  lemma {:induction false} CountOf(order: seq<ui32>, met: set<ui32>)
    requires NoRepeats(order) && forall v :: v in met <==> v in order
    ensures |order| == |met|
    decreases |order|
  {
    if order == [] {
      assert met == {};
    } else {
      var n := |order| - 1;
      assert order == order[..n] + [order[n]];
      CountOf(order[..n], met - {order[n]});
    }
  }

  lemma ViaAsMet(g: Multigraph, a: Side, b: Side, met: set<ui32>, metAt: map<ui32, nat>, order: seq<ui32>,
                 routes: seq<Route>, h: nat, v: ui32)
    requires Lengths(g, a, b, met, order, routes) && Lawful(a, b, met, metAt)
    ensures HasRouteVia(routes, h, v) <==> v in metAt && metAt[v] == h
  {
    if v in metAt && metAt[v] == h {
      var i :| 0 <= i < |order| && order[i] == v;
      assert |routes[i]| - 1 == h;
    }
  }

  ghost function MetAmong(metAt: map<ui32, nat>, order: seq<ui32>, h: nat): set<ui32> {
    set v | v in order && v in metAt && metAt[v] == h
  }

  lemma AmongOneMore(metAt: map<ui32, nat>, order: seq<ui32>, v: ui32, h: nat)
    requires v in metAt && v !in order
    ensures |MetAmong(metAt, order + [v], h)| == |MetAmong(metAt, order, h)| + if metAt[v] == h then 1 else 0
  {
    var some, all := MetAmong(metAt, order, h), MetAmong(metAt, order + [v], h);
    if metAt[v] == h {
      assert all == some + {v};
    } else {
      assert all == some;
    }
  }

  lemma {:induction false} HowManyAsMet(order: seq<ui32>, routes: seq<Route>, metAt: map<ui32, nat>, h: nat)
    requires |routes| == |order| && NoRepeats(order)
    requires forall i :: 0 <= i < |order| ==> order[i] in metAt && |routes[i]| - 1 == metAt[order[i]]
    ensures HowMany(routes, h) == |MetAmong(metAt, order, h)|
    decreases |order|
  {
    hide MetAmong;
    if order == [] {
      AmongNone(metAt, h);
    } else {
      var n := |order| - 1;
      HowManyAsMet(order[..n], routes[..n], metAt, h);
      assert order == order[..n] + [order[n]];
      AmongOneMore(metAt, order[..n], order[n], h);
    }
  }

  lemma AmongNone(metAt: map<ui32, nat>, h: nat)
    ensures MetAmong(metAt, [], h) == {}
  {
  }

  lemma RoutesAsMet(g: Multigraph, a: Side, b: Side, met: set<ui32>, metAt: map<ui32, nat>, order: seq<ui32>,
                    routes: seq<Route>, t: Trail)
    requires Lengths(g, a, b, met, order, routes) && NoRepeats(order)
    requires Lawful(a, b, met, metAt) && t.met == met && t.metAt == metAt
    ensures AsMet(routes, t)
  {
    CountOf(order, met);
    forall h: nat, v
      ensures HasRouteVia(routes, h, v) <==> v in metAt && metAt[v] == h
    {
      ViaAsMet(g, a, b, met, metAt, order, routes, h, v);
    }
    forall h: nat
      ensures HowMany(routes, h) == |MetDuring(metAt, h)|
    {
      HowManyAsMet(order, routes, metAt, h);
      assert MetDuring(metAt, h) == MetAmong(metAt, order, h);
    }
    forall h: nat
      ensures HasRouteOf(routes, h) <==> MetIn(metAt, h)
    {
      if HasRouteOf(routes, h) {
        var i :| 0 <= i < |routes| && |routes[i]| - 1 == h;
        assert metAt[order[i]] == h;
      }
      if MetIn(metAt, h) {
        var v :| v in metAt && metAt[v] == h;
        var i :| 0 <= i < |order| && order[i] == v;
        assert |routes[i]| - 1 == h;
      }
    }
  }

  lemma RoutesCutShortWalks(g: Multigraph, a: Side, b: Side, met: set<ui32>, na: nat, nb: nat, order: seq<ui32>,
                            routes: seq<Route>, p: seq<ui32>)
    requires Symmetric(g) && SearchOk(g, a, b, met, na, nb) && !Edge(g, a.origin, b.origin)
    requires Lengths(g, a, b, met, order, routes)
    requires IsWalk(g, p, a.origin, b.origin)
    requires |p| - 1 <= na + nb || Found(g, a) == {} || Found(g, b) == {}
    ensures Crosses(p, a.origin, b.origin, routes)
  {
    hide SearchOk, Found, Symmetric, IsWalk;
    if |p| - 1 <= na + nb {
      ShortWalksAreCut(g, a, b, met, na, nb, p);
    } else {
      DrySideCutsAllWalks(g, a, b, met, na, nb, p);
    }
    var j :| 0 <= j < |p| && p[j] in met;
    if p[j] == a.origin || p[j] == b.origin {
      EndpointMetMeansAdjacent(g, a, b, met, na, nb, p[j]);
    }
    var i :| 0 <= i < |order| && order[i] == p[j];
    assert p[j] in routes[i];
  }

  /** Every walk that passes through no intersection but that of a rebuilt route is at least as long. */
  lemma RoutesAreShortest(g: Multigraph, a: Side, b: Side, met: set<ui32>, na: nat, nb: nat, order: seq<ui32>,
                          routes: seq<Route>, i: int, p: seq<ui32>)
    requires Symmetric(g) && SearchOk(g, a, b, met, na, nb)
    requires Lengths(g, a, b, met, order, routes) && 0 <= i < |routes|
    requires IsWalk(g, p, a.origin, b.origin) && forall x :: x in p && x in met ==> x == order[i]
    ensures |p| >= |routes[i]|
  {
    hide SearchOk, Symmetric, IsWalk;
    NoShorterWalk(g, a, b, met, na, nb, order[i], p);
  }

  lemma RouteThroughIntersection(g: Multigraph, a: Side, b: Side, met: set<ui32>, na: nat, nb: nat, v: ui32, r: Route)
    requires Symmetric(g) && SearchOk(g, a, b, met, na, nb) && !Edge(g, a.origin, b.origin)
    requires v in met && IsRoute(a.reverse, b.reverse, a.origin, b.origin, v, r)
    ensures IsSimplePath(g, r, a.origin, b.origin) && 3 <= |r| <= na + nb + 1
    ensures |r| == a.gen[v] + b.gen[v] + 1 && r[|r| / 2] == v
  {
    if v == a.origin || v == b.origin {
      EndpointMetMeansAdjacent(g, a, b, met, na, nb, v);
    }
    RouteIsSimplePath(g, a, b, met, na, nb, v, r);
  }

  lemma TwinGivesTwinOnly(g: Multigraph, a: Side, b: Side, met: set<ui32>, na: nat, nb: nat,
                          order: seq<ui32>, routes: seq<Route>)
    requires TwinOk(g, a, b, met, na, nb) && met == Around(g, a.origin)
    requires RoutesThrough(a.reverse, b.reverse, a.origin, b.origin, met, order, routes)
    ensures TwinOnly(g, a.origin, routes)
  {
    hide IsRoute, TwinOk, Around;
    TwinRoutes(g, a, b, met, na, nb);
    var s := a.origin;
    forall i | 0 <= i < |routes|
      ensures order[i] in met && routes[i] == [s, order[i], s]
    {
    }
    forall i, j | 0 <= i < j < |routes|
      ensures routes[i] != routes[j]
    {
      assert routes[i][1] == order[i] && routes[j][1] == order[j];
    }
    forall v | v in met
      ensures [s, v, s] in routes
    {
      var i :| 0 <= i < |order| && order[i] == v;
      assert routes[i] == [s, v, s];
    }
  }

  /** Our neighbours: the targets for which rebuilding the routes never ends. */
  ghost predicate Unroutable(g: Multigraph, targetIP: ui32) {
    targetIP != OUR_IP && Edge(g, OUR_IP, targetIP)
  }

  /** In terms of what was traced: the search for `t` never ends exactly when `t` is the first host
      that answers in some accepted trace. */
  lemma UnroutableIffFirstHop(history: seq<seq<ui32>>, t: ui32)
    ensures Unroutable(AfterTraces(multiset{}, history), t) <==> exists h :: h in history && FirstHop(h, t)
  {
    hide AfterTraces;
    NeighboursAreFirstHops(history, t);
    HistoryKeepsGraph(history);
  }

  /** One host that answered is enough to make it unroutable. */
  lemma NeighbourNeverFound(t: ui32)
    requires t != OUR_IP
    ensures Unroutable(AfterTraces(multiset{}, [[t]]), t)
  {
    hide AfterTraces;
    AlreadyNormal([t]);
    assert [[t]][0] in [[t]] && FirstHop([t], t);
    UnroutableIffFirstHop([[t]], t);
  }

  /** After a search from us, all the loops that rebuild routes stop exactly when the target is not
      one of our neighbours. */
  lemma LoopsStopIffRoutable(g: Multigraph, a: Side, b: Side, met: set<ui32>, na: nat, nb: nat, radius: nat)
    requires a.origin == OUR_IP && radius >= 1
    requires if b.origin == OUR_IP then TwinOk(g, a, b, met, na, nb) && met == Around(g, OUR_IP)
             else SearchOk(g, a, b, met, na, nb) && Complete(g, a, b, met, radius)
    ensures (forall v :: v in met ==> Returns(a.reverse, v, a.origin) && Returns(b.reverse, v, b.origin))
              <==> !Unroutable(g, b.origin)
  {
    hide SearchOk, Complete, TwinOk, Around, Returns;
    if b.origin == OUR_IP {
      TwinRoutes(g, a, b, met, na, nb);
      RebuildableReturns(a, b, met);
    } else if Edge(g, OUR_IP, b.origin) {
      AdjacentNeverReturns(g, a, b, met, na, nb, radius);
    } else {
      NonAdjacentRebuildable(g, a, b, met, na, nb);
      RebuildableReturns(a, b, met);
    }
  }

  /** Up to ten edges, a shortest route is among those found. */
  lemma ShortestRouteFound(g: Multigraph, a: ui32, b: ui32, routes: seq<Route>, d: nat)
    requires Symmetric(g) && GoodRoutes(g, a, b, routes) && AtDistance(g, a, b, d) && d <= MAX_EDGES
    ensures exists i :: 0 <= i < |routes| && |routes[i]| == d + 1
    ensures forall i :: 0 <= i < |routes| ==> |routes[i]| >= d + 1
  {
    BallsMeet(g, a, b, (d + 1) / 2, d / 2);
    assert (d + 1) / 2 + d / 2 == d;
    assert Midpoints(g, a, b, d) != {};
    var m :| m in Midpoints(g, a, b, d);
    DistanceIsShortestWalk(g, a, b, d);
    forall i | 0 <= i < |routes|
      ensures |routes[i]| >= d + 1
    {
      assert IsSimplePath(g, routes[i], a, b);
    }
  }

  class Router {
    const topology: Topology
    ghost var history: seq<seq<ui32>>

    constructor ()
      ensures Valid() && history == [] && fresh(topology)
    {
      topology := new Topology();
      history := [];
    }

    /** The graph is what the traces seen so far have taught. */
    ghost predicate Valid()
      reads this, topology
    {
      topology.ipGraph == AfterTraces(multiset{}, history)
    }

    /** A trace in which some address answers again after another one teaches nothing; from any other
        the graph learns the hops between the answers, the first from vertex 0. */
    method TakeTrace(trace: Vector)
      requires Valid()
      modifies this, topology, trace
      ensures Valid() && history == old(history) + [old(trace.items)]
      ensures trace.items == Normalized(old(trace.items))
      ensures var s := old(trace.items);
              (exists i, j, k :: 0 <= i < j < k < |s| && s[i] == s[k] != 0 && s[j] != 0 && s[j] != s[i]) ==>
                topology.ipGraph == old(topology.ipGraph)
      ensures var s := old(trace.items);
              !(exists i, j, k :: 0 <= i < j < k < |s| && s[i] == s[k] != 0 && s[j] != 0 && s[j] != s[i]) ==>
                forall u: ui32, v: ui32 ::
                  Edge(topology.ipGraph, u, v) <==>
                    Edge(old(topology.ipGraph), u, v) || IsHop(0, trace.items, u, v)
    {
      RecursMeans(trace.items);
      hide Normalized, IsHop, AfterTraces, Edge, Recurs;
      HistoryKeepsGraph(history);
      AfterTracesAppend(multiset{}, history, trace.items);
      history := history + [trace.items];
      topology.Learn(trace);
    }

    method FindRoutesIP(targetIP: ui32, routes: seq<Route>) returns (result: seq<Route>)
      requires Valid() && !Unroutable(topology.ipGraph, targetIP)
      ensures routes <= result
      ensures targetIP != 0 ==> Promised(topology.ipGraph, targetIP, result[|routes|..])
      ensures targetIP == 0 ==>
                && (forall r :: r in result[|routes|..] ==>
                      |r| == 3 && r[0] == r[2] == 0 && Edge(topology.ipGraph, 0, r[1]))
                && (forall v: ui32 :: Edge(topology.ipGraph, 0, v) ==> [0, v, 0] in result[|routes|..])
      ensures targetIP != OUR_IP ==>
                var g, found := topology.ipGraph, result[|routes|..];
                && GoodRoutes(g, OUR_IP, targetIP, found)
                && FromRun(g, OUR_IP, targetIP, IP_ROUTES_TO_SEARCH, found)
                && ByWalks(g, OUR_IP, targetIP, IP_ROUTES_TO_SEARCH, found)
                && LocallyShortest(g, OUR_IP, targetIP, IP_ROUTES_TO_SEARCH, found)
                && Exhaustive(g, OUR_IP, targetIP, IP_ROUTES_TO_SEARCH, found)
      ensures targetIP == OUR_IP ==> TwinOnly(topology.ipGraph, OUR_IP, result[|routes|..])
    {
      hide SearchOk, Complete, Progress, TwinOk, Around, GoodRoutes, FromRun, Exhaustive, TwinOnly, RoutesThrough;
      hide ByWalks, LocallyShortest, Promised;
      hide Halts, TrailAfter, Lawful, Found, Rebuildable, Returns, Bare;
      ghost var g := topology.ipGraph;
      HistoryKeepsGraph(history);
      var search := new Search(OUR_IP, targetIP);
      search.FindIntersections(topology.ipGraph, IP_ROUTES_TO_SEARCH);
      ghost var a, b, met, na, nb := search.a.View(), search.b.View(), search.intersections, search.na, search.nb;
      ghost var metAt := search.metAt;
      search.HaltsHere(g, IP_ROUTES_TO_SEARCH);
      if targetIP != OUR_IP {
        NonAdjacentRebuildable(g, a, b, met, na, nb);
      } else {
        TwinRoutes(g, a, b, met, na, nb);
      }
      RebuildableReturns(a, b, met);
      ghost var order;
      result, order := search.ReverseRoutes(routes);
      if targetIP != OUR_IP {
        SearchGivesGoodRoutes(g, a, b, met, na, nb, order, result[|routes|..]);
        SearchGivesRun(g, a, b, met, metAt, na, nb, order, result[|routes|..], IP_ROUTES_TO_SEARCH);
        RunGivesWalks(g, OUR_IP, targetIP, IP_ROUTES_TO_SEARCH, result[|routes|..]);
        SearchIsLocallyShortest(g, a, b, met, metAt, na, nb, order, result[|routes|..], IP_ROUTES_TO_SEARCH);
        MiddlesDiffer(g, a, b, met, na, nb, order, result[|routes|..]);
        SearchKeepsPromise(g, targetIP, result[|routes|..]);
      } else {
        TwinGivesTwinOnly(g, a, b, met, na, nb, order, result[|routes|..]);
        TwinPlainly(g, result[|routes|..]);
      }
    }
  }

  lemma TwinPlainly(g: Multigraph, found: seq<Route>)
    requires TwinOnly(g, 0, found) && !Edge(g, 0, 0)
    ensures forall r :: r in found ==> |r| == 3 && r[0] == r[2] == 0 && Edge(g, 0, r[1])
    ensures forall v: ui32 :: Edge(g, 0, v) ==> [0, v, 0] in found
  {
    forall v: ui32
      ensures v in Around(g, 0) <==> Edge(g, 0, v)
    {
      InNeighbours(g, {0}, v);
    }
  }

  ghost predicate DistinctMiddles(routes: seq<Route>) {
    forall i, j :: 0 <= i < j < |routes| ==>
      routes[i] != [] && routes[j] != [] && routes[i][|routes[i]| / 2] != routes[j][|routes[j]| / 2]
  }

  lemma MiddlesDiffer(g: Multigraph, a: Side, b: Side, met: set<ui32>, na: nat, nb: nat, order: seq<ui32>,
                      routes: seq<Route>)
    requires Symmetric(g) && SearchOk(g, a, b, met, na, nb) && !Edge(g, a.origin, b.origin)
    requires RoutesThrough(a.reverse, b.reverse, a.origin, b.origin, met, order, routes)
    ensures DistinctMiddles(routes)
  {
    hide SearchOk, Symmetric, IsRoute, IsSimplePath;
    RoutesHaveLengths(g, a, b, met, na, nb, order, routes);
    forall i, j | 0 <= i < j < |routes|
      ensures routes[i] != [] && routes[j] != [] && routes[i][|routes[i]| / 2] != routes[j][|routes[j]| / 2]
    {
      assert order[i] != order[j];
    }
  }

  lemma SearchKeepsPromise(g: Multigraph, target: ui32, found: seq<Route>)
    requires Symmetric(g) && target != OUR_IP
    requires GoodRoutes(g, OUR_IP, target, found) && DistinctMiddles(found)
    requires ByWalks(g, OUR_IP, target, IP_ROUTES_TO_SEARCH, found)
    requires Exhaustive(g, OUR_IP, target, IP_ROUTES_TO_SEARCH, found)
    ensures Promised(g, target, found)
  {
    hide IsSimplePath, IsWalk, Symmetric, ByWalks, ShortMiddles;
    forall p | IsWalk(g, p, 0, target) && |p| <= 11
      ensures exists r :: r in found && |r| <= |p|
    {
      SomeRouteNoLonger(g, target, found, p);
    }
    forall p | |found| < 10 && IsWalk(g, p, 0, target) && |p| <= 11
      ensures exists r, x :: r in found && x in r && x in p && x != 0 && x != target
    {
      assert Crosses(p, 0, target, found);
      var i, j :| 0 <= i < |found| && 0 <= j < |p| && p[j] != 0 && p[j] != target && p[j] in found[i];
      assert found[i] in found && p[j] in p;
    }
    forall k: nat, r | 1 <= k <= 4 && r in found && |r| - 1 > 2 * k
      ensures |ShortMiddles(found, k)| < 10
    {
      FewShortMiddles(g, target, found, k, r);
    }
  }

  lemma SomeRouteNoLonger(g: Multigraph, target: ui32, found: seq<Route>, p: seq<ui32>)
    requires Symmetric(g) && GoodRoutes(g, OUR_IP, target, found)
    requires IsWalk(g, p, OUR_IP, target) && |p| <= MAX_EDGES + 1
    ensures exists r :: r in found && |r| <= |p|
  {
    hide GoodRoutes, Symmetric;
    var n := NearestBall(g, OUR_IP, target, |p| - 1, p);
    ShortestRouteFound(g, OUR_IP, target, found, n);
    var i :| 0 <= i < |found| && |found[i]| == n + 1;
    assert found[i] in found;
  }

  lemma {:induction false} NearestBall(g: Multigraph, a: ui32, b: ui32, n: nat, p: seq<ui32>) returns (d: nat)
    requires IsWalk(g, p, a, b) && |p| <= n + 1
    ensures AtDistance(g, a, b, d) && d <= n
    decreases n
  {
    BallIffWalk(g, a, b, n);
    if n > 0 && b in Ball(g, a, n - 1) {
      BallIffWalk(g, a, b, n - 1);
      var q :| IsWalk(g, q, a, b) && |q| <= n - 1 + 1;
      d := NearestBall(g, a, b, n - 1, q);
    } else {
      d := n;
    }
  }

  lemma FewShortMiddles(g: Multigraph, target: ui32, found: seq<Route>, k: nat, r: Route)
    requires ByWalks(g, OUR_IP, target, IP_ROUTES_TO_SEARCH, found)
    requires 1 <= k <= 4 && r in found && |r| - 1 > 2 * k
    ensures |ShortMiddles(found, k)| < 10
  {
    hide Middles, MiddlesAt, HowMany;
    var i :| 0 <= i < |found| && found[i] == r;
    assert HasRouteVia(found, |r| - 1, r[|r| / 2]);
    assert Reach(g, OUR_IP, target, IP_ROUTES_TO_SEARCH) > 2 * k;
    forall v | v in ShortMiddles(found, k)
      ensures v in Middles(g, OUR_IP, target, 2 * k)
    {
      var q :| q in found && 0 < |q| <= 2 * k + 1 && v == q[|q| / 2];
      assert HasRouteVia(found, |q| - 1, v);
      MiddlesGrow(g, OUR_IP, target, |q| - 1, 2 * k);
    }
    SubsetSize(ShortMiddles(found, k), Middles(g, OUR_IP, target, 2 * k));
    if |Middles(g, OUR_IP, target, 2 * k)| >= IP_ROUTES_TO_SEARCH {
      RoundsEnough(g, OUR_IP, target, IP_ROUTES_TO_SEARCH, 1, k);
    }
  }

  lemma SearchGivesRun(g: Multigraph, a: Side, b: Side, met: set<ui32>, metAt: map<ui32, nat>, na: nat, nb: nat,
                       order: seq<ui32>, routes: seq<Route>, limit: nat)
    requires Symmetric(g) && SearchOk(g, a, b, met, na, nb) && !Edge(g, a.origin, b.origin)
    requires RoutesThrough(a.reverse, b.reverse, a.origin, b.origin, met, order, routes)
    requires Lawful(a, b, met, metAt)
    requires Turns(na, nb) && StopsAt(g, a.origin, b.origin, limit, na, nb)
    requires TrailAfter(g, a.origin, b.origin, na, nb) == Trail(Bare(a), Bare(b), met, metAt)
    requires |met| >= limit || na + nb >= MAX_EDGES || Found(g, a) == {} || Found(g, b) == {}
    ensures FromRun(g, a.origin, b.origin, limit, routes) && Exhaustive(g, a.origin, b.origin, limit, routes)
  {
    hide SearchOk, Found, Symmetric, StopsAt, TrailAfter, Lawful, IsWalk, IsRoute, Crosses, AsMet, Lengths;
    RoutesHaveLengths(g, a, b, met, na, nb, order, routes);
    RoutesAsMet(g, a, b, met, metAt, order, routes, TrailAfter(g, a.origin, b.origin, na, nb));
    CountOf(order, met);
    if |routes| < limit {
      forall p | IsWalk(g, p, a.origin, b.origin) && |p| <= MAX_EDGES + 1
        ensures Crosses(p, a.origin, b.origin, routes)
      {
        RoutesCutShortWalks(g, a, b, met, na, nb, order, routes, p);
      }
    }
  }

  /** In terms of walks: what any finished run of a search between different endpoints gives. */
  lemma RunGivesWalks(g: Multigraph, a: ui32, b: ui32, limit: nat, routes: seq<Route>)
    requires Symmetric(g) && a != b && FromRun(g, a, b, limit, routes)
    ensures ByWalks(g, a, b, limit, routes)
  {
    hide StopsAt, TrailAfter, Symmetric, AsMet, ByMiddles, Reach;
    var na: nat, nb: nat :| Turns(na, nb) && StopsAt(g, a, b, limit, na, nb) &&
                            AsMet(routes, TrailAfter(g, a, b, na, nb));
    FinishedByMiddles(g, a, b, limit, na, nb);
    MetGivesWalks(g, a, b, limit, routes, TrailAfter(g, a, b, na, nb));
  }

  lemma MetGivesWalks(g: Multigraph, a: ui32, b: ui32, limit: nat, routes: seq<Route>, t: Trail)
    requires AsMet(routes, t) && ByMiddles(g, a, b, t, Reach(g, a, b, limit))
    ensures ByWalks(g, a, b, limit, routes)
  {
    hide Reach, Middles, MiddlesAt, HasRouteVia, HowMany;
    var reach := Reach(g, a, b, limit);
    forall h: nat
      ensures MetDuring(t.metAt, h) == if h <= reach then MiddlesAt(g, a, b, h) else {}
    {
    }
  }

  lemma SearchIsLocallyShortest(g: Multigraph, a: Side, b: Side, met: set<ui32>, metAt: map<ui32, nat>,
                                na: nat, nb: nat, order: seq<ui32>, routes: seq<Route>, limit: nat)
    requires Symmetric(g) && SearchOk(g, a, b, met, na, nb) && !Edge(g, a.origin, b.origin)
    requires RoutesThrough(a.reverse, b.reverse, a.origin, b.origin, met, order, routes)
    requires Turns(na, nb) && StopsAt(g, a.origin, b.origin, limit, na, nb)
    requires TrailAfter(g, a.origin, b.origin, na, nb) == Trail(Bare(a), Bare(b), met, metAt)
    ensures LocallyShortest(g, a.origin, b.origin, limit, routes)
  {
    hide SearchOk, Symmetric, StopsAt, TrailAfter, Bare, IsWalk, IsRoute, ByMiddles, Reach;
    RoutesHaveLengths(g, a, b, met, na, nb, order, routes);
    assert a.origin != b.origin by {
      EndsDiffer(g, a, b, met, na, nb);
    }
    FinishedByMiddles(g, a.origin, b.origin, limit, na, nb);
    MetIsMiddles(g, a.origin, b.origin, TrailAfter(g, a.origin, b.origin, na, nb), Reach(g, a.origin, b.origin, limit));
    forall i, p | 0 <= i < |routes| && IsWalk(g, p, a.origin, b.origin) && |p| < |routes[i]|
      ensures Cut(p, met - {order[i]})
    {
      if !Cut(p, met - {order[i]}) {
        RoutesAreShortest(g, a, b, met, na, nb, order, routes, i, p);
      }
    }
  }

  lemma EndsDiffer(g: Multigraph, a: Side, b: Side, met: set<ui32>, na: nat, nb: nat)
    requires SearchOk(g, a, b, met, na, nb)
    ensures a.origin != b.origin
  {
  }

  lemma RebuildableReturns(a: Side, b: Side, met: set<ui32>)
    requires Rebuildable(a, b, met)
    ensures forall v :: v in met ==> Returns(a.reverse, v, a.origin) && Returns(b.reverse, v, b.origin)
  {
  }

  lemma {:induction false} AfterTracesAppend(g: Multigraph, history: seq<seq<ui32>>, h: seq<ui32>)
    ensures AfterTraces(g, history + [h]) == AfterTraces(AfterTraces(g, history), [h])
    decreases |history|
  {
    if history == [] {
      assert history + [h] == [h];
    } else {
      var first := history[0];
      assert (history + [h])[1..] == history[1..] + [h];
      AfterTracesAppend(if Accepted(first) then WithRoute(g, OUR_IP, Normalized(first)) else g, history[1..], h);
    }
  }

  /** A found route fits an options field: 40 bytes at most, exactly 40 for ten edges, and the
      field decodes to the route's interior with nothing consumed yet. */
  lemma FoundRouteFitsOption(g: Multigraph, b: ui32, routes: seq<Route>, i: int, bytes: seq<ui8>)
    requires GoodRoutes(g, OUR_IP, b, routes) && 0 <= i < |routes|
    requires |routes[i]| >= 2 && LsrrOption.Encodes(bytes, routes[i])
    ensures |bytes| <= LsrrOption.MAX_OPTION_BYTES
    ensures |bytes| == LsrrOption.MAX_OPTION_BYTES <==> |routes[i]| - 1 == MAX_EDGES
    ensures LsrrOption.Decode(bytes) ==
              Some(LsrrOption.SourceRoute(4, LsrrOption.Interior(routes[i])))
  {
    LsrrOption.DecodesIff(bytes, routes[i]);
  }

  // ----- two routes

  /** The undirected edges of a ring of five, as the traces [1, 2] and [3, 4, 2] teach them. */
  ghost predicate OnRing(u: ui32, v: ui32) {
    (u, v) in {(0, 1), (1, 0), (1, 2), (2, 1), (0, 3), (3, 0), (3, 4), (4, 3), (4, 2), (2, 4)}
  }

  lemma RingTraces()
    ensures Accepted([1, 2]) && Normalized([1, 2]) == [1, 2]
    ensures Accepted([3, 4, 2]) && Normalized([3, 4, 2]) == [3, 4, 2]
  {
    hide Recurs;
    AlreadyNormal([1, 2]);
    AcceptedIffNoRepeats([1, 2]);
    AlreadyNormal([3, 4, 2]);
    AcceptedIffNoRepeats([3, 4, 2]);
  }

  lemma RingEdges(u: ui32, v: ui32)
    ensures OnRing(u, v) <==> (u, v) in EdgesFrom(OUR_IP, [1, 2]) || (u, v) in EdgesFrom(OUR_IP, [3, 4, 2])
  {
    assert EdgesFrom(OUR_IP, [1, 2]) == {(0, 1), (1, 0), (1, 2), (2, 1)};
    assert EdgesFrom(OUR_IP, [3, 4, 2]) == {(0, 3), (3, 0), (3, 4), (4, 3), (4, 2), (2, 4)};
  }

  lemma RingGraph()
    ensures forall u: ui32, v: ui32 :: Edge(AfterTraces(multiset{}, [[1, 2], [3, 4, 2]]), u, v) <==> OnRing(u, v)
  {
    hide AfterTraces, Accepted, Normalized, EdgesFrom, OnRing;
    var history: seq<seq<ui32>> := [[1, 2], [3, 4, 2]];
    LearnedGraph(history);
    RingTraces();
    assert history[0] in history && history[1] in history;
    forall u: ui32, v: ui32
      ensures Edge(AfterTraces(multiset{}, history), u, v) <==> OnRing(u, v)
    {
      RingEdges(u, v);
    }
  }

  /** Round the ring there are two ways from 0 to 2. */
  lemma RingPaths(g: Multigraph, r: Route)
    requires forall u: ui32, v: ui32 :: Edge(g, u, v) <==> OnRing(u, v)
    requires IsSimplePath(g, r, 0, 2)
    ensures r == [0, 1, 2] || r == [0, 3, 4, 2]
  {
    assert |r| > 1 && OnRing(r[0], r[0 + 1]);
    assert |r| > 2 && OnRing(r[1], r[1 + 1]);
    if r[1] == 3 {
      assert |r| > 3 && OnRing(r[2], r[2 + 1]);
    }
  }

  lemma RingWalks(g: Multigraph)
    requires forall u: ui32, v: ui32 :: Edge(g, u, v) <==> OnRing(u, v)
    ensures IsWalk(g, [0, 1, 2], 0, 2) && IsWalk(g, [0, 3, 4, 2], 0, 2)
  {
  }

  lemma ThreeDiffer(found: seq<Route>)
    requires DistinctMiddles(found)
    ensures |found| > 2 ==> found[0] != found[1] && found[1] != found[2] && found[0] != found[2]
  {
  }

  lemma AtMostTwo(found: seq<Route>, short: Route, long: Route)
    requires DistinctMiddles(found)
    requires forall i :: 0 <= i < |found| ==> found[i] == short || found[i] == long
    ensures |found| <= 2
  {
    hide DistinctMiddles;
    ThreeDiffer(found);
  }

  lemma PromisedCrossing(g: Multigraph, target: ui32, found: seq<Route>, p: seq<ui32>) returns (r: Route, x: ui32)
    requires Promised(g, target, found) && |found| < 10 && IsWalk(g, p, 0, target) && |p| <= 11
    ensures r in found && x in r && x in p && x != 0 && x != target
  {
    hide IsWalk, IsSimplePath;
    r, x :| r in found && x in r && x in p && x != 0 && x != target;
  }

  lemma PromisedMiddles(g: Multigraph, target: ui32, found: seq<Route>)
    requires Promised(g, target, found)
    ensures DistinctMiddles(found)
    ensures forall i :: 0 <= i < |found| ==> IsSimplePath(g, found[i], 0, target)
  {
    hide IsWalk, IsSimplePath;
  }

  /** The two ways share their ends only. */
  lemma SharedMeansSame(r: Route, p: Route, x: ui32)
    requires (r == [0, 1, 2] || r == [0, 3, 4, 2]) && (p == [0, 1, 2] || p == [0, 3, 4, 2])
    requires x in r && x in p && x != 0 && x != 2
    ensures r == p
  {
  }

  lemma OnlyTheseWays(g: Multigraph, found: seq<Route>)
    requires forall u: ui32, v: ui32 :: Edge(g, u, v) <==> OnRing(u, v)
    requires Promised(g, 2, found)
    ensures forall i :: 0 <= i < |found| ==> found[i] == [0, 1, 2] || found[i] == [0, 3, 4, 2]
    ensures |found| <= 2
  {
    hide OnRing, IsSimplePath, Promised, DistinctMiddles, Edge;
    PromisedMiddles(g, 2, found);
    forall i | 0 <= i < |found|
      ensures found[i] == [0, 1, 2] || found[i] == [0, 3, 4, 2]
    {
      RingPaths(g, found[i]);
    }
    AtMostTwo(found, [0, 1, 2], [0, 3, 4, 2]);
  }

  lemma WayKept(g: Multigraph, found: seq<Route>, p: Route)
    requires Promised(g, 2, found) && |found| <= 2 && IsWalk(g, p, 0, 2)
    requires forall i :: 0 <= i < |found| ==> found[i] == [0, 1, 2] || found[i] == [0, 3, 4, 2]
    requires p == [0, 1, 2] || p == [0, 3, 4, 2]
    ensures p in found
  {
    hide IsWalk, Promised;
    var r, x := PromisedCrossing(g, 2, found, p);
    SharedMeansSame(r, p, x);
  }

  lemma BothWaysKept(g: Multigraph, found: seq<Route>)
    requires forall u: ui32, v: ui32 :: Edge(g, u, v) <==> OnRing(u, v)
    requires Promised(g, 2, found)
    ensures |found| == 2 && [0, 1, 2] in found && [0, 3, 4, 2] in found
  {
    RingWalks(g);
    hide OnRing, IsWalk, Promised, Edge;
    OnlyTheseWays(g, found);
    WayKept(g, found, [0, 1, 2]);
    WayKept(g, found, [0, 3, 4, 2]);
    if |found| == 1 {
      OneCannotBeBoth(found);
    }
  }

  lemma OneCannotBeBoth(found: seq<Route>)
    requires |found| == 1
    ensures !([0, 1, 2] in found && [0, 3, 4, 2] in found)
  {
  }

  /** After these two traces both ways are found: one short route is not enough to stop for. */
  lemma BothWaysFound(found: seq<Route>)
    ensures !Unroutable(AfterTraces(multiset{}, [[1, 2], [3, 4, 2]]), 2)
    ensures Promised(AfterTraces(multiset{}, [[1, 2], [3, 4, 2]]), 2, found) ==>
              |found| == 2 && [0, 1, 2] in found && [0, 3, 4, 2] in found
  {
    hide AfterTraces, Edge, Promised;
    var g := AfterTraces(multiset{}, [[1, 2], [3, 4, 2]]);
    RingGraph();
    assert !OnRing(0, 2);
    if Promised(g, 2, found) {
      hide OnRing;
      BothWaysKept(g, found);
    }
  }

  // ----- ten edges, not nine

  /** A ten-edge route is found exactly when the first four rounds leave fewer middles than asked for
      and some walk of ten edges keeps clear of all middles of shorter walks; the latter is so
      whenever the target is ten edges away. */
  lemma TenEdgesIff(g: Multigraph, a: ui32, b: ui32, limit: nat, routes: seq<Route>)
    requires Symmetric(g) && GoodRoutes(g, a, b, routes) && FromRun(g, a, b, limit, routes)
    ensures HasRouteOf(routes, 2 * ROUNDS) <==>
              && |Middles(g, a, b, 2 * ROUNDS - 2)| < limit
              && exists p :: IsWalk(g, p, a, b) && |p| - 1 == 2 * ROUNDS && !Cut(p, Middles(g, a, b, 2 * ROUNDS - 1))
    ensures HasRouteOf(routes, 2 * ROUNDS) <==>
              Reached(g, a, b, limit, ROUNDS, ROUNDS) &&
              MetIn(TrailAfter(g, a, b, ROUNDS, ROUNDS).metAt, 2 * ROUNDS)
    ensures AtDistance(g, a, b, 2 * ROUNDS) ==> HasRouteOf(routes, 2 * ROUNDS)
  {
    hide GoodRoutes, Reached, TrailAfter, AtDistance, Symmetric, MetIn, FromRun, HasRouteOf;
    GoodEndsDiffer(g, a, b, routes);
    TenEdgesByWalks(g, a, b, limit, routes);
    TenEdgesByRun(g, a, b, limit, routes);
    if AtDistance(g, a, b, 2 * ROUNDS) {
      ShortestRouteFound(g, a, b, routes, 2 * ROUNDS);
      RouteOfDistance(routes, 2 * ROUNDS);
    }
  }

  lemma SimplePathEnds(g: Multigraph, p: seq<ui32>, a: ui32, b: ui32)
    requires IsSimplePath(g, p, a, b) && |p| > 1
    ensures a != b
  {
  }

  lemma GoodEndsDiffer(g: Multigraph, a: ui32, b: ui32, routes: seq<Route>)
    requires GoodRoutes(g, a, b, routes)
    ensures a != b
  {
    BallMonotone(g, a, 0, MAX_EDGES);
    if routes != [] {
      SimplePathEnds(g, routes[0], a, b);
    }
  }

  lemma RouteOfDistance(routes: seq<Route>, d: nat)
    ensures (exists i :: 0 <= i < |routes| && |routes[i]| == d + 1) <==> HasRouteOf(routes, d)
  {
  }

  lemma TenEdgesByRun(g: Multigraph, a: ui32, b: ui32, limit: nat, routes: seq<Route>)
    requires FromRun(g, a, b, limit, routes)
    ensures HasRouteOf(routes, 2 * ROUNDS) <==>
              Reached(g, a, b, limit, ROUNDS, ROUNDS) &&
              MetIn(TrailAfter(g, a, b, ROUNDS, ROUNDS).metAt, 2 * ROUNDS)
  {
    hide Reached, TrailAfter, MetIn;
    var na: nat, nb: nat :| Turns(na, nb) && StopsAt(g, a, b, limit, na, nb) &&
                            AsMet(routes, TrailAfter(g, a, b, na, nb));
    if MetIn(TrailAfter(g, a, b, na, nb).metAt, 2 * ROUNDS) {
      LastHalfStep(g, a, b, limit, na, nb);
    }
    if Reached(g, a, b, limit, ROUNDS, ROUNDS) {
      StopIsUnique(g, a, b, limit, na, nb, ROUNDS, ROUNDS);
    }
  }

  lemma TenEdgesByWalks(g: Multigraph, a: ui32, b: ui32, limit: nat, routes: seq<Route>)
    requires Symmetric(g) && a != b && FromRun(g, a, b, limit, routes)
    ensures HasRouteOf(routes, 2 * ROUNDS) <==>
              && |Middles(g, a, b, 2 * ROUNDS - 2)| < limit
              && exists p :: IsWalk(g, p, a, b) && |p| - 1 == 2 * ROUNDS && !Cut(p, Middles(g, a, b, 2 * ROUNDS - 1))
  {
    hide Symmetric, FromRun, Middles, MiddlesAt, IsWalk, Cut, Reach, HowMany;
    var h, before := 2 * ROUNDS, Middles(g, a, b, 2 * ROUNDS - 1);
    RunGivesWalks(g, a, b, limit, routes);
    FullReachIff(g, a, b, limit);
    if HasRouteOf(routes, h) {
      var i :| 0 <= i < |routes| && |routes[i]| - 1 == h;
      var v := routes[i][|routes[i]| / 2];
      assert HasRouteVia(routes, h, v);
      MiddleIffWalk(g, a, b, h, v);
      var p :| WalkOver(g, a, b, h, before, v, p);
    }
    if h <= Reach(g, a, b, limit) {
      forall p | IsWalk(g, p, a, b) && |p| - 1 == h && !Cut(p, before)
        ensures HasRouteOf(routes, h)
      {
        var v := p[|p| / 2];
        assert WalkOver(g, a, b, h, before, v, p);
        MiddleIffWalk(g, a, b, h, v);
        assert HasRouteVia(routes, h, v);
      }
    }
  }

  /** The trace 1, 2, ..., n. */
  function Line(n: ui8): (s: seq<ui32>)
    ensures |s| == n && forall i :: 0 <= i < n ==> s[i] == i + 1
  {
    seq(n, i requires 0 <= i < n => i + 1)
  }

  lemma LineNormal(n: ui8)
    requires n > 0
    ensures Accepted(Line(n)) && Normalized(Line(n)) == Line(n)
  {
    AlreadyNormal(Line(n));
    AcceptedIffNoRepeats(Line(n));
  }

  /** No edge leads more than one vertex further along the line. */
  lemma {:induction false} BallOnLine(g: Multigraph, n: nat)
    requires forall u: ui32, v: ui32 :: Edge(g, u, v) ==> v as int <= u as int + 1
    ensures forall v :: v in Ball(g, OUR_IP, n) ==> v <= n
  {
    if n > 0 {
      BallOnLine(g, n - 1);
      forall v | v in Ball(g, OUR_IP, n) && v !in Ball(g, OUR_IP, n - 1)
        ensures v <= n
      {
        var u := BallEntry(g, OUR_IP, v, n);
      }
    }
  }

  lemma {:induction false} LineEdges(last: ui32, route: seq<ui32>)
    requires forall i :: 0 <= i < |route| ==> route[i] as int == last as int + 1 + i
    ensures forall e :: e in EdgesFrom(last, route) ==> e.1 as int <= e.0 as int + 1
    decreases |route|
  {
    if route != [] {
      LineEdges(route[0], route[1..]);
    }
  }

  lemma {:induction false} HopsAreEdges(last: ui32, route: seq<ui32>, i: nat)
    requires i < |route|
    ensures (([last] + route)[i], route[i]) in EdgesFrom(last, route)
    decreases |route|
  {
    if i > 0 {
      HopsAreEdges(route[0], route[1..], i - 1);
      assert [route[0]] + route[1..] == route;
    }
  }

  lemma LineGraph(n: ui8)
    requires n > 0
    ensures forall e :: e in AfterTraces(multiset{}, [Line(n)]) <==> e in EdgesFrom(OUR_IP, Line(n))
  {
    var history := [Line(n)];
    LineNormal(n);
    LearnedGraph(history);
    assert LearnedEdges(history) == EdgesFrom(OUR_IP, Line(n)) by {
      assert history[0] in history;
    }
  }

  lemma LineDistance(n: ui8)
    requires n > 0
    ensures AtDistance(AfterTraces(multiset{}, [Line(n)]), OUR_IP, n, n)
  {
    var g, line := AfterTraces(multiset{}, [Line(n)]), Line(n);
    hide AfterTraces, Line, EdgesFrom;
    LineGraph(n);
    LineEdges(OUR_IP, line);
    BallOnLine(g, n - 1);
    var walk := [OUR_IP] + line;
    forall i | 0 <= i < |walk| - 1
      ensures Edge(g, walk[i], walk[i + 1])
    {
      HopsAreEdges(OUR_IP, line, i);
    }
    assert IsWalk(g, walk, OUR_IP, n);
    BallIffWalk(g, OUR_IP, n, n);
  }

  /** One trace of ten hosts in line: any search for the last of them yields a route of ten edges,
      although a comment in the source speaks of nine at most. */
  lemma TenEdgeRoute(routes: seq<Route>)
    ensures !Unroutable(AfterTraces(multiset{}, [Line(10)]), 10)
    ensures GoodRoutes(AfterTraces(multiset{}, [Line(10)]), OUR_IP, 10, routes) ==> HasRouteOf(routes, 10)
  {
    hide AfterTraces, Line, GoodRoutes, AtDistance;
    var g := AfterTraces(multiset{}, [Line(10)]);
    LineNormal(10);
    UnroutableIffFirstHop([Line(10)], 10);
    if GoodRoutes(g, OUR_IP, 10, routes) {
      HistoryKeepsGraph([Line(10)]);
      LineDistance(10);
      ShortestRouteFound(g, OUR_IP, 10, routes, 10);
    }
  }
}
