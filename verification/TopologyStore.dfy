/** The graph learned from traces: topology.h's edge insertion and router.h's route storage. */
module TopologyStore {
  import opened Types
  import opened Graph
  import opened RouteVector

  /** What inserting an undirected edge does to the bag of directed edges. */
  ghost function WithEdge(g: Multigraph, u: ui32, v: ui32): Multigraph {
    if (u, v) in g then g else g + multiset{(u, v), (v, u)}
  }

  ghost function WithRoute(g: Multigraph, last: ui32, route: seq<ui32>): Multigraph
    decreases |route|
  {
    if route == [] then g else WithRoute(WithEdge(g, last, route[0]), route[0], route[1..])
  }

  /** The graph after every accepted trace of a history has been stored. */
  ghost function AfterTraces(g: Multigraph, history: seq<seq<ui32>>): Multigraph
    decreases |history|
  {
    if history == [] then g
    else
      var h := history[0];
      AfterTraces(if Accepted(h) then WithRoute(g, OUR_IP, Normalized(h)) else g, history[1..])
  }

  class Topology {
    var ipGraph: Multigraph

    constructor ()
      ensures ipGraph == multiset{}
    {
      ipGraph := multiset{};
    }

    method AddEdge(id1: ui32, id2: ui32)
      modifies this
      ensures ipGraph == WithEdge(old(ipGraph), id1, id2)
      ensures (id1, id2) in old(ipGraph) ==> ipGraph == old(ipGraph)
      ensures (id1, id2) !in old(ipGraph) ==> ipGraph == old(ipGraph) + multiset{(id1, id2), (id2, id1)}
    {
      var notFound := true;
      var range := ipGraph;
      while range != multiset{} && notFound
        invariant range <= ipGraph
        invariant notFound ==> range[(id1, id2)] == ipGraph[(id1, id2)]
        invariant !notFound ==> (id1, id2) in ipGraph
        decreases |range|
      {
        var e :| e in range;
        range := range - multiset{e};
        if e.0 == id1 && e.1 == id2 {
          notFound := false;
        }
      }
      if notFound {
        ipGraph := ipGraph + multiset{(id1, id2)};
        ipGraph := ipGraph + multiset{(id2, id1)};
      }
    }

    method StoreRoute(route: seq<ui32>)
      modifies this
      ensures ipGraph == WithRoute(old(ipGraph), OUR_IP, route)
      ensures Symmetric(old(ipGraph)) ==>
                forall u: ui32, v: ui32 ::
                  Edge(ipGraph, u, v) <==> Edge(old(ipGraph), u, v) || IsHop(OUR_IP, route, u, v)
    {
      var lastIp := OUR_IP;
      for i := 0 to |route|
        invariant WithRoute(old(ipGraph), OUR_IP, route) == WithRoute(ipGraph, lastIp, route[i..])
      {
        var nextIp := route[i];
        AddEdge(lastIp, nextIp);
        lastIp := nextIp;
      }
      if Symmetric(old(ipGraph)) {
        StoredEdges(old(ipGraph), OUR_IP, route);
      }
    }

    /** One finished trace: normalized in place, and stored if it can be a route. */
    method Learn(trace: Vector)
      modifies this, trace
      ensures ipGraph == AfterTraces(old(ipGraph), [old(trace.items)])
      ensures trace.items == Normalized(old(trace.items))
      ensures Recurs(old(trace.items)) ==> ipGraph == old(ipGraph)
      ensures Symmetric(old(ipGraph)) && !Recurs(old(trace.items)) ==>
                forall u: ui32, v: ui32 ::
                  Edge(ipGraph, u, v) <==> Edge(old(ipGraph), u, v) || IsHop(OUR_IP, trace.items, u, v)
    {
      NoHop(OUR_IP);
      NormalizedEmpty();
      hide Recurs, Normalized, Symmetric, IsHop;
      var ok := trace.ValidateAndNormalizeRoute();
      if ok {
        StoreRoute(trace.items);
      }
    }
  }

  // ----- the stored graph as a set of edges

  /** An edge is added for every hop of the route, and no other. */
  lemma {:induction false} StoredEdges(g: Multigraph, last: ui32, route: seq<ui32>)
    requires Symmetric(g)
    ensures Symmetric(WithRoute(g, last, route))
    ensures forall u: ui32, v: ui32 ::
              Edge(WithRoute(g, last, route), u, v) <==> Edge(g, u, v) || IsHop(last, route, u, v)
    decreases |route|
  {
    hide Symmetric, IsHop;
    if route == [] {
      NoHop(last);
    } else {
      EdgeStored(g, last, route[0]);
      StoredEdges(WithEdge(g, last, route[0]), route[0], route[1..]);
      forall u: ui32, v: ui32
        ensures IsHop(last, route, u, v) <==> HopAt(last, route, 0, u, v) || IsHop(route[0], route[1..], u, v)
      {
        FirstHopOrLater(last, route, u, v);
      }
    }
  }

  /** Hop k of the route from `last` joins u and v, one way or the other. */
  predicate HopAt(last: ui32, route: seq<ui32>, k: int, u: ui32, v: ui32) {
    && 0 <= k < |route|
    && var before := if k == 0 then last else route[k - 1];
       (u == before && v == route[k]) || (v == before && u == route[k])
  }

  ghost predicate IsHop(last: ui32, route: seq<ui32>, u: ui32, v: ui32) {
    exists k :: HopAt(last, route, k, u, v)
  }

  lemma NoHop(last: ui32)
    ensures forall u, v :: !IsHop(last, [], u, v)
  {
  }

  lemma FirstHopOrLater(last: ui32, route: seq<ui32>, u: ui32, v: ui32)
    requires route != []
    ensures IsHop(last, route, u, v) <==> HopAt(last, route, 0, u, v) || IsHop(route[0], route[1..], u, v)
  {
    if IsHop(route[0], route[1..], u, v) {
      var k :| HopAt(route[0], route[1..], k, u, v);
      assert HopAt(last, route, k + 1, u, v);
    }
    if IsHop(last, route, u, v) {
      var k :| HopAt(last, route, k, u, v);
      assert k > 0 ==> HopAt(route[0], route[1..], k - 1, u, v);
    }
  }

  lemma EdgeStored(g: Multigraph, a: ui32, b: ui32)
    requires Symmetric(g)
    ensures Symmetric(WithEdge(g, a, b))
    ensures forall u: ui32, v: ui32 ::
              Edge(WithEdge(g, a, b), u, v) <==> Edge(g, u, v) || (u == a && v == b) || (v == a && u == b)
  {
    forall u: ui32, v: ui32
      ensures Edge(WithEdge(g, a, b), u, v) <==> Edge(g, u, v) || (u == a && v == b) || (v == a && u == b)
    {
      assert Edge(g, a, b) <==> Edge(g, b, a);
    }
  }

  /** The undirected edges of the path from `last` along `route`, in both directions. */
  ghost function EdgesFrom(last: ui32, route: seq<ui32>): set<(ui32, ui32)>
    decreases |route|
  {
    if route == [] then {}
    else {(last, route[0]), (route[0], last)} + EdgesFrom(route[0], route[1..])
  }

  ghost function LearnedEdges(history: seq<seq<ui32>>): set<(ui32, ui32)> {
    set h, e | h in history && Accepted(h) && e in EdgesFrom(OUR_IP, Normalized(h)) :: e
  }

  ghost predicate BothWays(edges: set<(ui32, ui32)>) {
    && (forall u: ui32, v: ui32 :: (u, v) in edges ==> (v, u) in edges)
    && (forall u: ui32 :: (u, u) !in edges)
  }

  /** Each directed edge once, both directions or neither, no loops. */
  ghost predicate SimpleGraph(g: Multigraph) {
    && (forall e :: g[e] <= 1)
    && Symmetric(g)
    && (forall u: ui32 :: !Edge(g, u, u))
  }

  ghost predicate Linked(g: Multigraph, v: ui32) {
    exists n: nat :: v in Ball(g, OUR_IP, n)
  }

  /** Inserting an edge keeps a simple graph simple exactly when its ends differ. */
  lemma EdgeKeepsSimpleIff(g: Multigraph, u: ui32, v: ui32)
    requires SimpleGraph(g)
    ensures SimpleGraph(WithEdge(g, u, v)) <==> u != v
  {
    var h := WithEdge(g, u, v);
    if u == v {
      assert !Edge(g, u, u);
      assert Edge(h, u, u);
    } else {
      assert Edge(g, u, v) <==> Edge(g, v, u);
      forall x: ui32, y: ui32 | Edge(h, x, y)
        ensures Edge(h, y, x)
      {
        assert Edge(g, x, y) || (x, y) == (u, v) || (x, y) == (v, u);
      }
      forall x: ui32
        ensures !Edge(h, x, x)
      {
        assert !Edge(g, x, x);
      }
    }
  }

  lemma {:induction false} RouteEdgesBothWays(last: ui32, route: seq<ui32>)
    requires route != [] ==> last != route[0]
    requires forall i :: 0 <= i < |route| - 1 ==> route[i] != route[i + 1]
    ensures BothWays(EdgesFrom(last, route))
    decreases |route|
  {
    if |route| > 1 {
      assert route[0] != route[0 + 1];
      forall i | 0 <= i < |route[1..]| - 1
        ensures route[1..][i] != route[1..][i + 1]
      {
        assert route[i + 1] != route[i + 1 + 1];
      }
      RouteEdgesBothWays(route[0], route[1..]);
    }
  }

  /** Storing a route on a graph without repeated edges is a union of edge sets. */
  lemma {:induction false} StoringIsUnion(edges: set<(ui32, ui32)>, last: ui32, route: seq<ui32>)
    requires BothWays(edges) && BothWays(EdgesFrom(last, route))
    ensures WithRoute(multiset(edges), last, route) == multiset(edges + EdgesFrom(last, route))
    decreases |route|
  {
    if route == [] {
      assert edges + EdgesFrom(last, route) == edges;
    } else {
      var u, v, rest := last, route[0], EdgesFrom(route[0], route[1..]);
      var more := edges + {(u, v), (v, u)};
      assert (u, v) in edges <==> (v, u) in edges;
      assert u != v by {
        assert (u, v) in EdgesFrom(last, route);
      }
      assert WithEdge(multiset(edges), u, v) == multiset(more);
      assert BothWays(rest) by {
        TailBothWays(last, route);
      }
      StoringIsUnion(more, v, route[1..]);
      assert more + rest == edges + EdgesFrom(last, route);
    }
  }

  lemma TailBothWays(last: ui32, route: seq<ui32>)
    requires route != [] && BothWays(EdgesFrom(last, route))
    ensures BothWays(EdgesFrom(route[0], route[1..]))
  {
    EdgesFromSymmetric(route[0], route[1..]);
    forall u: ui32
      ensures (u, u) !in EdgesFrom(route[0], route[1..])
    {
      assert (u, u) !in EdgesFrom(last, route);
    }
  }

  lemma {:induction false} EdgesFromSymmetric(last: ui32, route: seq<ui32>)
    ensures forall u: ui32, v: ui32 :: (u, v) in EdgesFrom(last, route) ==> (v, u) in EdgesFrom(last, route)
    decreases |route|
  {
    if route != [] {
      EdgesFromSymmetric(route[0], route[1..]);
    }
  }

  lemma AcceptedEdgesBothWays(h: seq<ui32>)
    ensures BothWays(EdgesFrom(OUR_IP, Normalized(h)))
  {
    NormalizedShape(h);
    RouteEdgesBothWays(OUR_IP, Normalized(h));
  }

  lemma LearnedBothWays(history: seq<seq<ui32>>)
    ensures BothWays(LearnedEdges(history))
  {
    forall h | h in history
      ensures BothWays(EdgesFrom(OUR_IP, Normalized(h)))
    {
      AcceptedEdgesBothWays(h);
    }
  }

  lemma {:induction false} HistoryIsUnion(edges: set<(ui32, ui32)>, history: seq<seq<ui32>>)
    requires BothWays(edges)
    ensures AfterTraces(multiset(edges), history) == multiset(edges + LearnedEdges(history))
    decreases |history|
  {
    if history == [] {
      assert edges + LearnedEdges(history) == edges;
    } else {
      var h, rest := history[0], history[1..];
      assert forall x :: x in history <==> x == h || x in rest;
      AcceptedEdgesBothWays(h);
      if Accepted(h) {
        var more := edges + EdgesFrom(OUR_IP, Normalized(h));
        StoringIsUnion(edges, OUR_IP, Normalized(h));
        HistoryIsUnion(more, rest);
        assert more + LearnedEdges(rest) == edges + LearnedEdges(history);
      } else {
        HistoryIsUnion(edges, rest);
        assert LearnedEdges(rest) == LearnedEdges(history);
      }
    }
  }

  /** The graph learned from nothing is exactly the set of edges of the accepted traces. */
  lemma LearnedGraph(history: seq<seq<ui32>>)
    ensures AfterTraces(multiset{}, history) == multiset(LearnedEdges(history))
  {
    var none: set<(ui32, ui32)> := {};
    HistoryIsUnion(none, history);
    assert none + LearnedEdges(history) == LearnedEdges(history);
    assert multiset(none) == multiset{};
  }

  /** Any history leaves a simple undirected graph whose every vertex is connected to us. */
  lemma HistoryKeepsGraph(history: seq<seq<ui32>>)
    ensures var g := AfterTraces(multiset{}, history);
            SimpleGraph(g) && forall u: ui32, v: ui32 :: Edge(g, u, v) ==> Linked(g, u) && Linked(g, v)
  {
    var g := AfterTraces(multiset{}, history);
    LearnedGraph(history);
    LearnedBothWays(history);
    forall u: ui32, v: ui32 | Edge(g, u, v)
      ensures Linked(g, u) && Linked(g, v)
    {
      var h :| h in history && Accepted(h) && (u, v) in EdgesFrom(OUR_IP, Normalized(h));
      forall e | e in EdgesFrom(OUR_IP, Normalized(h))
        ensures e in g
      {
        assert e in LearnedEdges(history);
      }
      assert OUR_IP in Ball(g, OUR_IP, 0);
      RouteIsLinked(g, OUR_IP, Normalized(h), 0);
    }
  }

  lemma {:induction false} RouteIsLinked(g: Multigraph, last: ui32, route: seq<ui32>, n: nat)
    requires last in Ball(g, OUR_IP, n)
    requires forall e :: e in EdgesFrom(last, route) ==> e in g
    ensures forall e :: e in EdgesFrom(last, route) ==> Linked(g, e.0) && Linked(g, e.1)
    decreases |route|
  {
    if route != [] {
      assert (last, route[0]) in EdgesFrom(last, route);
      assert Edge(g, last, route[0]);
      BallStep(g, OUR_IP, last, route[0], n);
      RouteIsLinked(g, route[0], route[1..], n + 1);
    }
  }

  /** Only which traces were seen matters: not their order, and not how often. */
  lemma OrderAndRepetitionDoNotMatter(history: seq<seq<ui32>>, other: seq<seq<ui32>>)
    requires forall h :: h in history <==> h in other
    ensures AfterTraces(multiset{}, history) == AfterTraces(multiset{}, other)
  {
    LearnedGraph(history);
    LearnedGraph(other);
    assert LearnedEdges(history) == LearnedEdges(other);
  }

  // ----- our neighbours

  lemma {:induction false} NeverBackToUs(last: ui32, route: seq<ui32>)
    requires last != OUR_IP && OUR_IP !in route
    ensures forall v: ui32 :: (OUR_IP, v) !in EdgesFrom(last, route)
    decreases |route|
  {
    if route != [] {
      NeverBackToUs(route[0], route[1..]);
    }
  }

  /** `t` is the first host that answers in an accepted trace. */
  ghost predicate FirstHop(h: seq<ui32>, t: ui32) {
    Accepted(h) && Normalized(h) != [] && Normalized(h)[0] == t
  }

  lemma OurEdgeIsFirstHop(h: seq<ui32>, t: ui32)
    ensures (OUR_IP, t) in EdgesFrom(OUR_IP, Normalized(h)) <==> Normalized(h) != [] && Normalized(h)[0] == t
  {
    NormalizedShape(h);
    var route := Normalized(h);
    if route != [] {
      NeverBackToUs(route[0], route[1..]);
    }
  }

  /** Whatever was stored in whatever order, our neighbours are the first hops of the accepted traces. */
  lemma NeighboursAreFirstHops(history: seq<seq<ui32>>, t: ui32)
    ensures Edge(AfterTraces(multiset{}, history), OUR_IP, t) <==> exists h :: h in history && FirstHop(h, t)
  {
    hide AfterTraces, Accepted, EdgesFrom, Normalized;
    LearnedGraph(history);
    forall h
      ensures (OUR_IP, t) in EdgesFrom(OUR_IP, Normalized(h)) <==> Normalized(h) != [] && Normalized(h)[0] == t
    {
      OurEdgeIsFirstHop(h, t);
    }
    if (OUR_IP, t) in LearnedEdges(history) {
      var h :| h in history && Accepted(h) && (OUR_IP, t) in EdgesFrom(OUR_IP, Normalized(h));
      assert FirstHop(h, t);
    }
  }
}
