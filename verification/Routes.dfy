/** What reverseRoutes rebuilds from the two parent maps, and when that is a route. */
module Routes {
  import opened Types
  import opened Graph
  import opened SearchSpec
  import opened SearchLevels
  import opened TwinSearch

  type Route = seq<ui32>

  /** Reading an unordered_map through operator[]: a missing key reads as 0 (and is inserted). */
  function Lookup(m: map<ui32, ui32>, v: ui32): ui32 {
    if v in m then m[v] else 0
  }

  /** `c` is what the do-while loop from `v` visits before it stops at `end`. */
  ghost predicate Climbs(m: map<ui32, ui32>, v: ui32, end: ui32, c: seq<ui32>) {
    && |c| > 0 && c[0] == Lookup(m, v) && c[|c| - 1] == end
    && forall i :: 0 <= i < |c| - 1 ==> c[i] != end && c[i + 1] == Lookup(m, c[i])
  }

  /** The loop from `v` stops. */
  ghost predicate Returns(m: map<ui32, ui32>, v: ui32, end: ui32) {
    exists c :: Climbs(m, v, end, c)
  }

  /** No lookup of the climb misses. */
  ghost predicate NoMiss(m: map<ui32, ui32>, v: ui32, c: seq<ui32>) {
    v in m && forall i :: 0 <= i < |c| - 1 ==> c[i] in m
  }

  lemma ReversedNext(s: seq<ui32>, k: nat)
    requires k < |s|
    ensures Reversed(s[..k + 1]) == [s[k]] + Reversed(s[..k])
  {
  }

  ghost predicate IsRoute(am: map<ui32, ui32>, bm: map<ui32, ui32>, a: ui32, b: ui32, v: ui32, r: Route) {
    exists ca, cb :: Climbs(am, v, a, ca) && Climbs(bm, v, b, cb) && r == Reversed(ca) + [v] + cb
  }

  /** `routes` holds one route through each intersection, in the order `order`. */
  ghost predicate RoutesThrough(am: map<ui32, ui32>, bm: map<ui32, ui32>, a: ui32, b: ui32,
                                met: set<ui32>, order: seq<ui32>, routes: seq<Route>) {
    && NoRepeats(order) && (forall v :: v in met <==> v in order)
    && |routes| == |order|
    && forall i :: 0 <= i < |order| ==> IsRoute(am, bm, a, b, order[i], routes[i])
  }

  /** Inserting the default for a missing key changes no later lookup. */
  ghost predicate SameLookups(m: map<ui32, ui32>, m': map<ui32, ui32>) {
    forall v :: Lookup(m, v) == Lookup(m', v)
  }

  lemma SameClimbs(m: map<ui32, ui32>, m': map<ui32, ui32>, v: ui32, end: ui32)
    requires SameLookups(m, m')
    ensures forall c :: Climbs(m, v, end, c) <==> Climbs(m', v, end, c)
  {
  }

  lemma {:induction false} ClimbsUnique(m: map<ui32, ui32>, v: ui32, end: ui32, c: seq<ui32>, c': seq<ui32>)
    requires Climbs(m, v, end, c) && Climbs(m, v, end, c')
    ensures c == c'
    decreases |c|
  {
    if |c| > 1 && |c'| > 1 {
      assert c[1] == Lookup(m, c[0]) && c'[1] == Lookup(m, c'[0]);
      ClimbsUnique(m, c[0], end, c[1..], c'[1..]);
      assert c == [c[0]] + c[1..] && c' == [c'[0]] + c'[1..];
    }
  }

  /** In a searched side, climbing lowers the generation by one each step, through expanded
      vertices only and along edges, down to the origin. */
  lemma {:induction false} ClimbDescends(g: Multigraph, s: Side, met: set<ui32>, steps: nat, v: ui32)
    returns (c: seq<ui32>)
    requires SideOk(g, s, met, steps) && v in s.all && v != s.origin
    ensures Climbs(s.reverse, v, s.origin, c) && NoMiss(s.reverse, v, c)
    ensures |c| == s.gen[v] && Edge(g, c[0], v)
    ensures forall i :: 0 <= i < |c| ==> c[i] in s.expanded && s.gen[c[i]] == |c| - 1 - i
    ensures forall i :: 0 <= i < |c| - 1 ==> Edge(g, c[i + 1], c[i])
    decreases s.gen[v]
  {
    var p := s.reverse[v];
    if p == s.origin {
      c := [p];
    } else {
      c := ClimbDescends(g, s, met, steps, p);
      c := [p] + c;
    }
  }

  /** An endpoint is an intersection only when the endpoints are adjacent, and then it is b. */
  lemma EndpointMetMeansAdjacent(g: Multigraph, a: Side, b: Side, met: set<ui32>, na: nat, nb: nat, v: ui32)
    requires SearchOk(g, a, b, met, na, nb) && v in met
    requires v == a.origin || v == b.origin
    ensures v == b.origin && Edge(g, a.origin, b.origin)
  {
    if v != a.origin {
      assert a.gen[v] == 1;
      var c := ClimbDescends(g, a, met, na, v);
    }
  }

  /** Every rebuilt route is a simple path between the endpoints through exactly one
      intersection, and has as many edges as its two generations add up to. */
  lemma RouteIsSimplePath(g: Multigraph, a: Side, b: Side, met: set<ui32>, na: nat, nb: nat, v: ui32, r: Route)
    requires Symmetric(g) && SearchOk(g, a, b, met, na, nb)
    requires v in met && v != a.origin && v != b.origin
    requires IsRoute(a.reverse, b.reverse, a.origin, b.origin, v, r)
    ensures IsSimplePath(g, r, a.origin, b.origin)
    ensures |r| == a.gen[v] + b.gen[v] + 1
    ensures forall i :: 0 <= i < |r| ==> (r[i] in met <==> i == a.gen[v])
    ensures r[a.gen[v]] == v
  {
    var ca := ClimbDescends(g, a, met, na, v);
    var cb := ClimbDescends(g, b, met, nb, v);
    var xa, xb :| && Climbs(a.reverse, v, a.origin, xa) && Climbs(b.reverse, v, b.origin, xb)
                  && r == Reversed(xa) + [v] + xb;
    ClimbsUnique(a.reverse, v, a.origin, ca, xa);
    ClimbsUnique(b.reverse, v, b.origin, cb, xb);
    PairSeparated(g, a, b, met, na, nb);
    JoinedClimbs(g, a, b, ca, cb, v, met, r);
  }

  lemma JoinedClimbs(g: Multigraph, a: Side, b: Side, ca: seq<ui32>, cb: seq<ui32>, v: ui32, met: set<ui32>, r: Route)
    requires Symmetric(g) && |ca| > 0 && |cb| > 0 && v in met
    requires Edge(g, ca[0], v) && Edge(g, cb[0], v)
    requires forall i :: 0 <= i < |ca| - 1 ==> Edge(g, ca[i + 1], ca[i])
    requires forall i :: 0 <= i < |cb| - 1 ==> Edge(g, cb[i + 1], cb[i])
    requires a.expanded !! b.expanded && a.expanded !! met && b.expanded !! met
    requires a.expanded <= a.gen.Keys && b.expanded <= b.gen.Keys
    requires forall i :: 0 <= i < |ca| ==> ca[i] in a.expanded && a.gen[ca[i]] == |ca| - 1 - i
    requires forall i :: 0 <= i < |cb| ==> cb[i] in b.expanded && b.gen[cb[i]] == |cb| - 1 - i
    requires r == Reversed(ca) + [v] + cb
    ensures IsSimplePath(g, r, ca[|ca| - 1], cb[|cb| - 1])
    ensures forall i :: 0 <= i < |r| ==> (r[i] in met <==> i == |ca|)
  {
    var n := |ca|;
    assert forall i :: 0 <= i < n ==> r[i] == ca[n - 1 - i];
    assert r[n] == v;
    assert forall i :: n < i < |r| ==> r[i] == cb[i - n - 1];
    forall i | 0 <= i < |r| - 1
      ensures Edge(g, r[i], r[i + 1])
    {
      if i + 1 < n {
        assert Edge(g, ca[(n - 2 - i) + 1], ca[n - 2 - i]);
      } else if i > n {
        assert Edge(g, cb[(i - n - 1) + 1], cb[i - n - 1]);
      }
    }
  }

  /** Routes through different intersections differ. */
  lemma RoutesDiffer(g: Multigraph, a: Side, b: Side, met: set<ui32>, na: nat, nb: nat, v: ui32, w: ui32, r: Route)
    requires Symmetric(g) && SearchOk(g, a, b, met, na, nb)
    requires v in met && w in met && !Edge(g, a.origin, b.origin)
    requires IsRoute(a.reverse, b.reverse, a.origin, b.origin, v, r)
    requires IsRoute(a.reverse, b.reverse, a.origin, b.origin, w, r)
    ensures v == w
  {
    forall x | x in met && (x == a.origin || x == b.origin)
      ensures false
    {
      EndpointMetMeansAdjacent(g, a, b, met, na, nb, x);
    }
    RouteIsSimplePath(g, a, b, met, na, nb, v, r);
    RouteIsSimplePath(g, a, b, met, na, nb, w, r);
  }

  /** Both loops from every intersection stop, and no lookup misses. */
  ghost predicate Rebuildable(a: Side, b: Side, met: set<ui32>) {
    forall v :: v in met ==>
      && (exists c :: Climbs(a.reverse, v, a.origin, c) && NoMiss(a.reverse, v, c))
      && (exists c :: Climbs(b.reverse, v, b.origin, c) && NoMiss(b.reverse, v, c))
  }

  lemma RebuildableNeverMisses(a: Side, b: Side, met: set<ui32>, v: ui32, ca: seq<ui32>, cb: seq<ui32>)
    requires Rebuildable(a, b, met) && v in met
    requires Climbs(a.reverse, v, a.origin, ca) && Climbs(b.reverse, v, b.origin, cb)
    ensures NoMiss(a.reverse, v, ca) && NoMiss(b.reverse, v, cb)
  {
    var c :| Climbs(a.reverse, v, a.origin, c) && NoMiss(a.reverse, v, c);
    ClimbsUnique(a.reverse, v, a.origin, c, ca);
    var d :| Climbs(b.reverse, v, b.origin, d) && NoMiss(b.reverse, v, d);
    ClimbsUnique(b.reverse, v, b.origin, d, cb);
  }

  lemma NonAdjacentRebuildable(g: Multigraph, a: Side, b: Side, met: set<ui32>, na: nat, nb: nat)
    requires SearchOk(g, a, b, met, na, nb) && !Edge(g, a.origin, b.origin)
    ensures Rebuildable(a, b, met)
  {
    forall v | v in met
      ensures exists c :: Climbs(a.reverse, v, a.origin, c) && NoMiss(a.reverse, v, c)
      ensures exists c :: Climbs(b.reverse, v, b.origin, c) && NoMiss(b.reverse, v, c)
    {
      if v == a.origin || v == b.origin {
        EndpointMetMeansAdjacent(g, a, b, met, na, nb, v);
      }
      var ca := ClimbDescends(g, a, met, na, v);
      var cb := ClimbDescends(g, b, met, nb, v);
    }
  }

  /** Adjacent endpoints: b itself is met, nothing was ever expanded from b, and the loop from b
      reads only defaults, so it stops exactly when b happens to be vertex 0. */
  lemma AdjacentNeverReturns(g: Multigraph, a: Side, b: Side, met: set<ui32>, na: nat, nb: nat, radius: nat)
    requires SearchOk(g, a, b, met, na, nb) && Complete(g, a, b, met, radius) && radius >= 1
    requires Edge(g, a.origin, b.origin)
    ensures b.origin in met && b.reverse == map[]
    ensures Returns(b.reverse, b.origin, b.origin) <==> b.origin == 0
    ensures !Rebuildable(a, b, met)
  {
    assert a.origin in Ball(g, a.origin, 0);
    BallStep(g, a.origin, a.origin, b.origin, 0);
    assert AtDistance(g, a.origin, b.origin, 1);
    assert FirstMet(g, a, b, met, 1);
    assert b.origin in Ball(g, b.origin, 0);
    assert b.origin in Midpoints(g, a.origin, b.origin, 1);
    forall v | v in b.reverse
      ensures false
    {
      var c := ClimbDescends(g, b, met, nb, v);
    }
    assert b.reverse == map[];
    if b.origin == 0 {
      assert Climbs(b.reverse, 0, 0, [0]);
    } else {
      forall c | Climbs(b.reverse, b.origin, b.origin, c)
        ensures false
      {
        assert c[0] == 0;
        var i := 0;
        while i < |c| - 1
          invariant 0 <= i < |c| && c[i] == 0
        {
          assert c[i + 1] == Lookup(b.reverse, c[i]);
          i := i + 1;
        }
      }
    }
  }

  /** Different endpoints: rebuilding stops without a missed lookup exactly when they are not adjacent. */
  lemma RebuildableIffNotAdjacent(g: Multigraph, a: Side, b: Side, met: set<ui32>, na: nat, nb: nat, radius: nat)
    requires SearchOk(g, a, b, met, na, nb) && Complete(g, a, b, met, radius) && radius >= 1
    ensures Rebuildable(a, b, met) <==> !Edge(g, a.origin, b.origin)
  {
    hide SearchOk, Complete, Rebuildable;
    if Edge(g, a.origin, b.origin) {
      AdjacentNeverReturns(g, a, b, met, na, nb, radius);
    } else {
      NonAdjacentRebuildable(g, a, b, met, na, nb);
    }
  }

  /** Equal endpoints: the routes are the there-and-back walks over the neighbours. */
  lemma TwinRoutes(g: Multigraph, a: Side, b: Side, met: set<ui32>, na: nat, nb: nat)
    requires TwinOk(g, a, b, met, na, nb) && met == Around(g, a.origin)
    ensures Rebuildable(a, b, met)
    ensures forall v, r :: v in met && IsRoute(a.reverse, b.reverse, a.origin, b.origin, v, r) ==>
              r == [a.origin, v, a.origin]
  {
    var s := a.origin;
    forall v | v in met
      ensures Climbs(a.reverse, v, s, [s]) && NoMiss(a.reverse, v, [s])
      ensures Climbs(b.reverse, v, s, [s]) && NoMiss(b.reverse, v, [s])
    {
    }
    forall v, r | v in met && IsRoute(a.reverse, b.reverse, s, s, v, r)
      ensures r == [s, v, s]
    {
      var ca, cb :| Climbs(a.reverse, v, s, ca) && Climbs(b.reverse, v, s, cb) && r == Reversed(ca) + [v] + cb;
      ClimbsUnique(a.reverse, v, s, ca, [s]);
      ClimbsUnique(b.reverse, v, s, cb, [s]);
    }
  }
}
