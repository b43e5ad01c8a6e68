/** The alternating breadth-first search of router.h, on mutable sets in arbitrary iteration order. */
module RouteSearch {
  import opened Types
  import opened Graph
  import opened SearchSpec
  import opened SearchRun
  import opened SearchCuts
  import opened SearchMiddles
  import opened SearchLevels
  import opened TwinSearch
  import opened Routes

  /** The length in edges of the longest route a search can find. */
  function Radius(limit: nat): nat {
    if limit == 0 then 2 else 2 * ROUNDS
  }

  /** One direction of the search: the sets *_all, *_last, *_new and the map *_reverse. */
  class SearchSide {
    const origin: ui32
    var all: set<ui32>
    var last: set<ui32>
    var discovered: set<ui32>
    var reverse: map<ui32, ui32>
    ghost var expanded: set<ui32>
    ghost var gen: map<ui32, nat>

    constructor (origin: ui32)
      ensures this.origin == origin && View() == Start(origin) && discovered == {}
    {
      this.origin := origin;
      all, last, discovered, reverse := {origin}, {origin}, {}, map[];
      expanded, gen := {}, map[origin := 0];
    }

    ghost function View(): Side
      reads this
    {
      Side(origin, all, last, reverse, expanded, gen)
    }

    /** Collects the unknown neighbours of the frontier and a frontier parent for each. */
    method FindNextGeneration(graph: Multigraph)
      modifies this`discovered, this`reverse
      ensures discovered == old(discovered) + Found(graph, old(View()))
      ensures Parents(graph, old(View()), reverse)
      ensures forall v :: v in discovered <==>
                v in old(discovered) || (v !in all && exists u: ui32 :: u in last && Edge(graph, u, v))
      ensures forall v :: v !in all && v in reverse && v !in old(reverse) ==>
                reverse[v] in last && Edge(graph, reverse[v], v)
    {
      hide Neighbours, Parents;
      var toVisit := last;
      ghost var seen: set<(ui32, ui32)>, found: set<ui32> := {}, {};
      while toVisit != {}
        invariant toVisit <= last
        invariant forall e :: e in seen <==> e in graph && e.0 in last - toVisit
        invariant discovered == old(discovered) + found && FoundAlong(seen, found, old(reverse))
      {
        var u :| u in toVisit;
        toVisit := toVisit - {u};
        seen, found := FollowEdges(graph, u, seen, found, old(discovered), old(reverse));
      }
      assert View().(reverse := old(reverse)) == old(View());
      FoundFromSeen(graph, seen, found, old(reverse));
      FoundPlainly(graph, old(View()), reverse);
    }

    lemma FoundPlainly(graph: Multigraph, s: Side, reverse: map<ui32, ui32>)
      requires Parents(graph, s, reverse)
      ensures forall v :: v in Found(graph, s) <==> v !in s.all && exists u: ui32 :: u in s.last && Edge(graph, u, v)
      ensures forall v :: v in reverse && v !in s.reverse ==> reverse[v] in s.last && Edge(graph, reverse[v], v)
    {
      hide Neighbours;
      forall v
        ensures v in Found(graph, s) <==> v !in s.all && exists u: ui32 :: u in s.last && Edge(graph, u, v)
      {
        InNeighbours(graph, s.last, v);
      }
    }

    /** The inner loop: follows the edges that leave `u`, on top of those in `seen0`. */
    method FollowEdges(graph: Multigraph, u: ui32, ghost seen0: set<(ui32, ui32)>, ghost found0: set<ui32>,
                       ghost discovered0: set<ui32>, ghost reverse0: map<ui32, ui32>)
      returns (ghost seen: set<(ui32, ui32)>, ghost found: set<ui32>)
      requires discovered == discovered0 + found0 && FoundAlong(seen0, found0, reverse0)
      modifies this`discovered, this`reverse
      ensures forall e :: e in seen <==> e in seen0 || (e in graph && e.0 == u)
      ensures discovered == discovered0 + found && FoundAlong(seen, found, reverse0)
    {
      hide FoundAlong;
      seen, found := seen0, found0;
      var range := graph;
      while range != multiset{}
        invariant range <= graph
        invariant forall e :: e in seen ==> e in seen0 || (e in graph && e.0 == u)
        invariant forall e :: e in seen0 ==> e in seen
        invariant forall e :: e in graph && e.0 == u ==> e in seen || e in range
        invariant discovered == discovered0 + found && FoundAlong(seen, found, reverse0)
        decreases |range|
      {
        var e :| e in range;
        range := range - multiset{e};
        if e.0 == u {
          seen, found := FollowEdge(e, seen, found, discovered0, reverse0);
        }
      }
    }

    method FollowEdge(e: (ui32, ui32), ghost seen0: set<(ui32, ui32)>, ghost found0: set<ui32>,
                      ghost discovered0: set<ui32>, ghost reverse0: map<ui32, ui32>)
      returns (ghost seen: set<(ui32, ui32)>, ghost found: set<ui32>)
      requires discovered == discovered0 + found0 && FoundAlong(seen0, found0, reverse0)
      modifies this`discovered, this`reverse
      ensures seen == seen0 + {e}
      ensures discovered == discovered0 + found && FoundAlong(seen, found, reverse0)
    {
      seen, found := seen0 + {e}, found0;
      if e.1 !in all {
        discovered := discovered + {e.1};
        found := found + {e.1};
        reverse := reverse[e.1 := e.0];
      }
    }

    /** operator[] on the parent map. */
    method At(v: ui32) returns (parent: ui32)
      modifies this`reverse
      ensures parent == Lookup(old(reverse), v) && v in reverse
      ensures parent == if v in old(reverse) then old(reverse)[v] else 0
      ensures SameLookups(old(reverse), reverse)
      ensures v in old(reverse) ==> reverse == old(reverse)
    {
      if v !in reverse {
        reverse := reverse[v := 0];
      }
      parent := reverse[v];
    }

    /** The do-while loop from `v` to the origin, each vertex pushed at the front. */
    method ClimbToFront(v: ui32, route: Route) returns (r: Route, ghost c: seq<ui32>)
      requires Returns(reverse, v, origin)
      modifies this`reverse
      ensures Climbs(old(reverse), v, origin, c) && r == Reversed(c) + route
      ensures SameLookups(old(reverse), reverse)
      ensures NoMiss(old(reverse), v, c) ==> reverse == old(reverse)
    {
      hide Lookup;
      c :| Climbs(reverse, v, origin, c);
      r := route;
      var vertex, more := v, true;
      ghost var k := 0;
      while more
        invariant 0 <= k <= |c| && r == Reversed(c[..k]) + route
        invariant vertex == (if k == 0 then v else c[k - 1]) && (more <==> k < |c|)
        invariant SameLookups(old(reverse), reverse)
        invariant NoMiss(old(reverse), v, c) ==> reverse == old(reverse)
        decreases |c| - k
      {
        vertex := At(vertex);
        ReversedNext(c, k);
        assert [c[k]] + Reversed(c[..k]) + route == [c[k]] + r;
        r := [vertex] + r;
        more := vertex != origin;
        k := k + 1;
      }
      assert c[..k] == c;
    }

    /** The same loop, each vertex pushed at the back. */
    method ClimbToBack(v: ui32, route: Route) returns (r: Route, ghost c: seq<ui32>)
      requires Returns(reverse, v, origin)
      modifies this`reverse
      ensures Climbs(old(reverse), v, origin, c) && r == route + c
      ensures SameLookups(old(reverse), reverse)
      ensures NoMiss(old(reverse), v, c) ==> reverse == old(reverse)
    {
      hide Lookup;
      c :| Climbs(reverse, v, origin, c);
      r := route;
      var vertex, more := v, true;
      ghost var k := 0;
      while more
        invariant 0 <= k <= |c| && r == route + c[..k]
        invariant vertex == (if k == 0 then v else c[k - 1]) && (more <==> k < |c|)
        invariant SameLookups(old(reverse), reverse)
        invariant NoMiss(old(reverse), v, c) ==> reverse == old(reverse)
        decreases |c| - k
      {
        vertex := At(vertex);
        r := r + [vertex];
        more := vertex != origin;
        k := k + 1;
      }
      assert c[..k] == c;
    }

    /** Following exactly the edges in `seen` has found exactly `found`. */
    ghost predicate FoundAlong(seen: set<(ui32, ui32)>, found: set<ui32>, reverse0: map<ui32, ui32>)
      reads this
    {
      && (forall e :: e in seen && e.1 !in all ==> e.1 in found)
      && reverse.Keys == reverse0.Keys + found
      && (forall v :: v in found ==> v !in all && (reverse[v], v) in seen)
      && (forall v :: v in reverse0 && v !in found ==> reverse[v] == reverse0[v])
    }

    lemma FoundFromSeen(graph: Multigraph, seen: set<(ui32, ui32)>, found: set<ui32>, reverse0: map<ui32, ui32>)
      requires forall e :: e in seen <==> e in graph && e.0 in last
      requires FoundAlong(seen, found, reverse0)
      ensures found == Found(graph, View().(reverse := reverse0))
      ensures Parents(graph, View().(reverse := reverse0), reverse)
    {
    }
  }

  /** A vertex met in half-step h has generations that add up to h. */
  ghost predicate Lawful(a: Side, b: Side, met: set<ui32>, metAt: map<ui32, nat>) {
    && metAt.Keys == met && met <= a.gen.Keys && met <= b.gen.Keys
    && forall v :: v in met ==> metAt[v] == a.gen[v] + b.gen[v]
  }

  lemma StaysLawful(a: Side, b: Side, met: set<ui32>, a': Side, b': Side, met': set<ui32>,
                    metAt: map<ui32, nat>, h: nat)
    requires Lawful(a, b, met, metAt)
    requires met <= met' && met' <= a'.gen.Keys && met' <= b'.gen.Keys
    requires MetAtLength(a, b, met, a', b', met', h)
    ensures Lawful(a', b', met', Noted(metAt, met' - met, h))
  {
  }

  /** A half-step takes the search along its run. */
  lemma OurTrail(g: Multigraph, from: ui32, to: ui32, n: nat, x: Side, y: Side, met: set<ui32>,
                 metAt: map<ui32, nat>, reverse: map<ui32, ui32>)
    requires TrailAfter(g, from, to, n, n) == Trail(Bare(x), Bare(y), met, metAt)
    ensures var met' := met + Met(g, x, y);
            TrailAfter(g, from, to, n + 1, n) ==
              Trail(Bare(Advance(g, x, reverse, y, n)), Bare(Prune(g, y, x)), met',
                    Noted(metAt, met' - met, n + 1 + n))
  {
    hide Advance, Prune, Met, Bare;
    BareTurn(g, x, y, reverse, n);
  }

  lemma TheirTrail(g: Multigraph, from: ui32, to: ui32, n: nat, x: Side, y: Side, met: set<ui32>,
                   metAt: map<ui32, nat>, reverse: map<ui32, ui32>)
    requires TrailAfter(g, from, to, n + 1, n) == Trail(Bare(x), Bare(y), met, metAt)
    ensures var met' := met + Met(g, y, x);
            TrailAfter(g, from, to, n + 1, n + 1) ==
              Trail(Bare(Prune(g, x, y)), Bare(Advance(g, y, reverse, x, n)), met',
                    Noted(metAt, met' - met, n + 1 + (n + 1)))
  {
    hide Advance, Prune, Met, Bare;
    BareTurn(g, y, x, reverse, n);
  }

  class Search {
    const a: SearchSide
    const b: SearchSide
    var intersections: set<ui32>
    // history: expansions made by each side, and the half-step that met each intersection
    ghost var na: nat
    ghost var nb: nat
    ghost var metAt: map<ui32, nat>

    constructor (from: ui32, to: ui32)
      ensures Initial() && a.origin == from && b.origin == to
      ensures fresh(a) && fresh(b)
    {
      a := new SearchSide(from);
      b := new SearchSide(to);
      intersections, na, nb, metAt := {}, 0, 0, map[];
    }

    ghost predicate Initial()
      reads this, a, b
    {
      && a != b && a.View() == Start(a.origin) && b.View() == Start(b.origin)
      && a.discovered == {} && b.discovered == {}
      && intersections == {} && na == nb == 0 && metAt == map[]
    }

    /** Files what `x` has just discovered; what `y` knew already is met, off both frontiers. */
    method UpdateIntersections(x: SearchSide, y: SearchSide, ghost steps: nat)
      requires x != y
      modifies x, y`last, this`intersections
      ensures x.discovered == {}
      ensures x.View() == old(Side(x.origin, x.all + x.discovered, x.discovered - y.all, x.reverse,
                                   x.expanded + x.last, x.gen + map v | v in x.discovered :: steps + 1))
      ensures y.last == old(y.last - (x.discovered * y.all))
      ensures intersections == old(intersections + (x.discovered * y.all))
    {
      ghost var frontier := x.last;
      x.last := {};
      var rest := x.discovered;
      while rest != {}
        invariant rest <= x.discovered
        invariant unchanged(x`discovered) && unchanged(x`reverse) && unchanged(x`expanded) && unchanged(x`gen)
        invariant var done := x.discovered - rest;
                  && x.all == old(x.all) + done && x.last == done - y.all
                  && y.last == old(y.last) - (done * y.all)
                  && intersections == old(intersections) + (done * y.all)
      {
        var v :| v in rest;
        rest := rest - {v};
        x.all := x.all + {v};
        if v !in y.all {
          x.last := x.last + {v};
        } else {
          intersections := intersections + {v};
          y.last := y.last - {v};
        }
      }
      x.expanded, x.gen := x.expanded + frontier, x.gen + map v | v in x.discovered :: steps + 1;
      x.discovered := {};
    }

    /** A vertex met in half-step h lies on a route of exactly h edges. */
    ghost predicate LengthLaw()
      reads this, a, b
    {
      Lawful(a.View(), b.View(), intersections, metAt)
    }

    /** The search stands where its run, which knows no parents, stands after as many half-steps. */
    ghost predicate OnTrail(g: Multigraph)
      reads this, a, b
    {
      && Turns(na, nb)
      && TrailAfter(g, a.origin, b.origin, na, nb) == Trail(Bare(a.View()), Bare(b.View()), intersections, metAt)
    }

    /** It has stopped, and at the first half-step that does not happen. */
    ghost predicate Finished(g: Multigraph, limit: nat)
      reads this, a, b
    {
      OnTrail(g) && StopsAt(g, a.origin, b.origin, limit, na, nb)
    }

    ghost predicate Sound(g: Multigraph)
      reads this, a, b
    {
      OnTrail(g) &&
      if a.origin == b.origin then
        TwinOk(g, a.View(), b.View(), intersections, na, nb)
      else
        && SearchOk(g, a.View(), b.View(), intersections, na, nb)
        && Progress(g, a.View(), b.View(), intersections, na, nb)
        && LengthLaw()
    }

    /** One turn of `x`; it stops the search when it discovers nothing. */
    method HalfStep(graph: Multigraph, x: SearchSide, y: SearchSide, ghost steps: nat) returns (found: bool)
      requires x != y && x.discovered == {}
      modifies x, y`last, this`intersections
      ensures x.discovered == {}
      ensures found <==> Found(graph, old(x.View())) != {}
      ensures Parents(graph, old(x.View()), x.reverse)
      ensures found ==> x.View() == Advance(graph, old(x.View()), x.reverse, old(y.View()), steps)
      ensures found ==> y.View() == Prune(graph, old(y.View()), old(x.View()))
      ensures found ==> intersections == old(intersections) + Met(graph, old(x.View()), old(y.View()))
      ensures !found ==> x.View() == old(x.View()) && y.View() == old(y.View()) && intersections == old(intersections)
    {
      hide Neighbours;
      x.FindNextGeneration(graph);
      if x.discovered == {} {
        assert x.reverse == old(x.reverse);
        return false;
      }
      UpdateIntersections(x, y, steps);
      return true;
    }

    /** Counts a half-step and notes which intersections it added to those before. */
    ghost method Record(before: set<ui32>, ours: bool)
      modifies this`na, this`nb, this`metAt
      ensures na == old(na) + (if ours then 1 else 0) && nb == old(nb) + (if ours then 0 else 1)
      ensures metAt == Noted(old(metAt), intersections - before, na + nb)
    {
      if ours {
        na := na + 1;
      } else {
        nb := nb + 1;
      }
      metAt := Noted(metAt, intersections - before, na + nb);
    }

    /** a's turn of a round. */
    method OurHalfStep(graph: Multigraph) returns (found: bool)
      requires Symmetric(graph) && a != b && a.discovered == {} && b.discovered == {}
      requires Sound(graph) && na == nb
      modifies this, a, b
      ensures a.discovered == {} && b.discovered == {}
      ensures Sound(graph) && nb == old(nb) && na == old(na) + (if found then 1 else 0)
      ensures found <==> Found(graph, old(a.View())) != {}
      ensures !found ==> a.View() == old(a.View()) && b.View() == old(b.View())
      ensures !found ==> intersections == old(intersections) && metAt == old(metAt)
    {
      hide SearchOk, Progress, TwinOk, TrailAfter, Symmetric, Lawful, MetAtLength;
      hide Noted, Advance, Prune, Met, Found, Parents, Neighbours, Ball, Bare;
      ghost var x, y, met := a.View(), b.View(), intersections;
      found := HalfStep(graph, a, b, na);
      if a.origin == b.origin {
        TwinOurTurn(graph, x, y, a.reverse, met, na);
      } else if found {
        OurTurn(graph, x, y, a.reverse, met, na);
        StaysLawful(x, y, met, a.View(), b.View(), intersections, metAt, na + na + 1);
      }
      if found {
        OurTrail(graph, a.origin, b.origin, na, x, y, met, metAt, a.reverse);
        Record(met, true);
      }
    }

    /** b's turn of a round. */
    method TheirHalfStep(graph: Multigraph) returns (found: bool)
      requires Symmetric(graph) && a != b && a.discovered == {} && b.discovered == {}
      requires Sound(graph) && na == nb + 1
      modifies this, a, b
      ensures a.discovered == {} && b.discovered == {}
      ensures Sound(graph) && na == old(na) && nb == old(nb) + (if found then 1 else 0)
      ensures found <==> Found(graph, old(b.View())) != {}
      ensures !found ==> a.View() == old(a.View()) && b.View() == old(b.View())
      ensures !found ==> intersections == old(intersections) && metAt == old(metAt)
      ensures a.origin == b.origin ==> found
    {
      hide SearchOk, Progress, TwinOk, TrailAfter, Symmetric, Lawful, MetAtLength;
      hide Noted, Advance, Prune, Met, Found, Parents, Neighbours, Ball, Bare;
      ghost var x, y, met := a.View(), b.View(), intersections;
      found := HalfStep(graph, b, a, nb);
      if a.origin == b.origin {
        TwinTheirTurn(graph, x, y, b.reverse, met, nb);
      } else if found {
        TheirTurn(graph, x, y, b.reverse, met, nb);
        StaysLawful(x, y, met, a.View(), b.View(), intersections, metAt, nb + nb + 2);
      }
      if found {
        TheirTrail(graph, a.origin, b.origin, nb, x, y, met, metAt, b.reverse);
        Record(met, false);
      }
    }

    lemma InitialIsSound(g: Multigraph)
      requires Initial()
      ensures Sound(g)
    {
      if a.origin != b.origin {
        StartOk(g, a.origin, b.origin);
        StartProgress(g, a.origin, b.origin);
      } else {
        TwinStart(g, a.origin);
      }
    }

    /** Where the search stands says whether its run halts there. */
    lemma HaltsHere(g: Multigraph, limit: nat)
      requires Sound(g)
      ensures Turns(na, nb)
      ensures Halts(g, TrailAfter(g, a.origin, b.origin, na, nb), limit, na, nb) <==>
                if na == nb then na == ROUNDS || Found(g, a.View()) == {} || (na > 0 && |intersections| >= limit)
                else Found(g, b.View()) == {}
    {
      hide TrailAfter, TwinOk, SearchOk, Progress, Neighbours;
      BareTurn(g, a.View(), b.View(), map[], 0);
      BareTurn(g, b.View(), a.View(), map[], 0);
    }

    lemma SoundAndFinished(g: Multigraph, limit: nat)
      requires Symmetric(g) && Sound(g) && Finished(g, limit) && na + nb <= Radius(limit)
      requires a.origin == b.origin ==> na == nb
      ensures a.origin != b.origin ==>
                && SearchOk(g, a.View(), b.View(), intersections, na, nb)
                && Complete(g, a.View(), b.View(), intersections, Radius(limit))
                && MetMiddles(g, limit) && LengthLaw()
      ensures a.origin == b.origin ==>
                && intersections == Around(g, a.origin)
                && TwinOk(g, a.View(), b.View(), intersections, na, nb)
    {
      hide SearchOk, Progress, Complete, TwinOk, Around, Neighbours, Ball, Found, Symmetric, TrailAfter, Reached, Halts;
      hide MetMiddles;
      HaltsHere(g, limit);
      if a.origin != b.origin {
        FinishedIsComplete(g, a.View(), b.View(), intersections, na, nb, Radius(limit));
        FinishedMeetsMiddles(g, limit);
      } else {
        TwinFinish(g, a.View(), b.View(), intersections, na, nb);
      }
    }

    /** Wherever it stopped, it has met the middles of the walks within its reach. */
    ghost predicate MetMiddles(g: Multigraph, limit: nat)
      reads this, a, b
    {
      intersections == Middles(g, a.origin, b.origin, Reach(g, a.origin, b.origin, limit))
    }

    lemma FinishedMeetsMiddles(g: Multigraph, limit: nat)
      requires Symmetric(g) && Finished(g, limit) && a.origin != b.origin
      ensures MetMiddles(g, limit)
    {
      hide Symmetric, TrailAfter, StopsAt, ByMiddles, Middles, Reach;
      FinishedByMiddles(g, a.origin, b.origin, limit, na, nb);
      MetIsMiddles(g, a.origin, b.origin, TrailAfter(g, a.origin, b.origin, na, nb),
                   Reach(g, a.origin, b.origin, limit));
    }

    /** The whole search: five rounds of two half-steps at most, cut short by a side that discovers
        nothing or by enough intersections at the end of a round. */
    method FindIntersections(graph: Multigraph, limit: nat)
      requires Symmetric(graph) && Initial()
      modifies this, a, b
      ensures Sound(graph) && Finished(graph, limit) && na + nb <= Radius(limit)
      ensures a.origin != b.origin ==>
                && SearchOk(graph, a.View(), b.View(), intersections, na, nb)
                && Complete(graph, a.View(), b.View(), intersections, Radius(limit))
                && MetMiddles(graph, limit) && LengthLaw()
      ensures a.origin != b.origin && limit > 0 ==>
                (intersections != {} <==> exists p :: IsWalk(graph, p, a.origin, b.origin) && |p| <= 11)
      ensures a.origin != b.origin && |intersections| < limit ==>
                forall p :: IsWalk(graph, p, a.origin, b.origin) && |p| <= 11 ==>
                  exists v :: v in p && v in intersections
      ensures a.origin == b.origin ==>
                && intersections == Around(graph, a.origin)
                && TwinOk(graph, a.View(), b.View(), intersections, na, nb)
    {
      hide Sound, LengthLaw, Symmetric, Found, SearchOk, Complete, TwinOk, Around, TrailAfter, Halts, MetMiddles;
      InitialIsSound(graph);
      for i := 0 to ROUNDS
        invariant Sound(graph) && na == nb == i
        invariant a.discovered == {} && b.discovered == {}
        invariant i > 0 ==> |intersections| < limit
        invariant Reached(graph, a.origin, b.origin, limit, i, i)
      {
        HaltsHere(graph, limit);
        var found := OurHalfStep(graph);
        if !found {
          break;
        }
        HaltsHere(graph, limit);
        assert Reached(graph, a.origin, b.origin, limit, na, nb);
        found := TheirHalfStep(graph);
        if !found {
          break;
        }
        assert Reached(graph, a.origin, b.origin, limit, na, nb);
        if |intersections| >= limit {
          break;
        }
      }
      HaltsHere(graph, limit);
      SoundOnTrail(graph);
      assert Finished(graph, limit);
      SoundAndFinished(graph, limit);
      if a.origin != b.origin {
        SearchedFar(graph, limit);
      }
    }

    /** How far it has searched, in plain numbers. */
    lemma SearchedFar(g: Multigraph, limit: nat)
      requires Symmetric(g) && Sound(g) && Finished(g, limit) && a.origin != b.origin
      requires Complete(g, a.View(), b.View(), intersections, Radius(limit))
      ensures limit > 0 ==>
                (intersections != {} <==> exists p :: IsWalk(g, p, a.origin, b.origin) && |p| <= 11)
      ensures |intersections| < limit ==>
                forall p :: IsWalk(g, p, a.origin, b.origin) && |p| <= 11 ==> exists v :: v in p && v in intersections
    {
      hide SearchOk, Progress, LengthLaw, Symmetric, Found, IsWalk, TrailAfter, Reached, Halts, FirstMet;
      HaltsHere(g, limit);
      if limit > 0 {
        BallIffWalk(g, a.origin, b.origin, 10);
      }
      if |intersections| < limit {
        forall p | IsWalk(g, p, a.origin, b.origin) && |p| <= 11
          ensures exists v :: v in p && v in intersections
        {
          if |p| - 1 <= na + nb {
            ShortWalksAreCut(g, a.View(), b.View(), intersections, na, nb, p);
          } else {
            DrySideCutsAllWalks(g, a.View(), b.View(), intersections, na, nb, p);
          }
          var i :| 0 <= i < |p| && p[i] in intersections;
          assert p[i] in p;
        }
      }
    }

    lemma SoundOnTrail(g: Multigraph)
      requires Sound(g)
      ensures OnTrail(g)
    {
    }

    /** Appends one route per intersection, in whatever order they come. The loops must stop;
        whether a lookup can miss on the way is left open. */
    method ReverseRoutes(routes: seq<Route>) returns (result: seq<Route>, ghost order: seq<ui32>)
      requires a != b
      requires forall v :: v in intersections ==> Returns(a.reverse, v, a.origin) && Returns(b.reverse, v, b.origin)
      modifies a`reverse, b`reverse
      ensures routes <= result
      ensures RoutesThrough(old(a.reverse), old(b.reverse), a.origin, b.origin,
                            intersections, order, result[|routes|..])
      ensures old(Rebuildable(a.View(), b.View(), intersections)) ==>
                a.reverse == old(a.reverse) && b.reverse == old(b.reverse)
    {
      hide Climbs, NoMiss, Rebuildable, Lookup;
      ghost var am, bm := a.reverse, b.reverse;
      ghost var safe := Rebuildable(a.View(), b.View(), intersections);
      result, order := routes, [];
      var rest := intersections;
      while rest != {}
        invariant rest <= intersections
        invariant routes <= result
        invariant RoutesThrough(am, bm, a.origin, b.origin, intersections - rest, order, result[|routes|..])
        invariant SameLookups(am, a.reverse) && SameLookups(bm, b.reverse)
        invariant safe ==> a.reverse == am && b.reverse == bm
      {
        var v :| v in rest;
        rest := rest - {v};
        SameClimbs(am, a.reverse, v, a.origin);
        SameClimbs(bm, b.reverse, v, b.origin);
        var r, ca := a.ClimbToFront(v, [v]);
        ghost var cb;
        r, cb := b.ClimbToBack(v, r);
        assert IsRoute(am, bm, a.origin, b.origin, v, r);
        if safe {
          RebuildableNeverMisses(old(a.View()), old(b.View()), intersections, v, ca, cb);
        }
        result, order := result + [r], order + [v];
      }
    }
  }

  /** Whatever order the sets and ranges were iterated in, two searches of one graph between the same
      endpoints for the same limit end with the same sets, found in the same half-steps; only the
      parents may differ. */
  lemma OrderDoesNotMatter(g: Multigraph, s: Search, t: Search, limit: nat)
    requires s.Finished(g, limit) && t.Finished(g, limit)
    requires s.a.origin == t.a.origin && s.b.origin == t.b.origin
    ensures s.na == t.na && s.nb == t.nb && s.intersections == t.intersections && s.metAt == t.metAt
    ensures s.a.View() == t.a.View().(reverse := s.a.reverse) && s.b.View() == t.b.View().(reverse := s.b.reverse)
  {
    hide TrailAfter, StopsAt;
    StopIsUnique(g, s.a.origin, s.b.origin, limit, s.na, s.nb, t.na, t.nb);
  }
}
