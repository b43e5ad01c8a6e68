/** Every walk a search is long enough for passes through one of its intersections. */
module SearchCuts {
  import opened Types
  import opened Graph
  import opened SearchSpec

  ghost predicate Cut(p: seq<ui32>, met: set<ui32>) {
    exists i :: 0 <= i < |p| && p[i] in met
  }

  /** A walk from a side's origin is known, and no later than its length, as far as it has met nobody. */
  lemma {:induction false} UncutWalkIsKnown(g: Multigraph, s: Side, met: set<ui32>, steps: nat,
                                            p: seq<ui32>, b: ui32, i: nat)
    requires SideOk(g, s, met, steps) && IsWalk(g, p, s.origin, b) && i < |p|
    requires forall j :: 0 <= j < i ==> p[j] !in met
    requires i <= steps || Found(g, s) == {}
    ensures p[i] in s.all && (i <= steps ==> s.gen[p[i]] <= i)
  {
    if i > 0 {
      UncutWalkIsKnown(g, s, met, steps, p, b, i - 1);
      assert Edge(g, p[i - 1], p[i - 1 + 1]);
      assert p[i - 1] !in met;
      if p[i - 1] in s.last {
        InNeighbours(g, s.last, p[i]);
        assert p[i] in Neighbours(g, s.last);
        assert i > steps ==> p[i] !in Found(g, s);
      }
    }
  }

  /** Any walk of at most as many edges as half-steps were made passes through an intersection. */
  lemma ShortWalksAreCut(g: Multigraph, a: Side, b: Side, met: set<ui32>, na: nat, nb: nat, p: seq<ui32>)
    requires Symmetric(g) && SearchOk(g, a, b, met, na, nb)
    requires IsWalk(g, p, a.origin, b.origin) && |p| - 1 <= na + nb
    ensures Cut(p, met)
  {
    if !Cut(p, met) {
      var n := |p| - 1;
      var i := if n <= na then n else na;
      UncutWalkIsKnown(g, a, met, na, p, b.origin, i);
      var q := Reversed(p);
      WalkBackwards(g, p, a.origin, b.origin);
      ReversedUncut(p, met);
      assert q[n - i] == p[i];
      UncutWalkIsKnown(g, b, met, nb, q, a.origin, n - i);
    }
  }

  lemma ReversedUncut(p: seq<ui32>, met: set<ui32>)
    ensures Cut(Reversed(p), met) ==> Cut(p, met)
  {
    if Cut(Reversed(p), met) {
      var i :| 0 <= i < |Reversed(p)| && Reversed(p)[i] in met;
      assert p[|p| - 1 - i] in met;
    }
  }

  /** Once a side has run dry, walks of every length are cut. */
  lemma DrySideCutsAllWalks(g: Multigraph, a: Side, b: Side, met: set<ui32>, na: nat, nb: nat, p: seq<ui32>)
    requires Symmetric(g) && SearchOk(g, a, b, met, na, nb)
    requires Found(g, a) == {} || Found(g, b) == {}
    requires IsWalk(g, p, a.origin, b.origin)
    ensures Cut(p, met)
  {
    if !Cut(p, met) {
      if Found(g, a) == {} {
        UncutWalkIsKnown(g, a, met, na, p, b.origin, |p| - 1);
      } else {
        WalkBackwards(g, p, a.origin, b.origin);
        ReversedUncut(p, met);
        UncutWalkIsKnown(g, b, met, nb, Reversed(p), a.origin, |p| - 1);
      }
    }
  }

  lemma {:induction false} FirstCut(p: seq<ui32>, met: set<ui32>) returns (i: nat)
    requires Cut(p, met)
    ensures i < |p| && p[i] in met && forall j :: 0 <= j < i ==> p[j] !in met
    decreases |p|
  {
    if p[0] in met {
      i := 0;
    } else {
      var k :| 0 <= k < |p| && p[k] in met;
      assert p[1..][k - 1] == p[k];
      i := FirstCut(p[1..], met);
      i := i + 1;
    }
  }

  /** Where a walk first meets someone, that vertex is known no later. */
  lemma FirstCutIsNoEarlier(g: Multigraph, s: Side, met: set<ui32>, steps: nat, p: seq<ui32>, b: ui32, i: nat)
    requires SideOk(g, s, met, steps) && IsWalk(g, p, s.origin, b) && i < |p| && p[i] in met
    requires forall j :: 0 <= j < i ==> p[j] !in met
    ensures s.gen[p[i]] <= i
  {
    if i <= steps {
      UncutWalkIsKnown(g, s, met, steps, p, b, i);
    }
  }

  /** A walk that passes through no intersection other than v is at least as long as v's route. */
  lemma NoShorterWalk(g: Multigraph, a: Side, b: Side, met: set<ui32>, na: nat, nb: nat, v: ui32, p: seq<ui32>)
    requires Symmetric(g) && SearchOk(g, a, b, met, na, nb) && v in met
    requires IsWalk(g, p, a.origin, b.origin) && forall x :: x in p && x in met ==> x == v
    ensures |p| - 1 >= a.gen[v] + b.gen[v]
  {
    if Cut(p, met) {
      WalkBackwards(g, p, a.origin, b.origin);
      var q := Reversed(p);
      var i := FirstCut(p, met);
      assert q[|p| - 1 - i] == p[i];
      var j := FirstCut(q, met);
      assert q[j] == p[|p| - 1 - j] && q[j] in p;
      FirstCutIsNoEarlier(g, a, met, na, p, b.origin, i);
      FirstCutIsNoEarlier(g, b, met, nb, q, a.origin, j);
      assert i + j <= |p| - 1;
    } else if |p| - 1 <= na + nb {
      ShortWalksAreCut(g, a, b, met, na, nb, p);
    }
  }
}
