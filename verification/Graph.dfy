/** Multigraphs as unordered multimaps of directed edges, their walks and their metric. */
module Graph {
  import opened Types

  /** An unordered multimap from vertex to neighbour: a bag of directed edges. */
  type Multigraph = multiset<(ui32, ui32)>

  predicate Edge(g: Multigraph, u: ui32, v: ui32) {
    (u, v) in g
  }

  ghost predicate Symmetric(g: Multigraph) {
    forall u: ui32, v: ui32 :: Edge(g, u, v) ==> Edge(g, v, u)
  }

  /** The vertices one edge away from a member of `s`. */
  ghost function Neighbours(g: Multigraph, s: set<ui32>): set<ui32> {
    set e | e in g && e.0 in s :: e.1
  }

  lemma InNeighbours(g: Multigraph, s: set<ui32>, v: ui32)
    ensures v in Neighbours(g, s) <==> exists u: ui32 :: u in s && Edge(g, u, v)
  {
  }

  /** The vertices at most `n` edges away from `s`. */
  ghost function Ball(g: Multigraph, s: ui32, n: nat): set<ui32> {
    if n == 0 then {s} else Ball(g, s, n - 1) + Neighbours(g, Ball(g, s, n - 1))
  }

  ghost predicate AtDistance(g: Multigraph, s: ui32, v: ui32, d: nat) {
    v in Ball(g, s, d) && (d > 0 ==> v !in Ball(g, s, d - 1))
  }

  /** A walk is listed by its vertices, so it has one edge fewer than its length. */
  ghost predicate IsWalk(g: Multigraph, p: seq<ui32>, a: ui32, b: ui32) {
    && |p| > 0 && p[0] == a && p[|p| - 1] == b
    && forall i :: 0 <= i < |p| - 1 ==> Edge(g, p[i], p[i + 1])
  }

  function Reversed(s: seq<ui32>): (r: seq<ui32>)
    ensures |r| == |s| && forall i :: 0 <= i < |s| ==> r[i] == s[|s| - 1 - i]
  {
    seq(|s|, i requires 0 <= i < |s| => s[|s| - 1 - i])
  }

  ghost predicate NoRepeats(p: seq<ui32>) {
    forall i, j :: 0 <= i < j < |p| ==> p[i] != p[j]
  }

  ghost predicate IsSimplePath(g: Multigraph, p: seq<ui32>, a: ui32, b: ui32) {
    IsWalk(g, p, a, b) && NoRepeats(p)
  }

  lemma WalkBackwards(g: Multigraph, p: seq<ui32>, a: ui32, b: ui32)
    requires Symmetric(g) && IsWalk(g, p, a, b)
    ensures IsWalk(g, Reversed(p), b, a)
  {
    var q, n := Reversed(p), |p|;
    forall i | 0 <= i < n - 1
      ensures Edge(g, q[i], q[i + 1])
    {
      assert Edge(g, p[n - 2 - i], p[n - 2 - i + 1]);
    }
  }

  lemma {:induction false} BallMonotone(g: Multigraph, s: ui32, m: nat, n: nat)
    requires m <= n
    ensures Ball(g, s, m) <= Ball(g, s, n)
    decreases n - m
  {
    if m < n {
      BallMonotone(g, s, m, n - 1);
    }
  }

  lemma BallStep(g: Multigraph, s: ui32, u: ui32, v: ui32, n: nat)
    requires u in Ball(g, s, n) && Edge(g, u, v)
    ensures v in Ball(g, s, n + 1)
  {
  }

  /** A vertex first reached at radius n is entered from radius n - 1. */
  lemma BallEntry(g: Multigraph, s: ui32, v: ui32, n: nat) returns (u: ui32)
    requires n > 0 && v in Ball(g, s, n) && v !in Ball(g, s, n - 1)
    ensures u in Ball(g, s, n - 1) && Edge(g, u, v)
  {
    InNeighbours(g, Ball(g, s, n - 1), v);
    u :| u in Ball(g, s, n - 1) && Edge(g, u, v);
  }

  /** A vertex is in the ball of radius n exactly when a walk of at most n edges leads to it. */
  lemma {:induction false} BallIffWalk(g: Multigraph, s: ui32, v: ui32, n: nat)
    ensures v in Ball(g, s, n) <==> exists p :: IsWalk(g, p, s, v) && |p| <= n + 1
  {
    if v in Ball(g, s, n) {
      var p := WalkInBall(g, s, v, n);
    }
    forall p | IsWalk(g, p, s, v) && |p| <= n + 1
      ensures v in Ball(g, s, n)
    {
      WalkStaysInBall(g, s, v, p);
      BallMonotone(g, s, |p| - 1, n);
    }
  }

  lemma {:induction false} WalkInBall(g: Multigraph, s: ui32, v: ui32, n: nat) returns (p: seq<ui32>)
    requires v in Ball(g, s, n)
    ensures IsWalk(g, p, s, v) && |p| <= n + 1
    decreases n
  {
    if n == 0 {
      p := [s];
    } else if v in Ball(g, s, n - 1) {
      p := WalkInBall(g, s, v, n - 1);
    } else {
      var u := BallEntry(g, s, v, n);
      p := WalkInBall(g, s, u, n - 1);
      p := p + [v];
    }
  }

  lemma {:induction false} WalkStaysInBall(g: Multigraph, s: ui32, v: ui32, p: seq<ui32>)
    requires IsWalk(g, p, s, v)
    ensures v in Ball(g, s, |p| - 1)
    decreases |p|
  {
    if |p| > 1 {
      var q := p[..|p| - 1];
      forall i | 0 <= i < |q| - 1
        ensures Edge(g, q[i], q[i + 1])
      {
        assert Edge(g, p[i], p[i + 1]);
      }
      WalkStaysInBall(g, s, q[|q| - 1], q);
      assert Edge(g, p[|p| - 2], p[|p| - 2 + 1]);
      BallStep(g, s, q[|q| - 1], v, |q| - 1);
    }
  }

  /** `AtDistance` is the number of edges on a shortest walk. */
  lemma DistanceIsShortestWalk(g: Multigraph, s: ui32, v: ui32, d: nat)
    ensures AtDistance(g, s, v, d) <==>
              && (exists p :: IsWalk(g, p, s, v) && |p| == d + 1)
              && (forall p :: IsWalk(g, p, s, v) ==> |p| >= d + 1)
  {
    BallIffWalk(g, s, v, d);
    if d > 0 {
      BallIffWalk(g, s, v, d - 1);
    }
  }

  lemma {:induction false} BallPrepend(g: Multigraph, v: ui32, u: ui32, w: ui32, n: nat)
    requires Edge(g, v, u) && w in Ball(g, u, n)
    ensures w in Ball(g, v, n + 1)
    decreases n
  {
    if n == 0 {
      BallStep(g, v, v, u, 0);
    } else if w in Ball(g, u, n - 1) {
      BallPrepend(g, v, u, w, n - 1);
    } else {
      var x := BallEntry(g, u, w, n);
      BallPrepend(g, v, u, x, n - 1);
      BallStep(g, v, x, w, n);
    }
  }

  /** On a symmetric graph, two balls meet exactly when their centres are close enough. */
  lemma BallsMeet(g: Multigraph, a: ui32, b: ui32, m: nat, n: nat)
    requires Symmetric(g)
    ensures b in Ball(g, a, m + n) <==> Ball(g, a, m) * Ball(g, b, n) != {}
  {
    if b in Ball(g, a, m + n) {
      var w := BallSplit(g, a, b, m, n);
      assert w in Ball(g, a, m) * Ball(g, b, n);
    }
    if Ball(g, a, m) * Ball(g, b, n) != {} {
      var w :| w in Ball(g, a, m) * Ball(g, b, n);
      BallJoin(g, a, b, w, m, n);
    }
  }

  lemma {:induction false} BallSplit(g: Multigraph, a: ui32, b: ui32, m: nat, n: nat) returns (w: ui32)
    requires Symmetric(g) && b in Ball(g, a, m + n)
    ensures w in Ball(g, a, m) && w in Ball(g, b, n)
    decreases n
  {
    hide Neighbours;
    if n == 0 {
      w := b;
    } else if b in Ball(g, a, m + n - 1) {
      w := BallSplit(g, a, b, m, n - 1);
    } else {
      var u := BallEntry(g, a, b, m + n);
      w := BallSplit(g, a, u, m, n - 1);
      assert Edge(g, b, u);
      BallPrepend(g, b, u, w, n - 1);
    }
  }

  lemma {:induction false} BallJoin(g: Multigraph, a: ui32, b: ui32, w: ui32, m: nat, n: nat)
    requires Symmetric(g) && w in Ball(g, a, m) && w in Ball(g, b, n)
    ensures b in Ball(g, a, m + n)
    decreases n
  {
    hide Neighbours;
    if n == 0 {
    } else if w in Ball(g, b, n - 1) {
      BallJoin(g, a, b, w, m, n - 1);
    } else {
      var u := BallEntry(g, b, w, n);
      BallStep(g, a, w, u, m);
      BallJoin(g, a, b, u, m + 1, n - 1);
    }
  }

  /** A ball that stops growing has reached its whole component. */
  lemma {:induction false} BallFixpoint(g: Multigraph, s: ui32, m: nat, n: nat)
    requires Ball(g, s, m + 1) == Ball(g, s, m)
    ensures Ball(g, s, n) <= Ball(g, s, m)
    decreases n
  {
    hide Neighbours;
    if n <= m {
      BallMonotone(g, s, n, m);
    } else {
      BallFixpoint(g, s, m, n - 1);
      BallMonotone(g, s, m, n - 1);
      assert Ball(g, s, n - 1) == Ball(g, s, m);
    }
  }
}
