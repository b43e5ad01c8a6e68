/** The vertices a search meets, in terms of walks alone: neither sides nor frontiers nor half-steps. */
module SearchMiddles {
  import opened Types
  import opened Graph
  import opened SearchSpec
  import opened SearchRun
  import opened SearchCuts

  /** The vertices an edge leads to. */
  ghost function Heads(g: Multigraph): set<ui32> {
    set e | e in g :: e.1
  }

  /** `p` has h edges and keeps clear of `avoided`; v is in its middle, nearer to b when h is odd. */
  ghost predicate WalkOver(g: Multigraph, a: ui32, b: ui32, h: nat, avoided: set<ui32>, v: ui32, p: seq<ui32>) {
    IsWalk(g, p, a, b) && |p| == h + 1 && p[|p| / 2] == v && !Cut(p, avoided)
  }

  ghost predicate IsMiddle(g: Multigraph, a: ui32, b: ui32, h: nat, avoided: set<ui32>, v: ui32) {
    exists p :: WalkOver(g, a, b, h, avoided, v, p)
  }

  /** The middles of walks of at most h edges, those of longer walks only if they keep clear of the
      middles of shorter ones. */
  ghost function Middles(g: Multigraph, a: ui32, b: ui32, h: nat): set<ui32> {
    if h == 0 then {} else Middles(g, a, b, h - 1) + MiddlesOf(g, a, b, h, Middles(g, a, b, h - 1))
  }

  ghost function MiddlesOf(g: Multigraph, a: ui32, b: ui32, h: nat, avoided: set<ui32>): set<ui32> {
    set v | v in Heads(g) && IsMiddle(g, a, b, h, avoided, v)
  }

  /** The middles that walks of exactly h edges add. */
  ghost function MiddlesAt(g: Multigraph, a: ui32, b: ui32, h: nat): set<ui32> {
    if h == 0 then {} else MiddlesOf(g, a, b, h, Middles(g, a, b, h - 1))
  }

  // ----- one half-step

  lemma {:induction false} WalkTo(g: Multigraph, s: Side, met: set<ui32>, steps: nat, v: ui32) returns (w: seq<ui32>)
    requires SideOk(g, s, met, steps) && v in s.all
    ensures IsWalk(g, w, s.origin, v) && |w| == s.gen[v] + 1
    ensures forall i :: 0 <= i < |w| - 1 ==> w[i] in s.expanded
    decreases s.gen[v]
  {
    if v == s.origin {
      w := [v];
    } else {
      w := WalkTo(g, s, met, steps, s.reverse[v]);
      w := w + [v];
    }
  }

  lemma WalksJoin(g: Multigraph, p: seq<ui32>, a: ui32, u: ui32, q: seq<ui32>, v: ui32, b: ui32)
    requires IsWalk(g, p, a, u) && IsWalk(g, q, v, b) && Edge(g, u, v)
    ensures IsWalk(g, p + q, a, b)
  {
  }

  /** What a half-step meets ends the first part of a walk no earlier meeting cuts. */
  lemma MetHasWalk(g: Multigraph, x: Side, y: Side, met: set<ui32>, nx: nat, ny: nat, v: ui32) returns (p: seq<ui32>)
    requires Symmetric(g) && PairOk(g, x, y, met, nx, ny) && v in Met(g, x, y)
    ensures IsWalk(g, p, x.origin, y.origin) && |p| == nx + ny + 2 && p[nx + 1] == v && !Cut(p, met)
  {
    MetIsOnFrontier(g, x, y, met, nx, ny);
    InNeighbours(g, x.last, v);
    var u: ui32 :| u in x.last && Edge(g, u, v);
    var w := WalkTo(g, x, met, nx, u);
    var z := WalkTo(g, y, met, ny, v);
    WalkBackwards(g, z, y.origin, v);
    p := w + Reversed(z);
    WalksJoin(g, w, x.origin, u, Reversed(z), v, y.origin);
  }

  lemma WalkIsMet(g: Multigraph, x: Side, y: Side, met: set<ui32>, nx: nat, ny: nat, p: seq<ui32>)
    requires Symmetric(g) && PairOk(g, x, y, met, nx, ny)
    requires IsWalk(g, p, x.origin, y.origin) && |p| == nx + ny + 2 && !Cut(p, met)
    ensures p[nx + 1] in Met(g, x, y)
  {
    UncutWalkIsKnown(g, x, met, nx, p, y.origin, nx);
    WalkBackwards(g, p, x.origin, y.origin);
    ReversedUncut(p, met);
    var q := Reversed(p);
    assert q[ny] == p[nx + 1];
    UncutWalkIsKnown(g, y, met, ny, q, x.origin, ny);
    assert p[nx] !in met && p[nx + 1] !in met;
    assert Edge(g, p[nx], p[nx + 1]);
    InNeighbours(g, x.last, p[nx + 1]);
  }

  // ----- the run

  lemma SomeParents(g: Multigraph, s: Side) returns (reverse: map<ui32, ui32>)
    ensures Parents(g, s, reverse)
  {
    forall v | v in Found(g, s)
      ensures exists u: ui32 :: u in s.last && Edge(g, u, v)
    {
      InNeighbours(g, s.last, v);
    }
    reverse := s.reverse + map v | v in Found(g, s) :: (var u: ui32 :| u in s.last && Edge(g, u, v); u);
  }

  lemma SameOrigins(g: Multigraph, x: Side, y: Side, reverse: map<ui32, ui32>, steps: nat)
    ensures Advance(g, x, reverse, y, steps).origin == x.origin && Prune(g, y, x).origin == y.origin
  {
  }

  lemma OurTrailTurn(g: Multigraph, a: Side, b: Side, t: Trail, n: nat) returns (a': Side, b': Side)
    requires Symmetric(g) && SearchOk(g, a, b, t.met, n, n) && Bare(a) == t.a && Bare(b) == t.b
    ensures var t' := OurTurnOf(g, t, n, n + n + 1);
            SearchOk(g, a', b', t'.met, n + 1, n) && Bare(a') == t'.a && Bare(b') == t'.b
    ensures a'.origin == a.origin && b'.origin == b.origin
  {
    hide Parents, Found, SearchOk, Advance, Prune, Met;
    var reverse := SomeParents(g, a);
    OurTurnKeepsSearch(g, a, b, reverse, t.met, n, n);
    BareTurn(g, a, b, reverse, n);
    SameOrigins(g, a, b, reverse, n);
    a', b' := Advance(g, a, reverse, b, n), Prune(g, b, a);
  }

  lemma TheirTrailTurn(g: Multigraph, a: Side, b: Side, t: Trail, n: nat) returns (a': Side, b': Side)
    requires Symmetric(g) && SearchOk(g, a, b, t.met, n + 1, n) && Bare(a) == t.a && Bare(b) == t.b
    ensures var t' := TheirTurnOf(g, t, n, n + n + 2);
            SearchOk(g, a', b', t'.met, n + 1, n + 1) && Bare(a') == t'.a && Bare(b') == t'.b
    ensures a'.origin == a.origin && b'.origin == b.origin
  {
    hide Parents, Found, SearchOk, Advance, Prune, Met;
    var reverse := SomeParents(g, b);
    TheirTurnKeepsSearch(g, a, b, reverse, t.met, n + 1, n);
    BareTurn(g, b, a, reverse, n);
    SameOrigins(g, b, a, reverse, n);
    a', b' := Prune(g, a, b), Advance(g, b, reverse, a, n);
  }

  /** With some parents, the run's sides are those of a search. */
  lemma {:induction false} TrailIsSearch(g: Multigraph, from: ui32, to: ui32, na: nat, nb: nat)
    returns (a: Side, b: Side)
    requires Symmetric(g) && from != to && Turns(na, nb)
    ensures var t := TrailAfter(g, from, to, na, nb);
            SearchOk(g, a, b, t.met, na, nb) && Bare(a) == t.a && Bare(b) == t.b
    ensures a.origin == from && b.origin == to
    decreases na + nb
  {
    hide SearchOk, Bare, OurTurnOf, TheirTurnOf;
    if na == 0 {
      a, b := TrailStart(g, from, to);
    } else if na == nb {
      a, b := TrailIsSearch(g, from, to, na, nb - 1);
      a, b := TheirTrailTurn(g, a, b, TrailAfter(g, from, to, na, nb - 1), nb - 1);
    } else {
      a, b := TrailIsSearch(g, from, to, na - 1, nb);
      a, b := OurTrailTurn(g, a, b, TrailAfter(g, from, to, na - 1, nb), nb);
    }
  }

  lemma TrailStart(g: Multigraph, from: ui32, to: ui32) returns (a: Side, b: Side)
    requires from != to
    ensures var t := TrailAfter(g, from, to, 0, 0);
            SearchOk(g, a, b, t.met, 0, 0) && Bare(a) == t.a && Bare(b) == t.b
    ensures a.origin == from && b.origin == to
  {
    a, b := Start(from), Start(to);
    StartOk(g, from, to);
  }

  /** What a half-step meets are the middles of the walks it completes that no earlier meeting cuts. */
  lemma OurMeets(g: Multigraph, a: Side, b: Side, met: set<ui32>, n: nat, v: ui32)
    requires Symmetric(g) && PairOk(g, a, b, met, n, n)
    ensures v in Met(g, a, b) <==> IsMiddle(g, a.origin, b.origin, n + n + 1, met, v)
  {
    hide Met, Cut, IsWalk, PairOk, Symmetric;
    if v in Met(g, a, b) {
      var p := MetHasWalk(g, a, b, met, n, n, v);
      assert WalkOver(g, a.origin, b.origin, n + n + 1, met, v, p);
    }
    var h := n + n + 1;
    forall p | WalkOver(g, a.origin, b.origin, h, met, v, p)
      ensures v in Met(g, a, b)
    {
      WalkIsMet(g, a, b, met, n, n, p);
    }
  }

  lemma UncutBackwards(g: Multigraph, a: ui32, b: ui32, n: nat, met: set<ui32>, p: seq<ui32>)
    requires Symmetric(g) && IsWalk(g, p, a, b) && |p| == n + n + 3 && !Cut(p, met)
    ensures IsWalk(g, Reversed(p), b, a) && Reversed(p)[n + 1] == p[n + 1] && !Cut(Reversed(p), met)
  {
    hide IsWalk, Cut, Symmetric;
    WalkBackwards(g, p, a, b);
    ReversedUncut(p, met);
  }

  lemma TheirMeets(g: Multigraph, a: Side, b: Side, met: set<ui32>, n: nat, v: ui32)
    requires Symmetric(g) && PairOk(g, b, a, met, n, n + 1)
    ensures v in Met(g, b, a) <==> IsMiddle(g, a.origin, b.origin, n + n + 2, met, v)
  {
    hide Met, Cut, IsWalk, PairOk, Symmetric;
    var h := n + n + 2;
    if v in Met(g, b, a) {
      var q := MetHasWalk(g, b, a, met, n, n + 1, v);
      UncutBackwards(g, b.origin, a.origin, n, met, q);
      assert WalkOver(g, a.origin, b.origin, h, met, v, Reversed(q));
    }
    forall p | WalkOver(g, a.origin, b.origin, h, met, v, p)
      ensures v in Met(g, b, a)
    {
      UncutBackwards(g, a.origin, b.origin, n, met, p);
      WalkIsMet(g, b, a, met, n, n + 1, Reversed(p));
    }
  }

  lemma PairSwaps(g: Multigraph, x: Side, y: Side, met: set<ui32>, nx: nat, ny: nat)
    requires PairOk(g, x, y, met, nx, ny)
    ensures PairOk(g, y, x, met, ny, nx)
  {
    hide SideOk;
  }

  lemma MiddleIffWalk(g: Multigraph, a: ui32, b: ui32, h: nat, v: ui32)
    requires h > 0
    ensures v in MiddlesAt(g, a, b, h) <==> IsMiddle(g, a, b, h, Middles(g, a, b, h - 1), v)
    ensures v in MiddlesAt(g, a, b, h) ==> v !in Middles(g, a, b, h - 1)
  {
    hide Middles;
    var before := Middles(g, a, b, h - 1);
    forall p | WalkOver(g, a, b, h, before, v, p)
      ensures v in Heads(g) && v !in before
    {
      var i := |p| / 2 - 1;
      assert Edge(g, p[i], p[i + 1]);
    }
  }

  /** What the run meets in its next half-step are the next middles. */
  lemma NextMeets(g: Multigraph, from: ui32, to: ui32, na: nat, nb: nat, v: ui32)
    requires Symmetric(g) && from != to && Turns(na, nb)
    requires TrailAfter(g, from, to, na, nb).met == Middles(g, from, to, na + nb)
    ensures var t := TrailAfter(g, from, to, na, nb);
            v in (if na == nb then Met(g, t.a, t.b) else Met(g, t.b, t.a)) <==> v in MiddlesAt(g, from, to, na + nb + 1)
  {
    hide MiddlesAt, Middles, TrailAfter, Met, IsMiddle, PairOk, Symmetric;
    var t := TrailAfter(g, from, to, na, nb);
    var a, b := TrailIsSearch(g, from, to, na, nb);
    MiddleIffWalk(g, from, to, na + nb + 1, v);
    BareTurn(g, a, b, map[], 0);
    BareTurn(g, b, a, map[], 0);
    if na == nb {
      OurMeets(g, a, b, t.met, na, v);
    } else {
      PairSwaps(g, a, b, t.met, na, nb);
      TheirMeets(g, a, b, t.met, nb, v);
    }
  }

  /** The vertices met are the middles up to h, and the half-step that met each is its number. */
  ghost predicate ByMiddles(g: Multigraph, from: ui32, to: ui32, t: Trail, h: nat) {
    && t.met == Middles(g, from, to, h) && t.metAt.Keys == t.met
    && (forall v :: v in t.metAt ==> t.metAt[v] <= h && v in MiddlesAt(g, from, to, t.metAt[v]))
    && forall v, k: nat :: k <= h && v in MiddlesAt(g, from, to, k) ==> v in t.metAt && t.metAt[v] == k
  }

  lemma {:induction false} MiddlesGrow(g: Multigraph, a: ui32, b: ui32, k: nat, h: nat)
    requires k <= h
    ensures Middles(g, a, b, k) <= Middles(g, a, b, h)
    ensures MiddlesAt(g, a, b, k) <= Middles(g, a, b, h)
    decreases h
  {
    hide MiddlesOf;
    if k < h {
      MiddlesGrow(g, a, b, k, h - 1);
    }
  }

  lemma NoMiddles(g: Multigraph, a: ui32, b: ui32)
    ensures MiddlesAt(g, a, b, 0) == Middles(g, a, b, 0) == {}
  {
  }

  lemma NotedLooks(metAt: map<ui32, nat>, added: set<ui32>, h: nat)
    requires metAt.Keys !! added
    ensures Noted(metAt, added, h).Keys == metAt.Keys + added
    ensures forall v :: v in added ==> Noted(metAt, added, h)[v] == h
    ensures forall v :: v in metAt ==> Noted(metAt, added, h)[v] == metAt[v]
  {
  }

  lemma NotedMiddles(g: Multigraph, from: ui32, to: ui32, t: Trail, t': Trail, h: nat)
    requires ByMiddles(g, from, to, t, h)
    requires t'.met == t.met + MiddlesAt(g, from, to, h + 1)
    requires t'.metAt == Noted(t.metAt, t'.met - t.met, h + 1)
    ensures ByMiddles(g, from, to, t', h + 1)
  {
    MiddlesNext(g, from, to, h + 1);
    hide MiddlesAt, Middles, Noted;
    var added := MiddlesAt(g, from, to, h + 1);
    forall v | v in added
      ensures v !in t.met
    {
      MiddleIffWalk(g, from, to, h + 1, v);
    }
    assert t'.met - t.met == added;
    NotedLooks(t.metAt, added, h + 1);
    forall v, k: nat | k <= h + 1 && v in MiddlesAt(g, from, to, k)
      ensures v in t'.metAt && t'.metAt[v] == k
    {
      assert k <= h ==> v in t.metAt && t.metAt[v] == k;
    }
  }

  /** After any number of half-steps, and in whatever order anything was visited, the vertices met
      are those defined by walks. */
  lemma {:induction false} TrailByMiddles(g: Multigraph, from: ui32, to: ui32, na: nat, nb: nat)
    requires Symmetric(g) && from != to && Turns(na, nb)
    ensures ByMiddles(g, from, to, TrailAfter(g, from, to, na, nb), na + nb)
    decreases na + nb
  {
    hide MiddlesAt, Middles, Met, Advance, Prune, Symmetric, Noted;
    if na == 0 {
      forall k: nat | k <= 0
        ensures MiddlesAt(g, from, to, k) == Middles(g, from, to, k) == {}
      {
        NoMiddles(g, from, to);
      }
    } else {
      var ma, mb := if na == nb then na else na - 1, if na == nb then nb - 1 else nb;
      TrailByMiddles(g, from, to, ma, mb);
      var t, t' := TrailAfter(g, from, to, ma, mb), TrailAfter(g, from, to, na, nb);
      forall v
        ensures v in t'.met <==> v in t.met || v in MiddlesAt(g, from, to, ma + mb + 1)
      {
        NextMeets(g, from, to, ma, mb, v);
      }
      NotedMiddles(g, from, to, t, t', ma + mb);
    }
  }

  // ----- where it stops

  /** The first round from r on whose middles are enough, or the last one. */
  ghost function RoundsFrom(g: Multigraph, a: ui32, b: ui32, limit: nat, r: nat): (m: nat)
    requires r <= ROUNDS
    ensures r <= m <= ROUNDS
    decreases ROUNDS - r
  {
    if r == ROUNDS || |Middles(g, a, b, 2 * r)| >= limit then r else RoundsFrom(g, a, b, limit, r + 1)
  }

  /** The length in edges of the longest walks that count. */
  ghost function Reach(g: Multigraph, a: ui32, b: ui32, limit: nat): (h: nat)
    ensures 2 <= h <= 2 * ROUNDS
  {
    2 * RoundsFrom(g, a, b, limit, 1)
  }

  lemma {:induction false} RoundsStop(g: Multigraph, a: ui32, b: ui32, limit: nat, r: nat, m: nat)
    requires r <= m <= ROUNDS
    requires forall k :: r <= k < m ==> |Middles(g, a, b, 2 * k)| < limit
    ensures m <= RoundsFrom(g, a, b, limit, r)
    ensures m == ROUNDS || |Middles(g, a, b, 2 * m)| >= limit ==> RoundsFrom(g, a, b, limit, r) == m
    decreases m - r
  {
    hide Middles;
    if r < m {
      RoundsStop(g, a, b, limit, r + 1, m);
    }
  }

  lemma EnoughIsKept(g: Multigraph, a: ui32, b: ui32, limit: nat, k: nat, h: nat)
    requires k <= h
    ensures |Middles(g, a, b, k)| <= |Middles(g, a, b, h)|
  {
    hide Middles;
    MiddlesGrow(g, a, b, k, h);
    SubsetSize(Middles(g, a, b, k), Middles(g, a, b, h));
  }

  lemma SubsetSize(s: set<ui32>, t: set<ui32>)
    requires s <= t
    ensures |s| <= |t|
  {
    assert t == s + (t - s);
  }

  /** All five rounds count exactly when four do not have enough. */
  lemma FullReachIff(g: Multigraph, a: ui32, b: ui32, limit: nat)
    ensures Reach(g, a, b, limit) == 2 * ROUNDS <==> |Middles(g, a, b, 2 * (ROUNDS - 1))| < limit
  {
    hide Middles;
    var last := ROUNDS - 1;
    if |Middles(g, a, b, 2 * last)| < limit {
      forall k | 1 <= k < ROUNDS
        ensures |Middles(g, a, b, 2 * k)| < limit
      {
        EnoughIsKept(g, a, b, limit, 2 * k, 2 * last);
      }
      RoundsStop(g, a, b, limit, 1, ROUNDS);
    } else {
      RoundsEnough(g, a, b, limit, 1, last);
    }
  }

  lemma {:induction false} RoundsEnough(g: Multigraph, a: ui32, b: ui32, limit: nat, r: nat, m: nat)
    requires r <= m < ROUNDS && |Middles(g, a, b, 2 * m)| >= limit
    ensures RoundsFrom(g, a, b, limit, r) <= m
    decreases m - r
  {
    hide Middles;
    if r < m {
      RoundsEnough(g, a, b, limit, r + 1, m);
    }
  }

  lemma RoundsShort(g: Multigraph, from: ui32, to: ui32, limit: nat, na: nat, nb: nat, k: nat)
    requires Symmetric(g) && from != to && Turns(na, nb) && Reached(g, from, to, limit, na, nb)
    requires 1 <= k && 2 * k < na + nb
    ensures |Middles(g, from, to, 2 * k)| < limit
  {
    hide TrailAfter, Middles, Symmetric, Found, Reached;
    ReachedPassesNoStop(g, from, to, limit, k, k, na, nb);
    TrailByMiddles(g, from, to, k, k);
  }

  /** Once a side is dry there are no further middles. */
  lemma {:induction false} DryMiddles(g: Multigraph, from: ui32, to: ui32, na: nat, nb: nat, h: nat)
    requires Symmetric(g) && from != to && Turns(na, nb) && na + nb <= h
    requires var t := TrailAfter(g, from, to, na, nb); Found(g, t.a) == {} || Found(g, t.b) == {}
    ensures Middles(g, from, to, h) == Middles(g, from, to, na + nb)
    ensures na + nb < h ==> MiddlesAt(g, from, to, h) == {}
    decreases h
  {
    hide TrailAfter, Middles, MiddlesAt, Symmetric, Found, SearchOk, IsWalk, Cut;
    if na + nb < h {
      DryMiddles(g, from, to, na, nb, h - 1);
      TrailByMiddles(g, from, to, na, nb);
      var a, b := TrailIsSearch(g, from, to, na, nb);
      BareTurn(g, a, b, map[], 0);
      BareTurn(g, b, a, map[], 0);
      var before := Middles(g, from, to, h - 1);
      forall v, p | WalkOver(g, from, to, h, before, v, p)
        ensures false
      {
        DrySideCutsAllWalks(g, a, b, before, na, nb, p);
      }
      forall v
        ensures v !in MiddlesAt(g, from, to, h)
      {
        MiddleIffWalk(g, from, to, h, v);
      }
      MiddlesNext(g, from, to, h);
    }
  }

  lemma MiddlesNext(g: Multigraph, a: ui32, b: ui32, h: nat)
    requires h > 0
    ensures Middles(g, a, b, h) == Middles(g, a, b, h - 1) + MiddlesAt(g, a, b, h)
  {
  }

  lemma NoMiddlesAdded(g: Multigraph, from: ui32, to: ui32, t: Trail, n: nat, h: nat)
    requires ByMiddles(g, from, to, t, n) && n <= h && Middles(g, from, to, h) == t.met
    requires forall k: nat :: n < k <= h ==> MiddlesAt(g, from, to, k) == {}
    ensures ByMiddles(g, from, to, t, h)
  {
    hide MiddlesAt, Middles;
  }

  lemma DryByMiddles(g: Multigraph, from: ui32, to: ui32, na: nat, nb: nat, h: nat)
    requires Symmetric(g) && from != to && Turns(na, nb) && na + nb <= h
    requires var t := TrailAfter(g, from, to, na, nb); Found(g, t.a) == {} || Found(g, t.b) == {}
    ensures ByMiddles(g, from, to, TrailAfter(g, from, to, na, nb), h)
  {
    hide TrailAfter, Middles, MiddlesAt, Symmetric, Found;
    TrailByMiddles(g, from, to, na, nb);
    DryMiddles(g, from, to, na, nb, h);
    forall k: nat | na + nb < k <= h
      ensures MiddlesAt(g, from, to, k) == {}
    {
      DryMiddles(g, from, to, na, nb, k);
    }
    NoMiddlesAdded(g, from, to, TrailAfter(g, from, to, na, nb), na + nb, h);
  }

  /** A finished search has met the middles of the walks within its reach, wherever it stopped. */
  lemma FinishedByMiddles(g: Multigraph, from: ui32, to: ui32, limit: nat, na: nat, nb: nat)
    requires Symmetric(g) && from != to && Turns(na, nb) && StopsAt(g, from, to, limit, na, nb)
    ensures ByMiddles(g, from, to, TrailAfter(g, from, to, na, nb), Reach(g, from, to, limit))
  {
    hide TrailAfter, Middles, MiddlesAt, Symmetric, Found, Reached, ByMiddles, RoundsFrom;
    var t, m := TrailAfter(g, from, to, na, nb), if na == 0 then 1 else na;
    ReachedRounds(g, from, to, limit, na, nb);
    forall k | 1 <= k < m
      ensures |Middles(g, from, to, 2 * k)| < limit
    {
      RoundsShort(g, from, to, limit, na, nb, k);
    }
    RoundsStop(g, from, to, limit, 1, m);
    if Found(g, t.a) == {} || Found(g, t.b) == {} {
      DryByMiddles(g, from, to, na, nb, Reach(g, from, to, limit));
    } else {
      TrailByMiddles(g, from, to, na, nb);
      MetIsMiddles(g, from, to, t, na + nb);
    }
  }

  lemma MetIsMiddles(g: Multigraph, from: ui32, to: ui32, t: Trail, h: nat)
    requires ByMiddles(g, from, to, t, h)
    ensures t.met == Middles(g, from, to, h)
  {
  }
}
