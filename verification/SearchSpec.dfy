/** What one half-step of the alternating search does to a side, and what every half-step keeps. */
module SearchSpec {
  import opened Types
  import opened Graph

  /** One direction of the search. `expanded` and `gen` are history: the vertices whose
      neighbours have been collected, and the expansion that discovered each known vertex. */
  datatype Side = Side(
    origin: ui32,
    all: set<ui32>,
    last: set<ui32>,
    reverse: map<ui32, ui32>,
    expanded: set<ui32>,
    gen: map<ui32, nat>)

  ghost function Start(origin: ui32): Side {
    Side(origin, {origin}, {origin}, map[], {}, map[origin := 0])
  }

  /** The vertices an expansion of `s` discovers. */
  ghost function Found(g: Multigraph, s: Side): set<ui32> {
    Neighbours(g, s.last) - s.all
  }

  /** `reverse` extends the parents of `s` with some frontier parent for every newly found vertex. */
  ghost predicate Parents(g: Multigraph, s: Side, reverse: map<ui32, ui32>) {
    && reverse.Keys == s.reverse.Keys + Found(g, s)
    && (forall v :: v in s.reverse && v !in Found(g, s) ==> reverse[v] == s.reverse[v])
    && (forall v :: v in Found(g, s) ==> v in reverse && reverse[v] in s.last && Edge(g, reverse[v], v))
  }

  /** The expanding side after a half-step; `steps` counts its earlier expansions. */
  ghost function Advance(g: Multigraph, s: Side, reverse: map<ui32, ui32>, other: Side, steps: nat): Side {
    var found := Found(g, s);
    Side(s.origin, s.all + found, found - other.all, reverse, s.expanded + s.last,
         s.gen + map v | v in found :: steps + 1)
  }

  /** The waiting side after a half-step of the other side. */
  ghost function Prune(g: Multigraph, s: Side, other: Side): Side {
    s.(last := s.last - (Found(g, other) * s.all))
  }

  /** The intersections a half-step of `x` adds. */
  ghost function Met(g: Multigraph, x: Side, y: Side): set<ui32> {
    Found(g, x) * y.all
  }

  /** The invariant of one side after `steps` expansions of its own. */
  ghost predicate SideOk(g: Multigraph, s: Side, met: set<ui32>, steps: nat) {
    && s.all == s.expanded + s.last + met
    && s.expanded !! s.last && s.expanded !! met && s.last !! met
    && s.origin in s.all && s.gen.Keys == s.all
    && (forall u, v :: u in s.expanded && Edge(g, u, v) ==> v in s.all && s.gen[v] <= s.gen[u] + 1)
    && s.reverse.Keys == s.all - {s.origin}
    && s.gen[s.origin] == 0
    && (forall v :: v in s.all ==> s.gen[v] <= steps)
    && (forall v :: v in s.last ==> s.gen[v] == steps)
    && (forall v {:trigger s.reverse[v]} :: v in s.reverse ==>
          && s.reverse[v] in s.expanded && Edge(g, s.reverse[v], v)
          && s.gen[v] == s.gen[s.reverse[v]] + 1)
  }

  /** Both sides, with `met` the vertices known to both. */
  ghost predicate PairOk(g: Multigraph, x: Side, y: Side, met: set<ui32>, nx: nat, ny: nat) {
    SideOk(g, x, met, nx) && SideOk(g, y, met, ny) && met == x.all * y.all
  }

  /** No vertex expanded by one side is known to the other, and neither frontier is. */
  lemma PairSeparated(g: Multigraph, x: Side, y: Side, met: set<ui32>, nx: nat, ny: nat)
    requires PairOk(g, x, y, met, nx, ny)
    ensures x.expanded !! y.all && y.expanded !! x.all
    ensures x.last !! y.all && y.last !! x.all
  {
  }

  /** Symmetry of the graph: a vertex discovered by one side and known to the other
      is on the other's frontier, so it was discovered in the other's latest expansion. */
  lemma MetIsOnFrontier(g: Multigraph, x: Side, y: Side, met: set<ui32>, nx: nat, ny: nat)
    requires Symmetric(g) && PairOk(g, x, y, met, nx, ny)
    ensures Met(g, x, y) <= y.last
  {
    PairSeparated(g, x, y, met, nx, ny);
    forall v | v in Met(g, x, y)
      ensures v in y.last
    {
      InNeighbours(g, x.last, v);
      var u: ui32 :| u in x.last && Edge(g, u, v);
      assert Edge(g, v, u);
      assert v !in met;
      if v in y.expanded {
        assert false;
      }
    }
  }

  lemma AdvanceKeepsEdges(g: Multigraph, x: Side, y: Side, reverse: map<ui32, ui32>, met: set<ui32>, nx: nat)
    requires SideOk(g, x, met, nx)
    ensures var x' := Advance(g, x, reverse, y, nx);
            && x'.gen.Keys == x'.all
            && forall u, v :: u in x'.expanded && Edge(g, u, v) ==> v in x'.all && x'.gen[v] <= x'.gen[u] + 1
  {
    hide Neighbours;
    var x' := Advance(g, x, reverse, y, nx);
    forall u, v | u in x'.expanded && Edge(g, u, v)
      ensures v in x'.all && x'.gen[v] <= x'.gen[u] + 1
    {
      if u in x.last {
        InNeighbours(g, x.last, v);
      }
    }
  }

  lemma AdvanceKeepsParents(g: Multigraph, x: Side, y: Side, reverse: map<ui32, ui32>, met: set<ui32>, nx: nat)
    requires SideOk(g, x, met, nx) && Parents(g, x, reverse)
    ensures var x' := Advance(g, x, reverse, y, nx);
            && reverse.Keys == x'.all - {x.origin} && x'.gen.Keys == x'.all
            && forall v {:trigger reverse[v]} :: v in reverse ==>
                 && reverse[v] in x'.expanded && Edge(g, reverse[v], v)
                 && x'.gen[v] == x'.gen[reverse[v]] + 1
  {
    hide Neighbours;
    forall v | v in reverse
      ensures var x' := Advance(g, x, reverse, y, nx);
              reverse[v] in x'.expanded && Edge(g, reverse[v], v) && x'.gen[v] == x'.gen[reverse[v]] + 1
    {
      assert v in Found(g, x) || v in x.reverse;
    }
  }

  lemma AdvanceKeepsSide(g: Multigraph, x: Side, y: Side, reverse: map<ui32, ui32>, met: set<ui32>, nx: nat, ny: nat)
    requires Symmetric(g) && PairOk(g, x, y, met, nx, ny)
    requires Parents(g, x, reverse)
    ensures SideOk(g, Advance(g, x, reverse, y, nx), met + Met(g, x, y), nx + 1)
  {
    hide Neighbours, Parents, Edge, Symmetric;
    AdvanceKeepsEdges(g, x, y, reverse, met, nx);
    AdvanceKeepsParents(g, x, y, reverse, met, nx);
  }

  lemma PruneKeepsSide(g: Multigraph, x: Side, y: Side, met: set<ui32>, nx: nat, ny: nat)
    requires Symmetric(g) && PairOk(g, x, y, met, nx, ny)
    ensures SideOk(g, Prune(g, y, x), met + Met(g, x, y), ny)
  {
    MetIsOnFrontier(g, x, y, met, nx, ny);
  }

  /** A half-step keeps the pair invariant; what it newly meets has its latest generation
      on both sides, and nothing known before changes its generation. */
  lemma HalfStepKeepsPair(g: Multigraph, x: Side, y: Side, reverse: map<ui32, ui32>, met: set<ui32>, nx: nat, ny: nat)
    requires Symmetric(g) && PairOk(g, x, y, met, nx, ny)
    requires Parents(g, x, reverse)
    ensures var x', y', met' := Advance(g, x, reverse, y, nx), Prune(g, y, x), met + Met(g, x, y);
            && PairOk(g, x', y', met', nx + 1, ny)
            && (forall v :: v in met' - met ==> x'.gen[v] == nx + 1 && y'.gen[v] == ny)
            && (forall v :: v in met ==> x'.gen[v] == x.gen[v] && y'.gen[v] == y.gen[v])
  {
    AdvanceKeepsSide(g, x, y, reverse, met, nx, ny);
    PruneKeepsSide(g, x, y, met, nx, ny);
    MetIsOnFrontier(g, x, y, met, nx, ny);
  }

  // ----- the whole search after na expansions from a and nb from b, a always first

  ghost predicate Turns(na: nat, nb: nat) {
    na == nb || na == nb + 1
  }

  ghost predicate SearchOk(g: Multigraph, a: Side, b: Side, met: set<ui32>, na: nat, nb: nat) {
    && PairOk(g, a, b, met, na, nb) && Turns(na, nb)
    && a.origin != b.origin
    && forall v :: v in met ==> Turns(a.gen[v], b.gen[v]) && 1 <= a.gen[v] + b.gen[v] <= na + nb
  }

  lemma StartOk(g: Multigraph, a: ui32, b: ui32)
    requires a != b
    ensures SearchOk(g, Start(a), Start(b), {}, 0, 0)
  {
  }

  /** The new meeting vertices lie on routes of exactly h edges, the old ones on routes as before. */
  ghost predicate MetAtLength(a: Side, b: Side, met: set<ui32>, a': Side, b': Side, met': set<ui32>, h: nat)
    requires met <= a.gen.Keys && met <= b.gen.Keys
    requires met <= met' && met' <= a'.gen.Keys && met' <= b'.gen.Keys
  {
    && (forall v :: v in met' - met ==> a'.gen[v] + b'.gen[v] == h)
    && (forall v :: v in met ==> a'.gen[v] + b'.gen[v] == a.gen[v] + b.gen[v])
  }

  /** a's turn, half-step na + nb + 1. */
  lemma OurTurnKeepsSearch(g: Multigraph, a: Side, b: Side, reverse: map<ui32, ui32>, met: set<ui32>, na: nat, nb: nat)
    requires Symmetric(g) && SearchOk(g, a, b, met, na, nb) && na == nb
    requires Parents(g, a, reverse)
    ensures var a', b', met' := Advance(g, a, reverse, b, na), Prune(g, b, a), met + Met(g, a, b);
            && SearchOk(g, a', b', met', na + 1, nb)
            && met' == a'.all * b'.all && met' <= a'.gen.Keys && met' <= b'.gen.Keys
            && MetAtLength(a, b, met, a', b', met', na + nb + 1)
  {
    HalfStepKeepsPair(g, a, b, reverse, met, na, nb);
  }

  /** b's turn, likewise. */
  lemma TheirTurnKeepsSearch(g: Multigraph, a: Side, b: Side, reverse: map<ui32, ui32>, met: set<ui32>,
                             na: nat, nb: nat)
    requires Symmetric(g) && SearchOk(g, a, b, met, na, nb) && na == nb + 1
    requires Parents(g, b, reverse)
    ensures var b', a', met' := Advance(g, b, reverse, a, nb), Prune(g, a, b), met + Met(g, b, a);
            && SearchOk(g, a', b', met', na, nb + 1)
            && met' == a'.all * b'.all && met' <= a'.gen.Keys && met' <= b'.gen.Keys
            && MetAtLength(a, b, met, a', b', met', na + nb + 1)
  {
    assert PairOk(g, b, a, met, nb, na);
    HalfStepKeepsPair(g, b, a, reverse, met, nb, na);
  }
}
