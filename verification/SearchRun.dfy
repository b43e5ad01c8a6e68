/** The run of a search with the parents left out: it depends on the graph, the endpoints and the limit
    only, not on any iteration order. */
module SearchRun {
  import opened Types
  import opened Graph
  import opened SearchSpec

  const ROUNDS := 5

  /** Both sides without their parents, the vertices met and the half-step that met each. */
  datatype Trail = Trail(a: Side, b: Side, met: set<ui32>, metAt: map<ui32, nat>)

  ghost function Bare(s: Side): Side {
    s.(reverse := map[])
  }

  /** Notes that the vertices in `added` were met in half-step h. */
  ghost function Noted(metAt: map<ui32, nat>, added: set<ui32>, h: nat): map<ui32, nat> {
    metAt + map v | v in added :: h
  }

  /** a's turn, half-step h. */
  ghost function OurTurnOf(g: Multigraph, t: Trail, steps: nat, h: nat): Trail {
    var met := t.met + Met(g, t.a, t.b);
    Trail(Advance(g, t.a, map[], t.b, steps), Prune(g, t.b, t.a), met, Noted(t.metAt, met - t.met, h))
  }

  /** b's turn, half-step h. */
  ghost function TheirTurnOf(g: Multigraph, t: Trail, steps: nat, h: nat): Trail {
    var met := t.met + Met(g, t.b, t.a);
    Trail(Prune(g, t.a, t.b), Advance(g, t.b, map[], t.a, steps), met, Noted(t.metAt, met - t.met, h))
  }

  /** After na expansions from a and nb from b. */
  ghost function TrailAfter(g: Multigraph, from: ui32, to: ui32, na: nat, nb: nat): Trail
    requires Turns(na, nb)
    decreases na + nb
  {
    if na == 0 then Trail(Start(from), Start(to), {}, map[])
    else if na == nb then TheirTurnOf(g, TrailAfter(g, from, to, na, nb - 1), nb - 1, na + nb)
    else OurTurnOf(g, TrailAfter(g, from, to, na - 1, nb), na - 1, na + nb)
  }

  /** The next half-step does not happen: its side discovers nothing, or it would open a round after
      the last one or after a round that ended with enough intersections. */
  ghost predicate Halts(g: Multigraph, t: Trail, limit: nat, na: nat, nb: nat) {
    if na == nb then na == ROUNDS || Found(g, t.a) == {} || (na > 0 && |t.met| >= limit)
    else Found(g, t.b) == {}
  }

  /** Every half-step up to here did happen. */
  ghost predicate Reached(g: Multigraph, from: ui32, to: ui32, limit: nat, na: nat, nb: nat)
    requires Turns(na, nb)
    decreases na + nb
  {
    if na == 0 then true
    else
      var ma, mb := if na == nb then na else na - 1, if na == nb then nb - 1 else nb;
      Reached(g, from, to, limit, ma, mb) && !Halts(g, TrailAfter(g, from, to, ma, mb), limit, ma, mb)
  }

  ghost predicate StopsAt(g: Multigraph, from: ui32, to: ui32, limit: nat, na: nat, nb: nat)
    requires Turns(na, nb)
  {
    Reached(g, from, to, limit, na, nb) && Halts(g, TrailAfter(g, from, to, na, nb), limit, na, nb)
  }

  /** A search passes no point where it would have stopped. */
  lemma {:induction false} ReachedPassesNoStop(g: Multigraph, from: ui32, to: ui32, limit: nat,
                                               ma: nat, mb: nat, na: nat, nb: nat)
    requires Turns(ma, mb) && Turns(na, nb) && ma + mb < na + nb
    requires Reached(g, from, to, limit, na, nb)
    ensures !Halts(g, TrailAfter(g, from, to, ma, mb), limit, ma, mb)
    decreases na + nb
  {
    hide Halts, TrailAfter;
    var pa, pb := if na == nb then na else na - 1, if na == nb then nb - 1 else nb;
    if ma + mb < pa + pb {
      ReachedPassesNoStop(g, from, to, limit, ma, mb, pa, pb);
    } else {
      assert ma == pa && mb == pb;
    }
  }

  lemma StopIsUnique(g: Multigraph, from: ui32, to: ui32, limit: nat, ma: nat, mb: nat, na: nat, nb: nat)
    requires Turns(ma, mb) && Turns(na, nb)
    requires StopsAt(g, from, to, limit, ma, mb) && StopsAt(g, from, to, limit, na, nb)
    ensures ma == na && mb == nb
  {
    hide Halts, TrailAfter, Reached;
    if ma + mb < na + nb {
      ReachedPassesNoStop(g, from, to, limit, ma, mb, na, nb);
    } else if na + nb < ma + mb {
      ReachedPassesNoStop(g, from, to, limit, na, nb, ma, mb);
    }
  }

  /** Half-steps do not look at parents. */
  lemma BareTurn(g: Multigraph, x: Side, y: Side, reverse: map<ui32, ui32>, steps: nat)
    ensures Bare(Advance(g, x, reverse, y, steps)) == Advance(g, Bare(x), map[], Bare(y), steps)
    ensures Bare(Prune(g, y, x)) == Prune(g, Bare(y), Bare(x))
    ensures Met(g, Bare(x), Bare(y)) == Met(g, x, y) && Found(g, Bare(x)) == Found(g, x)
  {
  }

  lemma {:induction false} ReachedRounds(g: Multigraph, from: ui32, to: ui32, limit: nat, na: nat, nb: nat)
    requires Turns(na, nb) && Reached(g, from, to, limit, na, nb)
    ensures na <= ROUNDS
    decreases na + nb
  {
    hide TrailAfter, Found;
    if na > 0 {
      ReachedRounds(g, from, to, limit, if na == nb then na else na - 1, if na == nb then nb - 1 else nb);
    }
  }

  /** Half-step h meets some vertex. */
  ghost predicate MetIn(metAt: map<ui32, nat>, h: nat) {
    exists v :: v in metAt && metAt[v] == h
  }

  lemma {:induction false} TrailTimes(g: Multigraph, from: ui32, to: ui32, na: nat, nb: nat)
    requires Turns(na, nb)
    ensures forall v :: v in TrailAfter(g, from, to, na, nb).metAt ==>
                          TrailAfter(g, from, to, na, nb).metAt[v] <= na + nb
    decreases na + nb
  {
    hide Met, Advance, Prune;
    if na > 0 {
      TrailTimes(g, from, to, if na == nb then na else na - 1, if na == nb then nb - 1 else nb);
    }
  }

  /** Half-step 2 * ROUNDS meets a vertex only in a run of full length. */
  lemma LastHalfStep(g: Multigraph, from: ui32, to: ui32, limit: nat, na: nat, nb: nat)
    requires Turns(na, nb) && StopsAt(g, from, to, limit, na, nb)
    requires MetIn(TrailAfter(g, from, to, na, nb).metAt, 2 * ROUNDS)
    ensures na == nb == ROUNDS
  {
    hide TrailAfter, Halts;
    ReachedRounds(g, from, to, limit, na, nb);
    TrailTimes(g, from, to, na, nb);
  }
}
