/** Completeness: until the two sides meet, known sets are balls, so the first meeting is at the distance. */
module SearchLevels {
  import opened Types
  import opened Graph
  import opened SearchSpec

  /** Nothing pruned yet: the known set is a ball and the frontier its outermost shell. */
  ghost predicate Unpruned(g: Multigraph, s: Side, n: nat) {
    && s.all == Ball(g, s.origin, n)
    && s.last == Ball(g, s.origin, n) - (if n == 0 then {} else Ball(g, s.origin, n - 1))
  }

  /** The vertices half-way along the walks of d edges, nearer to b when d is odd. */
  ghost function Midpoints(g: Multigraph, a: ui32, b: ui32, d: nat): set<ui32> {
    Ball(g, a, (d + 1) / 2) * Ball(g, b, d / 2)
  }

  /** The meeting vertices contain every midpoint of the shortest routes, whose length is d,
      and the meeting vertices whose own route has length d are no others. */
  ghost predicate FirstMet(g: Multigraph, a: Side, b: Side, met: set<ui32>, d: nat)
    requires met <= a.gen.Keys && met <= b.gen.Keys
  {
    && AtDistance(g, a.origin, b.origin, d)
    && Midpoints(g, a.origin, b.origin, d) <= met
    && forall v :: v in met ==>
         && a.gen[v] + b.gen[v] >= d
         && (v in Midpoints(g, a.origin, b.origin, d) <==> a.gen[v] + b.gen[v] == d)
  }

  ghost predicate Progress(g: Multigraph, a: Side, b: Side, met: set<ui32>, na: nat, nb: nat)
    requires met <= a.gen.Keys && met <= b.gen.Keys
  {
    if met == {} then
      && Unpruned(g, a, na) && Unpruned(g, b, nb)
      && b.origin !in Ball(g, a.origin, na + nb)
    else
      exists d :: 1 <= d <= na + nb && FirstMet(g, a, b, met, d)
  }

  lemma StartProgress(g: Multigraph, a: ui32, b: ui32)
    requires a != b
    ensures Progress(g, Start(a), Start(b), {}, 0, 0)
  {
  }

  lemma UnprunedAdvance(g: Multigraph, x: Side, y: Side, reverse: map<ui32, ui32>, n: nat)
    requires Unpruned(g, x, n)
    ensures Advance(g, x, reverse, y, n).all == Ball(g, x.origin, n + 1)
    ensures Met(g, x, y) == {} ==> Unpruned(g, Advance(g, x, reverse, y, n), n + 1)
  {
    var ball := Ball(g, x.origin, n);
    forall v | v in Neighbours(g, ball) - ball
      ensures v in Found(g, x)
    {
      InNeighbours(g, ball, v);
      var u: ui32 :| u in ball && Edge(g, u, v);
      if n > 0 && u in Ball(g, x.origin, n - 1) {
        assert false;
      }
      InNeighbours(g, x.last, v);
    }
    forall v | v in Found(g, x)
      ensures v in Neighbours(g, ball) - ball
    {
      InNeighbours(g, x.last, v);
      InNeighbours(g, ball, v);
    }
    assert Found(g, x) == Neighbours(g, ball) - ball;
    if Met(g, x, y) == {} {
      assert forall v :: v in Found(g, x) && v in y.all ==> v in Met(g, x, y);
      assert Advance(g, x, reverse, y, n).last == Ball(g, x.origin, n + 1) - ball;
    }
  }

  /** Two balls that first meet do so in the midpoints. */
  lemma BallsFirstMeet(g: Multigraph, a: Side, b: Side, met: set<ui32>, na: nat, nb: nat)
    requires Symmetric(g) && Turns(na, nb) && na > 0 && b.origin !in Ball(g, a.origin, na + nb - 1)
    requires a.all == Ball(g, a.origin, na) && b.all == Ball(g, b.origin, nb)
    requires met == a.all * b.all && met <= a.gen.Keys && met <= b.gen.Keys
    requires forall v :: v in met ==> a.gen[v] + b.gen[v] == na + nb
    ensures if met == {} then b.origin !in Ball(g, a.origin, na + nb) else FirstMet(g, a, b, met, na + nb)
  {
    BallsMeet(g, a.origin, b.origin, na, nb);
    assert (na + nb + 1) / 2 == na && (na + nb) / 2 == nb;
    assert met == Midpoints(g, a.origin, b.origin, na + nb);
  }

  /** Later meetings lie on longer routes. */
  lemma FirstMetStays(g: Multigraph, a: Side, b: Side, met: set<ui32>, a': Side, b': Side, met': set<ui32>,
                      d: nat, h: nat)
    requires met <= a.gen.Keys && met <= b.gen.Keys && FirstMet(g, a, b, met, d) && d < h
    requires met <= met' && met' <= a'.gen.Keys && met' <= b'.gen.Keys
    requires a'.origin == a.origin && b'.origin == b.origin
    requires forall v :: v in met' - met ==> a'.gen[v] + b'.gen[v] == h
    requires forall v :: v in met ==> a'.gen[v] + b'.gen[v] == a.gen[v] + b.gen[v]
    ensures FirstMet(g, a', b', met', d)
  {
  }

  /** One turn, seen only through the balls and the lengths. */
  lemma TurnProgress(g: Multigraph, a: Side, b: Side, met: set<ui32>, a': Side, b': Side, met': set<ui32>,
                     na: nat, nb: nat, na': nat, nb': nat)
    requires met <= a.gen.Keys && met <= b.gen.Keys && Progress(g, a, b, met, na, nb)
    requires met <= met' && met' <= a'.gen.Keys && met' <= b'.gen.Keys && met' == a'.all * b'.all
    requires a'.origin == a.origin && b'.origin == b.origin && Symmetric(g)
    requires Turns(na', nb') && na' + nb' == na + nb + 1
    requires MetAtLength(a, b, met, a', b', met', na' + nb')
    requires met == {} ==> a'.all == Ball(g, a.origin, na') && b'.all == Ball(g, b.origin, nb')
    requires met' == {} ==> Unpruned(g, a', na') && Unpruned(g, b', nb')
    ensures Progress(g, a', b', met', na', nb')
  {
    hide Ball, Neighbours;
    if met == {} {
      BallsFirstMeet(g, a', b', met', na', nb');
    } else {
      var d :| 1 <= d <= na + nb && FirstMet(g, a, b, met, d);
      FirstMetStays(g, a, b, met, a', b', met', d, na' + nb');
    }
  }

  /** A half-step of x grows its ball by one and, meeting nobody, leaves both sides unpruned. */
  lemma TurnGrowsBall(g: Multigraph, x: Side, y: Side, reverse: map<ui32, ui32>, nx: nat, ny: nat)
    requires Unpruned(g, x, nx) && Unpruned(g, y, ny)
    ensures Advance(g, x, reverse, y, nx).all == Ball(g, x.origin, nx + 1)
    ensures Prune(g, y, x).all == Ball(g, y.origin, ny)
    ensures Met(g, x, y) == {} ==> Unpruned(g, Advance(g, x, reverse, y, nx), nx + 1) && Unpruned(g, Prune(g, y, x), ny)
  {
    hide Ball, Neighbours;
    UnprunedAdvance(g, x, y, reverse, nx);
    if Met(g, x, y) == {} {
      assert Prune(g, y, x) == y;
    }
  }

  lemma OurTurnProgress(g: Multigraph, a: Side, b: Side, reverse: map<ui32, ui32>, met: set<ui32>, n: nat)
    requires met <= a.gen.Keys && met <= b.gen.Keys && Progress(g, a, b, met, n, n) && Symmetric(g)
    requires var a', b', met' := Advance(g, a, reverse, b, n), Prune(g, b, a), met + Met(g, a, b);
             && met' == a'.all * b'.all && met' <= a'.gen.Keys && met' <= b'.gen.Keys
             && MetAtLength(a, b, met, a', b', met', n + n + 1)
    ensures var a', b', met' := Advance(g, a, reverse, b, n), Prune(g, b, a), met + Met(g, a, b);
            Progress(g, a', b', met', n + 1, n)
  {
    hide Ball, Neighbours;
    var a', b', met' := Advance(g, a, reverse, b, n), Prune(g, b, a), met + Met(g, a, b);
    if met == {} {
      TurnGrowsBall(g, a, b, reverse, n, n);
    }
    TurnProgress(g, a, b, met, a', b', met', n, n, n + 1, n);
  }

  lemma TheirTurnProgress(g: Multigraph, a: Side, b: Side, reverse: map<ui32, ui32>, met: set<ui32>, n: nat)
    requires met <= a.gen.Keys && met <= b.gen.Keys && Progress(g, a, b, met, n + 1, n) && Symmetric(g)
    requires var b', a', met' := Advance(g, b, reverse, a, n), Prune(g, a, b), met + Met(g, b, a);
             && met' == a'.all * b'.all && met' <= a'.gen.Keys && met' <= b'.gen.Keys
             && MetAtLength(a, b, met, a', b', met', n + n + 2)
    ensures var b', a', met' := Advance(g, b, reverse, a, n), Prune(g, a, b), met + Met(g, b, a);
            Progress(g, a', b', met', n + 1, n + 1)
  {
    hide Ball, Neighbours;
    var b', a', met' := Advance(g, b, reverse, a, n), Prune(g, a, b), met + Met(g, b, a);
    if met == {} {
      TurnGrowsBall(g, b, a, reverse, n, n + 1);
    }
    TurnProgress(g, a, b, met, a', b', met', n + 1, n, n + 1, n + 1);
  }

  /** a's half-step of a whole search. */
  lemma OurTurn(g: Multigraph, a: Side, b: Side, reverse: map<ui32, ui32>, met: set<ui32>, n: nat)
    requires Symmetric(g) && SearchOk(g, a, b, met, n, n) && Progress(g, a, b, met, n, n)
    requires Parents(g, a, reverse)
    ensures var a', b', met' := Advance(g, a, reverse, b, n), Prune(g, b, a), met + Met(g, a, b);
            && met' <= a'.gen.Keys && met' <= b'.gen.Keys
            && SearchOk(g, a', b', met', n + 1, n) && Progress(g, a', b', met', n + 1, n)
            && MetAtLength(a, b, met, a', b', met', n + n + 1)
  {
    hide Ball, Neighbours;
    OurTurnKeepsSearch(g, a, b, reverse, met, n, n);
    OurTurnProgress(g, a, b, reverse, met, n);
  }

  /** b's half-step. */
  lemma TheirTurn(g: Multigraph, a: Side, b: Side, reverse: map<ui32, ui32>, met: set<ui32>, n: nat)
    requires Symmetric(g) && SearchOk(g, a, b, met, n + 1, n) && Progress(g, a, b, met, n + 1, n)
    requires Parents(g, b, reverse)
    ensures var b', a', met' := Advance(g, b, reverse, a, n), Prune(g, a, b), met + Met(g, b, a);
            && met' <= a'.gen.Keys && met' <= b'.gen.Keys
            && SearchOk(g, a', b', met', n + 1, n + 1) && Progress(g, a', b', met', n + 1, n + 1)
            && MetAtLength(a, b, met, a', b', met', n + n + 2)
  {
    hide Ball, Neighbours;
    TheirTurnKeepsSearch(g, a, b, reverse, met, n + 1, n);
    TheirTurnProgress(g, a, b, reverse, met, n);
  }

  /** A side that finds nothing before any meeting knows its whole component. */
  lemma DrySideIsStuck(g: Multigraph, x: Side, y: Side, m: nat, n: nat)
    requires Unpruned(g, x, m) && Found(g, x) == {}
    ensures Ball(g, x.origin, n) <= x.all
  {
    UnprunedAdvance(g, x, y, x.reverse, m);
    BallFixpoint(g, x.origin, m, n);
  }

  /** A side that runs dry before any meeting proves that no walk joins the endpoints. */
  lemma DryMeansUnreachable(g: Multigraph, a: Side, b: Side, na: nat, nb: nat, n: nat)
    requires Symmetric(g) && Unpruned(g, a, na) && Unpruned(g, b, nb)
    requires a.all !! b.all && a.origin in a.all && b.origin in b.all
    requires Found(g, a) == {} || Found(g, b) == {}
    ensures b.origin !in Ball(g, a.origin, n)
  {
    if Found(g, a) == {} {
      DrySideIsStuck(g, a, b, na, n);
    } else {
      DrySideIsStuck(g, b, a, nb, n);
      BallsMeet(g, a.origin, b.origin, 0, n);
      assert Ball(g, a.origin, 0) == {a.origin};
    }
  }

  /** What a finished search has found, for every search radius it was meant to cover. */
  ghost predicate Complete(g: Multigraph, a: Side, b: Side, met: set<ui32>, radius: nat)
    requires met <= a.gen.Keys && met <= b.gen.Keys
  {
    && (met != {} <==> b.origin in Ball(g, a.origin, radius))
    && forall d :: 0 <= d <= radius && AtDistance(g, a.origin, b.origin, d) ==> FirstMet(g, a, b, met, d)
  }

  lemma DistanceUnique(g: Multigraph, a: ui32, b: ui32, d: nat, e: nat)
    requires AtDistance(g, a, b, d) && AtDistance(g, a, b, e)
    ensures d == e
  {
    if d < e {
      BallMonotone(g, a, d, e - 1);
    } else if e < d {
      BallMonotone(g, a, e, d - 1);
    }
  }

  lemma FinishedIsComplete(g: Multigraph, a: Side, b: Side, met: set<ui32>, na: nat, nb: nat, radius: nat)
    requires Symmetric(g) && SearchOk(g, a, b, met, na, nb) && Progress(g, a, b, met, na, nb) && na + nb <= radius
    requires met != {} || na + nb == radius || (Found(g, a) == {} || Found(g, b) == {})
    ensures Complete(g, a, b, met, radius)
  {
    hide Ball, Neighbours;
    if met != {} {
      var d :| 1 <= d <= na + nb && FirstMet(g, a, b, met, d);
      BallMonotone(g, a.origin, d, radius);
      forall e | 0 <= e <= radius && AtDistance(g, a.origin, b.origin, e)
        ensures FirstMet(g, a, b, met, e)
      {
        DistanceUnique(g, a.origin, b.origin, d, e);
      }
    } else {
      if na + nb < radius {
        DryMeansUnreachable(g, a, b, na, nb, radius);
      }
      forall e | 0 <= e <= radius && AtDistance(g, a.origin, b.origin, e)
        ensures false
      {
        BallMonotone(g, a.origin, e, radius);
      }
    }
  }
}
