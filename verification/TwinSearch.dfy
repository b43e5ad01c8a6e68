/** The search when both endpoints are the same vertex: two half-steps find exactly its neighbours. */
module TwinSearch {
  import opened Types
  import opened Graph
  import opened SearchSpec

  ghost function Around(g: Multigraph, s: ui32): set<ui32> {
    Neighbours(g, {s}) - {s}
  }

  ghost predicate Rooted(x: Side, ring: set<ui32>) {
    && x.all == {x.origin} + ring
    && x.reverse.Keys == ring
    && forall v :: v in ring ==> x.reverse[v] == x.origin
  }

  ghost predicate TwinOk(g: Multigraph, a: Side, b: Side, met: set<ui32>, na: nat, nb: nat) {
    var s, ring := a.origin, Around(g, a.origin);
    && b.origin == s && nb <= na <= 1
    && (na == 0 ==> a.last == {s} && Rooted(a, {}) && met == {})
    && (nb == 0 ==> b.last == {s} && Rooted(b, {}) && met == {})
    && (na == 1 ==> Rooted(a, ring) && ring != {} && (nb == 0 ==> a.last == ring))
    && (nb == 1 ==> Rooted(b, ring) && a.last == b.last == {} && met == ring)
  }

  lemma TwinOurTurn(g: Multigraph, a: Side, b: Side, reverse: map<ui32, ui32>, met: set<ui32>, n: nat)
    requires TwinOk(g, a, b, met, n, n) && Parents(g, a, reverse)
    ensures Found(g, a) != {} ==>
              TwinOk(g, Advance(g, a, reverse, b, n), Prune(g, b, a), met + Met(g, a, b), n + 1, n)
  {
  }

  lemma TwinTheirTurn(g: Multigraph, a: Side, b: Side, reverse: map<ui32, ui32>, met: set<ui32>, n: nat)
    requires TwinOk(g, a, b, met, n + 1, n) && Parents(g, b, reverse)
    ensures Found(g, b) != {}
    ensures TwinOk(g, Prune(g, a, b), Advance(g, b, reverse, a, n), met + Met(g, b, a), n + 1, n + 1)
  {
  }

  lemma TwinStart(g: Multigraph, s: ui32)
    ensures TwinOk(g, Start(s), Start(s), {}, 0, 0)
  {
  }

  lemma TwinFinish(g: Multigraph, a: Side, b: Side, met: set<ui32>, na: nat, nb: nat)
    requires TwinOk(g, a, b, met, na, nb)
    requires na == nb && (nb > 0 || Found(g, a) == {})
    ensures met == Around(g, a.origin)
  {
  }
}
