/** `shortestPath` (Dijkstra's algorithm) and its helper `minVertex`.
    Tentative costs are `Option<nat>`: `None` is the program's
    `Integer.MAX_VALUE` ("not reached yet"), so relaxing from an unreached
    vertex changes nothing. */
module ShortestPaths {
  import opened Wrappers
  import opened Graphs
  import opened Paths

  type Costs = map<Vertex, Option<nat>>

  /** The program's test `cost < min` with `None` read as infinity. */
  predicate Below(c: Option<nat>, bound: Option<nat>) {
    c.Some? && (bound.None? || c.value < bound.value)
  }

  /** The relaxation test `cost(v) > cost(from) + w`: it never holds when
      `from` is unreached. */
  predicate Improves(cv: Option<nat>, cf: Option<nat>, w: nat) {
    cf.Some? && (cv.None? || cv.value > cf.value + w)
  }

  /** `x` has the least tentative cost among `unchecked`, `None` counting as infinity. */
  ghost predicate IsMin(d: Costs, unchecked: set<Vertex>, x: Vertex)
    requires unchecked <= d.Keys && x in d
  {
    forall y :: y in unchecked && d[y].Some? ==> d[x].Some? && d[x].value <= d[y].value
  }

  /** `minVertex(cost, unchecked, minKey)`: an unchecked vertex of least finite
      cost, ties going to whichever the (unspecified) set order meets first;
      `minKey` itself when no unchecked vertex has a finite cost. */
  method MinVertex(d: Costs, unchecked: set<Vertex>, minKey: Vertex) returns (r: Vertex)
    requires unchecked <= d.Keys
    ensures (exists v :: v in unchecked && d[v].Some?) ==> r in unchecked && IsMin(d, unchecked, r)
    ensures (forall v :: v in unchecked ==> d[v].None?) ==> r == minKey
  {
    var min: Option<nat> := None;
    r := minKey;
    var rest := unchecked;
    while rest != {}
      invariant rest <= unchecked
      invariant min.None? ==> r == minKey && forall v :: v in unchecked - rest ==> d[v].None?
      invariant min.Some? ==> r in unchecked && d[r] == min
      invariant min.Some? ==> forall v :: v in unchecked - rest && d[v].Some? ==> min.value <= d[v].value
      decreases |rest|
    {
      var target :| target in rest;
      if Below(d[target], min) {
        min := d[target];
        r := target;
      }
      rest := rest - {target};
    }
  }

  /** Relaxing the edges out of `from`, seen at one vertex `v`: settled
      vertices and `from` keep cost and predecessor; an unchecked vertex
      either keeps both or takes the strictly cheaper route through `from`,
      and afterwards the edge from a reached `from` cannot improve it. */
  ghost predicate RelaxedAt(
    g: Graph, from: Vertex, unchecked: set<Vertex>,
    d: Costs, pred: map<Vertex, Vertex>, d': Costs, pred': map<Vertex, Vertex>, v: Vertex)
    requires v in d && v in pred && v in d' && v in pred' && from in d
  {
    if v !in unchecked || v == from then
      d'[v] == d[v] && pred'[v] == pred[v]
    else
      && (|| (d'[v] == d[v] && pred'[v] == pred[v])
          || (&& d[from].Some? && Linked(g, from, v)
              && d'[v] == Some(d[from].value + Weight(g, from, v))
              && pred'[v] == from && Below(d'[v], d[v])))
      && (Linked(g, from, v) && d[from].Some? ==>
            d'[v].Some? && d'[v].value <= d[from].value + Weight(g, from, v))
  }

  /** What the inner loop of `shortestPath` does to the cost and predecessor maps. */
  ghost predicate RelaxedFrom(
    g: Graph, from: Vertex, unchecked: set<Vertex>,
    d: Costs, pred: map<Vertex, Vertex>, d': Costs, pred': map<Vertex, Vertex>)
  {
    && d'.Keys == g.index.Keys && pred'.Keys == g.index.Keys
    && d.Keys == g.index.Keys && pred.Keys == g.index.Keys
    && unchecked <= g.index.Keys && from in unchecked
    && forall v {:trigger RelaxedAt(g, from, unchecked, d, pred, d', pred', v)} :: v in g.index ==>
         RelaxedAt(g, from, unchecked, d, pred, d', pred', v)
  }

  /** The inner loop of `shortestPath`: for each vertex `vs` lists as
      adjacent to `from` that is still unchecked, take the route through
      `from` when it is cheaper. The edge cost `edgeCost(from, v)` is the
      matrix weight. */
  method Relax(
    g: Graph, from: Vertex, vs: seq<Vertex>, d: Costs, pred: map<Vertex, Vertex>, unchecked: set<Vertex>)
    returns (d': Costs, pred': map<Vertex, Vertex>)
    requires from in unchecked && unchecked <= g.index.Keys
    requires d.Keys == g.index.Keys && pred.Keys == g.index.Keys
    requires forall k :: 0 <= k < |vs| ==> vs[k] in g.index
    requires forall v :: v in vs <==> Linked(g, from, v)
    requires Distinct(vs)
    ensures RelaxedFrom(g, from, unchecked, d, pred, d', pred')
  {
    d', pred' := d, pred;
    var i := 0;
    while i < |vs|
      invariant 0 <= i <= |vs|
      invariant d'.Keys == g.index.Keys && pred'.Keys == g.index.Keys
      invariant forall v {:trigger RelaxedSoFar(g, from, unchecked, d, pred, d', pred', vs[..i], v)} ::
        v in g.index ==> RelaxedSoFar(g, from, unchecked, d, pred, d', pred', vs[..i], v)
    {
      var v := vs[i];
      assert v !in vs[..i];
      assert vs[..i + 1] == vs[..i] + [v];
      ghost var d0, pred0 := d', pred';
      assert RelaxedSoFar(g, from, unchecked, d, pred, d0, pred0, vs[..i], from);
      assert RelaxedSoFar(g, from, unchecked, d, pred, d0, pred0, vs[..i], v);
      if v in unchecked {
        var w := Weight(g, from, v);
        if Improves(d'[v], d'[from], w) {
          d' := d'[v := Some(d'[from].value + w)];
          pred' := pred'[v := from];
        }
      }
      forall u | u in g.index
        ensures RelaxedSoFar(g, from, unchecked, d, pred, d', pred', vs[..i + 1], u)
      {
        if u != v {
          assert RelaxedSoFar(g, from, unchecked, d, pred, d0, pred0, vs[..i], u);
        }
      }
      i := i + 1;
    }
    assert vs[..i] == vs;
    forall v | v in g.index
      ensures RelaxedAt(g, from, unchecked, d, pred, d', pred', v)
    {
      assert RelaxedSoFar(g, from, unchecked, d, pred, d', pred', vs, v);
    }
  }

  /** Part way through the inner loop: the vertices of `done` are relaxed,
      every other one is untouched. */
  ghost predicate RelaxedSoFar(
    g: Graph, from: Vertex, unchecked: set<Vertex>,
    d: Costs, pred: map<Vertex, Vertex>, d': Costs, pred': map<Vertex, Vertex>, done: seq<Vertex>, v: Vertex)
    requires v in d && v in pred && v in d' && v in pred' && from in d
  {
    if v in done then RelaxedAt(g, from, unchecked, d, pred, d', pred', v)
    else d'[v] == d[v] && pred'[v] == pred[v]
  }

  /** The cost the algorithm treats as known for `v`: the source starts at 0. */
  ghost function Eff(d: Costs, a: Vertex, v: Vertex): Option<nat>
    requires v in d || v == a
  {
    if v == a then Some(0) else d[v]
  }

  /** `c` is the distance from `a` to `v`: `None` when no path leads there,
      otherwise no path is cheaper. */
  ghost predicate Final(g: Graph, a: Vertex, v: Vertex, c: Option<nat>) {
    match c
    case None => forall p :: !IsPath(g, p, a, v)
    case Some(x) => forall p :: IsPath(g, p, a, v) ==> x <= PathCost(g, p)
  }

  /** The shape of the loop state: maps over every vertex, the source settled. */
  ghost predicate Domains(g: Graph, a: Vertex, d: Costs, pred: map<Vertex, Vertex>, unchecked: set<Vertex>) {
    && d.Keys == g.index.Keys && pred.Keys == g.index.Keys
    && unchecked <= g.index.Keys && a in g.index && a !in unchecked
  }

  /** The edge u -> v, if any, has been relaxed from a reached u. */
  ghost predicate FrontierAt(g: Graph, a: Vertex, d: Costs, u: Vertex, v: Vertex)
    requires v in d && (u in d || u == a)
  {
    Linked(g, u, v) && Eff(d, a, u).Some? ==>
      d[v].Some? && d[v].value <= Eff(d, a, u).value + Weight(g, u, v)
  }

  /** Every edge out of a settled vertex into an unchecked one has been relaxed. */
  ghost predicate Frontier(g: Graph, a: Vertex, d: Costs, unchecked: set<Vertex>)
    requires d.Keys == g.index.Keys
  {
    forall u, v {:trigger FrontierAt(g, a, d, u, v)} ::
      u in g.index && u !in unchecked && v in g.index && v in unchecked ==> FrontierAt(g, a, d, u, v)
  }

  /** `u` carries its distance from `a`. */
  ghost predicate SettledAt(g: Graph, a: Vertex, d: Costs, u: Vertex)
    requires u in d || u == a
  {
    Final(g, a, u, Eff(d, a, u))
  }

  /** Every settled vertex carries its distance. */
  ghost predicate SettledFinal(g: Graph, a: Vertex, d: Costs, unchecked: set<Vertex>)
    requires d.Keys == g.index.Keys
  {
    forall u {:trigger SettledAt(g, a, d, u)} :: u in g.index && u !in unchecked ==> SettledAt(g, a, d, u)
  }

  /** When a vertex was settled; vertices not settled yet rank `clock`. */
  ghost function Rank(time: map<Vertex, nat>, clock: nat, v: Vertex): nat {
    if v in time then time[v] else clock
  }

  /** The predecessor of `v`: itself while `v` is unreached; otherwise a vertex
      settled before `v` whose cost plus the joining edge's weight is the cost of `v`. */
  ghost predicate PredAt(
    g: Graph, a: Vertex, d: Costs, pred: map<Vertex, Vertex>, unchecked: set<Vertex>,
    time: map<Vertex, nat>, clock: nat, v: Vertex)
    requires Domains(g, a, d, pred, unchecked) && v in d
  {
    if d[v].None? then pred[v] == v
    else
      && pred[v] in g.index && pred[v] !in unchecked && Linked(g, pred[v], v)
      && Eff(d, a, pred[v]).Some?
      && d[v].value == Eff(d, a, pred[v]).value + Weight(g, pred[v], v)
      && Rank(time, clock, pred[v]) < Rank(time, clock, v)
  }

  /** Predecessor pointers are in order at every vertex but the source. */
  ghost predicate PredOk(
    g: Graph, a: Vertex, d: Costs, pred: map<Vertex, Vertex>, unchecked: set<Vertex>,
    time: map<Vertex, nat>, clock: nat)
    requires Domains(g, a, d, pred, unchecked)
  {
    && time.Keys == g.index.Keys - unchecked
    && (forall u :: u in time ==> time[u] < clock)
    && forall v {:trigger PredAt(g, a, d, pred, unchecked, time, clock, v)} :: v in g.index && v != a ==>
         PredAt(g, a, d, pred, unchecked, time, clock, v)
  }

  /** Any path from `a` into the unchecked set costs at least the least tentative cost there. */
  lemma {:induction false} ReachBound(
    g: Graph, a: Vertex, d: Costs, pred: map<Vertex, Vertex>, unchecked: set<Vertex>,
    x: Vertex, p: seq<Vertex>, v: Vertex)
    requires Domains(g, a, d, pred, unchecked)
    requires Frontier(g, a, d, unchecked) && SettledFinal(g, a, d, unchecked)
    requires x in unchecked && IsMin(d, unchecked, x)
    requires v in unchecked && IsPath(g, p, a, v)
    ensures d[x].Some? && d[x].value <= PathCost(g, p)
    decreases |p|
  {
    assert |p| >= 2;
    var q := p[..|p| - 1];
    var u := p[|p| - 2];
    WalkPrefix(g, p, |p| - 1);
    WalkStep(g, p, |p| - 2);
    assert IsPath(g, q, a, u);
    if u in unchecked {
      ReachBound(g, a, d, pred, unchecked, x, q, u);
    } else {
      assert SettledAt(g, a, d, u);
      assert Eff(d, a, u).Some? && Eff(d, a, u).value <= PathCost(g, q);
      assert FrontierAt(g, a, d, u, v);
    }
  }

  /** The step Dijkstra's correctness rests on: an unchecked vertex of least
      tentative cost already carries its distance, and one left at infinity
      is unreachable. */
  lemma MinIsFinal(
    g: Graph, a: Vertex, d: Costs, pred: map<Vertex, Vertex>, unchecked: set<Vertex>, x: Vertex)
    requires Domains(g, a, d, pred, unchecked)
    requires Frontier(g, a, d, unchecked) && SettledFinal(g, a, d, unchecked)
    requires x in unchecked && IsMin(d, unchecked, x)
    ensures Final(g, a, x, d[x])
  {
    forall p | IsPath(g, p, a, x)
      ensures d[x].Some? && d[x].value <= PathCost(g, p)
    {
      ReachBound(g, a, d, pred, unchecked, x, p, x);
    }
  }

  /** After relaxing the edges of `from`, every edge out of the enlarged
      settled set has been relaxed. */
  lemma FrontierStep(
    g: Graph, a: Vertex, d: Costs, pred: map<Vertex, Vertex>, unchecked: set<Vertex>,
    from: Vertex, d': Costs, pred': map<Vertex, Vertex>)
    requires Domains(g, a, d, pred, unchecked) && Frontier(g, a, d, unchecked)
    requires RelaxedFrom(g, from, unchecked, d, pred, d', pred')
    ensures Frontier(g, a, d', unchecked - {from})
  {
    forall u, v | u in g.index && u !in unchecked - {from} && v in unchecked - {from}
      ensures FrontierAt(g, a, d', u, v)
    {
      assert RelaxedAt(g, from, unchecked, d, pred, d', pred', v);
      if u != from {
        assert FrontierAt(g, a, d, u, v);
        if u != a {
          assert RelaxedAt(g, from, unchecked, d, pred, d', pred', u);
        }
      } else {
        assert RelaxedAt(g, from, unchecked, d, pred, d', pred', from);
      }
    }
  }

  /** Settling a vertex that carries its distance keeps every settled vertex final. */
  lemma SettledStep(
    g: Graph, a: Vertex, d: Costs, pred: map<Vertex, Vertex>, unchecked: set<Vertex>,
    from: Vertex, d': Costs, pred': map<Vertex, Vertex>)
    requires Domains(g, a, d, pred, unchecked) && SettledFinal(g, a, d, unchecked)
    requires RelaxedFrom(g, from, unchecked, d, pred, d', pred')
    requires Final(g, a, from, d[from])
    ensures SettledFinal(g, a, d', unchecked - {from})
  {
    forall u | u in g.index && u !in unchecked - {from}
      ensures SettledAt(g, a, d', u)
    {
      if u != a {
        assert RelaxedAt(g, from, unchecked, d, pred, d', pred', u);
      }
      assert Eff(d', a, u) == Eff(d, a, u);
      if u != from {
        assert SettledAt(g, a, d, u);
      }
    }
  }

  /** Settling `from` at time `clock` keeps the predecessor pointers in order. */
  lemma PredStep(
    g: Graph, a: Vertex, d: Costs, pred: map<Vertex, Vertex>, unchecked: set<Vertex>,
    time: map<Vertex, nat>, clock: nat, from: Vertex, d': Costs, pred': map<Vertex, Vertex>)
    requires Domains(g, a, d, pred, unchecked) && PredOk(g, a, d, pred, unchecked, time, clock)
    requires RelaxedFrom(g, from, unchecked, d, pred, d', pred')
    ensures Domains(g, a, d', pred', unchecked - {from})
    ensures PredOk(g, a, d', pred', unchecked - {from}, time[from := clock], clock + 1)
  {
    var U', time', clock' := unchecked - {from}, time[from := clock], clock + 1;
    forall v | v in g.index && v != a
      ensures PredAt(g, a, d', pred', U', time', clock', v)
    {
      assert RelaxedAt(g, from, unchecked, d, pred, d', pred', v);
      if d'[v] == d[v] && pred'[v] == pred[v] {
        assert PredAt(g, a, d, pred, unchecked, time, clock, v);
        if d[v].Some? {
          var u := pred[v];
          if u != a {
            assert RelaxedAt(g, from, unchecked, d, pred, d', pred', u);
          }
          assert Eff(d', a, u) == Eff(d, a, u);
          assert Rank(time', clock', u) == Rank(time, clock, u);
        }
      } else {
        assert pred'[v] == from && v in U';
        assert RelaxedAt(g, from, unchecked, d, pred, d', pred', from);
      }
    }
  }

  /** Before the main loop: the source is settled at cost 0 and its
      neighbours carry the direct edge weight. */
  ghost predicate SeededAt(g: Graph, a: Vertex, d: Costs, pred: map<Vertex, Vertex>, v: Vertex)
    requires v in d && v in pred
  {
    if Linked(g, a, v) then d[v] == Some(Weight(g, a, v)) && pred[v] == a
    else d[v] == None && pred[v] == v
  }

  /** The loop invariant holds once the source's edges are relaxed and the source is settled. */
  lemma Seeded(g: Graph, a: Vertex, d: Costs, pred: map<Vertex, Vertex>)
    requires a in g.index && d.Keys == g.index.Keys && pred.Keys == g.index.Keys
    requires forall v :: v in g.index ==> SeededAt(g, a, d, pred, v)
    ensures Settling(g, a, d, pred, g.index.Keys - {a}, map[a := 0], 1)
  {
    var U := g.index.Keys - {a};
    forall u, v | u in g.index && u !in U && v in U
      ensures FrontierAt(g, a, d, u, v)
    {
      assert SeededAt(g, a, d, pred, v);
    }
    forall u | u in g.index && u !in U
      ensures SettledAt(g, a, d, u)
    {
      assert u == a;
    }
    forall v | v in g.index && v != a
      ensures PredAt(g, a, d, pred, U, map[a := 0], 1, v)
    {
      assert SeededAt(g, a, d, pred, v);
    }
  }

  /** The walk back along predecessors from `b` (the end of `shortestPath`):
      `None` when it stops at a vertex that is its own predecessor, else the
      reversed walk with the cost of `b`. */
  method Reconstruct(
    g: Graph, a: Vertex, b: Vertex, d: Costs, pred: map<Vertex, Vertex>, unchecked: set<Vertex>,
    ghost time: map<Vertex, nat>, ghost clock: nat)
    returns (r: Option<Path>)
    requires Domains(g, a, d, pred, unchecked) && PredOk(g, a, d, pred, unchecked, time, clock)
    requires b in g.index && b != a && SettledAt(g, a, d, b)
    ensures r.None? ==> !Reachable(g, a, b)
    ensures r.Some? ==> IsPath(g, r.value.vertices, a, b) && r.value.cost == PathCost(g, r.value.vertices)
    ensures r.Some? ==> forall p :: IsPath(g, p, a, b) ==> r.value.cost <= PathCost(g, p)
  {
    var vtx := b;
    var path: seq<Vertex> := [];
    while vtx != a
      invariant vtx in g.index
      invariant path == [] ==> vtx == b
      invariant path != [] ==> && d[b].Some? && IsPath(g, [vtx] + path, vtx, b)
                               && Eff(d, a, vtx).Some?
                               && Eff(d, a, vtx).value + PathCost(g, [vtx] + path) == d[b].value
      decreases Rank(time, clock, vtx)
    {
      assert PredAt(g, a, d, pred, unchecked, time, clock, vtx);
      if pred[vtx] == vtx {
        assert d[vtx].None? && vtx == b;
        return None;
      }
      var u := pred[vtx];
      var p := [vtx] + path;
      WalkCons(g, u, p);
      PathCostCons(g, u, p);
      path := p;
      vtx := u;
    }
    path := [vtx] + path;
    return Some(Path(path, d[b].value));
  }

  /** Before the main loop of `shortestPath`: every vertex unreached and its
      own predecessor, except the vertices `vs` lists as adjacent to the
      source, which cost the direct edge's weight and have the source as
      predecessor. */
  method Seed(g: Graph, a: Vertex, vs: seq<Vertex>) returns (d: Costs, pred: map<Vertex, Vertex>)
    requires forall k :: 0 <= k < |vs| ==> vs[k] in g.index
    requires forall v :: v in vs <==> Linked(g, a, v)
    requires Distinct(vs)
    ensures d.Keys == g.index.Keys && pred.Keys == g.index.Keys
    ensures forall v :: v in g.index ==> SeededAt(g, a, d, pred, v)
  {
    d := map v | v in g.index :: None;
    pred := map v | v in g.index :: v;
    var i := 0;
    while i < |vs|
      invariant 0 <= i <= |vs|
      invariant d.Keys == g.index.Keys && pred.Keys == g.index.Keys
      invariant forall v {:trigger SeededSoFar(g, a, d, pred, vs[..i], v)} ::
        v in g.index ==> SeededSoFar(g, a, d, pred, vs[..i], v)
    {
      var v := vs[i];
      assert v !in vs[..i];
      assert vs[..i + 1] == vs[..i] + [v];
      ghost var d0, pred0 := d, pred;
      d := d[v := Some(Weight(g, a, v))];
      pred := pred[v := a];
      forall u | u in g.index
        ensures SeededSoFar(g, a, d, pred, vs[..i + 1], u)
      {
        if u != v {
          assert SeededSoFar(g, a, d0, pred0, vs[..i], u);
        }
      }
      i := i + 1;
    }
    assert vs[..i] == vs;
    forall v | v in g.index
      ensures SeededAt(g, a, d, pred, v)
    {
      assert SeededSoFar(g, a, d, pred, vs, v);
    }
  }

  /** Part way through the seeding loop: the vertices of `done` are seeded,
      every other one is unreached and its own predecessor. */
  ghost predicate SeededSoFar(g: Graph, a: Vertex, d: Costs, pred: map<Vertex, Vertex>, done: seq<Vertex>, v: Vertex)
    requires v in d && v in pred
  {
    if v in done then SeededAt(g, a, d, pred, v) else d[v] == None && pred[v] == v
  }

  /** The invariant of the main loop of `shortestPath`. */
  ghost predicate Settling(
    g: Graph, a: Vertex, d: Costs, pred: map<Vertex, Vertex>, unchecked: set<Vertex>,
    time: map<Vertex, nat>, clock: nat)
  {
    && Domains(g, a, d, pred, unchecked)
    && Frontier(g, a, d, unchecked) && SettledFinal(g, a, d, unchecked)
    && PredOk(g, a, d, pred, unchecked, time, clock)
  }

  /** Settling an unchecked vertex of least tentative cost, after relaxing
      its edges, keeps the invariant of the main loop. */
  lemma SettleStep(
    g: Graph, a: Vertex, d: Costs, pred: map<Vertex, Vertex>, unchecked: set<Vertex>,
    time: map<Vertex, nat>, clock: nat, from: Vertex, d': Costs, pred': map<Vertex, Vertex>)
    requires Settling(g, a, d, pred, unchecked, time, clock)
    requires from in unchecked && IsMin(d, unchecked, from)
    requires RelaxedFrom(g, from, unchecked, d, pred, d', pred')
    ensures Settling(g, a, d', pred', unchecked - {from}, time[from := clock], clock + 1)
  {
    MinIsFinal(g, a, d, pred, unchecked, from);
    FrontierStep(g, a, d, pred, unchecked, from, d', pred');
    SettledStep(g, a, d, pred, unchecked, from, d', pred');
    PredStep(g, a, d, pred, unchecked, time, clock, from, d', pred');
  }

  /** One iteration of the main loop of `shortestPath`: pick the unchecked
      vertex of least tentative cost (an arbitrary one when every cost is
      infinite) and relax its edges. */
  method SettleNext(
    g: Graph, a: Vertex, d: Costs, pred: map<Vertex, Vertex>, unchecked: set<Vertex>,
    ghost time: map<Vertex, nat>, ghost clock: nat, last: Vertex)
    returns (from: Vertex, d': Costs, pred': map<Vertex, Vertex>)
    requires Valid(g)
    requires Settling(g, a, d, pred, unchecked, time, clock)
    requires last in g.index && last !in unchecked && unchecked != {}
    ensures from in g.index && from in unchecked
    ensures (exists v :: v in unchecked && d[v].Some?) ==> IsMin(d, unchecked, from)
    ensures Settling(g, a, d', pred', unchecked - {from}, time[from := clock], clock + 1)
  {
    var m := MinVertex(d, unchecked, last);
    if m == last {
      // every unchecked cost is infinite: settle an arbitrary unchecked vertex
      from :| from in unchecked;
    } else {
      from := m;
    }
    var adjacent := AdjacentVertices(g, from);
    d', pred' := Relax(g, from, adjacent.value, d, pred, unchecked);
    SettleStep(g, a, d, pred, unchecked, time, clock, from, d', pred');
  }

  /** The main loop of `shortestPath`: settle unchecked vertices one at a
      time, least tentative cost first, relaxing each one's edges, until a
      single unchecked vertex is left. */
  method SettleAll(g: Graph, a: Vertex, d0: Costs, pred0: map<Vertex, Vertex>)
    returns (d: Costs, pred: map<Vertex, Vertex>, unchecked: set<Vertex>, ghost time: map<Vertex, nat>, ghost clock: nat)
    requires Valid(g)
    requires Settling(g, a, d0, pred0, g.index.Keys - {a}, map[a := 0], 1)
    requires g.index.Keys - {a} != {}
    ensures Settling(g, a, d, pred, unchecked, time, clock) && |unchecked| == 1
  {
    d, pred, unchecked, time, clock := d0, pred0, g.index.Keys - {a}, map[a := 0], 1;
    var from := a;
    while |unchecked| > 1
      invariant Settling(g, a, d, pred, unchecked, time, clock)
      invariant from in g.index && from !in unchecked && unchecked != {}
      decreases |unchecked|
    {
      from, d, pred := SettleNext(g, a, d, pred, unchecked, time, clock, from);
      unchecked := unchecked - {from};
      time := time[from := clock];
      clock := clock + 1;
    }
    assert |unchecked| != 0;
  }

  /** When one vertex is left unchecked, every vertex carries its distance. */
  lemma LastSettled(
    g: Graph, a: Vertex, d: Costs, pred: map<Vertex, Vertex>, unchecked: set<Vertex>,
    time: map<Vertex, nat>, clock: nat, b: Vertex)
    requires Settling(g, a, d, pred, unchecked, time, clock) && |unchecked| == 1
    requires b in g.index
    ensures SettledAt(g, a, d, b)
  {
    var z :| z in unchecked;
    Singleton(unchecked, z);
    assert IsMin(d, unchecked, z);
    MinIsFinal(g, a, d, pred, unchecked, z);
    if b != z {
      assert SettledAt(g, a, d, b);
    }
  }

  /** `shortestPath(a, b)`: fails when either endpoint is unknown; returns
      `[a]` at cost 0 when a == b; otherwise `None` exactly when no directed
      path leads from a to b, and else a cheapest such path with its cost. */
  method ShortestPath(g: Graph, a: Vertex, b: Vertex) returns (r: Result<Option<Path>, Error>)
    requires Valid(g)
    ensures r.Err? <==> a !in g.index || b !in g.index
    ensures r.Err? ==> r.error == UnknownVertex
    ensures r.Ok? && a == b ==> r.value == Some(Path([a], 0))
    ensures r.Ok? && r.value.None? ==> !Reachable(g, a, b)
    ensures r.Ok? && r.value.Some? ==>
      IsPath(g, r.value.value.vertices, a, b) && r.value.value.cost == PathCost(g, r.value.value.vertices)
    ensures r.Ok? && r.value.Some? ==>
      forall p :: IsPath(g, p, a, b) ==> r.value.value.cost <= PathCost(g, p)
  {
    if a !in g.vertices || b !in g.vertices {
      return Err(UnknownVertex);
    }
    if a == b {
      return Ok(Some(Path([a], 0)));
    }
    assert b in g.index.Keys - {a};
    var adjacent := AdjacentVertices(g, a);
    var d0, pred0 := Seed(g, a, adjacent.value);
    Seeded(g, a, d0, pred0);
    var d, pred, unchecked, time, clock := SettleAll(g, a, d0, pred0);
    LastSettled(g, a, d, pred, unchecked, time, clock, b);
    var path := Reconstruct(g, a, b, d, pred, unchecked, time, clock);
    return Ok(path);
  }
}
