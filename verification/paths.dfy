/** Directed walks through a graph and their costs: the notions the
    shortest-path contract is stated in. */
module Paths {
  import opened Graphs

  /** There is a directed edge u -> v. */
  ghost predicate Linked(g: Graph, u: Vertex, v: Vertex) {
    u in g.index && v in g.index && Cell(g, u, v) != NoEdge
  }

  /** The weight of the edge u -> v, read from the matrix (0 where there is none). */
  function Weight(g: Graph, u: Vertex, v: Vertex): nat {
    if Cell(g, u, v) >= 0 then Cell(g, u, v) else 0
  }

  /** In a valid graph a linked pair is an edge of the edge set, whose weight
      is the one its matrix cell holds. */
  lemma LinkedIsEdge(g: Graph, u: Vertex, v: Vertex)
    requires Valid(g)
    ensures Linked(g, u, v) <==> exists w :: Edge(u, v, w) in g.edges
    ensures Linked(g, u, v) ==> Edge(u, v, Weight(g, u, v)) in g.edges && Cell(g, u, v) == Weight(g, u, v)
  {
    if u in g.index && v in g.index {
      var i, j := g.index[u], g.index[v];
      assert g.matrix[i][j] == NoEdge || (g.matrix[i][j] >= 0 && Edge(g.vertices[i], g.vertices[j], g.matrix[i][j]) in g.edges);
    }
  }

  /** The i-th and (i+1)-th vertices of `p` are joined by an edge. */
  ghost predicate StepLinked(g: Graph, p: seq<Vertex>, i: int)
    requires 0 <= i < |p| - 1
  {
    Linked(g, p[i], p[i + 1])
  }

  /** Every vertex of `p` is in the graph and consecutive vertices are joined by an edge. */
  ghost predicate IsWalk(g: Graph, p: seq<Vertex>) {
    && (forall i :: 0 <= i < |p| ==> p[i] in g.index)
    && (forall i :: 0 <= i < |p| - 1 ==> StepLinked(g, p, i))
  }

  /** `p` is a directed path from `a` to `b`. */
  ghost predicate IsPath(g: Graph, p: seq<Vertex>, a: Vertex, b: Vertex) {
    |p| > 0 && p[0] == a && p[|p| - 1] == b && IsWalk(g, p)
  }

  /** The sum of the weights of the edges along a walk. */
  ghost function PathCost(g: Graph, p: seq<Vertex>): nat
    requires IsWalk(g, p)
    decreases |p|
  {
    if |p| <= 1 then 0
    else
      WalkPrefix(g, p, |p| - 1);
      PathCost(g, p[..|p| - 1]) + Weight(g, p[|p| - 2], p[|p| - 1])
  }

  /** A prefix of a walk is a walk. */
  lemma WalkPrefix(g: Graph, p: seq<Vertex>, k: int)
    requires IsWalk(g, p) && 0 < k <= |p|
    ensures IsWalk(g, p[..k])
  {
    forall i | 0 <= i < k - 1
      ensures StepLinked(g, p[..k], i)
    {
      assert StepLinked(g, p, i);
    }
  }

  /** The edge a walk takes at step i. */
  lemma WalkStep(g: Graph, p: seq<Vertex>, i: int)
    requires IsWalk(g, p) && 0 <= i < |p| - 1
    ensures Linked(g, p[i], p[i + 1])
  {
    assert StepLinked(g, p, i);
  }

  /** Some directed path leads from `a` to `b`. */
  ghost predicate Reachable(g: Graph, a: Vertex, b: Vertex) {
    exists p :: IsPath(g, p, a, b)
  }

  /** Extending a walk at its front adds the weight of the new first edge. */
  lemma {:induction false} PathCostCons(g: Graph, u: Vertex, q: seq<Vertex>)
    requires |q| >= 1 && IsWalk(g, [u] + q)
    ensures IsWalk(g, q) && Linked(g, u, q[0])
    ensures PathCost(g, [u] + q) == Weight(g, u, q[0]) + PathCost(g, q)
    decreases |q|
  {
    var p := [u] + q;
    assert p[1..] == q;
    WalkStep(g, p, 0);
    WalkSuffix(g, p);
    if |q| == 1 {
      assert p[..|p| - 1] == [u];
    } else {
      var q' := q[..|q| - 1];
      assert p[..|p| - 1] == [u] + q';
      WalkPrefix(g, p, |p| - 1);
      PathCostCons(g, u, q');
      assert p[|p| - 2] == q[|q| - 2] && p[|p| - 1] == q[|q| - 1];
    }
  }

  /** Dropping the first vertex of a walk leaves a walk. */
  lemma WalkSuffix(g: Graph, p: seq<Vertex>)
    requires IsWalk(g, p) && |p| >= 1
    ensures IsWalk(g, p[1..])
  {
    forall i | 0 <= i < |p| - 2
      ensures StepLinked(g, p[1..], i)
    {
      WalkStep(g, p, i + 1);
    }
  }

  /** Prefixing a walk with a vertex linked to its start gives a walk. */
  lemma WalkCons(g: Graph, u: Vertex, q: seq<Vertex>)
    requires IsWalk(g, q) && |q| >= 1 && Linked(g, u, q[0])
    ensures IsWalk(g, [u] + q)
  {
    var p := [u] + q;
    forall i | 0 <= i < |p| - 1
      ensures StepLinked(g, p, i)
    {
      if i > 0 {
        WalkStep(g, q, i - 1);
      }
    }
  }
}
