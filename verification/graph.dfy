/** The graph engine's data model and its construction and lookup operations:
    vertices identified by name, directed weighted edges, and a dense cost
    matrix in which `NoEdge` marks a missing connection. */
module Graphs {
  import opened Wrappers

  /** A vertex (an airport) is identified by its name alone. */
  datatype Vertex = Vertex(name: string)

  /** A directed connection with a cost; edges are equal when all three fields are. */
  datatype Edge = Edge(src: Vertex, dst: Vertex, weight: int)

  /** A route listing its vertices from first to last, with its total cost. */
  datatype Path = Path(vertices: seq<Vertex>, cost: int)

  /** Why an operation failed. The source throws IllegalArgumentException for
      the first four kinds; `EmptyQueue` is the NullPointerException raised when
      the spanning-tree loop polls an empty priority queue. */
  datatype Error =
    | InvalidReference
    | NegativeWeight
    | DuplicateDirectedEdge
    | UnknownVertex
    | EmptyQueue

  /** The engine's state: the vertex list, the edge set, each vertex's position
      in the list, and the cost matrix indexed by those positions. */
  datatype Graph = Graph(
    vertices: seq<Vertex>,
    edges: set<Edge>,
    index: map<Vertex, nat>,
    matrix: seq<seq<int>>)

  /** The matrix sentinel for "no edge". */
  const NoEdge: int := -1

  /** The set of a list's elements. */
  function Elements<T>(s: seq<T>): set<T> {
    set x | x in s
  }

  /** Only the empty sequence has no elements. */
  lemma NoElements<T>(s: seq<T>)
    ensures Elements(s) == {} <==> s == []
  {
    if s != [] {
      assert s[0] in Elements(s);
    }
  }

  /** No element occurs twice in `s`. */
  ghost predicate Distinct<T>(s: seq<T>) {
    forall i, j :: 0 <= i < j < |s| ==> s[i] != s[j]
  }

  /** A list without repetitions has as many elements as its set. */
  lemma {:induction false} DistinctCard<T>(s: seq<T>)
    requires Distinct(s)
    ensures |Elements(s)| == |s|
  {
    if s != [] {
      var t := s[..|s| - 1];
      assert Distinct(t);
      DistinctCard(t);
      assert s == t + [s[|s| - 1]];
      assert s[|s| - 1] !in t;
      assert Elements(s) == Elements(t) + {s[|s| - 1]};
    }
  }

  /** A subset is no larger than its superset. */
  lemma {:induction false} SubsetCard<T>(a: set<T>, b: set<T>)
    requires a <= b
    ensures |a| <= |b|
    decreases |a|
  {
    if a != {} {
      var x :| x in a;
      SubsetCard(a - {x}, b - {x});
    }
  }

  /** A set of one element is that element's singleton. */
  lemma Singleton<T>(s: set<T>, z: T)
    requires |s| == 1 && z in s
    ensures s == {z}
  {
    assert |s - {z}| == 0;
    assert s == (s - {z}) + {z};
  }

  /** Two different edges on the same ordered pair of vertices. */
  ghost predicate Conflicting(edges: set<Edge>) {
    exists e1, e2 :: e1 in edges && e2 in edges && e1 != e2 && e1.src == e2.src && e1.dst == e2.dst
  }

  /** `index` maps each vertex of the list to its position, and nothing else. */
  ghost predicate Indexed(vertices: seq<Vertex>, index: map<Vertex, nat>) {
    && (forall i :: 0 <= i < |vertices| ==> vertices[i] in index && index[vertices[i]] == i)
    && (forall v :: v in index ==> index[v] < |vertices| && vertices[index[v]] == v)
  }

  /** The square matrix `m` holds each edge's weight at its endpoints'
      positions and `NoEdge` in every cell no edge accounts for. */
  ghost predicate Records(vertices: seq<Vertex>, index: map<Vertex, nat>, edges: set<Edge>, m: seq<seq<int>>) {
    && Indexed(vertices, index)
    && |m| == |vertices|
    && (forall i :: 0 <= i < |vertices| ==> |m[i]| == |vertices|)
    && (forall e :: e in edges ==>
          && e.src in index && e.dst in index && e.weight >= 0
          && m[index[e.src]][index[e.dst]] == e.weight)
    && (forall i, j {:trigger m[i][j]} :: 0 <= i < |vertices| && 0 <= j < |vertices| ==>
          m[i][j] == NoEdge || (m[i][j] >= 0 && Edge(vertices[i], vertices[j], m[i][j]) in edges))
  }

  /** The invariant construction establishes: the index is a bijection onto
      the positions of a duplicate-free vertex list, every edge joins listed
      vertices with a non-negative weight, and the matrix holds exactly the
      edges' weights and `NoEdge` elsewhere. */
  ghost predicate Valid(g: Graph) {
    && Distinct(g.vertices)
    && Records(g.vertices, g.index, g.edges, g.matrix)
  }

  /** The matrix cell for the ordered pair (u, v); `NoEdge` outside the matrix. */
  function Cell(g: Graph, u: Vertex, v: Vertex): int {
    if u in g.index && v in g.index && g.index[u] < |g.matrix| && g.index[v] < |g.matrix[g.index[u]]|
    then g.matrix[g.index[u]][g.index[v]]
    else NoEdge
  }

  /** A valid graph never holds two edges on one ordered pair. */
  lemma ValidHasNoConflict(g: Graph)
    requires Valid(g)
    ensures !Conflicting(g.edges)
  {
    forall e1, e2 | e1 in g.edges && e2 in g.edges && e1.src == e2.src && e1.dst == e2.dst
      ensures e1 == e2
    {
      assert e1.weight == Cell(g, e1.src, e1.dst) == e2.weight;
    }
  }

  /** Whether an input edge names only known vertices and carries a non-negative weight. */
  predicate Admissible(e: Edge, known: set<Vertex>) {
    e.src in known && e.dst in known && e.weight >= 0
  }

  /** The error the constructor's per-edge check reports for an inadmissible
      edge: the endpoint test comes before the weight test. */
  function ErrorFor(e: Edge, known: set<Vertex>): Error {
    if e.dst !in known || e.src !in known then InvalidReference else NegativeWeight
  }

  /** The constructor's scan over its input edges in input order, stopping at
      the first inadmissible one. */
  function FirstBadEdge(known: set<Vertex>, es: seq<Edge>): (r: Option<Error>)
    ensures r.None? <==> forall i :: 0 <= i < |es| ==> Admissible(es[i], known)
    ensures r.Some? ==> exists i ::
      && 0 <= i < |es| && !Admissible(es[i], known)
      && (forall j :: 0 <= j < i ==> Admissible(es[j], known))
      && r.value == ErrorFor(es[i], known)
  {
    if es == [] then None
    else if es[0].dst !in known || es[0].src !in known then Some(InvalidReference)
    else if es[0].weight < 0 then Some(NegativeWeight)
    else
      var r := FirstBadEdge(known, es[1..]);
      assert forall i :: 1 <= i < |es| ==> es[i] == es[1..][i - 1];
      if r.Some? then
        var k :| && 0 <= k < |es[1..]| && !Admissible(es[1..][k], known)
                 && (forall j :: 0 <= j < k ==> Admissible(es[1..][j], known))
                 && r.value == ErrorFor(es[1..][k], known);
        assert forall j :: 0 <= j < k + 1 ==> Admissible(es[j], known) by {
          forall j | 0 <= j < k + 1 ensures Admissible(es[j], known) {
            if j > 0 { assert es[j] == es[1..][j - 1]; }
          }
        }
        r
      else
        r
  }

  /** Collapses duplicate vertices. The source goes through a HashSet, whose
      iteration order is unspecified, so the order is chosen arbitrarily. */
  method Deduplicate(vs: seq<Vertex>) returns (r: seq<Vertex>)
    ensures Distinct(r)
    ensures Elements(r) == Elements(vs)
    ensures |r| == |Elements(vs)|
  {
    var rest := Elements(vs);
    r := [];
    while rest != {}
      invariant rest <= Elements(vs)
      invariant Distinct(r)
      invariant forall x :: x in r <==> x in vs && x !in rest
      decreases |rest|
    {
      var v :| v in rest;
      assert forall i :: 0 <= i < |r| ==> r[i] != v;
      r := r + [v];
      rest := rest - {v};
    }
    DistinctCard(r);
    assert Elements(r) == Elements(vs);
  }

  /** The position map: each listed vertex maps to its index in the list. */
  function IndexMap(vertices: seq<Vertex>): (m: map<Vertex, nat>)
    requires Distinct(vertices)
    ensures forall i :: 0 <= i < |vertices| ==> vertices[i] in m && m[vertices[i]] == i
    ensures forall v :: v in m ==> m[v] < |vertices| && vertices[m[v]] == v
  {
    map i | 0 <= i < |vertices| :: vertices[i] := i
  }

  /** An n-by-n matrix filled with `NoEdge`. */
  function EmptyMatrix(n: nat): (m: seq<seq<int>>)
    ensures |m| == n
    ensures forall i :: 0 <= i < n ==> |m[i]| == n
    ensures forall i, j :: 0 <= i < n && 0 <= j < n ==> m[i][j] == NoEdge
  {
    seq(n, _ => seq(n, _ => NoEdge))
  }

  /** Writes each edge's weight into its matrix cell, visiting the edge set in
      an arbitrary order (the program iterates a HashSet); meeting a cell that
      is already filled means two edges share an ordered pair. */
  method FillMatrix(vertices: seq<Vertex>, index: map<Vertex, nat>, edges: set<Edge>)
    returns (r: Result<seq<seq<int>>, Error>)
    requires Distinct(vertices)
    requires Indexed(vertices, index)
    requires forall e :: e in edges ==> e.src in index && e.dst in index && e.weight >= 0
    ensures r.Err? <==> Conflicting(edges)
    ensures r.Err? ==> r.error == DuplicateDirectedEdge
    ensures r.Ok? ==> Valid(Graph(vertices, edges, index, r.value))
  {
    var m := EmptyMatrix(|vertices|);
    var rest := edges;
    assert Records(vertices, index, edges - rest, m);
    while rest != {}
      invariant rest <= edges
      invariant Records(vertices, index, edges - rest, m)
      decreases |rest|
    {
      var e :| e in rest;
      var row, column := index[e.src], index[e.dst];
      if m[row][column] != NoEdge {
        TakenCellConflicts(vertices, index, edges - rest, m, e, edges);
        return Err(DuplicateDirectedEdge);
      }
      FillStep(vertices, index, edges, rest, m, e);
      m := m[row := m[row][column := e.weight]];
      rest := rest - {e};
    }
    FilledIsValid(vertices, index, edges, rest, m);
    return Ok(m);
  }

  /** One step of the fill: the visited edges grow by `e`. */
  lemma FillStep(vertices: seq<Vertex>, index: map<Vertex, nat>, edges: set<Edge>, rest: set<Edge>, m: seq<seq<int>>, e: Edge)
    requires Records(vertices, index, edges - rest, m) && e in rest && rest <= edges
    requires e.src in index && e.dst in index && e.weight >= 0
    requires m[index[e.src]][index[e.dst]] == NoEdge
    ensures Records(vertices, index, edges - (rest - {e}), m[index[e.src] := m[index[e.src]][index[e.dst] := e.weight]])
  {
    RecordsAdd(vertices, index, edges - rest, m, e);
    assert edges - (rest - {e}) == (edges - rest) + {e};
  }

  /** A matrix in step with the whole edge set makes a valid graph, which has
      no two edges on one ordered pair. */
  lemma FilledIsValid(vertices: seq<Vertex>, index: map<Vertex, nat>, edges: set<Edge>, rest: set<Edge>, m: seq<seq<int>>)
    requires Distinct(vertices) && rest == {} && Records(vertices, index, edges - rest, m)
    ensures Valid(Graph(vertices, edges, index, m)) && !Conflicting(edges)
  {
    assert edges - rest == edges;
    ValidHasNoConflict(Graph(vertices, edges, index, m));
  }

  /** A cell already taken when a further edge of the same ordered pair
      arrives means two distinct edges share that pair. */
  lemma TakenCellConflicts(
    vertices: seq<Vertex>, index: map<Vertex, nat>, done: set<Edge>, m: seq<seq<int>>, e: Edge, edges: set<Edge>)
    requires Records(vertices, index, done, m) && done <= edges && e in edges && e !in done
    requires e.src in index && e.dst in index
    requires m[index[e.src]][index[e.dst]] != NoEdge
    ensures Conflicting(edges)
  {
    var row, column := index[e.src], index[e.dst];
    assert m[row][column] >= 0 && Edge(vertices[row], vertices[column], m[row][column]) in done;
    var other := Edge(vertices[row], vertices[column], m[row][column]);
    assert other in edges && other != e && other.src == e.src && other.dst == e.dst;
  }

  /** Writing a new edge's weight into its empty cell keeps the matrix in step with the edge set. */
  lemma RecordsAdd(vertices: seq<Vertex>, index: map<Vertex, nat>, done: set<Edge>, m: seq<seq<int>>, e: Edge)
    requires Records(vertices, index, done, m)
    requires e.src in index && e.dst in index && e.weight >= 0
    requires m[index[e.src]][index[e.dst]] == NoEdge
    ensures Records(vertices, index, done + {e}, m[index[e.src] := m[index[e.src]][index[e.dst] := e.weight]])
  {
    var row, column := index[e.src], index[e.dst];
    var m' := m[row := m[row][column := e.weight]];
    var n := |vertices|;
    forall f | f in done
      ensures m'[index[f.src]][index[f.dst]] == f.weight
    {
      assert index[f.src] != row || index[f.dst] != column;
    }
    assert m'[row][column] == e.weight;
    assert forall i :: 0 <= i < n ==> |m'[i]| == n;
    forall i, j | 0 <= i < n && 0 <= j < n
      ensures m'[i][j] == NoEdge || (m'[i][j] >= 0 && Edge(vertices[i], vertices[j], m'[i][j]) in done + {e})
    {
      if i == row && j == column {
        assert m'[i][j] == e.weight;
        assert vertices[i] == e.src;
        assert vertices[j] == e.dst;
        assert Edge(vertices[i], vertices[j], m'[i][j]) == e;
      } else {
        assert m'[i][j] == m[i][j];
        assert m[i][j] == NoEdge || (m[i][j] >= 0 && Edge(vertices[i], vertices[j], m[i][j]) in done);
      }
    }
  }

  /** The constructor `MyGraph(v, e)`. Duplicate vertices and value-equal
      edges collapse; an edge naming an unknown vertex or carrying a negative
      weight fails the scan of the input edges; two distinct edges on one
      ordered pair fail while the matrix is filled. */
  method Build(vs: seq<Vertex>, es: seq<Edge>) returns (r: Result<Graph, Error>)
    ensures FirstBadEdge(Elements(vs), es).Some? ==> r == Err(FirstBadEdge(Elements(vs), es).value)
    ensures FirstBadEdge(Elements(vs), es).None? ==> (r.Err? <==> Conflicting(Elements(es)))
    ensures FirstBadEdge(Elements(vs), es).None? && r.Err? ==> r.error == DuplicateDirectedEdge
    ensures r.Ok? ==> Valid(r.value)
    ensures r.Ok? ==> Elements(r.value.vertices) == Elements(vs) && r.value.edges == Elements(es)
    ensures r.Ok? ==> |r.value.vertices| == |Elements(vs)|
  {
    var edges := Elements(es);
    var vertices := Deduplicate(vs);
    var index := IndexMap(vertices);
    var bad := FirstBadEdge(Elements(vertices), es);
    if bad.Some? {
      return Err(bad.value);
    }
    assert forall e :: e in edges ==> Admissible(e, Elements(vertices));
    var m := FillMatrix(vertices, index, edges);
    if m.Err? {
      return Err(m.error);
    }
    return Ok(Graph(vertices, edges, index, m.value));
  }

  /** `vertices()`: the vertex list, each vertex once. */
  function Vertices(g: Graph): (r: seq<Vertex>)
    requires Valid(g)
    ensures Distinct(r)
    ensures forall v :: v in r <==> v in g.index
  {
    g.vertices
  }

  /** `edges()`: exactly the edges the cost matrix records. */
  function Edges(g: Graph): (r: set<Edge>)
    requires Valid(g)
    ensures forall e :: e in r <==>
      e.src in g.index && e.dst in g.index && e.weight >= 0 && Cell(g, e.src, e.dst) == e.weight
  {
    g.edges
  }

  /** `edgeCost(a, b)`: the weight of the edge a -> b, or `NoEdge` when there
      is none; fails when either endpoint is unknown. */
  function EdgeCost(g: Graph, a: Vertex, b: Vertex): (r: Result<int, Error>)
    requires Valid(g)
    ensures r.Err? <==> a !in g.index || b !in g.index
    ensures r.Err? ==> r.error == UnknownVertex
    ensures r.Ok? ==> r.value == NoEdge || r.value >= 0
    ensures r.Ok? ==> forall w :: Edge(a, b, w) in g.edges <==> r.value != NoEdge && w == r.value
  {
    if a !in g.index || b !in g.index then Err(UnknownVertex)
    else Ok(g.matrix[g.index[a]][g.index[b]])
  }

  /** `adjacentVertices(v)`: every vertex w with an edge v -> w, in index
      order; empty when v has no outgoing edge; fails when v is unknown. */
  method AdjacentVertices(g: Graph, v: Vertex) returns (r: Result<seq<Vertex>, Error>)
    requires Valid(g)
    ensures r.Err? <==> v !in g.index
    ensures r.Err? ==> r.error == UnknownVertex
    ensures r.Ok? ==> forall i :: 0 <= i < |r.value| ==> r.value[i] in g.index
    ensures r.Ok? ==> forall w :: w in r.value <==> w in g.index && Cell(g, v, w) != NoEdge
    ensures r.Ok? ==> forall i, j :: 0 <= i < j < |r.value| ==> g.index[r.value[i]] < g.index[r.value[j]]
    ensures r.Ok? ==> Distinct(r.value)
    ensures r.Ok? ==> forall w :: w in r.value <==> w in g.index && EdgeCost(g, v, w) != Ok(NoEdge)
    ensures r.Ok? ==> forall w :: w in r.value <==> exists c :: Edge(v, w, c) in g.edges
  {
    if v !in g.index {
      return Err(UnknownVertex);
    }
    var adjacent: seq<Vertex> := [];
    var idx := g.index[v];
    var i := 0;
    while i < |g.vertices|
      invariant 0 <= i <= |g.vertices|
      invariant forall k :: 0 <= k < |adjacent| ==> adjacent[k] in g.index && g.index[adjacent[k]] < i
      invariant forall w :: w in adjacent <==> w in g.index && g.index[w] < i && Cell(g, v, w) != NoEdge
      invariant forall k, l :: 0 <= k < l < |adjacent| ==> g.index[adjacent[k]] < g.index[adjacent[l]]
    {
      if g.matrix[idx][i] != NoEdge {
        adjacent := adjacent + [g.vertices[i]];
      }
      i := i + 1;
    }
    forall w
      ensures w in adjacent <==> exists c :: Edge(v, w, c) in g.edges
    {
      if w in adjacent {
        var j := g.index[w];
        assert g.matrix[idx][j] == NoEdge || Edge(g.vertices[idx], g.vertices[j], g.matrix[idx][j]) in g.edges;
      }
      if c :| Edge(v, w, c) in g.edges {
        assert Cell(g, v, w) == c;
      }
    }
    return Ok(adjacent);
  }
}
