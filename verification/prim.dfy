/** `getMinimumSpanningTreeEdges`: Prim's algorithm over the undirected
    skeleton of the graph, as the code is written. Each round offers every
    edge that touches the connected set to a priority queue (once per
    connected endpoint) and polls it until an edge with an endpoint outside
    the connected set comes out. A rejected candidate also clears the list
    of vertices still to connect (the list is compared with an alias of
    itself), so the loop may stop before the tree spans the graph. */
module SpanningTrees {
  import opened Wrappers
  import opened Graphs

  /** `e` touches a vertex of `s` (`isConnectedTo` for some element). */
  predicate Touches(e: Edge, s: seq<Vertex>) {
    e.src in s || e.dst in s
  }

  /** Both endpoints of `e` are in `s`: taking it would close a cycle. */
  predicate BothIn(e: Edge, s: seq<Vertex>) {
    e.src in s && e.dst in s
  }

  /** `e` has exactly one endpoint in `s`: it crosses the cut around `s`. */
  predicate Crosses(e: Edge, s: seq<Vertex>) {
    Touches(e, s) && !BothIn(e, s)
  }

  /** No edge of the graph has `v` as an endpoint. */
  ghost predicate Isolated(g: Graph, v: Vertex) {
    forall e :: e in g.edges ==> e.src != v && e.dst != v
  }

  /** How many positions of `s` hold an endpoint of `e`: how often the
      offering loop puts `e` into the queue. */
  function Incidence(e: Edge, s: seq<Vertex>): (r: nat)
    ensures r <= |s|
    ensures r > 0 <==> Touches(e, s)
  {
    if s == [] then 0
    else
      var last := s[|s| - 1];
      assert s == s[..|s| - 1] + [last];
      Incidence(e, s[..|s| - 1]) + (if last == e.src || last == e.dst then 1 else 0)
  }

  /** The inner offering loop: `e` is offered once for every connected
      vertex it touches. */
  method OfferEdge(pool: multiset<Edge>, e: Edge, connected: seq<Vertex>) returns (pool': multiset<Edge>)
    ensures pool'[e] == pool[e] + Incidence(e, connected)
    ensures forall f :: f != e ==> pool'[f] == pool[f]
  {
    pool' := pool;
    var j := 0;
    while j < |connected|
      invariant 0 <= j <= |connected|
      invariant forall f :: f != e ==> pool'[f] == pool[f]
      invariant pool'[e] == pool[e] + Incidence(e, connected[..j])
    {
      assert connected[..j + 1][..j] == connected[..j];
      if connected[j] == e.src || connected[j] == e.dst {
        pool' := pool' + multiset{e};
      }
      j := j + 1;
    }
    assert connected[..|connected|] == connected;
  }

  /** The offering loop of a round: each edge is offered once for every
      connected vertex it touches. */
  method Offers(edges: set<Edge>, connected: seq<Vertex>) returns (pool: multiset<Edge>)
    ensures forall e :: pool[e] == if e in edges then Incidence(e, connected) else 0
    ensures forall e :: e in pool <==> e in edges && Touches(e, connected)
  {
    pool := multiset{};
    var rest := edges;
    while rest != {}
      invariant rest <= edges
      invariant forall e :: pool[e] == if e in edges - rest then Incidence(e, connected) else 0
      decreases |rest|
    {
      var e :| e in rest;
      pool := OfferEdge(pool, e, connected);
      rest := rest - {e};
    }
  }

  /** `PriorityQueue.poll`: `None` (Java's `null`) on an empty queue,
      otherwise a lightest element, removed once. */
  method Poll(pool: multiset<Edge>) returns (r: Option<Edge>, rest: multiset<Edge>)
    ensures r.None? <==> pool == multiset{}
    ensures r.None? ==> rest == pool
    ensures r.Some? ==> r.value in pool && rest == pool - multiset{r.value}
    ensures r.Some? ==> forall f :: f in pool ==> r.value.weight <= f.weight
  {
    if pool == multiset{} {
      return None, pool;
    }
    var best :| best in pool;
    var left := set f | f in pool;
    while left != {}
      invariant best in pool && forall f :: f in left ==> f in pool
      invariant forall f :: f in pool && f !in left ==> best.weight <= f.weight
      decreases |left|
    {
      var f :| f in left;
      if f.weight < best.weight {
        best := f;
      }
      left := left - {f};
    }
    return Some(best), pool - multiset{best};
  }

  /** `e` is in `pool` and no element of `pool` is lighter. */
  predicate Lightest(e: Edge, pool: multiset<Edge>) {
    e in pool && forall f :: f in pool ==> e.weight <= f.weight
  }

  /** The do-while loop of a round: poll lightest candidates until one has an
      endpoint outside `connected`. Polling an empty queue at the start is
      the program's null dereference. `rejected` tells whether some candidate
      was thrown away first. */
  method PickEdge(connected: seq<Vertex>, pool0: multiset<Edge>)
    returns (r: Result<Option<Edge>, Error>, rejected: bool)
    ensures r.Err? <==> pool0 == multiset{}
    ensures r.Err? ==> r.error == EmptyQueue
    ensures r.Ok? && r.value.Some? ==> r.value.value in pool0 && !BothIn(r.value.value, connected)
    ensures r.Ok? && r.value.Some? ==>
      forall f :: f in pool0 && !BothIn(f, connected) ==> r.value.value.weight <= f.weight
    ensures r.Ok? && !rejected ==> r.value.Some? && forall f :: f in pool0 ==> r.value.value.weight <= f.weight
    ensures r.Ok? && r.value.None? ==> rejected && forall f :: f in pool0 ==> BothIn(f, connected)
    ensures rejected ==> exists f :: Lightest(f, pool0) && BothIn(f, connected)
  {
    if pool0 == multiset{} {
      return Err(EmptyQueue), false;
    }
    rejected := false;
    var pool := pool0;
    ghost var polled: multiset<Edge> := multiset{};
    ghost var first :| first in pool0;
    while pool != multiset{}
      invariant pool0 == pool + polled
      invariant forall x :: x in polled ==> BothIn(x, connected)
      invariant rejected <==> polled != multiset{}
      invariant rejected ==> Lightest(first, pool0) && BothIn(first, connected)
      decreases |pool|
    {
      var c, rest := Poll(pool);
      var e := c.value;
      if !BothIn(e, connected) {
        forall f | f in pool0 && !BothIn(f, connected)
          ensures e.weight <= f.weight
        {
          assert pool0[f] == pool[f] + polled[f];
        }
        return Ok(Some(e)), rejected;
      }
      if !rejected {
        first := e;
      }
      rejected := true;
      polled := polled + multiset{e};
      pool := rest;
    }
    return Ok(None), rejected;
  }

  /** `List.remove(Object)`: drop the first occurrence of `x`, if any. On a
      list without repetitions that leaves every other element, once. */
  function Remove(s: seq<Vertex>, x: Vertex): (r: seq<Vertex>)
    ensures |r| == if x in s then |s| - 1 else |s|
    ensures forall y :: y in r ==> y in s
    ensures Distinct(s) ==> Distinct(r) && forall y :: y in r <==> y in s && y != x
  {
    if s == [] then []
    else if s[0] == x then
      assert s == [s[0]] + s[1..];
      DistinctTail(s);
      s[1..]
    else
      assert s == [s[0]] + s[1..];
      var t := Remove(s[1..], x);
      DistinctTail(s);
      DistinctCons(s[0], t);
      [s[0]] + t
  }

  /** The tail of a list without repetitions has none and lacks the head. */
  lemma DistinctTail(s: seq<Vertex>)
    requires s != []
    ensures Distinct(s) ==> Distinct(s[1..]) && s[0] !in s[1..]
  {
    if Distinct(s) {
      forall i, j | 0 <= i < j < |s| - 1
        ensures s[1..][i] != s[1..][j]
      {
        assert s[1..][i] == s[i + 1] && s[1..][j] == s[j + 1];
      }
      forall j | 0 <= j < |s| - 1
        ensures s[1..][j] != s[0]
      {
        assert s[1..][j] == s[j + 1];
      }
    }
  }

  /** A new head keeps a list free of repetitions. */
  lemma DistinctCons(u: Vertex, t: seq<Vertex>)
    ensures Distinct(t) && u !in t ==> Distinct([u] + t)
  {
    if Distinct(t) && u !in t {
      forall i, j | 0 <= i < j < |t| + 1
        ensures ([u] + t)[i] != ([u] + t)[j]
      {
        assert ([u] + t)[j] == t[j - 1];
        if i > 0 {
          assert ([u] + t)[i] == t[i - 1];
        }
      }
    }
  }

  /** Removal takes exactly one copy of `x` out of the list, when there is one. */
  lemma {:induction false} RemoveCount(s: seq<Vertex>, x: Vertex)
    ensures multiset(Remove(s, x)) == multiset(s) - multiset{x}
  {
    if s != [] {
      assert s == [s[0]] + s[1..];
      if s[0] != x {
        RemoveCount(s[1..], x);
        assert Remove(s, x) == [s[0]] + Remove(s[1..], x);
      }
    }
  }

  /** Step i of the growth: `order[i]` is a graph edge joining the new vertex
      `conn[i + 1]` to a vertex of `conn[..i + 1]`, in its own orientation,
      and no graph edge crossing the cut around `conn[..i + 1]` is lighter. */
  ghost predicate JoinsAt(g: Graph, order: seq<Edge>, conn: seq<Vertex>, i: int)
    requires 0 <= i < |order| && |conn| == |order| + 1
  {
    var e, inside := order[i], conn[..i + 1];
    && e in g.edges
    && ((e.src in inside && e.dst == conn[i + 1]) || (e.dst in inside && e.src == conn[i + 1]))
    && (forall f :: f in g.edges && Crosses(f, inside) ==> e.weight <= f.weight)
  }

  /** The accepted edges `order`, in order, grow the tree from `start` through
      the distinct vertices `conn`, one new vertex per edge, each edge a
      lightest one across the cut it crosses. */
  ghost predicate Growth(g: Graph, start: Vertex, order: seq<Edge>, conn: seq<Vertex>) {
    && |conn| == |order| + 1 && conn[0] == start && Distinct(conn)
    && (forall k :: 0 <= k < |conn| ==> conn[k] in g.vertices)
    && forall i {:trigger JoinsAt(g, order, conn, i)} :: 0 <= i < |order| ==> JoinsAt(g, order, conn, i)
  }

  /** Polling the queue a round offers around `inside` can first yield an
      edge with both endpoints inside: a lightest edge touching `inside`
      lies within it. */
  ghost predicate RejectsAt(g: Graph, inside: seq<Vertex>) {
    exists f :: f in g.edges && BothIn(f, inside) &&
      forall h :: h in g.edges && Touches(h, inside) ==> f.weight <= h.weight
  }

  /** The outer loop may stop once it has connected `conn`: every vertex is
      connected; or no edge crosses the cut around `conn`; or the round that
      connected the last vertex of `conn` first rejected a candidate, which
      cleared the list of vertices still to connect. */
  ghost predicate Halted(g: Graph, conn: seq<Vertex>) {
    || (forall v :: v in g.vertices ==> v in conn)
    || (forall f :: f in g.edges ==> !Crosses(f, conn))
    || (|conn| >= 2 && RejectsAt(g, conn[..|conn| - 1]))
  }

  /** `e` is no heavier than any edge touching `inside`: the queue of a
      round yields it first, so nothing is rejected before it. */
  ghost predicate CleanEdge(g: Graph, e: Edge, inside: seq<Vertex>) {
    forall f :: f in g.edges && Touches(f, inside) ==> e.weight <= f.weight
  }

  /** Step i of the growth took the first edge its round polled. */
  ghost predicate CleanAt(g: Graph, order: seq<Edge>, conn: seq<Vertex>, i: int)
    requires 0 <= i < |order| && |conn| == |order| + 1
  {
    CleanEdge(g, order[i], conn[..i + 1])
  }

  /** The first n steps of the growth rejected nothing. */
  ghost predicate CleanUpTo(g: Graph, order: seq<Edge>, conn: seq<Vertex>, n: int) {
    && |conn| == |order| + 1 && n <= |order|
    && forall i {:trigger CleanAt(g, order, conn, i)} :: 0 <= i < n ==> CleanAt(g, order, conn, i)
  }

  /** A run of the outer loop as written: a growth from `start` in which
      every round but the last took the first edge it polled (a rejection
      clears the list of vertices still to connect and ends the loop), and
      which stopped where the loop may stop. */
  ghost predicate PrimRun(g: Graph, start: Vertex, order: seq<Edge>, conn: seq<Vertex>) {
    Growth(g, start, order, conn) && CleanUpTo(g, order, conn, |order| - 1) && Halted(g, conn)
  }

  /** The edge sets `getMinimumSpanningTreeEdges` may return: the edges of a
      run from the first vertex, and nothing for an empty graph. */
  ghost predicate PrimTree(g: Graph, t: set<Edge>) {
    if g.vertices == [] then t == {}
    else exists order, conn :: PrimRun(g, g.vertices[0], order, conn) && t == Elements(order)
  }

  /** Extending a growth keeps its clean steps, and adds one more when the
      new edge is no heavier than any edge touching the old vertices. */
  lemma CleanExtend(g: Graph, order: seq<Edge>, conn: seq<Vertex>, e: Edge, x: Vertex, n: int)
    requires CleanUpTo(g, order, conn, n)
    ensures CleanUpTo(g, order + [e], conn + [x], n)
    ensures n == |order| && CleanEdge(g, e, conn) ==> CleanUpTo(g, order + [e], conn + [x], n + 1)
  {
    var order', conn' := order + [e], conn + [x];
    forall i | 0 <= i < n
      ensures CleanAt(g, order', conn', i)
    {
      assert CleanAt(g, order, conn, i);
      assert conn'[..i + 1] == conn[..i + 1];
    }
    if n == |order| && CleanEdge(g, e, conn) {
      forall i | 0 <= i < n + 1
        ensures CleanAt(g, order', conn', i)
      {
        if i == n {
          assert conn'[..i + 1] == conn;
        }
      }
    }
  }

  /** Accepting an edge that crosses the cut around `conn` at least weight
      extends the growth by its outer endpoint. */
  lemma GrowthExtend(g: Graph, start: Vertex, order: seq<Edge>, conn: seq<Vertex>, e: Edge, x: Vertex)
    requires Growth(g, start, order, conn)
    requires e in g.edges && x in g.vertices && x !in conn
    requires (e.src in conn && e.dst == x) || (e.dst in conn && e.src == x)
    requires forall f :: f in g.edges && Crosses(f, conn) ==> e.weight <= f.weight
    ensures Growth(g, start, order + [e], conn + [x])
  {
    var order', conn' := order + [e], conn + [x];
    forall i | 0 <= i < |order'|
      ensures JoinsAt(g, order', conn', i)
    {
      assert conn'[..i + 1] == conn[..i + 1] by {
        if i == |order| {
          assert conn'[..i + 1] == conn;
        }
      }
      if i < |order| {
        assert JoinsAt(g, order, conn, i);
        assert conn'[i + 1] == conn[i + 1];
      } else {
        assert conn[..i + 1] == conn;
      }
    }
  }

  /** What holds between rounds of the outer loop: the tree grown so far;
      the vertices still to connect, unless the list was cleared; the
      untouched list before the first round; and, once the first round is
      over, an edge at the start vertex. */
  ghost predicate Progress(
    g: Graph, start: Vertex, order: seq<Edge>, connected: seq<Vertex>, notConnected: seq<Vertex>)
  {
    && Growth(g, start, order, connected)
    && (notConnected != [] ==>
          Distinct(notConnected) && forall v :: v in notConnected <==> v in g.vertices && v !in connected)
    && (|connected| == 1 && notConnected != [] ==> notConnected == g.vertices[1..])
    && (|g.vertices| >= 2 && (|connected| >= 2 || notConnected == []) ==> !Isolated(g, start))
  }

  /** One round of the outer loop: offer the edges touching the connected
      set, pick one with an endpoint outside it, and move that endpoint over.
      A rejected candidate clears `notConnected`: `notConnectedPrev` aliases
      it, so the equality test always holds. */
  method Round(
    g: Graph, start: Vertex, connected: seq<Vertex>, notConnected: seq<Vertex>, ghost order: seq<Edge>)
    returns (r: Result<Option<Edge>, Error>, connected': seq<Vertex>, notConnected': seq<Vertex>, ghost order': seq<Edge>)
    requires Distinct(g.vertices) && EndsListed(g) && g.vertices != [] && start == g.vertices[0]
    requires Progress(g, start, order, connected, notConnected) && notConnected != []
    ensures r.Err? <==> |g.vertices| >= 2 && Isolated(g, start)
    ensures r.Err? ==> r.error == EmptyQueue
    ensures r.Ok? ==> Progress(g, start, order', connected', notConnected') && |notConnected'| < |notConnected|
    ensures r.Ok? && r.value.None? ==> order' == order && connected' == connected
    ensures r.Ok? && r.value.Some? ==>
      order' == order + [r.value.value] && connected' == connected + [Outer(r.value.value, connected)]
    ensures r.Ok? && r.value.None? ==> forall f :: f in g.edges ==> !Crosses(f, connected)
    ensures r.Ok? && notConnected' == [] ==> Halted(g, connected')
    ensures r.Ok? && notConnected' != [] ==> r.value.Some? && CleanEdge(g, r.value.value, connected)
  {
    connected', notConnected', order' := connected, notConnected, order;
    var pool := Offers(g.edges, connected);
    if |connected| >= 2 {
      assert JoinsAt(g, order, connected, 0);
      assert order[0] in pool;
    }
    var pick, rejected := PickEdge(connected, pool);
    if pick.Err? {
      assert |connected| == 1;
      assert Isolated(g, start) by {
        forall e | e in g.edges
          ensures e.src != start && e.dst != start
        {
          assert e !in pool;
        }
      }
      assert g.vertices[1] in notConnected;
      return Err(EmptyQueue), connected', notConnected', order';
    }
    assert !Isolated(g, start) by {
      var e :| e in pool;
      if |connected| == 1 {
        assert e.src == start || e.dst == start;
      }
    }
    OfferedCut(g, connected, pool);
    var accepted := if pick.value.Some? then Some(Outer(pick.value.value, connected)) else None;
    RoundStops(g, connected, notConnected, pool, rejected, accepted);
    connected', notConnected', order' := Advance(g, start, connected, notConnected, order, pick.value, rejected);
    if !rejected {
      OfferedClean(g, connected, pool, pick.value.value);
    }
    r := pick;
  }

  /** The endpoint of `e` that is not in `connected`, when `e` crosses. */
  function Outer(e: Edge, connected: seq<Vertex>): (x: Vertex)
    ensures Crosses(e, connected) ==> x !in connected && (x == e.src || x == e.dst)
  {
    if e.src in connected then e.dst else e.src
  }

  /** The end of a round: a rejection clears `notConnected`, and an accepted
      lightest crossing edge moves its outer endpoint over. */
  method Advance(
    g: Graph, start: Vertex, connected: seq<Vertex>, notConnected: seq<Vertex>, ghost order: seq<Edge>,
    pick: Option<Edge>, rejected: bool)
    returns (connected': seq<Vertex>, notConnected': seq<Vertex>, ghost order': seq<Edge>)
    requires EndsListed(g) && g.vertices != [] && start == g.vertices[0]
    requires Progress(g, start, order, connected, notConnected) && notConnected != []
    requires |g.vertices| >= 2 ==> !Isolated(g, start)
    requires !rejected ==> pick.Some?
    requires pick.Some? ==> pick.value in g.edges && Crosses(pick.value, connected)
    requires pick.Some? ==> forall f :: f in g.edges && Crosses(f, connected) ==> pick.value.weight <= f.weight
    ensures Progress(g, start, order', connected', notConnected') && |notConnected'| < |notConnected|
    ensures pick.None? ==> order' == order && connected' == connected
    ensures pick.Some? ==> order' == order + [pick.value] && connected' == connected + [Outer(pick.value, connected)]
    ensures rejected ==> notConnected' == []
    ensures notConnected' == [] ==> rejected || Remove(notConnected, Outer(pick.value, connected)) == []
  {
    connected', notConnected', order' := connected, notConnected, order;
    if rejected {
      notConnected' := [];
    }
    if pick.Some? {
      var e := pick.value;
      var x := Outer(e, connected);
      GrowthExtend(g, start, order, connected, e, x);
      order' := order + [e];
      connected' := connected + [x];
      notConnected' := Remove(notConnected', x);
    }
  }

  /** What the polls of a round say about the cut around `connected`, given
      that the queue holds exactly the edges touching it: if every candidate
      lies inside, no edge crosses; if a lightest one lies inside, the round
      rejects it. */
  lemma OfferedCut(g: Graph, connected: seq<Vertex>, pool: multiset<Edge>)
    requires forall e :: e in pool <==> e in g.edges && Touches(e, connected)
    ensures (forall f :: f in pool ==> BothIn(f, connected)) ==> forall f :: f in g.edges ==> !Crosses(f, connected)
    ensures forall f :: Lightest(f, pool) && BothIn(f, connected) ==> RejectsAt(g, connected)
  {
    forall f | Lightest(f, pool) && BothIn(f, connected)
      ensures RejectsAt(g, connected)
    {
      forall h | h in g.edges && Touches(h, connected)
        ensures f.weight <= h.weight
      {
        assert h in pool;
      }
    }
  }

  /** An element no heavier than any in a queue that holds exactly the edges
      touching `connected` is no heavier than any such edge. */
  lemma OfferedClean(g: Graph, connected: seq<Vertex>, pool: multiset<Edge>, e: Edge)
    requires forall f :: f in pool <==> f in g.edges && Touches(f, connected)
    requires forall f :: f in pool ==> e.weight <= f.weight
    ensures CleanEdge(g, e, connected)
  {
    forall f | f in g.edges && Touches(f, connected)
      ensures e.weight <= f.weight
    {
      assert f in pool;
    }
  }

  /** A round that rejected a candidate, or connected the last vertex left,
      leaves the loop free to stop at the vertices it has connected. */
  lemma RoundStops(
    g: Graph, connected: seq<Vertex>, notConnected: seq<Vertex>, pool: multiset<Edge>,
    rejected: bool, accepted: Option<Vertex>)
    requires forall e :: e in pool <==> e in g.edges && Touches(e, connected)
    requires Distinct(notConnected) && forall v :: v in notConnected <==> v in g.vertices && v !in connected
    requires rejected ==> exists f :: Lightest(f, pool) && BothIn(f, connected)
    requires accepted.None? ==> rejected && forall f :: f in pool ==> BothIn(f, connected)
    ensures accepted.None? ==> Halted(g, connected)
    ensures accepted.Some? && (rejected || Remove(notConnected, accepted.value) == []) ==>
      Halted(g, connected + [accepted.value])
  {
    OfferedCut(g, connected, pool);
    if accepted.Some? {
      var conn := connected + [accepted.value];
      assert conn[..|conn| - 1] == connected;
    }
  }

  /** `getMinimumSpanningTreeEdges`, as written. It fails (where the program
      dereferences the null `poll()` result) exactly when there are at least
      two vertices and the first one has no edge. Otherwise the result is
      made of graph edges, in their own orientation and weight, each joining
      a new vertex to the tree grown so far across a lightest crossing edge,
      every one but the last the first edge its round polled, until every
      vertex is connected, no edge leaves the tree, or a round rejected a
      candidate. An edge leaving the first vertex is always taken. */
  method MinimumSpanningTreeEdges(g: Graph) returns (r: Result<set<Edge>, Error>)
    requires Valid(g)
    ensures r.Err? <==> |g.vertices| >= 2 && Isolated(g, g.vertices[0])
    ensures r.Err? ==> r.error == EmptyQueue
    ensures r.Ok? ==> r.value <= g.edges
    ensures r.Ok? ==> PrimTree(g, r.value)
    ensures r.Ok? && |g.vertices| >= 2 && (exists e :: e in g.edges && Crosses(e, [g.vertices[0]])) ==>
      r.value != {}
  {
    ValidEndsListed(g);
    if g.vertices == [] {
      return Ok({});
    }
    ghost var order;
    var conn;
    r, order, conn := Grow(g);
    if r.Ok? {
      GrowthIsTree(g, order, conn);
      assert PrimRun(g, g.vertices[0], order, conn) && r.value == Elements(order);
      PrimTreeNonEmpty(g, r.value);
    }
  }

  /** The outer loop of `getMinimumSpanningTreeEdges` from the first vertex:
      rounds run until the list of vertices still to connect is empty. */
  method Grow(g: Graph) returns (r: Result<set<Edge>, Error>, ghost order: seq<Edge>, connected: seq<Vertex>)
    requires Distinct(g.vertices) && EndsListed(g) && g.vertices != []
    ensures r.Err? <==> |g.vertices| >= 2 && Isolated(g, g.vertices[0])
    ensures r.Err? ==> r.error == EmptyQueue
    ensures r.Ok? ==> PrimRun(g, g.vertices[0], order, connected) && r.value == Elements(order)
  {
    var result: set<Edge> := {};
    var start := g.vertices[0];
    var notConnected := g.vertices[1..];
    connected := [start];
    order := [];

    while notConnected != []
      invariant Progress(g, start, order, connected, notConnected) && result == Elements(order)
      invariant notConnected == [] ==> Halted(g, connected)
      invariant CleanUpTo(g, order, connected, if notConnected == [] then |order| - 1 else |order|)
      decreases |notConnected|
    {
      var pick, connected', notConnected';
      ghost var order';
      pick, connected', notConnected', order' := Round(g, start, connected, notConnected, order);
      if pick.Err? {
        return Err(EmptyQueue), order, connected;
      }
      if pick.value.Some? {
        result := result + {pick.value.value};
        CleanExtend(g, order, connected, pick.value.value, Outer(pick.value.value, connected), |order|);
      }
      connected, notConnected, order := connected', notConnected', order';
    }
    return Ok(result), order, connected;
  }

  /** A graph with an edge between the first vertex and another one gets a
      non-empty tree: the first round always takes an edge. */
  lemma PrimTreeNonEmpty(g: Graph, t: set<Edge>)
    requires Distinct(g.vertices) && PrimTree(g, t)
    ensures |g.vertices| >= 2 && (exists e :: e in g.edges && Crosses(e, [g.vertices[0]])) ==> t != {}
  {
    if |g.vertices| >= 2 && t == {} {
      var order, conn :| PrimRun(g, g.vertices[0], order, conn) && t == Elements(order);
      NoElements(order);
      assert conn == [conn[0]];
      assert g.vertices[1] !in conn;
    }
  }

  /** An undirected walk over the graph's edges that starts in `conn` never
      leaves it when no edge crosses the cut around `conn`. */
  lemma {:induction false} ClosedWalk(g: Graph, conn: seq<Vertex>, p: seq<Vertex>)
    requires forall f :: f in g.edges ==> !Crosses(f, conn)
    requires IsUndirectedWalk(g.edges, p) && p[0] in conn
    ensures p[|p| - 1] in conn
    decreases |p|
  {
    if |p| > 1 {
      var q := p[..|p| - 1];
      forall i | 0 <= i < |q| - 1
        ensures JoinedAt(g.edges, q, i)
      {
        assert JoinedAt(g.edges, p, i);
      }
      ClosedWalk(g, conn, q);
      assert JoinedAt(g.edges, p, |p| - 2);
      var e :| e in g.edges && ((e.src == p[|p| - 2] && e.dst == p[|p| - 1]) || (e.src == p[|p| - 1] && e.dst == p[|p| - 2]));
      assert !Crosses(e, conn);
    }
  }

  /** Unless the round that connected its last vertex rejected a candidate,
      a stopped growth holds every vertex the graph joins to its start. */
  lemma HaltedSpans(g: Graph, conn: seq<Vertex>)
    requires Halted(g, conn) && conn != [] && EndsListed(g)
    requires !(|conn| >= 2 && RejectsAt(g, conn[..|conn| - 1]))
    ensures forall v :: Connects(g.edges, conn[0], v) ==> v in conn
  {
    forall v | Connects(g.edges, conn[0], v)
      ensures v in conn
    {
      var p :| IsUndirectedWalk(g.edges, p) && p[0] == conn[0] && p[|p| - 1] == v;
      if forall f :: f in g.edges ==> !Crosses(f, conn) {
        ClosedWalk(g, conn, p);
      }
    }
  }

  /** Some edge of `t` joins u and v, in one direction or the other. */
  ghost predicate Joined(t: set<Edge>, u: Vertex, v: Vertex) {
    exists e :: e in t && ((e.src == u && e.dst == v) || (e.src == v && e.dst == u))
  }

  /** The i-th and (i+1)-th vertices of `p` are joined by an edge of `t`. */
  ghost predicate JoinedAt(t: set<Edge>, p: seq<Vertex>, i: int)
    requires 0 <= i < |p| - 1
  {
    Joined(t, p[i], p[i + 1])
  }

  /** `p` walks through `t` with the edges taken either way round. */
  ghost predicate IsUndirectedWalk(t: set<Edge>, p: seq<Vertex>) {
    |p| > 0 && forall i {:trigger JoinedAt(t, p, i)} :: 0 <= i < |p| - 1 ==> JoinedAt(t, p, i)
  }

  /** u and v lie in one component of the undirected skeleton of `t`. */
  ghost predicate Connects(t: set<Edge>, u: Vertex, v: Vertex) {
    exists p :: IsUndirectedWalk(t, p) && p[0] == u && p[|p| - 1] == v
  }

  /** The start vertex and every endpoint of an edge of `t`. */
  ghost function TreeVertices(start: Vertex, t: set<Edge>): set<Vertex> {
    {start} + (set e | e in t :: e.src) + (set e | e in t :: e.dst)
  }

  /** The growth reaches each of its vertices from the start along its own edges. */
  lemma {:induction false} TreeWalk(g: Graph, start: Vertex, order: seq<Edge>, conn: seq<Vertex>, k: int)
    returns (p: seq<Vertex>)
    requires Growth(g, start, order, conn) && 0 <= k < |conn|
    ensures IsUndirectedWalk(Elements(order), p) && p[0] == start && p[|p| - 1] == conn[k]
    decreases k
  {
    var t := Elements(order);
    if k == 0 {
      p := [start];
    } else {
      assert JoinsAt(g, order, conn, k - 1);
      var e := order[k - 1];
      var u := if e.src in conn[..k] && e.dst == conn[k] then e.src else e.dst;
      assert u in conn[..k];
      var j :| 0 <= j < k && conn[j] == u;
      var q := TreeWalk(g, start, order, conn, j);
      p := q + [conn[k]];
      forall i | 0 <= i < |p| - 1
        ensures JoinedAt(t, p, i)
      {
        if i < |q| - 1 {
          assert JoinedAt(t, q, i);
          assert p[i] == q[i] && p[i + 1] == q[i + 1];
        } else {
          assert p[i] == u && p[i + 1] == conn[k];
          assert e in t;
        }
      }
    }
  }

  /** The edges of a growth are pairwise different and their endpoints are
      exactly its vertices. */
  lemma GrowthEdges(g: Graph, start: Vertex, order: seq<Edge>, conn: seq<Vertex>)
    requires Growth(g, start, order, conn)
    ensures Distinct(order)
    ensures TreeVertices(start, Elements(order)) == Elements(conn)
  {
    forall i, j | 0 <= i < j < |order|
      ensures order[i] != order[j]
    {
      assert JoinsAt(g, order, conn, i);
      assert JoinsAt(g, order, conn, j);
      assert order[i].src in conn[..j + 1] && order[i].dst in conn[..j + 1] by {
        assert conn[..i + 2] <= conn[..j + 1];
        assert conn[..i + 1] <= conn[..j + 1];
      }
      assert conn[j + 1] !in conn[..j + 1];
    }
    var t := Elements(order);
    forall v | v in TreeVertices(start, t)
      ensures v in Elements(conn)
    {
      if v != start {
        var e :| e in t && (e.src == v || e.dst == v);
        var i :| 0 <= i < |order| && order[i] == e;
        assert JoinsAt(g, order, conn, i);
        assert conn[..i + 1] <= conn;
      }
    }
    forall k | 0 <= k < |conn|
      ensures conn[k] in TreeVertices(start, t)
    {
      if k > 0 {
        assert JoinsAt(g, order, conn, k - 1);
        assert order[k - 1] in t;
      }
    }
  }

  /** The edges of a growth from the first vertex form a tree through it:
      every vertex they touch is joined to the first one by them, and there
      is one edge fewer than vertices, so no cycle. There are at most |V| - 1
      edges, and they stay within the first vertex's component of the graph. */
  lemma GrowthIsTree(g: Graph, order: seq<Edge>, conn: seq<Vertex>)
    requires Distinct(g.vertices) && g.vertices != [] && Growth(g, g.vertices[0], order, conn)
    ensures forall v :: v in TreeVertices(g.vertices[0], Elements(order)) ==> Connects(Elements(order), g.vertices[0], v)
    ensures |Elements(order)| + 1 == |TreeVertices(g.vertices[0], Elements(order))|
    ensures |Elements(order)| <= |g.vertices| - 1
    ensures Elements(order) <= g.edges
    ensures forall v :: v in TreeVertices(g.vertices[0], Elements(order)) ==> Connects(g.edges, g.vertices[0], v)
  {
    var start, t := g.vertices[0], Elements(order);
    GrowthEdges(g, start, order, conn);
    DistinctCard(order);
    DistinctCard(conn);
    forall e | e in t
      ensures e in g.edges
    {
      var i :| 0 <= i < |order| && order[i] == e;
      assert JoinsAt(g, order, conn, i);
    }
    forall v | v in TreeVertices(start, t)
      ensures Connects(t, start, v) && Connects(g.edges, start, v)
    {
      var k :| 0 <= k < |conn| && conn[k] == v;
      var p := TreeWalk(g, start, order, conn, k);
      WalkWithin(t, g.edges, p);
    }
    GrowthBound(g, start, order, conn);
    DistinctCard(g.vertices);
  }

  /** What `getMinimumSpanningTreeEdges` returns on a non-empty graph is a
      tree through the first vertex, within its component. */
  lemma PrimTreeIsTree(g: Graph, t: set<Edge>)
    requires Distinct(g.vertices) && g.vertices != [] && PrimTree(g, t)
    ensures forall v :: v in TreeVertices(g.vertices[0], t) ==> Connects(t, g.vertices[0], v)
    ensures |t| + 1 == |TreeVertices(g.vertices[0], t)|
    ensures |t| <= |g.vertices| - 1
    ensures t <= g.edges
    ensures forall v :: v in TreeVertices(g.vertices[0], t) ==> Connects(g.edges, g.vertices[0], v)
  {
    var order, conn :| PrimRun(g, g.vertices[0], order, conn) && t == Elements(order);
    GrowthIsTree(g, order, conn);
  }

  /** The triangle A-B 1, B-C 2, A-C 3, whichever vertex is listed first:
      from A or B the second round rejects a copy of A-B and clears the list
      of vertices still to connect, yet still accepts B-C; from C it takes
      B-C and then A-B. Either way the tree has two edges. */
  lemma TriangleTree(g: Graph, t: set<Edge>)
    requires Elements(g.vertices) == {Vertex("A"), Vertex("B"), Vertex("C")}
    requires g.edges == {Edge(Vertex("A"), Vertex("B"), 1), Edge(Vertex("B"), Vertex("C"), 2), Edge(Vertex("A"), Vertex("C"), 3)}
    requires PrimTree(g, t)
    ensures |t| == 2
  {
    var a, b, c := Vertex("A"), Vertex("B"), Vertex("C");
    assert g.vertices != [] by {
      assert a in Elements(g.vertices);
    }
    var start := g.vertices[0];
    var order, conn :| PrimRun(g, start, order, conn) && t == Elements(order);
    GrowthEdges(g, start, order, conn);
    DistinctCard(order);
    GrowthBound(g, start, order, conn);
    assert |{a, b, c}| == 3;
    assert start in Elements(g.vertices);
    TriangleStops(g, conn);
  }

  /** On the triangle, the loop cannot stop before all three vertices are
      connected, whichever vertex it starts from. */
  lemma TriangleStops(g: Graph, conn: seq<Vertex>)
    requires Elements(g.vertices) == {Vertex("A"), Vertex("B"), Vertex("C")}
    requires g.edges == {Edge(Vertex("A"), Vertex("B"), 1), Edge(Vertex("B"), Vertex("C"), 2), Edge(Vertex("A"), Vertex("C"), 3)}
    requires conn != [] && conn[0] in g.vertices && Halted(g, conn)
    ensures |conn| >= 3
  {
    var a, b, c := Vertex("A"), Vertex("B"), Vertex("C");
    assert a in g.vertices && b in g.vertices && c in g.vertices by {
      assert a in Elements(g.vertices) && b in Elements(g.vertices) && c in Elements(g.vertices);
    }
    assert conn[0] in Elements(g.vertices);
    if forall v :: v in g.vertices ==> v in conn {
      ThreeIn(conn, a, b, c);
    } else if forall f :: f in g.edges ==> !Crosses(f, conn) {
      assert !Crosses(Edge(a, b, 1), conn);
      assert !Crosses(Edge(b, c, 2), conn);
      assert !Crosses(Edge(a, c, 3), conn);
      ThreeIn(conn, a, b, c);
    } else {
      RejectsLong(g, conn);
    }
  }

  /** The path A-B 1, B-C 2, C-D 3 listed with A first: the second round
      polls A-B again, rejects it, clears the list of vertices still to
      connect and accepts B-C, so the loop stops at two edges and D is never
      connected. A correct Prim would take all three edges. */
  lemma PathTree(g: Graph, t: set<Edge>)
    requires Elements(g.vertices) == {Vertex("A"), Vertex("B"), Vertex("C"), Vertex("D")}
    requires g.vertices != [] && g.vertices[0] == Vertex("A")
    requires g.edges == {Edge(Vertex("A"), Vertex("B"), 1), Edge(Vertex("B"), Vertex("C"), 2), Edge(Vertex("C"), Vertex("D"), 3)}
    requires PrimTree(g, t)
    ensures |t| == 2
  {
    var a, b, c := Vertex("A"), Vertex("B"), Vertex("C");
    var order, conn :| PrimRun(g, a, order, conn) && t == Elements(order);
    GrowthEdges(g, a, order, conn);
    DistinctCard(order);
    PathStops(g, conn);
    if |order| >= 2 {
      assert JoinsAt(g, order, conn, 0);
      assert conn[..1] == [a];
      assert order[0] == Edge(a, b, 1) && conn[1] == b;
      assert JoinsAt(g, order, conn, 1);
      assert conn[..2] == [a, b];
      assert order[1] == Edge(b, c, 2);
      assert Touches(Edge(a, b, 1), conn[..2]);
      assert !CleanAt(g, order, conn, 1);
    }
  }

  /** On the path, the loop started at A cannot stop before it has
      connected three vertices. */
  lemma PathStops(g: Graph, conn: seq<Vertex>)
    requires Elements(g.vertices) == {Vertex("A"), Vertex("B"), Vertex("C"), Vertex("D")}
    requires g.edges == {Edge(Vertex("A"), Vertex("B"), 1), Edge(Vertex("B"), Vertex("C"), 2), Edge(Vertex("C"), Vertex("D"), 3)}
    requires conn != [] && conn[0] == Vertex("A") && Halted(g, conn)
    ensures |conn| >= 3
  {
    var a, b, c := Vertex("A"), Vertex("B"), Vertex("C");
    assert b in g.vertices && c in g.vertices by {
      assert b in Elements(g.vertices) && c in Elements(g.vertices);
    }
    if forall v :: v in g.vertices ==> v in conn {
      ThreeIn(conn, a, b, c);
    } else if forall f :: f in g.edges ==> !Crosses(f, conn) {
      assert !Crosses(Edge(a, b, 1), conn);
      assert !Crosses(Edge(b, c, 2), conn);
      ThreeIn(conn, a, b, c);
    } else {
      RejectsLong(g, conn);
    }
  }

  /** Without self-loops, a round can reject only once two vertices are
      connected. */
  lemma RejectsLong(g: Graph, conn: seq<Vertex>)
    requires forall f :: f in g.edges ==> f.src != f.dst
    requires |conn| >= 2 && RejectsAt(g, conn[..|conn| - 1])
    ensures |conn| >= 3
  {
    var inside := conn[..|conn| - 1];
    var f :| f in g.edges && BothIn(f, inside) &&
      forall h :: h in g.edges && Touches(h, inside) ==> f.weight <= h.weight;
    var i :| 0 <= i < |inside| && inside[i] == f.src;
    var j :| 0 <= j < |inside| && inside[j] == f.dst;
    assert i != j;
  }

  /** A growth has no more vertices than the graph. */
  lemma GrowthBound(g: Graph, start: Vertex, order: seq<Edge>, conn: seq<Vertex>)
    requires Growth(g, start, order, conn)
    ensures |conn| <= |Elements(g.vertices)|
  {
    DistinctCard(conn);
    assert Elements(conn) <= Elements(g.vertices);
    SubsetCard(Elements(conn), Elements(g.vertices));
  }

  /** A sequence holding three different values has at least three elements. */
  lemma ThreeIn(s: seq<Vertex>, a: Vertex, b: Vertex, c: Vertex)
    requires a in s && b in s && c in s && a != b && b != c && a != c
    ensures |s| >= 3
  {
    var i :| 0 <= i < |s| && s[i] == a;
    var j :| 0 <= j < |s| && s[j] == b;
    var k :| 0 <= k < |s| && s[k] == c;
    assert i != j && j != k && i != k;
  }

  /** A walk through some edges is a walk through any superset of them. */
  lemma WalkWithin(t: set<Edge>, t': set<Edge>, p: seq<Vertex>)
    requires t <= t' && IsUndirectedWalk(t, p)
    ensures IsUndirectedWalk(t', p)
  {
    forall i | 0 <= i < |p| - 1
      ensures JoinedAt(t', p, i)
    {
      assert JoinedAt(t, p, i);
    }
  }

  /** Every edge joins listed vertices. */
  ghost predicate EndsListed(g: Graph) {
    forall e :: e in g.edges ==> e.src in g.vertices && e.dst in g.vertices
  }

  /** A valid graph meets what `MinimumSpanningTreeEdges` asks of it. */
  lemma ValidEndsListed(g: Graph)
    requires Valid(g)
    ensures Distinct(g.vertices) && EndsListed(g)
  {
    forall e | e in g.edges
      ensures e.src in g.vertices && e.dst in g.vertices
    {
      assert g.vertices[g.index[e.src]] == e.src && g.vertices[g.index[e.dst]] == e.dst;
    }
  }
}
