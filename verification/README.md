# MyGraph in Dafny

A model of the graph engine of a small airport-routing program: the class
`MyGraph`. The class stores a directed graph with non-negative integer edge
weights. It holds a duplicate-free vertex list, the edge set, a map from each
vertex to its list position, and a dense cost matrix that uses `-1` for "no
edge". Its operations are:

- the validating constructor;
- the `vertices()` and `edges()` views;
- `adjacentVertices` and `edgeCost`;
- `shortestPath`, Dijkstra's algorithm with its helper `minVertex`;
- `getMinimumSpanningTreeEdges`, Prim's algorithm over the undirected
  skeleton.

The project has five modules:

- `Wrappers` (`wrappers.dfy`): `Option` and `Result`.
- `Graphs` (`graph.dfy`):
  - the data model: `Vertex`, `Edge`, `Path`, `Error` and `Graph`, plus the
    class invariant `Valid`;
  - construction, the views, and the two queries.
- `Paths` (`paths.dfy`): directed walks, their cost, and reachability. These
  are the terms the shortest-path contract is stated in.
- `ShortestPaths` (`dijkstra.dfy`): `shortestPath` and `minVertex`.
- `SpanningTrees` (`prim.dfy`): `getMinimumSpanningTreeEdges`.

Every exception of the source becomes an `Err` of a `Result`. `null` becomes
`None`.

Iteration over a `HashSet` or `HashMap` happens in an order the program does
not control. The model makes each such choice arbitrary (`:|`) and states
only what holds for every order. This covers:

- the vertex order after deduplication;
- the order in which the matrix is filled;
- the tie-breaking in `minVertex`;
- the arbitrary pick when every unchecked cost is infinite;
- the order among equal weights in the priority queue.

In `shortestPath`, the cost `Integer.MAX_VALUE` ("not reached yet") is
`None`. All other costs are unbounded naturals. Relaxing from an unreached
vertex therefore changes nothing.

The spanning-tree method is modelled as the code is written. In the do-while
loop, `notConnectedPrev` is a second name for the same list as `notConnected`,
so the equality test after a rejected candidate always succeeds. It clears the
list of vertices still to connect. The round may still accept one later
candidate, and then the outer loop stops. The result is therefore a tree of
lightest crossing edges grown from the first vertex, but it need not span the
graph. Every round but the last takes the first edge it polls, one no heavier
than any edge touching the connected set. The loop stops once every vertex is
connected, once no edge leaves the tree, or right after a round that rejected
a candidate. In particular an edge between the first vertex and another one is
always taken. On the triangle A-B 1, B-C 2, A-C 3 the result has two edges,
whichever vertex is listed first. On the path A-B 1, B-C 2, C-D 3 listed from A
it has only A-B and B-C, where Prim's algorithm would take all three edges.
Polling the empty queue at the start of a round, where the program
dereferences `null`, is the error `EmptyQueue`. It happens exactly when there
are at least two vertices and the first one has no incident edge.

## Model

| member | source | states |
|---|---|---|
| Graphs.FirstBadEdge | src/MyGraph.java:55-63 | no error exactly when every input edge names two listed vertices and has a non-negative weight; otherwise the error of the first bad edge in input order, where an unknown endpoint is reported before a negative weight |
| Graphs.Deduplicate | src/MyGraph.java:46-48 | the vertex list holds every input vertex exactly once and nothing else |
| Graphs.IndexMap | src/MyGraph.java:50-53 | each listed vertex maps to its own position and only listed vertices are keys |
| Graphs.EmptyMatrix | src/MyGraph.java:65-71 | an n-by-n matrix with every cell `-1` |
| Graphs.FillMatrix | src/MyGraph.java:73-81 | fails exactly when two distinct edges share an ordered pair of vertices; otherwise each cell holds the weight of the edge on its pair and `-1` where there is none |
| Graphs.ValidHasNoConflict | src/MyGraph.java:74-79 | a matrix in step with the edge set rules out two edges on one ordered pair |
| Graphs.Build | src/MyGraph.java:29-82 | an edge check failure is reported first; after that, failure happens exactly on two distinct edges with the same source and destination; a built graph is valid, lists each input vertex once, and holds the input edges with value-equal duplicates merged |
| Graphs.Vertices | src/MyGraph.java:89-98 | every vertex of the graph, each once |
| Graphs.Edges | src/MyGraph.java:104-113 | exactly the edges whose weight the matrix records at their endpoints |
| Graphs.EdgeCost | src/MyGraph.java:147-156 | fails exactly when an endpoint is unknown; otherwise `-1` or a non-negative weight w, with w the result exactly when the edge a -> b of weight w is in the graph |
| Graphs.AdjacentVertices | src/MyGraph.java:123-136 | fails exactly for an unknown vertex; otherwise lists, in increasing position and without repeats, exactly the vertices w with an edge v -> w, that is those with `edgeCost(v, w) != -1` |
| Paths.LinkedIsEdge | src/MyGraph.java:65-81 | a non-`-1` matrix cell for (u, v) is the same as an edge u -> v in the edge set, and the cell holds that edge's weight |
| Paths.PathCostCons | src/MyGraph.java:218-231 | putting a predecessor in front of a walk adds the weight of the new first edge to the walk's cost |
| ShortestPaths.MinVertex | src/MyGraph.java:239-248 | when some unchecked vertex has a finite cost, an unchecked vertex of least cost; when none does, the vertex passed in |
| ShortestPaths.Seed | src/MyGraph.java:185-195 | the source's neighbours cost the direct edge weight and have the source as predecessor; every other vertex is unreached and its own predecessor |
| ShortestPaths.Seeded | src/MyGraph.java:184-195 | with the source settled, the loop invariant holds: settled vertices carry distances, their edges are relaxed, and predecessors are in order |
| ShortestPaths.Relax | src/MyGraph.java:207-214 | only unchecked vertices other than `from` change; one that changes takes the strictly cheaper route through `from`; afterwards no edge out of a reached `from` can improve an unchecked vertex |
| ShortestPaths.ReachBound | src/MyGraph.java:197-204 | any path from the source into the unchecked set costs at least the least tentative cost there |
| ShortestPaths.MinIsFinal | src/MyGraph.java:197-204 | the unchecked vertex the loop settles carries its distance, and one left at infinity is unreachable |
| ShortestPaths.FrontierStep | src/MyGraph.java:206-215 | after settling `from`, every edge out of a settled vertex into an unchecked one has been relaxed |
| ShortestPaths.SettledStep | src/MyGraph.java:206-215 | settling a vertex that carries its distance keeps every settled vertex at its distance |
| ShortestPaths.PredStep | src/MyGraph.java:206-215 | after relaxing, each reached vertex's predecessor is settled earlier, is joined to it by an edge, and has the vertex's cost minus that edge's weight |
| ShortestPaths.SettleStep | src/MyGraph.java:196-216 | one iteration of the main loop keeps the loop invariant |
| ShortestPaths.SettleNext | src/MyGraph.java:197-215 | one iteration settles an unchecked vertex, one of least tentative cost whenever some cost is finite, and keeps the loop invariant with that vertex settled |
| ShortestPaths.SettleAll | src/MyGraph.java:196-216 | the main loop ends with one unchecked vertex and the loop invariant intact |
| ShortestPaths.LastSettled | src/MyGraph.java:196-216 | when the loop stops, every vertex, the last unchecked one included, carries its distance |
| ShortestPaths.Reconstruct | src/MyGraph.java:218-233 | following predecessors back from b either reaches the source, giving a directed path from a to b whose reported cost is the sum of its edge weights and no more than any other such path's, or stops at a vertex that is its own predecessor, and then no path reaches b |
| ShortestPaths.ShortestPath | src/MyGraph.java:169-234 | fails exactly when an endpoint is unknown; `[a]` at cost 0 when a equals b; otherwise no path exactly when b is unreachable from a, else a directed path from a to b whose cost is the sum of its edge weights and no more than the cost of any directed path from a to b |
| SpanningTrees.Incidence | src/MyGraph.java:305-310 | how often an edge is offered is positive exactly when it touches the connected set, and at most the size of that set |
| SpanningTrees.OfferEdge | src/MyGraph.java:306-310 | an edge is added to the queue once for every connected vertex it touches; no other edge changes |
| SpanningTrees.Offers | src/MyGraph.java:303-311 | the queue holds exactly the graph edges that touch the connected set, each once per connected endpoint |
| SpanningTrees.Poll | src/MyGraph.java:317 | `null` exactly on an empty queue; otherwise a lightest element, removed once |
| SpanningTrees.PickEdge | src/MyGraph.java:314-338 | fails exactly on an empty queue; an accepted edge has an endpoint outside the connected set and is lightest among such candidates; with no rejection it is lightest of all; with none accepted, every candidate had both endpoints connected; after a rejection, some lightest candidate had both endpoints connected |
| SpanningTrees.Outer | src/MyGraph.java:326-332 | for an edge crossing the cut, the endpoint that is not yet connected |
| SpanningTrees.Remove | src/MyGraph.java:326-332 | one element fewer exactly when the element is present; on a list without repeats, every other element stays, still without repeats |
| SpanningTrees.RemoveCount | src/MyGraph.java:326-332 | removal takes exactly one copy of the element out of the list |
| SpanningTrees.GrowthExtend | src/MyGraph.java:321-332 | accepting a lightest crossing edge and connecting its outer endpoint keeps the tree-growth invariant |
| SpanningTrees.CleanExtend | src/MyGraph.java:314-333 | extending a growth keeps its rounds that took the first edge polled, and adds one when the new edge is no heavier than any edge touching the tree |
| SpanningTrees.OfferedCut | src/MyGraph.java:303-322 | with the queue holding exactly the edges that touch the connected set: if every candidate has both endpoints connected, no edge crosses the cut; if a lightest candidate does, the round rejects one |
| SpanningTrees.OfferedClean | src/MyGraph.java:303-317 | an edge no heavier than anything in the queue is no heavier than any graph edge touching the connected set |
| SpanningTrees.RoundStops | src/MyGraph.java:314-340 | a round that accepts nothing, that rejected a candidate, or that connected the last vertex left, leaves the connected set at a point where the loop may stop |
| SpanningTrees.Advance | src/MyGraph.java:322-337 | a rejection clears the list of vertices still to connect; an accepted lightest crossing edge joins its outer endpoint to the tree, keeping the growth invariant; the list shrinks, and becomes empty only after a rejection or when the last vertex is connected |
| SpanningTrees.Round | src/MyGraph.java:302-339 | one round fails exactly when there are two or more vertices and the first has no edge; otherwise it keeps the growth invariant, shrinks the list of vertices still to connect, and adds exactly the edge it accepted, moving that edge's outer endpoint over; it accepts nothing only when no edge crosses the cut; a round that leaves the list non-empty took an edge no heavier than any edge touching the connected set; when the list is emptied, the loop may stop |
| SpanningTrees.Grow | src/MyGraph.java:295-340 | the outer loop from the first vertex fails exactly when there are two or more vertices and the first has no edge; otherwise its accepted edges, in order, are a run as written: a growth whose rounds before the last took the first edge polled, stopped where the loop may stop |
| SpanningTrees.MinimumSpanningTreeEdges | src/MyGraph.java:254-343 | fails exactly when there are two or more vertices and the first has no edge; otherwise returns graph edges in their own orientation and weight, which grow a tree from the first vertex; each edge joins a new vertex across a lightest crossing edge, and every one but the last is no heavier than any edge touching the tree before it; the growth goes on until every vertex is connected, no edge leaves the tree, or the last round rejected a candidate; the result is not empty when an edge joins the first vertex to another |
| SpanningTrees.PrimTreeNonEmpty | src/MyGraph.java:302-333 | a graph with an edge between the first vertex and another vertex gets a non-empty tree |
| SpanningTrees.ClosedWalk | src/MyGraph.java:302-340 | when no edge crosses the cut around the connected set, no undirected walk leaves it |
| SpanningTrees.HaltedSpans | src/MyGraph.java:302-340 | unless the round that connected the last vertex rejected a candidate first, the connected set holds every vertex the graph joins to the first one |
| SpanningTrees.TriangleTree | src/MyGraph.java:298-340 | on the triangle A-B 1, B-C 2, A-C 3 the result has exactly two edges, whichever vertex is listed first |
| SpanningTrees.PathTree | src/MyGraph.java:315-337 | on the path A-B 1, B-C 2, C-D 3 listed from A, the result has exactly two edges: the rejection of A-B in the second round clears the list and ends the loop before D is connected |
| SpanningTrees.TreeWalk | src/MyGraph.java:321-332 | each connected vertex is joined to the start by an undirected walk over the accepted edges |
| SpanningTrees.GrowthEdges | src/MyGraph.java:321-332 | the accepted edges are pairwise distinct and their endpoints are exactly the connected vertices |
| SpanningTrees.GrowthIsTree | src/MyGraph.java:286-338 | the edges accepted from the first vertex on form a tree through it: connected, with one edge fewer than its vertices and so without a cycle; at most one edge fewer than the graph has vertices, all graph edges, within the first vertex's component |
| SpanningTrees.PrimTreeIsTree | src/MyGraph.java:286-338 | the result is a tree through the first vertex: connected, with one edge fewer than its vertices and so without a cycle; it has at most one edge fewer than the graph has vertices, and it lies within the first vertex's component |
| SpanningTrees.ValidEndsListed | src/MyGraph.java:55-63 | in a constructed graph every edge joins listed vertices, which is what the rounds of the spanning-tree method rely on |

## Left out

- `AirportGraph.java`, `CSVtoGraph.java` and `GraphReader.java` are not part of this model. They are console interaction and file reading, and their only numeric step is a floating-point truncation.
- `toString` is not modelled: it only formats output.
- The defensive copies made by the constructor, `vertices()` and `edges()` are not modelled. Dafny values cannot be aliased, so the views return the stored list and set.
- `edges()` returns an `ArrayList` in hash order; the model returns the set.
- Graphs.Build: all failures of the source are one `IllegalArgumentException`. The model names the failed check: `InvalidReference`, `NegativeWeight` or `DuplicateDirectedEdge`.
- Graphs.EdgeCost and Graphs.AdjacentVertices: the source's `x.equals(null)` tests are not modelled, because a Dafny value is never null. An unknown vertex gives `UnknownVertex`.
- ShortestPaths.ShortestPath: Java `int` arithmetic is not modelled. In the source, relaxing from a vertex still at `Integer.MAX_VALUE` wraps around to a negative cost, which can change the costs and predecessors of vertices the source cannot reach. The model uses unbounded costs and `None` for infinity. A reachable cost near `Integer.MAX_VALUE` is not modelled either.
- ShortestPaths.SettleNext: the source calls `minVertex` twice per iteration on the same state; the model calls it once and uses that answer both times.
- ShortestPaths.Reconstruct: the source appends each vertex and reverses the list at the end; the model puts each vertex in front, which gives the same list.
- SpanningTrees.MinimumSpanningTreeEdges: does not state that the result spans the graph or has least total weight, as the doc comment claims, because the code does not achieve either (see `PathTree`). The code as written can stop before the tree spans a connected graph, right after a round that rejected a candidate (see above). The contract states the tree and cut properties and the stopping conditions that do hold.
- SpanningTrees.Poll: does not state which of several equally light elements comes out, because `PriorityQueue` leaves ties to its internal order. The `UnorientedEdge` comparison `weight - other.weight` is modelled as a comparison of weights. Its overflow needs weights more than `Integer.MAX_VALUE` apart, which cannot happen with non-negative `int`s.
