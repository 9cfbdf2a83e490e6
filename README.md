# Weighted directed graph storage, modelled in Dafny

This project models the storage layer of a small Java library for weighted directed
graphs (package `com.foley.graph.core`). A graph holds vertices of a type `V`. It also holds
directed edges from a source vertex to a destination vertex, each with a cost of a type `E`.
The model covers five pieces:

- the `Graph` interface: module `Contract`, in `contract.dfy`;
- the vertex bookkeeping shared by both backends, `AbstractGraph`: module `VertexStore`;
- the edge value `BasicEdge`: module `Edges`;
- the two backends:
  - `BasicGraph`, a multigraph over a `HashSet` of edge objects: module `EdgeSetGraph`;
  - `BasicHashGraph`, a simple graph over a map from vertex to a map from destination to
    cost: module `AdjacencyMapGraph`.

`Contract` states the interface once, over an abstract value `Graph(vertices, edges)`.
The edges are a set of `(source, destination, cost)` triples. `Contract` has one query
definition per interface query and one `*Spec` predicate per mutating operation. Each backend
class has the stored fields of the Java class and a ghost `Model()` of that type. The
`*Conforms` lemmas prove that the state change each method makes meets the interface's spec
predicate, and that the backend's invariant holds afterwards. Each query method or function
states its answer in terms of `Model()` directly.

Inheritance becomes composition. Each backend holds its vertex store as `const base:
AbstractGraph<V>`. The Java subclasses mutate the vertex set through the live view returned
by `getVertices()`. Here the backend writes `base.vertices` directly.

`BasicEdge` overrides `hashCode` but not `equals`, so Java compares edges by identity. The
model makes `BasicEdge` a class with constant fields, so Dafny compares edges by reference,
exactly as a `HashSet` of them does. This decides how `BasicGraph` behaves:

- `addEdge` always inserts a new object and answers true, so parallel edges accumulate, even
  edges with equal costs.
- The keys that `removeEdge` and `removeVertex` build are new objects, so they never match a
  stored edge.
  - `removeEdge` removes nothing and always answers false, even when the edge
    `(v1, v2, cost)` it names is stored. This contradicts the interface's documentation.
    See "## Findings".
  - `removeVertex` drops the vertex but leaves its edges in the store. The queries check
    vertex membership, so while the vertex stays absent those edges are invisible to
    `areAdjacent`, `getEdgeCost` and `getAdjacent`. `getEdges` and `getAllEdges` still report
    them. Once the vertex is added again, its old edges are visible again.
  - This contradicts the method's own documentation, which says that removing a vertex removes
    all edges associated with it. See "## Findings".

`BasicHashGraph.removeEdge` does not look at its `cost` argument. It removes the pair's edge
whatever cost that edge carries, and then answers true. This too contradicts the documentation,
which names the edge with weight `cost`. See "## Findings".

Java `null` becomes `Option.None` where the code can meet it:

- a `BasicEdge` cost, because `removeVertex` builds keys with the null cost that
  `getEdgeCost` returns;
- the result of `getEdgeCost`, and of `BasicHashGraph.getAdjacent`;
- the arguments of `buildEdge`.

Everywhere else the types are non-null, so the `null` argument checks cannot fire. The thrown
`IllegalArgumentException` of `addEdge` for an absent vertex is `Failure(VertexNotInGraph)`.

The `HashSet` and `HashMap` loops visit elements in an order the model does not fix. Each loop
picks its next element with `:|`, so every proved property holds for all iteration orders.

## Model

| member | source | states |
|---|---|---|
| Contract.HasVertex | src/com/foley/graph/core/Graph.java:17-23 | contains / containsVertex: membership in the vertex set |
| Contract.IsEmpty | src/com/foley/graph/core/Graph.java:25-30 | isEmpty: the graph has no vertices |
| Contract.Size | src/com/foley/graph/core/Graph.java:32-37 | size: the number of vertices |
| Contract.Adjacent | src/com/foley/graph/core/Graph.java:92-99 | areAdjacent: both vertices are in the graph and an edge runs from v1 to v2 |
| Contract.AdjacentTo | src/com/foley/graph/core/Graph.java:101-107 | getAdjacent: the vertices one edge away from v |
| Contract.OutEdges | src/com/foley/graph/core/Graph.java:116-122 | getEdges: the edges whose source is v |
| Contract.IsCostOf | src/com/foley/graph/core/Graph.java:83-90 | getEdgeCost: null when the pair is not adjacent, otherwise the cost of an edge from v1 to v2 |
| Contract.ClearSpec | src/com/foley/graph/core/Graph.java:12-15 | clear: no vertices and no edges remain |
| Contract.AddVertexSpec | src/com/foley/graph/core/Graph.java:39-45 | addVertex: the vertex set grows by v, edges stay, and the answer is true iff v was new |
| Contract.AddEdgeSpec | src/com/foley/graph/core/Graph.java:47-55 | addEdge: an error unless both vertices are present, with nothing changed; otherwise the vertices stay, the triple is an edge, no edge between another pair is lost, and no other edge appears; the answer is true whenever the triple is new, and false only when nothing changed |
| Contract.RemoveVertexSpec | src/com/foley/graph/core/Graph.java:65-71 | removeVertex: true iff v was present; v leaves, no edge appears, every edge not touching v stays, and nothing changes for an absent v |
| Contract.RemoveEdgeSpec | src/com/foley/graph/core/Graph.java:73-81 | removeEdge(v1, v2, cost): the vertices stay, the edge (v1, v2, cost) is the only one that may go and is gone if it was there, and the answer is true exactly when an edge went |
| Contract.EmptyIffSizeZero | src/com/foley/graph/core/Graph.java:25-37 | isEmpty holds exactly when size is 0 |
| Contract.ClearedGraph | src/com/foley/graph/core/Graph.java:12-15 | after clear there is no vertex, size is 0, and no vertex has an out-edge or a neighbour |
| Contract.AddVertexTwice | src/com/foley/graph/core/Graph.java:39-45 | adding the same vertex twice: the first call reports whether it was new, the second reports false and changes nothing, and the vertex is present after both |
| Contract.AddedEdgeAdjacent | src/com/foley/graph/core/Graph.java:47-55 | after a successful addEdge(v1, v2, cost), v1 and v2 are adjacent, v2 is among v1's neighbours and the triple is among v1's out-edges |
| Contract.SimpleAddEdgeCost | src/com/foley/graph/core/Graph.java:83-90 | in a simple graph, getEdgeCost(v1, v2) after a successful addEdge(v1, v2, cost) is exactly cost |
| Contract.RemovedVertexIsolated | src/com/foley/graph/core/Graph.java:65-71 | after removeVertex(v), v is absent and adjacent to nothing in either direction |
| Contract.CostAbsentIffNotAdjacent | src/com/foley/graph/core/Graph.java:83-99 | getEdgeCost is null exactly when the pair is not adjacent; a present cost belongs to one of v1's out-edges to v2 |
| VertexStore.AbstractGraph.constructor | src/com/foley/graph/core/AbstractGraph.java:19-21 | a new store has no vertices |
| VertexStore.AbstractGraph.ContainsVertex | src/com/foley/graph/core/AbstractGraph.java:93-95 | true exactly for members of the vertex set |
| VertexStore.AbstractGraph.Contains | src/com/foley/graph/core/AbstractGraph.java:38-40 | agrees with containsVertex on every vertex |
| VertexStore.AbstractGraph.Size | src/com/foley/graph/core/AbstractGraph.java:58-60 | the number of vertices |
| VertexStore.AbstractGraph.IsEmpty | src/com/foley/graph/core/AbstractGraph.java:48-50 | true exactly when size is 0; false exactly when some vertex is contained |
| VertexStore.AbstractGraph.GetVertices | src/com/foley/graph/core/AbstractGraph.java:160-162 | exactly the stored vertex set |
| VertexStore.AbstractGraph.AddVertex | src/com/foley/graph/core/AbstractGraph.java:69-71 | true iff the vertex was absent; the vertex set becomes the old one plus v |
| VertexStore.AddVertexTwice | src/com/foley/graph/core/AbstractGraph.java:58-71 | on the store itself: the second add of a vertex answers false and leaves the size where the first add put it (one more than before iff the first answered true) |
| Edges.BasicEdge.constructor | src/com/foley/graph/core/BasicEdge.java:23-27 | the fields hold exactly the three arguments |
| Edges.BasicEdge.GetSource | src/com/foley/graph/core/BasicEdge.java:34-36 | the source vertex the edge was built with; the field is constant |
| Edges.BasicEdge.GetDestination | src/com/foley/graph/core/BasicEdge.java:43-45 | the destination vertex the edge was built with; the field is constant |
| Edges.BasicEdge.GetCost | src/com/foley/graph/core/BasicEdge.java:52-54 | the cost the edge was built with, possibly null; the field is constant |
| Edges.ObjectsHash3 | src/com/foley/graph/core/BasicEdge.java:63 | Objects.hash of three element hashes: the 31-fold from 1 in int arithmetic, always in the Java int range |
| Edges.BasicEdge.HashCode | src/com/foley/graph/core/BasicEdge.java:62-64 | Objects.hash of the three fields lies in the Java int range |
| Edges.HashDependsOnTriple | src/com/foley/graph/core/BasicEdge.java:62-64 | two edges with equal (source, destination, cost) have equal hash codes |
| Edges.BuildEdge | src/com/foley/graph/core/BasicEdge.java:76-84 | a null source is rejected first, then a null destination; a null cost is accepted; otherwise a new edge whose getters return exactly the arguments |
| Edges.SameTripleDistinctEdges | src/com/foley/graph/core/BasicEdge.java:11-84 | two edges built from the same triple hash equal yet are distinct objects, so a set holds both |
| EdgeSetGraph.AddEdgeConforms | src/com/foley/graph/core/BasicGraph.java:42-51 | inserting a new edge object meets the interface's addEdge contract: failure iff a vertex is absent, with nothing changed; otherwise the answer is true, every stored edge stays and the store grows by one |
| EdgeSetGraph.RemoveVertexConforms | src/com/foley/graph/core/BasicGraph.java:60-70 | keeping the edge store while dropping v meets the interface's removeVertex contract, and v is adjacent to nothing afterwards |
| EdgeSetGraph.RemoveEdgeKeepsNamedEdge | src/com/foley/graph/core/BasicGraph.java:81-87 | leaving the store unchanged and answering false breaks the interface's removeEdge contract whenever (v1, v2, cost) is stored |
| EdgeSetGraph.WithoutTriple | src/com/foley/graph/core/BasicGraph.java:73-80 | the documented effect of removeEdge on the store: exactly the edges whose triple is not (v1, v2, cost) remain |
| EdgeSetGraph.RemoveEdgeMatchingConforms | src/com/foley/graph/core/BasicGraph.java:73-80 | the documented removeEdge removes exactly the triple (v1, v2, cost), changes the store iff that triple was stored, and meets the interface's removeEdge contract |
| EdgeSetGraph.WithoutVertex | src/com/foley/graph/core/BasicGraph.java:55 | the documented effect on the store of removing v: exactly the edges that neither start nor end at v remain |
| EdgeSetGraph.RemoveVertexAndEdgesConforms | src/com/foley/graph/core/BasicGraph.java:55 | the documented removeVertex keeps exactly the triples not touching v, leaves no stored edge mentioning v, and meets the interface's removeVertex contract |
| EdgeSetGraph.BasicGraph.constructor | src/com/foley/graph/core/BasicGraph.java:19-22 | a new graph is the empty graph with an empty edge store |
| EdgeSetGraph.BasicGraph.Clear | src/com/foley/graph/core/BasicGraph.java:28-31 | afterwards the vertex set and the edge store are empty |
| EdgeSetGraph.BasicGraph.AddEdge | src/com/foley/graph/core/BasicGraph.java:42-51 | failure iff a vertex is absent, with the store unchanged; otherwise true, and exactly one new edge from v1 to v2 with this cost joins the store |
| EdgeSetGraph.BasicGraph.RemoveVertex | src/com/foley/graph/core/BasicGraph.java:60-70 | true iff v was a vertex; v leaves the vertex set; the edge store is unchanged |
| EdgeSetGraph.BasicGraph.RemoveVertexAndEdges | src/com/foley/graph/core/BasicGraph.java:55-70 | removeVertex as documented: true iff v was a vertex; v leaves the vertex set, and every stored edge that touches v leaves the store |
| EdgeSetGraph.BasicGraph.RemoveEdge | src/com/foley/graph/core/BasicGraph.java:81-87 | always false, with the edge store unchanged |
| EdgeSetGraph.BasicGraph.RemoveEdgeMatching | src/com/foley/graph/core/BasicGraph.java:73-87 | removeEdge as documented: the store loses every edge from v1 to v2 with weight cost, and the answer is true iff it lost one |
| EdgeSetGraph.BasicGraph.GetEdgeCost | src/com/foley/graph/core/BasicGraph.java:97-106 | null when the pair is not adjacent; otherwise the cost of some stored edge from v1 to v2 |
| EdgeSetGraph.BasicGraph.AreAdjacent | src/com/foley/graph/core/BasicGraph.java:116-126 | true exactly when both vertices are present and a stored edge runs from v1 to v2 |
| EdgeSetGraph.BasicGraph.GetAdjacent | src/com/foley/graph/core/BasicGraph.java:134-142 | exactly the vertices u with areAdjacent(v, u) |
| EdgeSetGraph.BasicGraph.GetEdges | src/com/foley/graph/core/BasicGraph.java:151-162 | exactly the stored edges whose source is v, whether or not v is still a vertex |
| EdgeSetGraph.BasicGraph.GetAllEdges | src/com/foley/graph/core/BasicGraph.java:170-172 | the edge store, whose triples are the graph's edges |
| EdgeSetGraph.SmallGraphScenario | src/com/foley/graph/core/BasicGraph.java:42-142 | with vertices 1, 2, 3 and edges (1,2,10), (2,3,5): 1 and 2 are adjacent, 1 and 3 are not, the cost from 2 to 3 is 5, and 1's neighbours are {2} |
| EdgeSetGraph.EmptyGraphAddEdgeScenario | src/com/foley/graph/core/BasicGraph.java:46-48 | addEdge on an empty graph throws |
| EdgeSetGraph.ParallelEdgesScenario | src/com/foley/graph/core/BasicGraph.java:42-51 | adding an edge twice between the same pair answers true both times, and getEdges reports two distinct edges, one per cost |
| EdgeSetGraph.RemoveVertexScenario | src/com/foley/graph/core/BasicGraph.java:60-70 | after removeVertex(1) on a graph with edge (1,2,10), 1 and 2 are not adjacent, yet getAllEdges still holds that edge |
| EdgeSetGraph.ReAddVertexScenario | src/com/foley/graph/core/BasicGraph.java:55-70 | after removeVertex(1) and addVertex(1), the old edge (1,2,10) is back: 1 and 2 are adjacent with cost 10 |
| EdgeSetGraph.CorrectedReAddVertexScenario | src/com/foley/graph/core/BasicGraph.java:55 | with the documented removeVertex, the same steps leave 1 and 2 non-adjacent, and getEdges(1) and getAllEdges empty |
| EdgeSetGraph.RemoveEdgeScenario | src/com/foley/graph/core/BasicGraph.java:81-87 | after addEdge(1,2,10), removeEdge(1,2,10) answers false, 1 and 2 stay adjacent, and getAllEdges still holds (1,2,10) |
| EdgeSetGraph.CorrectedRemoveEdgeScenario | src/com/foley/graph/core/BasicGraph.java:73-80 | with the documented removeEdge, the same steps answer true, 1 and 2 are no longer adjacent, and the store is empty |
| AdjacencyMapGraph.KeysMatch | src/com/foley/graph/core/BasicHashGraph.java:39-45 | the class invariant: the outer keys are exactly the vertices, because addVertex registers an inner map exactly for a new vertex. No inner key is outside the vertex set |
| AdjacencyMapGraph.DropVertex | src/com/foley/graph/core/BasicHashGraph.java:80-89 | the nested map without key v and without v in any inner map, other costs unchanged |
| AdjacencyMapGraph.DropVertexKeepsKeys | src/com/foley/graph/core/BasicHashGraph.java:80-89 | dropping v from the map and the vertex set keeps the outer keys equal to the vertices with no dangling inner key |
| AdjacencyMapGraph.DropVertexTriples | src/com/foley/graph/core/BasicHashGraph.java:80-89 | dropping v removes exactly the edges that touch v |
| AdjacencyMapGraph.PutTriples | src/com/foley/graph/core/BasicHashGraph.java:65-70 | writing a cost for (v1, v2) replaces that pair's edge and touches no other |
| AdjacencyMapGraph.RemoveEntryTriples | src/com/foley/graph/core/BasicHashGraph.java:100-106 | removing the (v1, v2) entry removes that pair's edge and touches no other |
| AdjacencyMapGraph.AddEmptyTriples | src/com/foley/graph/core/BasicHashGraph.java:39-45 | registering an empty inner map adds no edge |
| AdjacencyMapGraph.MapTriplesSimple | src/com/foley/graph/core/BasicHashGraph.java:58-71 | a nested map holds at most one cost per ordered pair |
| AdjacencyMapGraph.PairTriples | src/com/foley/graph/core/BasicHashGraph.java:131-139 | an edge from v1 to v2 is stored exactly when v2 is an inner key of v1 |
| AdjacencyMapGraph.OutTriples | src/com/foley/graph/core/BasicHashGraph.java:161-173 | the edges from v are exactly v's inner entries |
| AdjacencyMapGraph.AddVertexConforms | src/com/foley/graph/core/BasicHashGraph.java:39-45 | addVertex keeps the map invariant and meets the interface's addVertex contract |
| AdjacencyMapGraph.AddEdgeConforms | src/com/foley/graph/core/BasicHashGraph.java:58-71 | addEdge keeps the map invariant and meets the interface's addEdge contract, answering false exactly when the pair already had this cost and then leaving the map unchanged; afterwards the pair's cost is the new one and every other pair's cost is unchanged |
| AdjacencyMapGraph.RemoveVertexConforms | src/com/foley/graph/core/BasicHashGraph.java:80-89 | removeVertex keeps the map invariant and meets the interface's removeVertex contract |
| AdjacencyMapGraph.RemoveEdgeAsWritten | src/com/foley/graph/core/BasicHashGraph.java:100-106 | removeEdge as written keeps the map invariant, answers true exactly when the pair was adjacent, and drops exactly that pair's edge whatever its cost; it meets the interface's removeEdge contract exactly when the pair has no edge or its edge has the named cost |
| AdjacencyMapGraph.RemoveEdgeMatchingConforms | src/com/foley/graph/core/BasicHashGraph.java:91-99 | the documented removeEdge keeps the map invariant, answers whether (v1, v2, cost) was stored, removes exactly that triple, and meets the interface's removeEdge contract |
| AdjacencyMapGraph.BasicHashGraph.constructor | src/com/foley/graph/core/BasicHashGraph.java:18-21 | a new graph is the empty graph with an empty map |
| AdjacencyMapGraph.BasicHashGraph.Clear | src/com/foley/graph/core/BasicHashGraph.java:27-30 | afterwards the vertex set and the map are empty |
| AdjacencyMapGraph.BasicHashGraph.AddVertex | src/com/foley/graph/core/BasicHashGraph.java:39-45 | true iff v was new, and only then does v get an empty inner map; an existing inner map is kept |
| AdjacencyMapGraph.BasicHashGraph.AddEdge | src/com/foley/graph/core/BasicHashGraph.java:58-71 | failure iff a vertex is absent, with the map unchanged; otherwise the cost is written for (v1, v2), and the answer is false exactly when that pair already had this cost |
| AdjacencyMapGraph.BasicHashGraph.RemoveVertex | src/com/foley/graph/core/BasicHashGraph.java:80-89 | true iff v was a vertex; afterwards v is neither a vertex, nor a key, nor an inner key, and other costs are unchanged |
| AdjacencyMapGraph.BasicHashGraph.RemoveEdge | src/com/foley/graph/core/BasicHashGraph.java:100-106 | true iff the pair was adjacent; afterwards it is not, and only that entry is gone |
| AdjacencyMapGraph.BasicHashGraph.RemoveEdgeMatching | src/com/foley/graph/core/BasicHashGraph.java:91-106 | removeEdge as documented: true iff the pair's stored cost is cost, and only then is that entry gone; otherwise the map is unchanged |
| AdjacencyMapGraph.BasicHashGraph.GetEdgeCost | src/com/foley/graph/core/BasicHashGraph.java:116-121 | null exactly when the pair is not adjacent; otherwise the pair's cost in the graph |
| AdjacencyMapGraph.BasicHashGraph.AreAdjacent | src/com/foley/graph/core/BasicHashGraph.java:131-139 | true exactly when both vertices are present and an edge runs from v1 to v2 |
| AdjacencyMapGraph.BasicHashGraph.GetAdjacent | src/com/foley/graph/core/BasicHashGraph.java:147-152 | null exactly for an absent vertex; otherwise exactly its neighbours |
| AdjacencyMapGraph.BasicHashGraph.GetEdges | src/com/foley/graph/core/BasicHashGraph.java:161-173 | exactly one new edge object per out-edge of v, with its stored cost: all edges start at v, no two share a destination, their triples are v's out-edges, and there are as many as there are out-edges; empty for an absent vertex |
| AdjacencyMapGraph.BasicHashGraph.GetAllEdges | src/com/foley/graph/core/BasicHashGraph.java:181-190 | the union of getEdges over all vertices: one edge object per stored entry, with no two between the same pair; their triples are exactly the graph's edges, all with a cost, and there are as many objects as edges |
| AdjacencyMapGraph.ModelIsSimple | src/com/foley/graph/core/BasicHashGraph.java:58-71 | a hash graph always holds at most one cost per ordered pair |
| AdjacencyMapGraph.SmallGraphScenario | src/com/foley/graph/core/BasicHashGraph.java:39-152 | with vertices 1, 2, 3 and edges (1,2,10), (2,3,5): 1 and 2 are adjacent, 1 and 3 are not, the cost from 2 to 3 is 5, and 1's neighbours are {2} |
| AdjacencyMapGraph.EmptyGraphAddEdgeScenario | src/com/foley/graph/core/BasicHashGraph.java:62-64 | addEdge on an empty graph throws |
| AdjacencyMapGraph.OverwriteScenario | src/com/foley/graph/core/BasicHashGraph.java:58-71 | adding (v1,v2,c1) and then (v1,v2,c2) with c1 != c2 answers true twice and leaves exactly the edge to v2 with cost c2 |
| AdjacencyMapGraph.RemoveVertexScenario | src/com/foley/graph/core/BasicHashGraph.java:80-89 | removing vertex 1 from a graph with edges (1,2,10) and (2,1,7) leaves 2 without neighbours and the graph without edges |
| AdjacencyMapGraph.RemoveEdgeIgnoresCostScenario | src/com/foley/graph/core/BasicHashGraph.java:100-106 | after addEdge(1,2,10), removeEdge(1,2,99) answers true and 1 and 2 are no longer adjacent |
| AdjacencyMapGraph.RemoveEdgeMatchingScenario | src/com/foley/graph/core/BasicHashGraph.java:91-99 | with the documented removeEdge, after addEdge(1,2,10), removing (1,2,99) answers false and the cost stays 10; removing (1,2,10) then answers true and 1 and 2 are no longer adjacent |

## Findings

| source | as written | input that shows it | evidently intended | confidence | as-written member | corrected member |
|---|---|---|---|---|---|---|
| src/com/foley/graph/core/BasicGraph.java:55-70 | `removeVertex` removes only the vertex. The keys `buildEdge(v, adj, cost)` are new objects, and `BasicEdge` compares by identity, so `edges.remove` never matches. `cost` is also already null, because `v` has left the vertex set when `getEdgeCost` is called. And the loop on lines 62-67 walks `getAdjacent(v)`, which holds only the destinations of `v`'s outgoing edges, so even a matching key would never be built for an incoming edge `(u, v, c)`. So every edge of `v` stays in the store, and it reappears once `v` is added again. | vertices {1, 2}, `addEdge(1, 2, 10)`, `removeVertex(1)`, `addVertex(1)`: `areAdjacent(1, 2)` is true and `getEdgeCost(1, 2)` is 10. `getAllEdges` still holds (1, 2, 10) right after the removal | the documentation on line 55: removing a vertex removes all edges associated with it, both outgoing and incoming | not executed; proved about the model | EdgeSetGraph.ReAddVertexScenario | EdgeSetGraph.BasicGraph.RemoveVertexAndEdges |
| src/com/foley/graph/core/BasicGraph.java:73-87 | `removeEdge` removes nothing and answers false. The key `buildEdge(v1, v2, cost)` on line 85 is a new object, and `BasicEdge` compares by identity, so `edges.remove` never matches. The answer on line 86 is the constant false. | vertices {1, 2}, `addEdge(1, 2, 10)`, `removeEdge(1, 2, 10)`: the answer is false, `areAdjacent(1, 2)` is still true, and `getAllEdges` still holds (1, 2, 10) | the documentation on lines 73-80 and in the interface: the edge from v1 to v2 with weight cost is removed, and the answer says whether it was | not executed; proved about the model | EdgeSetGraph.RemoveEdgeScenario | EdgeSetGraph.BasicGraph.RemoveEdgeMatching |
| src/com/foley/graph/core/BasicHashGraph.java:91-106 | `removeEdge` never looks at `cost`. Whenever the pair is adjacent it removes the pair's entry, whatever cost it holds, and answers true. | vertices {1, 2}, `addEdge(1, 2, 10)`, `removeEdge(1, 2, 99)`: the answer is true and the edge (1, 2, 10) is gone | the documentation on lines 91-98 and in the interface: the edge from v1 to v2 with weight cost is removed, so a call naming another cost removes nothing and answers false | not executed; proved about the model | AdjacencyMapGraph.RemoveEdgeIgnoresCostScenario | AdjacencyMapGraph.BasicHashGraph.RemoveEdgeMatching |

The model keeps `EdgeSetGraph.BasicGraph.RemoveVertex` and `EdgeSetGraph.BasicGraph.RemoveEdge`
as written, because that is what the code does. For removeEdge, `EdgeSetGraph.RemoveEdgeKeepsNamedEdge`
proves that the as-written store change breaks the interface's contract. `EdgeSetGraph.RemoveEdgeMatchingConforms`
and `EdgeSetGraph.CorrectedRemoveEdgeScenario` prove the intended behaviour about the corrected member.
For removeVertex: `EdgeSetGraph.RemoveVertexScenario` also shows the discrepancy, through `getAllEdges`.
`EdgeSetGraph.RemoveVertexAndEdgesConforms` and `EdgeSetGraph.CorrectedReAddVertexScenario`
prove the intended behaviour about the corrected member. The corrected member removes the
incoming edges of `v` as well as the outgoing ones, as `BasicHashGraph.removeVertex` does.

The model also keeps `AdjacencyMapGraph.BasicHashGraph.RemoveEdge` as written.
`AdjacencyMapGraph.RemoveEdgeAsWritten` proves that its store change meets the interface's
removeEdge contract exactly when the pair has no edge or has the edge with the named cost.
`AdjacencyMapGraph.RemoveEdgeMatchingConforms` and `AdjacencyMapGraph.RemoveEdgeMatchingScenario`
prove the intended behaviour about the corrected member.

## Left out

- The placeholders in `AbstractGraph` that throw `UnsupportedOperationException` (`clear`,
  `addEdge`, `removeVertex`, `removeEdge`, `getEdgeCost`, `areAdjacent`, `getAdjacent`;
  src/com/foley/graph/core/AbstractGraph.java:27-29, 82-84, 104-152) are not modelled. Both
  backends override all of them.
- The `null` argument checks (`IllegalArgumentException` in `addEdge`, `removeEdge` and
  `getEdges`, and the `null` guard of `BasicHashGraph.areAdjacent`) are left out. The model's
  types exclude null, so these branches are unreachable.
- Java's `==` on objects at src/com/foley/graph/core/BasicGraph.java:100 and :157 and
  src/com/foley/graph/core/BasicHashGraph.java:66 is reference equality. It is modelled as
  value equality, which is what `areAdjacent` uses through `equals`. For boxed values outside
  the small-integer cache, Java's answer can differ:
  - `getEdgeCost` can return null for an adjacent pair;
  - `getEdges` can miss edges;
  - `BasicHashGraph.addEdge` can answer true for an unchanged cost.
- Live views are modelled as copies: `getVertices`, `BasicGraph.getAllEdges` and
  `BasicHashGraph.getAdjacent` return values. A caller's later writes through the returned set
  are not modelled.
- The inner maps of `BasicHashGraph` are values inside the outer map, so aliasing of an inner
  map object is not modelled.
- `size` is modelled as an unbounded `nat`. Java's `HashSet.size` saturates at
  `Integer.MAX_VALUE`.
- Edges.BasicEdge.HashCode takes the element hash functions as parameters. `Objects.hash`
  calls `hashCode` on the vertex and cost objects, and those are not part of this model.
- The `Edge` interface (src/com/foley/graph/core/Edge.java) is not modelled separately;
  `BasicEdge` stands for it.
- Not part of this model: `GraphPrinter`, `Driver` and the `path` package (path finding and
  console output).
- Concurrency is not modelled; the Java classes are not thread-safe.
