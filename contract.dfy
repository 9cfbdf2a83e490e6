/**
 * The Graph interface of src/com/foley/graph/core/Graph.java, stated once for every backend.
 *
 * A graph is seen as its vertex set plus the set of (source, destination, cost) triples of its
 * edges.  The query functions say what each query of the interface answers on such a value,
 * and each *Spec predicate says what a mutating operation promises about the value before and
 * after.  Each backend gives a ghost Model() of this type and proves its operations against
 * these definitions.
 */
module Contract {
  import opened Wrappers

  /** The IllegalArgumentException thrown for an edge whose endpoints are not both vertices. */
  datatype GraphError = VertexNotInGraph

  datatype Graph<V(==), E(==)> = Graph(vertices: set<V>, edges: set<(V, V, E)>)

  function Empty<V(==), E(==)>(): Graph<V, E> { Graph({}, {}) }

  /** contains / containsVertex */
  predicate HasVertex<V, E>(g: Graph<V, E>, v: V) { v in g.vertices }

  /** isEmpty */
  predicate IsEmpty<V, E>(g: Graph<V, E>) { g.vertices == {} }

  /** size */
  function Size<V, E>(g: Graph<V, E>): nat { |g.vertices| }

  /** areAdjacent: both vertices are in the graph and an edge runs from v1 to v2. */
  ghost predicate Adjacent<V, E>(g: Graph<V, E>, v1: V, v2: V)
  {
    v1 in g.vertices && v2 in g.vertices && exists t :: t in g.edges && t.0 == v1 && t.1 == v2
  }

  /** getAdjacent: the vertices one edge away from v. */
  ghost function AdjacentTo<V, E>(g: Graph<V, E>, v: V): set<V>
  {
    set u | u in g.vertices && Adjacent(g, v, u)
  }

  /** getEdges: the edges whose source is v. */
  ghost function OutEdges<V, E>(g: Graph<V, E>, v: V): set<(V, V, E)>
  {
    set t | t in g.edges && t.0 == v
  }

  /** getEdgeCost: absent when not adjacent, otherwise the cost of some edge from v1 to v2. */
  ghost predicate IsCostOf<V, E>(g: Graph<V, E>, v1: V, v2: V, r: Option<E>)
  {
    if Adjacent(g, v1, v2) then r.Some? && (v1, v2, r.value) in g.edges else r == None
  }

  /** A simple graph holds at most one cost per ordered pair of vertices. */
  ghost predicate Simple<V, E>(g: Graph<V, E>)
  {
    forall t1, t2 :: t1 in g.edges && t2 in g.edges && t1.0 == t2.0 && t1.1 == t2.1 ==> t1.2 == t2.2
  }

  /** clear */
  predicate ClearSpec<V, E>(after: Graph<V, E>) { after == Empty() }

  /** addVertex: the vertex set grows by v; true iff v was new. */
  ghost predicate AddVertexSpec<V, E>(before: Graph<V, E>, v: V, after: Graph<V, E>, added: bool)
  {
    after.vertices == before.vertices + {v} && after.edges == before.edges &&
    added == (v !in before.vertices)
  }

  /**
   * addEdge: throws unless both vertices are present; otherwise the vertex set stays, the
   * triple is an edge afterwards, no edge between another pair is lost and no other edge
   * appears.  The answer is true whenever the triple is new, and false only when nothing
   * changed.
   */
  ghost predicate AddEdgeSpec<V, E>(before: Graph<V, E>, v1: V, v2: V, cost: E, after: Graph<V, E>,
                                    r: Result<bool, GraphError>)
  {
    if v1 in before.vertices && v2 in before.vertices then
      r.Success? && after.vertices == before.vertices && (v1, v2, cost) in after.edges &&
      (forall t :: t in before.edges && (t.0 != v1 || t.1 != v2) ==> t in after.edges) &&
      (forall t :: t in after.edges ==> t in before.edges || t == (v1, v2, cost)) &&
      ((v1, v2, cost) !in before.edges ==> r.value) && (!r.value ==> after == before)
    else
      r == Failure(VertexNotInGraph) && after == before
  }

  /**
   * removeVertex: true iff v was present; v leaves the vertex set, no edge appears, and every
   * edge not touching v survives.  Nothing changes when v was absent.
   */
  ghost predicate RemoveVertexSpec<V, E>(before: Graph<V, E>, v: V, after: Graph<V, E>, removed: bool)
  {
    removed == (v in before.vertices) && after.vertices == before.vertices - {v} &&
    after.edges <= before.edges &&
    (forall t :: t in before.edges && t.0 != v && t.1 != v ==> t in after.edges) &&
    (!removed ==> after == before)
  }

  /**
   * removeEdge(v1, v2, cost): the vertex set stays, the edge (v1, v2, cost) is the only one
   * that may go, it is gone if it was there, and the answer is true exactly when an edge was
   * removed.
   */
  ghost predicate RemoveEdgeSpec<V, E>(before: Graph<V, E>, v1: V, v2: V, cost: E, after: Graph<V, E>, removed: bool)
  {
    after.vertices == before.vertices && after.edges <= before.edges &&
    (forall t :: t in before.edges && t !in after.edges ==> t == (v1, v2, cost)) &&
    ((v1, v2, cost) in before.edges ==> (v1, v2, cost) !in after.edges && removed) &&
    (removed <==> after.edges != before.edges)
  }

  /** isEmpty holds exactly when size is 0. */
  lemma EmptyIffSizeZero<V, E>(g: Graph<V, E>)
    ensures IsEmpty(g) <==> Size(g) == 0
  {
  }

  /** After clear there are no vertices, no edges and no adjacency. */
  lemma ClearedGraph<V, E>(g: Graph<V, E>)
    requires ClearSpec(g)
    ensures IsEmpty(g) && Size(g) == 0
    ensures forall v :: !HasVertex(g, v) && OutEdges(g, v) == {} && AdjacentTo(g, v) == {}
  {
  }

  /** Adding a vertex twice: the second call reports false and changes nothing. */
  lemma AddVertexTwice<V, E>(g0: Graph<V, E>, v: V, g1: Graph<V, E>, first: bool, g2: Graph<V, E>, second: bool)
    requires AddVertexSpec(g0, v, g1, first) && AddVertexSpec(g1, v, g2, second)
    ensures HasVertex(g1, v) && HasVertex(g2, v)
    ensures first == !HasVertex(g0, v) && !second
    ensures g2 == g1 && Size(g2) == Size(g1)
  {
  }

  /** After a successful addEdge the pair is adjacent and the triple is among v1's out-edges. */
  lemma AddedEdgeAdjacent<V, E>(g0: Graph<V, E>, v1: V, v2: V, cost: E, g1: Graph<V, E>, r: Result<bool, GraphError>)
    requires AddEdgeSpec(g0, v1, v2, cost, g1, r) && r.Success?
    ensures Adjacent(g1, v1, v2) && v2 in AdjacentTo(g1, v1) && (v1, v2, cost) in OutEdges(g1, v1)
  {
    assert (v1, v2, cost) in g1.edges;
  }

  /** In a simple graph the cost after addEdge(v1, v2, cost) is exactly cost: the last write wins. */
  lemma SimpleAddEdgeCost<V, E>(g0: Graph<V, E>, v1: V, v2: V, cost: E, g1: Graph<V, E>,
                                r: Result<bool, GraphError>, c: Option<E>)
    requires AddEdgeSpec(g0, v1, v2, cost, g1, r) && r.Success?
    requires Simple(g1) && IsCostOf(g1, v1, v2, c)
    ensures c == Some(cost)
  {
    AddedEdgeAdjacent(g0, v1, v2, cost, g1, r);
  }

  /** After removeVertex(v), v is adjacent to nothing and nothing is adjacent to v. */
  lemma RemovedVertexIsolated<V, E>(g0: Graph<V, E>, v: V, g1: Graph<V, E>, removed: bool)
    requires RemoveVertexSpec(g0, v, g1, removed)
    ensures !HasVertex(g1, v) && AdjacentTo(g1, v) == {}
    ensures forall u :: !Adjacent(g1, v, u) && !Adjacent(g1, u, v)
  {
  }

  /** getEdgeCost is absent exactly when the pair is not adjacent. */
  lemma CostAbsentIffNotAdjacent<V, E>(g: Graph<V, E>, v1: V, v2: V, r: Option<E>)
    requires IsCostOf(g, v1, v2, r)
    ensures r.None? <==> !Adjacent(g, v1, v2)
    ensures r.Some? ==> (v1, v2, r.value) in OutEdges(g, v1)
  {
  }
}
