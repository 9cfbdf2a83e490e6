/**
 * The edge-set backend of src/com/foley/graph/core/BasicGraph.java: the vertex store plus a
 * HashSet of BasicEdge objects, scanned linearly by every query.
 *
 * BasicEdge compares by identity, so the store is a set of references: every addEdge inserts
 * a new object, and the keys that removeEdge and removeVertex build are new objects that are
 * never in the store, so those two operations remove nothing.  The queries check vertex
 * membership, so a removed vertex still becomes adjacent to nothing.
 */
module EdgeSetGraph {
  import opened Wrappers
  import opened Edges
  import opened VertexStore
  import Contract

  /** The graph value that an edge store and a vertex set stand for. */
  ghost function View<V, E>(edges: set<BasicEdge<V, E>>, vertices: set<V>): Contract.Graph<V, E>
  {
    Contract.Graph(vertices, CostedTriples(edges))
  }

  /**
   * addEdge meets the interface's addEdge contract: with both vertices present, inserting a
   * new edge object keeps every stored edge (parallel ones included), grows the store by one
   * and answers true; otherwise it throws and nothing changes.
   */
  lemma AddEdgeConforms<V, E>(edges: set<BasicEdge<V, E>>, vertices: set<V>, v1: V, v2: V, cost: E, e: BasicEdge<V, E>)
    requires AllCosted(edges) && e !in edges && e.Triple() == (v1, v2, Some(cost))
    ensures var r: Result<bool, Contract.GraphError> :=
              if v1 in vertices && v2 in vertices then Success(true) else Failure(Contract.VertexNotInGraph);
            var after := if r.Success? then edges + {e} else edges;
            AllCosted(after) && edges <= after &&
            |after| == |edges| + (if r.Success? then 1 else 0) &&
            Contract.AddEdgeSpec(View(edges, vertices), v1, v2, cost, View(after, vertices), r)
  {
    CostedTriplesUnion(edges, {e});
    assert CostedTriples({e}) == {(v1, v2, cost)};
  }

  /**
   * removeVertex meets the interface's removeVertex contract even though it keeps the store:
   * the membership checks hide every edge touching the removed vertex.
   */
  lemma RemoveVertexConforms<V, E>(edges: set<BasicEdge<V, E>>, vertices: set<V>, v: V)
    ensures Contract.RemoveVertexSpec(View(edges, vertices), v, View(edges, vertices - {v}), v in vertices)
    ensures forall u :: !Contract.Adjacent(View(edges, vertices - {v}), v, u) &&
                        !Contract.Adjacent(View(edges, vertices - {v}), u, v)
  {
    if v !in vertices {
      assert vertices - {v} == vertices;
    }
  }

  /**
   * removeEdge as written breaks the interface's removeEdge contract whenever the named edge
   * is stored: leaving the store as it was and answering false keeps (v1, v2, cost).
   */
  lemma RemoveEdgeKeepsNamedEdge<V, E>(edges: set<BasicEdge<V, E>>, vertices: set<V>, v1: V, v2: V, cost: E)
    requires (v1, v2, cost) in CostedTriples(edges)
    ensures !Contract.RemoveEdgeSpec(View(edges, vertices), v1, v2, cost, View(edges, vertices), false)
  {
  }

  /** The edge store without every edge whose triple is (v1, v2, cost). */
  function WithoutTriple<V(==), E(==)>(edges: set<BasicEdge<V, E>>, v1: V, v2: V, cost: E): (r: set<BasicEdge<V, E>>)
    ensures r <= edges
    ensures forall e :: e in edges ==> (e in r <==> e.Triple() != (v1, v2, Some(cost)))
  {
    set e | e in edges && e.Triple() != (v1, v2, Some(cost))
  }

  /**
   * The corrected removeEdge meets the interface's removeEdge contract: exactly the triple
   * (v1, v2, cost) leaves, and the store changes exactly when that triple was stored.
   */
  lemma RemoveEdgeMatchingConforms<V, E>(edges: set<BasicEdge<V, E>>, vertices: set<V>, v1: V, v2: V, cost: E)
    requires AllCosted(edges)
    ensures var after := WithoutTriple(edges, v1, v2, cost);
            AllCosted(after) &&
            CostedTriples(after) == CostedTriples(edges) - {(v1, v2, cost)} &&
            ((after != edges) <==> (v1, v2, cost) in CostedTriples(edges)) &&
            Contract.RemoveEdgeSpec(View(edges, vertices), v1, v2, cost, View(after, vertices), after != edges)
  {
    var after := WithoutTriple(edges, v1, v2, cost);
    forall t | t in CostedTriples(edges) && t != (v1, v2, cost)
      ensures t in CostedTriples(after)
    {
      var e :| e in edges && e.cost.Some? && t == (e.source, e.destination, e.cost.value);
      assert e in after;
    }
    if after != edges {
      var e :| e in edges && e !in after;
      assert (e.source, e.destination, e.cost.value) in CostedTriples(edges);
    }
    if (v1, v2, cost) in CostedTriples(edges) {
      var e :| e in edges && e.cost.Some? && (v1, v2, cost) == (e.source, e.destination, e.cost.value);
      assert e !in after;
    }
  }

  /** The edge store without every edge that starts or ends at v. */
  function WithoutVertex<V(==), E>(edges: set<BasicEdge<V, E>>, v: V): (r: set<BasicEdge<V, E>>)
    ensures r <= edges
    ensures forall e :: e in edges ==> (e in r <==> e.source != v && e.destination != v)
  {
    set e | e in edges && e.source != v && e.destination != v
  }

  /**
   * The corrected removeVertex meets the interface's removeVertex contract, and it removes
   * exactly the edges that touch v, so no stored edge mentions v afterwards.
   */
  lemma RemoveVertexAndEdgesConforms<V, E>(edges: set<BasicEdge<V, E>>, vertices: set<V>, v: V)
    requires AllCosted(edges)
    ensures var after := if v in vertices then WithoutVertex(edges, v) else edges;
            AllCosted(after) &&
            CostedTriples(after) == (if v in vertices then set t | t in CostedTriples(edges) && t.0 != v && t.1 != v
                                     else CostedTriples(edges)) &&
            (v in vertices ==> forall e :: e in after ==> e.source != v && e.destination != v) &&
            Contract.RemoveVertexSpec(View(edges, vertices), v, View(after, vertices - {v}), v in vertices)
  {
    if v in vertices {
      var after := WithoutVertex(edges, v);
      forall t | t in CostedTriples(edges) && t.0 != v && t.1 != v
        ensures t in CostedTriples(after)
      {
        var e :| e in edges && e.cost.Some? && t == (e.source, e.destination, e.cost.value);
        assert e in after;
      }
    } else {
      assert vertices - {v} == vertices;
    }
  }

  class BasicGraph<V(==), E(==)> {
    const base: AbstractGraph<V>
    var edges: set<BasicEdge<V, E>>

    /** addEdge rejects a null cost, so every stored edge carries one. */
    ghost predicate Valid()
      reads this
    {
      AllCosted(edges)
    }

    /** The graph as the interface sees it. */
    ghost function Model(): Contract.Graph<V, E>
      reads this, base
    {
      View(edges, base.vertices)
    }

    constructor ()
      ensures Valid() && fresh(base)
      ensures Model() == Contract.Empty() && edges == {}
    {
      base := new AbstractGraph();
      edges := {};
    }

    /** clear: empties both the vertex set and the edge store. */
    method Clear()
      modifies this, base
      ensures Valid()
      ensures Contract.ClearSpec(Model()) && edges == {}
    {
      base.vertices := {};
      edges := {};
    }

    /**
     * addEdge: throws unless both vertices are present.  Otherwise a new edge object is
     * inserted, which no set can already contain, so the answer is always true and an edge
     * between the same pair, even with the same cost, is kept beside the new one
     * (AddEdgeConforms).
     */
    method AddEdge(v1: V, v2: V, cost: E) returns (r: Result<bool, Contract.GraphError>)
      requires Valid()
      modifies this
      ensures Valid()
      ensures r.Failure? <==> v1 !in base.vertices || v2 !in base.vertices
      ensures r.Failure? ==> r.error == Contract.VertexNotInGraph && edges == old(edges)
      ensures r.Success? ==> r.value
      ensures r.Success? ==> exists e :: e !in old(edges) && edges == old(edges) + {e} && e.Triple() == (v1, v2, Some(cost))
    {
      if !base.Contains(v1) || !base.Contains(v2) {
        return Failure(Contract.VertexNotInGraph);
      }
      var built := BuildEdge(Some(v1), Some(v2), Some(cost));
      var edge := built.value;
      r := Success(edge !in edges);
      edges := edges + {edge};
    }

    /**
     * removeVertex: true iff v was present, and v leaves the vertex set.  The keys built in
     * the loop are new objects (with the null cost getEdgeCost returns once v is gone), so the
     * edge store is left as it was (RemoveVertexConforms).
     */
    method RemoveVertex(v: V) returns (b: bool)
      requires Valid()
      modifies this, base
      ensures Valid()
      ensures b == (v in old(base.vertices))
      ensures base.vertices == old(base.vertices) - {v} && edges == old(edges)
    {
      var adjacent := GetAdjacent(v);
      b := v in base.vertices;
      base.vertices := base.vertices - {v};
      if b {
        var rest := adjacent;
        while rest != {}
          invariant Valid() && edges == old(edges)
          invariant base.vertices == old(base.vertices) - {v}
          decreases rest
        {
          var adj :| adj in rest;
          var cost := GetEdgeCost(v, adj);
          assert cost == None;
          var built := BuildEdge(Some(v), Some(adj), cost);
          edges := edges - {built.value};
          rest := rest - {adj};
        }
      }
    }

    /**
     * removeVertex as its documentation describes it: v leaves the vertex set together with
     * every edge associated with it, outgoing and incoming (RemoveVertexAndEdgesConforms).
     */
    method RemoveVertexAndEdges(v: V) returns (b: bool)
      requires Valid()
      modifies this, base
      ensures Valid()
      ensures b == (v in old(base.vertices)) && base.vertices == old(base.vertices) - {v}
      ensures edges == if b then WithoutVertex(old(edges), v) else old(edges)
    {
      b := v in base.vertices;
      base.vertices := base.vertices - {v};
      if b {
        edges := WithoutVertex(edges, v);
      }
    }

    /**
     * removeEdge: the key is a new object, so nothing is removed, and the answer is always
     * false, even when the edge (v1, v2, cost) is stored (RemoveEdgeKeepsNamedEdge).
     */
    method RemoveEdge(v1: V, v2: V, cost: E) returns (b: bool)
      requires Valid()
      modifies this
      ensures Valid()
      ensures !b && edges == old(edges)
    {
      var built := BuildEdge(Some(v1), Some(v2), Some(cost));
      edges := edges - {built.value};
      return false;
    }

    /**
     * removeEdge as its documentation describes it: every stored edge from v1 to v2 with
     * weight cost leaves the store, and the answer is true iff one did
     * (RemoveEdgeMatchingConforms).
     */
    method RemoveEdgeMatching(v1: V, v2: V, cost: E) returns (b: bool)
      requires Valid()
      modifies this
      ensures Valid()
      ensures edges == WithoutTriple(old(edges), v1, v2, cost) && b == (edges != old(edges))
    {
      var kept := WithoutTriple(edges, v1, v2, cost);
      b := kept != edges;
      edges := kept;
    }

    /**
     * getEdgeCost: absent when the pair is not adjacent, otherwise the cost of the first
     * matching edge met in the store's (unspecified) iteration order.
     */
    method GetEdgeCost(v1: V, v2: V) returns (r: Option<E>)
      requires Valid()
      ensures Contract.IsCostOf(Model(), v1, v2, r)
      ensures r.Some? ==> exists e :: e in edges && e.source == v1 && e.destination == v2 && e.cost == r
    {
      var adjacent := AreAdjacent(v1, v2);
      if adjacent {
        var rest := edges;
        while rest != {}
          invariant rest <= edges
          invariant forall e :: e in edges - rest ==> !(e.source == v1 && e.destination == v2)
          decreases rest
        {
          var e :| e in rest;
          if e.source == v1 && e.destination == v2 {
            assert (e.source, e.destination, e.cost.value) in CostedTriples(edges);
            return e.cost;
          }
          rest := rest - {e};
        }
        CostedTriplesPair(edges, v1, v2);
        assert false;
      }
      return None;
    }

    /** areAdjacent: false for an absent vertex; otherwise whether a stored edge runs v1 to v2. */
    method AreAdjacent(v1: V, v2: V) returns (b: bool)
      requires Valid()
      ensures b == Contract.Adjacent(Model(), v1, v2)
      ensures b <==> v1 in base.vertices && v2 in base.vertices &&
                     exists e :: e in edges && e.source == v1 && e.destination == v2
    {
      CostedTriplesPair(edges, v1, v2);
      if !base.Contains(v1) || !base.Contains(v2) {
        return false;
      }
      var rest := edges;
      while rest != {}
        invariant rest <= edges
        invariant forall e :: e in edges - rest ==> !(e.source == v1 && e.destination == v2)
        decreases rest
      {
        var e :| e in rest;
        if e.source == v1 && e.destination == v2 {
          return true;
        }
        rest := rest - {e};
      }
      return false;
    }

    /** getAdjacent: exactly the vertices u with areAdjacent(v, u). */
    method GetAdjacent(v: V) returns (adjacent: set<V>)
      requires Valid()
      ensures adjacent == Contract.AdjacentTo(Model(), v)
    {
      adjacent := {};
      var rest := base.vertices;
      while rest != {}
        invariant rest <= base.vertices
        invariant forall u :: u in adjacent <==> u in base.vertices - rest && Contract.Adjacent(Model(), v, u)
        decreases rest
      {
        var u :| u in rest;
        var b := AreAdjacent(v, u);
        if b {
          adjacent := adjacent + {u};
        }
        rest := rest - {u};
      }
    }

    /**
     * getEdges: the stored edges whose source is v (an empty set for an absent v, but also
     * the edges left behind by a removed v).
     */
    method GetEdges(v: V) returns (out: set<BasicEdge<V, E>>)
      requires Valid()
      ensures out <= edges && forall e :: e in edges ==> (e in out <==> e.source == v)
      ensures CostedTriples(out) == Contract.OutEdges(Model(), v)
    {
      out := {};
      var rest := edges;
      while rest != {}
        invariant rest <= edges && out <= edges
        invariant forall e :: e in edges - rest ==> (e in out <==> e.source == v)
        invariant forall e :: e in out ==> e !in rest
        decreases rest
      {
        var e :| e in rest;
        if e.source == v {
          out := out + {e};
        }
        rest := rest - {e};
      }
    }

    /** getAllEdges: the whole edge store (a copy, where Java returns the live set). */
    function GetAllEdges(): (all: set<BasicEdge<V, E>>)
      reads this
      ensures CostedTriples(all) == Model().edges
    {
      edges
    }
  }

  /**
   * Vertices {1, 2, 3} with edges (1, 2, 10) and (2, 3, 5): 1 and 2 are adjacent, 1 and 3
   * are not, the cost from 2 to 3 is 5, and 2 is the only vertex adjacent to 1.
   */
  method SmallGraphScenario() returns (a12: bool, a13: bool, c23: Option<int>, adj1: set<int>)
    ensures a12 && !a13 && c23 == Some(5) && adj1 == {2}
  {
    var g := new BasicGraph<int, int>();
    var added := g.base.AddVertex(1);
    added := g.base.AddVertex(2);
    added := g.base.AddVertex(3);
    assert g.base.vertices == {1, 2, 3};
    var r := g.AddEdge(1, 2, 10);
    assert g.Model().edges == {(1, 2, 10)};
    r := g.AddEdge(2, 3, 5);
    ghost var m := g.Model();
    assert m.edges == {(1, 2, 10), (2, 3, 5)};
    a12 := g.AreAdjacent(1, 2);
    a13 := g.AreAdjacent(1, 3);
    c23 := g.GetEdgeCost(2, 3);
    adj1 := g.GetAdjacent(1);
    assert (1, 2, 10) in m.edges;
    assert adj1 == {2} by {
      assert Contract.Adjacent(m, 1, 2);
      assert !Contract.Adjacent(m, 1, 1) && !Contract.Adjacent(m, 1, 3);
    }
  }

  /** On an empty graph addEdge throws, since neither vertex is present. */
  method EmptyGraphAddEdgeScenario() returns (r: Result<bool, Contract.GraphError>)
    ensures r == Failure(Contract.VertexNotInGraph)
  {
    var g := new BasicGraph<int, int>();
    r := g.AddEdge(1, 2, 1);
  }

  /**
   * Parallel edges: adding (v1, v2, c1) and then (v1, v2, c2) answers true twice and keeps
   * two distinct edge objects from v1, one per call, even when c1 == c2.
   */
  method ParallelEdgesScenario<V(==), E(==)>(v1: V, v2: V, c1: E, c2: E)
    returns (first: Result<bool, Contract.GraphError>, second: Result<bool, Contract.GraphError>,
             out: set<BasicEdge<V, E>>)
    ensures first == Success(true) && second == Success(true)
    ensures |out| == 2 && forall e :: e in out ==> e.source == v1 && e.destination == v2
    ensures exists e1, e2 :: e1 in out && e2 in out && e1 != e2 && e1.cost == Some(c1) && e2.cost == Some(c2)
  {
    var g := new BasicGraph<V, E>();
    var added := g.base.AddVertex(v1);
    added := g.base.AddVertex(v2);
    first := g.AddEdge(v1, v2, c1);
    ghost var e1 :| e1 !in {} && g.edges == {e1} && e1.Triple() == (v1, v2, Some(c1));
    second := g.AddEdge(v1, v2, c2);
    ghost var e2 :| e2 !in {e1} && g.edges == {e1, e2} && e2.Triple() == (v1, v2, Some(c2));
    out := g.GetEdges(v1);
    assert e1 in out && e2 in out && e1 != e2;
    assert out == {e1, e2};
  }

  /**
   * removeVertex keeps the store: after removing 1 from {1, 2} with edge (1, 2, 10), 1 and
   * 2 are no longer adjacent, yet getAllEdges still reports the edge (1, 2, 10).
   */
  method RemoveVertexScenario() returns (removed: bool, adjacent: bool, all: set<BasicEdge<int, int>>)
    ensures removed && !adjacent
    ensures (1, 2, 10) in CostedTriples(all)
  {
    var g := new BasicGraph<int, int>();
    var added := g.base.AddVertex(1);
    added := g.base.AddVertex(2);
    var r := g.AddEdge(1, 2, 10);
    removed := g.RemoveVertex(1);
    adjacent := g.AreAdjacent(1, 2);
    all := g.GetAllEdges();
  }

  /**
   * The edges removeVertex leaves in the store come back: after removing 1 from {1, 2} with
   * edge (1, 2, 10) and adding 1 again, 1 and 2 are adjacent once more with cost 10.
   */
  method ReAddVertexScenario() returns (before: bool, after: bool, cost: Option<int>)
    ensures !before && after && cost == Some(10)
  {
    var g := new BasicGraph<int, int>();
    var added := g.base.AddVertex(1);
    added := g.base.AddVertex(2);
    var r := g.AddEdge(1, 2, 10);
    var removed := g.RemoveVertex(1);
    before := g.AreAdjacent(1, 2);
    added := g.base.AddVertex(1);
    assert g.Model().edges == {(1, 2, 10)};
    after := g.AreAdjacent(1, 2);
    cost := g.GetEdgeCost(1, 2);
  }

  /**
   * With the corrected removeVertex nothing comes back: after the same steps 1 and 2 stay
   * non-adjacent, and neither getEdges(1) nor getAllEdges reports an edge.
   */
  method CorrectedReAddVertexScenario() returns (after: bool, out: set<BasicEdge<int, int>>, all: set<BasicEdge<int, int>>)
    ensures !after && out == {} && all == {}
  {
    var g := new BasicGraph<int, int>();
    var added := g.base.AddVertex(1);
    added := g.base.AddVertex(2);
    var r := g.AddEdge(1, 2, 10);
    var removed := g.RemoveVertexAndEdges(1);
    assert g.edges == {};
    added := g.base.AddVertex(1);
    after := g.AreAdjacent(1, 2);
    out := g.GetEdges(1);
    all := g.GetAllEdges();
  }

  /**
   * removeEdge keeps the edge it names: after addEdge(1, 2, 10), removeEdge(1, 2, 10) answers
   * false, 1 and 2 stay adjacent, and getAllEdges still holds (1, 2, 10).
   */
  method RemoveEdgeScenario() returns (removed: bool, adjacent: bool, all: set<BasicEdge<int, int>>)
    ensures !removed && adjacent
    ensures (1, 2, 10) in CostedTriples(all)
  {
    var g := new BasicGraph<int, int>();
    var added := g.base.AddVertex(1);
    added := g.base.AddVertex(2);
    var r := g.AddEdge(1, 2, 10);
    removed := g.RemoveEdge(1, 2, 10);
    adjacent := g.AreAdjacent(1, 2);
    all := g.GetAllEdges();
  }

  /**
   * With the corrected removeEdge the same steps answer true, and afterwards 1 and 2 are no
   * longer adjacent and the store is empty.
   */
  method CorrectedRemoveEdgeScenario() returns (removed: bool, adjacent: bool, all: set<BasicEdge<int, int>>)
    ensures removed && !adjacent && all == {}
  {
    var g := new BasicGraph<int, int>();
    var added := g.base.AddVertex(1);
    added := g.base.AddVertex(2);
    var r := g.AddEdge(1, 2, 10);
    removed := g.RemoveEdgeMatching(1, 2, 10);
    assert g.edges == {};
    adjacent := g.AreAdjacent(1, 2);
    all := g.GetAllEdges();
  }
}
