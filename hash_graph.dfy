/**
 * The adjacency-map backend of src/com/foley/graph/core/BasicHashGraph.java: the vertex
 * store plus a map from each vertex to a map from destination to cost.  It keeps at most one
 * cost per ordered pair, and a later addEdge overwrites an earlier one.
 *
 * Java's inner maps are mutable objects updated in place; here they are map values inside
 * the outer map, and each in-place put or remove becomes an update of the outer map at that
 * key.
 */
module AdjacencyMapGraph {
  import opened Wrappers
  import opened Edges
  import opened VertexStore
  import Contract

  /** The class invariant: the outer keys are the vertices and no inner key dangles. */
  ghost predicate KeysMatch<V, E>(m: map<V, map<V, E>>, vertices: set<V>)
  {
    m.Keys == vertices && forall v :: v in m ==> m[v].Keys <= vertices
  }

  /** The (source, destination, cost) triples a nested map stores. */
  ghost function MapTriples<V, E>(m: map<V, map<V, E>>): set<(V, V, E)>
  {
    set v, u | v in m && u in m[v] :: (v, u, m[v][u])
  }

  /** The nested map after removeVertex(v): no key v, and no inner key v. */
  function DropVertex<V, E>(m: map<V, map<V, E>>, v: V): (r: map<V, map<V, E>>)
    ensures r.Keys == m.Keys - {v}
    ensures forall k :: k in r ==> v !in r[k] && r[k].Keys == m[k].Keys - {v}
    ensures forall k, u :: k in r && u in r[k] ==> r[k][u] == m[k][u]
  {
    map k | k in m && k != v :: m[k] - {v}
  }

  /** The cost a nested map stores for the pair (a, b), if any. */
  function Lookup<V, E>(m: map<V, map<V, E>>, a: V, b: V): Option<E>
  {
    if a in m && b in m[a] then Some(m[a][b]) else None
  }

  /** Dropping a vertex from both the map and the vertex set keeps the invariant. */
  lemma DropVertexKeepsKeys<V, E>(m: map<V, map<V, E>>, vertices: set<V>, v: V)
    requires KeysMatch(m, vertices)
    ensures KeysMatch(DropVertex(m, v), vertices - {v})
  {
  }

  /** Dropping v removes exactly the triples that touch v. */
  lemma DropVertexTriples<V, E>(m: map<V, map<V, E>>, v: V)
    ensures MapTriples(DropVertex(m, v)) == set t | t in MapTriples(m) && t.0 != v && t.1 != v
  {
    var r := DropVertex(m, v);
    forall t | t in MapTriples(m) && t.0 != v && t.1 != v
      ensures t in MapTriples(r)
    {
      var a, b :| a in m && b in m[a] && t == (a, b, m[a][b]);
      assert a in r && b in r[a] && r[a][b] == m[a][b];
    }
    forall t | t in MapTriples(r)
      ensures t in MapTriples(m) && t.0 != v && t.1 != v
    {
      var a, b :| a in r && b in r[a] && t == (a, b, r[a][b]);
      assert a in m && b in m[a];
    }
  }

  /** Writing cost at (v1, v2) replaces whatever triple that pair had and touches no other. */
  lemma PutTriples<V, E>(m: map<V, map<V, E>>, v1: V, v2: V, cost: E)
    requires v1 in m
    ensures MapTriples(m[v1 := m[v1][v2 := cost]]) ==
            (set t | t in MapTriples(m) && (t.0 != v1 || t.1 != v2)) + {(v1, v2, cost)}
  {
    var r := m[v1 := m[v1][v2 := cost]];
    forall t | t in MapTriples(m) && (t.0 != v1 || t.1 != v2)
      ensures t in MapTriples(r)
    {
      var a, b :| a in m && b in m[a] && t == (a, b, m[a][b]);
      assert a in r && b in r[a] && r[a][b] == m[a][b];
    }
    forall t | t in MapTriples(r)
      ensures t == (v1, v2, cost) || (t in MapTriples(m) && (t.0 != v1 || t.1 != v2))
    {
      var a, b :| a in r && b in r[a] && t == (a, b, r[a][b]);
      if a != v1 || b != v2 {
        assert a in m && b in m[a] && r[a][b] == m[a][b];
      }
    }
    assert (v1, v2, cost) in MapTriples(r) by {
      assert v1 in r && v2 in r[v1] && r[v1][v2] == cost;
    }
  }

  /** Removing the entry at (v1, v2) removes that pair's triple and touches no other. */
  lemma RemoveEntryTriples<V, E>(m: map<V, map<V, E>>, v1: V, v2: V)
    requires v1 in m
    ensures MapTriples(m[v1 := m[v1] - {v2}]) == set t | t in MapTriples(m) && (t.0 != v1 || t.1 != v2)
  {
    var r := m[v1 := m[v1] - {v2}];
    forall t | t in MapTriples(m) && (t.0 != v1 || t.1 != v2)
      ensures t in MapTriples(r)
    {
      var a, b :| a in m && b in m[a] && t == (a, b, m[a][b]);
      assert a in r && b in r[a] && r[a][b] == m[a][b];
    }
    forall t | t in MapTriples(r)
      ensures t in MapTriples(m) && (t.0 != v1 || t.1 != v2)
    {
      var a, b :| a in r && b in r[a] && t == (a, b, r[a][b]);
      assert a in m && b in m[a] && r[a][b] == m[a][b];
    }
  }

  /** Registering an empty inner map for a new vertex adds no triple. */
  lemma AddEmptyTriples<V, E>(m: map<V, map<V, E>>, v: V)
    requires v !in m
    ensures MapTriples(m[v := map[]]) == MapTriples(m)
  {
    var r := m[v := map[]];
    forall t | t in MapTriples(m)
      ensures t in MapTriples(r)
    {
      var a, b :| a in m && b in m[a] && t == (a, b, m[a][b]);
      assert a in r && b in r[a] && r[a][b] == m[a][b];
    }
  }

  /** A nested map is a partial function on pairs: its triples form a simple graph. */
  lemma MapTriplesSimple<V, E>(m: map<V, map<V, E>>, vertices: set<V>)
    ensures Contract.Simple(Contract.Graph(vertices, MapTriples(m)))
  {
    var g := Contract.Graph(vertices, MapTriples(m));
    forall t1, t2 | t1 in g.edges && t2 in g.edges && t1.0 == t2.0 && t1.1 == t2.1
      ensures t1.2 == t2.2
    {
      var a1, b1 :| a1 in m && b1 in m[a1] && t1 == (a1, b1, m[a1][b1]);
      var a2, b2 :| a2 in m && b2 in m[a2] && t2 == (a2, b2, m[a2][b2]);
    }
  }

  /** A triple from v1 to v2 is stored exactly when v2 is an inner key of v1. */
  lemma PairTriples<V, E>(m: map<V, map<V, E>>, v1: V, v2: V)
    ensures (exists t :: t in MapTriples(m) && t.0 == v1 && t.1 == v2) <==> (v1 in m && v2 in m[v1])
    ensures v1 in m && v2 in m[v1] ==> (v1, v2, m[v1][v2]) in MapTriples(m)
  {
    if v1 in m && v2 in m[v1] {
      assert (v1, v2, m[v1][v2]) in MapTriples(m);
    }
    if t :| t in MapTriples(m) && t.0 == v1 && t.1 == v2 {
      var a, b :| a in m && b in m[a] && t == (a, b, m[a][b]);
    }
  }

  /** The triples from v are the inner entries of v. */
  lemma OutTriples<V, E>(m: map<V, map<V, E>>, vertices: set<V>, v: V)
    requires v in m
    ensures Contract.OutEdges(Contract.Graph(vertices, MapTriples(m)), v) == set u | u in m[v] :: (v, u, m[v][u])
  {
    var g := Contract.Graph(vertices, MapTriples(m));
    forall t | t in Contract.OutEdges(g, v)
      ensures t in set u | u in m[v] :: (v, u, m[v][u])
    {
      var a, b :| a in m && b in m[a] && t == (a, b, m[a][b]);
    }
    forall u | u in m[v]
      ensures (v, u, m[v][u]) in Contract.OutEdges(g, v)
    {
      assert (v, u, m[v][u]) in MapTriples(m);
    }
  }

  /**
   * The edges getEdges(v) has built once it has visited the destinations in done: one edge
   * from v per visited destination, carrying that destination's cost.
   */
  ghost predicate BatchOf<V, E>(out: set<BasicEdge<V, E>>, v: V, inner: map<V, E>, done: set<V>)
  {
    done <= inner.Keys && AllCosted(out) && DistinctPairs(out) &&
    (forall e :: e in out ==> e.source == v && e.destination in done) &&
    CostedTriples(out) == set u | u in done :: (v, u, inner[u])
  }

  /** Adding the edge for a destination not visited yet extends the batch by that destination. */
  lemma BatchGrows<V, E>(out: set<BasicEdge<V, E>>, v: V, inner: map<V, E>, done: set<V>, e: BasicEdge<V, E>)
    requires BatchOf(out, v, inner, done)
    requires e.destination in inner && e.destination !in done
    requires e.Triple() == (v, e.destination, Some(inner[e.destination]))
    ensures BatchOf(out + {e}, v, inner, done + {e.destination})
  {
    CostedTriplesUnion(out, {e});
    assert CostedTriples({e}) == {(v, e.destination, inner[e.destination])};
    assert (set u | u in done + {e.destination} :: (v, u, inner[u])) ==
           (set u | u in done :: (v, u, inner[u])) + {(v, e.destination, inner[e.destination])};
  }

  /**
   * The edges getAllEdges has collected once only the vertices in rest remain: no two share a
   * pair, none starts in rest, and their triples are the stored entries of the visited vertices.
   */
  ghost predicate UnionUpTo<V, E>(all: set<BasicEdge<V, E>>, m: map<V, map<V, E>>, rest: set<V>)
  {
    AllCosted(all) && DistinctPairs(all) &&
    (forall e :: e in all ==> e.source !in rest) &&
    CostedTriples(all) == set t | t in MapTriples(m) && t.0 !in rest
  }

  /** Adding the getEdges(v) result of a remaining vertex v moves v out of rest. */
  lemma UnionGrows<V, E>(all: set<BasicEdge<V, E>>, out: set<BasicEdge<V, E>>, m: map<V, map<V, E>>,
                         vertices: set<V>, rest: set<V>, v: V)
    requires UnionUpTo(all, m, rest) && v in rest
    requires AllCosted(out) && DistinctPairs(out) && forall e :: e in out ==> e.source == v
    requires CostedTriples(out) == Contract.OutEdges(View(m, vertices), v)
    ensures UnionUpTo(all + out, m, rest - {v})
  {
    CostedTriplesUnion(all, out);
    forall e1, e2 | e1 in all + out && e2 in all + out && e1.source == e2.source &&
                    e1.destination == e2.destination
      ensures e1 == e2
    {
      assert (e1 in out) == (e2 in out);
    }
    assert (set t | t in MapTriples(m) && t.0 !in rest - {v}) ==
           (set t | t in MapTriples(m) && t.0 !in rest) + Contract.OutEdges(View(m, vertices), v);
  }

  /** The graph value that a nested map and a vertex set stand for. */
  ghost function View<V, E>(m: map<V, map<V, E>>, vertices: set<V>): Contract.Graph<V, E>
  {
    Contract.Graph(vertices, MapTriples(m))
  }

  /** addVertex keeps the invariant and meets the interface's addVertex contract. */
  lemma AddVertexConforms<V, E>(m: map<V, map<V, E>>, vertices: set<V>, v: V)
    requires KeysMatch(m, vertices)
    ensures var added := v !in vertices;
            var m' := if added then m[v := map[]] else m;
            KeysMatch(m', vertices + {v}) &&
            Contract.AddVertexSpec(View(m, vertices), v, View(m', vertices + {v}), added)
  {
    if v !in vertices {
      AddEmptyTriples(m, v);
    } else {
      assert vertices + {v} == vertices;
    }
  }

  /**
   * addEdge keeps the invariant and meets the interface's addEdge contract; afterwards the
   * pair's cost is exactly the new one and every other pair's cost is unchanged.
   */
  lemma AddEdgeConforms<V, E>(m: map<V, map<V, E>>, vertices: set<V>, v1: V, v2: V, cost: E)
    requires KeysMatch(m, vertices)
    ensures var r: Result<bool, Contract.GraphError> :=
              if v1 in vertices && v2 in vertices then Success(Lookup(m, v1, v2) != Some(cost))
              else Failure(Contract.VertexNotInGraph);
            var m' := if r.Success? then m[v1 := m[v1][v2 := cost]] else m;
            KeysMatch(m', vertices) &&
            Contract.AddEdgeSpec(View(m, vertices), v1, v2, cost, View(m', vertices), r) &&
            (r.Success? ==> Lookup(m', v1, v2) == Some(cost)) &&
            (forall a, b :: a != v1 || b != v2 ==> Lookup(m', a, b) == Lookup(m, a, b))
  {
    if v1 in vertices && v2 in vertices {
      PutTriples(m, v1, v2, cost);
      PairTriples(m, v1, v2);
      if Lookup(m, v1, v2) == Some(cost) {
        assert m[v1][v2 := cost] == m[v1];
        assert m[v1 := m[v1][v2 := cost]] == m;
      }
    }
  }

  /**
   * removeVertex keeps the invariant (v is neither a key nor an inner key afterwards) and
   * meets the interface's removeVertex contract; an absent v changes nothing.
   */
  lemma RemoveVertexConforms<V, E>(m: map<V, map<V, E>>, vertices: set<V>, v: V)
    requires KeysMatch(m, vertices)
    ensures var removed := v in vertices;
            var m' := if removed then DropVertex(m, v) else m;
            KeysMatch(m', vertices - {v}) &&
            Contract.RemoveVertexSpec(View(m, vertices), v, View(m', vertices - {v}), removed)
  {
    if v in vertices {
      DropVertexKeepsKeys(m, vertices, v);
      DropVertexTriples(m, v);
    } else {
      assert vertices - {v} == vertices;
    }
  }

  /**
   * removeEdge as written keeps the invariant and drops the (v1, v2) entry whatever cost it
   * holds: afterwards no edge runs from v1 to v2.  It meets the interface's removeEdge
   * contract exactly when the pair has no edge or has the edge with the named cost.
   */
  lemma RemoveEdgeAsWritten<V, E>(m: map<V, map<V, E>>, vertices: set<V>, v1: V, v2: V, cost: E)
    requires KeysMatch(m, vertices)
    ensures var removed := v1 in m && v2 in m && v2 in m[v1];
            var m' := if removed then m[v1 := m[v1] - {v2}] else m;
            KeysMatch(m', vertices) &&
            removed == Contract.Adjacent(View(m, vertices), v1, v2) &&
            MapTriples(m') == (set t | t in MapTriples(m) && (t.0 != v1 || t.1 != v2)) &&
            !Contract.Adjacent(View(m', vertices), v1, v2) &&
            (Contract.RemoveEdgeSpec(View(m, vertices), v1, v2, cost, View(m', vertices), removed) <==>
             Lookup(m, v1, v2) == None || Lookup(m, v1, v2) == Some(cost))
  {
    PairTriples(m, v1, v2);
    if v1 in m && v2 in m && v2 in m[v1] {
      var m' := m[v1 := m[v1] - {v2}];
      RemoveEntryTriples(m, v1, v2);
      PairTriples(m', v1, v2);
      assert (v1, v2, m[v1][v2]) !in MapTriples(m');
    } else {
      assert (set t | t in MapTriples(m) && (t.0 != v1 || t.1 != v2)) == MapTriples(m);
    }
  }

  /**
   * The corrected removeEdge, which removes the (v1, v2) entry only when it holds cost, keeps
   * the invariant and meets the interface's removeEdge contract: exactly the triple
   * (v1, v2, cost) leaves, and the answer is whether it was stored.
   */
  lemma RemoveEdgeMatchingConforms<V, E>(m: map<V, map<V, E>>, vertices: set<V>, v1: V, v2: V, cost: E)
    requires KeysMatch(m, vertices)
    ensures var removed := Lookup(m, v1, v2) == Some(cost);
            var m' := if removed then m[v1 := m[v1] - {v2}] else m;
            KeysMatch(m', vertices) &&
            removed == ((v1, v2, cost) in MapTriples(m)) &&
            MapTriples(m') == MapTriples(m) - {(v1, v2, cost)} &&
            Contract.RemoveEdgeSpec(View(m, vertices), v1, v2, cost, View(m', vertices), removed)
  {
    PairTriples(m, v1, v2);
    if (v1, v2, cost) in MapTriples(m) {
      var a, b :| a in m && b in m[a] && (v1, v2, cost) == (a, b, m[a][b]);
    }
    if Lookup(m, v1, v2) == Some(cost) {
      RemoveEntryTriples(m, v1, v2);
      MapTriplesSimple(m, vertices);
      assert (set t | t in MapTriples(m) && (t.0 != v1 || t.1 != v2)) == MapTriples(m) - {(v1, v2, cost)};
    }
  }

  class BasicHashGraph<V(==), E(==)> {
    /** The vertex store; add vertices through BasicHashGraph.AddVertex, which also registers the inner map. */
    const base: AbstractGraph<V>
    var edgeMap: map<V, map<V, E>>

    ghost predicate Valid()
      reads this, base
    {
      KeysMatch(edgeMap, base.vertices)
    }

    /** The graph as the interface sees it. */
    ghost function Model(): Contract.Graph<V, E>
      reads this, base
    {
      View(edgeMap, base.vertices)
    }

    constructor ()
      ensures Valid() && fresh(base)
      ensures Model() == Contract.Empty() && edgeMap == map[]
    {
      base := new AbstractGraph();
      edgeMap := map[];
    }

    /** clear: empties the vertex set and the nested map. */
    method Clear()
      modifies this, base
      ensures Valid()
      ensures Contract.ClearSpec(Model()) && edgeMap == map[]
    {
      base.vertices := {};
      edgeMap := map[];
    }

    /**
     * addVertex: true iff v was new, and only then is an empty inner map registered for it;
     * a repeated add leaves the existing inner map untouched (AddVertexConforms).
     */
    method AddVertex(v: V) returns (b: bool)
      requires Valid()
      modifies this, base
      ensures Valid()
      ensures b == (v !in old(base.vertices)) && base.vertices == old(base.vertices) + {v}
      ensures edgeMap == if b then old(edgeMap)[v := map[]] else old(edgeMap)
    {
      b := base.AddVertex(v);
      if b {
        edgeMap := edgeMap[v := map[]];
      }
    }

    /**
     * addEdge: throws unless both vertices are present.  Answers false, changing nothing,
     * when the pair already has this very cost; otherwise writes the cost over any earlier
     * one and answers true (AddEdgeConforms).
     */
    method AddEdge(v1: V, v2: V, cost: E) returns (r: Result<bool, Contract.GraphError>)
      requires Valid()
      modifies this
      ensures Valid()
      ensures r.Failure? <==> v1 !in base.vertices || v2 !in base.vertices
      ensures r.Failure? ==> r.error == Contract.VertexNotInGraph && edgeMap == old(edgeMap)
      ensures r.Success? ==> r.value == (Lookup(old(edgeMap), v1, v2) != Some(cost)) &&
                             edgeMap == old(edgeMap)[v1 := old(edgeMap)[v1][v2 := cost]]
    {
      if !base.ContainsVertex(v1) || !base.ContainsVertex(v2) {
        return Failure(Contract.VertexNotInGraph);
      }
      var vEdges := edgeMap[v1];
      if v2 in vEdges && cost == vEdges[v2] {
        assert vEdges[v2 := cost] == vEdges;
        return Success(false);
      }
      edgeMap := edgeMap[v1 := vEdges[v2 := cost]];
      return Success(true);
    }

    /**
     * removeVertex: true iff v was present.  Then v leaves the vertex set and the map, and
     * the loop deletes v from every remaining inner map; otherwise nothing changes
     * (RemoveVertexConforms).
     */
    method RemoveVertex(v: V) returns (b: bool)
      requires Valid()
      modifies this, base
      ensures Valid()
      ensures b == (v in old(base.vertices)) && base.vertices == old(base.vertices) - {v}
      ensures edgeMap == if b then DropVertex(old(edgeMap), v) else old(edgeMap)
    {
      b := v in base.vertices;
      if b {
        base.vertices := base.vertices - {v};
        edgeMap := edgeMap - {v};
        var rest := edgeMap.Keys;
        while rest != {}
          invariant rest <= edgeMap.Keys
          invariant base.vertices == old(base.vertices) - {v}
          invariant edgeMap.Keys == old(edgeMap).Keys - {v}
          invariant forall k :: k in edgeMap ==>
                      edgeMap[k] == if k in rest then old(edgeMap)[k] else old(edgeMap)[k] - {v}
          decreases rest
        {
          var k :| k in rest;
          edgeMap := edgeMap[k := edgeMap[k] - {v}];
          rest := rest - {k};
        }
        assert edgeMap == DropVertex(old(edgeMap), v);
        DropVertexKeepsKeys(old(edgeMap), old(base.vertices), v);
      }
    }

    /**
     * removeEdge: ignores the cost; removes the (v1, v2) entry, whatever cost it holds, and
     * answers true iff the pair was adjacent beforehand (RemoveEdgeAsWritten).
     */
    method RemoveEdge(v1: V, v2: V, cost: E) returns (b: bool)
      requires Valid()
      modifies this
      ensures Valid()
      ensures b == old(AreAdjacent(v1, v2)) && !AreAdjacent(v1, v2)
      ensures edgeMap == if b then old(edgeMap)[v1 := old(edgeMap)[v1] - {v2}] else old(edgeMap)
    {
      if AreAdjacent(v1, v2) {
        edgeMap := edgeMap[v1 := edgeMap[v1] - {v2}];
        return true;
      }
      return false;
    }

    /**
     * removeEdge as documented: removes the (v1, v2) entry only when it holds cost, and
     * answers whether it did (RemoveEdgeMatchingConforms).
     */
    method RemoveEdgeMatching(v1: V, v2: V, cost: E) returns (b: bool)
      requires Valid()
      modifies this
      ensures Valid()
      ensures b == (Lookup(old(edgeMap), v1, v2) == Some(cost))
      ensures edgeMap == if b then old(edgeMap)[v1 := old(edgeMap)[v1] - {v2}] else old(edgeMap)
    {
      if AreAdjacent(v1, v2) && edgeMap[v1][v2] == cost {
        edgeMap := edgeMap[v1 := edgeMap[v1] - {v2}];
        return true;
      }
      return false;
    }

    /** getEdgeCost: the stored cost of the pair, absent iff the pair is not adjacent. */
    function GetEdgeCost(v1: V, v2: V): (r: Option<E>)
      reads this, base
      requires Valid()
      ensures Contract.IsCostOf(Model(), v1, v2, r)
      ensures r.Some? <==> AreAdjacent(v1, v2)
    {
      if AreAdjacent(v1, v2) then
        PairTriples(edgeMap, v1, v2);
        Some(edgeMap[v1][v2])
      else
        None
    }

    /** areAdjacent: false for an absent vertex; otherwise whether v2 is an inner key of v1. */
    function AreAdjacent(v1: V, v2: V): (b: bool)
      reads this, base
      requires Valid()
      ensures b == Contract.Adjacent(Model(), v1, v2)
    {
      PairTriples(edgeMap, v1, v2);
      v1 in edgeMap && v2 in edgeMap && v2 in edgeMap[v1]
    }

    /** getAdjacent: absent (Java's null) for an absent vertex, else its one-edge neighbours. */
    function GetAdjacent(v: V): (r: Option<set<V>>)
      reads this, base
      requires Valid()
      ensures r.None? <==> v !in base.vertices
      ensures r.Some? ==> r.value == Contract.AdjacentTo(Model(), v)
    {
      if v in edgeMap then
        assert forall u :: u in base.vertices ==> (u in edgeMap[v] <==> AreAdjacent(v, u));
        Some(edgeMap[v].Keys)
      else
        None
    }

    /**
     * getEdges: one new edge for each inner entry of v, so the edges start at v, no two share
     * a destination, and there are exactly as many as v has out-edges; the empty set for an
     * absent v.
     */
    method GetEdges(v: V) returns (out: set<BasicEdge<V, E>>)
      requires Valid()
      ensures AllCosted(out) && DistinctPairs(out)
      ensures forall e :: e in out ==> e.source == v && fresh(e)
      ensures CostedTriples(out) == Contract.OutEdges(Model(), v)
      ensures |out| == |Contract.OutEdges(Model(), v)|
      ensures v !in base.vertices ==> out == {}
    {
      if !base.ContainsVertex(v) {
        assert Contract.OutEdges(Model(), v) == {} by {
          forall t | t in MapTriples(edgeMap) ensures t.0 != v {
            var a, b :| a in edgeMap && b in edgeMap[a] && t == (a, b, edgeMap[a][b]);
          }
        }
        return {};
      }
      out := {};
      var inner := edgeMap[v];
      var rest := inner.Keys;
      ghost var done: set<V> := {};
      while rest != {}
        invariant rest !! done && rest + done == inner.Keys
        invariant BatchOf(out, v, inner, done)
        invariant forall e :: e in out ==> fresh(e)
        decreases rest
      {
        var adj :| adj in rest;
        var built := BuildEdge(Some(v), Some(adj), Some(inner[adj]));
        var e := built.value;
        BatchGrows(out, v, inner, done, e);
        out := out + {e};
        rest := rest - {adj};
        done := done + {adj};
      }
      assert done == inner.Keys;
      OutTriples(edgeMap, base.vertices, v);
      CostedTriplesCard(out);
    }

    /**
     * getAllEdges: the union of getEdges over all vertices, i.e. one edge per stored entry, no
     * two between the same pair; empty for an empty graph.
     */
    method GetAllEdges() returns (all: set<BasicEdge<V, E>>)
      requires Valid()
      ensures AllCosted(all) && DistinctPairs(all)
      ensures CostedTriples(all) == Model().edges
      ensures |all| == |Model().edges|
    {
      if base.IsEmpty() {
        assert MapTriples(edgeMap) == {};
        return {};
      }
      all := {};
      var rest := base.vertices;
      while rest != {}
        invariant rest <= base.vertices
        invariant UnionUpTo(all, edgeMap, rest)
        decreases rest
      {
        var v :| v in rest;
        var out := GetEdges(v);
        UnionGrows(all, out, edgeMap, base.vertices, rest, v);
        all := all + out;
        rest := rest - {v};
      }
      assert (set t | t in MapTriples(edgeMap) && t.0 !in rest) == MapTriples(edgeMap);
      CostedTriplesCard(all);
    }
  }

  /** The nested map always describes a simple graph. */
  lemma ModelIsSimple<V, E>(g: BasicHashGraph<V, E>)
    ensures Contract.Simple(g.Model())
  {
    MapTriplesSimple(g.edgeMap, g.base.vertices);
  }

  /**
   * Vertices {1, 2, 3} with edges (1, 2, 10) and (2, 3, 5): 1 and 2 are adjacent, 1 and 3
   * are not, the cost from 2 to 3 is 5, and 2 is the only vertex adjacent to 1.
   */
  method SmallGraphScenario() returns (g: BasicHashGraph<int, int>)
    ensures g.Valid()
    ensures g.AreAdjacent(1, 2) && !g.AreAdjacent(1, 3)
    ensures g.GetEdgeCost(2, 3) == Some(5) && g.GetAdjacent(1) == Some({2})
  {
    g := new BasicHashGraph<int, int>();
    var added := g.AddVertex(1);
    added := g.AddVertex(2);
    added := g.AddVertex(3);
    assert g.edgeMap == map[1 := map[], 2 := map[], 3 := map[]];
    var r := g.AddEdge(1, 2, 10);
    assert g.edgeMap == map[1 := map[2 := 10], 2 := map[], 3 := map[]];
    r := g.AddEdge(2, 3, 5);
    assert g.edgeMap[1] == map[2 := 10] && g.edgeMap[2] == map[3 := 5];
    assert g.edgeMap[1].Keys == {2};
  }

  /** On an empty graph addEdge throws, since neither vertex is present. */
  method EmptyGraphAddEdgeScenario() returns (r: Result<bool, Contract.GraphError>)
    ensures r == Failure(Contract.VertexNotInGraph)
  {
    var g := new BasicHashGraph<int, int>();
    r := g.AddEdge(1, 2, 1);
  }

  /**
   * Last write wins: adding (v1, v2, c1) and then (v1, v2, c2) with c1 != c2 answers true
   * twice and leaves exactly one edge from v1, to v2 and with cost c2.
   */
  method OverwriteScenario<V(==), E(==)>(v1: V, v2: V, c1: E, c2: E)
    returns (g: BasicHashGraph<V, E>, first: Result<bool, Contract.GraphError>, second: Result<bool, Contract.GraphError>)
    requires c1 != c2
    ensures g.Valid() && first == Success(true) && second == Success(true)
    ensures g.GetEdgeCost(v1, v2) == Some(c2) && g.GetAdjacent(v1) == Some({v2})
    ensures g.edgeMap[v1] == map[v2 := c2]
  {
    g := new BasicHashGraph<V, E>();
    var added := g.AddVertex(v1);
    added := g.AddVertex(v2);
    assert g.edgeMap[v1] == map[];
    first := g.AddEdge(v1, v2, c1);
    assert g.edgeMap[v1] == map[v2 := c1];
    second := g.AddEdge(v1, v2, c2);
    assert g.edgeMap[v1] == map[v2 := c2];
    assert g.edgeMap[v1].Keys == {v2};
  }

  /**
   * Removing a vertex removes its edges: after removing 1 from {1, 2} with edges (1, 2, 10)
   * and (2, 1, 7), 2 has no neighbour left and the graph has no edge at all.
   */
  method RemoveVertexScenario() returns (g: BasicHashGraph<int, int>, removed: bool)
    ensures g.Valid() && removed && !g.base.ContainsVertex(1)
    ensures g.GetAdjacent(2) == Some({}) && g.Model().edges == {}
  {
    g := new BasicHashGraph<int, int>();
    var added := g.AddVertex(1);
    added := g.AddVertex(2);
    var r := g.AddEdge(1, 2, 10);
    r := g.AddEdge(2, 1, 7);
    removed := g.RemoveVertex(1);
    assert g.edgeMap == map[2 := map[]];
    assert MapTriples(g.edgeMap) == {};
  }

  /**
   * removeEdge does not compare costs: after addEdge(1, 2, 10), removeEdge(1, 2, 99) answers
   * true and 1 and 2 are no longer adjacent.
   */
  method RemoveEdgeIgnoresCostScenario() returns (g: BasicHashGraph<int, int>, removed: bool)
    ensures g.Valid() && removed && !g.AreAdjacent(1, 2)
  {
    g := new BasicHashGraph<int, int>();
    var added := g.AddVertex(1);
    added := g.AddVertex(2);
    var r := g.AddEdge(1, 2, 10);
    assert g.edgeMap[1] == map[2 := 10];
    removed := g.RemoveEdge(1, 2, 99);
  }

  /**
   * The corrected removeEdge compares costs: after addEdge(1, 2, 10), removing (1, 2, 99)
   * answers false and keeps the edge, and removing (1, 2, 10) answers true and drops it.
   */
  method RemoveEdgeMatchingScenario() returns (g: BasicHashGraph<int, int>, wrong: bool, kept: Option<int>, right: bool)
    ensures g.Valid() && !wrong && kept == Some(10) && right && !g.AreAdjacent(1, 2)
  {
    g := new BasicHashGraph<int, int>();
    var added := g.AddVertex(1);
    added := g.AddVertex(2);
    var r := g.AddEdge(1, 2, 10);
    assert g.edgeMap[1] == map[2 := 10];
    wrong := g.RemoveEdgeMatching(1, 2, 99);
    assert g.edgeMap[1] == map[2 := 10];
    kept := g.GetEdgeCost(1, 2);
    right := g.RemoveEdgeMatching(1, 2, 10);
  }
}
