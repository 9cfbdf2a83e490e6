/**
 * The vertex bookkeeping of src/com/foley/graph/core/AbstractGraph.java: a mutable set of
 * vertices with membership, size and emptiness queries and addVertex.  Both backends hold
 * one of these objects as their `base`, in place of Java's inheritance; where a subclass
 * mutates the set through getVertices(), the backend writes `base.vertices` directly.
 */
module VertexStore {
  class AbstractGraph<V(==)> {
    var vertices: set<V>

    constructor ()
      ensures vertices == {}
    {
      vertices := {};
    }

    /** containsVertex: whether v is a vertex of the graph. */
    function ContainsVertex(v: V): (b: bool)
      reads this
      ensures b <==> v in vertices
    {
      v in vertices
    }

    /** contains: the same membership test as containsVertex. */
    function Contains(v: V): (b: bool)
      reads this
      ensures b == ContainsVertex(v)
    {
      v in vertices
    }

    /** size: the number of vertices. */
    function Size(): (n: nat)
      reads this
      ensures n == |vertices|
    {
      |vertices|
    }

    /** isEmpty: no vertex at all, i.e. size is 0. */
    function IsEmpty(): (b: bool)
      reads this
      ensures b <==> Size() == 0
      ensures !b <==> exists v :: v in vertices && ContainsVertex(v)
    {
      vertices == {}
    }

    /** getVertices, as a value rather than the live view Java returns. */
    function GetVertices(): (s: set<V>)
      reads this
      ensures s == vertices
    {
      vertices
    }

    /** addVertex: true iff v was absent; afterwards the vertex set is the old one plus v. */
    method AddVertex(v: V) returns (added: bool)
      modifies this
      ensures added <==> v !in old(vertices)
      ensures vertices == old(vertices) + {v}
    {
      added := v !in vertices;
      vertices := vertices + {v};
    }
  }

  /**
   * Adding the same vertex twice answers true then false (for a new vertex), and the second
   * call leaves the size unchanged.
   */
  method AddVertexTwice<V(==)>(g: AbstractGraph<V>, v: V) returns (first: bool, second: bool)
    modifies g
    ensures first == !old(g.ContainsVertex(v)) && !second
    ensures g.ContainsVertex(v) && g.Size() == old(g.Size()) + (if first then 1 else 0)
  {
    ghost var before := g.vertices;
    first := g.AddVertex(v);
    assert first ==> g.vertices - {v} == before;
    var sizeBetween := g.Size();
    second := g.AddVertex(v);
    assert g.Size() == sizeBetween;
  }
}
