/**
 * The edge value of src/com/foley/graph/core/BasicEdge.java.
 *
 * BasicEdge overrides hashCode but not equals, so two edges are equal only when they are
 * the same object.  The model therefore makes BasicEdge a class: Dafny compares class
 * instances by reference, exactly as a Java HashSet compares BasicEdge objects.  The three
 * fields are constants, written once by the constructor.
 */
module Edges {
  import opened Wrappers

  /** The two IllegalArgumentException cases of buildEdge. */
  datatype BuildError = NullSource | NullDestination

  /** A Java int computation: the value reduced into [-2^31, 2^31) modulo 2^32. */
  function Int32(x: int): (r: int)
    ensures -0x8000_0000 <= r < 0x8000_0000
    ensures -0x8000_0000 <= x < 0x8000_0000 ==> r == x
    ensures (x - r) % 0x1_0000_0000 == 0
  {
    var m := x % 0x1_0000_0000;
    var r := if m >= 0x8000_0000 then m - 0x1_0000_0000 else m;
    assert x == (x / 0x1_0000_0000) * 0x1_0000_0000 + m;
    r
  }

  /**
   * Objects.hash(a, b, c): start from 1 and fold each element hash h into 31 * result + h,
   * in int arithmetic.  A null element contributes 0 (the caller passes 0 for it).
   */
  function ObjectsHash3(h1: int, h2: int, h3: int): (r: int)
    ensures -0x8000_0000 <= r < 0x8000_0000
  {
    Int32(31 * Int32(31 * Int32(31 * 1 + h1) + h2) + h3)
  }

  class BasicEdge<V, E> {
    const source: V
    const destination: V
    /** None is a null cost: buildEdge accepts one. */
    const cost: Option<E>

    /** The private constructor; the graphs create edges through BuildEdge. */
    constructor (source: V, destination: V, cost: Option<E>)
      ensures this.source == source && this.destination == destination && this.cost == cost
    {
      this.source := source;
      this.destination := destination;
      this.cost := cost;
    }

    function GetSource(): V { source }

    function GetDestination(): V { destination }

    function GetCost(): Option<E> { cost }

    /** The (source, destination, cost) triple the edge was built from. */
    function Triple(): (V, V, Option<E>) { (source, destination, cost) }

    /**
     * hashCode, given the hashCode functions of the vertex and cost types.  It reads only the
     * triple, so edges built from equal triples hash equal (HashDependsOnTriple).
     */
    function HashCode(hashV: V -> int, hashE: E -> int): (h: int)
      ensures -0x8000_0000 <= h < 0x8000_0000
    {
      ObjectsHash3(hashV(source), hashV(destination), if cost.Some? then hashE(cost.value) else 0)
    }
  }

  /**
   * buildEdge: a null source or destination (None here) is rejected, source first; the cost
   * may be null.  Otherwise a new edge holding exactly the three arguments is returned.
   */
  method BuildEdge<V, E>(source: Option<V>, destination: Option<V>, cost: Option<E>)
    returns (r: Result<BasicEdge<V, E>, BuildError>)
    ensures source.None? ==> r == Failure(NullSource)
    ensures source.Some? && destination.None? ==> r == Failure(NullDestination)
    ensures source.Some? && destination.Some? ==>
              r.Success? && fresh(r.value) && r.value.GetSource() == source.value &&
              r.value.GetDestination() == destination.value && r.value.GetCost() == cost
  {
    if source.None? {
      return Failure(NullSource);
    }
    if destination.None? {
      return Failure(NullDestination);
    }
    var e := new BasicEdge(source.value, destination.value, cost);
    return Success(e);
  }

  /** Equal triples give equal hash codes, whatever the element hash functions. */
  lemma HashDependsOnTriple<V, E>(e1: BasicEdge<V, E>, e2: BasicEdge<V, E>, hashV: V -> int, hashE: E -> int)
    requires e1.Triple() == e2.Triple()
    ensures e1.HashCode(hashV, hashE) == e2.HashCode(hashV, hashE)
  {
  }

  /**
   * Since equals is not overridden, two edges built from the same triple are two distinct
   * elements of a HashSet, although they hash equal.
   */
  method SameTripleDistinctEdges<V, E>(source: V, destination: V, cost: Option<E>, hashV: V -> int, hashE: E -> int)
    returns (e1: BasicEdge<V, E>, e2: BasicEdge<V, E>)
    ensures e1.Triple() == e2.Triple() == (source, destination, cost)
    ensures e1.HashCode(hashV, hashE) == e2.HashCode(hashV, hashE)
    ensures e1 != e2 && |{e1, e2}| == 2
  {
    var r1 := BuildEdge(Some(source), Some(destination), cost);
    var r2 := BuildEdge(Some(source), Some(destination), cost);
    e1, e2 := r1.value, r2.value;
  }

  /** The (source, destination, cost) triples of the edges of s that have a cost. */
  ghost function CostedTriples<V, E>(s: set<BasicEdge<V, E>>): set<(V, V, E)>
  {
    set e | e in s && e.cost.Some? :: (e.source, e.destination, e.cost.value)
  }

  /** Every edge of s carries a non-null cost, as every edge a graph stores does. */
  ghost predicate AllCosted<V, E>(s: set<BasicEdge<V, E>>)
  {
    forall e :: e in s ==> e.cost.Some?
  }

  /** No two edges of s run between the same ordered pair of vertices. */
  ghost predicate DistinctPairs<V, E>(s: set<BasicEdge<V, E>>)
  {
    forall e1, e2 :: e1 in s && e2 in s && e1.source == e2.source && e1.destination == e2.destination ==> e1 == e2
  }

  /**
   * When every edge has a cost and no two share a pair, edges and their triples correspond
   * one to one: there are as many edge objects as triples.
   */
  lemma {:induction false} CostedTriplesCard<V, E>(s: set<BasicEdge<V, E>>)
    requires AllCosted(s) && DistinctPairs(s)
    ensures |CostedTriples(s)| == |s|
    decreases |s|
  {
    if s != {} {
      var e :| e in s;
      var rest := s - {e};
      CostedTriplesCard(rest);
      var t := (e.source, e.destination, e.cost.value);
      CostedTriplesUnion(rest, {e});
      assert CostedTriples({e}) == {t};
      assert s == rest + {e};
      assert t !in CostedTriples(rest);
    }
  }

  /** CostedTriples distributes over union, so results can be assembled piecewise. */
  lemma CostedTriplesUnion<V, E>(a: set<BasicEdge<V, E>>, b: set<BasicEdge<V, E>>)
    ensures CostedTriples(a + b) == CostedTriples(a) + CostedTriples(b)
  {
  }

  /** With every cost present, an edge from v1 to v2 exists iff a triple from v1 to v2 does. */
  lemma CostedTriplesPair<V, E>(s: set<BasicEdge<V, E>>, v1: V, v2: V)
    requires AllCosted(s)
    ensures (exists e :: e in s && e.source == v1 && e.destination == v2) <==>
            (exists t :: t in CostedTriples(s) && t.0 == v1 && t.1 == v2)
  {
    if e :| e in s && e.source == v1 && e.destination == v2 {
      assert (e.source, e.destination, e.cost.value) in CostedTriples(s);
    }
  }
}
