/**
 * Vertices, edges and the two edge-level queries of the undirected
 * multigraph: which edges touch a vertex (the degree), and whether an edge
 * of one graph corresponds to an edge of the other under a vertex mapping.
 */
module Edges {

  /** Vertex labels are compared by exact equality; nothing is normalised. */
  type Vertex = string

  /** An edge is stored as the pair it was given, and read as an unordered pair. */
  type Edge = (Vertex, Vertex)

  /** A partial mapping from the vertices of one graph to those of another. */
  type Mapping = map<Vertex, Vertex>

  /** Python's `vertex in edge` on a pair: v is one of the two endpoints. */
  predicate Touches(e: Edge, v: Vertex)
  {
    e.0 == v || e.1 == v
  }

  /**
   * The edges of es that touch v, in their order in es: the list that
   * `degree` builds before taking its length.
   */
  function Incident(es: seq<Edge>, v: Vertex): (r: seq<Edge>)
    ensures |r| <= |es|
    ensures forall e :: e in r ==> e in es && Touches(e, v)
  {
    if es == [] then []
    else
      var last := es[|es| - 1];
      Incident(es[..|es| - 1], v) + (if Touches(last, v) then [last] else [])
  }

  /** The positions of es that hold an edge touching v. */
  function IncidentIndices(es: seq<Edge>, v: Vertex): set<nat>
  {
    set i: nat | i < |es| && Touches(es[i], v)
  }

  /**
   * The filter keeps every edge that touches v with its full multiplicity
   * (parallel edges all count) and drops every other edge.
   */
  lemma {:induction false} IncidentMultiplicity(es: seq<Edge>, v: Vertex, e: Edge)
    ensures multiset(Incident(es, v))[e] == if Touches(e, v) then multiset(es)[e] else 0
  {
    if es != [] {
      var init, last := es[..|es| - 1], es[|es| - 1];
      assert es == init + [last];
      IncidentMultiplicity(init, v, e);
    }
  }

  /**
   * The degree is the number of positions whose edge touches v. A self-loop
   * (v, v) occupies one position, so it adds one, not two.
   */
  lemma {:induction false} IncidentCountsPositions(es: seq<Edge>, v: Vertex)
    ensures |Incident(es, v)| == |IncidentIndices(es, v)|
  {
    if es != [] {
      var n := |es| - 1;
      IncidentCountsPositions(es[..n], v);
      assert IncidentIndices(es, v) ==
        IncidentIndices(es[..n], v) + (if Touches(es[n], v) then {n} else {});
    }
  }

  /** Appending an edge adds one to the degree of each of its endpoints, once. */
  lemma IncidentAppend(es: seq<Edge>, e: Edge, v: Vertex)
    ensures |Incident(es + [e], v)| == |Incident(es, v)| + (if Touches(e, v) then 1 else 0)
  {
    assert (es + [e])[..|es|] == es;
  }

  /**
   * An edge e1 of the first graph corresponds to an edge e2 of the second
   * under m: both endpoints of e1 are mapped, and their images are the
   * endpoints of e2 in either order.
   */
  function AreEdgesIsomorphic(e1: Edge, e2: Edge, m: Mapping): (r: bool)
    ensures r <==> e1.0 in m && e1.1 in m && multiset{m[e1.0], m[e1.1]} == multiset{e2.0, e2.1}
  {
    if e1.0 in m && e1.1 in m then
      var a, b := m[e1.0], m[e1.1];
      var r := (a == e2.0 && b == e2.1) || (a == e2.1 && b == e2.0);
      UnorderedPair(a, b, e2.0, e2.1);
      r
    else
      false
  }

  /** Two two-element multisets are equal exactly when the pairs agree up to order. */
  lemma UnorderedPair(a: Vertex, b: Vertex, c: Vertex, d: Vertex)
    ensures multiset{a, b} == multiset{c, d} <==> (a == c && b == d) || (a == d && b == c)
  {
    if multiset{a, b} == multiset{c, d} {
      assert a in multiset{c, d};
      if a == c {
        assert multiset{a, b} - multiset{a} == multiset{b};
        assert multiset{c, d} - multiset{c} == multiset{d};
      } else {
        assert a == d;
        assert multiset{a, b} - multiset{a} == multiset{b};
        assert multiset{c, d} - multiset{d} == multiset{c};
      }
    }
  }

  /** Swapping the endpoints of either edge never changes the answer. */
  lemma EdgeOrientationIrrelevant(e1: Edge, e2: Edge, m: Mapping)
    ensures AreEdgesIsomorphic(e1, (e2.1, e2.0), m) == AreEdgesIsomorphic(e1, e2, m)
    ensures AreEdgesIsomorphic((e1.1, e1.0), e2, m) == AreEdgesIsomorphic(e1, e2, m)
  {
  }
}
