/**
 * The undirected multigraph: an ordered vertex list and an ordered edge
 * list, two guarded mutators that append in place, the degree query, and
 * the exact isomorphism test by backtracking over a partial vertex mapping.
 */
module Graphs {
  import opened Edges
  import opened Isomorphism

  class Graph {
    var vertices: seq<Vertex>
    var edges: seq<Edge>

    /** Stores both lists as given: no deduplication, no check of edge endpoints. */
    constructor (vertices: seq<Vertex>, edges: seq<Edge>)
      ensures this.vertices == vertices && this.edges == edges
    {
      this.vertices := vertices;
      this.edges := edges;
    }

    /** Appends v unless it is already listed; the edges never change. */
    method AddVertex(v: Vertex)
      modifies this
      ensures vertices == if v in old(vertices) then old(vertices) else old(vertices) + [v]
      ensures edges == old(edges)
      ensures old(EdgesWithin(vertices, edges)) ==> EdgesWithin(vertices, edges)
      ensures NoDup(old(vertices)) ==> NoDup(vertices)
    {
      if v !in vertices {
        vertices := vertices + [v];
      }
    }

    /**
     * Appends e exactly when both of its endpoints are listed vertices, and
     * otherwise does nothing; the vertices never change.
     */
    method AddEdge(e: Edge)
      modifies this
      ensures vertices == old(vertices)
      ensures edges == if e.0 in old(vertices) && e.1 in old(vertices) then old(edges) + [e] else old(edges)
      ensures old(EdgesWithin(vertices, edges)) ==> EdgesWithin(vertices, edges)
      ensures forall v :: Degree(v) ==
                old(Degree(v)) + (if e.0 in vertices && e.1 in vertices && Touches(e, v) then 1 else 0)
    {
      var (vertex1, vertex2) := e;
      if vertex1 in vertices && vertex2 in vertices {
        forall v ensures |Incident(edges + [e], v)| == |Incident(edges, v)| + (if Touches(e, v) then 1 else 0) {
          IncidentAppend(edges, e, v);
        }
        edges := edges + [e];
      }
    }

    /**
     * The number of edges that have v as an endpoint: the number of
     * positions of the edge list whose edge touches v, so a self-loop
     * (v, v) counts once.
     */
    function Degree(v: Vertex): (d: nat)
      reads this
      ensures d <= |edges|
      ensures d == |IncidentIndices(edges, v)|
    {
      IncidentCountsPositions(edges, v);
      |Incident(edges, v)|
    }

    /**
     * Rejects at once when the vertex counts or the edge counts differ;
     * otherwise searches from the empty mapping.
     */
    method IsIsomorphic(other: Graph) returns (b: bool)
      ensures b <==> |vertices| == |other.vertices| && |edges| == |other.edges| &&
                     ExistsCompletion(vertices, edges, other.vertices, other.edges, map[])
    {
      if |vertices| != |other.vertices| || |edges| != |other.edges| {
        return false;
      }
      var mapping;
      b, mapping := CheckIsomorphism(other, map[]);
    }

    /**
     * The backtracking search. The dictionary the search shares between its
     * recursive calls is passed in as mapping and handed back as result:
     * on success result is the accepted completion, on failure it equals
     * mapping again, every tentative pair having been removed.
     */
    method CheckIsomorphism(other: Graph, mapping: Mapping) returns (found: bool, result: Mapping)
      requires PartialIso(vertices, other.vertices, mapping)
      ensures found <==> ExistsCompletion(vertices, edges, other.vertices, other.edges, mapping)
      ensures found ==> IsCompletion(vertices, edges, other.vertices, other.edges, mapping, result)
      ensures !found ==> result == mapping
      decreases |Labels(vertices)| - |mapping|, 1
    {
      var vs1, es1, vs2, es2 := vertices, edges, other.vertices, other.edges;
      assert |mapping| <= |vs1| by {
        MappingSize(vs1, vs2, mapping);
      }
      if |mapping| == |vs1| {
        found := EdgesCovered(other, mapping);
        CompleteAtFullSize(vs1, es1, vs2, es2, mapping);
        result := mapping;
        return;
      }
      result := mapping;
      // Every unmapped vertex of this graph is tried in turn, not only the first.
      for i := 0 to |vs1|
        invariant result == mapping
        invariant !ExistsCompletion(vs1, es1, vs2, es2, mapping) ||
                  forall i' :: 0 <= i' < i ==> vs1[i'] in mapping
      {
        var vertex1 := vs1[i];
        if vertex1 !in result {
          found, result := TryImages(other, result, vertex1);
          if found {
            return;
          }
        }
      }
      SomeVertexUnmapped(vs1, es1, vs2, es2, mapping);
      found := false;
    }

    /**
     * The inner loop of the search for one unmapped vertex1: tentatively map
     * it to each still unused vertex of other in turn, recurse, and delete
     * the pair again when the recursion fails.
     */
    method TryImages(other: Graph, mapping: Mapping, vertex1: Vertex) returns (found: bool, result: Mapping)
      requires PartialIso(vertices, other.vertices, mapping)
      requires vertex1 in vertices && vertex1 !in mapping
      ensures found <==> ExistsCompletion(vertices, edges, other.vertices, other.edges, mapping)
      ensures found ==> IsCompletion(vertices, edges, other.vertices, other.edges, mapping, result)
      ensures !found ==> result == mapping
      decreases |Labels(vertices)| - |mapping|, 0
    {
      var vs1, es1, vs2, es2 := vertices, edges, other.vertices, other.edges;
      result := mapping;
      for j := 0 to |vs2|
        invariant result == mapping
        invariant forall j' :: 0 <= j' < j && vs2[j'] !in mapping.Values ==>
                    !ExistsCompletion(vs1, es1, vs2, es2, mapping[vertex1 := vs2[j']])
      {
        var vertex2 := vs2[j];
        if vertex2 !in result.Values {
          TentativePair(vs1, vs2, mapping, vertex1, vertex2);
          result := result[vertex1 := vertex2];
          found, result := CheckIsomorphism(other, result);
          if found {
            StepSound(vs1, es1, vs2, es2, mapping, vertex1, vertex2, result);
            return;
          }
          result := result - {vertex1};
        }
      }
      StepComplete(vs1, es1, vs2, es2, mapping, vertex1);
      found := false;
    }

    /**
     * The base case of the search: for each edge of this graph, scan the
     * edges of other until one corresponds under mapping; fail on the
     * first edge that has none.
     */
    method EdgesCovered(other: Graph, mapping: Mapping) returns (ok: bool)
      ensures ok <==> Covered(edges, other.edges, mapping)
    {
      for i := 0 to |edges|
        invariant forall i' :: 0 <= i' < i ==> MatchedBySome(edges[i'], other.edges, mapping)
      {
        var foundMatchingEdge := false;
        for j := 0 to |other.edges|
          invariant !foundMatchingEdge
          invariant forall j' :: 0 <= j' < j ==> !AreEdgesIsomorphic(edges[i], other.edges[j'], mapping)
        {
          if AreEdgesIsomorphic(edges[i], other.edges[j], mapping) {
            foundMatchingEdge := true;
            break;
          }
        }
        if !foundMatchingEdge {
          return false;
        }
      }
      return true;
    }
  }
}
