/**
 * The demonstration at the end of graph.py, and a few small scenarios that
 * pin down the behaviour of the mutators, the degree and the cardinality
 * test on concrete graphs.
 */
module Demo {
  import opened Edges
  import opened Isomorphism
  import opened Graphs

  /** The relabelling that turns the first demo graph into the second. */
  function Rename(v: Vertex): Vertex
  {
    if v == "A" then "X" else if v == "B" then "Y" else if v == "C" then "Z" else v
  }

  const DemoVertices1: seq<Vertex> := ["A", "B", "C"]
  const DemoEdges1: seq<Edge> := [("A", "B"), ("B", "B"), ("B", "C"), ("C", "A"), ("A", "A"), ("A", "B"), ("B", "B")]
  const DemoVertices2: seq<Vertex> := ["X", "Y", "Z"]
  const DemoEdges2: seq<Edge> := [("X", "Y"), ("Y", "Y"), ("Y", "Z"), ("Z", "X"), ("X", "X"), ("X", "Y"), ("Y", "Y")]

  /** Rename on the three demo labels, and the labels on both sides are pairwise distinct. */
  lemma RenameOnDemoLabels()
    ensures Rename("A") == "X" && Rename("B") == "Y" && Rename("C") == "Z"
    ensures "A" != "B" && "B" != "C" && "A" != "C"
    ensures "X" != "Y" && "Y" != "Z" && "X" != "Z"
  {
  }

  /** The first demo graph lists distinct vertices, its edges stay inside them, and Rename is injective on them. */
  lemma DemoIsWellFormed()
    ensures NoDup(DemoVertices1) && EdgesWithin(DemoVertices1, DemoEdges1) && InjectiveOn(DemoVertices1, Rename)
  {
    RenameOnDemoLabels();
    var vs := DemoVertices1;
    assert vs[0] == "A" && vs[1] == "B" && vs[2] == "C";
    assert Labels(vs) == {"A", "B", "C"};
    forall e | e in DemoEdges1
      ensures e.0 in vs && e.1 in vs
    {
      assert e.0 in Labels(vs) && e.1 in Labels(vs);
    }
  }

  /** The second demo graph is the first one relabelled by Rename, vertex by vertex and edge by edge. */
  lemma DemoIsRelabeling()
    ensures RelabelVertices(DemoVertices1, Rename) == DemoVertices2
    ensures RelabelEdges(DemoEdges1, Rename) == DemoEdges2
  {
    RenameOnDemoLabels();
    var r := RelabelEdges(DemoEdges1, Rename);
    forall i | 0 <= i < |DemoEdges1|
      ensures r[i] == DemoEdges2[i]
    {
      assert DemoEdges1[i].0 in {"A", "B", "C"} && DemoEdges1[i].1 in {"A", "B", "C"};
    }
  }

  /**
   * The two demo multigraphs (three vertices, seven edges with parallel
   * edges and self-loops) differ only by the relabelling A->X, B->Y, C->Z,
   * and the test reports them isomorphic.
   */
  method MainScenario() returns (isomorphic: bool)
    ensures isomorphic
  {
    var graph1 := new Graph(DemoVertices1, DemoEdges1);
    var graph2 := new Graph(DemoVertices2, DemoEdges2);
    DemoIsWellFormed();
    DemoIsRelabeling();
    RelabelingIsIsomorphic(DemoVertices1, DemoEdges1, Rename);
    isomorphic := graph1.IsIsomorphic(graph2);
  }

  /**
   * A single self-loop against a single self-loop is accepted, and the
   * loop adds one to the degree of its vertex, not two.
   */
  method SelfLoopScenario() returns (isomorphic: bool, degree: nat)
    ensures isomorphic && degree == 1
  {
    var loop: seq<Edge> := [("A", "A")];
    var g1 := new Graph(["A"], loop);
    var g2 := new Graph(["X"], [("X", "X")]);
    RenameOnDemoLabels();
    RelabelingIsIsomorphic(["A"], loop, Rename);
    assert RelabelVertices(["A"], Rename) == ["X"];
    assert RelabelEdges(loop, Rename) == [("X", "X")];
    isomorphic := g1.IsIsomorphic(g2);
    degree := g1.Degree("A");
    assert loop[..0] == [];
    assert Incident(loop, "A") == loop;
  }

  /**
   * Building a graph through the mutators: a repeated vertex is not added
   * twice, and an edge to a vertex that is not listed is dropped silently.
   */
  method MutatorScenario() returns (vs: seq<Vertex>, es: seq<Edge>)
    ensures vs == ["A", "B"] && es == [("A", "B")]
  {
    var g := new Graph([], []);
    g.AddVertex("A");
    g.AddVertex("B");
    g.AddVertex("A");
    g.AddEdge(("A", "B"));
    g.AddEdge(("A", "C"));
    vs, es := g.vertices, g.edges;
  }

  /**
   * A path and a triangle on three vertices are rejected by the edge count,
   * before any mapping is tried.
   */
  method PathVersusTriangle() returns (isomorphic: bool)
    ensures !isomorphic
  {
    var path := new Graph(["A", "B", "C"], [("A", "B"), ("B", "C")]);
    var triangle := new Graph(["X", "Y", "Z"], [("X", "Y"), ("Y", "Z"), ("Z", "X")]);
    isomorphic := path.IsIsomorphic(triangle);
  }
}
