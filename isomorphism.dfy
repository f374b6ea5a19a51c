/**
 * What the backtracking isomorphism search decides, stated without the
 * search: a partial vertex mapping can be completed when some injective
 * extension of it maps as many vertices as the first graph lists and makes
 * every edge of the first graph correspond to some edge of the second.
 * The lemmas here are the steps that connect the search to that statement.
 */
module Isomorphism {
  import opened Edges

  /** The distinct labels of a vertex list. */
  function Labels(vs: seq<Vertex>): set<Vertex>
  {
    set v | v in vs
  }

  /** No label occurs twice in the list. */
  predicate NoDup(vs: seq<Vertex>)
  {
    forall i, j :: 0 <= i < j < |vs| ==> vs[i] != vs[j]
  }

  /** Every endpoint of every edge is a listed vertex. */
  predicate EdgesWithin(vs: seq<Vertex>, es: seq<Edge>)
  {
    forall e :: e in es ==> e.0 in vs && e.1 in vs
  }

  /** A list has at most as many distinct labels as entries, and as many exactly when no label repeats. */
  lemma {:induction false} LabelsCard(vs: seq<Vertex>)
    ensures |Labels(vs)| <= |vs|
    ensures |Labels(vs)| == |vs| <==> NoDup(vs)
  {
    if vs != [] {
      var n := |vs| - 1;
      var init := vs[..n];
      LabelsCard(init);
      assert Labels(vs) == Labels(init) + {vs[n]};
      if vs[n] in init {
        var i :| 0 <= i < n && init[i] == vs[n];
        assert vs[i] == vs[n];
        assert Labels(vs) == Labels(init);
      } else {
        assert NoDup(vs) == NoDup(init);
      }
    }
  }

  lemma SubsetCard<T>(a: set<T>, b: set<T>)
    requires a <= b
    ensures |a| <= |b|
    ensures |a| == |b| ==> a == b
    ensures |a| < |b| ==> exists x :: x in b && x !in a
  {
    var d := b - a;
    assert b == a + d;
    assert |b| == |a| + |d|;
  }

  /**
   * The mapping the search keeps: keys are vertices of the first graph,
   * values vertices of the second, and no value is used twice.
   */
  predicate PartialIso(vs1: seq<Vertex>, vs2: seq<Vertex>, m: Mapping)
  {
    && (forall k :: k in m ==> k in vs1 && m[k] in vs2)
    && (forall k, k' :: k in m && k' in m && k != k' ==> m[k] != m[k'])
  }

  /** m' agrees with m on every key of m. */
  predicate Extends(m: Mapping, m': Mapping)
  {
    forall k :: k in m ==> k in m' && m'[k] == m[k]
  }

  /** Some edge of es2 corresponds to e1 under m. */
  predicate MatchedBySome(e1: Edge, es2: seq<Edge>, m: Mapping)
  {
    exists j :: 0 <= j < |es2| && AreEdgesIsomorphic(e1, es2[j], m)
  }

  /** Every edge of es1 corresponds to some edge of es2 (not necessarily a distinct one). */
  predicate Covered(es1: seq<Edge>, es2: seq<Edge>, m: Mapping)
  {
    forall i :: 0 <= i < |es1| ==> MatchedBySome(es1[i], es2, m)
  }

  /**
   * m' is an accepted completion of m: an injective extension of m that
   * has as many entries as vs1 has positions and covers every edge of es1.
   */
  ghost predicate IsCompletion(vs1: seq<Vertex>, es1: seq<Edge>, vs2: seq<Vertex>, es2: seq<Edge>,
                               m: Mapping, m': Mapping)
  {
    Extends(m, m') && PartialIso(vs1, vs2, m') && |m'| == |vs1| && Covered(es1, es2, m')
  }

  ghost predicate ExistsCompletion(vs1: seq<Vertex>, es1: seq<Edge>, vs2: seq<Vertex>, es2: seq<Edge>,
                                   m: Mapping)
  {
    exists m' :: IsCompletion(vs1, es1, vs2, es2, m, m')
  }

  /** A partial mapping never has more entries than vs1 has distinct labels. */
  lemma MappingSize(vs1: seq<Vertex>, vs2: seq<Vertex>, m: Mapping)
    requires PartialIso(vs1, vs2, m)
    ensures |m| <= |Labels(vs1)| <= |vs1|
  {
    assert m.Keys <= Labels(vs1);
    SubsetCard(m.Keys, Labels(vs1));
    LabelsCard(vs1);
  }

  /** Base case: a mapping of full size completes exactly when it covers every edge. */
  lemma CompleteAtFullSize(vs1: seq<Vertex>, es1: seq<Edge>, vs2: seq<Vertex>, es2: seq<Edge>, m: Mapping)
    requires PartialIso(vs1, vs2, m) && |m| == |vs1|
    ensures ExistsCompletion(vs1, es1, vs2, es2, m) <==> Covered(es1, es2, m)
  {
    if ExistsCompletion(vs1, es1, vs2, es2, m) {
      var m' :| IsCompletion(vs1, es1, vs2, es2, m, m');
      assert m.Keys <= m'.Keys;
      SubsetCard(m.Keys, m'.Keys);
      assert m' == m;
    }
    if Covered(es1, es2, m) {
      assert IsCompletion(vs1, es1, vs2, es2, m, m);
    }
  }

  /**
   * A tentative pair: both its key and its value unused. Adding it keeps a
   * partial isomorphism, grows the mapping by one entry within the bound,
   * and deleting the key again gives back the mapping as it was.
   */
  lemma TentativePair(vs1: seq<Vertex>, vs2: seq<Vertex>, m: Mapping, v1: Vertex, v2: Vertex)
    requires PartialIso(vs1, vs2, m)
    requires v1 in vs1 && v1 !in m && v2 in vs2 && v2 !in m.Values
    ensures PartialIso(vs1, vs2, m[v1 := v2])
    ensures |m| < |m[v1 := v2]| <= |Labels(vs1)|
    ensures m[v1 := v2] - {v1} == m
  {
    var m1 := m[v1 := v2];
    forall k, k' | k in m1 && k' in m1 && k != k'
      ensures m1[k] != m1[k']
    {
      if k == v1 {
        assert m[k'] in m.Values;
      } else if k' == v1 {
        assert m[k] in m.Values;
      }
    }
    MappingSize(vs1, vs2, m1);
    RemoveUndoesInsert(m, v1, v2);
  }

  /** Deleting a key that was just inserted gives back the mapping as it was before the insertion. */
  lemma RemoveUndoesInsert(m: Mapping, k: Vertex, v: Vertex)
    requires k !in m
    ensures m[k := v] - {k} == m
  {
    assert (m[k := v] - {k}).Keys == m.Keys;
  }

  /** A completion of m extended by a fresh pair is a completion of m. */
  lemma StepSound(vs1: seq<Vertex>, es1: seq<Edge>, vs2: seq<Vertex>, es2: seq<Edge>,
                  m: Mapping, v1: Vertex, v2: Vertex, m': Mapping)
    requires v1 !in m
    requires IsCompletion(vs1, es1, vs2, es2, m[v1 := v2], m')
    ensures IsCompletion(vs1, es1, vs2, es2, m, m')
  {
  }

  /**
   * Recursive case, for any unmapped v1: if m can be completed at all, then
   * mapping v1 to some still unused vertex of vs2 can be completed too.
   */
  lemma StepComplete(vs1: seq<Vertex>, es1: seq<Edge>, vs2: seq<Vertex>, es2: seq<Edge>,
                     m: Mapping, v1: Vertex)
    requires PartialIso(vs1, vs2, m) && v1 in vs1 && v1 !in m
    ensures ExistsCompletion(vs1, es1, vs2, es2, m) ==>
              exists j :: 0 <= j < |vs2| && vs2[j] !in m.Values &&
                          ExistsCompletion(vs1, es1, vs2, es2, m[v1 := vs2[j]])
  {
    if ExistsCompletion(vs1, es1, vs2, es2, m) {
      var m' :| IsCompletion(vs1, es1, vs2, es2, m, m');
      MappingSize(vs1, vs2, m');
      assert m'.Keys <= Labels(vs1);
      SubsetCard(m'.Keys, Labels(vs1));
      assert v1 in m';
      var v2 := m'[v1];
      var j :| 0 <= j < |vs2| && vs2[j] == v2;
      assert v2 !in m.Values by {
        forall k | k in m ensures m[k] != v2 {
          assert m'[k] == m[k];
        }
      }
      assert IsCompletion(vs1, es1, vs2, es2, m[v1 := v2], m');
    }
  }

  /**
   * Recursive case, when no vertex of vs1 is left unmapped although m is
   * still smaller than vs1 (vs1 lists a label twice): m cannot be completed.
   */
  lemma SomeVertexUnmapped(vs1: seq<Vertex>, es1: seq<Edge>, vs2: seq<Vertex>, es2: seq<Edge>, m: Mapping)
    requires PartialIso(vs1, vs2, m) && |m| < |vs1|
    ensures ExistsCompletion(vs1, es1, vs2, es2, m) ==> exists i :: 0 <= i < |vs1| && vs1[i] !in m
  {
    if ExistsCompletion(vs1, es1, vs2, es2, m) {
      var m' :| IsCompletion(vs1, es1, vs2, es2, m, m');
      MappingSize(vs1, vs2, m');
      assert m.Keys <= m'.Keys;
      SubsetCard(m.Keys, m'.Keys);
      var v :| v in m'.Keys && v !in m.Keys;
      var i :| 0 <= i < |vs1| && vs1[i] == v;
    }
  }

  /**
   * A vertex list with a repeated label can never be completed: the search
   * needs as many distinct keys as the list has positions.
   */
  lemma CompletionNeedsDistinctLabels(vs1: seq<Vertex>, es1: seq<Edge>, vs2: seq<Vertex>, es2: seq<Edge>,
                                      m: Mapping)
    ensures ExistsCompletion(vs1, es1, vs2, es2, m) ==> NoDup(vs1)
  {
    if ExistsCompletion(vs1, es1, vs2, es2, m) {
      var m' :| IsCompletion(vs1, es1, vs2, es2, m, m');
      MappingSize(vs1, vs2, m');
      LabelsCard(vs1);
    }
  }

  /**
   * A completion exists only when every endpoint of every edge of es1 is a
   * listed vertex: an edge is matched only when both endpoints are mapped,
   * and only listed vertices are ever mapped.
   */
  lemma CompletionNeedsEdgesWithin(vs1: seq<Vertex>, es1: seq<Edge>, vs2: seq<Vertex>, es2: seq<Edge>,
                                   m: Mapping)
    ensures ExistsCompletion(vs1, es1, vs2, es2, m) ==> EdgesWithin(vs1, es1)
  {
    if ExistsCompletion(vs1, es1, vs2, es2, m) {
      var m' :| IsCompletion(vs1, es1, vs2, es2, m, m');
      forall e | e in es1
        ensures e.0 in vs1 && e.1 in vs1
      {
        var i :| 0 <= i < |es1| && es1[i] == e;
        assert MatchedBySome(es1[i], es2, m');
      }
    }
  }

  /** The images of vs under f, position by position. */
  function RelabelVertices(vs: seq<Vertex>, f: Vertex -> Vertex): seq<Vertex>
  {
    seq(|vs|, i requires 0 <= i < |vs| => f(vs[i]))
  }

  /** The images of es under f, endpoint by endpoint. */
  function RelabelEdges(es: seq<Edge>, f: Vertex -> Vertex): seq<Edge>
  {
    seq(|es|, i requires 0 <= i < |es| => (f(es[i].0), f(es[i].1)))
  }

  /** f sends distinct labels of vs to distinct labels. */
  predicate InjectiveOn(vs: seq<Vertex>, f: Vertex -> Vertex)
  {
    forall i, j :: 0 <= i < |vs| && 0 <= j < |vs| && f(vs[i]) == f(vs[j]) ==> vs[i] == vs[j]
  }

  /**
   * Relabelling invariance: a graph with distinct vertex labels and edges
   * inside its vertex list is accepted against any injective relabelling of
   * itself, with the relabelling as the completed mapping.
   */
  lemma RelabelingIsIsomorphic(vs: seq<Vertex>, es: seq<Edge>, f: Vertex -> Vertex)
    requires NoDup(vs) && EdgesWithin(vs, es) && InjectiveOn(vs, f)
    ensures |RelabelVertices(vs, f)| == |vs| && |RelabelEdges(es, f)| == |es|
    ensures ExistsCompletion(vs, es, RelabelVertices(vs, f), RelabelEdges(es, f), map[])
  {
    var vs2, es2 := RelabelVertices(vs, f), RelabelEdges(es, f);
    var m := map v | v in vs :: f(v);
    assert m.Keys == Labels(vs);
    LabelsCard(vs);
    forall k | k in m
      ensures k in vs && m[k] in vs2
    {
      var i :| 0 <= i < |vs| && vs[i] == k;
      assert vs2[i] == f(k);
    }
    forall k, k' | k in m && k' in m && k != k'
      ensures m[k] != m[k']
    {
      var i :| 0 <= i < |vs| && vs[i] == k;
      var j :| 0 <= j < |vs| && vs[j] == k';
    }
    forall i | 0 <= i < |es|
      ensures MatchedBySome(es[i], es2, m)
    {
      assert es[i] in es;
      assert AreEdgesIsomorphic(es[i], es2[i], m);
    }
    assert IsCompletion(vs, es, vs2, es2, map[], m);
  }

  /** Reflexivity, as the identity relabelling. */
  lemma IdentityIsIsomorphic(vs: seq<Vertex>, es: seq<Edge>)
    requires NoDup(vs) && EdgesWithin(vs, es)
    ensures ExistsCompletion(vs, es, vs, es, map[])
  {
    var id := (v: Vertex) => v;
    RelabelingIsIsomorphic(vs, es, id);
    assert RelabelVertices(vs, id) == vs;
    assert RelabelEdges(es, id) == es;
  }

  /**
   * Edge coverage is checked in one direction only, with no one-to-one
   * matching of edges. Two graphs with equal vertex and edge counts: the
   * first (a doubled edge between A and B) is accepted against the second
   * (an edge between X and Y plus a self-loop on X), while the second is
   * rejected against the first, since no edge of the first is a self-loop.
   */
  lemma OneWayCoverage()
    ensures ExistsCompletion(["A", "B"], [("A", "B"), ("A", "B")], ["X", "Y"], [("X", "Y"), ("X", "X")], map[])
    ensures !ExistsCompletion(["X", "Y"], [("X", "Y"), ("X", "X")], ["A", "B"], [("A", "B"), ("A", "B")], map[])
  {
    var vsA: seq<Vertex>, esA: seq<Edge> := ["A", "B"], [("A", "B"), ("A", "B")];
    var vsB: seq<Vertex>, esB: seq<Edge> := ["X", "Y"], [("X", "Y"), ("X", "X")];
    var m := map["A" := "X", "B" := "Y"];
    assert PartialIso(vsA, vsB, m) by {
      assert m.Keys == {"A", "B"};
    }
    assert |m| == 2;
    assert Covered(esA, esB, m) by {
      assert AreEdgesIsomorphic(("A", "B"), esB[0], m);
    }
    assert IsCompletion(vsA, esA, vsB, esB, map[], m);
    assert !ExistsCompletion(vsB, esB, vsA, esA, map[]) by {
      forall m': Mapping
        ensures !Covered(esB, esA, m')
      {
        NoSelfLoopMatch("X", esA, m');
        assert esB[1] == ("X", "X");
      }
    }
  }

  /** A self-loop only corresponds to a self-loop. */
  lemma NoSelfLoopMatch(x: Vertex, es2: seq<Edge>, m: Mapping)
    requires forall j :: 0 <= j < |es2| ==> es2[j].0 != es2[j].1
    ensures !MatchedBySome((x, x), es2, m)
  {
  }
}
