# Exact isomorphism test for small undirected multigraphs

This project models the `Graph` class of `graph.py` and proves things about it.
- A graph keeps an ordered list of vertex labels and an ordered list of edges. Each edge is a pair of labels, read as an unordered pair. Parallel edges and self-loops are allowed and kept as given.
- `add_vertex` and `add_edge` are guarded appends.
- `degree` counts the edges that touch a vertex.
- `is_isomorphic` first compares the vertex and edge counts. It then runs a depth-first backtracking search over a partial vertex mapping.

The search accepts when the mapping has as many entries as the first graph has vertex positions, and every edge of the first graph corresponds, as an unordered pair, to some edge of the second.

There are four modules:
- `Edges` (`edges.dfy`): labels, edges, the degree filter and the edge correspondence test.
- `Isomorphism` (`isomorphism.dfy`): what the search decides, stated without the search. `ExistsCompletion(vs1, es1, vs2, es2, m)` holds when some injective extension of `m` has keys among `vs1`, values among `vs2` and exactly `|vs1|` entries, and covers every edge of `es1`. This module also holds the lemmas that link each step of the search to that statement.
- `Graphs` (`graph.dfy`): the `Graph` class. Its fields are `vertices` and `edges`, which the mutators reassign. `IsIsomorphic`, `CheckIsomorphism` and `TryImages` are proved against `ExistsCompletion`. `EdgesCovered` is the base-case scan.
- `Demo` (`demo.dfy`): the two demonstration graphs at the end of `graph.py`, plus a few small concrete scenarios.

The search shares one dictionary across its recursive calls. It inserts a pair before recursing and deletes it when the recursion fails. In the model, that dictionary is a `map` passed in and returned: the insert is `m[v1 := v2]` and the delete is `m - {v1}`. The contract says both halves:
- on failure, the returned map equals the one passed in;
- on success, the returned map is the completion that was found.

The loop over a vertex's candidate images (graph.py:98-105) is a method of its own, `TryImages`. It is mutually recursive with `CheckIsomorphism` and keeps the same order and the same branches.

These behaviours of the code are reproduced on purpose:
- Every unmapped vertex of the first graph is tried in turn, not only the first one. The accept/reject outcome is the same either way. `CheckIsomorphism`'s contract is stated for this search.
- Edge coverage is one-way, with no one-to-one matching of edges. `Isomorphism.OneWayCoverage` gives two graphs with equal vertex and edge counts. The first is accepted against the second, and the second is rejected against the first.
- The constructor does not deduplicate. A vertex list with a repeated label can never reach the full mapping size, so such a graph is never reported isomorphic to anything (`Isomorphism.CompletionNeedsDistinctLabels`). That includes itself.

An isomorphism test is expected to be symmetric and reflexive. This code is neither in general, and the model follows the code:
- Symmetry fails on multigraphs; `OneWayCoverage` is the counterexample.
- Reflexivity holds when the vertex labels are distinct and every edge endpoint is a listed vertex (`Isomorphism.IdentityIsIsomorphic`). Both conditions are also necessary: without distinct labels no completion exists (`Isomorphism.CompletionNeedsDistinctLabels`), and the same holds when some edge endpoint is not listed (`Isomorphism.CompletionNeedsEdgesWithin`).
- Relabelling invariance (`Isomorphism.RelabelingIsIsomorphic`) needs the same two conditions.

## Model

| member | source | states |
|---|---|---|
| `Graphs.Graph.constructor` | graph.py:9-19 | both lists are stored exactly as given, with no deduplication and no endpoint check |
| `Graphs.Graph.AddVertex` | graph.py:21-29 | an absent vertex is appended and a present one leaves the graph unchanged; edges never change; keeps "edges inside vertices" and "no repeated label" |
| `Graphs.Graph.AddEdge` | graph.py:31-40 | the edge is appended exactly when both endpoints are listed, otherwise edges are unchanged; vertices never change; keeps "edges inside vertices"; every vertex's degree grows by one if the edge is appended and touches it, and otherwise stays the same |
| `Graphs.Graph.Degree` | graph.py:42-50 | the degree is at most the number of edges and equals the number of edge positions touching the vertex, so a self-loop counts once |
| `Edges.Incident` | graph.py:50 | the filtered list is no longer than the edge list, and holds only edges of the list that touch the vertex |
| `Edges.IncidentMultiplicity` | graph.py:50 | the filter keeps each touching edge with its full multiplicity and drops every other edge |
| `Edges.IncidentCountsPositions` | graph.py:50 | the length of the filtered list equals the number of positions whose edge touches the vertex |
| `Edges.IncidentAppend` | graph.py:40-50 | appending an edge adds one to the degree of each of its endpoints and nothing to any other vertex; a self-loop adds one |
| `Edges.AreEdgesIsomorphic` | graph.py:108-132 | true exactly when both endpoints of the first edge are mapped and their images equal the second edge's endpoints as an unordered pair (a two-element multiset) |
| `Edges.EdgeOrientationIrrelevant` | graph.py:127-128 | reversing either edge never changes the answer |
| `Graphs.Graph.IsIsomorphic` | graph.py:52-65 | false whenever the vertex counts or edge counts differ; otherwise true exactly when the empty mapping has an accepted completion |
| `Graphs.Graph.CheckIsomorphism` | graph.py:67-106 | for an injective partial mapping from this graph's vertices to the other's: returns true exactly when the mapping has an accepted completion; on true, hands back such a completion; on false, hands back the mapping unchanged; terminates with measure (distinct labels minus mapping size) |
| `Graphs.Graph.TryImages` | graph.py:98-105 | for an unmapped vertex, tries each unused image in order, recursing and undoing the pair on failure; same outcome, completion and restoration contract as the search |
| `Graphs.Graph.EdgesCovered` | graph.py:81-93 | true exactly when every edge of this graph corresponds under the mapping to some edge of the other |
| `Isomorphism.LabelsCard` | graph.py:81 | a vertex list has at most as many distinct labels as positions, and as many exactly when no label repeats |
| `Isomorphism.MappingSize` | graph.py:95-101 | a partial mapping never has more entries than the first list has distinct labels, which bounds the search depth |
| `Isomorphism.CompleteAtFullSize` | graph.py:81-93 | at full size, a mapping has a completion exactly when it covers every edge, since the only completion is itself |
| `Isomorphism.TentativePair` | graph.py:100-105 | inserting an unused key with an unused value keeps the mapping injective, with keys and values drawn from the two lists; the mapping grows by one within the bound; deleting the key restores it |
| `Isomorphism.StepSound` | graph.py:101-104 | a completion found after a tentative insert is a completion of the mapping as it was before the insert |
| `Isomorphism.StepComplete` | graph.py:98-106 | if the mapping has a completion, then for any unmapped vertex some unused image leads to a completion, so trying all images decides the case |
| `Isomorphism.SomeVertexUnmapped` | graph.py:95-106 | if a mapping smaller than the vertex list has a completion, some listed vertex is still unmapped |
| `Isomorphism.CompletionNeedsDistinctLabels` | graph.py:18-19 | a completion exists only when the first vertex list has no repeated label |
| `Isomorphism.CompletionNeedsEdgesWithin` | graph.py:81-124 | a completion exists only when every endpoint of every edge of the first graph is a listed vertex, since an edge corresponds only when both endpoints are mapped |
| `Isomorphism.RelabelingIsIsomorphic` | graph.py:81-106 | a graph with distinct labels and edges inside its vertices is accepted against any injective relabelling of itself |
| `Isomorphism.IdentityIsIsomorphic` | graph.py:52-65 | such a graph is accepted against itself |
| `Isomorphism.OneWayCoverage` | graph.py:83-93 | the test is not symmetric: a doubled edge is accepted against an edge plus a self-loop, but not the reverse |
| `Demo.MainScenario` | graph.py:135-139 | the two demonstration multigraphs are reported isomorphic |
| `Demo.SelfLoopScenario` | graph.py:42-50 | one self-loop is accepted against one self-loop, and its vertex has degree 1 |
| `Demo.MutatorScenario` | graph.py:21-40 | after adding A, B, A and the edges (A, B) and (A, C), the vertices are exactly [A, B] and the edges exactly [(A, B)]: the repeated label is stored once and the edge to an unlisted vertex is dropped |
| `Demo.PathVersusTriangle` | graph.py:62-63 | a path and a triangle on three vertices are rejected by the edge count |

## Left out

- Graphs.Graph.CheckIsomorphism: on success it states only that the returned mapping is an accepted completion. It does not say which completion the search order reaches first.
- Graphs.Graph.TryImages: on success it states only that the returned mapping is an accepted completion, for the same reason.
- Constructor defaults and aliasing: a missing or empty list becomes an empty sequence. That sequence is a value, so the constructor does not alias the caller's list the way `vertices or []` does in the source.
- Shared mutable mapping: the dictionary is passed in and returned as a value. Aliasing of that dictionary outside the search is not modelled; the search is its only user.
- Malformed edge tuples: edges are pairs by type, so the failure when an edge of the wrong arity is unpacked does not arise.
- `_are_edges_isomorphic` does not use `self`. It is a module-level function, `Edges.AreEdgesIsomorphic`.
- The console output of the demonstration block is left out. The demonstration graphs appear only as `Demo.MainScenario`.
- Running time and the exponential size of the search are not modelled; only the outcome is.
- main.py is not part of this model. It is the PyQt5 window and its text-field parsing.
