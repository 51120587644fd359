# graphLib in Dafny

A model of graphLib, a small Java library for value-keyed graphs with a hop-count
shortest-path query. The model covers the whole library core:

- `Vertex<T>` (module `Vertices`, `vertex.dfy`): an immutable wrapper around a user value. Its
  equality and hash follow the value.
- `Edge<T>` (module `Edges`, `edge.dfy`): an ordered `(from, to)` pair with `reversed()`.
- `Path<T>` (module `Paths`, `path.dfy`): start and end vertices, an edge sequence and an
  `exist` flag. It supports `extend` with its continuity check, the `noPath` sentinel,
  ordering by length, and equality that ignores `exist`.
- `Graph<T>` (module `Graphs`, `graph.dfy`): a `directed` flag and the adjacency map
  `map<Vertex, map<Vertex, Edge>>`, with `addVertex`, `addEdge` and the shared argument
  check `ensureVertices`.
- `getPath` (module `Search`, `search.dfy`): the priority-first search with unit edge cost.
- `scenarios.dfy` replays scenarios from the library's tests against the model.

Java `null` arguments are `Option` values. Exceptions are `Result.Failure` values of
`Errors.Error`:

- `NullArg(arg)` stands for a NullPointerException.
- `NotFound(arg)` stands for the IllegalArgumentException of an unregistered vertex.
- `WrongEdge` stands for the IllegalArgumentException of a discontinuous `extend`.

The `arg` field names the argument that was rejected. This makes the order of the checks
visible: `from` is checked before `to`, and the null checks come before the registration
checks.

The graph is an immutable value. `AddVertex` and `AddEdge` return the new graph together
with the Java return value. A failed call returns no graph, which models "no state changes
on failure".

`GetPath` requires `Graphs.Valid(g)`, the representation invariant of the adjacency map:

- every row entry `w` of `u`'s row is a registered vertex and holds `Edge(u, w)`;
- in an undirected graph every edge has a partner edge the other way.

`NewDirected`/`NewUndirected` establish it, and `AddVertexPreservesValid` and
`AddEdgePreservesValid` show the two mutators keep it. Every graph a caller can obtain
therefore satisfies it.

The search keeps Java's pending queue as a sequence. `ArgMin` takes *some* shortest entry,
and the neighbour loop picks the next row key arbitrarily (`:|`). So the model fixes no
tie-break between equally short paths. Its contract is `Search.IsSearchResult`:

- if the path exists, its edges form a walk through the adjacency from `from` to `to`
  (`Graphs.IsWalk`), and no walk is shorter;
- otherwise the result equals `noPath(from, to)` and no walk exists.

The "strictly shorter" relaxation branch (Graph.java:94-99, including the
`queue.remove` of the stale entry) is modelled as written. The invariant `Search.Levels`
says that nothing discovered is longer than the current level plus one. From it follows
that the branch's test is never true (`Search.ShorterNeverFound`), so each vertex enters the best-known map once. That
bound gives the termination measure (vertices not yet discovered, then queue length).
The proof that the first path taken out of the queue for the target is shortest is
`Search.FrontierCut`.

## Model

| member | source | states |
|---|---|---|
| Vertices.NewVertex | src/main/java/org/shmaks/graphLib/Vertex.java:17-20 | an absent value fails with the null error; otherwise the vertex wraps exactly the given value |
| Vertices.VertexEqualsIsValueEquality | src/main/java/org/shmaks/graphLib/Vertex.java:22-28 | `equals` holds exactly when the wrapped values are equal, which is structural equality of vertices |
| Vertices.EqualVerticesHashEqually | src/main/java/org/shmaks/graphLib/Vertex.java:30-33 | vertices equal under `equals` have equal hashes, given that the value type's hash agrees with its `equals` (modelled as a function of the value) |
| Edges.NewEdge | src/main/java/org/shmaks/graphLib/Edge.java:19-24 | succeeds exactly when both endpoints are present; an absent `from` is reported before an absent `to`; the edge keeps both endpoints |
| Edges.ReversedSwapsEndpoints | src/main/java/org/shmaks/graphLib/Edge.java:26-28 | the reversed edge runs from the old `to` to the old `from` |
| Edges.ReversedTwice | src/main/java/org/shmaks/graphLib/Edge.java:26-28 | reversing twice yields an edge equal to the original |
| Edges.EdgeEqualsIsPairEquality | src/main/java/org/shmaks/graphLib/Edge.java:35-42 | edges are equal exactly when both `from` and `to` are equal |
| Edges.ReversedEqualIffSelfLoop | src/main/java/org/shmaks/graphLib/Edge.java:26-42 | an edge equals its reversal exactly when it is a self-loop |
| Paths.Construct | src/main/java/org/shmaks/graphLib/Path.java:25-34 | succeeds exactly when `from`, `to` and the edge list are all present, rejecting them in that order; the path keeps every field as given |
| Paths.NewPath | src/main/java/org/shmaks/graphLib/Path.java:21-23 | fails exactly when `from`, `to` or the edge list is absent; otherwise the path keeps all three as given and exists |
| Paths.NoPath | src/main/java/org/shmaks/graphLib/Path.java:73-75 | the sentinel has the given endpoints, no edges and `exist = false` |
| Paths.Extend | src/main/java/org/shmaks/graphLib/Path.java:36-46 | fails with the wrong-edge error exactly when the path is non-empty and its last edge does not end where `e` starts; otherwise keeps `from`, ends at `e.to`, exists, and its edges are the old ones plus `e` (one more) |
| Paths.ExtendKeepsChain | src/main/java/org/shmaks/graphLib/Path.java:36-46 | extending a chained path by an edge leaving its end succeeds and again yields a chain, now to the edge's end |
| Paths.ExtendEmptyIsUnchecked | src/main/java/org/shmaks/graphLib/Path.java:37-39 | on an empty path `extend` accepts any edge, even one not starting at `from`, and the result is then no chain from `from` |
| Paths.Compare | src/main/java/org/shmaks/graphLib/Path.java:48-51 | the sign of `compareTo` is the order of the two edge counts |
| Paths.CompareIsByLengthOnly | src/main/java/org/shmaks/graphLib/Path.java:49-51 | `compareTo` depends on the edge counts alone, not on endpoints or edge contents, and is antisymmetric |
| Paths.PathEqualsIgnoresExist | src/main/java/org/shmaks/graphLib/Path.java:53-61 | path equality compares `from`, `to` and edges and ignores `exist` |
| Paths.NoPathEqualsEmptyPath | src/main/java/org/shmaks/graphLib/Path.java:53-75 | `noPath(v, v)` is equal under `equals` to the existing empty path at `v`, though the two values differ |
| Graphs.PutIfAbsent | src/main/java/org/shmaks/graphLib/Graph.java:47 | `putIfAbsent` adds the key if missing, never overwrites an existing entry, and leaves other entries alone |
| Graphs.NewDirected | src/main/java/org/shmaks/graphLib/Graph.java:23-25 | a new directed graph is empty and valid |
| Graphs.NewUndirected | src/main/java/org/shmaks/graphLib/Graph.java:30-32 | a new undirected graph is empty and valid |
| Graphs.EnsureVertices | src/main/java/org/shmaks/graphLib/Graph.java:107-112 | passes exactly when both vertices are present and registered; any absent vertex gives the null error, which precedes registration errors; the error names `from` when `from` is the first failing check; each of the four failing checks gives its own error (absent `from`, absent `to`, unregistered `from`, unregistered `to`) |
| Graphs.AddVertex | src/main/java/org/shmaks/graphLib/Graph.java:44-50 | an absent value fails; otherwise returns the vertex of the value; a registered value leaves the graph unchanged; a new one adds exactly one key with an empty row and keeps every other row |
| Graphs.AddVertexIdempotent | src/main/java/org/shmaks/graphLib/Graph.java:44-50 | adding the same value twice leaves the graph as after the first call and returns an equal vertex |
| Graphs.AddVertexPreservesValid | src/main/java/org/shmaks/graphLib/Graph.java:44-50 | adding a vertex keeps the adjacency invariant |
| Graphs.AddEdge | src/main/java/org/shmaks/graphLib/Graph.java:57-71 | fails exactly as the argument check does; otherwise returns `from -> to`, keeps the vertex set, adds `to` to `from`'s row without overwriting, and touches no other row, except that an undirected graph also adds `from` to `to`'s row (the reversed edge if absent) |
| Graphs.AddEdgeIdempotent | src/main/java/org/shmaks/graphLib/Graph.java:57-71 | adding the same edge twice leaves the graph as after the first call and returns an equal edge |
| Graphs.AddEdgePreservesValid | src/main/java/org/shmaks/graphLib/Graph.java:57-71 | adding an edge keeps the adjacency invariant, including symmetry for undirected graphs |
| Graphs.AddEdgeRecordsEdge | src/main/java/org/shmaks/graphLib/Graph.java:60-70 | afterwards the returned edge is stored, and in an undirected graph so is its reversal |
| Graphs.WalkIsChainOfEdges | src/main/java/org/shmaks/graphLib/Path.java:36-46 | a walk through the adjacency is exactly a chain of edges (the shape `extend` maintains) all recorded in the graph |
| Graphs.ExtendKeepsWalk | src/main/java/org/shmaks/graphLib/Graph.java:91-92 | extending a walk's path by a recorded edge leaving its end succeeds and gives a walk to the edge's end |
| Search.ArgMin | src/main/java/org/shmaks/graphLib/Graph.java:87 | `poll` takes an entry of the queue no longer than any other |
| Search.RemoveFirst | src/main/java/org/shmaks/graphLib/Graph.java:97-99 | `queue.remove`: when some entry equals the stale path, exactly the first such entry is cut out of the queue; otherwise the queue is unchanged |
| Search.FrontierCut | src/main/java/org/shmaks/graphLib/Graph.java:86-90 | every walk from the source either meets a queued path no longer than it, or ends at an expanded vertex whose best path is no longer |
| Search.ShorterNeverFound | src/main/java/org/shmaks/graphLib/Graph.java:92-94 | for a vertex already discovered, the path extended by the edge is never strictly shorter than the recorded one, so the test at line 94 is false |
| Search.Relax | src/main/java/org/shmaks/graphLib/Graph.java:91-101 | relaxing one edge keeps the search invariant and leaves the edge's end discovered; the improvement branch adds nothing new |
| Search.ExpandEach | src/main/java/org/shmaks/graphLib/Graph.java:91-101 | relaxing a set of a row's edges discovers all their ends; the queue grows by exactly the number of new discoveries |
| Search.Expand | src/main/java/org/shmaks/graphLib/Graph.java:91-101 | after a vertex's row is relaxed the vertex is expanded and the search invariant holds again |
| Search.Search | src/main/java/org/shmaks/graphLib/Graph.java:82-104 | the result runs from `from` to `to`; it exists exactly when `to` is reachable, and is then a shortest walk; otherwise it is `noPath(from, to)` |
| Search.GetPath | src/main/java/org/shmaks/graphLib/Graph.java:79-105 | fails exactly as the argument check does; otherwise the result is as for `Search`; a query from a vertex to itself gives the existing empty path |
| Scenarios.UndirectedEdgeScenario | src/test/java/org/shmaks/graphLib/GraphTest.java:60-73 | an undirected 5-7 edge leaves exactly the two rows holding the edge and its reversal |
| Scenarios.DuplicateVertexScenario | src/test/java/org/shmaks/graphLib/GraphTest.java:76-91 | re-adding a value leaves the adjacency as it was and returns an equal vertex |
| Scenarios.CheckInputScenario | src/test/java/org/shmaks/graphLib/GraphTest.java:238-256 | absent arguments give the null error and an unregistered vertex the not-found error |
| Scenarios.OneEdgeGraphIsBuilt | src/test/java/org/shmaks/graphLib/GraphTest.java:143-148 | adding 5, then 7, then the edge 5 -> 7 to an empty directed graph gives the one-edge graph the search scenario uses |
| Scenarios.NeighborsScenario | src/test/java/org/shmaks/graphLib/GraphTest.java:141-157 | with one directed edge the search returns exactly that edge one way and `noPath` the other way |

## Left out

- Serialization (`Serializable`, `serialVersionUID`) and every `toString`: output plumbing with no behaviour.
- Vertices.EqualVerticesHashEqually: assumes that the value type honours the documented requirement of a meaningful `equals` and `hashCode` (Vertex.java:7, Graph.java:10). The model takes the value's `equals` to be Dafny equality and its hash to be a function of the value, so a value type whose `hashCode` disagrees with its `equals` is not modelled.
- Concrete `hashCode` values: `VertexHash` takes the value type's hash as a parameter, because only its consistency with `equals` matters.
- `HashMap` and `PriorityQueue` internals (bucket and heap layout, iteration order): modelled as Dafny maps, a sequence queue and nondeterministic choice.
- `Edge.compareTo`, which always returns 0: it is never used by the search.
- The `int` arithmetic of `Path.compareTo`: it subtracts two list sizes, which lie between 0 and `Integer.MAX_VALUE`, so the difference cannot overflow and `Paths.Compare` on unbounded integers gives the same sign.
- `equals` against `null` or against objects of another class: the model is typed, so such comparisons cannot be written.
- A `null` edge passed to `Path.extend`: the method is package-private and only the search calls it, always with an edge taken from an adjacency row.
- Thread safety: the library has no synchronization, and the model is sequential.
- The shortest-path test on the 10-vertex chain and the undirected 1-2-3-{5,7} graph are not replayed. `Search`'s contract determines their lengths, but proving that no shorter walk exists in those concrete graphs was not attempted.
