/** Concrete graphs from the library's own test scenarios, checked against the model. */
module Scenarios {
  import opened Wrappers
  import opened Errors
  import opened Vertices
  import opened Edges
  import opened Paths
  import opened Graphs
  import opened Search

  /** An undirected edge between 5 and 7 is recorded both ways, the back edge being its reversal. */
  lemma UndirectedEdgeScenario()
    ensures var (g1, v5) := AddVertex(NewUndirected<int>(), Some(5)).value;
            var (g2, v7) := AddVertex(g1, Some(7)).value;
            var (g3, e) := AddEdge(g2, Some(v5), Some(v7)).value;
            g3.adj == map[v5 := map[v7 := e], v7 := map[v5 := Reversed(e)]]
  {
  }

  /** Re-adding the value 5 after linking 5 -> 6 leaves the adjacency as it was. */
  lemma DuplicateVertexScenario()
    ensures var (g1, v1) := AddVertex(NewDirected<int>(), Some(5)).value;
            var (g2, v2) := AddVertex(g1, Some(6)).value;
            var (g3, _) := AddEdge(g2, Some(v1), Some(v2)).value;
            AddVertex(g3, Some(5)) == Success((g3, v1))
  {
  }

  /** Absent arguments fail with the null error, an unregistered vertex with the not-found error. */
  lemma CheckInputScenario()
    ensures var (g1, v1) := AddVertex(NewDirected<int>(), Some(5)).value;
            var (g2, v2) := AddVertex(g1, Some(7)).value;
            var (g3, _) := AddEdge(g2, Some(v1), Some(v2)).value;
            var detached := Vertex(6);
            && AddVertex(g3, None) == Failure(NullArg(Value))
            && AddEdge(g3, None, Some(v1)) == Failure(NullArg(From))
            && AddEdge(g3, Some(v1), None) == Failure(NullArg(To))
            && AddEdge(g3, Some(v1), Some(detached)) == Failure(NotFound(To))
            && AddEdge(g3, Some(detached), Some(v2)) == Failure(NotFound(From))
            && EnsureVertices(g3, Some(v2), Some(detached)) == Failure(NotFound(To))
  {
  }

  /**
   * Two vertices joined by one directed edge: the search finds that edge one way and
   * reports no path the other way.
   */
  method NeighborsScenario() returns (forward: Result<Path<int>, Error>, backward: Result<Path<int>, Error>)
    ensures forward == Success(Path(Vertex(5), Vertex(7), [Edge(Vertex(5), Vertex(7))], true))
    ensures backward == Success(NoPath(Vertex(7), Vertex(5)))
  {
    var g := OneEdgeGraph();
    OneEdgeGraphIsBuilt();
    forward := GetPath(g, Some(Vertex(5)), Some(Vertex(7)));
    ForwardResult(forward.value);
    backward := GetPath(g, Some(Vertex(7)), Some(Vertex(5)));
    BackwardResult(backward.value);
  }

  /** The graph of 5 -> 7, built through the library's operations. */
  function OneEdgeGraph(): (g: Graph<int>)
    ensures Valid(g)
  {
    Graph(true, map[Vertex(5) := map[Vertex(7) := Edge(Vertex(5), Vertex(7))], Vertex(7) := map[]])
  }

  /** `OneEdgeGraph` is what adding 5, then 7, then the edge 5 -> 7 to an empty directed graph gives. */
  lemma OneEdgeGraphIsBuilt()
    ensures var g1 := AddVertex(NewDirected<int>(), Some(5)).value.0;
            var g2 := AddVertex(g1, Some(7)).value.0;
            AddEdge(g2, Some(Vertex(5)), Some(Vertex(7))).value.0 == OneEdgeGraph()
  {
    var g1 := AddVertex(NewDirected<int>(), Some(5)).value.0;
    assert g1.adj == map[Vertex(5) := map[]];
    var g2 := AddVertex(g1, Some(7)).value.0;
    assert g2.adj == map[Vertex(5) := map[], Vertex(7) := map[]];
    assert EnsureVertices(g2, Some(Vertex(5)), Some(Vertex(7))) == Success((Vertex(5), Vertex(7)));
  }

  /** The only search result from 5 to 7 is the single edge. */
  lemma ForwardResult(p: Path<int>)
    requires IsSearchResult(OneEdgeGraph(), Vertex(5), Vertex(7), p)
    ensures p == Path(Vertex(5), Vertex(7), [Edge(Vertex(5), Vertex(7))], true)
  {
    var g := OneEdgeGraph();
    assert IsWalk(g, Vertex(5), Vertex(7), [Edge(Vertex(5), Vertex(7))]);
    OnlyWalk(g, Vertex(5), Vertex(7), p.edges);
  }

  /** Nothing leads from 7 back to 5, so the search result is `noPath`. */
  lemma BackwardResult(p: Path<int>)
    requires IsSearchResult(OneEdgeGraph(), Vertex(7), Vertex(5), p)
    ensures p == NoPath(Vertex(7), Vertex(5))
  {
    var g := OneEdgeGraph();
    forall es ensures !IsWalk(g, Vertex(7), Vertex(5), es) {
      NoWalkInto(g, Vertex(7), Vertex(5), es);
    }
  }

  lemma OnlyWalk(g: Graph<int>, v5: Vertex<int>, v7: Vertex<int>, es: seq<Edge<int>>)
    requires v5 == Vertex(5) && v7 == Vertex(7)
    requires g == Graph(true, map[v5 := map[v7 := Edge(v5, v7)], v7 := map[]])
    requires IsWalk(g, v5, v7, es) && |es| <= 1
    ensures es == [Edge(v5, v7)]
  {
  }

  lemma NoWalkInto(g: Graph<int>, v7: Vertex<int>, v5: Vertex<int>, es: seq<Edge<int>>)
    requires v5 == Vertex(5) && v7 == Vertex(7)
    requires g == Graph(true, map[v5 := map[v7 := Edge(v5, v7)], v7 := map[]])
    ensures !IsWalk(g, v7, v5, es)
  {
  }
}
