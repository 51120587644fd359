/**
 * The graph: a directed/undirected flag fixed at creation and an adjacency map from each
 * registered vertex to its row, a map from destination vertex to the edge leading there.
 */
module Graphs {
  import opened Wrappers
  import opened Errors
  import opened Vertices
  import opened Edges
  import opened Paths

  datatype Graph<T(==)> = Graph(directed: bool, adj: map<Vertex<T>, map<Vertex<T>, Edge<T>>>)

  /**
   * The shape every graph built through this interface keeps: each row entry `w` of `u`'s
   * row is a registered vertex and holds the edge `u -> w`, and in an undirected graph
   * every edge is matched by one the other way.
   */
  predicate Valid<T(==)>(g: Graph<T>) {
    && (forall u, w :: u in g.adj && w in g.adj[u] ==> w in g.adj && g.adj[u][w] == Edge(u, w))
    && (!g.directed ==> forall u, w :: u in g.adj && w in g.adj[u] ==> u in g.adj[w])
  }

  /** `e` is recorded in the adjacency of `g`. */
  predicate HasEdge<T(==)>(g: Graph<T>, e: Edge<T>) {
    e.from in g.adj && e.to in g.adj[e.from] && g.adj[e.from][e.to] == e
  }

  /** Java `Map.putIfAbsent`: inserts `k -> v` unless `k` is already a key. */
  function PutIfAbsent<K, V>(m: map<K, V>, k: K, v: V): (r: map<K, V>)
    ensures r.Keys == m.Keys + {k}
    ensures k in m ==> r == m
    ensures k !in m ==> r[k] == v
    ensures forall x :: x in m ==> r[x] == m[x]
  {
    if k in m then m else m[k := v]
  }

  /** A fresh, empty, directed graph. */
  function NewDirected<T(==)>(): (g: Graph<T>)
    ensures g.directed && |g.adj| == 0
    ensures Valid(g)
  {
    Graph(true, map[])
  }

  /** A fresh, empty, undirected graph. */
  function NewUndirected<T(==)>(): (g: Graph<T>)
    ensures !g.directed && |g.adj| == 0
    ensures Valid(g)
  {
    Graph(false, map[])
  }

  /**
   * The argument check shared by `addEdge` and `getPath`: both endpoints present, then
   * both registered, `from` before `to` at each stage.
   */
  function EnsureVertices<T(==)>(g: Graph<T>, from: Option<Vertex<T>>, to: Option<Vertex<T>>)
    : (r: Result<(Vertex<T>, Vertex<T>), Error>)
    ensures r.Success? <==> from.Some? && to.Some? && from.value in g.adj && to.value in g.adj
    ensures r.Success? ==> r.value == (from.value, to.value)
    ensures r.Failure? ==> (r.error.NullArg? <==> from.None? || to.None?)
    ensures r.Failure? ==> !r.error.WrongEdge?
    ensures r.Failure? && !r.error.WrongEdge? ==>
              (r.error.arg == From <==> from.None? || (to.Some? && from.value !in g.adj))
    ensures from.None? ==> r == Failure(NullArg(From))
    ensures from.Some? && to.None? ==> r == Failure(NullArg(To))
    ensures from.Some? && to.Some? && from.value !in g.adj ==> r == Failure(NotFound(From))
    ensures from.Some? && to.Some? && from.value in g.adj && to.value !in g.adj ==> r == Failure(NotFound(To))
  {
    if from.None? then Failure(NullArg(From))
    else if to.None? then Failure(NullArg(To))
    else if from.value !in g.adj then Failure(NotFound(From))
    else if to.value !in g.adj then Failure(NotFound(To))
    else Success((from.value, to.value))
  }

  /**
   * Java `addVertex`: wraps `value` and registers it with an empty row unless an equal
   * vertex is already registered. The returned vertex always wraps `value`.
   */
  function AddVertex<T(==)>(g: Graph<T>, value: Option<T>): (r: Result<(Graph<T>, Vertex<T>), Error>)
    ensures r.Failure? <==> value.None?
    ensures r.Failure? ==> r.error == NullArg(Value)
    ensures r.Success? ==> r.value.1 == Vertex(value.value) && r.value.0.directed == g.directed
    ensures r.Success? && r.value.1 in g.adj ==> r.value.0 == g
    ensures r.Success? && r.value.1 !in g.adj ==>
              && r.value.0.adj.Keys == g.adj.Keys + {r.value.1}
              && r.value.0.adj[r.value.1] == map[]
              && forall u :: u in g.adj ==> r.value.0.adj[u] == g.adj[u]
  {
    match NewVertex(value)
    case Failure(err) => Failure(err)
    case Success(v) => Success((Graph(g.directed, PutIfAbsent(g.adj, v, map[])), v))
  }

  /**
   * Java `addEdge`: after the argument check, records `from -> to` in `from`'s row unless
   * that row already has an entry for `to`; an undirected graph likewise records `to -> from`
   * in `to`'s row unless present. Returns the edge `from -> to`.
   */
  function AddEdge<T(==)>(g: Graph<T>, from: Option<Vertex<T>>, to: Option<Vertex<T>>)
    : (r: Result<(Graph<T>, Edge<T>), Error>)
    ensures r.Failure? <==> EnsureVertices(g, from, to).Failure?
    ensures r.Failure? ==> r.error == EnsureVertices(g, from, to).error
    ensures r.Success? ==>
              var (g', e) := r.value;
              var (f, t) := (from.value, to.value);
              && e == Edge(f, t)
              && g'.directed == g.directed
              && g'.adj.Keys == g.adj.Keys
              // from's row gains `to`, never overwrites it, and keeps every other entry
              && g'.adj[f].Keys == g.adj[f].Keys + {t}
              && g'.adj[f][t] == (if t in g.adj[f] then g.adj[f][t] else e)
              && (forall w :: w in g.adj[f] && w != t ==> g'.adj[f][w] == g.adj[f][w])
              // every row other than from's and (when undirected) to's is untouched
              && (forall u :: u in g.adj && u != f && (g.directed || u != t) ==> g'.adj[u] == g.adj[u])
              // undirected: to's row gains `from`, never overwritten, other entries kept
              && (!g.directed ==>
                    && g'.adj[t].Keys == g.adj[t].Keys + {f}
                    && g'.adj[t][f] == (if f in g.adj[t] then g.adj[t][f] else Reversed(e))
                    && (forall w :: w in g.adj[t] && w != f ==> g'.adj[t][w] == g.adj[t][w]))
  {
    match EnsureVertices(g, from, to)
    case Failure(err) => Failure(err)
    case Success(ends) =>
      var f := ends.0;
      var t := ends.1;
      var edge := NewEdge(Some(f), Some(t)).value;
      var adj1 := g.adj[f := PutIfAbsent(g.adj[f], t, edge)];
      // the row of `to` is read after the first insertion: for a self-loop it is the same row
      var adj2 := if g.directed then adj1
                  else adj1[t := PutIfAbsent(adj1[t], f, NewEdge(Some(t), Some(f)).value)];
      Success((Graph(g.directed, adj2), edge))
  }

  /** Adding a vertex keeps the graph valid. */
  lemma AddVertexPreservesValid<T>(g: Graph<T>, value: Option<T>)
    requires Valid(g)
    ensures AddVertex(g, value).Success? ==> Valid(AddVertex(g, value).value.0)
  {
  }

  /** Adding a vertex a second time changes nothing and returns an equal vertex. */
  lemma AddVertexIdempotent<T>(g: Graph<T>, x: T)
    ensures var (g1, v1) := AddVertex(g, Some(x)).value;
            AddVertex(g1, Some(x)) == Success((g1, v1))
  {
  }

  /** Adding an edge keeps the graph valid. */
  lemma AddEdgePreservesValid<T>(g: Graph<T>, from: Option<Vertex<T>>, to: Option<Vertex<T>>)
    requires Valid(g)
    ensures AddEdge(g, from, to).Success? ==> Valid(AddEdge(g, from, to).value.0)
  {
  }

  /** Adding an edge a second time changes nothing and returns an equal edge. */
  lemma AddEdgeIdempotent<T>(g: Graph<T>, from: Option<Vertex<T>>, to: Option<Vertex<T>>)
    requires AddEdge(g, from, to).Success?
    ensures var (g1, e1) := AddEdge(g, from, to).value;
            AddEdge(g1, from, to) == Success((g1, e1))
  {
    var (g1, e1) := AddEdge(g, from, to).value;
    var (f, t) := (from.value, to.value);
    assert g1.adj[f := g1.adj[f]] == g1.adj;
    if !g.directed {
      assert g1.adj[t := g1.adj[t]] == g1.adj;
    }
  }

  /**
   * In a valid graph the stored edges are the returned edge and, when undirected,
   * its reversal.
   */
  lemma AddEdgeRecordsEdge<T>(g: Graph<T>, from: Option<Vertex<T>>, to: Option<Vertex<T>>)
    requires Valid(g)
    requires AddEdge(g, from, to).Success?
    ensures var (g1, e) := AddEdge(g, from, to).value;
            HasEdge(g1, e) && (!g.directed ==> HasEdge(g1, Reversed(e)))
  {
  }

  /**
   * `edges` walks the adjacency of `g` from `s` to `t`: every edge is recorded in `g` and
   * each one starts where the previous one ended. Defined from the last edge backwards,
   * the way a search extends paths.
   */
  predicate IsWalk<T(==)>(g: Graph<T>, s: Vertex<T>, t: Vertex<T>, edges: seq<Edge<T>>)
    decreases |edges|
  {
    if |edges| == 0 then s == t
    else
      var last := edges[|edges| - 1];
      HasEdge(g, last) && last.to == t && IsWalk(g, s, last.from, edges[..|edges| - 1])
  }

  /** `edges` is a chain from `s` to `t` all of whose edges are recorded in `g`. */
  predicate IsChainOfEdges<T(==)>(g: Graph<T>, s: Vertex<T>, t: Vertex<T>, edges: seq<Edge<T>>) {
    Chains(s, t, edges) && forall i :: 0 <= i < |edges| ==> HasEdge(g, edges[i])
  }

  /** A walk is exactly a chain (the shape a path promises) made of recorded edges. */
  lemma {:induction false} WalkIsChainOfEdges<T>(g: Graph<T>, s: Vertex<T>, t: Vertex<T>, edges: seq<Edge<T>>)
    ensures IsWalk(g, s, t, edges) <==> IsChainOfEdges(g, s, t, edges)
    decreases |edges|
  {
    if |edges| > 0 {
      var n := |edges| - 1;
      var init := edges[..n];
      var last := edges[n];
      WalkIsChainOfEdges(g, s, last.from, init);
      if IsWalk(g, s, t, edges) {
        forall i | 0 <= i < |edges| ensures HasEdge(g, edges[i]) {
          if i < n { assert edges[i] == init[i]; }
        }
        forall i | 0 <= i < |edges| - 1 ensures edges[i].to == edges[i + 1].from {
          if i < n - 1 { assert edges[i] == init[i] && edges[i + 1] == init[i + 1]; }
        }
      }
      if IsChainOfEdges(g, s, t, edges) {
        assert Chains(s, last.from, init) by {
          forall i | 0 <= i < |init| - 1 ensures init[i].to == init[i + 1].from {
            assert init[i] == edges[i] && init[i + 1] == edges[i + 1];
          }
        }
        forall i | 0 <= i < |init| ensures HasEdge(g, init[i]) {
          assert init[i] == edges[i];
        }
      }
    }
  }

  /** Extending a walk's path by a recorded edge leaving its end gives a walk to the edge's end. */
  lemma ExtendKeepsWalk<T>(g: Graph<T>, s: Vertex<T>, p: Path<T>, e: Edge<T>)
    requires IsWalk(g, s, p.to, p.edges)
    requires HasEdge(g, e) && e.from == p.to
    ensures Extend(p, e).Success?
    ensures IsWalk(g, s, e.to, Extend(p, e).value.edges)
  {
  }
}
