/**
 * An immutable walk between two vertices with an existence flag.
 * Paths are ordered by their number of edges only.
 */
module Paths {
  import opened Wrappers
  import opened Errors
  import opened Vertices
  import opened Edges

  datatype Path<T> = Path(from: Vertex<T>, to: Vertex<T>, edges: seq<Edge<T>>, exist: bool)

  /**
   * The full constructor: rejects an absent `from`, `to` or edge list, in that order,
   * and otherwise keeps every field as given.
   */
  function Construct<T>(from: Option<Vertex<T>>, to: Option<Vertex<T>>, edges: Option<seq<Edge<T>>>,
                        exist: bool): (r: Result<Path<T>, Error>)
    ensures r.Success? <==> from.Some? && to.Some? && edges.Some?
    ensures from.None? ==> r == Failure(NullArg(From))
    ensures from.Some? && to.None? ==> r == Failure(NullArg(To))
    ensures from.Some? && to.Some? && edges.None? ==> r == Failure(NullArg(Edges))
    ensures r.Success? ==> r.value.from == from.value && r.value.to == to.value
                           && r.value.edges == edges.value && r.value.exist == exist
  {
    if from.None? then Failure(NullArg(From))
    else if to.None? then Failure(NullArg(To))
    else if edges.None? then Failure(NullArg(Edges))
    else Success(Path(from.value, to.value, edges.value, exist))
  }

  /** The constructor the library itself uses: every path it builds this way exists. */
  function NewPath<T>(from: Option<Vertex<T>>, to: Option<Vertex<T>>, edges: Option<seq<Edge<T>>>)
    : (r: Result<Path<T>, Error>)
    ensures r.Success? <==> from.Some? && to.Some? && edges.Some?
    ensures r.Success? ==> r.value.from == from.value && r.value.to == to.value
    ensures r.Success? ==> r.value.edges == edges.value && r.value.exist
  {
    Construct(from, to, edges, true)
  }

  /** The sentinel for "no path from `a` to `b`". */
  function NoPath<T>(a: Vertex<T>, b: Vertex<T>): (p: Path<T>)
    ensures p.from == a && p.to == b
    ensures p.edges == [] && !p.exist
  {
    Construct(Some(a), Some(b), Some([]), false).value
  }

  /**
   * Appends `e`. A non-empty path must end where `e` starts; an empty path accepts any edge.
   * The result keeps the start, ends at `e.to` and exists.
   */
  function Extend<T(==)>(p: Path<T>, e: Edge<T>): (r: Result<Path<T>, Error>)
    ensures r.Success? <==> |p.edges| == 0 || p.edges[|p.edges| - 1].to == e.from
    ensures r.Failure? ==> r.error == WrongEdge
    ensures r.Success? ==> r.value.from == p.from && r.value.to == e.to && r.value.exist
    ensures r.Success? ==> r.value.edges == p.edges + [e] && |r.value.edges| == |p.edges| + 1
  {
    if |p.edges| != 0 && !VertexEquals(p.edges[|p.edges| - 1].to, e.from) then
      Failure(WrongEdge)
    else
      NewPath(Some(p.from), Some(e.to), Some(p.edges + [e]))
  }

  /** Java `compareTo`: the difference of the edge counts. */
  function Compare<T>(p: Path<T>, q: Path<T>): (r: int)
    ensures r < 0 <==> |p.edges| < |q.edges|
    ensures r == 0 <==> |p.edges| == |q.edges|
    ensures r > 0 <==> |p.edges| > |q.edges|
  {
    |p.edges| - |q.edges|
  }

  /** Java `equals`: endpoints and edge lists, but not the existence flag. */
  predicate PathEquals<T(==)>(p: Path<T>, q: Path<T>) {
    VertexEquals(p.from, q.from) && VertexEquals(p.to, q.to) && p.edges == q.edges
  }

  /** `edges` is a chain from `s` to `t`: consecutive edges meet, the ends are `s` and `t`. */
  predicate Chains<T(==)>(s: Vertex<T>, t: Vertex<T>, edges: seq<Edge<T>>) {
    && (|edges| == 0 ==> s == t)
    && (|edges| > 0 ==> edges[0].from == s && edges[|edges| - 1].to == t)
    && (forall i :: 0 <= i < |edges| - 1 ==> edges[i].to == edges[i + 1].from)
  }

  /** Comparison looks at lengths only: endpoints and edge contents never matter. */
  lemma CompareIsByLengthOnly<T>(p: Path<T>, q: Path<T>, p': Path<T>, q': Path<T>)
    requires |p.edges| == |p'.edges| && |q.edges| == |q'.edges|
    ensures Compare(p, q) == Compare(p', q')
    ensures Compare(p, q) == -Compare(q, p)
  {
  }

  /** Path equality ignores `exist` and nothing else. */
  lemma PathEqualsIgnoresExist<T>(p: Path<T>, q: Path<T>)
    ensures PathEquals(p, q) <==> p.(exist := q.exist) == q
  {
  }

  /** The "no path" sentinel at `v` equals the existing zero-length path at `v`, yet differs from it. */
  lemma NoPathEqualsEmptyPath<T>(v: Vertex<T>)
    ensures PathEquals(NoPath(v, v), NewPath(Some(v), Some(v), Some([])).value)
    ensures NoPath(v, v) != NewPath(Some(v), Some(v), Some([])).value
  {
  }

  /** Extending a chain by an edge that starts at its end gives a chain to the edge's end. */
  lemma {:induction false} ExtendKeepsChain<T>(p: Path<T>, e: Edge<T>)
    requires Chains(p.from, p.to, p.edges)
    requires e.from == p.to
    ensures Extend(p, e).Success?
    ensures Chains(p.from, e.to, Extend(p, e).value.edges)
  {
    var es := Extend(p, e).value.edges;
    assert es == p.edges + [e];
    forall i | 0 <= i < |es| - 1
      ensures es[i].to == es[i + 1].from
    {
      if i < |p.edges| - 1 {
        assert es[i] == p.edges[i] && es[i + 1] == p.edges[i + 1];
      } else {
        assert es[i] == p.edges[|p.edges| - 1] && es[i + 1] == e;
      }
    }
  }

  /**
   * An empty path performs no continuity check: any edge extends it, even one that does not
   * start at the path's `from`, and the result is then not a chain from `from`.
   */
  lemma ExtendEmptyIsUnchecked<T>(p: Path<T>, e: Edge<T>)
    requires |p.edges| == 0
    ensures Extend(p, e).Success?
    ensures e.from != p.from ==> !Chains(p.from, e.to, Extend(p, e).value.edges)
  {
  }
}
