/** An immutable directed arc between two vertices, compared by its endpoint pair. */
module Edges {
  import opened Wrappers
  import opened Errors
  import opened Vertices

  datatype Edge<T> = Edge(from: Vertex<T>, to: Vertex<T>)

  /** The constructor: rejects an absent `from` first, then an absent `to`. */
  function NewEdge<T>(from: Option<Vertex<T>>, to: Option<Vertex<T>>): (r: Result<Edge<T>, Error>)
    ensures r.Success? <==> from.Some? && to.Some?
    ensures from.None? ==> r == Failure(NullArg(From))
    ensures from.Some? && to.None? ==> r == Failure(NullArg(To))
    ensures r.Success? ==> r.value.from == from.value && r.value.to == to.value
  {
    if from.None? then Failure(NullArg(From))
    else if to.None? then Failure(NullArg(To))
    else Success(Edge(from.value, to.value))
  }

  /** The same connection walked the other way. */
  function Reversed<T>(e: Edge<T>): Edge<T> {
    NewEdge(Some(e.to), Some(e.from)).value
  }

  /** Java `equals`: both endpoints equal as vertices. */
  predicate EdgeEquals<T(==)>(a: Edge<T>, b: Edge<T>) {
    VertexEquals(a.from, b.from) && VertexEquals(a.to, b.to)
  }

  /** `equals` is exactly equality of the `(from, to)` pair. */
  lemma EdgeEqualsIsPairEquality<T>(a: Edge<T>, b: Edge<T>)
    ensures EdgeEquals(a, b) <==> a == b
    ensures EdgeEquals(a, b) <==> a.from == b.from && a.to == b.to
  {
  }

  /** Reversal swaps the endpoints. */
  lemma ReversedSwapsEndpoints<T>(e: Edge<T>)
    ensures Reversed(e).from == e.to && Reversed(e).to == e.from
  {
  }

  /** Reversing twice gives back an edge equal to the original. */
  lemma ReversedTwice<T>(e: Edge<T>)
    ensures EdgeEquals(Reversed(Reversed(e)), e)
    ensures Reversed(Reversed(e)) == e
  {
  }

  /** An edge equals its reversal exactly when it is a self-loop. */
  lemma ReversedEqualIffSelfLoop<T>(e: Edge<T>)
    ensures EdgeEquals(e, Reversed(e)) <==> e.from == e.to
  {
  }
}
