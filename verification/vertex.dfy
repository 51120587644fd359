/** An immutable wrapper around a user value; equality and hash follow the value. */
module Vertices {
  import opened Wrappers
  import opened Errors

  /** The wrapped value is a datatype field, so it is fixed once the vertex exists. */
  datatype Vertex<T> = Vertex(value: T)

  /** The constructor: rejects an absent value, otherwise wraps it unchanged. */
  function NewVertex<T>(value: Option<T>): (r: Result<Vertex<T>, Error>)
    ensures r.Success? <==> value.Some?
    ensures r.Failure? ==> r.error == NullArg(Value)
    ensures r.Success? ==> r.value.value == value.value
  {
    match value
    case None => Failure(NullArg(Value))
    case Some(x) => Success(Vertex(x))
  }

  /** Java `equals`: two vertices are equal when their values are. */
  predicate VertexEquals<T(==)>(a: Vertex<T>, b: Vertex<T>) {
    a.value == b.value
  }

  /** Java `hashCode`: derived from the value's own hash and nothing else. */
  function VertexHash<T>(valueHash: T -> int, v: Vertex<T>): int {
    valueHash(v.value)
  }

  /** `equals` is exactly value equality, so a vertex is a value object. */
  lemma VertexEqualsIsValueEquality<T>(a: Vertex<T>, b: Vertex<T>)
    ensures VertexEquals(a, b) <==> a == b
    ensures VertexEquals(a, b) <==> a.value == b.value
  {
  }

  /** `hashCode` is consistent with `equals`. */
  lemma EqualVerticesHashEqually<T>(valueHash: T -> int, a: Vertex<T>, b: Vertex<T>)
    requires VertexEquals(a, b)
    ensures VertexHash(valueHash, a) == VertexHash(valueHash, b)
  {
  }
}
