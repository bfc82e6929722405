// `pair` and `make_pair`: a record of two values with field-wise equality.
module Utility {

  datatype Pair<T, K> = Pair(first: T, second: K)

  /** `make_pair(a, b)`: the pair whose fields are exactly a and b. */
  function MakePair<T, K>(a: T, b: K): (p: Pair<T, K>)
    ensures p.first == a && p.second == b
  {
    Pair(a, b)
  }

  /** Copy construction and copy assignment: the copy equals its source. */
  function CopyOf<T, K>(other: Pair<T, K>): (p: Pair<T, K>)
    ensures p == other
  {
    Pair(other.first, other.second)
  }

  /**
   * `operator==`: true at once when both sides are the same object,
   * otherwise compares both fields. Objects are values here, so identity
   * is structural equality.
   */
  function Equal<T(==), K(==)>(p: Pair<T, K>, q: Pair<T, K>): (r: bool)
    ensures r <==> p == q
  {
    p == q || (p.first == q.first && p.second == q.second)
  }

  /** `operator!=` is the negation of `operator==`. */
  function NotEqual<T(==), K(==)>(p: Pair<T, K>, q: Pair<T, K>): (r: bool)
    ensures r <==> p.first != q.first || p.second != q.second
  {
    !Equal(p, q)
  }
}
