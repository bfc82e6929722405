// The iterator algorithms `copy`, `find` and `swap`. Iterator ranges
// [begin, end) over a container are modelled as index ranges [lo, hi) of
// an array.
module Algorithm {

  /** Index of the first element of s equal to v, or |s| when there is none. */
  function FirstIndexOf<T(==)>(s: seq<T>, v: T): (i: nat)
    ensures i <= |s|
    ensures i < |s| ==> s[i] == v
    ensures forall k :: 0 <= k < i ==> s[k] != v
  {
    if s == [] then 0
    else if s[0] == v then 0
    else 1 + FirstIndexOf(s[1..], v)
  }

  /**
   * `find(begin, end, value)`: walks the range and stops at the first equal
   * element; an empty range or a missing value gives `end`.
   */
  method Find<T(==)>(a: array<T>, lo: nat, hi: nat, v: T) returns (i: nat)
    requires lo <= hi <= a.Length
    ensures lo <= i <= hi
    ensures i == lo + FirstIndexOf(a[lo..hi], v)
    ensures i < hi ==> a[i] == v
    ensures forall k :: lo <= k < i ==> a[k] != v
  {
    i := lo;
    while i != hi
      invariant lo <= i <= hi
      invariant forall k :: lo <= k < i ==> a[k] != v
    {
      if a[i] == v {
        FirstIndexUnique(a[lo..hi], v, i - lo);
        return;
      }
      i := i + 1;
    }
    FirstIndexUnique(a[lo..hi], v, hi - lo);
  }

  /** Any index meeting the contract of `FirstIndexOf` is the one it returns. */
  lemma FirstIndexUnique<T>(s: seq<T>, v: T, j: nat)
    requires j <= |s|
    requires j < |s| ==> s[j] == v
    requires forall k :: 0 <= k < j ==> s[k] != v
    ensures FirstIndexOf(s, v) == j
  {
  }

  /**
   * `copy(begin, end, first)`: assigns the source elements one by one to the
   * target starting at `d`. The source and target must not overlap and the
   * target must have room for all of them.
   */
  method Copy<T>(src: array<T>, lo: nat, hi: nat, dst: array<T>, d: nat)
    requires src != dst
    requires lo <= hi <= src.Length
    requires d + (hi - lo) <= dst.Length
    modifies dst
    ensures dst[..] == old(dst[..d]) + src[lo..hi] + old(dst[d + (hi - lo)..])
  {
    var i := lo;
    while i != hi
      invariant lo <= i <= hi
      invariant dst[..d] == old(dst[..d])
      invariant dst[d..d + (i - lo)] == src[lo..i]
      invariant dst[d + (i - lo)..] == old(dst[d + (i - lo)..])
    {
      dst[d + (i - lo)] := src[i];
      i := i + 1;
    }
    assert dst[..] == dst[..d] + dst[d..d + (hi - lo)] + dst[d + (hi - lo)..];
  }

  /** `swap(a, b)`: the two slots exchange their values. */
  method Swap<T>(a: array<T>, i: nat, j: nat)
    requires i < a.Length && j < a.Length
    modifies a
    ensures a[..] == old(a[..])[i := old(a[j])][j := old(a[i])]
  {
    var temp := a[i];
    a[i] := a[j];
    a[j] := temp;
  }
}
