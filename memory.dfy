// Element moves on a raw buffer, as the containers perform them with
// `memmove`, `memcpy`, fill loops and shifting loops. Each is stated as the
// new buffer contents in terms of the old.
module Memory {

  /** n copies of x. */
  function Repeat<T>(x: T, n: nat): (r: seq<T>)
    ensures |r| == n
    ensures forall i :: 0 <= i < n ==> r[i] == x
  {
    if n == 0 then [] else Repeat(x, n - 1) + [x]
  }

  /** Writes s into d starting at `at`; nothing else changes. */
  method WriteAt<T>(d: array<T>, at: nat, s: seq<T>)
    requires at + |s| <= d.Length
    modifies d
    ensures d[..] == old(d[..at]) + s + old(d[at + |s|..])
  {
    var i := 0;
    while i < |s|
      invariant 0 <= i <= |s|
      invariant d[..at] == old(d[..at])
      invariant d[at..at + i] == s[..i]
      invariant d[at + |s|..] == old(d[at + |s|..])
    {
      d[at + i] := s[i];
      i := i + 1;
    }
    assert d[..] == d[..at] + d[at..at + |s|] + d[at + |s|..];
  }

  /** Writes x into every slot of [lo, hi); nothing else changes. */
  method Fill<T>(d: array<T>, lo: nat, hi: nat, x: T)
    requires lo <= hi <= d.Length
    modifies d
    ensures d[..] == old(d[..lo]) + Repeat(x, hi - lo) + old(d[hi..])
  {
    var i := lo;
    while i < hi
      invariant lo <= i <= hi
      invariant d[..lo] == old(d[..lo])
      invariant forall k :: lo <= k < i ==> d[k] == x
      invariant d[i..] == old(d[i..])
    {
      d[i] := x;
      i := i + 1;
    }
    assert d[..] == d[..lo] + d[lo..hi] + d[hi..];
  }

  /**
   * Moves d[0..n) one slot right, last element first, as `push_front`
   * does; slot 0 keeps its value and slots past n are untouched.
   */
  method ShiftRight<T>(d: array<T>, n: nat)
    requires n < d.Length
    modifies d
    ensures d[..] == old(d[..1]) + old(d[..n]) + old(d[n + 1..])
  {
    ghost var o := d[..];
    var i := n;
    while i > 0
      invariant 0 <= i <= n
      invariant forall k :: 0 <= k <= i ==> d[k] == o[k]
      invariant forall k :: i < k <= n ==> d[k] == o[k - 1]
      invariant forall k :: n < k < d.Length ==> d[k] == o[k]
    {
      d[i] := d[i - 1];
      i := i - 1;
    }
    ghost var want := o[..1] + o[..n] + o[n + 1..];
    assert |want| == d.Length;
    forall k | 0 <= k < d.Length
      ensures d[k] == want[k]
    {
      if k == 0 {
      } else if k <= n {
        assert want[k] == o[..n][k - 1];
      } else {
        assert want[k] == o[n + 1..][k - n - 1];
      }
    }
    assert d[..] == want;
  }

  /**
   * Moves d[from + 1..n) one slot left, first element first, as `erase`
   * and `pop_front` do; slot n - 1 keeps its old value.
   */
  method ShiftLeft<T>(d: array<T>, from: nat, n: nat)
    requires from < n <= d.Length
    modifies d
    ensures d[..] == old(d[..from]) + old(d[from + 1..n]) + old(d[n - 1..])
  {
    ghost var o := d[..];
    var i := from + 1;
    while i < n
      invariant from + 1 <= i <= n
      invariant forall k :: 0 <= k < from ==> d[k] == o[k]
      invariant forall k :: from <= k < i - 1 ==> d[k] == o[k + 1]
      invariant forall k :: i - 1 <= k < d.Length ==> d[k] == o[k]
    {
      d[i - 1] := d[i];
      i := i + 1;
    }
    ghost var want := o[..from] + o[from + 1..n] + o[n - 1..];
    assert |want| == d.Length;
    forall k | 0 <= k < d.Length
      ensures d[k] == want[k]
    {
      if k < from {
      } else if k < n - 1 {
        assert want[k] == o[from + 1..n][k - from];
      } else {
        assert want[k] == o[n - 1..][k - n + 1];
      }
    }
    assert d[..] == want;
  }
}
