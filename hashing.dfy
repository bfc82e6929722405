// The hash functors of the container library: the base functor
// `hash_imitation_functions` (a cast to uint64 for scalars, a weighted
// character sum for strings) and the five multiplier hashes of
// `hash_function` built on top of it. All arithmetic is uint64, so every
// result is reduced modulo 2^64.
module Hashing {

  const TwoTo64: nat := 0x1_0000_0000_0000_0000

  /** `static_cast<uint64_t>` of a signed or unsigned integer. */
  function CastU64(x: int): (r: nat)
    ensures r < TwoTo64
    ensures 0 <= x < TwoTo64 ==> r == x
    ensures x < 0 && 0 <= x + TwoTo64 ==> r == x + TwoTo64
  {
    x % TwoTo64
  }

  /**
   * A C++ `char` is a signed byte on the targets this library builds for:
   * code points 128..255 stand for the negative values -128..-1.
   */
  function SignedChar(c: char): int
  {
    if 128 <= c as int < 256 then c as int - 256 else c as int
  }

  /** Base hash of a scalar key: the value cast to uint64. */
  function ScalarHash(x: int): (r: nat)
    ensures r < TwoTo64
  {
    CastU64(x)
  }

  /** Specification of the string hash: the sum of 31 * char, in uint64. */
  function StringHash(s: string): (r: nat)
    ensures r < TwoTo64
  {
    if s == [] then 0
    else (StringHash(s[..|s| - 1]) + CastU64(SignedChar(s[|s| - 1])) * 31 % TwoTo64) % TwoTo64
  }

  /** The plain (unreduced) sum of the signed character codes. */
  function CodeSum(s: string): int
  {
    if s == [] then 0 else CodeSum(s[..|s| - 1]) + SignedChar(s[|s| - 1])
  }

  /** The string hash is 31 times the character-code sum, reduced to uint64. */
  lemma {:induction false} StringHashIsScaledSum(s: string)
    ensures StringHash(s) == CastU64(31 * CodeSum(s))
  {
    if s != [] {
      var p := s[..|s| - 1];
      var c := SignedChar(s[|s| - 1]);
      StringHashIsScaledSum(p);
      ModAddMul(31 * CodeSum(p), c);
    }
  }

  /** Division with remainder by 2^64 has one answer. */
  lemma ModUnique(x: int, q: int, r: int)
    requires 0 <= r < TwoTo64 && x == q * TwoTo64 + r
    ensures x % TwoTo64 == r
  {
  }

  lemma ModAddMul(a: int, c: int)
    ensures (a % TwoTo64 + (c % TwoTo64) * 31 % TwoTo64) % TwoTo64 == (a + 31 * c) % TwoTo64
  {
    var m := TwoTo64;
    var ra, rc := a % m, c % m;
    var p := rc * 31 % m;
    var sum := (ra + p) % m;
    assert a == (a / m) * m + ra;
    assert c == (c / m) * m + rc;
    assert rc * 31 == (rc * 31 / m) * m + p;
    assert ra + p == ((ra + p) / m) * m + sum;
    ModUnique(a + 31 * c, a / m + 31 * (c / m) + rc * 31 / m + (ra + p) / m, sum);
  }

  lemma {:induction false} CodeSumAppend(s: string, t: string)
    ensures CodeSum(s + t) == CodeSum(s) + CodeSum(t)
  {
    if t != [] {
      var t' := t[..|t| - 1];
      assert (s + t)[..|s + t| - 1] == s + t';
      CodeSumAppend(s, t');
    } else {
      assert s + t == s;
    }
  }

  lemma {:induction false} CodeSumPermutation(s: string, t: string)
    requires multiset(s) == multiset(t)
    ensures CodeSum(s) == CodeSum(t)
    decreases |s|
  {
    if s != [] {
      var c := s[|s| - 1];
      assert c in multiset(t);
      var k :| 0 <= k < |t| && t[k] == c;
      var t' := t[..k] + t[k + 1..];
      assert t == t[..k] + [c] + t[k + 1..];
      assert s == s[..|s| - 1] + [c];
      assert multiset(t) == multiset(t[..k]) + multiset{c} + multiset(t[k + 1..]);
      assert multiset(s) == multiset(s[..|s| - 1]) + multiset{c};
      assert multiset(t') == multiset(t[..k]) + multiset(t[k + 1..]);
      assert multiset(s[..|s| - 1]) == multiset(s) - multiset{c};
      assert multiset(t') == multiset(t) - multiset{c};
      CodeSumPermutation(s[..|s| - 1], t');
      CodeSumAppend(t[..k] + [c], t[k + 1..]);
      CodeSumAppend(t[..k], [c]);
      CodeSumAppend(t[..k], t[k + 1..]);
      CodeSumAppend(s[..|s| - 1], [c]);
      assert CodeSum([c]) == SignedChar(c) by { assert [c][..0] == []; }
    }
  }

  /** The string hash ignores character order: anagrams collide. */
  lemma StringHashOrderFree(s: string, t: string)
    requires multiset(s) == multiset(t)
    ensures StringHash(s) == StringHash(t)
  {
    StringHashIsScaledSum(s);
    StringHashIsScaledSum(t);
    CodeSumPermutation(s, t);
  }

  /** The loop of `operator()(const string&)`, accumulating in uint64. */
  method HashString(s: string) returns (h: nat)
    ensures h == StringHash(s)
  {
    h := 0;
    var i := 0;
    while i < |s|
      invariant 0 <= i <= |s|
      invariant h == StringHash(s[..i])
    {
      assert s[..i + 1][..i] == s[..i];
      h := (h + CastU64(SignedChar(s[i])) * 31 % TwoTo64) % TwoTo64;
      i := i + 1;
    }
    assert s[..i] == s;
  }

  // The five multiplier hashes over a base hash `h`, each in uint64.

  function SdmmHash(h: nat): (r: nat) ensures r < TwoTo64 { 65599 * h % TwoTo64 }

  function BkdrHash(h: nat): (r: nat) ensures r < TwoTo64 { 131 * h % TwoTo64 }

  function DjbHash(h: nat): (r: nat) ensures r < TwoTo64 { 33 * h % TwoTo64 }

  function ApHash(h: nat): (r: nat) ensures r < TwoTo64 { h * 1031 % TwoTo64 }

  /** `(h << 2) + h` with both the shift and the sum wrapping in uint64. */
  function PjwHash(h: nat): (r: nat)
    requires h < TwoTo64
    ensures r < TwoTo64
  {
    ((h * 4) % TwoTo64 + h) % TwoTo64
  }

  /** The shift-and-add form of the PJW hash is multiplication by five. */
  lemma PjwHashIsTimesFive(h: nat)
    requires h < TwoTo64
    ensures PjwHash(h) == 5 * h % TwoTo64
  {
    var m := TwoTo64;
    assert (h * 4) % m + h == 5 * h - m * ((h * 4) / m);
  }
}
