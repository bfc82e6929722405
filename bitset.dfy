// The `bit_set` of the base container library: a vector of 32-bit words,
// where value v lives in bit v % 32 of word v / 32, plus a 64-bit counter
// `_size` that every `set` increments and every `reset` decrements.
module BitSets {
  import opened Wrappers
  import Hashing

  /** The bit of its word that position v occupies: v % 32. */
  function Index(v: nat): bv5
  {
    (v % 32) as bv5
  }

  /** `1 << k` as a 32-bit word. */
  function Mask(k: bv5): bv32
  {
    (1 as bv32) << k
  }

  /** Word w with bit k turned on: `w | (1 << k)`. */
  function Raised(w: bv32, k: bv5): bv32
  {
    w | Mask(k)
  }

  /** Word w with bit k turned off: `w & ~(1 << k)`. */
  function Cleared(w: bv32, k: bv5): bv32
  {
    w & !Mask(k)
  }

  /** Bit k of word w is on. */
  predicate WordBit(w: bv32, k: bv5)
  {
    w & Mask(k) != 0
  }

  /** Position v is on. */
  predicate BitOn(words: seq<bv32>, v: nat)
    requires v / 32 < |words|
  {
    WordBit(words[v / 32], Index(v))
  }

  /** A run of n all-zero words. */
  function Zeros(n: nat): (ws: seq<bv32>)
    ensures |ws| == n && forall i :: 0 <= i < n ==> ws[i] == 0
  {
    seq(n, _ => 0)
  }

  /** The word sequence after `set(v)`. */
  function WithBit(words: seq<bv32>, v: nat): seq<bv32>
    requires v / 32 < |words|
  {
    words[v / 32 := Raised(words[v / 32], Index(v))]
  }

  /** The word sequence after `reset(v)`. */
  function WithoutBit(words: seq<bv32>, v: nat): seq<bv32>
    requires v / 32 < |words|
  {
    words[v / 32 := Cleared(words[v / 32], Index(v))]
  }

  lemma MaskApart(j: bv5, k: bv5)
    requires j != k
    ensures Mask(j) & Mask(k) == 0
  {
  }

  /** Or-ing in bits disjoint from n leaves the bits n selects alone. */
  lemma OrAway(w: bv32, m: bv32, n: bv32)
    requires m & n == 0
    ensures (w | m) & n == w & n
  {
  }

  /** Masking out bits disjoint from n leaves the bits n selects alone. */
  lemma ClearAway(w: bv32, m: bv32, n: bv32)
    requires m & n == 0
    ensures (w & !m) & n == w & n
  {
  }

  lemma RaisedOther(w: bv32, k: bv5, j: bv5)
    requires j != k
    ensures WordBit(Raised(w, k), j) == WordBit(w, j)
  {
    MaskApart(k, j);
    OrAway(w, Mask(k), Mask(j));
  }

  lemma ClearedOther(w: bv32, k: bv5, j: bv5)
    requires j != k
    ensures WordBit(Cleared(w, k), j) == WordBit(w, j)
  {
    MaskApart(k, j);
    ClearAway(w, Mask(k), Mask(j));
  }

  lemma RaisedSame(w: bv32, k: bv5)
    ensures WordBit(Raised(w, k), k)
  {
  }

  lemma ClearedSame(w: bv32, k: bv5)
    ensures !WordBit(Cleared(w, k), k)
  {
  }

  /** `w | (1 << k)` turns bit k on and no other bit changes. */
  lemma OrMask(w: bv32, k: bv5, j: bv5)
    ensures WordBit(Raised(w, k), j) <==> j == k || WordBit(w, j)
  {
    if j == k {
      RaisedSame(w, k);
    } else {
      RaisedOther(w, k, j);
    }
  }

  /** `w & ~(1 << k)` turns bit k off and no other bit changes. */
  lemma AndNotMask(w: bv32, k: bv5, j: bv5)
    ensures WordBit(Cleared(w, k), j) <==> j != k && WordBit(w, j)
  {
    if j == k {
      ClearedSame(w, k);
    } else {
      ClearedOther(w, k, j);
    }
  }

  lemma IndexBack(k: nat)
    requires k < 32
    ensures (k as bv5) as int == k
  {
  }

  /** Word and bit together determine the position. */
  lemma SamePosition(u: nat, v: nat)
    requires u / 32 == v / 32 && Index(u) == Index(v)
    ensures u == v
  {
    IndexBack(u % 32);
    IndexBack(v % 32);
  }

  /** `set(v)` turns position v on and leaves every other position as it was. */
  lemma SetChangesOnlyV(words: seq<bv32>, v: nat, u: nat)
    requires v / 32 < |words| && u / 32 < |words|
    ensures BitOn(WithBit(words, v), u) <==> u == v || BitOn(words, u)
  {
    if u / 32 == v / 32 {
      OrMask(words[v / 32], Index(v), Index(u));
      if Index(u) == Index(v) {
        SamePosition(u, v);
      }
    }
  }

  /** `reset(v)` turns position v off and leaves every other position as it was. */
  lemma ResetChangesOnlyV(words: seq<bv32>, v: nat, u: nat)
    requires v / 32 < |words| && u / 32 < |words|
    ensures BitOn(WithoutBit(words, v), u) <==> u != v && BitOn(words, u)
  {
    if u / 32 == v / 32 {
      AndNotMask(words[v / 32], Index(v), Index(u));
      if Index(u) == Index(v) {
        SamePosition(u, v);
      }
    }
  }

  class BitSet {
    /** The words of the backing vector (its whole buffer). */
    var words: array<bv32>
    /** `_size`: a uint64 counter of set calls minus reset calls. */
    var count: nat

    ghost predicate Valid()
      reads this
    {
      count < Hashing.TwoTo64
    }

    /** The default constructor: no words at all. */
    constructor ()
      ensures Valid() && fresh(words) && words[..] == [] && count == 0
    {
      words := new bv32[0];
      count := 0;
    }

    /** `bit_set(n)`: n / 32 + 1 zero words. */
    constructor WithCapacity(n: nat)
      ensures Valid() && fresh(words) && words[..] == Zeros(n / 32 + 1) && count == 0
    {
      words := new bv32[n / 32 + 1](_ => 0);
      count := 0;
    }

    /**
     * `resize(n)`: the counter restarts at 0. The backing vector's own
     * `resize` only reallocates when it must grow, and as its size is 0 it
     * copies nothing: growing clears every bit, not growing keeps them all.
     */
    method Resize(n: nat)
      requires Valid()
      modifies this
      ensures Valid() && count == 0
      ensures old(words.Length) < n / 32 + 1 ==> fresh(words) && words[..] == Zeros(n / 32 + 1)
      ensures n / 32 + 1 <= old(words.Length) ==> words == old(words)
    {
      if words.Length < n / 32 + 1 {
        words := new bv32[n / 32 + 1](_ => 0);
      }
      count := 0;
    }

    /**
     * `set(v)`: ORs the mask into word v / 32 and bumps the counter, whether
     * or not the bit was already on; a word index past the buffer is the
     * vector's out-of-range fault.
     */
    method Set(v: nat) returns (r: Result<()>)
      requires Valid()
      modifies this, words
      ensures Valid() && words == old(words)
      ensures r.Ok? <==> v / 32 < words.Length
      ensures r.Ok? ==> words[..] == WithBit(old(words[..]), v) && count == (old(count) + 1) % Hashing.TwoTo64
      ensures r.Fail? ==> words[..] == old(words[..]) && count == old(count)
    {
      var i := v / 32;
      if i >= words.Length {
        return Fail("out of range");
      }
      words[i] := Raised(words[i], Index(v));
      count := (count + 1) % Hashing.TwoTo64;
      r := Ok(());
    }

    /**
     * `reset(v)`: clears the bit and decrements the counter, wrapping from
     * 0 to 2^64 - 1.
     */
    method Reset(v: nat) returns (r: Result<()>)
      requires Valid()
      modifies this, words
      ensures Valid() && words == old(words)
      ensures r.Ok? <==> v / 32 < words.Length
      ensures r.Ok? ==> words[..] == WithoutBit(old(words[..]), v) && count == (old(count) - 1) % Hashing.TwoTo64
      ensures r.Fail? ==> words[..] == old(words[..]) && count == old(count)
    {
      var i := v / 32;
      if i >= words.Length {
        return Fail("out of range");
      }
      words[i] := Cleared(words[i], Index(v));
      count := (count - 1) % Hashing.TwoTo64;
      r := Ok(());
    }

    /** `size()`: the counter, not the number of bits that are on. */
    function Size(): (n: nat)
      reads this
      requires Valid()
      ensures n < Hashing.TwoTo64
    {
      count
    }

    /**
     * `test(v)`: false whenever the counter is 0, before any index is looked
     * at; otherwise the bit, or the out-of-range fault.
     */
    function Test(v: nat): (r: Result<bool>)
      reads this, words
      ensures count == 0 ==> r == Ok(false)
      ensures count != 0 ==> (r.Ok? <==> v / 32 < words.Length)
      ensures count != 0 && r.Ok? ==> r.value == BitOn(words[..], v)
    {
      if count == 0 then Ok(false)
      else if v / 32 >= words.Length then Fail("out of range")
      else Ok(BitOn(words[..], v))
    }
  }

  /**
   * After a successful `set(v)`, `test(v)` holds and every other position
   * tests as before, unless the counter wrapped to 0.
   */
  method SetThenTest(b: BitSet, v: nat, u: nat)
    requires b.Valid() && v / 32 < b.words.Length && u / 32 < b.words.Length
    requires b.count + 1 < Hashing.TwoTo64
    modifies b, b.words
    ensures b.Test(v) == Ok(true)
    ensures u != v && old(b.count) != 0 ==> b.Test(u) == old(b.Test(u))
  {
    ghost var before := b.words[..];
    var r := b.Set(v);
    SetChangesOnlyV(before, v, v);
    SetChangesOnlyV(before, v, u);
  }

  /** After a successful `reset(v)` with a nonzero counter, `test(v)` is false. */
  method ResetThenTest(b: BitSet, v: nat, u: nat)
    requires b.Valid() && v / 32 < b.words.Length && u / 32 < b.words.Length
    modifies b, b.words
    ensures b.Test(v) == Ok(false)
    ensures u != v && b.count != 0 && old(b.count) != 0 ==> b.Test(u) == old(b.Test(u))
  {
    ghost var before := b.words[..];
    var r := b.Reset(v);
    ResetChangesOnlyV(before, v, v);
    ResetChangesOnlyV(before, v, u);
  }
}
