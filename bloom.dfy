// The `bloom_filter`: three multiplier hashes of an element, each reduced
// modulo the capacity, pick three positions of a `bit_set`; `set` turns
// them on and `test` asks whether all three are on.
module Blooms {
  import opened Wrappers
  import Hashing
  import opened BitSets

  /** The three positions of an element whose base hash is h. */
  function Positions(h: nat, capacity: nat): (ps: seq<nat>)
    requires h < Hashing.TwoTo64 && capacity > 0
    ensures |ps| == 3 && forall i :: 0 <= i < 3 ==> ps[i] < capacity
  {
    [Hashing.SdmmHash(h) % capacity, Hashing.DjbHash(h) % capacity, Hashing.PjwHash(h) % capacity]
  }

  /** The words after setting positions p, q and r in that order. */
  function WithBits(words: seq<bv32>, ps: seq<nat>): (ws: seq<bv32>)
    requires forall i :: 0 <= i < |ps| ==> ps[i] / 32 < |words|
    ensures |ws| == |words|
    decreases |ps|
  {
    if ps == [] then words else WithBits(WithBit(words, ps[0]), ps[1..])
  }

  /**
   * Setting a list of positions turns exactly those on and leaves every
   * other position as it was: bits are only ever added.
   */
  lemma {:induction false} WithBitsOn(words: seq<bv32>, ps: seq<nat>, u: nat)
    requires forall i :: 0 <= i < |ps| ==> ps[i] / 32 < |words|
    requires u / 32 < |words|
    ensures BitOn(WithBits(words, ps), u) <==> u in ps || BitOn(words, u)
    decreases |ps|
  {
    if ps != [] {
      var next := WithBit(words, ps[0]);
      SetChangesOnlyV(words, ps[0], u);
      WithBitsOn(next, ps[1..], u);
      assert u in ps <==> u == ps[0] || u in ps[1..] by {
        assert ps == [ps[0]] + ps[1..];
      }
    }
  }

  lemma WithThreeBits(words: seq<bv32>, ps: seq<nat>)
    requires |ps| == 3 && forall i :: 0 <= i < 3 ==> ps[i] / 32 < |words|
    ensures WithBits(words, ps) == WithBit(WithBit(WithBit(words, ps[0]), ps[1]), ps[2])
  {
    var w1 := WithBit(words, ps[0]);
    var w2 := WithBit(w1, ps[1]);
    var w3 := WithBit(w2, ps[2]);
    assert ps[1..][0] == ps[1] && ps[1..][1..] == ps[2..] && ps[2..][0] == ps[2] && ps[2..][1..] == [];
    assert WithBits(words, ps) == WithBits(w1, ps[1..]);
    assert WithBits(w1, ps[1..]) == WithBits(w2, ps[2..]);
    assert WithBits(w2, ps[2..]) == WithBits(w3, []) == w3;
  }

  /** Every position below the capacity falls in a word of the bit set. */
  lemma InRange(ps: seq<nat>, capacity: nat)
    requires forall i :: 0 <= i < |ps| ==> ps[i] < capacity
    ensures forall i :: 0 <= i < |ps| ==> ps[i] / 32 <= capacity / 32
  {
    forall i | 0 <= i < |ps|
      ensures ps[i] / 32 <= capacity / 32
    {
      DivMono(ps[i], capacity);
    }
  }

  /** Three wrapping increments of a uint64 counter add three, wrapping. */
  lemma ThreeIncrements(c: nat)
    requires c < Hashing.TwoTo64
    ensures (((c + 1) % Hashing.TwoTo64 + 1) % Hashing.TwoTo64 + 1) % Hashing.TwoTo64 == (c + 3) % Hashing.TwoTo64
  {
  }

  lemma DivMono(a: nat, b: nat)
    requires a <= b
    ensures a / 32 <= b / 32
  {
  }

  class BloomFilter<T> {
    /** The hash functor's base value of an element (`hash_imitation_functions`). */
    const hash: T -> nat
    const capacity: nat
    var bits: BitSet

    ghost predicate Valid()
      reads this, bits
    {
      bits.Valid() && capacity < Hashing.TwoTo64 && capacity / 32 < bits.words.Length
    }

    /** The uint64 base hash of x. */
    function Base(x: T): (h: nat)
      ensures h < Hashing.TwoTo64
    {
      hash(x) % Hashing.TwoTo64
    }

    /** The default constructor: capacity 1000. */
    constructor Default(hash: T -> nat)
      ensures Valid() && fresh(bits) && this.hash == hash && capacity == 1000
      ensures bits.count == 0 && bits.words[..] == Zeros(1000 / 32 + 1)
    {
      this.hash := hash;
      capacity := 1000;
      var b := new BitSet();
      b.Resize(1000);
      bits := b;
    }

    /** `bloom_filter(n)`: capacity n. */
    constructor (hash: T -> nat, n: nat)
      requires n < Hashing.TwoTo64
      ensures Valid() && fresh(bits) && this.hash == hash && capacity == n
      ensures bits.count == 0 && bits.words[..] == Zeros(n / 32 + 1)
    {
      this.hash := hash;
      capacity := n;
      var b := new BitSet();
      b.Resize(n);
      bits := b;
    }

    /** `size()`: the bit set's call counter. */
    function Size(): (n: nat)
      reads this, bits
      requires Valid()
      ensures n < Hashing.TwoTo64
    {
      bits.count
    }

    /**
     * `test(x)`: true iff the three positions of x are all on (and the bit
     * set's counter is nonzero, as `bit_set::test` demands). A capacity of 0
     * would divide by zero.
     */
    function Test(x: T): (r: bool)
      reads this, bits, bits.words
      requires Valid() && capacity > 0
      ensures var ps := Positions(Base(x), capacity);
        r <==> bits.count != 0 && BitOn(bits.words[..], ps[0]) &&
               BitOn(bits.words[..], ps[1]) && BitOn(bits.words[..], ps[2])
    {
      var ps := Positions(Base(x), capacity);
      bits.Test(ps[0]) == Ok(true) && bits.Test(ps[1]) == Ok(true) && bits.Test(ps[2]) == Ok(true)
    }

    /** `set(x)`: sets the three positions of x, in order. */
    method Set(x: T)
      requires Valid() && capacity > 0
      modifies bits, bits.words
      ensures Valid() && bits.words == old(bits.words)
      ensures bits.words[..] == WithBits(old(bits.words[..]), Positions(Base(x), capacity))
      ensures bits.count == (old(bits.count) + 3) % Hashing.TwoTo64
    {
      var ps := Positions(Base(x), capacity);
      InRange(ps, capacity);
      WithThreeBits(bits.words[..], ps);
      ThreeIncrements(bits.count);
      var r0 := bits.Set(ps[0]);
      var r1 := bits.Set(ps[1]);
      var r2 := bits.Set(ps[2]);
    }
  }

  /**
   * No false negatives: once x has been set, `test(x)` holds, and so does
   * `test(y)` for every y that tested true before; the one exception is the
   * bit set's uint64 call counter wrapping round to exactly 0.
   */
  method SetThenTest<T>(f: BloomFilter<T>, x: T, y: T)
    requires f.Valid() && f.capacity > 0
    requires (f.bits.count + 3) % Hashing.TwoTo64 != 0
    modifies f.bits, f.bits.words
    ensures f.Valid()
    ensures f.Test(x)
    ensures old(f.Test(y)) ==> f.Test(y)
  {
    ghost var before := f.bits.words[..];
    ghost var ps := Positions(f.Base(x), f.capacity);
    ghost var qs := Positions(f.Base(y), f.capacity);
    InRange(ps, f.capacity);
    InRange(qs, f.capacity);
    f.Set(x);
    WithBitsOn(before, ps, ps[0]);
    WithBitsOn(before, ps, ps[1]);
    WithBitsOn(before, ps, ps[2]);
    WithBitsOn(before, ps, qs[0]);
    WithBitsOn(before, ps, qs[1]);
    WithBitsOn(before, ps, qs[2]);
  }
}
