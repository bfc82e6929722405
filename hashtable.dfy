// The chained `hash_table` of the base container library. Each bucket is a
// singly linked chain whose head is the most recently inserted element of
// that bucket; a second, doubly linked list threads every element in
// insertion order. The chains are modelled as sequences (head first) and
// the insertion-order list as the sequence `order`.
module HashTables {
  import opened Wrappers

  /**
   * The two functors of a table: the identity comparison looks at `key`
   * (`container_imitate_function`), the bucket is chosen by `hash`.
   */
  datatype Hasher<K, -V> = Hasher(key: V -> K, hash: V -> nat)

  /** The bucket of x in a table of the given capacity. */
  function Slot<K, V>(h: Hasher<K, V>, x: V, capacity: nat): nat
    requires capacity > 0
  {
    h.hash(x) % capacity
  }

  /**
   * The chain of bucket b when the elements were inserted in the order s,
   * each at the head of its chain: the elements of s that hash to b, latest
   * first.
   */
  function Chain<K, V>(h: Hasher<K, V>, s: seq<V>, b: nat, capacity: nat): seq<V>
    requires capacity > 0
    decreases |s|
  {
    if s == [] then []
    else
      var x := s[|s| - 1];
      if Slot(h, x, capacity) == b then [x] + Chain(h, s[..|s| - 1], b, capacity)
      else Chain(h, s[..|s| - 1], b, capacity)
  }

  /** x and y have the same key and the same bucket: `find` cannot tell them apart. */
  ghost predicate Clash<K, V>(h: Hasher<K, V>, x: V, y: V, capacity: nat)
    requires capacity > 0
  {
    h.key(x) == h.key(y) && Slot(h, x, capacity) == Slot(h, y, capacity)
  }

  /** No two stored elements clash. */
  ghost predicate Unambiguous<K, V>(h: Hasher<K, V>, s: seq<V>, capacity: nat)
    requires capacity > 0
  {
    forall i, j :: 0 <= i < j < |s| ==> !Clash(h, s[i], s[j], capacity)
  }

  /** Nothing stored clashes with v. */
  ghost predicate Absent<K, V>(h: Hasher<K, V>, s: seq<V>, v: V, capacity: nat)
    requires capacity > 0
  {
    forall y :: y in s ==> !Clash(h, y, v, capacity)
  }

  /** The walk of `find` along a chain: the first element with key k. */
  function Search<K(==), V>(h: Hasher<K, V>, chain: seq<V>, k: K): (r: Option<V>)
    ensures r.Some? ==> r.value in chain && h.key(r.value) == k
    ensures r.None? ==> forall i :: 0 <= i < |chain| ==> h.key(chain[i]) != k
  {
    if chain == [] then None
    else if h.key(chain[0]) == k then Some(chain[0])
    else Search(h, chain[1..], k)
  }

  /** The intended unlink of `pop`: the chain without its first element with key k. */
  function RemoveKey<K(==), V>(h: Hasher<K, V>, chain: seq<V>, k: K): seq<V>
  {
    if chain == [] then []
    else if h.key(chain[0]) == k then chain[1..]
    else [chain[0]] + RemoveKey(h, chain[1..], k)
  }

  /**
   * The unlink `pop` performs through `hash_chain_adjustment`: past the head
   * the parent is relinked to the successor, but a match at the head empties
   * the whole bucket.
   */
  function UnlinkAsWritten<K(==), V>(h: Hasher<K, V>, chain: seq<V>, k: K): (r: seq<V>)
    ensures chain != [] && h.key(chain[0]) == k ==> r == []
    ensures chain == [] || h.key(chain[0]) != k ==> r == RemoveKey(h, chain, k)
  {
    if chain == [] then []
    else if h.key(chain[0]) == k then []
    else [chain[0]] + RemoveKey(h, chain[1..], k)
  }

  /** The insertion-order list without its last occurrence of y. */
  function RemoveValue<V(==)>(s: seq<V>, y: V): (r: seq<V>)
    ensures multiset(r) == multiset(s) - multiset{y}
    ensures |r| == if y in s then |s| - 1 else |s|
    decreases |s|
  {
    if s == [] then []
    else
      assert s == s[..|s| - 1] + [s[|s| - 1]];
      if s[|s| - 1] == y then s[..|s| - 1]
      else RemoveValue(s[..|s| - 1], y) + [s[|s| - 1]]
  }

  /** The capacity a rehash moves to: 10 for a table of capacity 0, else double. */
  function GrownCapacity(capacity: nat): (c: nat)
    ensures c > capacity && c > 0
    ensures capacity > 0 ==> c == 2 * capacity
  {
    if capacity == 0 then 10 else capacity * 2
  }

  /** One more than the largest `uint64_t`. */
  const Word: nat := 0x1_0000_0000_0000_0000

  /** A product as `uint64_t` arithmetic keeps it: reduced modulo 2^64. */
  function Wrap(x: nat): (r: nat)
    ensures r < Word
    ensures x < Word ==> r == x
  {
    x % Word
  }

  /**
   * The rehash test of `push`: size × 10 ≥ capacity × load factor, each
   * product computed in `uint64_t`. A table of capacity 0 always rehashes.
   */
  predicate NeedsRehash(size: nat, capacity: nat, loadFactor: nat)
    ensures capacity == 0 ==> NeedsRehash(size, capacity, loadFactor)
    ensures size * 10 < Word && capacity * loadFactor < Word ==>
      (NeedsRehash(size, capacity, loadFactor) <==> size * 10 >= capacity * loadFactor)
  {
    Wrap(size * 10) >= Wrap(capacity * loadFactor)
  }

  /**
   * A load factor of 2^63 on a table of capacity 10 makes the right-hand
   * product wrap to 0, so every `push` rehashes, however empty the table.
   */
  lemma HugeLoadFactorAlwaysRehashes(size: nat)
    ensures NeedsRehash(size, 10, Word / 2)
  {
    assert 10 * (Word / 2) == 5 * Word;
  }

  lemma ChainSnoc<K, V>(h: Hasher<K, V>, s: seq<V>, x: V, b: nat, capacity: nat)
    requires capacity > 0
    ensures Chain(h, s + [x], b, capacity) ==
      if Slot(h, x, capacity) == b then [x] + Chain(h, s, b, capacity) else Chain(h, s, b, capacity)
  {
    assert (s + [x])[..|s|] == s;
  }

  /** A bucket's chain holds exactly the stored elements that hash to it. */
  lemma {:induction false} ChainMembers<K, V>(h: Hasher<K, V>, s: seq<V>, b: nat, capacity: nat, y: V)
    requires capacity > 0
    ensures y in Chain(h, s, b, capacity) <==> y in s && Slot(h, y, capacity) == b
    decreases |s|
  {
    if s != [] {
      var p, x := s[..|s| - 1], s[|s| - 1];
      assert s == p + [x];
      ChainMembers(h, p, b, capacity, y);
    }
  }

  lemma UnambiguousPrefix<K, V>(h: Hasher<K, V>, s: seq<V>, n: nat, capacity: nat)
    requires capacity > 0 && n <= |s| && Unambiguous(h, s, capacity)
    ensures Unambiguous(h, s[..n], capacity)
  {
    assert forall i :: 0 <= i < n ==> s[..n][i] == s[i];
  }

  /** Two stored elements of an unambiguous table that clash are the same element. */
  lemma ClashIsSame<K, V>(h: Hasher<K, V>, s: seq<V>, x: V, y: V, capacity: nat)
    requires capacity > 0 && Unambiguous(h, s, capacity)
    requires x in s && y in s && Clash(h, x, y, capacity)
    ensures x == y
  {
    var i :| 0 <= i < |s| && s[i] == x;
    var j :| 0 <= j < |s| && s[j] == y;
  }

  /** Appending an element that clashes with nothing keeps a table unambiguous. */
  lemma UnambiguousSnoc<K, V>(h: Hasher<K, V>, s: seq<V>, v: V, capacity: nat)
    requires capacity > 0 && Unambiguous(h, s, capacity) && Absent(h, s, v, capacity)
    ensures Unambiguous(h, s + [v], capacity)
  {
    var t := s + [v];
    forall i, j | 0 <= i < j < |t|
      ensures !Clash(h, t[i], t[j], capacity)
    {
      assert t[i] == s[i];
      if j < |s| {
        assert t[j] == s[j];
      }
    }
  }

  /**
   * In an unambiguous table, `find`'s walk of bucket b for key k returns
   * exactly the stored element with key k that hashes to b.
   */
  lemma {:induction false} SearchChain<K, V>(h: Hasher<K, V>, s: seq<V>, b: nat, capacity: nat, k: K, y: V)
    requires capacity > 0 && Unambiguous(h, s, capacity)
    ensures Search(h, Chain(h, s, b, capacity), k) == Some(y) <==>
      y in s && h.key(y) == k && Slot(h, y, capacity) == b
    decreases |s|
  {
    if s != [] {
      var p, x := s[..|s| - 1], s[|s| - 1];
      assert s == p + [x];
      UnambiguousPrefix(h, s, |s| - 1, capacity);
      SearchChain(h, p, b, capacity, k, y);
      if Slot(h, x, capacity) == b {
        var c := Chain(h, p, b, capacity);
        assert ([x] + c)[0] == x && ([x] + c)[1..] == c;
        if h.key(x) == k && y in s && h.key(y) == k && Slot(h, y, capacity) == b {
          ClashIsSame(h, s, x, y, capacity);
        }
      }
    }
  }

  /** `find` fails exactly when nothing stored clashes with v. */
  lemma SearchAbsent<K, V>(h: Hasher<K, V>, s: seq<V>, v: V, capacity: nat)
    requires capacity > 0 && Unambiguous(h, s, capacity)
    ensures Search(h, Chain(h, s, Slot(h, v, capacity), capacity), h.key(v)).None? <==> Absent(h, s, v, capacity)
  {
    var r := Search(h, Chain(h, s, Slot(h, v, capacity), capacity), h.key(v));
    if r.Some? {
      SearchChain(h, s, Slot(h, v, capacity), capacity, h.key(v), r.value);
    }
    if !Absent(h, s, v, capacity) {
      var y :| y in s && Clash(h, y, v, capacity);
      SearchChain(h, s, Slot(h, v, capacity), capacity, h.key(v), y);
    }
  }

  /**
   * Removing y from the insertion order removes it from its own chain (as
   * the first element there with its key) and leaves every other chain alone.
   */
  lemma {:induction false} ChainRemove<K, V>(h: Hasher<K, V>, s: seq<V>, y: V, b: nat, capacity: nat)
    requires capacity > 0 && Unambiguous(h, s, capacity) && y in s
    ensures Chain(h, RemoveValue(s, y), b, capacity) ==
      if Slot(h, y, capacity) == b then RemoveKey(h, Chain(h, s, b, capacity), h.key(y))
      else Chain(h, s, b, capacity)
    decreases |s|
  {
    var p, x := s[..|s| - 1], s[|s| - 1];
    assert s == p + [x];
    var c := Chain(h, p, b, capacity);
    assert ([x] + c)[0] == x && ([x] + c)[1..] == c;
    if x != y {
      UnambiguousPrefix(h, s, |s| - 1, capacity);
      ChainRemove(h, p, y, b, capacity);
      ChainSnoc(h, RemoveValue(p, y), x, b, capacity);
      if Slot(h, x, capacity) == b && Slot(h, y, capacity) == b && h.key(x) == h.key(y) {
        ClashIsSame(h, s, x, y, capacity);
      }
    }
  }

  /** Removing an element keeps a table unambiguous. */
  lemma {:induction false} RemoveUnambiguous<K, V>(h: Hasher<K, V>, s: seq<V>, y: V, capacity: nat)
    requires capacity > 0 && Unambiguous(h, s, capacity)
    ensures Unambiguous(h, RemoveValue(s, y), capacity)
    decreases |s|
  {
    if s != [] {
      var p, x := s[..|s| - 1], s[|s| - 1];
      assert s == p + [x];
      UnambiguousPrefix(h, s, |s| - 1, capacity);
      if x != y {
        RemoveUnambiguous(h, p, y, capacity);
        var t := RemoveValue(p, y);
        forall z | z in t
          ensures !Clash(h, z, x, capacity)
        {
          RemovedFrom(p, y, z);
          var i :| 0 <= i < |p| && p[i] == z;
          assert s[i] == z;
        }
        UnambiguousSnoc(h, t, x, capacity);
      }
    }
  }

  /** Removing adds nothing. */
  lemma RemovedFrom<V>(s: seq<V>, y: V, z: V)
    requires z in RemoveValue(s, y)
    ensures z in s
  {
    assert z in multiset(RemoveValue(s, y));
  }

  /** An unambiguous list has no repeats, so removing y leaves none behind. */
  lemma {:induction false} RemoveDistinct<K, V>(h: Hasher<K, V>, s: seq<V>, y: V, capacity: nat)
    requires capacity > 0 && Unambiguous(h, s, capacity)
    ensures y !in RemoveValue(s, y)
    decreases |s|
  {
    if s != [] {
      var p := s[..|s| - 1];
      UnambiguousPrefix(h, s, |s| - 1, capacity);
      if s[|s| - 1] != y {
        RemoveDistinct(h, p, y, capacity);
        assert RemoveValue(s, y) == RemoveValue(p, y) + [s[|s| - 1]];
      }
    }
  }

  /** After removing the element that clashes with v, nothing clashes with v. */
  lemma RemoveAbsent<K, V>(h: Hasher<K, V>, s: seq<V>, y: V, v: V, capacity: nat)
    requires capacity > 0 && Unambiguous(h, s, capacity) && y in s && Clash(h, y, v, capacity)
    ensures Absent(h, RemoveValue(s, y), v, capacity)
  {
    var t := RemoveValue(s, y);
    RemoveDistinct(h, s, y, capacity);
    forall z | z in t
      ensures !Clash(h, z, v, capacity)
    {
      assert z in multiset(t);
      if Clash(h, z, v, capacity) {
        ClashIsSame(h, s, z, y, capacity);
      }
    }
  }

  /** q × c + m with m < c leaves remainder m on division by c. */
  lemma ModOfSum(a: nat, q: nat, c: nat, m: nat)
    requires c > 0 && m < c && a == q * c + m
    ensures a % c == m
  {
    var q', m' := a / c, a % c;
    assert a == q' * c + m';
    if q' < q {
      MulLe(q' + 1, q, c);
    } else if q < q' {
      MulLe(q + 1, q', c);
    }
  }

  lemma {:induction false} MulLe(x: nat, y: nat, c: nat)
    requires x <= y
    ensures x * c <= y * c
    decreases y - x
  {
    if x < y {
      MulLe(x, y - 1, c);
      assert y * c == (y - 1) * c + c;
    }
  }

  /** The bucket of a value in the doubled table determines its bucket in the old one. */
  lemma ModOfDouble(a: nat, c: nat)
    requires c > 0
    ensures (a % (2 * c)) % c == a % c
  {
    var q, r := Split(a, 2 * c);
    var d, m := Split(r, c);
    Regroup(q, d, c);
    ModOfSum(a, 2 * q + d, c, m);
  }

  /** Euclidean division of a by c, as a quotient and a remainder. */
  lemma Split(a: nat, c: nat) returns (q: nat, m: nat)
    requires c > 0
    ensures a == q * c + m && m == a % c && m < c
  {
    q, m := a / c, a % c;
  }

  lemma Regroup(q: int, d: int, c: int)
    ensures q * (2 * c) + d * c == (2 * q + d) * c
  {
  }

  /** Doubling the capacity only splits buckets, so nothing new clashes. */
  lemma ClashOfDouble<K, V>(h: Hasher<K, V>, x: V, y: V, capacity: nat)
    requires capacity > 0 && Clash(h, x, y, 2 * capacity)
    ensures Clash(h, x, y, capacity)
  {
    ModOfDouble(h.hash(x), capacity);
    ModOfDouble(h.hash(y), capacity);
  }

  /** Doubling the capacity keeps a table unambiguous. */
  lemma DoubleUnambiguous<K, V>(h: Hasher<K, V>, s: seq<V>, capacity: nat)
    requires capacity > 0 && Unambiguous(h, s, capacity)
    ensures Unambiguous(h, s, 2 * capacity)
  {
    forall i, j | 0 <= i < j < |s|
      ensures !Clash(h, s[i], s[j], 2 * capacity)
    {
      if Clash(h, s[i], s[j], 2 * capacity) {
        ClashOfDouble(h, s[i], s[j], capacity);
      }
    }
  }

  /** Doubling the capacity keeps v clear of every stored element. */
  lemma DoubleAbsent<K, V>(h: Hasher<K, V>, s: seq<V>, v: V, capacity: nat)
    requires capacity > 0 && Absent(h, s, v, capacity)
    ensures Absent(h, s, v, 2 * capacity)
  {
    forall y | y in s
      ensures !Clash(h, y, v, 2 * capacity)
    {
      if Clash(h, y, v, 2 * capacity) {
        ClashOfDouble(h, y, v, capacity);
      }
    }
  }

  /**
   * The bug of `pop`: with identity key and hash and capacity 10, pushing 1
   * and then 11 leaves bucket 1 as [11, 1]; popping 11 as written empties
   * the bucket, so 1 is still in the insertion list but `find(1)` fails,
   * while the intended unlink keeps [1].
   */
  lemma PopDropsChain()
    ensures var h := Hasher((x: nat) => x, (x: nat) => x);
      Chain(h, [1, 11], 1, 10) == [11, 1] &&
      UnlinkAsWritten(h, [11, 1], 11) == [] &&
      Search(h, UnlinkAsWritten(h, [11, 1], 11), 1) == None &&
      RemoveValue([1, 11], 11) == [1] &&
      RemoveKey(h, [11, 1], 11) == Chain(h, [1], 1, 10) == [1] &&
      Search(h, RemoveKey(h, [11, 1], 11), 1) == Some(1)
  {
    var h := Hasher((x: nat) => x, (x: nat) => x);
    assert [1, 11][..1] == [1] && [1][..0] == [];
    assert [11, 1][1..] == [1];
  }

  class HashTable<K(==), V(==)> {
    const h: Hasher<K, V>
    /** `vector_hash_table`: the chain of every bucket, head first. */
    var buckets: seq<seq<V>>
    /** The global list, in insertion order. */
    var order: seq<V>
    var size: nat
    var loadFactor: nat
    var capacity: nat

    ghost predicate Valid()
      reads this
    {
      |buckets| == capacity && size == |order| && 1 <= loadFactor < Word &&
      (order != [] ==> capacity > 0) &&
      (capacity > 0 ==>
        Unambiguous(h, order, capacity) &&
        forall b :: 0 <= b < capacity ==> buckets[b] == Chain(h, order, b, capacity))
    }

    /** The default constructor: capacity 10, load factor 7. */
    constructor Default(h: Hasher<K, V>)
      ensures Valid() && this.h == h && order == [] && capacity == 10 && loadFactor == 7
    {
      this.h := h;
      buckets := seq(10, _ => []);
      order := [];
      size := 0;
      loadFactor := 7;
      capacity := 10;
    }

    /** `hash_table(n)`: capacity n, load factor 7. */
    constructor (h: Hasher<K, V>, n: nat)
      ensures Valid() && this.h == h && order == [] && capacity == n && loadFactor == 7
    {
      this.h := h;
      buckets := seq(n, _ => []);
      order := [];
      size := 0;
      loadFactor := 7;
      capacity := n;
    }

    /** `change_load_factor(f)`, f a `uint64_t`: rejects a factor below 1. */
    method ChangeLoadFactor(f: nat) returns (ok: bool)
      requires Valid() && f < Word
      modifies this
      ensures Valid() && ok == (f >= 1)
      ensures loadFactor == if ok then f else old(loadFactor)
      ensures buckets == old(buckets) && order == old(order) && capacity == old(capacity)
    {
      if f < 1 {
        return false;
      }
      loadFactor := f;
      ok := true;
    }

    /**
     * What `find(v)` returns: nothing in an empty table, else the stored
     * element with v's key in v's bucket, if there is one.
     */
    ghost function Found(v: V): (r: Option<V>)
      reads this
      requires Valid()
      ensures r.Some? ==> r.value in order && Clash(h, r.value, v, capacity)
      ensures r.None? <==> size == 0 || Absent(h, order, v, capacity)
    {
      if size == 0 then None
      else
        var b := Slot(h, v, capacity);
        var r := Search(h, buckets[b], h.key(v));
        SearchAbsent(h, order, v, capacity);
        if r.Some? then
          SearchChain(h, order, b, capacity, h.key(v), r.value);
          r
        else r
    }

    /** `find(v)`: walks v's chain for the first element with v's key. */
    method Find(v: V) returns (r: Option<V>)
      requires Valid()
      ensures r == Found(v)
    {
      if size == 0 {
        return None;
      }
      var chain := buckets[Slot(h, v, capacity)];
      var i := 0;
      while i < |chain|
        invariant 0 <= i <= |chain|
        invariant Search(h, chain[i..], h.key(v)) == Search(h, chain, h.key(v))
      {
        if h.key(chain[i]) == h.key(v) {
          return Some(chain[i]);
        }
        assert chain[i..][1..] == chain[i + 1..];
        i := i + 1;
      }
      r := None;
    }

    /**
     * The rehash inside `push`: a bucket vector of the grown capacity is
     * filled by walking the global list in insertion order and putting each
     * element at the head of its new chain; the global list keeps its order.
     */
    method Rehash()
      requires Valid()
      modifies this
      ensures Valid() && capacity == GrownCapacity(old(capacity))
      ensures order == old(order) && size == old(size) && loadFactor == old(loadFactor)
    {
      var c := GrownCapacity(capacity);
      if capacity > 0 {
        DoubleUnambiguous(h, order, capacity);
      }
      var grown: seq<seq<V>> := seq(c, _ => []);
      var i := 0;
      while i < |order|
        invariant 0 <= i <= |order| && |grown| == c
        invariant forall b :: 0 <= b < c ==> grown[b] == Chain(h, order[..i], b, c)
      {
        var x := order[i];
        var b := Slot(h, x, c);
        grown := grown[b := [x] + grown[b]];
        assert order[..i + 1] == order[..i] + [x];
        forall b' | 0 <= b' < c
          ensures grown[b'] == Chain(h, order[..i + 1], b', c)
        {
          ChainSnoc(h, order[..i], x, b', c);
        }
        i := i + 1;
      }
      assert order[..i] == order;
      buckets := grown;
      capacity := c;
    }

    /**
     * `push(v)`: refused when `find(v)` succeeds; otherwise, after a rehash
     * when size × 10 ≥ capacity × load factor, v goes to the head of its
     * chain and the end of the global list.
     */
    method Push(v: V) returns (ok: bool)
      requires Valid()
      modifies this
      ensures Valid() && loadFactor == old(loadFactor)
      ensures ok <==> old(Found(v)).None?
      ensures !ok ==> order == old(order) && capacity == old(capacity) && buckets == old(buckets)
      ensures ok ==> order == old(order) + [v] && size == old(size) + 1
      ensures ok ==> capacity == if NeedsRehash(old(size), old(capacity), old(loadFactor))
                                 then GrownCapacity(old(capacity)) else old(capacity)
      ensures ok ==> Found(v) == Some(v)
    {
      var r := Find(v);
      if r.Some? {
        return false;
      }
      ghost var c0 := capacity;
      if NeedsRehash(size, capacity, loadFactor) {
        Rehash();
        if c0 > 0 && order != [] {
          DoubleAbsent(h, order, v, c0);
        }
      }
      var b := Slot(h, v, capacity);
      SearchAbsent(h, order, v, capacity);
      UnambiguousSnoc(h, order, v, capacity);
      forall b' | 0 <= b' < capacity
        ensures buckets[b := [v] + buckets[b]][b'] == Chain(h, order + [v], b', capacity)
      {
        ChainSnoc(h, order, v, b', capacity);
      }
      buckets := buckets[b := [v] + buckets[b]];
      order := order + [v];
      size := size + 1;
      ok := true;
    }

    /**
     * `pop(v)`, with the chain unlinked as intended: refused when `find(v)`
     * fails; otherwise the element found leaves its chain and the global
     * list, every other element stays where it was, and `find(v)` now fails.
     */
    method Pop(v: V) returns (ok: bool)
      requires Valid()
      modifies this
      ensures Valid() && capacity == old(capacity) && loadFactor == old(loadFactor)
      ensures ok <==> old(Found(v)).Some?
      ensures !ok ==> order == old(order) && buckets == old(buckets)
      ensures ok ==> order == RemoveValue(old(order), old(Found(v)).value) && size == old(size) - 1
      ensures ok ==> Found(v).None?
    {
      var r := Find(v);
      if r.None? {
        return false;
      }
      var b := Slot(h, v, capacity);
      var rest := Unlink(buckets[b], h.key(v));
      PopLayout(v, r.value);
      buckets := buckets[b := rest];
      order := RemoveValue(order, r.value);
      size := size - 1;
      ok := true;
    }

    /** The walk of `pop` along a chain to the first element with key k, and its unlink. */
    method Unlink(chain: seq<V>, k: K) returns (rest: seq<V>)
      ensures rest == RemoveKey(h, chain, k)
    {
      var i := 0;
      while i < |chain| && h.key(chain[i]) != k
        invariant 0 <= i <= |chain|
        invariant RemoveKey(h, chain, k) == chain[..i] + RemoveKey(h, chain[i..], k)
      {
        assert chain[i..][1..] == chain[i + 1..];
        assert chain[..i + 1] == chain[..i] + [chain[i]];
        i := i + 1;
      }
      if i == |chain| {
        return chain;
      }
      assert chain[i..][1..] == chain[i + 1..];
      rest := chain[..i] + chain[i + 1..];
    }

    /** The table after the element y that `find(v)` returned has been popped. */
    lemma PopLayout(v: V, y: V)
      requires Valid() && size > 0 && y in order && Clash(h, y, v, capacity)
      ensures var s := RemoveValue(order, y);
        Unambiguous(h, s, capacity) && Absent(h, s, v, capacity) &&
        forall b :: 0 <= b < capacity ==>
          buckets[Slot(h, v, capacity) := RemoveKey(h, buckets[Slot(h, v, capacity)], h.key(v))][b]
            == Chain(h, s, b, capacity)
    {
      RemoveUnambiguous(h, order, y, capacity);
      RemoveAbsent(h, order, y, v, capacity);
      forall b | 0 <= b < capacity
        ensures Chain(h, RemoveValue(order, y), b, capacity) ==
          if Slot(h, y, capacity) == b then RemoveKey(h, buckets[b], h.key(y)) else buckets[b]
      {
        ChainRemove(h, order, y, b, capacity);
      }
    }

    /** `size()` */
    function Size(): (n: nat)
      reads this
      requires Valid()
      ensures n == |order|
    {
      size
    }

    /** `empty()` */
    function Empty(): (r: bool)
      reads this
      requires Valid()
      ensures r <==> order == []
    {
      size == 0
    }
  }
}
