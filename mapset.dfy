// `tree_map`, `hash_map`, `tree_set` and `hash_set`: thin wrappers that hand
// every operation to the red-black tree or to the chained hash table; what
// each one adds is the key of an element and the bucket hash.
module MapsAndSets {
  import opened Wrappers
  import opened Utility
  import Hashing
  import RB = RedBlackTrees
  import HT = HashTables

  const M: nat := Hashing.TwoTo64

  /** The key extractor of `tree_map`: a pair is known by its `first`. */
  function First<W>(p: Pair<int, W>): int
  {
    p.first
  }

  /** The key extractor of `tree_set`: an element is its own key. */
  function Id(x: int): int
  {
    x
  }

  /**
   * `inbuilt_map_hash_functor`: 31 × h(first) plus 31 × h(second), each
   * product and the sum taken in uint64.
   */
  function MapHash(hk: nat, hv: nat): (r: nat)
    requires hk < M && hv < M
    ensures r < M && r == (31 * hk + 31 * hv) % M
  {
    assert hk % M == hk;
    Hashing.ModAddMul(hv * 31, hk);
    (hk * 31 % M + hv * 31 % M) % M
  }

  /** The bucket hash a `hash_map` needs for its keys to be unique: 31 × h(first) alone. */
  function KeyHash(hk: nat): (r: nat)
    ensures r < M && r == 31 * hk % M
  {
    hk * 31 % M
  }

  /** `inbuilt_set_hash_functor`: 131 × h(x), in uint64. */
  function SetHash(h: nat): (r: nat)
    ensures r < M && r == 131 * h % M
  {
    h * 131 % M
  }

  /** The functors `hash_map` gives its table, as written: key `first`, hash of both fields. */
  function MapHasherAsWritten<K, W>(kh: K -> nat, vh: W -> nat): HT.Hasher<K, Pair<K, W>>
  {
    HT.Hasher((p: Pair<K, W>) => p.first, (p: Pair<K, W>) => MapHash(kh(p.first) % M, vh(p.second) % M))
  }

  /** The functors `hash_map` needs: key `first`, and a hash of `first` alone. */
  function MapHasher<K, W>(kh: K -> nat): HT.Hasher<K, Pair<K, W>>
  {
    HT.Hasher((p: Pair<K, W>) => p.first, (p: Pair<K, W>) => KeyHash(kh(p.first) % M))
  }

  /** The functors `hash_set` gives its table: the element is its own key, hashed × 131. */
  function SetHasher<T>(th: T -> nat): HT.Hasher<T, T>
  {
    HT.Hasher((x: T) => x, (x: T) => SetHash(th(x) % M))
  }

  /** With a hash of the key alone, two pairs clash exactly when their keys are equal. */
  lemma MapClash<K, W>(kh: K -> nat, p: Pair<K, W>, q: Pair<K, W>, capacity: nat)
    requires capacity > 0
    ensures HT.Clash(MapHasher(kh), p, q, capacity) <==> p.first == q.first
  {
  }

  /** Hence an unambiguous `hash_map` table holds every key at most once. */
  lemma MapKeysUnique<K, W>(kh: K -> nat, s: seq<Pair<K, W>>, capacity: nat)
    requires capacity > 0 && HT.Unambiguous(MapHasher(kh), s, capacity)
    ensures forall i, j :: 0 <= i < j < |s| ==> s[i].first != s[j].first
  {
    forall i, j | 0 <= i < j < |s|
      ensures s[i].first != s[j].first
    {
      MapClash(kh, s[i], s[j], capacity);
    }
  }

  /** And nothing stored clashes with p exactly when no stored pair has p's key. */
  lemma MapAbsent<K, W>(kh: K -> nat, s: seq<Pair<K, W>>, p: Pair<K, W>, capacity: nat)
    requires capacity > 0
    ensures HT.Absent(MapHasher(kh), s, p, capacity) <==> forall y :: y in s ==> y.first != p.first
  {
    forall y | y in s
      ensures HT.Clash(MapHasher(kh), y, p, capacity) <==> y.first == p.first
    {
      MapClash(kh, y, p, capacity);
    }
  }

  /** In a `hash_set`, two elements clash exactly when they are equal. */
  lemma SetAbsent<T>(th: T -> nat, s: seq<T>, x: T, capacity: nat)
    requires capacity > 0
    ensures HT.Absent(SetHasher(th), s, x, capacity) <==> x !in s
  {
  }

  /**
   * The bucket of a `hash_map` pair depends on its value, while identity
   * looks at the key only: with the scalar hash and capacity 10, the pairs
   * (1, 0) and (1, 1) go to buckets 1 and 2, so the second is not found and
   * is pushed beside the first; and `find` of (1, 5) walks bucket 6 and
   * misses key 1.
   */
  lemma HashMapDuplicateKeys()
    ensures var h := MapHasherAsWritten(Hashing.ScalarHash, Hashing.ScalarHash);
      h.key(Pair(1, 0)) == h.key(Pair(1, 1)) &&
      HT.Slot(h, Pair(1, 0), 10) == 1 && HT.Slot(h, Pair(1, 1), 10) == 2 &&
      HT.Absent(h, [Pair(1, 0)], Pair(1, 1), 10) &&
      HT.Search(h, HT.Chain(h, [Pair(1, 0)], HT.Slot(h, Pair(1, 5), 10), 10), 1) == None
  {
    var h := MapHasherAsWritten(Hashing.ScalarHash, Hashing.ScalarHash);
    assert Hashing.ScalarHash(0) == 0 && Hashing.ScalarHash(1) == 1 && Hashing.ScalarHash(5) == 5;
    assert HT.Slot(h, Pair(1, 0), 10) == 1;
    assert HT.Slot(h, Pair(1, 1), 10) == 2;
    assert HT.Slot(h, Pair(1, 5), 10) == 6;
    assert [Pair(1, 0)][..0] == [];
  }

  /**
   * The elements that pushing ps in order keeps, in order: each one whose
   * key no earlier kept element has.
   */
  ghost function Distinct<V, K>(key: V -> K, ps: seq<V>): (r: seq<V>)
    ensures forall y :: y in r ==> y in ps
    decreases |ps|
  {
    if ps == [] then []
    else
      var s := Distinct(key, ps[..|ps| - 1]);
      var x := ps[|ps| - 1];
      if forall y :: y in s ==> key(y) != key(x) then s + [x] else s
  }

  /** No two elements of r share a key. */
  ghost predicate UniqueKeys<V, K>(key: V -> K, r: seq<V>)
  {
    forall i, j :: 0 <= i < j < |r| ==> key(r[i]) != key(r[j])
  }

  /** The elements of Distinct(key, ps), as a set. */
  ghost function Kept<V, K>(key: V -> K, ps: seq<V>): set<V>
  {
    set y | y in Distinct(key, ps)
  }

  /** No two kept elements share a key. */
  lemma {:induction false} DistinctUnique<V, K>(key: V -> K, ps: seq<V>)
    ensures UniqueKeys(key, Distinct(key, ps))
    decreases |ps|
  {
    if ps != [] {
      var p := ps[..|ps| - 1];
      var x := ps[|ps| - 1];
      DistinctUnique(key, p);
      var s := Distinct(key, p);
      if forall y :: y in s ==> key(y) != key(x) {
        var r := s + [x];
        assert Distinct(key, ps) == r;
        forall i, j | 0 <= i < j < |r|
          ensures key(r[i]) != key(r[j])
        {
          if j == |s| {
            assert r[i] == s[i] && s[i] in s && r[j] == x;
          } else {
            assert r[i] == s[i] && r[j] == s[j];
          }
        }
      } else {
        assert Distinct(key, ps) == s;
      }
    }
  }

  /** The kept elements have exactly the keys that were pushed. */
  lemma {:induction false} DistinctKeys<V, K>(key: V -> K, ps: seq<V>)
    ensures (set y | y in Distinct(key, ps) :: key(y)) == (set x | x in ps :: key(x))
    decreases |ps|
  {
    if ps != [] {
      var p := ps[..|ps| - 1];
      var x := ps[|ps| - 1];
      DistinctKeys(key, p);
      assert ps == p + [x];
      var s := Distinct(key, p);
      if forall y :: y in s ==> key(y) != key(x) {
        assert Distinct(key, ps) == s + [x];
        assert (set y | y in s + [x] :: key(y)) == (set y | y in s :: key(y)) + {key(x)};
        assert (set z | z in ps :: key(z)) == (set z | z in p :: key(z)) + {key(x)};
      } else {
        var y :| y in s && key(y) == key(x);
        assert key(x) in (set y | y in s :: key(y));
        assert (set z | z in ps :: key(z)) == (set z | z in p :: key(z)) + {key(x)};
      }
    }
  }

  lemma DistinctSnoc<V, K>(key: V -> K, ps: seq<V>, i: nat)
    requires i < |ps|
    ensures var s := Distinct(key, ps[..i]);
      Distinct(key, ps[..i + 1]) == if forall y :: y in s ==> key(y) != key(ps[i]) then s + [ps[i]] else s
  {
    assert ps[..i + 1][..i] == ps[..i];
  }

  /** One push of a tree container, seen on its element sets. */
  lemma KeptStep<V, K>(key: V -> K, ps: seq<V>, i: nat, before: set<V>, after: set<V>)
    requires i < |ps| && before == Kept(key, ps[..i])
    requires after == if forall y :: y in before ==> key(y) != key(ps[i]) then before + {ps[i]} else before
    ensures after == Kept(key, ps[..i + 1])
  {
    DistinctSnoc(key, ps, i);
  }

  class TreeMap<W> {
    const tree: RB.RedBlackTree<Pair<int, W>>

    ghost predicate Valid()
      reads this, tree
    {
      tree.Valid() && tree.key == First
    }

    /** An empty map. */
    constructor ()
      ensures Valid() && fresh(tree) && tree.root == RB.Leaf
    {
      tree := new RB.RedBlackTree(First);
    }

    /** The initializer-list constructor: pushes each pair in order, so the first pair of each key stays. */
    constructor FromList(ps: seq<Pair<int, W>>)
      ensures Valid() && fresh(tree)
      ensures RB.Elements(tree.root) == Kept(First, ps)
    {
      tree := new RB.RedBlackTree(First);
      new;
      var i := 0;
      while i < |ps|
        invariant 0 <= i <= |ps| && Valid() && fresh(tree)
        invariant RB.Elements(tree.root) == Kept(First, ps[..i])
      {
        ghost var before := RB.Elements(tree.root);
        var ok := tree.Push(ps[i]);
        KeptStep(First, ps, i, before, RB.Elements(tree.root));
        i := i + 1;
      }
      assert ps[..i] == ps;
    }

    /** `push(p)`: refused when a pair with p's key is stored, else p is added. */
    method Push(p: Pair<int, W>) returns (ok: bool)
      requires Valid()
      modifies tree
      ensures Valid()
      ensures ok <==> forall y :: y in RB.Elements(old(tree.root)) ==> y.first != p.first
      ensures RB.Elements(tree.root) == if ok then RB.Elements(old(tree.root)) + {p} else RB.Elements(old(tree.root))
    {
      ok := tree.Push(p);
    }

    /** `pop(p)`: the pair with p's key goes; the flag returned is false. */
    method Pop(p: Pair<int, W>) returns (second: bool)
      requires Valid()
      modifies tree
      ensures Valid() && !second
      ensures RB.Elements(tree.root) == set y | y in RB.Elements(old(tree.root)) && y.first != p.first
    {
      second := tree.Pop(p);
    }

    /** `find(p)`: the tree's walk for p's key. */
    method Find(p: Pair<int, W>) returns (r: Option<Pair<int, W>>)
      requires Valid()
      ensures r == RB.FindAsWritten(First, tree.root, p.first)
    {
      r := tree.Find(p);
    }

    /** `size()` */
    method Size() returns (n: nat)
      ensures n == RB.Count(tree.root)
    {
      n := tree.Size();
    }

    /** `empty()` */
    function Empty(): (r: bool)
      reads this, tree
      ensures r <==> RB.Elements(tree.root) == {}
    {
      tree.Empty()
    }
  }

  class TreeSet {
    const tree: RB.RedBlackTree<int>

    ghost predicate Valid()
      reads this, tree
    {
      tree.Valid() && tree.key == Id
    }

    /** An empty set. */
    constructor ()
      ensures Valid() && fresh(tree) && tree.root == RB.Leaf
    {
      tree := new RB.RedBlackTree(Id);
    }

    /** The initializer-list constructor: pushes each element in order. */
    constructor FromList(xs: seq<int>)
      ensures Valid() && fresh(tree)
      ensures RB.Elements(tree.root) == set x | x in xs
    {
      tree := new RB.RedBlackTree(Id);
      new;
      var i := 0;
      while i < |xs|
        invariant 0 <= i <= |xs| && Valid() && fresh(tree)
        invariant RB.Elements(tree.root) == set x | x in xs[..i]
      {
        assert xs[..i + 1] == xs[..i] + [xs[i]];
        var ok := tree.Push(xs[i]);
        i := i + 1;
      }
      assert xs[..i] == xs;
    }

    /** `push(x)`: refused when x is stored, else x is added. */
    method Push(x: int) returns (ok: bool)
      requires Valid()
      modifies tree
      ensures Valid()
      ensures ok <==> x !in RB.Elements(old(tree.root))
      ensures RB.Elements(tree.root) == RB.Elements(old(tree.root)) + {x}
    {
      ok := tree.Push(x);
    }

    /** `pop(x)`: x goes; the flag returned is false. */
    method Pop(x: int) returns (second: bool)
      requires Valid()
      modifies tree
      ensures Valid() && !second
      ensures RB.Elements(tree.root) == RB.Elements(old(tree.root)) - {x}
    {
      second := tree.Pop(x);
    }

    /** `find(x)`: the tree's walk for x. */
    method Find(x: int) returns (r: Option<int>)
      requires Valid()
      ensures r == RB.FindAsWritten(Id, tree.root, x)
    {
      r := tree.Find(x);
    }

    /** `size()` */
    method Size() returns (n: nat)
      ensures n == RB.Count(tree.root)
    {
      n := tree.Size();
    }

    /** `empty()` */
    function Empty(): (r: bool)
      reads this, tree
      ensures r <==> RB.Elements(tree.root) == {}
    {
      tree.Empty()
    }
  }

  class HashMap<K(==), W(==)> {
    /** The key functor (`first_external_hash_functions`). */
    const kh: K -> nat
    const table: HT.HashTable<K, Pair<K, W>>

    ghost predicate Valid()
      reads this, table
    {
      table.Valid() && table.h == MapHasher(kh) && table.capacity > 0
    }

    /** An empty map of capacity 10. */
    constructor (kh: K -> nat)
      ensures Valid() && fresh(table) && this.kh == kh && table.order == [] && table.capacity == 10
    {
      this.kh := kh;
      table := new HT.HashTable.Default(MapHasher(kh));
    }

    /** The initializer-list constructor: pushes each pair in order, so the first pair of each key stays. */
    constructor FromList(kh: K -> nat, ps: seq<Pair<K, W>>)
      ensures Valid() && fresh(table) && this.kh == kh
      ensures table.order == Distinct((p: Pair<K, W>) => p.first, ps)
    {
      this.kh := kh;
      table := new HT.HashTable.Default(MapHasher(kh));
      new;
      ghost var key := (p: Pair<K, W>) => p.first;
      var i := 0;
      while i < |ps|
        invariant 0 <= i <= |ps| && Valid() && fresh(table)
        invariant table.order == Distinct(key, ps[..i])
      {
        DistinctSnoc(key, ps, i);
        assert forall y :: key(y) == y.first;
        var ok := Push(ps[i]);
        i := i + 1;
      }
      assert ps[..i] == ps;
    }

    /** `push(p)`: refused when a pair with p's key is stored, else p goes to the end of the order. */
    method Push(p: Pair<K, W>) returns (ok: bool)
      requires Valid()
      modifies table
      ensures Valid()
      ensures ok <==> forall y :: y in old(table.order) ==> y.first != p.first
      ensures table.order == if ok then old(table.order) + [p] else old(table.order)
    {
      MapAbsent(kh, table.order, p, table.capacity);
      ok := table.Push(p);
    }

    /** `pop(p)`: refused when no pair has p's key; else that pair, and nothing else, goes. */
    method Pop(p: Pair<K, W>) returns (ok: bool)
      requires Valid()
      modifies table
      ensures Valid()
      ensures ok <==> exists y :: y in old(table.order) && y.first == p.first
      ensures forall y :: y in table.order ==> y.first != p.first
      ensures forall y :: y in old(table.order) && y.first != p.first ==> y in table.order
      ensures |table.order| == |old(table.order)| - (if ok then 1 else 0)
    {
      MapAbsent(kh, table.order, p, table.capacity);
      ghost var before := table.order;
      ghost var found := table.Found(p);
      ok := table.Pop(p);
      MapAbsent(kh, table.order, p, table.capacity);
      if ok {
        MapClash(kh, found.value, p, table.capacity);
        forall y | y in before && y.first != p.first
          ensures y in table.order
        {
          assert y in multiset(before);
          assert y != found.value;
          assert y in multiset(table.order);
        }
      }
    }

    /** `find(p)`: the stored pair with p's key, if there is one. */
    method Find(p: Pair<K, W>) returns (r: Option<Pair<K, W>>)
      requires Valid()
      ensures r.Some? <==> exists y :: y in table.order && y.first == p.first
      ensures r.Some? ==> r.value in table.order && r.value.first == p.first
    {
      MapAbsent(kh, table.order, p, table.capacity);
      r := table.Find(p);
    }

    /** `size()` */
    function Size(): (n: nat)
      reads this, table
      requires Valid()
      ensures n == |table.order|
    {
      table.Size()
    }

    /** `capacity()` */
    function Capacity(): (c: nat)
      reads this, table
      ensures c == table.capacity
    {
      table.capacity
    }

    /** `empty()` */
    function Empty(): (r: bool)
      reads this, table
      requires Valid()
      ensures r <==> table.order == []
    {
      table.Empty()
    }
  }

  class HashSet<T(==)> {
    /** The element functor (`external_hash_functions`). */
    const th: T -> nat
    const table: HT.HashTable<T, T>

    ghost predicate Valid()
      reads this, table
    {
      table.Valid() && table.h == SetHasher(th) && table.capacity > 0
    }

    /** An empty set of capacity 10. */
    constructor (th: T -> nat)
      ensures Valid() && fresh(table) && this.th == th && table.order == [] && table.capacity == 10
    {
      this.th := th;
      table := new HT.HashTable.Default(SetHasher(th));
    }

    /** The initializer-list constructor: pushes each element in order, so each is kept once. */
    constructor FromList(th: T -> nat, xs: seq<T>)
      ensures Valid() && fresh(table) && this.th == th
      ensures table.order == Distinct((x: T) => x, xs)
    {
      this.th := th;
      table := new HT.HashTable.Default(SetHasher(th));
      new;
      ghost var key := (x: T) => x;
      var i := 0;
      while i < |xs|
        invariant 0 <= i <= |xs| && Valid() && fresh(table)
        invariant table.order == Distinct(key, xs[..i])
      {
        DistinctSnoc(key, xs, i);
        assert (forall y :: y in table.order ==> key(y) != key(xs[i])) <==> xs[i] !in table.order;
        var ok := Push(xs[i]);
        i := i + 1;
      }
      assert xs[..i] == xs;
    }

    /** `push(x)`: refused when x is stored, else x goes to the end of the order. */
    method Push(x: T) returns (ok: bool)
      requires Valid()
      modifies table
      ensures Valid()
      ensures ok <==> x !in old(table.order)
      ensures table.order == if ok then old(table.order) + [x] else old(table.order)
    {
      SetAbsent(th, table.order, x, table.capacity);
      ok := table.Push(x);
    }

    /** `pop(x)`: refused when x is not stored; else x, and nothing else, goes. */
    method Pop(x: T) returns (ok: bool)
      requires Valid()
      modifies table
      ensures Valid()
      ensures ok <==> x in old(table.order)
      ensures table.order == if ok then HT.RemoveValue(old(table.order), x) else old(table.order)
      ensures x !in table.order
    {
      SetAbsent(th, table.order, x, table.capacity);
      ok := table.Pop(x);
      SetAbsent(th, table.order, x, table.capacity);
    }

    /** `find(x)`: x itself when it is stored. */
    method Find(x: T) returns (r: Option<T>)
      requires Valid()
      ensures r == if x in table.order then Some(x) else None
    {
      SetAbsent(th, table.order, x, table.capacity);
      r := table.Find(x);
    }

    /** `size()` */
    function Size(): (n: nat)
      reads this, table
      requires Valid()
      ensures n == |table.order|
    {
      table.Size()
    }

    /** `capacity()` */
    function Capacity(): (c: nat)
      reads this, table
      ensures c == table.capacity
    {
      table.capacity
    }

    /** `empty()` */
    function Empty(): (r: bool)
      reads this, table
      requires Valid()
      ensures r <==> table.order == []
    {
      table.Empty()
    }
  }
}
