// The unbalanced `binary_tree` of the tree library: a binary search tree of
// values ordered by `<`, without duplicates. Values are integers, for which
// the `==` that `find` and `pop` use and the equivalence under `<` that
// `push` uses agree. The pointer structure is modelled as an immutable
// value; searches and the traversal that counts nodes are loops.
module BinaryTrees {
  import opened Wrappers

  datatype BTree = Nil | Node(left: BTree, value: int, right: BTree)

  function Elements(t: BTree): set<int>
  {
    match t
    case Nil => {}
    case Node(l, x, r) => Elements(l) + {x} + Elements(r)
  }

  /** Every left value is below its node and every right value above it. */
  predicate Ordered(t: BTree)
  {
    match t
    case Nil => true
    case Node(l, x, r) =>
      Ordered(l) && Ordered(r) &&
      (forall y :: y in Elements(l) ==> y < x) && (forall y :: y in Elements(r) ==> x < y)
  }

  function Count(t: BTree): nat
  {
    match t
    case Nil => 0
    case Node(l, _, r) => Count(l) + 1 + Count(r)
  }

  /** The values in in-order. */
  function InOrder(t: BTree): seq<int>
  {
    match t
    case Nil => []
    case Node(l, x, r) => InOrder(l) + [x] + InOrder(r)
  }

  lemma {:induction false} CountIsSize(t: BTree)
    requires Ordered(t)
    ensures Count(t) == |Elements(t)|
  {
    match t
    case Nil =>
    case Node(l, x, r) =>
      CountIsSize(l);
      CountIsSize(r);
      assert Elements(l) !! Elements(r) by {
        forall y | y in Elements(l) ensures y !in Elements(r) { }
      }
      assert x !in Elements(l) + Elements(r);
  }

  /** In an ordered tree the in-order sequence is strictly increasing and holds the values. */
  lemma {:induction false} InOrderSorted(t: BTree)
    requires Ordered(t)
    ensures forall i, j :: 0 <= i < j < |InOrder(t)| ==> InOrder(t)[i] < InOrder(t)[j]
    ensures forall y :: y in InOrder(t) <==> y in Elements(t)
  {
    match t
    case Nil =>
    case Node(l, x, r) =>
      InOrderSorted(l);
      InOrderSorted(r);
      var s := InOrder(t);
      forall i, j | 0 <= i < j < |s|
        ensures s[i] < s[j]
      {
        var a := |InOrder(l)|;
        assert s[i] == if i < a then InOrder(l)[i] else if i == a then x else InOrder(r)[i - a - 1];
        assert s[j] == if j < a then InOrder(l)[j] else if j == a then x else InOrder(r)[j - a - 1];
        if i < a {
          assert s[i] in InOrder(l);
        }
        if a < j {
          assert s[j] in InOrder(r);
        }
      }
  }

  /**
   * `push(v)`: the descent by `<` to an empty place, where v is linked; an
   * equivalent value on the way refuses it.
   */
  function Added(t: BTree, v: int): (BTree, bool)
  {
    match t
    case Nil => (Node(Nil, v, Nil), true)
    case Node(l, x, r) =>
      if !(v < x) && !(x < v) then (t, false)
      else if v < x then var (l', ok) := Added(l, v); (Node(l', x, r), ok)
      else var (r', ok) := Added(r, v); (Node(l, x, r'), ok)
  }

  /**
   * `push` keeps the order; it refuses, changing nothing, exactly when v is
   * already stored, and otherwise adds v and nothing else.
   */
  lemma {:induction false} PushCorrect(t: BTree, v: int)
    requires Ordered(t)
    ensures var (t', ok) := Added(t, v);
      Ordered(t') && (ok <==> v !in Elements(t)) && (!ok ==> t' == t) &&
      Elements(t') == Elements(t) + {v}
  {
    match t
    case Nil =>
    case Node(l, x, r) =>
      if v < x {
        PushCorrect(l, v);
      } else if x < v {
        PushCorrect(r, v);
      }
  }

  /**
   * On any tree, ordered or not, `push` either refuses because the descent
   * met v, changing nothing, or adds exactly one node, holding v.
   */
  lemma {:induction false} PushAnyTree(t: BTree, v: int)
    ensures var (t', ok) := Added(t, v);
      (!ok ==> t' == t && v in Elements(t)) &&
      (ok ==> Elements(t') == Elements(t) + {v} && Count(t') == Count(t) + 1)
  {
    match t
    case Nil =>
    case Node(l, x, r) =>
      if v < x {
        PushAnyTree(l, v);
      } else if x < v {
        PushAnyTree(r, v);
      }
  }

  /** The least value of a nonempty subtree, and the subtree without it. */
  function RemoveMin(t: BTree): (int, BTree)
    requires t.Node?
  {
    if t.left.Nil? then (t.value, t.right)
    else var (m, l') := RemoveMin(t.left); (m, Node(l', t.value, t.right))
  }

  lemma {:induction false} RemoveMinCorrect(t: BTree)
    requires Ordered(t) && t.Node?
    ensures var (m, t') := RemoveMin(t);
      m in Elements(t) && Ordered(t') && Elements(t') == Elements(t) - {m} &&
      forall y :: y in Elements(t') ==> m < y
  {
    if t.left.Node? {
      RemoveMinCorrect(t.left);
      var (m, l') := RemoveMin(t.left);
      assert m < t.value;
    }
  }

  /**
   * `pop(v)`: the node equal to v is unlinked; one with two children takes
   * its in-order successor's value, and the successor's node is unlinked.
   */
  function Removed(t: BTree, v: int): BTree
  {
    match t
    case Nil => Nil
    case Node(l, x, r) =>
      if v == x then
        if l.Nil? then r
        else if r.Nil? then l
        else var (m, r') := RemoveMin(r); Node(l, m, r')
      else if v < x then Node(Removed(l, v), x, r)
      else Node(l, x, Removed(r, v))
  }

  /** On any tree, the leftmost node leaves: its value and one node are gone, nothing else. */
  lemma {:induction false} RemoveMinAnyTree(t: BTree)
    requires t.Node?
    ensures var (m, t') := RemoveMin(t);
      Elements(t') + {m} == Elements(t) && Count(t') == Count(t) - 1
  {
    if t.left.Node? {
      RemoveMinAnyTree(t.left);
    }
  }

  /**
   * On any tree, ordered or not, `pop` changes nothing when the descent does
   * not meet v, and otherwise unlinks exactly one node and adds no value.
   */
  lemma {:induction false} PopAnyTree(t: BTree, v: int)
    ensures Subtree(t, v).None? ==> Removed(t, v) == t
    ensures Subtree(t, v).Some? ==> Count(Removed(t, v)) == Count(t) - 1
    ensures Elements(Removed(t, v)) <= Elements(t)
  {
    match t
    case Nil =>
    case Node(l, x, r) =>
      if v == x {
        if l.Node? && r.Node? {
          RemoveMinAnyTree(r);
        }
      } else if v < x {
        PopAnyTree(l, v);
      } else {
        PopAnyTree(r, v);
      }
  }

  /** `pop` keeps the order and removes exactly v. */
  lemma {:induction false} PopCorrect(t: BTree, v: int)
    requires Ordered(t)
    ensures Ordered(Removed(t, v)) && Elements(Removed(t, v)) == Elements(t) - {v}
  {
    match t
    case Nil =>
    case Node(l, x, r) =>
      if v == x {
        if l.Node? && r.Node? {
          RemoveMinCorrect(r);
        }
      } else if v < x {
        PopCorrect(l, v);
      } else {
        PopCorrect(r, v);
      }
  }

  /** Popping a value that is not stored leaves the tree as it was. */
  lemma {:induction false} PopAbsent(t: BTree, v: int)
    requires v !in Elements(t)
    ensures Removed(t, v) == t
  {
    match t
    case Nil =>
    case Node(l, x, r) =>
      if v < x {
        PopAbsent(l, v);
      } else if x < v {
        PopAbsent(r, v);
      }
  }

  /** The subtree rooted at the node holding v, as `find` reaches it. */
  function Subtree(t: BTree, v: int): Option<BTree>
  {
    match t
    case Nil => None
    case Node(l, x, r) =>
      if v == x then Some(t) else if v < x then Subtree(l, v) else Subtree(r, v)
  }

  /** `find` succeeds exactly for stored values, at the node that holds them. */
  lemma {:induction false} SubtreeFinds(t: BTree, v: int)
    requires Ordered(t)
    ensures var r := Subtree(t, v);
      (r.Some? <==> v in Elements(t)) && (r.Some? ==> r.value.Node? && r.value.value == v)
  {
    match t
    case Nil =>
    case Node(l, x, r) =>
      SubtreeFinds(l, v);
      SubtreeFinds(r, v);
  }

  /**
   * `insert(e, n)`: a fault when e is not found; otherwise n becomes e's
   * right child and takes e's old right subtree as its own left subtree.
   */
  function InsertAfter(t: BTree, e: int, n: int): Result<BTree>
  {
    match t
    case Nil => Fail("value not found")
    case Node(l, x, r) =>
      if e == x then Ok(Node(l, x, Node(r, n, Nil)))
      else if e < x then
        match InsertAfter(l, e, n)
        case Ok(l') => Ok(Node(l', x, r))
        case Fail(m) => Fail(m)
      else
        match InsertAfter(r, e, n)
        case Ok(r') => Ok(Node(l, x, r'))
        case Fail(m) => Fail(m)
  }

  /**
   * `insert` fails exactly when `find(e)` does; otherwise one node holding n
   * is added.
   */
  lemma {:induction false} InsertAfterCorrect(t: BTree, e: int, n: int)
    ensures var r := InsertAfter(t, e, n);
      (r.Fail? <==> Subtree(t, e).None?) &&
      (r.Ok? ==> Elements(r.value) == Elements(t) + {n} && Count(r.value) == Count(t) + 1)
  {
    match t
    case Nil =>
    case Node(l, x, r) =>
      if e < x {
        InsertAfterCorrect(l, e, n);
        var d := InsertAfter(l, e, n);
        if d.Ok? {
          assert InsertAfter(t, e, n) == Ok(Node(d.value, x, r));
        }
      } else if x < e {
        InsertAfterCorrect(r, e, n);
        var d := InsertAfter(r, e, n);
        if d.Ok? {
          assert InsertAfter(t, e, n) == Ok(Node(l, x, d.value));
        }
      } else {
        assert Elements(Node(r, n, Nil)) == Elements(r) + {n};
        assert Count(Node(r, n, Nil)) == Count(r) + 1;
      }
  }

  /** `insert` is not bound by the order: it may place a smaller value on the right. */
  lemma InsertAfterUnordered()
    ensures var t := Node(Nil, 2, Nil);
      Ordered(t) && InsertAfter(t, 2, 1) == Ok(Node(Nil, 2, Node(Nil, 1, Nil))) &&
      !Ordered(InsertAfter(t, 2, 1).value)
  {
    assert 1 in Elements(Node(Nil, 1, Nil));
  }

  /** The stack of nodes the in-order walk still has to visit, each with its right subtree. */
  function Pending(stack: seq<BTree>): nat
  {
    if stack == [] then 0
    else
      var top := stack[|stack| - 1];
      Pending(stack[..|stack| - 1]) + 1 + (if top.Node? then Count(top.right) else 0)
  }

  lemma PendingPush(stack: seq<BTree>, t: BTree)
    requires t.Node?
    ensures Pending(stack + [t]) == Pending(stack) + 1 + Count(t.right)
  {
    assert (stack + [t])[..|stack|] == stack;
  }

  /** The values of a sequence pushed in order into t. */
  function PushAll(t: BTree, vs: seq<int>): BTree
    decreases |vs|
  {
    if vs == [] then t else PushAll(Added(t, vs[0]).0, vs[1..])
  }

  lemma {:induction false} PushAllCorrect(t: BTree, vs: seq<int>)
    requires Ordered(t)
    ensures Ordered(PushAll(t, vs)) && Elements(PushAll(t, vs)) == Elements(t) + set v | v in vs
    decreases |vs|
  {
    if vs != [] {
      PushCorrect(t, vs[0]);
      PushAllCorrect(Added(t, vs[0]).0, vs[1..]);
      assert (set v | v in vs) == {vs[0]} + set v | v in vs[1..];
    }
  }

  class BinaryTree {
    var root: BTree

    ghost predicate Valid()
      reads this
    {
      Ordered(root)
    }

    /** `binary_tree(v)`, whose default argument is a value-initialised element: a root holding v. */
    constructor (v: int)
      ensures Valid() && root == Node(Nil, v, Nil)
    {
      root := Node(Nil, v, Nil);
    }

    /** The initializer-list constructor: each value pushed in turn. */
    constructor FromList(vs: seq<int>)
      ensures Valid() && root == PushAll(Nil, vs) && Elements(root) == set v | v in vs
    {
      PushAllCorrect(Nil, vs);
      root := Nil;
      new;
      var i := 0;
      while i < |vs|
        invariant 0 <= i <= |vs| && Ordered(root)
        invariant PushAll(root, vs[i..]) == PushAll(Nil, vs)
      {
        assert vs[i..][1..] == vs[i + 1..];
        PushCorrect(root, vs[i]);
        var (t', _) := Added(root, vs[i]);
        root := t';
        i := i + 1;
      }
      assert vs[i..] == [];
    }

    /** The copy constructor: a fault for an empty source, otherwise the same values. */
    static method Copy(other: BinaryTree) returns (r: Result<BinaryTree>)
      ensures r.Fail? <==> other.root.Nil?
      ensures r.Ok? ==> fresh(r.value) && r.value.root == other.root
    {
      if other.root.Nil? {
        return Fail("copy of an empty tree");
      }
      var c := new BinaryTree(0);
      c.root := other.root;
      return Ok(c);
    }

    /**
     * `push(v)`, on whatever tree `insert` may have left: a refusal changes
     * nothing, a success adds one node holding v; an ordered tree stays
     * ordered and refuses exactly the values it holds.
     */
    method Push(v: int) returns (ok: bool)
      modifies this
      ensures (root, ok) == Added(old(root), v)
      ensures !ok ==> root == old(root) && v in Elements(old(root))
      ensures ok ==> Elements(root) == Elements(old(root)) + {v} && Count(root) == Count(old(root)) + 1
      ensures old(Valid()) ==> Valid() && (ok <==> v !in Elements(old(root)))
    {
      PushAnyTree(root, v);
      if Ordered(root) {
        PushCorrect(root, v);
      }
      var r := Added(root, v);
      root, ok := r.0, r.1;
    }

    /**
     * `pop(v)`, on whatever tree `insert` may have left: nothing changes when
     * the descent misses v, otherwise one node goes; an ordered tree stays
     * ordered and loses exactly v.
     */
    method Pop(v: int)
      modifies this
      ensures root == Removed(old(root), v)
      ensures Subtree(old(root), v).None? ==> root == old(root)
      ensures Subtree(old(root), v).Some? ==> Count(root) == Count(old(root)) - 1
      ensures Elements(root) <= Elements(old(root))
      ensures old(Valid()) ==> Valid() && Elements(root) == Elements(old(root)) - {v}
    {
      PopAnyTree(root, v);
      if Ordered(root) {
        PopCorrect(root, v);
      }
      root := Removed(root, v);
    }

    /** `find(v)`: the loop down the tree, by `==` and then `<`. */
    method Find(v: int) returns (r: Option<BTree>)
      ensures r == Subtree(root, v)
    {
      var t := root;
      while t.Node?
        invariant Subtree(t, v) == Subtree(root, v)
        decreases t
      {
        if v == t.value {
          return Some(t);
        } else if v < t.value {
          t := t.left;
        } else {
          t := t.right;
        }
      }
      return None;
    }

    /** `insert(e, n)`. */
    method Insert(e: int, n: int) returns (r: Result<()>)
      modifies this
      ensures r.Fail? <==> Subtree(old(root), e).None?
      ensures r.Fail? ==> root == old(root)
      ensures r.Ok? ==> Ok(root) == InsertAfter(old(root), e, n)
      ensures r.Ok? ==> Elements(root) == Elements(old(root)) + {n} && Count(root) == Count(old(root)) + 1
    {
      InsertAfterCorrect(root, e, n);
      match InsertAfter(root, e, n)
      case Fail(m) => r := Fail(m);
      case Ok(t') => root := t'; r := Ok(());
    }

    /** `size()`: the in-order walk with an explicit stack, counting nodes. */
    method Size() returns (n: nat)
      ensures n == Count(root)
    {
      n := 0;
      var node := root;
      var stack: seq<BTree> := [];
      while node.Node? || stack != []
        invariant n + Count(node) + Pending(stack) == Count(root)
        invariant forall i :: 0 <= i < |stack| ==> stack[i].Node?
        decreases Count(node) + Pending(stack)
      {
        while node.Node?
          invariant n + Count(node) + Pending(stack) == Count(root)
          invariant forall i :: 0 <= i < |stack| ==> stack[i].Node?
          invariant node.Nil? ==> stack != []
          decreases node
        {
          PendingPush(stack, node);
          stack := stack + [node];
          node := node.left;
        }
        var top := stack[|stack| - 1];
        stack := stack[..|stack| - 1];
        n := n + 1;
        node := top.right;
      }
    }
  }
}
