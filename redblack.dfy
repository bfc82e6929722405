// The `red_black_tree` of the base container library. Nodes are ordered by
// the key an extractor takes from each stored value (`key` below, the
// identity for sets and `first` for maps) under the default `less`. The
// tree is modelled as an immutable value: each rotation or recolouring of
// the pointer structure is a rebuilt subtree, and each fix-up loop becomes
// the recursion back up the search path.
module RedBlackTrees {
  import opened Wrappers

  datatype Color = Red | Black

  datatype Tree<V> = Leaf | Node(color: Color, left: Tree<V>, value: V, right: Tree<V>)

  /** The stored values. */
  function Elements<V>(t: Tree<V>): set<V>
  {
    match t
    case Leaf => {}
    case Node(_, l, x, r) => Elements(l) + {x} + Elements(r)
  }

  /** Binary-search-tree order by key, strictly (no two equivalent keys). */
  ghost predicate Ordered<V>(key: V -> int, t: Tree<V>)
  {
    match t
    case Leaf => true
    case Node(_, l, x, r) =>
      Ordered(key, l) && Ordered(key, r) &&
      (forall y :: y in Elements(l) ==> key(y) < key(x)) &&
      (forall y :: y in Elements(r) ==> key(x) < key(y))
  }

  predicate IsRed<V>(t: Tree<V>)
  {
    t.Node? && t.color == Red
  }

  /** The number of black nodes on every path from the root down to a leaf. */
  function BlackHeight<V>(t: Tree<V>): nat
  {
    match t
    case Leaf => 0
    case Node(c, l, _, _) => BlackHeight(l) + (if c == Black then 1 else 0)
  }

  /** Every node's two subtrees have the same black height. */
  predicate Balanced<V>(t: Tree<V>)
  {
    match t
    case Leaf => true
    case Node(_, l, _, r) => Balanced(l) && Balanced(r) && BlackHeight(l) == BlackHeight(r)
  }

  /** No red node has a red child. */
  predicate NoRedRed<V>(t: Tree<V>)
  {
    match t
    case Leaf => true
    case Node(c, l, _, r) => NoRedRed(l) && NoRedRed(r) && (c == Red ==> !IsRed(l) && !IsRed(r))
  }

  /** The invariant of a whole tree: ordered, balanced, no red-red edge, black root. */
  ghost predicate IsRedBlack<V>(key: V -> int, t: Tree<V>)
  {
    Ordered(key, t) && Balanced(t) && NoRedRed(t) && !IsRed(t)
  }

  function Paint<V>(t: Tree<V>, c: Color): Tree<V>
  {
    match t
    case Leaf => Leaf
    case Node(_, l, x, r) => Node(c, l, x, r)
  }

  /** The number of nodes, as `size()` counts them. */
  function Count<V>(t: Tree<V>): nat
  {
    match t
    case Leaf => 0
    case Node(_, l, _, r) => Count(l) + 1 + Count(r)
  }

  /** The values of s whose key is not k. */
  ghost function Without<V>(key: V -> int, s: set<V>, k: int): set<V>
  {
    set y | y in s && key(y) != k
  }

  /**
   * A binary search for key k: the stored value with key k, if any. This is
   * the descent `push` and `pop` make before they change anything.
   */
  function Lookup<V>(key: V -> int, t: Tree<V>, k: int): Option<V>
  {
    match t
    case Leaf => None
    case Node(_, l, x, r) =>
      if key(x) == k then Some(x)
      else if key(x) < k then Lookup(key, r, k)
      else Lookup(key, l, k)
  }

  /**
   * What `find` computes: walking right while the node's key is less than k,
   * it returns the first node whose key is not less than k, equal or not.
   */
  function FindAsWritten<V>(key: V -> int, t: Tree<V>, k: int): Option<V>
  {
    match t
    case Leaf => None
    case Node(_, _, x, r) =>
      if !(key(x) < k) then Some(x) else FindAsWritten(key, r, k)
  }

  lemma {:induction false} LookupFinds<V>(key: V -> int, t: Tree<V>, k: int, y: V)
    requires Ordered(key, t)
    ensures Lookup(key, t, k) == Some(y) <==> y in Elements(t) && key(y) == k
  {
    match t
    case Leaf =>
    case Node(_, l, x, r) =>
      LookupFinds(key, l, k, y);
      LookupFinds(key, r, k, y);
  }

  /** The search fails exactly when no stored value has key k. */
  lemma LookupMisses<V>(key: V -> int, t: Tree<V>, k: int)
    requires Ordered(key, t)
    ensures Lookup(key, t, k).None? <==> forall y :: y in Elements(t) ==> key(y) != k
  {
    var r := Lookup(key, t, k);
    if r.Some? {
      LookupFinds(key, t, k, r.value);
    }
    if y :| y in Elements(t) && key(y) == k {
      LookupFinds(key, t, k, y);
    }
  }

  /**
   * `find` as written fails exactly when every key is below k, and otherwise
   * returns a stored value whose key is at least k.
   */
  lemma {:induction false} FindAsWrittenMeaning<V>(key: V -> int, t: Tree<V>, k: int)
    requires Ordered(key, t)
    ensures var r := FindAsWritten(key, t, k);
      (r.None? <==> forall y :: y in Elements(t) ==> key(y) < k) &&
      (r.Some? ==> r.value in Elements(t) && k <= key(r.value))
  {
    match t
    case Leaf =>
    case Node(_, l, x, r) =>
      FindAsWrittenMeaning(key, r, k);
  }

  /**
   * The divergence of `find`: in the tree that pushing 2 and then 1 builds,
   * `find(1)` returns the node holding 2, although 1 is stored.
   */
  lemma FindReturnsGreater()
    ensures var t := Node(Black, Node(Red, Leaf, 1, Leaf), 2, Leaf);
      var id := (x: int) => x;
      Insert(id, Insert(id, Leaf, 2).0, 1).0 == t &&
      FindAsWritten(id, t, 1) == Some(2) && Lookup(id, t, 1) == Some(1)
  {
  }

  /** For an ordered tree, `size()` counts every stored value once. */
  lemma {:induction false} CountIsSize<V>(key: V -> int, t: Tree<V>)
    requires Ordered(key, t)
    ensures Count(t) == |Elements(t)|
  {
    match t
    case Leaf =>
    case Node(_, l, x, r) =>
      CountIsSize(key, l);
      CountIsSize(key, r);
      assert Elements(l) !! Elements(r) by {
        forall y | y in Elements(l) ensures y !in Elements(r) { }
      }
      assert x !in Elements(l) + Elements(r);
  }

  // ---------------------------------------------------------------- push

  /** The violation `push`'s fix-up loop repairs: a red node with a red child. */
  predicate RedRedTop<V>(t: Tree<V>)
  {
    IsRed(t) && (IsRed(t.left) || IsRed(t.right))
  }

  /**
   * One round of the fix-up of `push` at a grandparent whose left child may
   * be red with a red child: with a red uncle, recolour and carry on above;
   * otherwise one rotation (or two, when the new node is an inner child)
   * leaves a black subtree root with two red children.
   */
  function FixLeft<V>(c: Color, l: Tree<V>, x: V, r: Tree<V>): Tree<V>
  {
    if RedRedTop(l) then
      if IsRed(r) then Node(Red, Paint(l, Black), x, Paint(r, Black))
      else if IsRed(l.right) then
        Node(Black, Node(Red, l.left, l.value, l.right.left), l.right.value, Node(Red, l.right.right, x, r))
      else Node(Black, l.left, l.value, Node(Red, l.right, x, r))
    else Node(c, l, x, r)
  }

  /** The mirror image of FixLeft, for a red-red edge under the right child. */
  function FixRight<V>(c: Color, l: Tree<V>, x: V, r: Tree<V>): Tree<V>
  {
    if RedRedTop(r) then
      if IsRed(l) then Node(Red, Paint(l, Black), x, Paint(r, Black))
      else if IsRed(r.left) then
        Node(Black, Node(Red, l, x, r.left.left), r.left.value, Node(Red, r.left.right, r.value, r.right))
      else Node(Black, Node(Red, l, x, r.left), r.value, r.right)
    else Node(c, l, x, r)
  }

  /** The descent of `push` to a leaf, the new red node, and the fix-up on the way back. */
  function Ins<V>(key: V -> int, t: Tree<V>, v: V): Tree<V>
  {
    match t
    case Leaf => Node(Red, Leaf, v, Leaf)
    case Node(c, l, x, r) =>
      if key(x) < key(v) then FixRight(c, l, x, Ins(key, r, v))
      else FixLeft(c, Ins(key, l, v), x, r)
  }

  /**
   * `push(v)`: unchanged and `false` when a value with an equivalent key is
   * stored; otherwise v is inserted and the root painted black.
   */
  function Insert<V>(key: V -> int, t: Tree<V>, v: V): (Tree<V>, bool)
  {
    if Lookup(key, t, key(v)).Some? then (t, false)
    else (Paint(Ins(key, t, v), Black), true)
  }

  /** The shape facts of one fix-up round at a black grandparent. */
  lemma FixLeftShape<V>(c: Color, l: Tree<V>, x: V, r: Tree<V>)
    requires Balanced(l) && Balanced(r) && BlackHeight(l) == BlackHeight(r)
    requires NoRedRed(r) && l.Node?
    requires NoRedRed(l) || (IsRed(l) && NoRedRed(l.left) && NoRedRed(l.right) && !(IsRed(l.left) && IsRed(l.right)))
    requires RedRedTop(l) ==> c == Black
    ensures var t := FixLeft(c, l, x, r);
      Balanced(t) && BlackHeight(t) == BlackHeight(l) + (if c == Black then 1 else 0) &&
      (RedRedTop(l) ==> NoRedRed(t)) && Elements(t) == Elements(l) + {x} + Elements(r)
  {
  }

  lemma FixRightShape<V>(c: Color, l: Tree<V>, x: V, r: Tree<V>)
    requires Balanced(l) && Balanced(r) && BlackHeight(l) == BlackHeight(r)
    requires NoRedRed(l) && r.Node?
    requires NoRedRed(r) || (IsRed(r) && NoRedRed(r.left) && NoRedRed(r.right) && !(IsRed(r.left) && IsRed(r.right)))
    requires RedRedTop(r) ==> c == Black
    ensures var t := FixRight(c, l, x, r);
      Balanced(t) && BlackHeight(t) == BlackHeight(l) + (if c == Black then 1 else 0) &&
      (RedRedTop(r) ==> NoRedRed(t)) && Elements(t) == Elements(l) + {x} + Elements(r)
  {
  }

  lemma FixLeftOrder<V>(key: V -> int, c: Color, l: Tree<V>, x: V, r: Tree<V>)
    requires Ordered(key, l) && Ordered(key, r) && l.Node?
    requires forall y :: y in Elements(l) ==> key(y) < key(x)
    requires forall y :: y in Elements(r) ==> key(x) < key(y)
    ensures Ordered(key, FixLeft(c, l, x, r))
  {
  }

  lemma FixRightOrder<V>(key: V -> int, c: Color, l: Tree<V>, x: V, r: Tree<V>)
    requires Ordered(key, l) && Ordered(key, r) && r.Node?
    requires forall y :: y in Elements(l) ==> key(y) < key(x)
    requires forall y :: y in Elements(r) ==> key(x) < key(y)
    ensures Ordered(key, FixRight(c, l, x, r))
  {
  }

  lemma FixLeftElements<V>(c: Color, l: Tree<V>, x: V, r: Tree<V>)
    ensures Elements(FixLeft(c, l, x, r)) == Elements(l) + {x} + Elements(r)
  {
  }

  lemma FixRightElements<V>(c: Color, l: Tree<V>, x: V, r: Tree<V>)
    ensures Elements(FixRight(c, l, x, r)) == Elements(l) + {x} + Elements(r)
  {
  }

  /** Insertion adds exactly v. */
  lemma {:induction false} InsElements<V>(key: V -> int, t: Tree<V>, v: V)
    ensures Elements(Ins(key, t, v)) == Elements(t) + {v}
  {
    match t
    case Leaf =>
    case Node(c, l, x, r) =>
      if key(x) < key(v) {
        InsElements(key, r, v);
        FixRightElements(c, l, x, Ins(key, r, v));
      } else {
        InsElements(key, l, v);
        FixLeftElements(c, Ins(key, l, v), x, r);
      }
  }

  /** Inserting a key not yet present keeps the search order. */
  lemma {:induction false} InsOrdered<V>(key: V -> int, t: Tree<V>, v: V)
    requires Ordered(key, t)
    requires forall y :: y in Elements(t) ==> key(y) != key(v)
    ensures Ordered(key, Ins(key, t, v))
  {
    match t
    case Leaf =>
    case Node(c, l, x, r) =>
      if key(x) < key(v) {
        InsOrdered(key, r, v);
        InsElements(key, r, v);
        FixRightOrder(key, c, l, x, Ins(key, r, v));
      } else {
        InsOrdered(key, l, v);
        InsElements(key, l, v);
        FixLeftOrder(key, c, Ins(key, l, v), x, r);
      }
  }

  /**
   * Insertion into a balanced tree without red-red edges keeps the black
   * height; the only red-red edge that can remain is at the top, and only
   * below a red root.
   */
  lemma {:induction false} InsShape<V>(key: V -> int, t: Tree<V>, v: V)
    requires Balanced(t) && NoRedRed(t)
    ensures var t' := Ins(key, t, v);
      t'.Node? && Balanced(t') && BlackHeight(t') == BlackHeight(t) &&
      (!IsRed(t) ==> NoRedRed(t')) &&
      (IsRed(t) ==> IsRed(t') && NoRedRed(t'.left) && NoRedRed(t'.right) && !(IsRed(t'.left) && IsRed(t'.right)))
  {
    match t
    case Leaf =>
    case Node(c, l, x, r) =>
      if key(x) < key(v) {
        InsShape(key, r, v);
        FixRightShape(c, l, x, Ins(key, r, v));
      } else {
        InsShape(key, l, v);
        FixLeftShape(c, Ins(key, l, v), x, r);
      }
  }

  /**
   * `push` keeps a red-black tree red-black; it refuses a key already
   * present, and otherwise stores exactly v in addition.
   */
  lemma InsertCorrect<V>(key: V -> int, t: Tree<V>, v: V)
    requires IsRedBlack(key, t)
    ensures var (t', ok) := Insert(key, t, v);
      IsRedBlack(key, t') &&
      (ok <==> forall y :: y in Elements(t) ==> key(y) != key(v)) &&
      (!ok ==> t' == t) &&
      (ok ==> Elements(t') == Elements(t) + {v} && Count(t') == Count(t) + 1)
  {
    LookupMisses(key, t, key(v));
    if Lookup(key, t, key(v)).None? {
      InsertNew(key, t, v);
    }
  }

  /** Adding a new key: the red-black tree gains exactly v. */
  lemma InsertNew<V>(key: V -> int, t: Tree<V>, v: V)
    requires IsRedBlack(key, t)
    requires forall y :: y in Elements(t) ==> key(y) != key(v)
    ensures var t' := Paint(Ins(key, t, v), Black);
      IsRedBlack(key, t') && Elements(t') == Elements(t) + {v} && Count(t') == Count(t) + 1
  {
    var t' := Ins(key, t, v);
    InsElements(key, t, v);
    InsOrdered(key, t, v);
    InsShape(key, t, v);
    Repaint(key, t', Black);
    CountIsSize(key, t);
    CountIsSize(key, Paint(t', Black));
  }

  // ---------------------------------------------------------------- pop

  /** Which `pop` is meant: the code as it stands, or the rebalancing it intends. */
  datatype Variant = AsWritten | Intended

  /** A subtree after a removal, and whether its black height dropped by one. */
  datatype Shrunk<V> = Shrunk(tree: Tree<V>, short: bool)

  /** The least value removed from a subtree, the colour its node had, and what remains. */
  datatype Minimum<V> = Minimum(value: V, color: Color, rest: Shrunk<V>)

  /**
   * Unlinking a node of colour c with at most one child: a red node takes no
   * black away; a black one is made up for by a red child turned black, and
   * otherwise the subtree comes out one black node short.
   */
  function Replace<V>(c: Color, child: Tree<V>): Shrunk<V>
  {
    if c == Red then Shrunk(child, false)
    else if IsRed(child) then Shrunk(Paint(child, Black), false)
    else Shrunk(child, true)
  }

  /** Case 4 of `delete_adjust` with the short side on the left: rotate left at the parent. */
  function Case4Left<V>(c: Color, l: Tree<V>, x: V, s: Tree<V>): Shrunk<V>
    requires s.Node?
  {
    Shrunk(Node(c, Node(Black, l, x, s.left), s.value, Paint(s.right, Black)), false)
  }

  /** Case 4 with the short side on the right: rotate right at the parent. */
  function Case4Right<V>(c: Color, s: Tree<V>, x: V, r: Tree<V>): Shrunk<V>
    requires s.Node?
  {
    Shrunk(Node(c, Paint(s.left, Black), s.value, Node(Black, s.right, x, r)), false)
  }

  /**
   * Cases 2 to 4 of `delete_adjust` at a parent of colour c whose left
   * subtree l is short and whose right subtree s is black. As written, the
   * test for case 2 reads the sibling's left child as "null or non-null", so
   * case 2 is taken whenever the sibling's right child is black and case 3
   * is never reached. A missing sibling cannot occur below a short subtree.
   */
  function FixShortLeftBlack<V>(variant: Variant, c: Color, l: Tree<V>, x: V, s: Tree<V>): Shrunk<V>
  {
    match s
    case Leaf => Shrunk(Node(c, l, x, s), true)
    case Node(_, sl, y, sr) =>
      if (if variant == AsWritten then !IsRed(sr) else !IsRed(sl) && !IsRed(sr)) then
        Shrunk(Node(Black, l, x, Node(Red, sl, y, sr)), c == Black)
      else if IsRed(sl) && !IsRed(sr) then
        Case4Left(c, l, x, Node(Black, sl.left, sl.value, Node(Red, sl.right, y, sr)))
      else Case4Left(c, l, x, s)
  }

  /**
   * `delete_adjust` at the parent of a short left subtree: with a red
   * sibling, case 1 rotates it up and the repair goes on one level down.
   */
  function FixShortLeft<V>(variant: Variant, c: Color, l: Tree<V>, x: V, s: Tree<V>): Shrunk<V>
  {
    if IsRed(s) then
      var inner := FixShortLeftBlack(variant, Red, l, x, s.left);
      Shrunk(Node(Black, inner.tree, s.value, s.right), inner.short)
    else FixShortLeftBlack(variant, c, l, x, s)
  }

  /** The mirror image of FixShortLeftBlack, which the code gets right. */
  function FixShortRightBlack<V>(c: Color, s: Tree<V>, x: V, r: Tree<V>): Shrunk<V>
  {
    match s
    case Leaf => Shrunk(Node(c, s, x, r), true)
    case Node(_, sl, y, sr) =>
      if !IsRed(sl) && !IsRed(sr) then
        Shrunk(Node(Black, Node(Red, sl, y, sr), x, r), c == Black)
      else if IsRed(sr) && !IsRed(sl) then
        Case4Right(c, Node(Black, Node(Red, sl, y, sr.left), sr.value, sr.right), x, r)
      else Case4Right(c, s, x, r)
  }

  /** `delete_adjust` at the parent of a short right subtree. */
  function FixShortRight<V>(c: Color, s: Tree<V>, x: V, r: Tree<V>): Shrunk<V>
  {
    if IsRed(s) then
      var inner := FixShortRightBlack(Red, s.right, x, r);
      Shrunk(Node(Black, s.left, s.value, inner.tree), inner.short)
    else FixShortRightBlack(c, s, x, r)
  }

  /**
   * Unlinking the leftmost node of t, the in-order successor `pop` looks
   * for, with the repair on the way back up.
   */
  function DelMin<V>(variant: Variant, t: Tree<V>): Minimum<V>
    requires t.Node?
  {
    var Node(c, l, x, r) := t;
    if l.Leaf? then Minimum(x, c, Replace(c, r))
    else
      var m := DelMin(variant, l);
      var rest :=
        if m.rest.short then FixShortLeft(variant, c, m.rest.tree, x, r)
        else Shrunk(Node(c, m.rest.tree, x, r), false);
      Minimum(m.value, m.color, rest)
  }

  /**
   * Removing the node found, of colour c: with one side empty it is replaced
   * by the other; with two children the successor's value takes its place.
   * As written, the two nodes also swap colours, so the place keeps the
   * successor's colour instead of its own.
   */
  function Remove<V>(variant: Variant, c: Color, l: Tree<V>, r: Tree<V>): Shrunk<V>
  {
    if l.Leaf? then Replace(c, r)
    else if r.Leaf? then Replace(c, l)
    else
      var m := DelMin(variant, r);
      var c' := if variant == AsWritten then m.color else c;
      if m.rest.short then FixShortRight(c', l, m.value, m.rest.tree)
      else Shrunk(Node(c', l, m.value, m.rest.tree), false)
  }

  /** The descent of `pop` to key k, the removal, and the repair on the way back. */
  function Del<V>(variant: Variant, key: V -> int, t: Tree<V>, k: int): Shrunk<V>
  {
    match t
    case Leaf => Shrunk(Leaf, false)
    case Node(c, l, x, r) =>
      if key(x) == k then Remove(variant, c, l, r)
      else if key(x) < k then
        var d := Del(variant, key, r, k);
        if d.short then FixShortRight(c, l, x, d.tree) else Shrunk(Node(c, l, x, d.tree), false)
      else
        var d := Del(variant, key, l, k);
        if d.short then FixShortLeft(variant, c, d.tree, x, r) else Shrunk(Node(c, d.tree, x, r), false)
  }

  /** `pop(v)`: the tree after removing key k, with the root painted black. */
  function Removed<V>(variant: Variant, key: V -> int, t: Tree<V>, k: int): Tree<V>
  {
    Paint(Del(variant, key, t, k).tree, Black)
  }

  /** Pushing 2, 1, 4 and 3 in that order gives the tree 2(1, 4(3, -)). */
  lemma PushTwoOneFourThree()
    ensures var id := (x: int) => x;
      Insert(id, Insert(id, Insert(id, Insert(id, Leaf, 2).0, 1).0, 4).0, 3).0 ==
      Node(Black, Node(Black, Leaf, 1, Leaf), 2, Node(Black, Node(Red, Leaf, 3, Leaf), 4, Leaf))
  {
  }

  /**
   * The first fault of `pop`: removing 1 from 2(1, 4(3, -)) takes case 2,
   * although the sibling's left child is red, and leaves red 4 above red 3;
   * the intended repair (case 3, then case 4) gives 3(2, 4).
   */
  lemma PopCaseTwoFault()
    ensures var id := (x: int) => x;
      var t := Node(Black, Node(Black, Leaf, 1, Leaf), 2, Node(Black, Node(Red, Leaf, 3, Leaf), 4, Leaf));
      IsRedBlack(id, t) &&
      Removed(AsWritten, id, t, 1) == Node(Black, Leaf, 2, Node(Red, Node(Red, Leaf, 3, Leaf), 4, Leaf)) &&
      !NoRedRed(Removed(AsWritten, id, t, 1)) &&
      Removed(Intended, id, t, 1) == Node(Black, Node(Black, Leaf, 2, Leaf), 3, Node(Black, Leaf, 4, Leaf))
  {
  }

  /** Pushing 5, 2, 8, 1 and 3 in that order gives the tree 5(2(1, 3), 8). */
  lemma PushFiveTwoEightOneThree()
    ensures var id := (x: int) => x;
      Insert(id, Insert(id, Insert(id, Insert(id, Insert(id, Leaf, 5).0, 2).0, 8).0, 1).0, 3).0 ==
      Node(Black, Node(Black, Node(Red, Leaf, 1, Leaf), 2, Node(Red, Leaf, 3, Leaf)), 5, Node(Black, Leaf, 8, Leaf))
  {
  }

  /**
   * The second fault of `pop`: removing 2 from 5(2(1, 3), 8), the red
   * successor 3 moves up and, with the colours swapped, stays red above red
   * 1, one black node short of 8's side; the intended removal keeps 2's
   * black.
   */
  lemma PopColourSwapFault()
    ensures var id := (x: int) => x;
      var t := Node(Black, Node(Black, Node(Red, Leaf, 1, Leaf), 2, Node(Red, Leaf, 3, Leaf)), 5, Node(Black, Leaf, 8, Leaf));
      IsRedBlack(id, t) &&
      Removed(AsWritten, id, t, 2) == Node(Black, Node(Red, Node(Red, Leaf, 1, Leaf), 3, Leaf), 5, Node(Black, Leaf, 8, Leaf)) &&
      !NoRedRed(Removed(AsWritten, id, t, 2)) && !Balanced(Removed(AsWritten, id, t, 2)) &&
      Removed(Intended, id, t, 2) == Node(Black, Node(Black, Node(Red, Leaf, 1, Leaf), 3, Leaf), 5, Node(Black, Leaf, 8, Leaf))
  {
  }

  // ------------------------------------------------- pop keeps the order

  /** Every key in t is above k. */
  ghost predicate Above<V>(key: V -> int, t: Tree<V>, k: int)
  {
    forall y :: y in Elements(t) ==> k < key(y)
  }

  /** Every key in t is below k. */
  ghost predicate Below<V>(key: V -> int, t: Tree<V>, k: int)
  {
    forall y :: y in Elements(t) ==> key(y) < k
  }

  /** A node is ordered when its subtrees are and x separates them, whatever the colours. */
  lemma Join<V>(key: V -> int, c: Color, l: Tree<V>, x: V, r: Tree<V>)
    requires Ordered(key, l) && Ordered(key, r) && Below(key, l, key(x)) && Above(key, r, key(x))
    ensures Ordered(key, Node(c, l, x, r))
  {
  }

  /** A left rotation keeps the order and the values. */
  lemma RotateLeft<V>(key: V -> int, c: Color, a: Tree<V>, x: V, s: Tree<V>, c1: Color, c2: Color)
    requires Ordered(key, Node(c, a, x, s)) && s.Node?
    ensures var t := Node(c1, Node(c2, a, x, s.left), s.value, s.right);
      Ordered(key, t) && Elements(t) == Elements(a) + {x} + Elements(s)
  {
    Join(key, c2, a, x, s.left);
  }

  /** A right rotation keeps the order and the values. */
  lemma RotateRight<V>(key: V -> int, c: Color, s: Tree<V>, x: V, b: Tree<V>, c1: Color, c2: Color)
    requires Ordered(key, Node(c, s, x, b)) && s.Node?
    ensures var t := Node(c1, s.left, s.value, Node(c2, s.right, x, b));
      Ordered(key, t) && Elements(t) == Elements(s) + {x} + Elements(b)
  {
    Join(key, c2, s.right, x, b);
  }

  lemma Repaint<V>(key: V -> int, t: Tree<V>, c: Color)
    ensures Elements(Paint(t, c)) == Elements(t) && (Ordered(key, Paint(t, c)) <==> Ordered(key, t))
  {
  }

  lemma ReplaceOrder<V>(key: V -> int, c: Color, t: Tree<V>)
    requires Ordered(key, t)
    ensures Ordered(key, Replace(c, t).tree) && Elements(Replace(c, t).tree) == Elements(t)
  {
    Repaint(key, t, Black);
  }

  lemma Case4LeftOrder<V>(key: V -> int, c: Color, l: Tree<V>, x: V, s: Tree<V>)
    requires Ordered(key, Node(c, l, x, s)) && s.Node?
    ensures var d := Case4Left(c, l, x, s);
      Ordered(key, d.tree) && Elements(d.tree) == Elements(l) + {x} + Elements(s)
  {
    RotateLeft(key, c, l, x, s, c, Black);
    Repaint(key, s.right, Black);
    Join(key, c, Node(Black, l, x, s.left), s.value, Paint(s.right, Black));
  }

  lemma FixShortLeftBlackOrder<V>(variant: Variant, key: V -> int, c: Color, l: Tree<V>, x: V, s: Tree<V>)
    requires Ordered(key, Node(c, l, x, s))
    ensures var d := FixShortLeftBlack(variant, c, l, x, s);
      Ordered(key, d.tree) && Elements(d.tree) == Elements(l) + {x} + Elements(s)
  {
    match s
    case Leaf =>
    case Node(_, sl, y, sr) =>
      if (if variant == AsWritten then !IsRed(sr) else !IsRed(sl) && !IsRed(sr)) {
        Join(key, Red, sl, y, sr);
      } else if IsRed(sl) && !IsRed(sr) {
        RotateRight(key, Black, sl, y, sr, Black, Red);
        var s' := Node(Black, sl.left, sl.value, Node(Red, sl.right, y, sr));
        Join(key, c, l, x, s');
        Case4LeftOrder(key, c, l, x, s');
      } else {
        Case4LeftOrder(key, c, l, x, s);
      }
  }

  lemma FixShortLeftOrder<V>(variant: Variant, key: V -> int, c: Color, l: Tree<V>, x: V, s: Tree<V>)
    requires Ordered(key, Node(c, l, x, s))
    ensures var d := FixShortLeft(variant, c, l, x, s);
      Ordered(key, d.tree) && Elements(d.tree) == Elements(l) + {x} + Elements(s)
  {
    if IsRed(s) {
      RotateLeft(key, c, l, x, s, Black, Red);
      FixShortLeftBlackOrder(variant, key, Red, l, x, s.left);
      Join(key, Black, FixShortLeftBlack(variant, Red, l, x, s.left).tree, s.value, s.right);
    } else {
      FixShortLeftBlackOrder(variant, key, c, l, x, s);
    }
  }

  lemma Case4RightOrder<V>(key: V -> int, c: Color, s: Tree<V>, x: V, r: Tree<V>)
    requires Ordered(key, Node(c, s, x, r)) && s.Node?
    ensures var d := Case4Right(c, s, x, r);
      Ordered(key, d.tree) && Elements(d.tree) == Elements(s) + {x} + Elements(r)
  {
    RotateRight(key, c, s, x, r, c, Black);
    Repaint(key, s.left, Black);
    Join(key, c, Paint(s.left, Black), s.value, Node(Black, s.right, x, r));
  }

  lemma FixShortRightBlackOrder<V>(key: V -> int, c: Color, s: Tree<V>, x: V, r: Tree<V>)
    requires Ordered(key, Node(c, s, x, r))
    ensures var d := FixShortRightBlack(c, s, x, r);
      Ordered(key, d.tree) && Elements(d.tree) == Elements(s) + {x} + Elements(r)
  {
    match s
    case Leaf =>
    case Node(_, sl, y, sr) =>
      if !IsRed(sl) && !IsRed(sr) {
        Join(key, Red, sl, y, sr);
      } else if IsRed(sr) && !IsRed(sl) {
        RotateLeft(key, Black, sl, y, sr, Black, Red);
        var s' := Node(Black, Node(Red, sl, y, sr.left), sr.value, sr.right);
        Join(key, c, s', x, r);
        Case4RightOrder(key, c, s', x, r);
      } else {
        Case4RightOrder(key, c, s, x, r);
      }
  }

  lemma FixShortRightOrder<V>(key: V -> int, c: Color, s: Tree<V>, x: V, r: Tree<V>)
    requires Ordered(key, Node(c, s, x, r))
    ensures var d := FixShortRight(c, s, x, r);
      Ordered(key, d.tree) && Elements(d.tree) == Elements(s) + {x} + Elements(r)
  {
    if IsRed(s) {
      RotateRight(key, c, s, x, r, Black, Red);
      FixShortRightBlackOrder(key, Red, s.right, x, r);
      Join(key, Black, s.left, s.value, FixShortRightBlack(Red, s.right, x, r).tree);
    } else {
      FixShortRightBlackOrder(key, c, s, x, r);
    }
  }

  /** The successor is the least value, and what remains is ordered and holds the rest. */
  lemma {:induction false} DelMinOrder<V>(variant: Variant, key: V -> int, t: Tree<V>)
    requires Ordered(key, t) && t.Node?
    ensures var m := DelMin(variant, t);
      m.value in Elements(t) && Ordered(key, m.rest.tree) &&
      Elements(m.rest.tree) == Elements(t) - {m.value} && Above(key, m.rest.tree, key(m.value))
  {
    var Node(c, l, x, r) := t;
    if l.Leaf? {
      ReplaceOrder(key, c, r);
    } else {
      var m := DelMin(variant, l);
      DelMinOrder(variant, key, l);
      assert key(m.value) < key(x) && Above(key, r, key(m.value));
      TakeFromLeft(Elements(l), x, Elements(r), m.value);
      Join(key, c, m.rest.tree, x, r);
      if m.rest.short {
        FixShortLeftOrder(variant, key, c, m.rest.tree, x, r);
      }
    }
  }

  lemma TakeFromLeft<V>(a: set<V>, x: V, b: set<V>, v: V)
    requires v in a && v != x && v !in b
    ensures (a - {v}) + {x} + b == (a + {x} + b) - {v}
  {
  }

  /** Removing the node found leaves its two subtrees' values, in order. */
  lemma RemoveOrder<V>(variant: Variant, key: V -> int, c: Color, l: Tree<V>, x: V, r: Tree<V>)
    requires Ordered(key, Node(c, l, x, r))
    ensures var d := Remove(variant, c, l, r);
      Ordered(key, d.tree) && Elements(d.tree) == Elements(l) + Elements(r)
  {
    if l.Leaf? {
      ReplaceOrder(key, c, r);
    } else if r.Leaf? {
      ReplaceOrder(key, c, l);
    } else {
      var m := DelMin(variant, r);
      DelMinOrder(variant, key, r);
      var c' := if variant == AsWritten then m.color else c;
      Join(key, c', l, m.value, m.rest.tree);
      if m.rest.short {
        FixShortRightOrder(key, c', l, m.value, m.rest.tree);
      }
    }
  }

  /** `pop` keeps the search order and removes exactly the values with key k. */
  lemma {:induction false} DelOrder<V>(variant: Variant, key: V -> int, t: Tree<V>, k: int)
    requires Ordered(key, t)
    ensures var d := Del(variant, key, t, k);
      Ordered(key, d.tree) && Elements(d.tree) == Without(key, Elements(t), k)
  {
    match t
    case Leaf =>
    case Node(c, l, x, r) =>
      if key(x) == k {
        RemoveOrder(variant, key, c, l, x, r);
        WithoutHere(key, c, l, x, r, k);
      } else if key(x) < k {
        var d := Del(variant, key, r, k);
        DelOrder(variant, key, r, k);
        WithoutRight(key, c, l, x, r, k);
        Join(key, c, l, x, d.tree);
        if d.short {
          FixShortRightOrder(key, c, l, x, d.tree);
        }
      } else {
        var d := Del(variant, key, l, k);
        DelOrder(variant, key, l, k);
        WithoutLeft(key, c, l, x, r, k);
        Join(key, c, d.tree, x, r);
        if d.short {
          FixShortLeftOrder(variant, key, c, d.tree, x, r);
        }
      }
  }

  lemma WithoutHere<V>(key: V -> int, c: Color, l: Tree<V>, x: V, r: Tree<V>, k: int)
    requires Ordered(key, Node(c, l, x, r)) && key(x) == k
    ensures Without(key, Elements(Node(c, l, x, r)), k) == Elements(l) + Elements(r)
  {
  }

  lemma WithoutRight<V>(key: V -> int, c: Color, l: Tree<V>, x: V, r: Tree<V>, k: int)
    requires Ordered(key, Node(c, l, x, r)) && key(x) < k
    ensures Without(key, Elements(Node(c, l, x, r)), k) == Elements(l) + {x} + Without(key, Elements(r), k)
  {
  }

  lemma WithoutLeft<V>(key: V -> int, c: Color, l: Tree<V>, x: V, r: Tree<V>, k: int)
    requires Ordered(key, Node(c, l, x, r)) && k < key(x)
    ensures Without(key, Elements(Node(c, l, x, r)), k) == Without(key, Elements(l), k) + {x} + Elements(r)
  {
  }

  // ------------------------------------------ the intended pop keeps the shape

  /**
   * A subtree after a removal is balanced, has no red-red edge, and its black
   * height plus the shortfall is what it was before.
   */
  predicate Repaired<V>(d: Shrunk<V>, height: nat)
  {
    Balanced(d.tree) && NoRedRed(d.tree) && BlackHeight(d.tree) + (if d.short then 1 else 0) == height
  }

  function Weight(c: Color): nat
  {
    if c == Black then 1 else 0
  }

  lemma ReplaceShape<V>(c: Color, t: Tree<V>)
    requires Balanced(t) && NoRedRed(t) && (c == Red ==> !IsRed(t))
    ensures Repaired(Replace(c, t), BlackHeight(t) + Weight(c)) && !IsRed(Replace(c, t).tree)
  {
  }

  lemma FixShortLeftBlackShape<V>(c: Color, l: Tree<V>, x: V, s: Tree<V>)
    requires Balanced(l) && NoRedRed(l) && Balanced(s) && NoRedRed(s)
    requires !IsRed(s) && BlackHeight(s) == BlackHeight(l) + 1
    ensures var d := FixShortLeftBlack(Intended, c, l, x, s);
      Repaired(d, BlackHeight(s) + Weight(c)) && (IsRed(d.tree) ==> c == Red) && (c == Red ==> !d.short)
  {
  }

  lemma FixShortLeftShape<V>(c: Color, l: Tree<V>, x: V, s: Tree<V>)
    requires Balanced(l) && NoRedRed(l) && Balanced(s) && NoRedRed(s)
    requires BlackHeight(s) == BlackHeight(l) + 1 && (c == Red ==> !IsRed(s))
    ensures var d := FixShortLeft(Intended, c, l, x, s);
      Repaired(d, BlackHeight(s) + Weight(c)) && (IsRed(d.tree) ==> c == Red)
  {
    if IsRed(s) {
      FixShortLeftBlackShape(Red, l, x, s.left);
    } else {
      FixShortLeftBlackShape(c, l, x, s);
    }
  }

  lemma FixShortRightBlackShape<V>(c: Color, s: Tree<V>, x: V, r: Tree<V>)
    requires Balanced(r) && NoRedRed(r) && Balanced(s) && NoRedRed(s)
    requires !IsRed(s) && BlackHeight(s) == BlackHeight(r) + 1
    ensures var d := FixShortRightBlack(c, s, x, r);
      Repaired(d, BlackHeight(s) + Weight(c)) && (IsRed(d.tree) ==> c == Red) && (c == Red ==> !d.short)
  {
  }

  lemma FixShortRightShape<V>(c: Color, s: Tree<V>, x: V, r: Tree<V>)
    requires Balanced(r) && NoRedRed(r) && Balanced(s) && NoRedRed(s)
    requires BlackHeight(s) == BlackHeight(r) + 1 && (c == Red ==> !IsRed(s))
    ensures var d := FixShortRight(c, s, x, r);
      Repaired(d, BlackHeight(s) + Weight(c)) && (IsRed(d.tree) ==> c == Red)
  {
    if IsRed(s) {
      FixShortRightBlackShape(Red, s.right, x, r);
    } else {
      FixShortRightBlackShape(c, s, x, r);
    }
  }

  lemma {:induction false} DelMinShape<V>(t: Tree<V>)
    requires Balanced(t) && NoRedRed(t) && t.Node?
    ensures var m := DelMin(Intended, t);
      Repaired(m.rest, BlackHeight(t)) && (IsRed(m.rest.tree) ==> IsRed(t))
  {
    var Node(c, l, x, r) := t;
    if l.Leaf? {
      ReplaceShape(c, r);
    } else {
      DelMinShape(l);
      var m := DelMin(Intended, l);
      if m.rest.short {
        FixShortLeftShape(c, m.rest.tree, x, r);
      }
    }
  }

  lemma RemoveShape<V>(c: Color, l: Tree<V>, x: V, r: Tree<V>)
    requires Balanced(Node(c, l, x, r)) && NoRedRed(Node(c, l, x, r))
    ensures var d := Remove(Intended, c, l, r);
      Repaired(d, BlackHeight(Node(c, l, x, r))) && (IsRed(d.tree) ==> c == Red)
  {
    if l.Leaf? {
      ReplaceShape(c, r);
    } else if r.Leaf? {
      ReplaceShape(c, l);
    } else {
      DelMinShape(r);
      var m := DelMin(Intended, r);
      if m.rest.short {
        FixShortRightShape(c, l, m.value, m.rest.tree);
      }
    }
  }

  /**
   * The intended removal keeps every subtree balanced and free of red-red
   * edges; only the black height may drop, by one, and a red root comes
   * only from a red root.
   */
  lemma {:induction false} DelShape<V>(key: V -> int, t: Tree<V>, k: int)
    requires Balanced(t) && NoRedRed(t)
    ensures var d := Del(Intended, key, t, k);
      Repaired(d, BlackHeight(t)) && (IsRed(d.tree) ==> IsRed(t))
  {
    match t
    case Leaf =>
    case Node(c, l, x, r) =>
      if key(x) == k {
        RemoveShape(c, l, x, r);
      } else if key(x) < k {
        DelShape(key, r, k);
        var d := Del(Intended, key, r, k);
        if d.short {
          FixShortRightShape(c, l, x, d.tree);
        }
      } else {
        DelShape(key, l, k);
        var d := Del(Intended, key, l, k);
        if d.short {
          FixShortLeftShape(c, d.tree, x, r);
        }
      }
  }

  /**
   * `pop` as intended keeps a red-black tree red-black and removes exactly
   * the value with key k.
   */
  lemma PopCorrect<V>(key: V -> int, t: Tree<V>, k: int)
    requires IsRedBlack(key, t)
    ensures var t' := Removed(Intended, key, t, k);
      IsRedBlack(key, t') && Elements(t') == Without(key, Elements(t), k)
  {
    var d := Del(Intended, key, t, k);
    DelOrder(Intended, key, t, k);
    DelShape(key, t, k);
    Repaint(key, d.tree, Black);
  }

  /** The size drops by one exactly when a value with key k was stored. */
  lemma PopSize<V>(key: V -> int, t: Tree<V>, k: int)
    requires IsRedBlack(key, t)
    ensures Count(Removed(Intended, key, t, k)) == Count(t) - (if Lookup(key, t, k).Some? then 1 else 0)
  {
    PopCorrect(key, t, k);
    CountIsSize(key, t);
    CountIsSize(key, Removed(Intended, key, t, k));
    WithoutLookup(key, t, k);
  }

  /** Removing key k from an ordered tree's values removes what the search finds. */
  lemma WithoutLookup<V>(key: V -> int, t: Tree<V>, k: int)
    requires Ordered(key, t)
    ensures var r := Lookup(key, t, k);
      (r.Some? ==> r.value in Elements(t) && Without(key, Elements(t), k) == Elements(t) - {r.value}) &&
      (r.None? ==> Without(key, Elements(t), k) == Elements(t))
  {
    var r := Lookup(key, t, k);
    LookupMisses(key, t, k);
    if r.Some? {
      LookupFinds(key, t, k, r.value);
      forall z | z in Elements(t) && key(z) == k
        ensures z == r.value
      {
        LookupFinds(key, t, k, z);
      }
    }
  }

  // ---------------------------------------------------------------- the class

  /** The nodes of a stack of subtrees, the last one on top. */
  function CountAll<V>(ts: seq<Tree<V>>): nat
  {
    if ts == [] then 0 else CountAll(ts[..|ts| - 1]) + Count(ts[|ts| - 1])
  }

  lemma CountPush<V>(ts: seq<Tree<V>>, t: Tree<V>)
    ensures CountAll(ts + [t]) == CountAll(ts) + Count(t)
  {
    assert (ts + [t])[..|ts|] == ts;
  }

  class RedBlackTree<V> {
    /** The key extractor (`element`); keys are compared with `<`. */
    const key: V -> int
    var root: Tree<V>

    ghost predicate Valid()
      reads this
    {
      IsRedBlack(key, root)
    }

    /** The empty tree. */
    constructor (key: V -> int)
      ensures Valid() && this.key == key && root == Leaf
    {
      this.key := key;
      root := Leaf;
    }

    /** A tree of one value: a black root. */
    constructor Single(key: V -> int, v: V)
      ensures Valid() && this.key == key && root == Node(Black, Leaf, v, Leaf)
    {
      this.key := key;
      root := Node(Black, Leaf, v, Leaf);
    }

    /**
     * `push(v)`: false, and nothing changes, when a value with an equivalent
     * key is stored; otherwise v is added and the tree stays red-black.
     */
    method Push(v: V) returns (ok: bool)
      requires Valid()
      modifies this
      ensures Valid() && (root, ok) == Insert(key, old(root), v)
      ensures ok <==> forall y :: y in Elements(old(root)) ==> key(y) != key(v)
      ensures ok ==> Elements(root) == Elements(old(root)) + {v} && Count(root) == Count(old(root)) + 1
      ensures !ok ==> root == old(root)
    {
      InsertCorrect(key, root, v);
      var r := Insert(key, root, v);
      root, ok := r.0, r.1;
    }

    /**
     * `pop(v)`, with the rebalancing it intends: the value with v's key goes,
     * the tree stays red-black, and the flag it returns is always false.
     */
    method Pop(v: V) returns (second: bool)
      requires Valid()
      modifies this
      ensures Valid() && root == Removed(Intended, key, old(root), key(v)) && !second
      ensures Elements(root) == Without(key, Elements(old(root)), key(v))
      ensures Count(root) == Count(old(root)) - (if Lookup(key, old(root), key(v)).Some? then 1 else 0)
    {
      PopCorrect(key, root, key(v));
      PopSize(key, root, key(v));
      root := Removed(Intended, key, root, key(v));
      second := false;
    }

    /**
     * `find(v)`: the walk down right children to the first value whose key
     * is not below v's (its branch to the left child is never taken).
     */
    method Find(v: V) returns (r: Option<V>)
      ensures r == FindAsWritten(key, root, key(v))
    {
      var t := root;
      while t.Node?
        invariant FindAsWritten(key, t, key(v)) == FindAsWritten(key, root, key(v))
        decreases t
      {
        if !(key(t.value) < key(v)) {
          return Some(t.value);
        }
        t := t.right;
      }
      return None;
    }

    /** `size()`: a depth-first walk with an explicit stack, counting nodes. */
    method Size() returns (n: nat)
      ensures n == Count(root)
    {
      n := 0;
      if root.Leaf? {
        return;
      }
      var stack := [root];
      while stack != []
        invariant n + CountAll(stack) == Count(root)
        invariant forall i :: 0 <= i < |stack| ==> stack[i].Node?
        decreases CountAll(stack)
      {
        var top := stack[|stack| - 1];
        stack := stack[..|stack| - 1];
        assert n + 1 + CountAll(stack) + Count(top.left) + Count(top.right) == Count(root);
        n := n + 1;
        if top.right.Node? {
          CountPush(stack, top.right);
          stack := stack + [top.right];
        }
        if top.left.Node? {
          CountPush(stack, top.left);
          stack := stack + [top.left];
        }
      }
    }

    /** `empty()`: no root. */
    function Empty(): (r: bool)
      reads this
      ensures r <==> Elements(root) == {}
    {
      root.Leaf?
    }
  }
}
