// The `balance_tree` of the tree library: an AVL tree mapping integer keys
// to values. Every node stores a balance factor, the height of its right
// subtree minus that of its left, which `push` and `pop` keep up to date in
// loops that walk back up the tree. The pointer structure is modelled as an
// immutable value, and each walk back up as the recursion's way back.
module AvlTrees {
  import opened Wrappers

  datatype ATree<V> = Nil | Node(left: ATree<V>, key: int, value: V, bf: int, right: ATree<V>)

  /** A subtree after one round of a fix-up loop, and whether the loop goes on to its parent. */
  datatype Step<V> = Step(tree: ATree<V>, goOn: bool)

  /** The entry removed from the far left of a subtree, and what remains. */
  datatype Least<V> = Least(key: int, value: V, rest: Step<V>)

  /** Which loop is meant: the code as it stands, or the rebalancing it intends. */
  datatype Variant = AsWritten | Intended

  function Max(a: nat, b: nat): nat
  {
    if a < b then b else a
  }

  function Height<V>(t: ATree<V>): nat
  {
    match t
    case Nil => 0
    case Node(l, _, _, _, r) => 1 + Max(Height(l), Height(r))
  }

  /** The stored key-value pairs. */
  function Elements<V(==)>(t: ATree<V>): set<(int, V)>
  {
    match t
    case Nil => {}
    case Node(l, k, v, _, r) => Elements(l) + {(k, v)} + Elements(r)
  }

  /** Keys strictly increase from left to right. */
  ghost predicate Ordered<V>(t: ATree<V>)
  {
    match t
    case Nil => true
    case Node(l, k, _, _, r) => Ordered(l) && Ordered(r) && Below(l, k) && Above(r, k)
  }

  /** Every key in t is below k. */
  ghost predicate Below<V>(t: ATree<V>, k: int)
  {
    forall p :: p in Elements(t) ==> p.0 < k
  }

  /** Every key in t is above k. */
  ghost predicate Above<V>(t: ATree<V>, k: int)
  {
    forall p :: p in Elements(t) ==> k < p.0
  }

  /** Every stored balance factor is the true one, and lies in -1..1. */
  predicate Avl<V>(t: ATree<V>)
  {
    match t
    case Nil => true
    case Node(l, _, _, b, r) =>
      Avl(l) && Avl(r) && b == Height(r) - Height(l) && -1 <= b <= 1
  }

  function Count<V>(t: ATree<V>): nat
  {
    match t
    case Nil => 0
    case Node(l, _, _, _, r) => Count(l) + 1 + Count(r)
  }

  /** The pairs of s whose key is not k. */
  ghost function Without<V>(s: set<(int, V)>, k: int): set<(int, V)>
  {
    set p | p in s && p.0 != k
  }

  /** `find(k)`: by `==` on the key, then right when the node's key is below k. */
  function Lookup<V>(t: ATree<V>, k: int): Option<V>
  {
    match t
    case Nil => None
    case Node(l, x, v, _, r) =>
      if x == k then Some(v) else if x < k then Lookup(r, k) else Lookup(l, k)
  }

  lemma {:induction false} LookupFinds<V>(t: ATree<V>, k: int, v: V)
    requires Ordered(t)
    ensures Lookup(t, k) == Some(v) <==> (k, v) in Elements(t)
  {
    match t
    case Nil =>
    case Node(l, x, w, _, r) =>
      LookupFinds(l, k, v);
      LookupFinds(r, k, v);
      if x < k {
        assert (k, v) !in Elements(l);
      } else if k < x {
        assert (k, v) !in Elements(r);
      }
  }

  /** `find(k)` fails exactly when no stored pair has key k. */
  lemma LookupMisses<V>(t: ATree<V>, k: int)
    requires Ordered(t)
    ensures Lookup(t, k).None? <==> forall p :: p in Elements(t) ==> p.0 != k
  {
    if Lookup(t, k).Some? {
      LookupFinds(t, k, Lookup(t, k).value);
    }
    if p :| p in Elements(t) && p.0 == k {
      LookupFinds(t, k, p.1);
    }
  }

  lemma {:induction false} CountIsSize<V>(t: ATree<V>)
    requires Ordered(t)
    ensures Count(t) == |Elements(t)|
  {
    match t
    case Nil =>
    case Node(l, k, v, _, r) =>
      CountIsSize(l);
      CountIsSize(r);
      assert Elements(l) !! Elements(r) by {
        forall p | p in Elements(l) ensures p !in Elements(r) { }
      }
      DisjointSize(Elements(l), Elements(r), (k, v));
  }

  /** The size of a disjoint union with one more element. */
  lemma DisjointSize<T>(a: set<T>, b: set<T>, x: T)
    requires a !! b && x !in a && x !in b
    ensures |a + {x} + b| == |a| + 1 + |b|
  {
    assert (a + {x}) * b == {};
  }

  // ------------------------------------------------------------ rotations

  /** `left_revolve`: the right child comes up, and both balance factors become 0. */
  function RotateLeft<V>(p: ATree<V>): ATree<V>
  {
    if p.Node? && p.right.Node? then
      var r := p.right;
      Node(Node(p.left, p.key, p.value, 0, r.left), r.key, r.value, 0, r.right)
    else p
  }

  /** `right_revolve`: the left child comes up, and both balance factors become 0. */
  function RotateRight<V>(p: ATree<V>): ATree<V>
  {
    if p.Node? && p.left.Node? then
      var l := p.left;
      Node(l.left, l.key, l.value, 0, Node(l.right, p.key, p.value, 0, p.right))
    else p
  }

  /**
   * `right_left_revolve`: the right child's left child comes up; the new
   * balance factors follow from the one it had.
   */
  function RotateRightLeft<V>(p: ATree<V>): ATree<V>
  {
    if p.Node? && p.right.Node? && p.right.left.Node? then
      var r := p.right;
      var rl := r.left;
      Node(Node(p.left, p.key, p.value, if rl.bf == 1 then -1 else 0, rl.left), rl.key, rl.value, 0,
           Node(rl.right, r.key, r.value, if rl.bf == -1 then 1 else 0, r.right))
    else p
  }

  /**
   * `left_right_revolve`: the left child's right child comes up. As written
   * it copies the balance factors of `right_left_revolve` unmirrored, so
   * the two nodes that go down get each other's factor.
   */
  function RotateLeftRight<V>(variant: Variant, p: ATree<V>): ATree<V>
  {
    if p.Node? && p.left.Node? && p.left.right.Node? then
      var l := p.left;
      var lr := l.right;
      var pbf := if variant == AsWritten then (if lr.bf == 1 then -1 else 0) else (if lr.bf == -1 then 1 else 0);
      var lbf := if variant == AsWritten then (if lr.bf == -1 then 1 else 0) else (if lr.bf == 1 then -1 else 0);
      Node(Node(l.left, l.key, l.value, lbf, lr.left), lr.key, lr.value, 0,
           Node(lr.right, p.key, p.value, pbf, p.right))
    else p
  }

  /**
   * The single left rotation a deletion needs when the right child is
   * itself balanced: the height does not change, and the factors become 1
   * and -1.
   */
  function RotateLeftKeep<V>(p: ATree<V>): ATree<V>
  {
    if p.Node? && p.right.Node? then
      var r := p.right;
      Node(Node(p.left, p.key, p.value, 1, r.left), r.key, r.value, -1, r.right)
    else p
  }

  /** The mirror image of RotateLeftKeep. */
  function RotateRightKeep<V>(p: ATree<V>): ATree<V>
  {
    if p.Node? && p.left.Node? then
      var l := p.left;
      Node(l.left, l.key, l.value, 1, Node(l.right, p.key, p.value, -1, p.right))
    else p
  }

  /** The tree with d added to its root's balance factor. */
  function Shift<V>(t: ATree<V>, d: int): ATree<V>
  {
    match t
    case Nil => Nil
    case Node(l, k, v, b, r) => Node(l, k, v, b + d, r)
  }

  // ------------------------------------------------------ push, as written

  /**
   * One round of `push`'s loop at node p, whose factor has just been
   * updated: 0 stops, 1 or -1 goes on to the parent, and 2 or -2 rotates.
   * After a rotation the loop goes on from the node that went down, so the
   * new subtree root takes one more step of factor and the loop carries on
   * upwards. None stands for a null dereference or a loop that never ends.
   */
  function GrowAsWritten<V>(p: ATree<V>): Option<Step<V>>
    requires p.Node?
  {
    if p.bf == 0 then Some(Step(p, false))
    else if p.bf == 1 || p.bf == -1 then Some(Step(p, true))
    else if p.bf == 2 then
      if p.right.Nil? then None
      else if p.right.bf == 1 then Some(Step(Shift(RotateLeft(p), -1), true))
      else if p.right.left.Nil? then None
      else Some(Step(Shift(RotateRightLeft(p), -1), true))
    else if p.bf == -2 then
      if p.left.Nil? then None
      else if p.left.bf == -1 then Some(Step(Shift(RotateRight(p), 1), true))
      else if p.left.right.Nil? then None
      else Some(Step(Shift(RotateLeftRight(AsWritten, p), 1), true))
    else None
  }

  /** The descent of `push`, the new leaf, and the loop back up, as written. */
  function InsAsWritten<V>(t: ATree<V>, k: int, v: V): Option<Step<V>>
  {
    match t
    case Nil => Some(Step(Node(Nil, k, v, 0, Nil), true))
    case Node(l, x, w, b, r) =>
      if k < x then
        match InsAsWritten(l, k, v)
        case None => None
        case Some(s) =>
          if s.goOn then GrowAsWritten(Node(s.tree, x, w, b - 1, r)) else Some(Step(Node(s.tree, x, w, b, r), false))
      else
        match InsAsWritten(r, k, v)
        case None => None
        case Some(s) =>
          if s.goOn then GrowAsWritten(Node(l, x, w, b + 1, s.tree)) else Some(Step(Node(l, x, w, b, s.tree), false))
  }

  /** `push(k, v)` as written: false for a key already present, else the tree after the loop. */
  function PushAsWritten<V>(t: ATree<V>, k: int, v: V): Option<(ATree<V>, bool)>
  {
    if Lookup(t, k).Some? then Some((t, false))
    else
      match InsAsWritten(t, k, v)
      case None => None
      case Some(s) => Some((s.tree, true))
  }

  // ------------------------------------------------------- pop, as written

  /**
   * One round of `pop`'s loop at node p, whose factor has just been updated
   * for a shorter child. As written it stops at 0 and goes on at 1 or -1,
   * the opposite of what a deletion needs; it rotates by the child's stored
   * factor alone, and after a rotation goes on from the node that went down.
   */
  function ShrinkAsWritten<V>(p: ATree<V>): Option<Step<V>>
    requires p.Node?
  {
    if p.bf == 0 then Some(Step(p, false))
    else if p.bf == 1 || p.bf == -1 then Some(Step(p, true))
    else if p.bf == 2 then
      if p.right.Nil? then None
      else if p.right.bf == 1 then Some(Step(Shift(RotateLeft(p), 1), true))
      else if p.right.left.Nil? then None
      else Some(Step(Shift(RotateRightLeft(p), 1), true))
    else if p.bf == -2 then
      if p.left.Nil? then None
      else if p.left.bf == -1 then Some(Step(Shift(RotateRight(p), -1), true))
      else if p.left.right.Nil? then None
      else Some(Step(Shift(RotateLeftRight(AsWritten, p), -1), true))
    else None
  }

  /** Unlinking the leftmost node of t, with `pop`'s loop on the way back, as written. */
  function DelMinAsWritten<V>(t: ATree<V>): Option<Least<V>>
    requires t.Node?
  {
    if t.left.Nil? then Some(Least(t.key, t.value, Step(t.right, true)))
    else
      match DelMinAsWritten(t.left)
      case None => None
      case Some(m) =>
        if m.rest.goOn then
          match ShrinkAsWritten(Node(m.rest.tree, t.key, t.value, t.bf + 1, t.right))
          case None => None
          case Some(s) => Some(Least(m.key, m.value, s))
        else Some(Least(m.key, m.value, Step(Node(m.rest.tree, t.key, t.value, t.bf, t.right), false)))
  }

  /** The descent of `pop` to key k, the unlinking, and the loop back up, as written. */
  function DelAsWritten<V>(t: ATree<V>, k: int): Option<Step<V>>
  {
    match t
    case Nil => Some(Step(Nil, false))
    case Node(l, x, w, b, r) =>
      if x == k then
        if l.Nil? then Some(Step(r, true))
        else if r.Nil? then Some(Step(l, true))
        else
          match DelMinAsWritten(r)
          case None => None
          case Some(m) =>
            if m.rest.goOn then ShrinkAsWritten(Node(l, m.key, m.value, b - 1, m.rest.tree))
            else Some(Step(Node(l, m.key, m.value, b, m.rest.tree), false))
      else if x < k then
        match DelAsWritten(r, k)
        case None => None
        case Some(s) =>
          if s.goOn then ShrinkAsWritten(Node(l, x, w, b - 1, s.tree)) else Some(Step(Node(l, x, w, b, s.tree), false))
      else
        match DelAsWritten(l, k)
        case None => None
        case Some(s) =>
          if s.goOn then ShrinkAsWritten(Node(s.tree, x, w, b + 1, r)) else Some(Step(Node(s.tree, x, w, b, r), false))
  }

  /** `pop(k)` as written. */
  function PopAsWritten<V>(t: ATree<V>, k: int): Option<ATree<V>>
  {
    match DelAsWritten(t, k)
    case None => None
    case Some(s) => Some(s.tree)
  }

  /** An empty tree, or a key that is not there, leaves `pop` with nothing to change. */
  lemma {:induction false} PopAsWrittenAbsent<V>(t: ATree<V>, k: int)
    requires forall p :: p in Elements(t) ==> p.0 != k
    ensures DelAsWritten(t, k) == Some(Step(t, false))
  {
    match t
    case Nil =>
    case Node(l, x, w, b, r) =>
      assert (x, w) in Elements(t);
      if x < k {
        PopAsWrittenAbsent(r, k);
      } else {
        PopAsWrittenAbsent(l, k);
      }
  }

  // ---------------------------------------------------- the intended loops

  /** One round of the insertion fix-up: a rotation ends it, as the subtree is back to its old height. */
  function Grow<V>(p: ATree<V>): Step<V>
    requires p.Node?
  {
    if p.bf == 2 then Step(if p.right.Node? && p.right.bf == 1 then RotateLeft(p) else RotateRightLeft(p), false)
    else if p.bf == -2 then Step(if p.left.Node? && p.left.bf == -1 then RotateRight(p) else RotateLeftRight(Intended, p), false)
    else Step(p, p.bf != 0)
  }

  function Ins<V>(t: ATree<V>, k: int, v: V): Step<V>
  {
    match t
    case Nil => Step(Node(Nil, k, v, 0, Nil), true)
    case Node(l, x, w, b, r) =>
      if k < x then LeftTaller(Ins(l, k, v), x, w, b, r) else RightTaller(l, x, w, b, Ins(r, k, v))
  }

  /** A node's step once its left child came back from an insertion. */
  function LeftTaller<V>(s: Step<V>, x: int, w: V, b: int, r: ATree<V>): Step<V>
  {
    if s.goOn then Grow(Node(s.tree, x, w, b - 1, r)) else Step(Node(s.tree, x, w, b, r), false)
  }

  /** A node's step once its right child came back from an insertion. */
  function RightTaller<V>(l: ATree<V>, x: int, w: V, b: int, s: Step<V>): Step<V>
  {
    if s.goOn then Grow(Node(l, x, w, b + 1, s.tree)) else Step(Node(l, x, w, b, s.tree), false)
  }

  /** `push(k, v)` with the intended fix-up. */
  function Insert<V>(t: ATree<V>, k: int, v: V): (ATree<V>, bool)
  {
    if Lookup(t, k).Some? then (t, false) else (Ins(t, k, v).tree, true)
  }

  /**
   * One round of the deletion fix-up: a factor of 0 means the subtree got
   * shorter and the loop goes on; 1 or -1 ends it; a rotation goes on unless
   * the taller child was balanced.
   */
  function Shrink<V>(p: ATree<V>): Step<V>
    requires p.Node?
  {
    if p.bf == 2 then
      if p.right.Node? && p.right.bf == 0 then Step(RotateLeftKeep(p), false)
      else if p.right.Node? && p.right.bf == 1 then Step(RotateLeft(p), true)
      else Step(RotateRightLeft(p), true)
    else if p.bf == -2 then
      if p.left.Node? && p.left.bf == 0 then Step(RotateRightKeep(p), false)
      else if p.left.Node? && p.left.bf == -1 then Step(RotateRight(p), true)
      else Step(RotateLeftRight(Intended, p), true)
    else Step(p, p.bf == 0)
  }

  function DelMin<V>(t: ATree<V>): Least<V>
    requires t.Node?
  {
    if t.left.Nil? then Least(t.key, t.value, Step(t.right, true))
    else
      var m := DelMin(t.left);
      Least(m.key, m.value, LeftShorter(m.rest, t.key, t.value, t.bf, t.right))
  }

  /** A node's step once its left child came back from a deletion. */
  function LeftShorter<V>(s: Step<V>, x: int, w: V, b: int, r: ATree<V>): Step<V>
  {
    if s.goOn then Shrink(Node(s.tree, x, w, b + 1, r)) else Step(Node(s.tree, x, w, b, r), false)
  }

  /** A node's step once its right child came back from a deletion. */
  function RightShorter<V>(l: ATree<V>, x: int, w: V, b: int, s: Step<V>): Step<V>
  {
    if s.goOn then Shrink(Node(l, x, w, b - 1, s.tree)) else Step(Node(l, x, w, b, s.tree), false)
  }

  function Del<V>(t: ATree<V>, k: int): Step<V>
  {
    match t
    case Nil => Step(Nil, false)
    case Node(l, x, w, b, r) =>
      if x == k then
        if l.Nil? then Step(r, true)
        else if r.Nil? then Step(l, true)
        else
          var m := DelMin(r);
          RightShorter(l, m.key, m.value, b, m.rest)
      else if x < k then RightShorter(l, x, w, b, Del(r, k))
      else LeftShorter(Del(l, k), x, w, b, r)
  }

  /** `pop(k)` with the intended fix-up. */
  function Removed<V>(t: ATree<V>, k: int): ATree<V>
  {
    Del(t, k).tree
  }

  // ------------------------------------- the intended loops keep the order

  /** A node is ordered when its subtrees are and its key separates them, whatever its factor. */
  lemma Join<V>(l: ATree<V>, k: int, v: V, b: int, r: ATree<V>)
    requires Ordered(l) && Ordered(r) && Below(l, k) && Above(r, k)
    ensures Ordered(Node(l, k, v, b, r))
  {
  }

  /** A left rotation, with any new factors, keeps the order and the pairs. */
  lemma RotateLeftOrder<V>(p: ATree<V>, b1: int, b2: int)
    requires Ordered(p) && p.Node? && p.right.Node?
    ensures var r := p.right;
      var q := Node(Node(p.left, p.key, p.value, b1, r.left), r.key, r.value, b2, r.right);
      Ordered(q) && Elements(q) == Elements(p)
  {
    var r := p.right;
    assert (r.key, r.value) in Elements(r);
    Join(p.left, p.key, p.value, b1, r.left);
  }

  /** A right rotation, with any new factors, keeps the order and the pairs. */
  lemma RotateRightOrder<V>(p: ATree<V>, b1: int, b2: int)
    requires Ordered(p) && p.Node? && p.left.Node?
    ensures var l := p.left;
      var q := Node(l.left, l.key, l.value, b1, Node(l.right, p.key, p.value, b2, p.right));
      Ordered(q) && Elements(q) == Elements(p)
  {
    var l := p.left;
    assert (l.key, l.value) in Elements(l);
    Join(l.right, p.key, p.value, b2, p.right);
  }

  /** A right-left rotation, with any new factors, keeps the order and the pairs. */
  lemma RotateRightLeftOrder<V>(p: ATree<V>, b1: int, b2: int)
    requires Ordered(p) && p.Node? && p.right.Node? && p.right.left.Node?
    ensures var r := p.right;
      var rl := r.left;
      var q := Node(Node(p.left, p.key, p.value, b1, rl.left), rl.key, rl.value, 0,
                    Node(rl.right, r.key, r.value, b2, r.right));
      Ordered(q) && Elements(q) == Elements(p)
  {
    var r := p.right;
    var rl := r.left;
    assert Ordered(rl) && Below(rl, r.key) && Above(r, p.key);
    assert (rl.key, rl.value) in Elements(r) && (r.key, r.value) in Elements(r);
    assert Above(rl.left, p.key) && Below(rl.right, r.key);
    var a := Node(p.left, p.key, p.value, b1, rl.left);
    var c := Node(rl.right, r.key, r.value, b2, r.right);
    Join(p.left, p.key, p.value, b1, rl.left);
    Join(rl.right, r.key, r.value, b2, r.right);
    assert Below(a, rl.key) && Above(c, rl.key);
    Join(a, rl.key, rl.value, 0, c);
  }

  /** A left-right rotation, with any new factors, keeps the order and the pairs. */
  lemma RotateLeftRightOrder<V>(p: ATree<V>, b1: int, b2: int)
    requires Ordered(p) && p.Node? && p.left.Node? && p.left.right.Node?
    ensures var l := p.left;
      var lr := l.right;
      var q := Node(Node(l.left, l.key, l.value, b1, lr.left), lr.key, lr.value, 0,
                    Node(lr.right, p.key, p.value, b2, p.right));
      Ordered(q) && Elements(q) == Elements(p)
  {
    var l := p.left;
    var lr := l.right;
    assert Ordered(lr) && Above(lr, l.key) && Below(l, p.key);
    assert (lr.key, lr.value) in Elements(l) && (l.key, l.value) in Elements(l);
    assert Above(lr.left, l.key) && Below(lr.right, p.key);
    var a := Node(l.left, l.key, l.value, b1, lr.left);
    var c := Node(lr.right, p.key, p.value, b2, p.right);
    Join(l.left, l.key, l.value, b1, lr.left);
    Join(lr.right, p.key, p.value, b2, p.right);
    assert Below(a, lr.key) && Above(c, lr.key);
    Join(a, lr.key, lr.value, 0, c);
  }

  lemma GrowOrder<V>(p: ATree<V>)
    requires Ordered(p) && p.Node?
    ensures Ordered(Grow(p).tree) && Elements(Grow(p).tree) == Elements(p)
  {
    if p.bf == 2 {
      if p.right.Node? && p.right.bf == 1 {
        RotateLeftOrder(p, 0, 0);
      } else if p.right.Node? && p.right.left.Node? {
        var rl := p.right.left;
        RotateRightLeftOrder(p, if rl.bf == 1 then -1 else 0, if rl.bf == -1 then 1 else 0);
      }
    } else if p.bf == -2 {
      if p.left.Node? && p.left.bf == -1 {
        RotateRightOrder(p, 0, 0);
      } else if p.left.Node? && p.left.right.Node? {
        var lr := p.left.right;
        RotateLeftRightOrder(p, if lr.bf == 1 then -1 else 0, if lr.bf == -1 then 1 else 0);
      }
    }
  }

  lemma ShrinkOrder<V>(p: ATree<V>)
    requires Ordered(p) && p.Node?
    ensures Ordered(Shrink(p).tree) && Elements(Shrink(p).tree) == Elements(p)
  {
    if p.bf == 2 {
      if p.right.Node? && p.right.bf == 0 {
        RotateLeftOrder(p, 1, -1);
      } else if p.right.Node? && p.right.bf == 1 {
        RotateLeftOrder(p, 0, 0);
      } else if p.right.Node? && p.right.left.Node? {
        var rl := p.right.left;
        RotateRightLeftOrder(p, if rl.bf == 1 then -1 else 0, if rl.bf == -1 then 1 else 0);
      }
    } else if p.bf == -2 {
      if p.left.Node? && p.left.bf == 0 {
        RotateRightOrder(p, 1, -1);
      } else if p.left.Node? && p.left.bf == -1 {
        RotateRightOrder(p, 0, 0);
      } else if p.left.Node? && p.left.right.Node? {
        var lr := p.left.right;
        RotateLeftRightOrder(p, if lr.bf == 1 then -1 else 0, if lr.bf == -1 then 1 else 0);
      }
    }
  }

  lemma LeftTallerOrder<V>(s: Step<V>, x: int, w: V, b: int, r: ATree<V>)
    requires Ordered(s.tree) && Ordered(r) && Below(s.tree, x) && Above(r, x)
    ensures var u := LeftTaller(s, x, w, b, r);
      Ordered(u.tree) && Elements(u.tree) == Elements(s.tree) + {(x, w)} + Elements(r)
  {
    Join(s.tree, x, w, b, r);
    if s.goOn {
      Join(s.tree, x, w, b - 1, r);
      GrowOrder(Node(s.tree, x, w, b - 1, r));
    }
  }

  lemma RightTallerOrder<V>(l: ATree<V>, x: int, w: V, b: int, s: Step<V>)
    requires Ordered(l) && Ordered(s.tree) && Below(l, x) && Above(s.tree, x)
    ensures var u := RightTaller(l, x, w, b, s);
      Ordered(u.tree) && Elements(u.tree) == Elements(l) + {(x, w)} + Elements(s.tree)
  {
    Join(l, x, w, b, s.tree);
    if s.goOn {
      Join(l, x, w, b + 1, s.tree);
      GrowOrder(Node(l, x, w, b + 1, s.tree));
    }
  }

  lemma LeftShorterOrder<V>(s: Step<V>, x: int, w: V, b: int, r: ATree<V>)
    requires Ordered(s.tree) && Ordered(r) && Below(s.tree, x) && Above(r, x)
    ensures var u := LeftShorter(s, x, w, b, r);
      Ordered(u.tree) && Elements(u.tree) == Elements(s.tree) + {(x, w)} + Elements(r)
  {
    Join(s.tree, x, w, b, r);
    if s.goOn {
      Join(s.tree, x, w, b + 1, r);
      ShrinkOrder(Node(s.tree, x, w, b + 1, r));
    }
  }

  lemma RightShorterOrder<V>(l: ATree<V>, x: int, w: V, b: int, s: Step<V>)
    requires Ordered(l) && Ordered(s.tree) && Below(l, x) && Above(s.tree, x)
    ensures var u := RightShorter(l, x, w, b, s);
      Ordered(u.tree) && Elements(u.tree) == Elements(l) + {(x, w)} + Elements(s.tree)
  {
    Join(l, x, w, b, s.tree);
    if s.goOn {
      Join(l, x, w, b - 1, s.tree);
      ShrinkOrder(Node(l, x, w, b - 1, s.tree));
    }
  }

  /** Inserting an absent key adds its pair and keeps the order. */
  lemma {:induction false} InsOrder<V>(t: ATree<V>, k: int, v: V)
    requires Ordered(t) && forall p :: p in Elements(t) ==> p.0 != k
    ensures Ordered(Ins(t, k, v).tree) && Elements(Ins(t, k, v).tree) == Elements(t) + {(k, v)}
  {
    match t
    case Nil =>
    case Node(l, x, w, b, r) =>
      assert (x, w) in Elements(t);
      if k < x {
        var s := Ins(l, k, v);
        InsOrder(l, k, v);
        assert Below(s.tree, x);
        LeftTallerOrder(s, x, w, b, r);
      } else {
        var s := Ins(r, k, v);
        InsOrder(r, k, v);
        assert Above(s.tree, x);
        RightTallerOrder(l, x, w, b, s);
      }
  }

  lemma TakeFromLeft<V>(a: set<(int, V)>, x: (int, V), b: set<(int, V)>, m: (int, V))
    requires m in a && m != x && m !in b
    ensures (a - {m}) + {x} + b == (a + {x} + b) - {m}
  {
  }

  /** The leftmost pair is the least one; the rest stays ordered. */
  lemma {:induction false} DelMinOrder<V>(t: ATree<V>)
    requires Ordered(t) && t.Node?
    ensures var m := DelMin(t);
      (m.key, m.value) in Elements(t) && Ordered(m.rest.tree) &&
      Elements(m.rest.tree) == Elements(t) - {(m.key, m.value)} && Above(m.rest.tree, m.key)
  {
    var Node(l, x, w, b, r) := t;
    if l.Nil? {
      assert (x, w) !in Elements(r);
    } else {
      var m := DelMin(l);
      DelMinOrder(l);
      assert m.key < x && Above(r, m.key);
      TakeFromLeft(Elements(l), (x, w), Elements(r), (m.key, m.value));
      LeftShorterOrder(m.rest, x, w, b, r);
    }
  }

  /** Removing the node found leaves the pairs of its two subtrees, in order. */
  lemma RemoveOrder<V>(l: ATree<V>, x: int, w: V, b: int, r: ATree<V>)
    requires Ordered(Node(l, x, w, b, r)) && l.Node? && r.Node?
    ensures var d := Del(Node(l, x, w, b, r), x);
      Ordered(d.tree) && Elements(d.tree) == Elements(l) + Elements(r)
  {
    var m := DelMin(r);
    DelMinOrder(r);
    assert Below(l, m.key);
    RightShorterOrder(l, m.key, m.value, b, m.rest);
  }

  lemma WithoutHere<V>(l: ATree<V>, x: int, w: V, b: int, r: ATree<V>)
    requires Ordered(Node(l, x, w, b, r))
    ensures Without(Elements(Node(l, x, w, b, r)), x) == Elements(l) + Elements(r)
  {
  }

  lemma WithoutRight<V>(l: ATree<V>, x: int, w: V, b: int, r: ATree<V>, k: int)
    requires Ordered(Node(l, x, w, b, r)) && x < k
    ensures Without(Elements(Node(l, x, w, b, r)), k) == Elements(l) + {(x, w)} + Without(Elements(r), k)
  {
  }

  lemma WithoutLeft<V>(l: ATree<V>, x: int, w: V, b: int, r: ATree<V>, k: int)
    requires Ordered(Node(l, x, w, b, r)) && k < x
    ensures Without(Elements(Node(l, x, w, b, r)), k) == Without(Elements(l), k) + {(x, w)} + Elements(r)
  {
  }

  /** Deleting key k keeps the order and removes exactly the pairs with key k. */
  lemma {:induction false} DelOrder<V>(t: ATree<V>, k: int)
    requires Ordered(t)
    ensures Ordered(Del(t, k).tree) && Elements(Del(t, k).tree) == Without(Elements(t), k)
  {
    match t
    case Nil =>
    case Node(l, x, w, b, r) =>
      WithoutHere(l, x, w, b, r);
      if x == k {
        if l.Node? && r.Node? {
          RemoveOrder(l, x, w, b, r);
        }
      } else if x < k {
        var s := Del(r, k);
        DelOrder(r, k);
        WithoutRight(l, x, w, b, r, k);
        RightShorterOrder(l, x, w, b, s);
      } else {
        var s := Del(l, k);
        DelOrder(l, k);
        WithoutLeft(l, x, w, b, r, k);
        LeftShorterOrder(s, x, w, b, r);
      }
  }

  // ------------------------------------ the intended loops keep the balance

  lemma RotateLeftShape<V>(p: ATree<V>)
    requires p.Node? && p.right.Node? && Avl(p.left) && Avl(p.right)
    requires Height(p.right) == Height(p.left) + 2 && p.right.bf == 1
    ensures Avl(RotateLeft(p)) && Height(RotateLeft(p)) + 1 == Height(p)
  {
  }

  lemma RotateRightShape<V>(p: ATree<V>)
    requires p.Node? && p.left.Node? && Avl(p.left) && Avl(p.right)
    requires Height(p.left) == Height(p.right) + 2 && p.left.bf == -1
    ensures Avl(RotateRight(p)) && Height(RotateRight(p)) + 1 == Height(p)
  {
  }

  lemma RotateLeftKeepShape<V>(p: ATree<V>)
    requires p.Node? && p.right.Node? && Avl(p.left) && Avl(p.right)
    requires Height(p.right) == Height(p.left) + 2 && p.right.bf == 0
    ensures Avl(RotateLeftKeep(p)) && Height(RotateLeftKeep(p)) == Height(p)
  {
  }

  lemma RotateRightKeepShape<V>(p: ATree<V>)
    requires p.Node? && p.left.Node? && Avl(p.left) && Avl(p.right)
    requires Height(p.left) == Height(p.right) + 2 && p.left.bf == 0
    ensures Avl(RotateRightKeep(p)) && Height(RotateRightKeep(p)) == Height(p)
  {
  }

  lemma RotateRightLeftShape<V>(p: ATree<V>)
    requires p.Node? && p.right.Node? && Avl(p.left) && Avl(p.right)
    requires Height(p.right) == Height(p.left) + 2 && p.right.bf == -1
    ensures Avl(RotateRightLeft(p)) && Height(RotateRightLeft(p)) + 1 == Height(p)
  {
    assert p.right.left.Node?;
  }

  lemma RotateLeftRightShape<V>(p: ATree<V>)
    requires p.Node? && p.left.Node? && Avl(p.left) && Avl(p.right)
    requires Height(p.left) == Height(p.right) + 2 && p.left.bf == 1
    ensures Avl(RotateLeftRight(Intended, p)) && Height(RotateLeftRight(Intended, p)) + 1 == Height(p)
  {
    assert p.left.right.Node?;
  }

  /**
   * One round of the insertion fix-up at a node whose factor is exact and
   * whose taller child, after growing, is not balanced: the result is AVL;
   * a rotation ends the loop one level lower than p.
   */
  lemma GrowShape<V>(p: ATree<V>)
    requires p.Node? && Avl(p.left) && Avl(p.right)
    requires p.bf == Height(p.right) - Height(p.left) && -2 <= p.bf <= 2
    requires p.bf == 2 ==> p.right.Node? && p.right.bf != 0
    requires p.bf == -2 ==> p.left.Node? && p.left.bf != 0
    ensures Avl(Grow(p).tree) && Grow(p).tree.Node?
    ensures (p.bf == 2 || p.bf == -2) ==> !Grow(p).goOn && Height(Grow(p).tree) + 1 == Height(p)
    ensures -1 <= p.bf <= 1 ==> Grow(p) == Step(p, p.bf != 0)
  {
    if p.bf == 2 {
      if p.right.bf == 1 {
        RotateLeftShape(p);
      } else {
        RotateRightLeftShape(p);
      }
    } else if p.bf == -2 {
      if p.left.bf == -1 {
        RotateRightShape(p);
      } else {
        RotateLeftRightShape(p);
      }
    }
  }

  lemma LeftTallerShape<V>(s: Step<V>, x: int, w: V, b: int, r: ATree<V>, h: nat)
    requires Avl(s.tree) && s.tree.Node? && Avl(r) && b == Height(r) - h && -1 <= b <= 1
    requires Height(s.tree) == h + (if s.goOn then 1 else 0)
    requires s.goOn && Height(s.tree) >= 2 ==> s.tree.bf != 0
    ensures var u := LeftTaller(s, x, w, b, r);
      Avl(u.tree) && u.tree.Node? && Height(u.tree) == 1 + Max(h, Height(r)) + (if u.goOn then 1 else 0) &&
      (u.goOn ==> u.tree.bf != 0)
  {
    if s.goOn {
      GrowShape(Node(s.tree, x, w, b - 1, r));
    }
  }

  lemma RightTallerShape<V>(l: ATree<V>, x: int, w: V, b: int, s: Step<V>, h: nat)
    requires Avl(s.tree) && s.tree.Node? && Avl(l) && b == h - Height(l) && -1 <= b <= 1
    requires Height(s.tree) == h + (if s.goOn then 1 else 0)
    requires s.goOn && Height(s.tree) >= 2 ==> s.tree.bf != 0
    ensures var u := RightTaller(l, x, w, b, s);
      Avl(u.tree) && u.tree.Node? && Height(u.tree) == 1 + Max(Height(l), h) + (if u.goOn then 1 else 0) &&
      (u.goOn ==> u.tree.bf != 0)
  {
    if s.goOn {
      GrowShape(Node(l, x, w, b + 1, s.tree));
    }
  }

  /**
   * Insertion yields an AVL tree whose height grows by one exactly when the
   * loop goes on, and then its root is not balanced unless it is a leaf.
   */
  lemma {:induction false} InsShape<V>(t: ATree<V>, k: int, v: V)
    requires Avl(t)
    ensures var s := Ins(t, k, v);
      Avl(s.tree) && s.tree.Node? && Height(s.tree) == Height(t) + (if s.goOn then 1 else 0) &&
      (s.goOn && Height(s.tree) >= 2 ==> s.tree.bf != 0)
  {
    match t
    case Nil =>
    case Node(l, x, w, b, r) =>
      if k < x {
        InsShape(l, k, v);
        LeftTallerShape(Ins(l, k, v), x, w, b, r, Height(l));
      } else {
        InsShape(r, k, v);
        RightTallerShape(l, x, w, b, Ins(r, k, v), Height(r));
      }
  }

  /**
   * One round of the deletion fix-up at a node whose factor is exact: the
   * result is AVL, and after a rotation the loop goes on exactly when the
   * height dropped.
   */
  lemma ShrinkShape<V>(p: ATree<V>)
    requires p.Node? && Avl(p.left) && Avl(p.right)
    requires p.bf == Height(p.right) - Height(p.left) && -2 <= p.bf <= 2
    ensures Avl(Shrink(p).tree)
    ensures (p.bf == 2 || p.bf == -2) ==> Height(Shrink(p).tree) + (if Shrink(p).goOn then 1 else 0) == Height(p)
    ensures -1 <= p.bf <= 1 ==> Shrink(p) == Step(p, p.bf == 0)
  {
    if p.bf == 2 {
      if p.right.bf == 0 {
        RotateLeftKeepShape(p);
      } else if p.right.bf == 1 {
        RotateLeftShape(p);
      } else {
        RotateRightLeftShape(p);
      }
    } else if p.bf == -2 {
      if p.left.bf == 0 {
        RotateRightKeepShape(p);
      } else if p.left.bf == -1 {
        RotateRightShape(p);
      } else {
        RotateLeftRightShape(p);
      }
    }
  }

  lemma LeftShorterShape<V>(s: Step<V>, x: int, w: V, b: int, r: ATree<V>, h: nat)
    requires Avl(s.tree) && Avl(r) && b == Height(r) - h && -1 <= b <= 1
    requires Height(s.tree) + (if s.goOn then 1 else 0) == h
    ensures var u := LeftShorter(s, x, w, b, r);
      Avl(u.tree) && Height(u.tree) + (if u.goOn then 1 else 0) == 1 + Max(h, Height(r))
  {
    if s.goOn {
      ShrinkShape(Node(s.tree, x, w, b + 1, r));
    }
  }

  lemma RightShorterShape<V>(l: ATree<V>, x: int, w: V, b: int, s: Step<V>, h: nat)
    requires Avl(s.tree) && Avl(l) && b == h - Height(l) && -1 <= b <= 1
    requires Height(s.tree) + (if s.goOn then 1 else 0) == h
    ensures var u := RightShorter(l, x, w, b, s);
      Avl(u.tree) && Height(u.tree) + (if u.goOn then 1 else 0) == 1 + Max(Height(l), h)
  {
    if s.goOn {
      ShrinkShape(Node(l, x, w, b - 1, s.tree));
    }
  }

  /** Unlinking the leftmost node yields an AVL tree one shorter exactly when the loop goes on. */
  lemma {:induction false} DelMinShape<V>(t: ATree<V>)
    requires Avl(t) && t.Node?
    ensures var m := DelMin(t);
      Avl(m.rest.tree) && Height(m.rest.tree) + (if m.rest.goOn then 1 else 0) == Height(t)
  {
    if t.left.Node? {
      DelMinShape(t.left);
      LeftShorterShape(DelMin(t.left).rest, t.key, t.value, t.bf, t.right, Height(t.left));
    }
  }

  /** Deletion yields an AVL tree one shorter exactly when the loop goes on. */
  lemma {:induction false} DelShape<V>(t: ATree<V>, k: int)
    requires Avl(t)
    ensures var d := Del(t, k);
      Avl(d.tree) && Height(d.tree) + (if d.goOn then 1 else 0) == Height(t)
  {
    match t
    case Nil =>
    case Node(l, x, w, b, r) =>
      if x == k {
        if l.Node? && r.Node? {
          var m := DelMin(r);
          DelMinShape(r);
          RightShorterShape(l, m.key, m.value, b, m.rest, Height(r));
        }
      } else if x < k {
        DelShape(r, k);
        RightShorterShape(l, x, w, b, Del(r, k), Height(r));
      } else {
        DelShape(l, k);
        LeftShorterShape(Del(l, k), x, w, b, r, Height(l));
      }
  }

  // ------------------------------------------------- push and pop, intended

  /**
   * `push(k, v)`: false, and nothing changes, when key k is stored;
   * otherwise the pair is added, and the tree stays ordered and AVL.
   */
  lemma InsertCorrect<V>(t: ATree<V>, k: int, v: V)
    requires Avl(t) && Ordered(t)
    ensures var (t', ok) := Insert(t, k, v);
      Avl(t') && Ordered(t') && (ok <==> Lookup(t, k).None?) &&
      Elements(t') == (if ok then Elements(t) + {(k, v)} else Elements(t)) &&
      Count(t') == Count(t) + (if ok then 1 else 0)
  {
    LookupMisses(t, k);
    if Lookup(t, k).None? {
      InsOrder(t, k, v);
      InsShape(t, k, v);
      CountIsSize(t);
      CountIsSize(Ins(t, k, v).tree);
      assert (k, v) !in Elements(t);
    }
  }

  /** The pairs with key k are the one found by `find`, or none. */
  lemma WithoutLookup<V>(t: ATree<V>, k: int)
    requires Ordered(t)
    ensures var r := Lookup(t, k);
      (r.Some? ==> (k, r.value) in Elements(t) && Without(Elements(t), k) == Elements(t) - {(k, r.value)}) &&
      (r.None? ==> Without(Elements(t), k) == Elements(t))
  {
    var r := Lookup(t, k);
    LookupMisses(t, k);
    if r.Some? {
      LookupFinds(t, k, r.value);
      forall p | p in Elements(t) && p.0 == k
        ensures p == (k, r.value)
      {
        LookupFinds(t, k, p.1);
      }
    }
  }

  /** `pop(k)` removes exactly the pair with key k, and the tree stays ordered and AVL. */
  lemma PopCorrect<V>(t: ATree<V>, k: int)
    requires Avl(t) && Ordered(t)
    ensures var t' := Removed(t, k);
      Avl(t') && Ordered(t') && Elements(t') == Without(Elements(t), k)
  {
    DelOrder(t, k);
    DelShape(t, k);
  }

  /** `pop(k)` shrinks the tree by one node exactly when `find(k)` succeeds. */
  lemma PopSize<V>(t: ATree<V>, k: int)
    requires Avl(t) && Ordered(t)
    ensures Count(Removed(t, k)) == Count(t) - (if Lookup(t, k).Some? then 1 else 0)
  {
    DelOrder(t, k);
    WithoutLookup(t, k);
    CountIsSize(t);
    CountIsSize(Removed(t, k));
  }

  /** On an empty tree, or for a key that is not stored, `pop` changes nothing. */
  lemma {:induction false} PopAbsent<V>(t: ATree<V>, k: int)
    requires forall p :: p in Elements(t) ==> p.0 != k
    ensures Del(t, k) == Step(t, false)
  {
    match t
    case Nil =>
    case Node(l, x, w, b, r) =>
      assert (x, w) in Elements(t);
      if x < k {
        PopAbsent(r, k);
      } else {
        PopAbsent(l, k);
      }
  }

  // ------------------------------------------ the faults, on concrete input

  /** Pushing keys in order, each with itself as value, as written. */
  function PushAllAsWritten(t: ATree<int>, ks: seq<int>): Option<ATree<int>>
    decreases |ks|
  {
    if ks == [] then Some(t)
    else
      match PushAsWritten(t, ks[0], ks[0])
      case None => None
      case Some(r) => PushAllAsWritten(r.0, ks[1..])
  }

  /** Pushing keys in order, each with itself as value, with the intended fix-up. */
  function PushAll(t: ATree<int>, ks: seq<int>): ATree<int>
    decreases |ks|
  {
    if ks == [] then t else PushAll(Insert(t, ks[0], ks[0]).0, ks[1..])
  }

  function Leaf(k: int): ATree<int>
  {
    Node(Nil, k, k, 0, Nil)
  }

  /**
   * After a rotation `push` goes on up the tree: pushing 1, 2 and 3 leaves
   * the new root 2 with a stored factor of -1 where its subtrees are of
   * equal height; the intended loop stops at the rotation.
   */
  lemma PushOneTwoThree()
    ensures PushAllAsWritten(Nil, [1, 2, 3]) == Some(Node(Leaf(1), 2, 2, -1, Leaf(3)))
    ensures !Avl(Node(Leaf(1), 2, 2, -1, Leaf(3)))
    ensures PushAll(Nil, [1, 2, 3]) == Node(Leaf(1), 2, 2, 0, Leaf(3))
  {
    var t1 := Leaf(1);
    var t2 := Node(Nil, 1, 1, 1, Leaf(2));
    assert PushAsWritten(Nil, 1, 1) == Some((t1, true));
    assert PushAsWritten(t1, 2, 2) == Some((t2, true));
    assert PushAsWritten(t2, 3, 3) == Some((Node(Leaf(1), 2, 2, -1, Leaf(3)), true));
    assert [1, 2, 3][1..] == [2, 3] && [2, 3][1..] == [3] && [3][1..] == [];
    assert Insert(Nil, 1, 1).0 == t1;
    assert Insert(t1, 2, 2).0 == t2;
    assert Insert(t2, 3, 3).0 == Node(Leaf(1), 2, 2, 0, Leaf(3));
  }

  /**
   * `left_right_revolve` gives the two nodes that go down each other's
   * factor: pushing 5, 2, 6, 1, 3 and 4 leaves node 2 (left child 1, no
   * right child) with factor 0 and node 5 (children 4 and 6) with factor
   * -1; the intended rotation gives -1 and 0.
   */
  lemma PushLeftRightFactors()
    ensures PushAllAsWritten(Nil, [5, 2, 6, 1, 3, 4]) ==
      Some(Node(Node(Leaf(1), 2, 2, 0, Nil), 3, 3, 1, Node(Leaf(4), 5, 5, -1, Leaf(6))))
    ensures !Avl(Node(Node(Leaf(1), 2, 2, 0, Nil), 3, 3, 1, Node(Leaf(4), 5, 5, -1, Leaf(6))))
  {
    var ks := [5, 2, 6, 1, 3, 4];
    var a1 := Leaf(5);
    var a2 := Node(Leaf(2), 5, 5, -1, Nil);
    var a3 := Node(Leaf(2), 5, 5, 0, Leaf(6));
    var a4 := Node(Node(Leaf(1), 2, 2, -1, Nil), 5, 5, -1, Leaf(6));
    var a5 := Node(Node(Leaf(1), 2, 2, 0, Leaf(3)), 5, 5, -1, Leaf(6));
    assert ks[1..] == [2, 6, 1, 3, 4] && ks[2..] == [6, 1, 3, 4] && ks[3..] == [1, 3, 4];
    assert ks[4..] == [3, 4] && ks[5..] == [4] && ks[6..] == [];
    assert PushAsWritten(Nil, 5, 5) == Some((a1, true));
    assert PushAsWritten(a1, 2, 2) == Some((a2, true));
    assert PushAsWritten(a2, 6, 6) == Some((a3, true));
    assert PushAsWritten(a3, 1, 1) == Some((a4, true));
    assert PushAsWritten(a4, 3, 3) == Some((a5, true));
    assert PushAsWritten(a5, 4, 4) ==
      Some((Node(Node(Leaf(1), 2, 2, 0, Nil), 3, 3, 1, Node(Leaf(4), 5, 5, -1, Leaf(6))), true));
  }

  /** The intended rotation on the same pushes gives node 2 factor -1, and node 5 and the root 0. */
  lemma PushLeftRightIntended()
    ensures PushAll(Nil, [5, 2, 6, 1, 3, 4]) ==
      Node(Node(Leaf(1), 2, 2, -1, Nil), 3, 3, 0, Node(Leaf(4), 5, 5, 0, Leaf(6)))
  {
    var ks := [5, 2, 6, 1, 3, 4];
    var a1 := Leaf(5);
    var a2 := Node(Leaf(2), 5, 5, -1, Nil);
    var a3 := Node(Leaf(2), 5, 5, 0, Leaf(6));
    var a4 := Node(Node(Leaf(1), 2, 2, -1, Nil), 5, 5, -1, Leaf(6));
    var a5 := Node(Node(Leaf(1), 2, 2, 0, Leaf(3)), 5, 5, -1, Leaf(6));
    assert ks[1..] == [2, 6, 1, 3, 4] && ks[2..] == [6, 1, 3, 4] && ks[3..] == [1, 3, 4];
    assert ks[4..] == [3, 4] && ks[5..] == [4] && ks[6..] == [];
    assert Insert(Nil, 5, 5).0 == a1;
    assert Insert(a1, 2, 2).0 == a2;
    assert Insert(a2, 6, 6).0 == a3;
    assert Insert(a3, 1, 1).0 == a4;
    assert Insert(a4, 3, 3).0 == a5;
    assert Insert(a5, 4, 4).0 == Node(Node(Leaf(1), 2, 2, -1, Nil), 3, 3, 0, Node(Leaf(4), 5, 5, 0, Leaf(6)));
  }

  /**
   * `pop`'s loop stops where it should go on and goes on where it should
   * stop: after pushing 3, 2, 4 and 1, popping 1 leaves the root 3 with
   * factor -1 over two leaves, and popping 4 then rotates at a node with no
   * grandchild and dereferences a null pointer. The intended loop leaves 3
   * over 2.
   */
  lemma PopThenPopFaults()
    ensures PushAllAsWritten(Nil, [3, 2, 4, 1]) == Some(Node(Node(Leaf(1), 2, 2, -1, Nil), 3, 3, -1, Leaf(4)))
    ensures PopAsWritten(Node(Node(Leaf(1), 2, 2, -1, Nil), 3, 3, -1, Leaf(4)), 1) ==
      Some(Node(Leaf(2), 3, 3, -1, Leaf(4)))
    ensures PopAsWritten(Node(Leaf(2), 3, 3, -1, Leaf(4)), 4) == None
    ensures PushAll(Nil, [3, 2, 4, 1]) == Node(Node(Leaf(1), 2, 2, -1, Nil), 3, 3, -1, Leaf(4))
    ensures Removed(Removed(Node(Node(Leaf(1), 2, 2, -1, Nil), 3, 3, -1, Leaf(4)), 1), 4) == Node(Leaf(2), 3, 3, -1, Nil)
  {
    var ks := [3, 2, 4, 1];
    var a1 := Leaf(3);
    var a2 := Node(Leaf(2), 3, 3, -1, Nil);
    var a3 := Node(Leaf(2), 3, 3, 0, Leaf(4));
    var a4 := Node(Node(Leaf(1), 2, 2, -1, Nil), 3, 3, -1, Leaf(4));
    assert ks[1..] == [2, 4, 1] && ks[2..] == [4, 1] && ks[3..] == [1] && ks[4..] == [];
    assert PushAsWritten(Nil, 3, 3) == Some((a1, true));
    assert PushAsWritten(a1, 2, 2) == Some((a2, true));
    assert PushAsWritten(a2, 4, 4) == Some((a3, true));
    assert PushAsWritten(a3, 1, 1) == Some((a4, true));
    assert Insert(Nil, 3, 3).0 == a1;
    assert Insert(a1, 2, 2).0 == a2;
    assert Insert(a2, 4, 4).0 == a3;
    assert Insert(a3, 1, 1).0 == a4;
    assert Removed(a4, 1) == Node(Leaf(2), 3, 3, 0, Leaf(4));
  }

  // ---------------------------------------------------------------- the class

  /** The nodes of a stack of subtrees, the last one on top. */
  function CountAll<V>(ts: seq<ATree<V>>): nat
  {
    if ts == [] then 0 else CountAll(ts[..|ts| - 1]) + Count(ts[|ts| - 1])
  }

  lemma CountPush<V>(ts: seq<ATree<V>>, t: ATree<V>)
    ensures CountAll(ts + [t]) == CountAll(ts) + Count(t)
  {
    assert (ts + [t])[..|ts|] == ts;
  }

  class BalanceTree<V(==)> {
    var root: ATree<V>

    ghost predicate Valid()
      reads this
    {
      Avl(root) && Ordered(root)
    }

    /** The empty tree. */
    constructor ()
      ensures Valid() && root == Nil
    {
      root := Nil;
    }

    /** A tree of one node, balanced. */
    constructor Single(k: int, v: V)
      ensures Valid() && root == Node(Nil, k, v, 0, Nil)
    {
      root := Node(Nil, k, v, 0, Nil);
    }

    /** `empty()`: no root. */
    function Empty(): (r: bool)
      reads this
      ensures r <==> Elements(root) == {}
    {
      assert root.Node? ==> (root.key, root.value) in Elements(root);
      root.Nil?
    }

    /**
     * `push(k, v)`: false, and nothing changes, when key k is stored;
     * otherwise the pair is added and the tree stays ordered and AVL.
     */
    method Push(k: int, v: V) returns (ok: bool)
      requires Valid()
      modifies this
      ensures Valid() && (root, ok) == Insert(old(root), k, v)
      ensures ok <==> Lookup(old(root), k).None?
      ensures Elements(root) == if ok then old(Elements(root)) + {(k, v)} else old(Elements(root))
      ensures Count(root) == old(Count(root)) + (if ok then 1 else 0)
    {
      InsertCorrect(root, k, v);
      root, ok := Insert(root, k, v).0, Insert(root, k, v).1;
    }

    /**
     * `pop(k)`: removes the pair with key k, if any, and the tree stays
     * ordered and AVL; on an empty tree or an absent key nothing changes.
     */
    method Pop(k: int)
      requires Valid()
      modifies this
      ensures Valid() && root == Removed(old(root), k)
      ensures Elements(root) == Without(old(Elements(root)), k)
      ensures Lookup(old(root), k).None? ==> root == old(root)
      ensures Count(root) == old(Count(root)) - (if Lookup(old(root), k).Some? then 1 else 0)
    {
      PopCorrect(root, k);
      PopSize(root, k);
      LookupMisses(root, k);
      if Lookup(root, k).None? {
        PopAbsent(root, k);
      }
      root := Removed(root, k);
    }

    /** `find(k)`: the walk down from the root. */
    method Find(k: int) returns (r: Option<V>)
      ensures r == Lookup(root, k)
    {
      var t := root;
      while t.Node? && t.key != k
        invariant Lookup(t, k) == Lookup(root, k)
        decreases t
      {
        t := if t.key < k then t.right else t.left;
      }
      r := if t.Nil? then None else Some(t.value);
    }

    /** `size()`: counts the nodes with an explicit stack, right child pushed before left. */
    method Size() returns (n: nat)
      ensures n == Count(root)
    {
      n := 0;
      if root.Nil? {
        return;
      }
      var stack := [root];
      while stack != []
        invariant n + CountAll(stack) == Count(root)
        invariant forall i :: 0 <= i < |stack| ==> stack[i].Node?
        decreases CountAll(stack)
      {
        var top := stack[|stack| - 1];
        stack := stack[..|stack| - 1];
        assert n + 1 + CountAll(stack) + Count(top.left) + Count(top.right) == Count(root);
        n := n + 1;
        if top.right.Node? {
          CountPush(stack, top.right);
          stack := stack + [top.right];
        }
        if top.left.Node? {
          CountPush(stack, top.left);
          stack := stack + [top.left];
        }
      }
    }
  }
}
