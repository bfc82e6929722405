// The `queue` adapter over a `list`, and the binary-heap `priority_queue`
// over a `vector` of integers, ordered by a `less` or `greater` comparator.
module Queues {
  import Lists
  import Vectors
  import Algorithm

  /** A FIFO view of a list: pushed at the back, popped at the front. */
  class Queue<T> {
    var items: Lists.List<T>
    ghost var Repr: set<object>

    ghost predicate Valid()
      reads this, Repr
    {
      this in Repr && items in Repr && items.Repr <= Repr && this !in items.Repr &&
      items.Valid()
    }

    /** Front to back. */
    ghost function Contents(): seq<T>
      reads this, Repr
      requires Valid()
    {
      items.contents
    }

    constructor (blank: T)
      ensures Valid() && fresh(Repr) && Contents() == []
    {
      items := new Lists.List(blank);
      new;
      Repr := {this} + items.Repr;
    }

    /** Construction from a list pushes each element in order. */
    constructor FromList(blank: T, xs: seq<T>)
      ensures Valid() && fresh(Repr) && Contents() == xs
    {
      items := new Lists.List(blank);
      new;
      Repr := {this} + items.Repr;
      var i := 0;
      while i < |xs|
        invariant 0 <= i <= |xs|
        invariant Valid() && fresh(Repr) && Contents() == xs[..i]
      {
        Push(xs[i]);
        PrefixGrows(xs, i);
        i := i + 1;
      }
    }

    /** `queue(v)`: a queue holding just v. */
    constructor Single(blank: T, v: T)
      ensures Valid() && fresh(Repr) && Contents() == [v]
    {
      items := new Lists.List(blank);
      new;
      Repr := {this} + items.Repr;
      Push(v);
    }

    method Push(x: T)
      requires Valid()
      modifies Repr
      ensures Valid() && fresh(Repr - old(Repr))
      ensures Contents() == old(Contents()) + [x]
    {
      items.PushBack(x);
      Repr := Repr + items.Repr;
    }

    method Pop()
      requires Valid() && Contents() != []
      modifies Repr
      ensures Valid() && Repr == old(Repr)
      ensures Contents() == old(Contents())[1..]
    {
      var _ := items.PopFront();
    }

    method Size() returns (n: nat)
      requires Valid()
      ensures n == |Contents()|
    {
      n := items.Size();
    }

    function Empty(): (r: bool)
      reads this, Repr
      requires Valid()
      ensures r <==> Contents() == []
    {
      items.Empty()
    }

    /** `front()`: the list's first value, or its sentinel's element when empty. */
    function Front(): (x: T)
      reads this, Repr
      requires Valid()
      ensures Contents() != [] ==> x == Contents()[0]
      ensures Contents() == [] ==> x == items.head.data
    {
      items.Front()
    }

    /** `back()`: the list's last value, or its sentinel's element when empty. */
    function Back(): (x: T)
      reads this, Repr
      requires Valid()
      ensures Contents() != [] ==> x == Contents()[|Contents()| - 1]
      ensures Contents() == [] ==> x == items.head.data
    {
      items.Back()
    }
  }

  /** The first value pushed is the first popped, whatever was queued before it is gone. */
  method FirstInFirstOut<T>(q: Queue<T>, x: T, y: T) returns (first: T)
    requires q.Valid() && q.Contents() == []
    modifies q.Repr
    ensures first == x
    ensures q.Valid() && q.Contents() == [y]
  {
    q.Push(x);
    q.Push(y);
    first := q.Front();
    q.Pop();
  }

  /** The next prefix is one element longer. */
  lemma PrefixGrows<T>(xs: seq<T>, i: nat)
    requires i < |xs|
    ensures xs[..i + 1] == xs[..i] + [xs[i]]
  {
  }

  /** The comparator: `less` builds a max-heap, `greater` a min-heap. */
  datatype Order = Less | Greater

  /** `function_policy(x, y)`: x ranks below y. */
  predicate Lower(o: Order, x: int, y: int)
  {
    match o
    case Less => x < y
    case Greater => x > y
  }

  function Parent(i: nat): nat
    requires i > 0
  {
    (i - 1) / 2
  }

  /** No element ranks above its parent. */
  ghost predicate IsHeap(o: Order, s: seq<int>)
  {
    forall i :: 0 < i < |s| ==> !Lower(o, s[Parent(i)], s[i])
  }

  /** In a heap the root ranks at least as high as every element. */
  lemma {:induction false} RootDominates(o: Order, s: seq<int>, i: nat)
    requires IsHeap(o, s) && i < |s|
    ensures !Lower(o, s[0], s[i])
    decreases i
  {
    if i > 0 {
      RootDominates(o, s, Parent(i));
    }
  }

  function Swapped(s: seq<int>, i: nat, j: nat): (t: seq<int>)
    requires i < |s| && j < |s|
    ensures |t| == |s| && t[i] == s[j] && t[j] == s[i]
    ensures forall k :: 0 <= k < |s| && k != i && k != j ==> t[k] == s[k]
    ensures multiset(t) == multiset(s)
  {
    s[i := s[j]][j := s[i]]
  }

  /** Swapping two slots of a buffer swaps them in every prefix holding both. */
  lemma SwapPrefix(full: seq<int>, n: nat, i: nat, j: nat)
    requires i < n && j < n && n <= |full|
    ensures full[i := full[j]][j := full[i]][..n] == Swapped(full[..n], i, j)
    ensures full[i := full[j]][j := full[i]][n..] == full[n..]
  {
  }

  /**
   * `PopLayout` stated on the buffer that holds the heap in its first n slots.
   */
  lemma PopLayoutInBuffer(o: Order, full: seq<int>, n: nat)
    requires 0 < n <= |full| && IsHeap(o, full[..n])
    ensures var t := full[0 := full[n - 1]][n - 1 := full[0]];
      HeapExceptDown(o, t[..n - 1], 0) &&
      multiset(t[..n - 1]) == multiset(full[..n]) - multiset{full[0]}
  {
    var s, t := full[..n], full[0 := full[n - 1]][n - 1 := full[0]];
    PopLayout(o, s);
    SwapPrefix(full, n, 0, n - 1);
    assert t[..n - 1] == t[..n][..n - 1];
  }

  /**
   * Heap order everywhere but between slot c and its parent, and the
   * parent of c ranks above c's children: the state sift-up works in.
   */
  ghost predicate HeapExceptUp(o: Order, s: seq<int>, c: nat)
  {
    (forall i :: 0 < i < |s| && i != c ==> !Lower(o, s[Parent(i)], s[i])) &&
    (forall i :: 0 < i < |s| && c > 0 && Parent(i) == c ==> !Lower(o, s[Parent(c)], s[i]))
  }

  /** Heap order everywhere but below slot p, and p's parent ranks above p's children. */
  ghost predicate HeapExceptDown(o: Order, s: seq<int>, p: nat)
  {
    (forall i :: 0 < i < |s| && Parent(i) != p ==> !Lower(o, s[Parent(i)], s[i])) &&
    (forall i :: 0 < i < |s| && p > 0 && Parent(i) == p ==> !Lower(o, s[Parent(p)], s[i]))
  }

  /** One sift-up swap moves the fault from c to its parent. */
  lemma SiftUpStep(o: Order, s: seq<int>, c: nat)
    requires 0 < c < |s| && HeapExceptUp(o, s, c) && Lower(o, s[Parent(c)], s[c])
    ensures HeapExceptUp(o, Swapped(s, Parent(c), c), Parent(c))
  {
    var p, t := Parent(c), Swapped(s, Parent(c), c);
    forall i | 0 < i < |t| && i != p
      ensures !Lower(o, t[Parent(i)], t[i])
    {
      if Parent(i) == p && i != c {
        assert !Lower(o, s[p], s[i]);
      }
    }
    forall i | 0 < i < |t| && p > 0 && Parent(i) == p
      ensures !Lower(o, t[Parent(p)], t[i])
    {
      assert !Lower(o, s[Parent(p)], s[p]);
      if i != c {
        assert !Lower(o, s[p], s[i]);
      }
    }
  }

  lemma SiftUpDone(o: Order, s: seq<int>, c: nat)
    requires c < |s| && HeapExceptUp(o, s, c) && (c == 0 || !Lower(o, s[Parent(c)], s[c]))
    ensures IsHeap(o, s)
  {
  }

  /** One sift-down swap with the higher-ranked child moves the fault to that child. */
  lemma SiftDownStep(o: Order, s: seq<int>, p: nat, c: nat)
    requires c < |s| && c > 0 && Parent(c) == p && HeapExceptDown(o, s, p)
    requires forall i :: 0 < i < |s| && Parent(i) == p ==> !Lower(o, s[c], s[i])
    requires Lower(o, s[p], s[c])
    ensures HeapExceptDown(o, Swapped(s, p, c), c)
  {
    var t := Swapped(s, p, c);
    forall i | 0 < i < |t| && Parent(i) != c
      ensures !Lower(o, t[Parent(i)], t[i])
    {
      if i == p {
        assert !Lower(o, s[Parent(p)], s[c]);
      } else if Parent(i) == p && i != c {
        assert !Lower(o, s[c], s[i]);
      }
    }
  }

  lemma SiftDownDone(o: Order, s: seq<int>, p: nat)
    requires HeapExceptDown(o, s, p)
    requires forall i :: 0 < i < |s| && Parent(i) == p ==> !Lower(o, s[p], s[i])
    ensures IsHeap(o, s)
  {
  }

  /**
   * Moving the last slot of a heap to the root and dropping the last slot
   * removes one copy of the root and faults the heap only below the root.
   */
  lemma PopLayout(o: Order, s: seq<int>)
    requires IsHeap(o, s) && |s| > 0
    ensures multiset(Swapped(s, 0, |s| - 1)[..|s| - 1]) == multiset(s) - multiset{s[0]}
    ensures HeapExceptDown(o, Swapped(s, 0, |s| - 1)[..|s| - 1], 0)
  {
    var n, t := |s|, Swapped(s, 0, |s| - 1);
    assert t == t[..n - 1] + [s[0]];
    forall i | 0 < i < n - 1 && Parent(i) != 0
      ensures !Lower(o, t[Parent(i)], t[i])
    {
      assert t[Parent(i)] == s[Parent(i)] && t[i] == s[i];
    }
  }

  /**
   * `priority_queue`: a heap stored in the first `size` slots of a vector's
   * buffer; the root, slot 0, is the top.
   */
  class PriorityQueue {
    var items: Vectors.Vector<int>
    const order: Order
    ghost var Repr: set<object>

    ghost predicate Valid()
      reads this, Repr
    {
      this in Repr && items in Repr && items.Repr <= Repr && this !in items.Repr &&
      items.Valid() && IsHeap(order, items.Elements())
    }

    ghost function Contents(): multiset<int>
      reads this, Repr
      requires Valid()
    {
      multiset(items.Elements())
    }

    constructor (order: Order)
      ensures Valid() && fresh(Repr) && Contents() == multiset{} && this.order == order
    {
      this.order := order;
      items := new Vectors.Vector(0);
      new;
      Repr := {this} + items.Repr;
    }

    /** Construction from a list pushes each element in order. */
    constructor FromList(order: Order, xs: seq<int>)
      ensures Valid() && fresh(Repr) && Contents() == multiset(xs) && this.order == order
    {
      this.order := order;
      items := new Vectors.Vector(0);
      new;
      Repr := {this} + items.Repr;
      var i := 0;
      while i < |xs|
        invariant 0 <= i <= |xs|
        invariant Valid() && fresh(Repr) && Contents() == multiset(xs[..i])
      {
        Push(xs[i]);
        PrefixGrows(xs, i);
        i := i + 1;
      }
      assert xs[..i] == xs;
    }

    /**
     * `priority_queue_adjust_upwards(c)`: while slot c ranks above its
     * parent, swap them and continue from the parent. Every other slot is
     * already in heap order, and the parent of c ranks above c's children.
     */
    method SiftUp(c0: nat)
      requires items.Valid() && c0 < items.size
      requires HeapExceptUp(order, items.Elements(), c0)
      modifies items.data
      ensures IsHeap(order, items.Elements())
      ensures multiset(items.Elements()) == old(multiset(items.Elements()))
      ensures items.data[items.size..] == old(items.data[items.size..])
    {
      var a, n := items.data, items.size;
      var c: nat := c0;
      while c > 0
        invariant c < n
        invariant HeapExceptUp(order, a[..n], c)
        invariant multiset(a[..n]) == old(multiset(a[..n]))
        invariant a[n..] == old(a[n..])
        decreases c
      {
        var p: nat := (c - 1) / 2;
        if Lower(order, a[p], a[c]) {
          ghost var full := a[..];
          SiftUpStep(order, full[..n], c);
          SwapPrefix(full, n, p, c);
          Algorithm.Swap(a, p, c);
          c := p;
        } else {
          break;
        }
      }
      SiftUpDone(order, a[..n], c);
      assert a[..n] == items.Elements();
    }

    /**
     * `priority_queue_adjust_downwards(p)`: while the higher-ranked child of
     * slot p ranks above it, swap them and continue from that child.
     */
    method SiftDown(p0: nat)
      requires items.Valid() && p0 <= items.size
      requires HeapExceptDown(order, items.Elements(), p0)
      modifies items.data
      ensures IsHeap(order, items.Elements())
      ensures multiset(items.Elements()) == old(multiset(items.Elements()))
      ensures items.data[items.size..] == old(items.data[items.size..])
    {
      var a, n := items.data, items.size;
      var p := p0;
      var child := 2 * p + 1;
      while child < n
        invariant p <= n && child == 2 * p + 1
        invariant HeapExceptDown(order, a[..n], p)
        invariant multiset(a[..n]) == old(multiset(a[..n]))
        invariant a[n..] == old(a[n..])
        decreases n - p
      {
        var left := child;
        var right := left + 1;
        if right < n && Lower(order, a[left], a[right]) {
          child := right;
        }
        ghost var s := a[..];
        assert forall i :: 0 < i < n && Parent(i) == p ==> i == left || i == right;
        if Lower(order, a[p], a[child]) {
          SiftDownStep(order, s[..n], p, child);
          SwapPrefix(s, n, p, child);
          Algorithm.Swap(a, p, child);
          p := child;
          child := 2 * p + 1;
        } else {
          SiftDownDone(order, s[..n], p);
          break;
        }
      }
      if child >= n {
        assert forall i :: 0 < i < n ==> Parent(i) != p;
        SiftDownDone(order, a[..n], p);
      }
      assert a[..n] == items.Elements();
    }

    /** `push(x)`: append x, then sift it up. */
    method Push(x: int)
      requires Valid()
      modifies Repr
      ensures Valid() && fresh(Repr - old(Repr))
      ensures Contents() == old(Contents()) + multiset{x}
    {
      ghost var s := items.Elements();
      items.PushBack(x);
      Repr := Repr + items.Repr;
      assert items.Elements() == s + [x];
      SiftUp(items.size - 1);
    }

    /** `top()`: the root, which ranks at least as high as every element. */
    function Top(): (x: int)
      reads this, Repr
      requires Valid() && Contents() != multiset{}
      ensures x in Contents()
      ensures forall y :: y in Contents() ==> !Lower(order, x, y)
    {
      var s := items.Elements();
      assert |s| > 0 && s[0] in s;
      assert forall i :: 0 <= i < |s| ==> !Lower(order, s[0], s[i]) by {
        forall i | 0 <= i < |s| {
          RootDominates(order, s, i);
        }
      }
      items.Front()
    }

    /**
     * `pop()`: move the last element to the root, drop the last slot, and
     * sift the root down; exactly one copy of the old top leaves.
     */
    method Pop()
      requires Valid() && Contents() != multiset{}
      modifies Repr
      ensures Valid() && Repr == old(Repr)
      ensures Contents() == old(Contents()) - multiset{old(Top())}
    {
      ghost var s := items.Elements();
      var a, n := items.data, items.size;
      ghost var full := a[..];
      assert s == full[..n];
      PopLayoutInBuffer(order, full, n);
      Algorithm.Swap(a, 0, n - 1);
      items.PopBack();
      SiftDown(0);
    }

    function Size(): (n: nat)
      reads this, Repr
      requires Valid()
      ensures n == |Contents()|
    {
      items.size
    }

    function Empty(): (r: bool)
      reads this, Repr
      requires Valid()
      ensures r <==> Contents() == multiset{}
    {
      items.Empty()
    }
  }
}
