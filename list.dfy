// The circular doubly linked `list` with a sentinel node. The sentinel
// `head` closes the ring: head.next is the first element (or head itself
// when empty) and head.prev the last. The ghost sequence `nodes` lists the
// element nodes in ring order and `contents` their values.
module Lists {
  import Memory

  class Node<T> {
    var data: T
    var prev: Node?<T>
    var next: Node?<T>

    constructor (d: T)
      ensures data == d && prev == null && next == null
    {
      data, prev, next := d, null, null;
    }

    constructor Linked(d: T, p: Node?<T>, q: Node?<T>)
      ensures data == d && prev == p && next == q
    {
      data, prev, next := d, p, q;
    }
  }

  class List<T> {
    var head: Node<T>
    ghost var nodes: seq<Node<T>>
    ghost var contents: seq<T>
    ghost var Repr: set<object>

    /** The node at ring position k: element k, or the sentinel at k == |nodes|. */
    ghost function At(k: nat): Node<T>
      reads this
      requires k <= |nodes|
    {
      if k == |nodes| then head else nodes[k]
    }

    /** The node before ring position k: element k - 1, or the sentinel at k == 0. */
    ghost function Before(k: nat): Node<T>
      reads this
      requires k <= |nodes|
    {
      if k == 0 then head else nodes[k - 1]
    }

    /**
     * Every element node from position i on is owned, is not the sentinel,
     * holds its value and links to its ring neighbours.
     */
    ghost predicate LinkedFrom(i: nat)
      reads this, Repr
      requires i <= |nodes| == |contents|
      decreases |nodes| - i
    {
      i == |nodes| ||
      (nodes[i] in Repr && nodes[i] != head && nodes[i].data == contents[i] &&
       nodes[i].next == At(i + 1) && nodes[i].prev == Before(i) && LinkedFrom(i + 1))
    }

    ghost predicate Valid()
      reads this, Repr
    {
      this in Repr && head in Repr &&
      |contents| == |nodes| &&
      head.next == (if |nodes| == 0 then head else nodes[0]) &&
      head.prev == (if |nodes| == 0 then head else nodes[|nodes| - 1]) &&
      LinkedFrom(0)
    }

    /** Unfolds LinkedFrom(j) into one quantified fact per field. */
    lemma {:induction false} LinkedFromGives(j: nat)
      requires j <= |nodes| == |contents| && LinkedFrom(j)
      ensures forall i {:trigger nodes[i]} :: j <= i < |nodes| ==>
        nodes[i] in Repr && nodes[i] != head && nodes[i].data == contents[i]
      ensures forall i {:trigger nodes[i].next} :: j <= i < |nodes| ==> nodes[i].next == At(i + 1)
      ensures forall i {:trigger nodes[i].prev} :: j <= i < |nodes| ==> nodes[i].prev == Before(i)
      decreases |nodes| - j
    {
      if j < |nodes| {
        LinkedFromGives(j + 1);
      }
    }

    /** Folds the quantified facts back into LinkedFrom(j). */
    lemma {:induction false} LinksGive(j: nat)
      requires j <= |nodes| == |contents|
      requires forall i {:trigger nodes[i]} :: j <= i < |nodes| ==>
        nodes[i] in Repr && nodes[i] != head && nodes[i].data == contents[i]
      requires forall i {:trigger nodes[i].next} :: j <= i < |nodes| ==> nodes[i].next == At(i + 1)
      requires forall i {:trigger nodes[i].prev} :: j <= i < |nodes| ==> nodes[i].prev == Before(i)
      ensures LinkedFrom(j)
      decreases |nodes| - j
    {
      if j < |nodes| {
        LinksGive(j + 1);
      }
    }

    /**
     * The links alone keep the element nodes distinct: two equal nodes would
     * have equal successors all the way to the sentinel.
     */
    lemma {:induction false} NodesDistinct(i: nat, j: nat)
      requires Valid() && i < j < |nodes|
      ensures nodes[i] != nodes[j]
      decreases |nodes| - j
    {
      LinkedFromGives(0);
      if j + 1 < |nodes| {
        NodesDistinct(i + 1, j + 1);
        assert nodes[i].next == nodes[i + 1] && nodes[j].next == nodes[j + 1];
      } else {
        assert nodes[i].next == nodes[i + 1] && nodes[j].next == head;
      }
    }

    lemma OthersDiffer(m: nat)
      requires Valid() && m < |nodes|
      ensures forall i :: 0 <= i < |nodes| && i != m ==> nodes[i] != nodes[m]
    {
      forall i | 0 <= i < |nodes| && i != m
        ensures nodes[i] != nodes[m]
      {
        if i < m {
          NodesDistinct(i, m);
        } else {
          NodesDistinct(m, i);
        }
      }
    }

    /**
     * `create_head()`: a fresh list is a sentinel linked to itself. `blank`
     * is the value-initialised element the sentinel carries.
     */
    constructor (blank: T)
      ensures Valid() && fresh(Repr) && contents == []
      ensures head.next == head && head.prev == head && head.data == blank
    {
      var h := new Node(blank);
      h.prev, h.next := h, h;
      head := h;
      nodes, contents := [], [];
      Repr := {this, h};
    }

    /** Construction from an initializer list pushes each element at the back. */
    constructor FromList(blank: T, xs: seq<T>)
      ensures Valid() && fresh(Repr) && contents == xs
    {
      var h := new Node(blank);
      h.prev, h.next := h, h;
      head := h;
      nodes, contents := [], [];
      Repr := {this, h};
      new;
      var i := 0;
      while i < |xs|
        invariant 0 <= i <= |xs|
        invariant Valid() && fresh(Repr) && contents == xs[..i]
      {
        PushBack(xs[i]);
        assert xs[..i + 1] == xs[..i] + [xs[i]];
        i := i + 1;
      }
    }

    /** `empty()` holds iff the sentinel points at itself. */
    function Empty(): (r: bool)
      reads this, Repr
      requires Valid()
      ensures r <==> contents == []
    {
      LinkedFromGives(0);
      head.next == head
    }

    /** `size()`: walks the ring from the first node back to the sentinel. */
    method Size() returns (count: nat)
      requires Valid()
      ensures count == |contents|
    {
      LinkedFromGives(0);
      var cur := head.next;
      count := 0;
      while cur != head
        invariant count <= |nodes| && cur == At(count)
        decreases |nodes| - count
      {
        assert cur == nodes[count];
        count := count + 1;
        cur := cur.next;
      }
    }

    /**
     * `front()`: the first value. On an empty list the ring leads straight
     * back to the sentinel, so its value-initialised element is returned.
     */
    function Front(): (x: T)
      reads this, Repr
      requires Valid()
      ensures contents != [] ==> x == contents[0]
      ensures contents == [] ==> x == head.data
    {
      LinkedFromGives(0);
      head.next.data
    }

    /** `back()`: the last value, or the sentinel's element on an empty list. */
    function Back(): (x: T)
      reads this, Repr
      requires Valid()
      ensures contents != [] ==> x == contents[|contents| - 1]
      ensures contents == [] ==> x == head.data
    {
      LinkedFromGives(0);
      head.prev.data
    }

    /**
     * After `insert` has linked n between ring positions k - 1 and k of the
     * old element sequence `on`, and every other old node kept its links,
     * the new sequence is linked again.
     */
    lemma InsertLinks(on: seq<Node<T>>, oc: seq<T>, k: nat, n: Node<T>, x: T)
      requires k <= |on| == |oc| && nodes == on[..k] + [n] + on[k..] && contents == oc[..k] + [x] + oc[k..]
      requires n in Repr && n != head && n.data == x
      requires n.prev == (if k == 0 then head else on[k - 1]) && n.next == (if k < |on| then on[k] else head)
      requires k > 0 ==> on[k - 1].next == n
      requires k < |on| ==> on[k].prev == n
      requires forall j {:trigger on[j]} :: 0 <= j < |on| ==> on[j] in Repr && on[j] != head && on[j].data == oc[j]
      requires forall j {:trigger on[j].next} :: 0 <= j < |on| && j + 1 != k ==>
        on[j].next == (if j + 1 < |on| then on[j + 1] else head)
      requires forall j {:trigger on[j].prev} :: 0 <= j < |on| && j != k ==>
        on[j].prev == (if j == 0 then head else on[j - 1])
      ensures LinkedFrom(0)
    {
      forall i {:trigger nodes[i]} | 0 <= i < |nodes|
        ensures nodes[i] in Repr && nodes[i] != head && nodes[i].data == contents[i]
      {
        if i < k {
          assert nodes[i] == on[i];
        } else if i > k {
          assert nodes[i] == on[i - 1];
        }
      }
      forall i {:trigger nodes[i].next} | 0 <= i < |nodes|
        ensures nodes[i].next == At(i + 1)
      {
        if i < k {
          assert nodes[i] == on[i];
        } else if i > k {
          assert nodes[i] == on[i - 1];
        }
      }
      forall i {:trigger nodes[i].prev} | 0 <= i < |nodes|
        ensures nodes[i].prev == Before(i)
      {
        if i < k {
          assert nodes[i] == on[i];
        } else if i > k {
          assert nodes[i] == on[i - 1];
        }
      }
      LinksGive(0);
    }

    /**
     * `insert(pos, x)`: links a new node holding x just before `pos`, the
     * node at ring position k, and returns it. A null position is the fault.
     */
    method Insert(pos: Node?<T>, ghost k: nat, x: T) returns (ok: bool, r: Node?<T>)
      requires Valid()
      requires pos != null ==> k <= |nodes| && pos == At(k)
      modifies Repr
      ensures Valid() && fresh(Repr - old(Repr))
      ensures ok <==> pos != null
      ensures !ok ==> nodes == old(nodes) && contents == old(contents)
      ensures ok ==> contents == old(contents)[..k] + [x] + old(contents)[k..]
      ensures ok ==> r != null && fresh(r) && nodes == old(nodes)[..k] + [r] + old(nodes)[k..]
    {
      if pos == null {
        return false, null;
      }
      ghost var on := nodes;
      LinkedFromGives(0);
      if k > 0 {
        OthersDiffer(k - 1);
      }
      if k < |on| {
        OthersDiffer(k);
      }
      var before := pos.prev;
      if k < |nodes| {
        assert pos == nodes[k];
      } else {
        assert pos == head;
      }
      assert before == if k == 0 then head else on[k - 1];
      var n := new Node.Linked(x, before, pos);
      before.next := n;
      pos.prev := n;
      nodes, contents, Repr := on[..k] + [n] + on[k..], contents[..k] + [x] + contents[k..], Repr + {n};
      InsertLinks(on, old(contents), k, n, x);
      ok, r := true, n;
    }

    /**
     * After `erase` has joined ring positions k - 1 and k + 1 of the old
     * element sequence `on`, and every other old node kept its links, the
     * sequence without position k is linked again.
     */
    lemma EraseLinks(on: seq<Node<T>>, oc: seq<T>, k: nat)
      requires k < |on| == |oc| && nodes == on[..k] + on[k + 1..] && contents == oc[..k] + oc[k + 1..]
      requires (if k == 0 then head else on[k - 1]).next == (if k + 1 < |on| then on[k + 1] else head)
      requires (if k + 1 < |on| then on[k + 1] else head).prev == (if k == 0 then head else on[k - 1])
      requires forall j {:trigger on[j]} :: 0 <= j < |on| ==> on[j] in Repr && on[j] != head && on[j].data == oc[j]
      requires forall j {:trigger on[j].next} :: 0 <= j < |on| && j + 1 != k ==>
        on[j].next == (if j + 1 < |on| then on[j + 1] else head)
      requires forall j {:trigger on[j].prev} :: 0 <= j < |on| && j != k + 1 ==>
        on[j].prev == (if j == 0 then head else on[j - 1])
      ensures LinkedFrom(0)
    {
      forall i {:trigger nodes[i]} | 0 <= i < |nodes|
        ensures nodes[i] in Repr && nodes[i] != head && nodes[i].data == contents[i]
      {
        if i < k {
          assert nodes[i] == on[i];
        } else {
          assert nodes[i] == on[i + 1];
        }
      }
      forall i {:trigger nodes[i].next} | 0 <= i < |nodes|
        ensures nodes[i].next == At(i + 1)
      {
        if i < k {
          assert nodes[i] == on[i];
        } else {
          assert nodes[i] == on[i + 1];
        }
      }
      forall i {:trigger nodes[i].prev} | 0 <= i < |nodes|
        ensures nodes[i].prev == Before(i)
      {
        if i < k {
          assert nodes[i] == on[i];
        } else {
          assert nodes[i] == on[i + 1];
        }
      }
      LinksGive(0);
    }

    /**
     * `erase(pos)`: unlinks the element node at position k and returns its
     * successor. A null position is the fault; the sentinel itself is not a
     * position that may be erased.
     */
    method Erase(pos: Node?<T>, ghost k: nat) returns (ok: bool, r: Node?<T>)
      requires Valid()
      requires pos != null ==> k < |nodes| && pos == nodes[k]
      modifies Repr
      ensures Valid() && Repr == old(Repr)
      ensures ok <==> pos != null
      ensures !ok ==> nodes == old(nodes) && contents == old(contents)
      ensures ok ==> contents == old(contents)[..k] + old(contents)[k + 1..]
      ensures ok ==> nodes == old(nodes)[..k] + old(nodes)[k + 1..] && r == At(k)
    {
      if pos == null {
        return false, null;
      }
      ghost var on := nodes;
      LinkedFromGives(0);
      OthersDiffer(k);
      if k > 0 {
        OthersDiffer(k - 1);
      }
      if k + 1 < |on| {
        OthersDiffer(k + 1);
      }
      var before, after := pos.prev, pos.next;
      assert before == if k == 0 then head else on[k - 1];
      assert after == if k + 1 < |on| then on[k + 1] else head;
      before.next := after;
      after.prev := before;
      nodes, contents := on[..k] + on[k + 1..], contents[..k] + contents[k + 1..];
      EraseLinks(on, old(contents), k);
      ok, r := true, after;
    }

    /** `push_back(x)`: insert before the sentinel. */
    method PushBack(x: T)
      requires Valid()
      modifies Repr
      ensures Valid() && fresh(Repr - old(Repr))
      ensures contents == old(contents) + [x]
    {
      var ok, r := Insert(head, |nodes|, x);
      assert old(contents)[..|old(contents)|] == old(contents);
    }

    /** `push_front(x)`: insert before the first node. */
    method PushFront(x: T)
      requires Valid()
      modifies Repr
      ensures Valid() && fresh(Repr - old(Repr))
      ensures contents == [x] + old(contents)
    {
      var ok, r := Insert(head.next, 0, x);
    }

    /** `pop_back()`: erases the last node. */
    method PopBack()
      requires Valid() && contents != []
      modifies Repr
      ensures Valid() && Repr == old(Repr)
      ensures contents == old(contents)[..|old(contents)| - 1]
    {
      var ok, r := Erase(head.prev, |nodes| - 1);
    }

    /** `pop_front()`: erases the first node and returns the new first position. */
    method PopFront() returns (r: Node?<T>)
      requires Valid() && contents != []
      modifies Repr
      ensures Valid() && Repr == old(Repr)
      ensures contents == old(contents)[1..]
      ensures r == At(0)
    {
      var ok;
      ok, r := Erase(head.next, 0);
    }

    /**
     * `resize(n, v)`: pops from the back while longer than n, or pushes
     * copies of v while shorter.
     */
    method Resize(n: nat, v: T)
      requires Valid()
      modifies Repr
      ensures Valid() && fresh(Repr - old(Repr))
      ensures n <= |old(contents)| ==> contents == old(contents)[..n]
      ensures n > |old(contents)| ==> contents == old(contents) + Memory.Repeat(v, n - |old(contents)|)
    {
      var size := Size();
      if n <= size {
        while n < size
          invariant Valid() && fresh(Repr - old(Repr))
          invariant n <= size == |contents| && contents == old(contents)[..size]
        {
          PopBack();
          size := size - 1;
        }
      } else {
        ghost var start := size;
        while size < n
          invariant Valid() && fresh(Repr - old(Repr))
          invariant start <= size <= n && size == |contents|
          invariant contents == old(contents) + Memory.Repeat(v, size - start)
        {
          PushBack(v);
          size := size + 1;
        }
      }
    }

    /**
     * `clear()`: detaches the first node until the sentinel follows itself,
     * then links the sentinel to itself in both directions.
     */
    method Clear()
      requires Valid()
      modifies Repr
      ensures Valid() && Repr == old(Repr) && contents == []
      ensures head == old(head) && head.next == head && head.prev == head
    {
      LinkedFromGives(0);
      var cur := head.next;
      ghost var i := 0;
      while cur != head
        invariant i <= |nodes| && cur == At(i) && head.next == cur
        invariant forall j {:trigger nodes[j].next} :: 0 <= j < |nodes| ==> nodes[j].next == At(j + 1)
        modifies head
        decreases |nodes| - i
      {
        assert cur == nodes[i];
        head.next := cur.next;
        cur := head.next;
        i := i + 1;
      }
      head.next, head.prev := head, head;
      nodes, contents := [], [];
    }

    /**
     * `operator+=(other)`: walks other from its first node and pushes each
     * value at the back. The two lists must be distinct objects.
     */
    method Append(other: List<T>)
      requires Valid() && other.Valid() && Repr !! other.Repr
      modifies Repr
      ensures Valid() && fresh(Repr - old(Repr))
      ensures contents == old(contents) + other.contents
      ensures other.contents == old(other.contents)
    {
      other.LinkedFromGives(0);
      var cur := other.head.next;
      ghost var i := 0;
      while cur != other.head
        invariant Valid() && fresh(Repr - old(Repr)) && Repr !! other.Repr
        invariant other.Valid() && other.contents == old(other.contents)
        invariant forall j {:trigger other.nodes[j]} :: 0 <= j < |other.nodes| ==>
          other.nodes[j] in other.Repr && other.nodes[j].data == other.contents[j]
        invariant forall j {:trigger other.nodes[j].next} :: 0 <= j < |other.nodes| ==>
          other.nodes[j].next == other.At(j + 1)
        invariant i <= |other.nodes| && cur == other.At(i)
        invariant contents == old(contents) + other.contents[..i]
        decreases |other.nodes| - i
      {
        assert cur == other.nodes[i];
        PushBack(cur.data);
        assert other.contents[..i + 1] == other.contents[..i] + [cur.data];
        cur := cur.next;
        i := i + 1;
      }
      assert other.contents[..i] == other.contents;
    }
  }

  /**
   * `operator+`: a new list holding a's values followed by b's; neither
   * operand changes (a and b may be the same list).
   */
  method Concat<T>(a: List<T>, b: List<T>, blank: T) returns (r: List<T>)
    requires a.Valid() && b.Valid()
    ensures r.Valid() && fresh(r.Repr)
    ensures r.contents == a.contents + b.contents
  {
    r := new List(blank);
    r.Append(a);
    r.Append(b);
  }
}
