// The growable array `vector`. Its three raw pointers (data, end of the
// elements, end of the buffer) become an array `data` whose length is the
// capacity, a count `size`, and a flag `hasBuffer` that is false while the
// data pointer is null. `blank` stands for a value-initialised element,
// `vector_type()`, which the source writes into the slots it pads.
module Vectors {
  import opened Wrappers
  import opened Memory

  /**
   * The capacity `push_back` and `push_front` grow a full vector to, as
   * written: 10 while the data pointer is null, else twice the capacity.
   */
  function GrowthAsWritten(hasBuffer: bool, capacity: nat): (c: nat)
    ensures hasBuffer ==> (c <= capacity <==> capacity == 0)
    ensures !hasBuffer ==> c > 0
  {
    if !hasBuffer then 10 else 2 * capacity
  }

  /**
   * A vector built from an empty initializer list, or with capacity 0, has
   * a non-null data pointer and no room: doubling 0 still gives no room, so
   * the write that follows lands outside the buffer.
   */
  lemma GrowthAsWrittenLeavesNoRoom()
    ensures GrowthAsWritten(true, 0) <= 0
  {
  }

  /** The growth the push operations need: 10 for an empty buffer, else double. */
  function Growth(hasBuffer: bool, capacity: nat): (c: nat)
    requires !hasBuffer ==> capacity == 0
    ensures c > capacity
    ensures capacity > 0 && hasBuffer ==> c == GrowthAsWritten(hasBuffer, capacity)
    ensures !hasBuffer ==> c == GrowthAsWritten(hasBuffer, capacity)
  {
    if !hasBuffer || capacity == 0 then 10 else 2 * capacity
  }

  class Vector<T> {
    var data: array<T>
    var size: nat
    var hasBuffer: bool
    const blank: T
    ghost var Repr: set<object>

    ghost predicate Valid()
      reads this, Repr
    {
      Repr == {this, data} &&
      size <= data.Length &&
      (!hasBuffer ==> data.Length == 0)
    }

    /** The elements, `[begin(), end())`. */
    function Elements(): seq<T>
      reads this, data
      requires size <= data.Length
    {
      data[..size]
    }

    /** `capacity()`: the buffer length, 0 while the data pointer is null. */
    function Capacity(): (c: nat)
      reads this, Repr
      requires Valid()
      ensures c >= |Elements()|
    {
      data.Length
    }

    /** `empty()` holds iff there are no elements. */
    function Empty(): (r: bool)
      reads this, Repr
      requires Valid()
      ensures r <==> Elements() == []
    {
      size == 0
    }

    /** The default constructor: all three pointers null. */
    constructor (blank: T)
      ensures Valid() && fresh(Repr)
      ensures Elements() == [] && !hasBuffer && Capacity() == 0
      ensures this.blank == blank
    {
      this.blank := blank;
      data := new T[0];
      size := 0;
      hasBuffer := false;
      Repr := {this, data};
    }

    /** `vector(n, v)`: n copies of v filling the whole buffer. */
    constructor Filled(blank: T, n: nat, v: T)
      ensures Valid() && fresh(Repr) && hasBuffer
      ensures Elements() == Repeat(v, n) && Capacity() == n
      ensures this.blank == blank
    {
      this.blank := blank;
      var a := new T[n](_ => blank);
      var i := 0;
      while i < n
        modifies a
        invariant 0 <= i <= n
        invariant forall k :: 0 <= k < i ==> a[k] == v
      {
        a[i] := v;
        i := i + 1;
      }
      data := a;
      size := n;
      hasBuffer := true;
      Repr := {this, data};
    }

    /** Construction from an initializer list: its elements, buffer full. */
    constructor FromList(blank: T, items: seq<T>)
      ensures Valid() && fresh(Repr) && hasBuffer
      ensures Elements() == items && Capacity() == |items|
      ensures this.blank == blank
    {
      this.blank := blank;
      var a := new T[|items|](_ => blank);
      var i := 0;
      while i < |items|
        modifies a
        invariant 0 <= i <= |items|
        invariant a[..i] == items[..i]
      {
        a[i] := items[i];
        i := i + 1;
      }
      data := a;
      size := |items|;
      hasBuffer := true;
      Repr := {this, data};
    }

    /** `front()`; the source dereferences without a check. */
    function Front(): (x: T)
      reads this, Repr
      requires Valid() && size > 0
      ensures x == Elements()[0]
    {
      data[0]
    }

    /** `back()`: the last element; the source dereferences without a check. */
    function Back(): (x: T)
      reads this, Repr
      requires Valid() && size > 0
      ensures x == Elements()[|Elements()| - 1]
    {
      data[size - 1]
    }

    /** `find(i)`: element i, or the out-of-range fault when i >= size(). */
    function Find(i: nat): (r: Result<T>)
      reads this, Repr
      requires Valid()
      ensures r.Ok? <==> i < |Elements()|
      ensures r.Ok? ==> r.value == Elements()[i]
    {
      if i >= size then Fail("out of range") else Ok(data[i])
    }

    /**
     * `operator[](i)`: checks against the capacity, not the size, so it
     * reads the padding slots beyond the last element too.
     */
    function At(i: nat): (r: Result<T>)
      reads this, Repr
      requires Valid()
      ensures r.Ok? <==> i < Capacity()
      ensures r.Ok? ==> r.value == data[..][i]
      ensures i < |Elements()| ==> r == Ok(Elements()[i])
    {
      if i >= data.Length then Fail("out of range") else Ok(data[i])
    }

    /**
     * `resize(n, v)`: only ever grows. A larger buffer receives the elements
     * followed by copies of v; the size stays.
     */
    method Resize(n: nat, v: T)
      requires Valid()
      modifies Repr
      ensures Valid() && fresh(Repr - old(Repr))
      ensures size == old(size) && Elements() == old(Elements())
      ensures old(data.Length) < n ==> hasBuffer && data[..] == old(Elements()) + Repeat(v, n - old(size))
      ensures n <= old(data.Length) ==> data == old(data) && data[..] == old(data[..]) && hasBuffer == old(hasBuffer)
    {
      var d, sz := data, size;
      if d.Length < n {
        var a := new T[n](_ => blank);
        WriteAt(a, 0, d[..sz]);
        Fill(a, sz, n, v);
        data := a;
        hasBuffer := true;
        Repr := {this, data};
      }
    }

    /**
     * `size_adjust(n, v)`: truncates when n is below the size. Otherwise it
     * writes v into the slots from the old capacity (after growing the
     * buffer) or from the size up to n, but never advances the size.
     */
    method SizeAdjust(n: nat, v: T)
      requires Valid()
      modifies Repr
      ensures Valid() && fresh(Repr - old(Repr))
      ensures n < old(size) ==> size == n && data[..] == old(data[..])
      ensures n >= old(size) ==> size == old(size)
      ensures Elements() == old(Elements())[..if n < old(size) then n else old(size)]
      ensures old(data.Length) < n ==>
        data[..] == old(Elements()) + Repeat(blank, old(data.Length) - old(size)) + Repeat(v, n - old(data.Length))
      ensures old(size) <= n <= old(data.Length) ==>
        data[..] == old(data[..size]) + Repeat(v, n - old(size)) + old(data[n..])
    {
      var oldCap := data.Length;
      if n > oldCap {
        Resize(n, blank);
        Fill(data, oldCap, n, v);
      } else if n > size {
        Fill(data, size, n, v);
      } else if n < size {
        size := n;
      }
    }

    /** `push_back(x)`: grows a full buffer, then appends x. */
    method PushBack(x: T)
      requires Valid()
      modifies Repr
      ensures Valid() && fresh(Repr - old(Repr)) && hasBuffer
      ensures Elements() == old(Elements()) + [x]
      ensures old(size) < old(data.Length) ==> data == old(data) && data[size..] == old(data[..])[size..]
      ensures old(size) == old(data.Length) ==>
        Capacity() == Growth(old(hasBuffer), old(data.Length)) &&
        data[size..] == Repeat(blank, Capacity() - size)
    {
      if size == data.Length {
        Resize(Growth(hasBuffer, data.Length), blank);
      }
      data[size] := x;
      size := size + 1;
      hasBuffer := true;
    }

    /** `pop_back()`: drops the last element; no effect when empty. */
    method PopBack()
      requires Valid()
      modifies this
      ensures Valid() && Repr == old(Repr) && data == old(data) && hasBuffer == old(hasBuffer)
      ensures Elements() == if old(size) == 0 then [] else old(Elements())[..old(size) - 1]
      ensures data[..] == old(data[..])
    {
      if size > 0 {
        size := size - 1;
      }
    }

    /** `push_front(x)`: grows a full buffer, shifts every element right, puts x first. */
    method PushFront(x: T)
      requires Valid()
      modifies Repr
      ensures Valid() && fresh(Repr - old(Repr)) && hasBuffer
      ensures Elements() == [x] + old(Elements())
      ensures old(size) < old(data.Length) ==> data == old(data) && data[size..] == old(data[..])[size..]
      ensures old(size) == old(data.Length) ==>
        Capacity() == Growth(old(hasBuffer), old(data.Length)) &&
        data[size..] == Repeat(blank, Capacity() - size)
    {
      if size == data.Length {
        Resize(Growth(hasBuffer, data.Length), blank);
      }
      var d, sz := data, size;
      ghost var before := d[..];
      assert before[..sz] == old(Elements());
      ShiftRight(d, sz);
      d[0] := x;
      ShiftedFront(d[..], before, x, sz);
      size := sz + 1;
      hasBuffer := true;
    }

    /** Writing x over the first slot of a buffer shifted right by one puts x before the old elements. */
    static lemma ShiftedFront(s: seq<T>, before: seq<T>, x: T, n: nat)
      requires n < |before| && s == (before[..1] + before[..n] + before[n + 1..])[0 := x]
      ensures s[..n + 1] == [x] + before[..n] && s[n + 1..] == before[n + 1..]
    {
    }

    /** `pop_front()`: shifts every element left by one; no effect when empty. */
    method PopFront()
      requires Valid()
      modifies Repr
      ensures Valid() && Repr == old(Repr) && data == old(data) && hasBuffer == old(hasBuffer)
      ensures Elements() == if old(size) == 0 then [] else old(Elements())[1..]
      ensures data[size..] == old(data[..])[size..]
    {
      if size > 0 {
        ShiftLeft(data, 0, size);
        size := size - 1;
      }
    }

    /**
     * `erase(p)`: shifts the elements after p left by one and shrinks the
     * size. It returns the old end position, one past the new last element.
     */
    method Erase(p: nat) returns (next: nat)
      requires Valid() && p < size
      modifies Repr
      ensures Valid() && Repr == old(Repr) && data == old(data) && hasBuffer == old(hasBuffer)
      ensures Elements() == old(Elements())[..p] + old(Elements())[p + 1..]
      ensures data[size..] == old(data[..])[size..]
      ensures next == old(size)
    {
      ShiftLeft(data, p, size);
      size := size - 1;
      next := size + 1;
    }

    /**
     * `operator+=(other)`: appends other's elements in order, growing the
     * buffer to exactly the combined size when it is too small. Appending a
     * vector to itself doubles its elements.
     */
    method Append(other: Vector<T>)
      requires Valid() && other.Valid()
      modifies Repr
      ensures Valid() && fresh(Repr - old(Repr))
      ensures Elements() == old(Elements()) + old(other.Elements())
      ensures old(other.size) == 0 ==> data == old(data) && data[..] == old(data[..]) && hasBuffer == old(hasBuffer)
      ensures old(other.size) > 0 && old(size) + old(other.size) > old(data.Length) ==>
        Capacity() == old(size) + old(other.size)
      ensures old(other.size) > 0 && old(size) + old(other.size) <= old(data.Length) ==>
        data == old(data) && data[size..] == old(data[..])[size..]
    {
      var items := other.data[..other.size];
      if |items| == 0 {
        return;
      }
      var n := size;
      if n + |items| > data.Length {
        Resize(n + |items|, blank);
      }
      WriteAt(data, n, items);
      size := n + |items|;
      hasBuffer := true;
    }
  }
}
