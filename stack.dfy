// The `stack` adapter: a LIFO view of a `vector`, whose back is the top.
module Stacks {
  import opened Vectors

  class Stack<T> {
    var items: Vector<T>
    ghost var Repr: set<object>

    ghost predicate Valid()
      reads this, Repr
    {
      this in Repr && items in Repr && items.Repr <= Repr && this !in items.Repr &&
      items.Valid()
    }

    /** Bottom to top. */
    function Contents(): seq<T>
      reads this, Repr
      requires Valid()
    {
      items.Elements()
    }

    constructor (blank: T)
      ensures Valid() && fresh(Repr) && Contents() == []
    {
      items := new Vector(blank);
      new;
      Repr := {this} + items.Repr;
    }

    /** Construction from a list pushes its elements in order, so the last is on top. */
    constructor FromList(blank: T, xs: seq<T>)
      ensures Valid() && fresh(Repr) && Contents() == xs
    {
      items := new Vector(blank);
      new;
      Repr := {this} + items.Repr;
      var i := 0;
      while i < |xs|
        invariant 0 <= i <= |xs|
        invariant Valid() && fresh(Repr)
        invariant Contents() == xs[..i]
      {
        Push(xs[i]);
        assert xs[..i + 1] == xs[..i] + [xs[i]];
        i := i + 1;
      }
    }

    /** `stack(v)`: a stack holding just v. */
    constructor Single(blank: T, v: T)
      ensures Valid() && fresh(Repr) && Contents() == [v]
    {
      items := new Vector(blank);
      new;
      Repr := {this} + items.Repr;
      Push(v);
    }

    function Size(): (n: nat)
      reads this, Repr
      requires Valid()
      ensures n == |Contents()|
    {
      items.size
    }

    function Empty(): (r: bool)
      reads this, Repr
      requires Valid()
      ensures r <==> Contents() == []
    {
      items.Empty()
    }

    /** `top()` and `footer()` both give the most recently pushed element. */
    function Top(): (x: T)
      reads this, Repr
      requires Valid() && Contents() != []
      ensures x == Contents()[|Contents()| - 1]
    {
      items.Back()
    }

    method Push(x: T)
      requires Valid()
      modifies Repr
      ensures Valid() && fresh(Repr - old(Repr))
      ensures Contents() == old(Contents()) + [x]
    {
      items.PushBack(x);
      Repr := Repr + items.Repr;
    }

    /** `pop()`: drops the top; on an empty stack nothing happens. */
    method Pop()
      requires Valid()
      modifies Repr
      ensures Valid() && Repr == old(Repr)
      ensures Contents() == if old(Contents()) == [] then [] else old(Contents())[..|old(Contents())| - 1]
    {
      items.PopBack();
    }
  }

  /** Pushing and then popping leaves a stack's contents as they were. */
  method PushPopRestores<T>(s: Stack<T>, x: T)
    requires s.Valid()
    modifies s.Repr
    ensures s.Valid() && s.Contents() == old(s.Contents())
  {
    s.Push(x);
    assert s.Top() == x;
    s.Pop();
    assert s.Contents() == old(s.Contents());
  }
}
