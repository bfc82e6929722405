// `concurrent_annular_queue`: a ring buffer over a fixed vector of slots,
// with a consume index, a produce index, an element count and the two
// counting semaphores (free slots, used slots) that gate producers and
// consumers. The model is sequential: the lock is gone and each semaphore is
// the integer count it holds, so a `try_acquire` succeeds iff that count is
// positive.
module AnnularQueues {
  import opened Wrappers

  /**
   * The slot k places after slot c in a ring of n slots, for k <= n: the
   * value of `(c + k) % n`, with the wrap written out.
   */
  function Slot(c: nat, k: nat, n: nat): (s: nat)
    requires c < n && k <= n
    ensures s < n
  {
    if c + k < n then c + k else c + k - n
  }

  /** `(i + 1) % n` for a slot i of the ring is the next slot. */
  lemma NextSlot(c: nat, k: nat, n: nat)
    requires c < n && k < n
    ensures (Slot(c, k, n) + 1) % n == Slot(c, k + 1, n)
  {
    var p := Slot(c, k, n);
    if p + 1 < n {
      assert (p + 1) % n == p + 1;
    } else {
      assert (p + 1) % n == 0;
    }
  }

  /** Within one lap, different offsets from the same slot land on different slots. */
  lemma SlotsApart(c: nat, i: nat, j: nat, n: nat)
    requires c < n && i < j < n
    ensures Slot(c, i, n) != Slot(c, j, n)
  {
  }

  /** The cnt elements that start at slot consume and wrap around the buffer. */
  function Window<T>(buf: seq<T>, consume: nat, cnt: nat): (w: seq<T>)
    requires consume < |buf| && cnt <= |buf|
    ensures |w| == cnt
    ensures forall i :: 0 <= i < cnt ==> w[i] == buf[Slot(consume, i, |buf|)]
  {
    seq(cnt, i requires 0 <= i < cnt => buf[Slot(consume, i, |buf|)])
  }

  /**
   * Writing x into the slot after the last element of a buffer that is not
   * full extends the window by x and leaves the stored elements as they were.
   */
  lemma WindowPush<T>(buf: seq<T>, consume: nat, cnt: nat, x: T)
    requires consume < |buf| && cnt < |buf|
    ensures Window(buf[Slot(consume, cnt, |buf|) := x], consume, cnt + 1) == Window(buf, consume, cnt) + [x]
  {
    var n := |buf|;
    var after := Window(buf[Slot(consume, cnt, n) := x], consume, cnt + 1);
    forall i | 0 <= i < cnt
      ensures after[i] == buf[Slot(consume, i, n)]
    {
      SlotsApart(consume, i, cnt, n);
    }
  }

  /** Taking the element at consume and stepping consume on drops the window's first element. */
  lemma WindowPop<T>(buf: seq<T>, consume: nat, cnt: nat)
    requires consume < |buf| && 0 < cnt <= |buf|
    ensures Window(buf, consume, cnt)[0] == buf[consume]
    ensures Window(buf, Slot(consume, 1, |buf|), cnt - 1) == Window(buf, consume, cnt)[1..]
  {
  }

  class AnnularQueue<T> {
    /** `_vector`: the slots; its size is the capacity and never changes. */
    const slots: array<T>
    /** `_consume`, `_produce`, `_cnt`. */
    var consume: nat
    var produce: nat
    var cnt: nat
    /** The counts held by `_sem_free` and `_sem_used`. */
    var free: nat
    var used: nat

    /** Indices inside the buffer, produce cnt slots after consume, and the used count equal to cnt. */
    ghost predicate Shaped()
      reads this
    {
      consume < slots.Length && produce < slots.Length && used == cnt &&
      (cnt <= slots.Length ==> produce == Slot(consume, cnt, slots.Length))
    }

    /** Shaped, at most capacity elements, and every slot counted as free or used. */
    ghost predicate Valid()
      reads this
    {
      Shaped() && cnt <= slots.Length && free + used == slots.Length
    }

    /** The stored elements, front first. */
    ghost function Contents(): seq<T>
      reads this, slots
      requires Valid()
    {
      Window(slots[..], consume, cnt)
    }

    /** The capacity is cap, or 1 when cap is 0; every slot starts free. */
    constructor (cap: nat, blank: T)
      ensures Valid() && fresh(slots) && Contents() == []
      ensures Capacity() == if cap == 0 then 1 else cap
      ensures free == Capacity()
    {
      var n := if cap == 0 then 1 else cap;
      slots := new T[n](_ => blank);
      consume, produce, cnt := 0, 0, 0;
      free, used := n, 0;
    }

    function Capacity(): (n: nat)
      reads this
      ensures n == slots.Length
    {
      slots.Length
    }

    function Size(): (n: nat)
      reads this, slots
      requires Valid()
      ensures n == |Contents()|
    {
      cnt
    }

    function Empty(): (r: bool)
      reads this, slots
      requires Valid()
      ensures r <==> Contents() == []
    {
      cnt == 0
    }

    function Full(): (r: bool)
      reads this, slots
      requires Valid()
      ensures r <==> |Contents()| == Capacity()
    {
      cnt == slots.Length
    }

    /**
     * `try_push_back`: fails iff no slot is free. Otherwise x goes into the
     * produce slot, produce steps on and the count grows by one.
     */
    method TryPushBack(x: T) returns (ok: bool)
      requires Shaped()
      modifies this, slots
      ensures Shaped()
      ensures ok <==> old(free) > 0
      ensures !ok ==> unchanged(this) && unchanged(slots)
      ensures ok ==> slots[..] == old(slots[..])[old(produce) := x] && consume == old(consume)
      ensures ok ==> cnt == old(cnt) + 1 && free == old(free) - 1 && used == old(used) + 1
      ensures old(Valid()) ==> Valid() && (ok <==> old(|Contents()|) < Capacity())
      ensures old(Valid()) && ok ==> Contents() == old(Contents()) + [x]
    {
      if free == 0 {
        return false;
      }
      ghost var before := slots[..];
      if cnt < slots.Length {
        NextSlot(consume, cnt, slots.Length);
      }
      slots[produce] := x;
      produce := (produce + 1) % slots.Length;
      cnt := cnt + 1;
      free := free - 1;
      used := used + 1;
      ok := true;
      if old(Valid()) {
        WindowPush(before, consume, old(cnt), x);
      }
    }

    /**
     * `try_pop_front`: nothing iff no slot is used. Otherwise the element at
     * consume, with consume stepped on and the count down by one.
     */
    method TryPopFront() returns (r: Option<T>)
      requires Valid()
      modifies this
      ensures Valid() && slots[..] == old(slots[..])
      ensures r.None? <==> old(Contents()) == []
      ensures r.None? ==> unchanged(this)
      ensures r.Some? ==> r.value == old(Contents())[0] && Contents() == old(Contents())[1..]
      ensures r.Some? ==> free == old(free) + 1 && produce == old(produce)
    {
      if used == 0 {
        return None;
      }
      WindowPop(slots[..], consume, cnt);
      r := Some(slots[consume]);
      NextSlot(consume, 0, slots.Length);
      consume := (consume + 1) % slots.Length;
      cnt := cnt - 1;
      used := used - 1;
      free := free + 1;
    }

    /** `snapshot`: the stored elements in FIFO order, by walking cnt slots from consume. */
    method Snapshot() returns (s: seq<T>)
      requires Valid()
      ensures s == Contents()
    {
      s := [];
      var idx := consume;
      var i := 0;
      while i < cnt
        invariant 0 <= i <= cnt && idx < slots.Length
        invariant idx == Slot(consume, i, slots.Length)
        invariant s == Window(slots[..], consume, i)
      {
        s := s + [slots[idx]];
        NextSlot(consume, i, slots.Length);
        idx := (idx + 1) % slots.Length;
        i := i + 1;
      }
    }

    /**
     * `clear` as written: the indices and count go to 0, the used semaphore is
     * drained, and capacity more permits are released to the free semaphore
     * on top of those it still holds.
     */
    method ClearAsWritten()
      requires Shaped()
      modifies this
      ensures Shaped() && consume == 0 && produce == 0 && cnt == 0
      ensures free == old(free) + Capacity() && used == 0
    {
      consume, produce, cnt := 0, 0, 0;
      free := free + slots.Length;
      used := 0;
    }

    /** `clear` as intended: empty, with exactly capacity free slots. */
    method Clear()
      requires Shaped()
      modifies this
      ensures Valid() && Contents() == []
      ensures consume == 0 && produce == 0 && cnt == 0 && free == Capacity()
    {
      consume, produce, cnt := 0, 0, 0;
      free := slots.Length;
      used := 0;
    }
  }

  /**
   * After `clear` on a one-slot queue, the free semaphore holds two permits,
   * so two pushes in a row both succeed and the count exceeds the capacity.
   */
  method ClearThenOverfill() returns (first: bool, second: bool, size: nat, capacity: nat)
    ensures first && second
    ensures size == 2 && capacity == 1
  {
    var q := new AnnularQueue<int>(1, 0);
    q.ClearAsWritten();
    first := q.TryPushBack(7);
    second := q.TryPushBack(8);
    size := q.cnt;
    capacity := q.Capacity();
  }

  /** With the corrected clear, the same two pushes: the second is refused. */
  method ClearThenPushTwice() returns (first: bool, second: bool, size: nat, capacity: nat)
    ensures first && !second
    ensures size == 1 && capacity == 1
  {
    var q := new AnnularQueue<int>(1, 0);
    q.Clear();
    first := q.TryPushBack(7);
    second := q.TryPushBack(8);
    size := q.Size();
    capacity := q.Capacity();
  }
}
