// The scheduler's task queues: `rank_standard` (a deque, first in first
// out) and `rank_priority` (a multiset ordered by priority), both with an
// optional capacity, a closed flag and a backpressure mode that says what a
// push does when the queue is full. The model is one thread at a time: a
// call that would wait on a condition variable for another thread reports
// `Waits` and changes nothing.
module Ranks {
  import opened Wrappers
  import opened Integration

  /** How a queue call ends: with a value, with an exception, or waiting for another thread. */
  datatype Outcome<R> = Done(value: R) | Threw(message: string) | Waits

  const FullMessage := "The queue is full, please check the overflow policy."
  const EmptyBatchMessage := "The vector pointers is empty."

  /** Capacity 0 means unbounded; otherwise the queue is full once it holds capacity elements. */
  predicate AtCapacity(size: nat, capacity: nat)
  {
    capacity != 0 && size >= capacity
  }

  /** No more elements than the capacity allows. */
  predicate Bounded(size: nat, capacity: nat)
  {
    capacity == 0 || size <= capacity
  }

  /**
   * `internal_push`: refused on a closed queue or a null pointer; added while
   * below capacity; at capacity, per mode: drop refuses, overwrite removes the
   * last element and then adds, exception throws, and block waits.
   */
  function Enqueue<T>(items: seq<T>, capacity: nat, closed: bool, p: Option<T>, mode: Backpressure,
                      order: Order<T>): (r: (Outcome<bool>, seq<T>))
    ensures closed || p.None? ==> r == (Done(false), items)
    ensures !closed && p.Some? && !AtCapacity(|items|, capacity) ==> r == (Done(true), Add(order, items, p.value))
    ensures r.0 != Done(true) ==> r.1 == items
  {
    if closed || p.None? then (Done(false), items)
    else if !AtCapacity(|items|, capacity) then (Done(true), Add(order, items, p.value))
    else
      match mode
      case Block => (Waits, items)
      case Overwrite => (Done(true), Add(order, if items == [] then [] else items[..|items| - 1], p.value))
      case Exception => (Threw(FullMessage), items)
      case Drop => (Done(false), items)
  }

  /**
   * What a push does at capacity: drop and exception leave the queue alone,
   * block waits, and overwrite replaces one element, keeping the size; a
   * push below capacity grows the queue by one.
   */
  lemma EnqueueAtCapacity<T>(items: seq<T>, capacity: nat, p: T, mode: Backpressure, order: Order<T>)
    ensures var r := Enqueue(items, capacity, false, Some(p), mode, order);
      (!AtCapacity(|items|, capacity) ==> r.0 == Done(true) && multiset(r.1) == multiset(items) + multiset{p}) &&
      (AtCapacity(|items|, capacity) ==>
        (mode == Drop ==> r == (Done(false), items)) &&
        (mode == Exception ==> r == (Threw(FullMessage), items)) &&
        (mode == Block ==> r == (Waits, items)) &&
        (mode == Overwrite ==>
          r.0 == Done(true) && |r.1| == |items| && multiset(r.1) == multiset(items[..|items| - 1]) + multiset{p}))
  {
    var r := Enqueue(items, capacity, false, Some(p), mode, order);
    assert |multiset(Add(order, items, p))| == |items| + 1;
    if AtCapacity(|items|, capacity) && mode == Overwrite {
      assert |multiset(r.1)| == |items[..|items| - 1]| + 1;
    }
  }

  /** A push never takes a bounded queue past its capacity. */
  lemma EnqueueBounded<T>(items: seq<T>, capacity: nat, closed: bool, p: Option<T>, mode: Backpressure,
                          order: Order<T>)
    requires Bounded(|items|, capacity)
    ensures Bounded(|Enqueue(items, capacity, closed, p, mode, order).1|, capacity)
  {
    var r := Enqueue(items, capacity, closed, p, mode, order);
    if r.0 == Done(true) {
      var base := if !AtCapacity(|items|, capacity) then items else if items == [] then [] else items[..|items| - 1];
      assert r.1 == Add(order, base, p.value);
      assert |multiset(r.1)| == |base| + 1;
    }
  }

  /** The pushes of `internal_push_batch` after its first checks, counting the successes; an exception or a wait ends the loop. */
  function PushEach<T>(items: seq<T>, capacity: nat, closed: bool, ps: seq<Option<T>>, mode: Backpressure,
                       order: Order<T>, count: nat): (r: (Outcome<nat>, seq<T>))
    ensures r.0.Done? ==> count <= r.0.value <= count + |ps|
    decreases |ps|
  {
    if ps == [] then (Done(count), items)
    else
      var (o, next) := Enqueue(items, capacity, closed, ps[0], mode, order);
      match o
      case Done(ok) => PushEach(next, capacity, closed, ps[1..], mode, order, if ok then count + 1 else count)
      case Threw(m) => (Threw(m), next)
      case Waits => (Waits, next)
  }

  /** `internal_push_batch`: 0 on a closed queue, an exception for an empty list, else the pushes one by one. */
  function PushBatch<T>(items: seq<T>, capacity: nat, closed: bool, ps: seq<Option<T>>, mode: Backpressure,
                        order: Order<T>): (r: (Outcome<nat>, seq<T>))
    ensures closed ==> r == (Done(0), items)
    ensures !closed && ps == [] ==> r == (Threw(EmptyBatchMessage), items)
    ensures r.0.Done? ==> r.0.value <= |ps|
  {
    if closed then (Done(0), items)
    else if ps == [] then (Threw(EmptyBatchMessage), items)
    else PushEach(items, capacity, closed, ps, mode, order, 0)
  }

  /** A batch of pushes keeps a bounded queue bounded. */
  lemma {:induction false} PushEachBounded<T>(items: seq<T>, capacity: nat, closed: bool, ps: seq<Option<T>>,
                                              mode: Backpressure, order: Order<T>, count: nat)
    requires Bounded(|items|, capacity)
    ensures Bounded(|PushEach(items, capacity, closed, ps, mode, order, count).1|, capacity)
    decreases |ps|
  {
    if ps != [] {
      EnqueueBounded(items, capacity, closed, ps[0], mode, order);
      var (o, next) := Enqueue(items, capacity, closed, ps[0], mode, order);
      if o.Done? {
        PushEachBounded(next, capacity, closed, ps[1..], mode, order, if o.value then count + 1 else count);
      }
    }
  }

  /** `pop_batch` takes min(count, size) elements from the front, in queue order. */
  function TakeFront<T>(items: seq<T>, count: nat): (r: (seq<T>, seq<T>))
    ensures |r.0| == if count < |items| then count else |items|
    ensures r.0 + r.1 == items
  {
    var n := if count < |items| then count else |items|;
    (items[..n], items[n..])
  }

  // ---------------------------------------------------------------------
  // The priority order of `rank_priority`.

  /** Ascending priority, the order of the multiset and its comparator. */
  ghost predicate Ascending<T>(items: seq<T>, key: T -> int)
  {
    forall i, j :: 0 <= i < j < |items| ==> key(items[i]) <= key(items[j])
  }

  /** Where `insert` puts x: after the leading elements whose priority is not above key(x). */
  function InsertPos<T>(items: seq<T>, x: T, key: T -> int): (i: nat)
    ensures i <= |items|
  {
    if items == [] || key(x) < key(items[0]) then 0 else 1 + InsertPos(items[1..], x, key)
  }

  /**
   * `std::multiset::insert`: x goes in at its upper bound, after every element
   * whose priority is not above its own.
   */
  function InsertByKey<T>(items: seq<T>, x: T, key: T -> int): (r: seq<T>)
    ensures |r| == |items| + 1
    ensures multiset(r) == multiset(items) + multiset{x}
  {
    var i := InsertPos(items, x, key);
    assert items == items[..i] + items[i..];
    items[..i] + [x] + items[i..]
  }

  /** In an ascending queue, the elements before InsertPos have priority at most key(x) and the rest above it. */
  lemma {:induction false} InsertPosSplits<T>(items: seq<T>, x: T, key: T -> int)
    requires Ascending(items, key)
    ensures forall j :: 0 <= j < InsertPos(items, x, key) ==> key(items[j]) <= key(x)
    ensures forall j :: InsertPos(items, x, key) <= j < |items| ==> key(x) < key(items[j])
  {
    if items != [] && key(x) >= key(items[0]) {
      var tail := items[1..];
      assert Ascending(tail, key);
      InsertPosSplits(tail, x, key);
      forall j | 0 < j < |items|
        ensures items[j] == tail[j - 1]
      {
      }
    }
  }

  /** Splicing x between the elements at most key(x) and those above it keeps the order ascending. */
  lemma SpliceAscending<T>(items: seq<T>, x: T, i: nat, key: T -> int)
    requires i <= |items| && Ascending(items, key)
    requires forall j :: 0 <= j < i ==> key(items[j]) <= key(x)
    requires forall j :: i <= j < |items| ==> key(x) < key(items[j])
    ensures Ascending(items[..i] + [x] + items[i..], key)
  {
    var r := items[..i] + [x] + items[i..];
    forall j | 0 <= j < |r|
      ensures j < i ==> r[j] == items[j]
      ensures j == i ==> r[j] == x
      ensures j > i ==> r[j] == items[j - 1]
    {
    }
    forall a, b | 0 <= a < b < |r|
      ensures key(r[a]) <= key(r[b])
    {
      if b <= i {
      } else if a < i {
        assert key(items[a]) <= key(items[b - 1]);
      } else if a > i {
        assert key(items[a - 1]) <= key(items[b - 1]);
      }
    }
  }

  /**
   * The insert keeps the order ascending and places x exactly after the
   * elements with priority at most key(x), so among equal priorities the
   * earlier insertion stays first.
   */
  lemma InsertByKeyPlace<T>(items: seq<T>, x: T, key: T -> int)
    requires Ascending(items, key)
    ensures Ascending(InsertByKey(items, x, key), key)
    ensures InsertByKey(items, x, key)[InsertPos(items, x, key)] == x
    ensures forall j :: 0 <= j < InsertPos(items, x, key) ==> key(items[j]) <= key(x)
    ensures forall j :: InsertPos(items, x, key) <= j < |items| ==> key(x) < key(items[j])
  {
    InsertPosSplits(items, x, key);
    SpliceAscending(items, x, InsertPos(items, x, key), key);
  }

  /** Dropping the last element keeps the order ascending. */
  lemma DropLastAscending<T>(items: seq<T>, key: T -> int)
    requires Ascending(items, key) && items != []
    ensures Ascending(items[..|items| - 1], key)
  {
  }

  /** A push onto a priority queue keeps it in ascending order. */
  lemma EnqueueAscending<T>(items: seq<T>, capacity: nat, closed: bool, p: Option<T>, mode: Backpressure, key: T -> int)
    requires Ascending(items, key)
    ensures Ascending(Enqueue(items, capacity, closed, p, mode, ByKey(key)).1, key)
  {
    if !closed && p.Some? {
      if !AtCapacity(|items|, capacity) {
        InsertByKeyPlace(items, p.value, key);
      } else if mode == Overwrite {
        var base := if items == [] then [] else items[..|items| - 1];
        if items != [] {
          DropLastAscending(items, key);
        }
        InsertByKeyPlace(base, p.value, key);
      }
    }
  }

  /** The front of an ascending queue has the lowest priority of all. */
  lemma FrontIsLowest<T>(items: seq<T>, key: T -> int)
    requires Ascending(items, key) && items != []
    ensures forall y :: y in items ==> key(items[0]) <= key(y)
  {
    forall y | y in items ensures key(items[0]) <= key(y) {
      var j :| 0 <= j < |items| && items[j] == y;
    }
  }

  /** How a queue orders its elements: by arrival, or by priority. */
  datatype Order<!T> = Arrival | ByKey(key: T -> int)

  /** Put one element in: `push_back` on the deque, `insert` on the multiset. */
  function Add<T>(order: Order<T>, items: seq<T>, x: T): (r: seq<T>)
    ensures |r| == |items| + 1
    ensures multiset(r) == multiset(items) + multiset{x}
  {
    match order
    case Arrival => items + [x]
    case ByKey(key) => InsertByKey(items, x, key)
  }

  // ---------------------------------------------------------------------
  // The two queues.

  /** `rank_standard`: a deque of units. */
  class StandardRank<T> {
    var items: seq<T>
    var closed: bool
    /** `_max_storage_capacity`: 0 for unbounded. */
    var capacity: nat

    constructor (maxSize: nat)
      ensures items == [] && !closed && capacity == maxSize
    {
      items := [];
      closed := false;
      capacity := maxSize;
    }

    function Strategy(): (s: RankStrategy)
      ensures s == Fifo
    {
      Fifo
    }

    /** `push` without a deadline. */
    method Push(p: Option<T>, mode: Backpressure) returns (r: Outcome<bool>)
      modifies this
      ensures (r, items) == Enqueue(old(items), capacity, closed, p, mode, Arrival)
      ensures closed == old(closed) && capacity == old(capacity)
      ensures Bounded(old(|items|), capacity) ==> Bounded(|items|, capacity)
    {
      if Bounded(|items|, capacity) {
        EnqueueBounded(items, capacity, closed, p, mode, Arrival);
      }
      if closed || p.None? {
        return Done(false);
      }
      if !AtCapacity(|items|, capacity) {
        items := items + [p.value];
        return Done(true);
      }
      match mode
      case Block =>
        r := Waits;
      case Overwrite =>
        if items != [] {
          items := items[..|items| - 1];
        }
        items := items + [p.value];
        r := Done(true);
      case Exception =>
        r := Threw(FullMessage);
      case Drop =>
        r := Done(false);
    }

    /** `push` with a deadline: refused once now has reached the deadline. */
    method PushBefore(p: Option<T>, mode: Backpressure, deadline: Option<int>, now: int) returns (r: Outcome<bool>)
      modifies this
      ensures deadline.Some? && now >= deadline.value ==> r == Done(false) && items == old(items)
      ensures deadline.None? || now < deadline.value ==> (r, items) == Enqueue(old(items), capacity, closed, p, mode, Arrival)
      ensures closed == old(closed) && capacity == old(capacity)
    {
      if deadline.None? || now < deadline.value {
        r := Push(p, mode);
      } else {
        r := Done(false);
      }
    }

    /** `push_batch`. */
    method PushAll(ps: seq<Option<T>>, mode: Backpressure) returns (r: Outcome<nat>)
      modifies this
      ensures (r, items) == PushBatch(old(items), capacity, closed, ps, mode, Arrival)
      ensures closed == old(closed) && capacity == old(capacity)
    {
      if closed {
        return Done(0);
      }
      if ps == [] {
        return Threw(EmptyBatchMessage);
      }
      var count := 0;
      var i := 0;
      while i < |ps|
        invariant 0 <= i <= |ps| && closed == old(closed) && capacity == old(capacity)
        invariant PushEach(items, capacity, closed, ps[i..], mode, Arrival, count) == PushBatch(old(items), capacity, closed, ps, mode, Arrival)
      {
        assert ps[i..][1..] == ps[i + 1..];
        var o := Push(ps[i], mode);
        if !o.Done? {
          return if o.Threw? then Threw(o.message) else Waits;
        }
        if o.value {
          count := count + 1;
        }
        i := i + 1;
      }
      r := Done(count);
    }

    /** `try_pop`: nothing from an empty queue, else the front. */
    method TryPop() returns (r: Option<T>)
      modifies this
      ensures old(items) == [] ==> r.None? && items == []
      ensures old(items) != [] ==> r == Some(old(items)[0]) && items == old(items)[1..]
      ensures closed == old(closed) && capacity == old(capacity)
    {
      if items == [] {
        return None;
      }
      r := Some(items[0]);
      items := items[1..];
    }

    /** `pop`: the front; nothing when the queue is closed and empty; a wait when it is open and empty. */
    method Pop() returns (r: Outcome<Option<T>>)
      modifies this
      ensures old(items) == [] && !closed ==> r == Waits && items == []
      ensures old(items) == [] && closed ==> r == Done(None) && items == []
      ensures old(items) != [] ==> r == Done(Some(old(items)[0])) && items == old(items)[1..]
      ensures closed == old(closed) && capacity == old(capacity)
    {
      if items == [] {
        return if closed then Done(None) else Waits;
      }
      r := Done(Some(items[0]));
      items := items[1..];
    }

    /** `pop_batch`: the first min(count, size) elements, in queue order. */
    method PopBatch(count: nat) returns (r: Outcome<seq<T>>)
      modifies this
      ensures old(items) == [] && !closed ==> r == Waits && items == []
      ensures old(items) == [] && closed ==> r == Done([]) && items == []
      ensures old(items) != [] ==> r == Done(TakeFront(old(items), count).0) && items == TakeFront(old(items), count).1
      ensures closed == old(closed) && capacity == old(capacity)
    {
      if items == [] {
        return if closed then Done([]) else Waits;
      }
      var n := if count < |items| then count else |items|;
      r := Done(items[..n]);
      items := items[n..];
    }

    function Size(): (n: nat)
      reads this
      ensures n == |items|
    {
      |items|
    }

    /** `clear`: empty, open again and unbounded. */
    method Clear()
      modifies this
      ensures items == [] && !closed && capacity == 0
    {
      closed := false;
      capacity := 0;
      items := [];
    }

    /** `close`: later pushes are refused; the elements stay. */
    method Close()
      modifies this
      ensures closed && items == old(items) && capacity == old(capacity)
    {
      closed := true;
    }

    /** `set_max_size`. */
    method SetMaxSize(n: nat) returns (ok: bool)
      modifies this
      ensures ok && capacity == n && items == old(items) && closed == old(closed)
    {
      capacity := n;
      ok := true;
    }
  }

  /** `rank_priority`: a multiset of units ordered by priority, lowest first. */
  class PriorityRank<T> {
    /** The multiset in its iteration order. */
    var items: seq<T>
    var closed: bool
    var capacity: nat
    /** The comparator: a unit's priority. */
    const key: T -> int

    ghost predicate Valid()
      reads this
    {
      Ascending(items, key)
    }

    constructor (maxSize: nat, priority: T -> int)
      ensures Valid() && items == [] && !closed && capacity == maxSize && key == priority
    {
      items := [];
      closed := false;
      capacity := maxSize;
      key := priority;
    }

    function Strategy(): (s: RankStrategy)
      ensures s == Priority
    {
      Priority
    }

    /**
     * `push`: the same decision as the FIFO queue's, with the unit inserted
     * by priority, and overwrite removing the element of highest priority.
     */
    method Push(p: Option<T>, mode: Backpressure) returns (r: Outcome<bool>)
      requires Valid()
      modifies this
      ensures Valid()
      ensures (r, items) == Enqueue(old(items), capacity, closed, p, mode, ByKey(key))
      ensures closed == old(closed) && capacity == old(capacity)
      ensures Bounded(old(|items|), capacity) ==> Bounded(|items|, capacity)
    {
      if Bounded(|items|, capacity) {
        EnqueueBounded(items, capacity, closed, p, mode, ByKey(key));
      }
      EnqueueAscending(items, capacity, closed, p, mode, key);
      var (o, next) := Enqueue(items, capacity, closed, p, mode, ByKey(key));
      r, items := o, next;
    }

    /** `push_batch`. */
    method PushAll(ps: seq<Option<T>>, mode: Backpressure) returns (r: Outcome<nat>)
      requires Valid()
      modifies this
      ensures Valid()
      ensures (r, items) == PushBatch(old(items), capacity, closed, ps, mode, ByKey(key))
      ensures closed == old(closed) && capacity == old(capacity)
    {
      if closed {
        return Done(0);
      }
      if ps == [] {
        return Threw(EmptyBatchMessage);
      }
      var count := 0;
      var i := 0;
      while i < |ps|
        invariant 0 <= i <= |ps| && closed == old(closed) && capacity == old(capacity) && Valid()
        invariant PushEach(items, capacity, closed, ps[i..], mode, ByKey(key), count) ==
          PushBatch(old(items), capacity, closed, ps, mode, ByKey(key))
      {
        assert ps[i..][1..] == ps[i + 1..];
        var o := Push(ps[i], mode);
        if !o.Done? {
          return if o.Threw? then Threw(o.message) else Waits;
        }
        if o.value {
          count := count + 1;
        }
        i := i + 1;
      }
      r := Done(count);
    }

    /** `try_pop`: nothing from an empty queue, else the unit of lowest priority. */
    method TryPop() returns (r: Option<T>)
      requires Valid()
      modifies this
      ensures Valid()
      ensures old(items) == [] ==> r.None? && items == []
      ensures old(items) != [] ==> r == Some(old(items)[0]) && items == old(items)[1..]
      ensures r.Some? ==> forall y :: y in old(items) ==> key(r.value) <= key(y)
      ensures closed == old(closed) && capacity == old(capacity)
    {
      if items == [] {
        return None;
      }
      FrontIsLowest(items, key);
      r := Some(items[0]);
      items := items[1..];
    }

    /** `pop`: as try_pop, but a wait on an open empty queue. */
    method Pop() returns (r: Outcome<Option<T>>)
      requires Valid()
      modifies this
      ensures Valid()
      ensures old(items) == [] && !closed ==> r == Waits && items == []
      ensures old(items) == [] && closed ==> r == Done(None) && items == []
      ensures old(items) != [] ==> r == Done(Some(old(items)[0])) && items == old(items)[1..]
      ensures closed == old(closed) && capacity == old(capacity)
    {
      if items == [] {
        return if closed then Done(None) else Waits;
      }
      r := Done(Some(items[0]));
      items := items[1..];
    }

    /** `pop_batch`: erases the first element min(count, size) times. */
    method PopBatch(count: nat) returns (r: Outcome<seq<T>>)
      requires Valid()
      modifies this
      ensures Valid()
      ensures old(items) == [] && !closed ==> r == Waits && items == []
      ensures old(items) == [] && closed ==> r == Done([]) && items == []
      ensures old(items) != [] ==> r == Done(TakeFront(old(items), count).0) && items == TakeFront(old(items), count).1
      ensures closed == old(closed) && capacity == old(capacity)
    {
      if items == [] {
        return if closed then Done([]) else Waits;
      }
      var n := if count < |items| then count else |items|;
      var taken := [];
      var i := 0;
      while i < n
        invariant 0 <= i <= n && Valid() && closed == old(closed) && capacity == old(capacity)
        invariant taken == old(items)[..i] && items == old(items)[i..]
      {
        taken := taken + [items[0]];
        items := items[1..];
        i := i + 1;
      }
      r := Done(taken);
    }

    function Size(): (n: nat)
      reads this
      ensures n == |items|
    {
      |items|
    }

    /** `clear`: empty, open again and unbounded. */
    method Clear()
      modifies this
      ensures Valid() && items == [] && !closed && capacity == 0
    {
      closed := false;
      capacity := 0;
      items := [];
    }

    /** `close`: later pushes are refused, and the capacity is reset to 0. */
    method Close()
      modifies this
      ensures closed && items == old(items) && capacity == 0
    {
      closed := true;
      capacity := 0;
    }
  }

  /** Which queue `make_rank` builds. */
  datatype RankKind = StandardKind | PriorityKind | DeferredKind
  {
    /** What `strategy()` of the built queue reports. */
    function Strategy(): RankStrategy
    {
      match this
      case StandardKind => Fifo
      case PriorityKind => Priority
      case DeferredKind => Delay
    }
  }

  /** `make_rank`: fifo, priority and delay get their own queue; anything else a FIFO queue. */
  function MakeRank(s: RankStrategy): (k: RankKind)
    ensures s != RoundRobin ==> k.Strategy() == s
    ensures s == RoundRobin ==> k == StandardKind
  {
    match s
    case Fifo => StandardKind
    case Priority => PriorityKind
    case Delay => DeferredKind
    case RoundRobin => StandardKind
  }
}
