// Task units of the scheduler: the status machine every unit runs through
// (`unit_ordinary`), and a unit that waits on a list of other units
// (`unit_reliance`). The atomics are plain fields and the condition-variable
// notifications are gone: the model is one thread at a time.
module Units {
  import opened Wrappers
  import opened Decimal
  import opened Integration

  /**
   * The events that move a unit between states: `mark_running`,
   * `mark_completed`, `mark_failed`, `cancel` and `mark_timeout`.
   */
  datatype Event = Run | Complete | Fault | Withdraw | Expire

  /**
   * The state after an event, or nothing when the event is refused. Run,
   * Withdraw and Expire are compare-and-set from pending; Complete and Fault
   * store their state whatever the unit was in.
   */
  function Next(s: Status, e: Event): (r: Option<Status>)
  {
    match e
    case Run => if s == Pending then Some(Running) else None
    case Withdraw => if s == Pending then Some(Cancelled) else None
    case Expire => if s == Pending then Some(Timeout) else None
    case Complete => Some(Completed)
    case Fault => Some(Failed)
  }

  /**
   * Only a pending unit can be started, cancelled or timed out; every event
   * but Run lands in a terminal state; and once a unit is in a terminal
   * state, only Complete and Fault move it.
   */
  lemma NextFromPendingOnly(s: Status, e: Event)
    ensures (e == Run || e == Withdraw || e == Expire) ==> (Next(s, e).Some? <==> s == Pending)
    ensures Next(s, e).Some? && e != Run ==> Next(s, e).value.Terminal()
    ensures s.Terminal() && Next(s, e).Some? ==> e == Complete || e == Fault
  {
  }

  /** What running the unit's function did: returned, or threw with a message. */
  datatype Outcome = Returned | Threw(message: string)

  /** The name a unit gets: the given one, or "task_" and its identifier when none is given. */
  function CoverageName(name: string, id: nat): (r: string)
    ensures name != [] ==> r == name
    ensures name == [] ==> |r| > 5 && r[..5] == "task_" && AllDigits(r[5..]) && DigitsValue(r[5..]) == id
  {
    if name == [] then
      DigitsValueOfNatToString(id);
      assert ("task_" + NatToString(id))[5..] == NatToString(id);
      "task_" + NatToString(id)
    else name
  }

  /** Two unnamed units with different identifiers get different names. */
  lemma CoverageNamesDiffer(a: nat, b: nat)
    ensures CoverageName("", a) == CoverageName("", b) ==> a == b
  {
  }

  /** `unit_ordinary`: identity, name, state and priority of a task. */
  class Unit {
    /** `_identifier`: handed out by a global counter, which is a parameter here. */
    const identifier: nat
    const name: string
    var state: Status
    /** `_priority`, an int32. */
    var priority: Int32

    constructor (id: nat, given: string, level: Level)
      ensures identifier == id && name == CoverageName(given, id)
      ensures state == Pending && priority == level.Value()
    {
      identifier := id;
      name := CoverageName(given, id);
      state := Pending;
      priority := level.Value();
    }

    /** `mark_running`: pending becomes running; from any other state it is refused. */
    method MarkRunning() returns (ok: bool)
      modifies this
      ensures ok <==> old(state) == Pending
      ensures Next(old(state), Run) == (if ok then Some(state) else None)
      ensures !ok ==> state == old(state)
      ensures priority == old(priority)
    {
      ok := state == Pending;
      if ok {
        state := Running;
      }
    }

    /** `mark_completed`. */
    method MarkCompleted()
      modifies this
      ensures Next(old(state), Complete) == Some(state) && priority == old(priority)
    {
      state := Completed;
    }

    /** `mark_failed`. */
    method MarkFailed()
      modifies this
      ensures Next(old(state), Fault) == Some(state) && priority == old(priority)
    {
      state := Failed;
    }

    /** `cancel`: pending becomes cancelled; from any other state it is refused. */
    method Cancel() returns (ok: bool)
      modifies this
      ensures ok <==> old(state) == Pending
      ensures Next(old(state), Withdraw) == (if ok then Some(state) else None)
      ensures !ok ==> state == old(state)
      ensures priority == old(priority)
    {
      ok := state == Pending;
      if ok {
        state := Cancelled;
      }
    }

    /** `mark_timeout`: pending becomes timeout; from any other state it is refused. */
    method MarkTimeout() returns (ok: bool)
      modifies this
      ensures ok <==> old(state) == Pending
      ensures Next(old(state), Expire) == (if ok then Some(state) else None)
      ensures !ok ==> state == old(state)
      ensures priority == old(priority)
    {
      ok := state == Pending;
      if ok {
        state := Timeout;
      }
    }

    /**
     * `execute`: refused with an exception unless the unit can be marked
     * running; then completed when the function returns and failed, with
     * the exception passed on, when it throws.
     */
    method Execute(outcome: Outcome) returns (r: Result<()>)
      modifies this
      ensures old(state) != Pending ==> r.Fail? && state == old(state)
      ensures old(state) == Pending && outcome == Returned ==> r.Ok? && state == Completed
      ensures old(state) == Pending && outcome.Threw? ==> r == Result.Fail(outcome.message) && state == Failed
      ensures state.Terminal() || state == old(state)
      ensures priority == old(priority)
    {
      var running := MarkRunning();
      if !running {
        return Result.Fail("任务不在运行状态,检查任务");
      }
      match outcome
      case Returned =>
        MarkCompleted();
        r := Ok(());
      case Threw(message) =>
        MarkFailed();
        r := Result.Fail(message);
    }

    /** What `wait` and `wait_for` wait for. */
    function Finished(): (r: bool)
      reads this
      ensures r <==> state != Pending && state != Running
    {
      TerminalStates(state);
      state.Terminal()
    }

    method SetPriority(p: Int32)
      modifies this
      ensures priority == p && state == old(state)
    {
      priority := p;
    }

    /** `operator<` and `operator>` compare priorities. */
    function Before(other: Unit): (r: bool)
      reads this, other
      ensures r <==> priority < other.priority
    {
      priority < other.priority
    }
  }

  /** The units a dependency list points to. */
  function Units(ds: seq<Option<Unit>>): (us: set<Unit>)
    ensures forall i :: 0 <= i < |ds| && ds[i].Some? ==> ds[i].value in us
  {
    set i | 0 <= i < |ds| && ds[i].Some? :: ds[i].value
  }

  /** The test of `are_dependencies_satisfied`: every entry is non-null and completed. */
  ghost predicate AllCompleted(ds: seq<Option<Unit>>)
    reads Units(ds)
  {
    forall i :: 0 <= i < |ds| ==> ds[i].Some? && ds[i].value.state == Completed
  }

  /** The filter of `get_pending_dependencies`: the non-null entries in a non-terminal state, in order. */
  ghost function PendingOf(ds: seq<Option<Unit>>): (ps: seq<Unit>)
    reads Units(ds)
    ensures |ps| <= |ds|
    ensures forall u :: u in ps ==> !u.state.Terminal()
    ensures forall i :: 0 <= i < |ds| && ds[i].Some? && !ds[i].value.state.Terminal() ==> ds[i].value in ps
  {
    if ds == [] then []
    else
      assert Units(ds[1..]) <= Units(ds) by {
        forall u | u in Units(ds[1..]) ensures u in Units(ds) {
          var i :| 0 <= i < |ds[1..]| && ds[1..][i].Some? && ds[1..][i].value == u;
          assert ds[i + 1] == ds[1..][i];
        }
      }
      var rest := PendingOf(ds[1..]);
      if ds[0].Some? && !ds[0].value.state.Terminal() then [ds[0].value] + rest else rest
  }

  /** A satisfied list has nothing pending. */
  lemma {:induction false} SatisfiedNonePending(ds: seq<Option<Unit>>)
    requires AllCompleted(ds)
    ensures PendingOf(ds) == []
  {
    if ds != [] {
      assert AllCompleted(ds[1..]) by {
        forall i | 0 <= i < |ds[1..]| ensures ds[1..][i].Some? && ds[1..][i].value.state == Completed {
          assert ds[1..][i] == ds[i + 1];
        }
      }
      SatisfiedNonePending(ds[1..]);
    }
  }

  /** `std::remove_if`: the elements for which p is false, in their order. */
  function RemoveIf<T>(xs: seq<T>, p: T -> bool): (r: seq<T>)
    ensures |r| <= |xs|
    ensures forall i :: 0 <= i < |r| ==> r[i] in xs && !p(r[i])
    ensures forall i :: 0 <= i < |xs| && !p(xs[i]) ==> xs[i] in r
  {
    if xs == [] then []
    else if p(xs[0]) then RemoveIf(xs[1..], p)
    else [xs[0]] + RemoveIf(xs[1..], p)
  }

  predicate IsNull(d: Option<Unit>) { d.None? }

  predicate IsSet(d: Option<Unit>) { d.Some? }

  /**
   * The list the `unit_reliance` list constructor keeps, as written: its
   * predicate is true for non-null entries, so `remove_if` drops every
   * real dependency and keeps the nulls.
   */
  function KeptAsWritten(ds: seq<Option<Unit>>): (r: seq<Option<Unit>>)
    ensures forall i :: 0 <= i < |r| ==> r[i].None?
  {
    RemoveIf(ds, IsSet)
  }

  /** The list the constructor evidently means to keep: the dependencies without the nulls. */
  function Kept(ds: seq<Option<Unit>>): (r: seq<Option<Unit>>)
    ensures forall i :: 0 <= i < |r| ==> r[i] in ds && r[i].Some?
    ensures forall i :: 0 <= i < |ds| && ds[i].Some? ==> ds[i] in r
  {
    RemoveIf(ds, IsNull)
  }

  /**
   * As written, a unit built on real dependencies has none left, so it counts
   * as satisfied whatever state those dependencies are in.
   */
  lemma AsWrittenIgnoresDependencies(ds: seq<Option<Unit>>)
    requires forall i :: 0 <= i < |ds| ==> ds[i].Some?
    ensures KeptAsWritten(ds) == []
    ensures AllCompleted(KeptAsWritten(ds))
  {
    RemoveIfAll(ds, IsSet);
  }

  /** `remove_if` with a predicate true of every element leaves nothing. */
  lemma {:induction false} RemoveIfAll<T>(xs: seq<T>, p: T -> bool)
    requires forall i :: 0 <= i < |xs| ==> p(xs[i])
    ensures RemoveIf(xs, p) == []
  {
    if xs != [] {
      RemoveIfAll(xs[1..], p);
    }
  }

  /** With the nulls dropped instead, the unit is satisfied iff every dependency it was given is completed. */
  lemma KeptSatisfied(ds: seq<Option<Unit>>)
    ensures AllCompleted(Kept(ds)) <==> forall i :: 0 <= i < |ds| && ds[i].Some? ==> ds[i].value.state == Completed
  {
    var k := Kept(ds);
    if AllCompleted(k) {
      forall i | 0 <= i < |ds| && ds[i].Some? ensures ds[i].value.state == Completed {
        assert ds[i] in k;
        var j :| 0 <= j < |k| && k[j] == ds[i];
      }
    }
    if forall i :: 0 <= i < |ds| && ds[i].Some? ==> ds[i].value.state == Completed {
      forall j | 0 <= j < |k| ensures k[j].Some? && k[j].value.state == Completed {
        assert k[j] in ds;
        var i :| 0 <= i < |ds| && ds[i] == k[j];
      }
    }
  }

  /** `unit_reliance`: a unit plus the list of units it waits for (null entries allowed). */
  class Reliance {
    const unit: Unit
    var deps: seq<Option<Unit>>

    /** The list constructor, with the null entries dropped. */
    constructor (id: nat, given: string, level: Level, dependencies: seq<Option<Unit>>)
      ensures deps == Kept(dependencies) && fresh(unit)
      ensures unit.identifier == id && unit.state == Pending
    {
      unit := new Unit(id, given, level);
      deps := Kept(dependencies);
    }

    /** The list constructor as written: only the null entries survive its `remove_if`. */
    constructor FromListAsWritten(id: nat, given: string, level: Level, dependencies: seq<Option<Unit>>)
      ensures deps == KeptAsWritten(dependencies) && fresh(unit)
      ensures unit.identifier == id && unit.state == Pending
    {
      unit := new Unit(id, given, level);
      deps := KeptAsWritten(dependencies);
    }

    /** The single-dependency constructor pushes the pointer as given, null or not. */
    constructor Single(id: nat, given: string, level: Level, dependency: Option<Unit>)
      ensures deps == [dependency] && fresh(unit)
      ensures unit.identifier == id && unit.state == Pending
    {
      unit := new Unit(id, given, level);
      deps := [dependency];
    }

    /** `add_dependency`: appends a non-null dependency while the unit is pending; otherwise nothing. */
    method AddDependency(d: Option<Unit>)
      modifies this
      ensures deps == if d.Some? && unit.state == Pending then old(deps) + [d] else old(deps)
    {
      if d.Some? && unit.state == Pending {
        deps := deps + [d];
      }
    }

    /** `are_dependencies_satisfied`, without its time-based cache: `all_of` over the list. */
    method AreDependenciesSatisfied() returns (ok: bool)
      ensures ok <==> AllCompleted(deps)
    {
      var i := 0;
      while i < |deps|
        invariant 0 <= i <= |deps|
        invariant forall j :: 0 <= j < i ==> deps[j].Some? && deps[j].value.state == Completed
      {
        if deps[i].None? || deps[i].value.state != Completed {
          return false;
        }
        i := i + 1;
      }
      return true;
    }

    /** `get_pending_dependencies`: `copy_if` of the non-null, non-terminal entries. */
    method GetPendingDependencies() returns (pending: seq<Unit>)
      ensures pending == PendingOf(deps)
    {
      pending := [];
      var i := |deps|;
      while i > 0
        invariant 0 <= i <= |deps|
        invariant pending == PendingOf(deps[i..])
      {
        i := i - 1;
        assert deps[i..][1..] == deps[i + 1..];
        if deps[i].Some? && !deps[i].value.state.Terminal() {
          pending := [deps[i].value] + pending;
        }
      }
      assert deps[0..] == deps;
    }

    function DependencyCount(): (n: nat)
      reads this
      ensures n == |deps|
    {
      |deps|
    }
  }
}
