// The scheduler's shared vocabulary: task states and priority levels with
// their underlying values and names, the queue strategies, and the pool
// configuration with its validity check.
module Integration {
  import opened Wrappers
  import opened Decimal

  type Word8 = x: int | 0 <= x < 0x100
  type Int32 = x: int | -0x8000_0000 <= x < 0x8000_0000

  /** `current_status`, a uint8 enum. */
  datatype Status = Pending | Running | Completed | Cancelled | Timeout | Failed
  {
    /** The underlying value: pending = 0 through failed = 5. */
    function Code(): (n: Word8)
      ensures n <= 5
    {
      match this
      case Pending => 0
      case Running => 1
      case Completed => 2
      case Cancelled => 3
      case Timeout => 4
      case Failed => 5
    }

    /** The states `wait` and `wait_for` wait for: completed, cancelled, timeout and failed. */
    predicate Terminal()
    {
      this == Completed || this == Cancelled || this == Timeout || this == Failed
    }
  }

  /** The state an underlying value names, if any. */
  function StatusOfCode(n: Word8): (r: Option<Status>)
    ensures r.Some? <==> n <= 5
    ensures r.Some? ==> r.value.Code() == n
  {
    if n == 0 then Some(Pending)
    else if n == 1 then Some(Running)
    else if n == 2 then Some(Completed)
    else if n == 3 then Some(Cancelled)
    else if n == 4 then Some(Timeout)
    else if n == 5 then Some(Failed)
    else None
  }

  lemma StatusCodeRoundTrip(s: Status)
    ensures StatusOfCode(s.Code()) == Some(s)
  {
  }

  /** Exactly the two states a task can still leave by itself are not terminal. */
  lemma TerminalStates(s: Status)
    ensures s.Terminal() <==> s != Pending && s != Running
  {
  }

  /** `to_string(current_status)` over the underlying value: six names, "unknown" for anything else. */
  function StatusName(code: Word8): (s: string)
  {
    match StatusOfCode(code)
    case Some(Pending) => "pending"
    case Some(Running) => "running"
    case Some(Completed) => "completed"
    case Some(Cancelled) => "cancelled"
    case Some(Timeout) => "timeout"
    case Some(Failed) => "failed"
    case None => "unknown"
  }

  /** The name is "unknown" exactly for a value no state has, and no two states share a name. */
  lemma StatusNames(a: Word8, b: Word8)
    ensures StatusName(a) == "unknown" <==> a > 5
    ensures a <= 5 && b <= 5 && StatusName(a) == StatusName(b) ==> a == b
  {
  }

  /** `weight`, an int32 enum. */
  datatype Level = Lowest | Low | Normal | High | Highest | Critical
  {
    /** lowest = -100, low = -50, normal = 0, high = 50, highest = 100, critical = 200. */
    function Value(): (v: Int32)
      ensures -100 <= v <= 200
    {
      match this
      case Lowest => -100
      case Low => -50
      case Normal => 0
      case High => 50
      case Highest => 100
      case Critical => 200
    }
  }

  /** The level a priority value names, if any. */
  function LevelOf(v: Int32): (r: Option<Level>)
    ensures r.Some? ==> r.value.Value() == v
    ensures r.None? ==> forall l: Level :: l.Value() != v
  {
    if v == -100 then Some(Lowest)
    else if v == -50 then Some(Low)
    else if v == 0 then Some(Normal)
    else if v == 50 then Some(High)
    else if v == 100 then Some(Highest)
    else if v == 200 then Some(Critical)
    else None
  }

  lemma LevelRoundTrip(l: Level)
    ensures LevelOf(l.Value()) == Some(l)
  {
  }

  /** `to_string(weight)`: the six level names, and any other value in decimal. */
  function LevelName(v: Int32): (s: string)
  {
    match LevelOf(v)
    case Some(Lowest) => "lowest"
    case Some(Low) => "low"
    case Some(Normal) => "normal"
    case Some(High) => "high"
    case Some(Highest) => "highest"
    case Some(Critical) => "critical"
    case None => IntToString(v)
  }

  /** A value without a level prints as its own decimal text, which reads back as that value. */
  lemma LevelNameOfOther(v: Int32)
    requires LevelOf(v).None?
    ensures LevelName(v) == IntToString(v)
    ensures v >= 0 ==> AllDigits(LevelName(v)) && DigitsValue(LevelName(v)) == v
    ensures v < 0 ==> LevelName(v)[0] == '-' && AllDigits(LevelName(v)[1..]) && DigitsValue(LevelName(v)[1..]) == -(v as int)
  {
    DigitsValueOfNatToString(if v < 0 then -(v as int) else v as int);
    if v < 0 {
      assert IntToString(v)[1..] == NatToString(-(v as int));
    }
  }

  /** Different priority values never print the same. */
  lemma LevelNameInjective(a: Int32, b: Int32)
    ensures LevelName(a) == LevelName(b) ==> a == b
  {
    if LevelOf(a).None? {
      LevelNameOfOther(a);
    }
    if LevelOf(b).None? {
      LevelNameOfOther(b);
    }
    if LevelOf(a).None? != LevelOf(b).None? {
      var n := if LevelOf(a).None? then LevelName(a) else LevelName(b);
      var m := if LevelOf(a).None? then LevelName(b) else LevelName(a);
      assert n[0] == '-' || IsDigit(n[0]);
      assert 'a' <= m[0] <= 'z';
    }
  }

  /** `backpressure`: what a bounded queue does with a push when it is full. */
  datatype Backpressure = Block | Drop | Overwrite | Exception

  /** `rank_strategy`. */
  datatype RankStrategy = Fifo | Priority | Delay | RoundRobin

  /** The thread-count part of `pool_config`. */
  datatype PoolConfig = PoolConfig(
    poolName: string,
    minThreads: nat,
    maxThreads: nat,
    coreThreads: nat,
    initialThreads: nat,
    maxQueueSize: nat,
    queuePolicy: RankStrategy)

  /** The member initialisers: "default_pool", 1 to 8 threads, 4 core and 4 initial, an unbounded FIFO queue. */
  function DefaultPoolConfig(): (c: PoolConfig)
    ensures c.minThreads == 1 && c.maxThreads == 8 && c.coreThreads == 4 && c.initialThreads == 4
  {
    PoolConfig("default_pool", 1, 8, 4, 4, 0, Fifo)
  }

  /**
   * `validate`: at least one thread, and the initial and core counts both
   * between the minimum and the maximum (which forces max >= min).
   */
  function Validate(c: PoolConfig): (ok: bool)
    ensures ok <==> 0 < c.minThreads <= c.initialThreads <= c.maxThreads && c.minThreads <= c.coreThreads <= c.maxThreads
  {
    c.minThreads > 0 && c.maxThreads >= c.minThreads && c.initialThreads >= c.minThreads &&
    c.initialThreads <= c.maxThreads && c.coreThreads >= c.minThreads && c.coreThreads <= c.maxThreads
  }

  lemma DefaultPoolConfigValid()
    ensures Validate(DefaultPoolConfig())
  {
  }
}
