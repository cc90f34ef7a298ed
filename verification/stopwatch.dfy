/**
 The `Util::Timer` stopwatch as an immutable value.

 A timer is either stopped or running. `Start` records a wall-clock reading
 and a CPU-time reading; `Stop` takes a second pair of readings and adds the
 interval to three accumulators; the accessors may only be used while the
 timer is stopped. Clock readings are parameters. The elapsed accumulator
 counts microseconds and the user and system accumulators count clock ticks
 (the source divides by the tick rate and keeps `double` seconds).
 */
module Stopwatch {
  import opened Interval

  datatype State = Stopped | Running

  /** The two fields of a `struct tms` the timer reads: user and system CPU
      time of the process, in clock ticks. */
  datatype CpuMark = CpuMark(utime: int, stime: int)

  /** The timer's fields: the state, the marks taken by `start`, and the
      accumulators `_elapsed`, `_user` and `_system`. The marks taken by
      `stop` are consumed at once and not kept. */
  datatype Timer = Timer(
    state: State,
    elapsedStart: TimeVal,
    cpuStart: CpuMark,
    elapsed: int,
    user: int,
    system: int)

  /** The guard asserted by `start`. */
  predicate CanStart(t: Timer)
  {
    t.state == Stopped
  }

  /** The guard asserted by `stop`. */
  predicate CanStop(t: Timer)
  {
    t.state == Running
  }

  /** The guard asserted by `cpu`, `user`, `system` and `elapsed`. */
  predicate CanQuery(t: Timer)
  {
    t.state == Stopped
  }

  /** `reset`: stopped, with all three accumulators zero, from any state.
      The marks are left as they were. */
  function Reset(t: Timer): (r: Timer)
    ensures r.state == Stopped
    ensures r.elapsed == 0 && r.user == 0 && r.system == 0
    ensures r.elapsedStart == t.elapsedStart && r.cpuStart == t.cpuStart
  {
    t.(state := Stopped, elapsed := 0, user := 0, system := 0)
  }

  /** The constructor: it only calls `reset`, so the marks hold whatever
      the fields held before (here: zero readings). */
  function New(): (r: Timer)
    ensures r.state == Stopped
    ensures r.elapsed == 0 && r.user == 0 && r.system == 0
  {
    Reset(Timer(Running, TimeVal(0, 0), CpuMark(0, 0), 0, 0, 0))
  }

  /** `start`: records the two readings and switches to running. */
  function Start(t: Timer, now: TimeVal, cpu: CpuMark): (r: Timer)
    requires CanStart(t)
    ensures r.state == Running
    ensures r.elapsedStart == now && r.cpuStart == cpu
    ensures r.elapsed == t.elapsed && r.user == t.user && r.system == t.system
  {
    t.(state := Running, elapsedStart := now, cpuStart := cpu)
  }

  /** `_compute`: adds the normalised wall-clock difference and the two
      CPU-tick differences since the start marks. */
  function Compute(t: Timer, now: TimeVal, cpu: CpuMark): (r: Timer)
    ensures r.elapsed == t.elapsed + (Micros(now) - Micros(t.elapsedStart))
    ensures r.user == t.user + (cpu.utime - t.cpuStart.utime)
    ensures r.system == t.system + (cpu.stime - t.cpuStart.stime)
    ensures r.state == t.state
    ensures r.elapsedStart == t.elapsedStart && r.cpuStart == t.cpuStart
  {
    var d := Difference(t.elapsedStart, now);
    t.(elapsed := t.elapsed + Micros(d),
       user := t.user + (cpu.utime - t.cpuStart.utime),
       system := t.system + (cpu.stime - t.cpuStart.stime))
  }

  /** `stop`: takes the stop readings, folds the interval into the
      accumulators and switches to stopped. */
  function Stop(t: Timer, now: TimeVal, cpu: CpuMark): (r: Timer)
    requires CanStop(t)
    ensures r.state == Stopped
    ensures r.elapsed == t.elapsed + (Micros(now) - Micros(t.elapsedStart))
    ensures r.user == t.user + (cpu.utime - t.cpuStart.utime)
    ensures r.system == t.system + (cpu.stime - t.cpuStart.stime)
    ensures r.elapsedStart == t.elapsedStart && r.cpuStart == t.cpuStart
  {
    Compute(t, now, cpu).(state := Stopped)
  }

  function Cpu(t: Timer): (r: int)
    requires CanQuery(t)
    ensures r == User(t) + System(t)
  {
    t.user + t.system
  }

  function User(t: Timer): int
    requires CanQuery(t)
  {
    t.user
  }

  function System(t: Timer): int
    requires CanQuery(t)
  {
    t.system
  }

  function Elapsed(t: Timer): int
    requires CanQuery(t)
  {
    t.elapsed
  }

  /** Starting twice in a row, stopping a timer that was never started (or
      already stopped, or just reset), and querying a running timer all
      break the asserted guard. */
  lemma MisuseViolatesGuards(t: Timer, now: TimeVal, cpu: CpuMark)
    ensures CanStart(t) ==> !CanStart(Start(t, now, cpu))
    ensures CanStart(t) ==> !CanQuery(Start(t, now, cpu))
    ensures CanStop(t) ==> !CanStop(Stop(t, now, cpu))
    ensures !CanStop(Reset(t)) && !CanStop(New())
  {
  }

  /** The accessors leave a stopped timer as it is: the query guard still
      holds after a query, and one start/stop cycle moves each accessor by
      exactly the interval's delta. */
  lemma OneCycle(t: Timer, t0: TimeVal, c0: CpuMark, t1: TimeVal, c1: CpuMark)
    requires CanStart(t)
    ensures var r := Stop(Start(t, t0, c0), t1, c1);
      && CanQuery(r) && CanStart(r)
      && Elapsed(r) == Elapsed(t) + (Micros(t1) - Micros(t0))
      && User(r) == User(t) + (c1.utime - c0.utime)
      && System(r) == System(t) + (c1.stime - c0.stime)
      && Cpu(r) == Cpu(t) + (c1.utime - c0.utime) + (c1.stime - c0.stime)
  {
  }

  /** One `start` followed by one `stop`, with the four readings taken. */
  datatype Cycle = Cycle(startAt: TimeVal, startCpu: CpuMark, stopAt: TimeVal, stopCpu: CpuMark)

  /** Runs the cycles in order on a stopped timer. */
  function RunCycles(t: Timer, cs: seq<Cycle>): (r: Timer)
    requires CanStart(t)
    ensures r.state == Stopped
    decreases |cs|
  {
    if |cs| == 0 then t
    else
      var c := cs[0];
      RunCycles(Stop(Start(t, c.startAt, c.startCpu), c.stopAt, c.stopCpu), cs[1..])
  }

  /** The reference totals: the sum of each cycle's own deltas. */
  function SumElapsed(cs: seq<Cycle>): int
    decreases |cs|
  {
    if |cs| == 0 then 0
    else SumElapsed(cs[..|cs| - 1]) + (Micros(cs[|cs| - 1].stopAt) - Micros(cs[|cs| - 1].startAt))
  }

  function SumUser(cs: seq<Cycle>): int
    decreases |cs|
  {
    if |cs| == 0 then 0
    else SumUser(cs[..|cs| - 1]) + (cs[|cs| - 1].stopCpu.utime - cs[|cs| - 1].startCpu.utime)
  }

  function SumSystem(cs: seq<Cycle>): int
    decreases |cs|
  {
    if |cs| == 0 then 0
    else SumSystem(cs[..|cs| - 1]) + (cs[|cs| - 1].stopCpu.stime - cs[|cs| - 1].startCpu.stime)
  }

  /** Peeling the first cycle off the reference totals. */
  lemma {:induction false} SumsFirst(cs: seq<Cycle>)
    requires |cs| > 0
    ensures SumElapsed(cs) == (Micros(cs[0].stopAt) - Micros(cs[0].startAt)) + SumElapsed(cs[1..])
    ensures SumUser(cs) == (cs[0].stopCpu.utime - cs[0].startCpu.utime) + SumUser(cs[1..])
    ensures SumSystem(cs) == (cs[0].stopCpu.stime - cs[0].startCpu.stime) + SumSystem(cs[1..])
    decreases |cs|
  {
    if |cs| > 1 {
      var init := cs[..|cs| - 1];
      assert init[0] == cs[0];
      assert init[1..] == cs[1..][..|cs[1..]| - 1];
      assert cs[1..][|cs[1..]| - 1] == cs[|cs| - 1];
      SumsFirst(init);
    } else {
      assert cs[1..] == [];
      assert cs[..0] == [];
    }
  }

  /** Each cycle adds its deltas to what the timer already held. */
  lemma {:induction false} CyclesAccumulate(t: Timer, cs: seq<Cycle>)
    requires CanStart(t)
    ensures RunCycles(t, cs).elapsed == t.elapsed + SumElapsed(cs)
    ensures RunCycles(t, cs).user == t.user + SumUser(cs)
    ensures RunCycles(t, cs).system == t.system + SumSystem(cs)
    decreases |cs|
  {
    if |cs| > 0 {
      var c := cs[0];
      var t' := Stop(Start(t, c.startAt, c.startCpu), c.stopAt, c.stopCpu);
      CyclesAccumulate(t', cs[1..]);
      SumsFirst(cs);
    }
  }

  /** After any number of start/stop cycles since the last reset, each
      accessor returns the sum of the per-cycle deltas, and `cpu` returns
      the sum of the user and system deltas. */
  lemma AccumulatedSinceReset(t: Timer, cs: seq<Cycle>)
    ensures var r := RunCycles(Reset(t), cs);
      && CanQuery(r)
      && Elapsed(r) == SumElapsed(cs)
      && User(r) == SumUser(cs)
      && System(r) == SumSystem(cs)
      && Cpu(r) == SumUser(cs) + SumSystem(cs)
  {
    CyclesAccumulate(Reset(t), cs);
  }

  /** Nothing observable survives a reset: two reset timers answer every
      query alike, and any run of cycles from them ends in the same timer
      once at least one cycle has run. */
  lemma ResetForgetsPast(t1: Timer, t2: Timer, cs: seq<Cycle>)
    ensures Elapsed(Reset(t1)) == Elapsed(Reset(t2))
    ensures User(Reset(t1)) == User(Reset(t2))
    ensures System(Reset(t1)) == System(Reset(t2))
    ensures |cs| > 0 ==> RunCycles(Reset(t1), cs) == RunCycles(Reset(t2), cs)
  {
    if |cs| > 0 {
      var c := cs[0];
      assert Start(Reset(t1), c.startAt, c.startCpu) == Start(Reset(t2), c.startAt, c.startCpu);
    }
  }
}
