/**
 * The measurement program's `main`: parse the command line, allocate and
 * zero the histogram, run `rtask_main` on a SCHED_FIFO thread and wait for
 * it, then print the two counters and one line per nonzero bucket. The exit
 * status is the task's return value, or -1 when it never ran.
 */
module Stat {

  import opened Wrappers
  import opened Machine
  import opened Histogram
  import opened Device
  import opened CommandLine
  import opened MeasurementTask
  import opened TaskProperties

  /**
   * `rtask_entry`: the task's error stays -1 unless the thread gets the
   * realtime policy, in which case it is what `rtask_main` returns.
   */
  function Entry(env: Env, cmd: Cmdline, h0: Hist, count0: nat): (r: TaskEnd)
    requires Sized(h0)
    ensures Sized(r.hist)
    ensures r.status.Returned? ==> r.status.err in {0, -1}
    ensures !env.schedOk || !Arms(env, cmd) ==>
              r.status == Returned(-1) && r.hist == h0 && r.irqCount == count0
    ensures !env.schedOk ==> r.trace == []
  {
    if !env.schedOk then TaskEnd(Returned(-1), h0, count0, [])
    else
      RtaskReturnValue(env, cmd, h0, count0);
      RtaskDisarmsThenCloses(env, cmd, h0, count0);
      Rtask(env, cmd, h0, count0)
  }

  method RtaskEntry(arg: TaskArg, env: Env) returns (status: Status, trace: seq<Event>)
    requires arg.latHist.Length == LAT_MAX_COUNT
    modifies arg, arg.latHist
    ensures var r := Entry(env, arg.cmd, old(arg.State()), old(arg.irqCount));
            status == r.status && trace == r.trace &&
            arg.State() == r.hist && arg.irqCount == r.irqCount
  {
    if !env.schedOk {
      return Returned(-1), [];
    }
    status, trace := RtaskMain(arg, env);
  }

  /** What `main` prints: `irq_count`, `irq_missed`, then the nonzero buckets. */
  datatype Output = Output(irqCount: nat, irqMissed: nat, lines: seq<Line>)

  /** `main` returns, with or without a report, or is still waiting for the task. */
  datatype MainEnd = Exited(code: int, output: Option<Output>) | Blocked

  /**
   * `main` on the arguments after the program name. `mallocOk` says whether
   * the histogram can be allocated, and `garbage` is what the never
   * initialised `irq_missed` holds, which is printed when the task fails
   * before its loop.
   */
  function Main(args: seq<string>, env: Env, mallocOk: bool, garbage: nat): (e: MainEnd)
    ensures e.Exited? ==> e.code in {0, -1}
    ensures e.Exited? && e.output.Some? ==>
              forall k :: 0 <= k < |e.output.value.lines| ==>
                var l := e.output.value.lines[k];
                l.offset < LAT_MAX_COUNT && l.count != 0
    ensures e.Exited? && e.output.Some? ==>
              forall j, k :: 0 <= j < k < |e.output.value.lines| ==>
                e.output.value.lines[j].offset < e.output.value.lines[k].offset
  {
    match ParseArgs(args)
    case None => Exited(-1, None)
    case Some(cmd) =>
      if !mallocOk then Exited(-1, None)
      else
        var r := Entry(env, cmd, Hist(Zeros(), garbage), 0);
        if r.status.Running? then Blocked
        else
          NonZeroBucketsSpec(r.hist.buckets);
          Exited(r.status.err, Some(Output(r.irqCount, r.hist.missed, NonZeroBuckets(r.hist.buckets))))
  }

  /** `main`, with the histogram as an array that the task updates in place. */
  method StatMain(args: seq<string>, env: Env, mallocOk: bool, garbage: nat) returns (e: MainEnd)
    ensures e == Main(args, env, mallocOk, garbage)
  {
    var cmd := GetCmdline(args);
    if cmd.None? {
      return Exited(-1, None);
    }
    if !mallocOk {
      return Exited(-1, None);
    }
    var latHist := new u32[LAT_MAX_COUNT];
    ZeroHistogram(latHist);
    var arg := new TaskArg(cmd.value, latHist, garbage);
    var status, _ := RtaskEntry(arg, env);
    if status.Running? {
      return Blocked;
    }
    var lines := Report(latHist);
    return Exited(status.err, Some(Output(arg.irqCount, arg.irqMissed, lines)));
  }

  /**
   * Exit status 0 exactly when the arguments parse, the histogram is
   * allocated, the task runs with the realtime policy, arms the generator,
   * and its loop stops on SIGINT or on the count.
   */
  lemma MainSucceeds(args: seq<string>, env: Env, mallocOk: bool, garbage: nat)
    ensures var e := Main(args, env, mallocOk, garbage);
            e.Exited? && e.code == 0 <==>
              && ParseArgs(args).Some? && mallocOk && env.schedOk
              && Arms(env, ParseArgs(args).value)
              && RunLoop(Hist(Zeros(), 0), 0, env.ticks, env.fclk, ParseArgs(args).value.irqCount).exit
                   in {Sigint, CountReached}
  {
    if ParseArgs(args).Some? && mallocOk && env.schedOk {
      var cmd := ParseArgs(args).value;
      RtaskReturnValue(env, cmd, Hist(Zeros(), garbage), 0);
      assert Hist(Zeros(), garbage).(missed := 0) == Hist(Zeros(), 0);
    }
  }

  /**
   * When the task fails before its loop, `main` still reports: a zero
   * count, the uninitialised `irq_missed`, and no bucket lines.
   */
  lemma MainReportsGarbageOnEarlyFailure(args: seq<string>, env: Env, garbage: nat)
    requires ParseArgs(args).Some?
    requires !env.schedOk || !Arms(env, ParseArgs(args).value)
    ensures Main(args, env, true, garbage) == Exited(-1, Some(Output(0, garbage, [])))
  {
    ReportOfZeros(LAT_MAX_COUNT);
  }

  /**
   * The report accounts for every sample: while no bucket can wrap, the
   * printed counts and `irq_missed` add up to the number of START reads
   * of the loop, and `irq_missed` starts from 0 once the loop ran.
   */
  lemma MainReportAccounts(args: seq<string>, env: Env, garbage: nat)
    requires ParseArgs(args).Some? && env.schedOk && Arms(env, ParseArgs(args).value)
    requires |env.ticks| < U32_LIMIT
    ensures var e := Main(args, env, true, garbage);
            var l := RunLoop(Hist(Zeros(), 0), 0, env.ticks, env.fclk, ParseArgs(args).value.irqCount);
            e.Exited? ==>
              && e.output.Some?
              && LineTotal(e.output.value.lines) + e.output.value.irqMissed == Samples(l.events)
              && e.output.value.irqCount == l.irqCount
  {
    var cmd := ParseArgs(args).value;
    var h := Hist(Zeros(), 0);
    assert Hist(Zeros(), garbage).(missed := 0) == h;
    SumOfZeros(LAT_MAX_COUNT);
    assert forall i :: 0 <= i < |h.buckets| ==> h.buckets[i] == 0;
    RunLoopConserves(h, 0, env.ticks, env.fclk, cmd.irqCount);
    ReportTotals(RunLoop(h, 0, env.ticks, env.fclk, cmd.irqCount).hist.buckets);
  }

  /** The device every scenario below talks to: everything opens, the identity matches. */
  function GoodDevice(fclk: u32, ticks: seq<Tick>): (env: Env)
    ensures SessionsOpen(env) && env.schedOk && env.magic == MAGIC
  {
    Env(true, true, true, true, true, true, MAGIC, fclk, ticks)
  }

  /**
   * `-count 5` against a 1 MHz clock whose every interrupt is served
   * 500000 ticks late: six interrupts are taken, all six samples land in the
   * 500000 microsecond bucket, `irq_count` ends at 5, and `main` exits 0.
   */
  lemma CountFiveScenario(more: seq<Tick>)
    ensures var t := Tick(Signaled(IRQ_MASK), 0, 500000, false);
            Main(["-count", "5"], GoodDevice(1000000, seq(6, _ => t) + more), true, 0) ==
              Exited(0, Some(Output(5, 0, [Line(500000, 6)])))
  {
    var t := Tick(Signaled(IRQ_MASK), 0, 500000, false);
    var ticks := seq(6, _ => t) + more;
    var env := GoodDevice(1000000, ticks);
    var args := ["-count", "5"];
    assert args[1][..DigitRun(args[1], 10)] == "5";
    assert ParseArgs(args) == Some(Cmdline(DEFAULT_FGEN, 5)) by {
      assert FlagAt(args, 0) == "-count";
      LastValueDefault(args, "-freq", DEFAULT_FGEN);
      LastValueAt(args, "-count", DEFAULT_COUNT, 0);
    }
    assert Divide(1000000, DEFAULT_FGEN).Divider?;
    assert SampleMicros(t, 1000000) == 500000;
    var h := Hist(Zeros(), 0);
    assert Hist(Zeros(), 0).(missed := 0) == h;
    SteadyRun(h, 0, ticks, 1000000, 5, t);
    ReportOfOne(LAT_MAX_COUNT, 500000, 6);
  }

  /**
   * The division at the arming step as written: `-freq 0` is accepted and
   * then divides the clock frequency by zero.
   */
  lemma FreqZeroDividesByZero(fclk: u32)
    ensures ParseArgs(["-freq", "0"]) == Some(Cmdline(0, DEFAULT_COUNT))
    ensures DivideAsWritten(fclk, 0) == DivisionTrap
  {
    var args := ["-freq", "0"];
    assert args[1][..DigitRun(args[1], 10)] == "0";
    assert FlagAt(args, 0) == "-freq";
    LastValueAt(args, "-freq", DEFAULT_FGEN, 0);
    LastValueDefault(args, "-count", DEFAULT_COUNT);
  }

  /**
   * With the corrected division, `-freq 0` is refused like a frequency above
   * the clock's: the generator is never started and `main` exits -1 with an
   * empty report.
   */
  lemma FreqZeroIsRefused(fclk: u32, ticks: seq<Tick>, garbage: nat)
    ensures Divide(fclk, 0) == NoFrequency
    ensures !Arms(GoodDevice(fclk, ticks), Cmdline(0, DEFAULT_COUNT))
    ensures Main(["-freq", "0"], GoodDevice(fclk, ticks), true, garbage) ==
              Exited(-1, Some(Output(0, garbage, [])))
  {
    FreqZeroDividesByZero(fclk);
    MainReportsGarbageOnEarlyFailure(["-freq", "0"], GoodDevice(fclk, ticks), garbage);
  }

}
