/**
 * The realtime measurement task, `rtask_main`: open the interrupt and
 * register sessions, check the device identity, arm the generator, then take
 * one latency sample per interrupt until SIGINT, the requested count or a
 * wait error, and disarm and release everything on the way out.
 *
 * The hardware and the operating system are inputs: `Env` says which of the
 * opaque calls succeed, what MAGIC and FCLK read, and for each loop
 * iteration what the interrupt wait returns, what START and NOW read and
 * whether SIGINT has been caught by then. Only a finite prefix of a run is
 * described by these inputs; a run that has not stopped when they end is
 * `Running`.
 */
module MeasurementTask {

  import opened Machine
  import opened Latency
  import opened Histogram
  import opened Device
  import opened CommandLine

  /** `uirq_wait`: -1, or a mask of the sources that fired (0 when none did). */
  datatype WaitResult = WaitError | Signaled(mask: u32)

  /** What one loop iteration observes. */
  datatype Tick = Tick(wait: WaitResult, start: u32, now: u32, sigint: bool)

  datatype Env = Env(
    schedOk: bool,        // pthread_setschedparam to SCHED_FIFO succeeds
    enableIrqOk: bool,    // enable_ebone_slave_interrupt succeeds
    initLibOk: bool,      // uirq_init_lib succeeds
    uirqOpenOk: bool,     // uirq_open succeeds
    setMaskOk: bool,      // uirq_set_mask succeeds
    epciOpenOk: bool,     // epci_open of the register BAR succeeds
    magic: u32,           // what REG_MAGIC reads
    fclk: u32,            // what REG_FCLK reads
    ticks: seq<Tick>)

  /** Why the measurement loop stopped. */
  datatype Exit = Sigint | CountReached | WaitFailed | OutOfTicks

  datatype LoopEnd = LoopEnd(hist: Hist, irqCount: nat, exit: Exit, events: seq<Event>)

  /** The latency, in microseconds, of the interrupt a tick observes. */
  function SampleMicros(t: Tick, fclk: u32): u32
    requires fclk > 0
  {
    Micros(Elapsed(t.start, t.now), fclk)
  }

  /** The events of one iteration whose wait returned. */
  function IterationEvents(mask: u32): seq<Event>
  {
    [Wait(WAIT_TIMEOUT_MS)] + (if mask == 0 then [] else [Read(REG_START), Read(REG_NOW)])
  }

  /**
   * The measurement loop from iteration `irqCount` on: wait; on -1 stop; on a
   * nonzero mask record one sample; then stop on SIGINT, then stop when the
   * bound is nonzero and reached; else count the iteration and go on.
   */
  function RunLoop(h: Hist, irqCount: nat, ticks: seq<Tick>, fclk: u32, limit: u32): (r: LoopEnd)
    requires Sized(h) && fclk > 0
    ensures Sized(r.hist)
    decreases |ticks|
  {
    if ticks == [] then LoopEnd(h, irqCount, OutOfTicks, [])
    else
      var t := ticks[0];
      match t.wait
      case WaitError => LoopEnd(h, irqCount, WaitFailed, [Wait(WAIT_TIMEOUT_MS)])
      case Signaled(mask) =>
        var h' := if mask == 0 then h else Record(h, SampleMicros(t, fclk));
        var ev := IterationEvents(mask);
        if t.sigint then LoopEnd(h', irqCount, Sigint, ev)
        else if limit > 0 && irqCount == limit then LoopEnd(h', irqCount, CountReached, ev)
        else
          var rest := RunLoop(h', irqCount + 1, ticks[1..], fclk, limit);
          rest.(events := ev + rest.events)
  }

  /** One iteration that neither fails nor stops hands over to the next. */
  lemma RunLoopContinues(h: Hist, irqCount: nat, ticks: seq<Tick>, fclk: u32, limit: u32)
    requires Sized(h) && fclk > 0
    requires ticks != [] && ticks[0].wait.Signaled? && !ticks[0].sigint
    requires !(limit > 0 && irqCount == limit)
    ensures var mask := ticks[0].wait.mask;
            var h' := if mask == 0 then h else Record(h, SampleMicros(ticks[0], fclk));
            var rest := RunLoop(h', irqCount + 1, ticks[1..], fclk, limit);
            RunLoop(h, irqCount, ticks, fclk, limit) ==
              rest.(events := IterationEvents(mask) + rest.events)
  {
  }

  /** An iteration that fails or stops ends the loop with its own effect. */
  lemma RunLoopStops(h: Hist, irqCount: nat, ticks: seq<Tick>, fclk: u32, limit: u32)
    requires Sized(h) && fclk > 0 && ticks != []
    ensures ticks[0].wait.WaitError? ==>
              RunLoop(h, irqCount, ticks, fclk, limit) == LoopEnd(h, irqCount, WaitFailed, [Wait(WAIT_TIMEOUT_MS)])
    ensures ticks[0].wait.Signaled? && (ticks[0].sigint || (limit > 0 && irqCount == limit)) ==>
              var mask := ticks[0].wait.mask;
              var h' := if mask == 0 then h else Record(h, SampleMicros(ticks[0], fclk));
              RunLoop(h, irqCount, ticks, fclk, limit) ==
                LoopEnd(h', irqCount, if ticks[0].sigint then Sigint else CountReached, IterationEvents(mask))
  {
  }

  lemma ConcatAssoc(a: seq<Event>, b: seq<Event>, c: seq<Event>)
    ensures a + (b + c) == (a + b) + c
  {
  }

  /** `rtask_main`'s return value, or still in the loop when the inputs end. */
  datatype Status = Returned(err: int) | Running

  datatype TaskEnd = TaskEnd(status: Status, hist: Hist, irqCount: nat, trace: seq<Event>)

  /** Both sessions are open (the register session last). */
  predicate SessionsOpen(env: Env)
  {
    env.enableIrqOk && env.initLibOk && env.uirqOpenOk && env.setMaskOk && env.epciOpenOk
  }

  /** The device passes both checks and the generator is started. */
  predicate Arms(env: Env, cmd: Cmdline)
  {
    SessionsOpen(env) && env.magic == MAGIC && Divide(env.fclk, cmd.irqFgen).Divider?
  }

  /** The set-up calls up to the identity check, once both sessions are open. */
  const Opened: seq<Event> := [Acquire(Uirq), SetMask(IRQ_MASK), Acquire(Epci), Read(REG_MAGIC)]

  /**
   * `rtask_main` on histogram `h0` with `count0` in `irq_count`. Every failure
   * jumps into the cleanup ladder at the stage it reached. Arming resets
   * `irq_missed` and `irq_count`; the buckets are left as the caller gave them.
   */
  function Rtask(env: Env, cmd: Cmdline, h0: Hist, count0: nat): (r: TaskEnd)
    requires Sized(h0)
    ensures Sized(r.hist)
  {
    if !env.enableIrqOk || !env.initLibOk || !env.uirqOpenOk then
      TaskEnd(Returned(-1), h0, count0, [])
    else if !env.setMaskOk || !env.epciOpenOk then
      TaskEnd(Returned(-1), h0, count0, [Acquire(Uirq), SetMask(IRQ_MASK)] + Unwind(UirqHeld))
    else if env.magic != MAGIC then
      TaskEnd(Returned(-1), h0, count0, Opened + Unwind(BothHeld))
    else
      var divider := Divide(env.fclk, cmd.irqFgen);
      if divider.Divider? then
        var l := RunLoop(h0.(missed := 0), 0, env.ticks, env.fclk, cmd.irqCount);
        var ran := Opened + [Read(REG_FCLK), Write(REG_CTL, CtlStart(divider.value))] + l.events;
        if l.exit == OutOfTicks then TaskEnd(Running, l.hist, l.irqCount, ran)
        else TaskEnd(Returned(if l.exit == WaitFailed then -1 else 0), l.hist, l.irqCount, ran + Unwind(BothHeld))
      else
        TaskEnd(Returned(-1), h0, count0, Opened + [Read(REG_FCLK)] + Unwind(BothHeld))
  }

  /** `rtask_arg_t`: the configuration, the histogram and the two counters the task updates. */
  class TaskArg {
    const cmd: Cmdline
    const latHist: array<u32>
    var irqCount: nat
    var irqMissed: nat

    /** `irqMissed` is whatever the caller's memory holds: `main` never initialises it. */
    constructor (cmd: Cmdline, latHist: array<u32>, irqMissed: nat)
      ensures this.cmd == cmd && this.latHist == latHist
      ensures irqCount == 0 && this.irqMissed == irqMissed
    {
      this.cmd := cmd;
      this.latHist := latHist;
      irqCount := 0;
      this.irqMissed := irqMissed;
    }

    ghost function State(): Hist
      reads this, latHist
    {
      Hist(latHist[..], irqMissed)
    }

    /** `++arg->lat_hist[us]` or `++arg->irq_missed`. */
    method RecordSample(us: u32)
      requires latHist.Length == LAT_MAX_COUNT
      modifies this, latHist
      ensures State() == Record(old(State()), us)
      ensures irqCount == old(irqCount)
    {
      if us < LAT_MAX_COUNT {
        latHist[us] := Inc32(latHist[us]);
      } else {
        irqMissed := irqMissed + 1;
      }
    }
  }

  /** `rtask_main`, updating the histogram in place. */
  method RtaskMain(arg: TaskArg, env: Env) returns (status: Status, trace: seq<Event>)
    requires arg.latHist.Length == LAT_MAX_COUNT
    modifies arg, arg.latHist
    ensures var r := Rtask(env, arg.cmd, old(arg.State()), old(arg.irqCount));
            status == r.status && trace == r.trace &&
            arg.State() == r.hist && arg.irqCount == r.irqCount
  {
    trace := [];
    if !env.enableIrqOk || !env.initLibOk || !env.uirqOpenOk {
      return Returned(-1), trace;
    }
    trace := trace + [Acquire(Uirq), SetMask(IRQ_MASK)];
    if !env.setMaskOk || !env.epciOpenOk {
      return Returned(-1), trace + Unwind(UirqHeld);
    }
    trace := trace + [Acquire(Epci), Read(REG_MAGIC)];
    if env.magic != MAGIC {
      return Returned(-1), trace + Unwind(BothHeld);
    }
    trace := trace + [Read(REG_FCLK)];
    var irqFclk := env.fclk;
    var divider := Divide(irqFclk, arg.cmd.irqFgen);
    if !divider.Divider? {
      return Returned(-1), trace + Unwind(BothHeld);
    }
    trace := trace + [Write(REG_CTL, CtlStart(divider.value))];

    var exit, events := MeasurementLoop(arg, env.ticks, irqFclk);
    trace := trace + events;
    if exit == OutOfTicks {
      return Running, trace;
    }
    var err := if exit == WaitFailed then -1 else 0;
    return Returned(err), trace + Unwind(BothHeld);
  }

  /**
   * The loop of `rtask_main`, from `irq_missed = 0` and `irq_count = 0` on:
   * it increments buckets of the histogram in place.
   */
  method MeasurementLoop(arg: TaskArg, ticks: seq<Tick>, irqFclk: u32) returns (exit: Exit, events: seq<Event>)
    requires arg.latHist.Length == LAT_MAX_COUNT && irqFclk > 0
    modifies arg, arg.latHist
    ensures var l := RunLoop(old(arg.State()).(missed := 0), 0, ticks, irqFclk, arg.cmd.irqCount);
            arg.State() == l.hist && arg.irqCount == l.irqCount && exit == l.exit && events == l.events
  {
    arg.irqMissed := 0;
    arg.irqCount := 0;
    ghost var whole := RunLoop(arg.State(), 0, ticks, irqFclk, arg.cmd.irqCount);
    exit := OutOfTicks;
    events := [];
    var i := 0;
    while i < |ticks|
      invariant 0 <= i <= |ticks|
      invariant arg.irqCount == i
      invariant exit == OutOfTicks
      invariant var rest := RunLoop(arg.State(), i, ticks[i..], irqFclk, arg.cmd.irqCount);
                whole == rest.(events := events + rest.events)
    {
      ghost var before := arg.State();
      ghost var done := events;
      var t := ticks[i];
      assert ticks[i..][0] == t && ticks[i..][1..] == ticks[i + 1..];
      RunLoopStops(before, i, ticks[i..], irqFclk, arg.cmd.irqCount);
      events := events + [Wait(WAIT_TIMEOUT_MS)];
      if t.wait.WaitError? {
        exit := WaitFailed;
        assert whole == LoopEnd(arg.State(), arg.irqCount, exit, events);
        break;
      }
      var mask := t.wait.mask;
      if mask != 0 {
        events := events + [Read(REG_START), Read(REG_NOW)];
        var us := Micros(Elapsed(t.start, t.now), irqFclk);
        arg.RecordSample(us);
      }
      assert events == done + IterationEvents(mask);
      if t.sigint {
        exit := Sigint;
        assert whole == LoopEnd(arg.State(), arg.irqCount, exit, events);
        break;
      }
      if arg.cmd.irqCount > 0 && arg.irqCount == arg.cmd.irqCount {
        exit := CountReached;
        assert whole == LoopEnd(arg.State(), arg.irqCount, exit, events);
        break;
      }
      RunLoopContinues(before, i, ticks[i..], irqFclk, arg.cmd.irqCount);
      ghost var next := RunLoop(arg.State(), i + 1, ticks[i + 1..], irqFclk, arg.cmd.irqCount);
      ConcatAssoc(done, IterationEvents(mask), next.events);
      arg.irqCount := arg.irqCount + 1;
      i := i + 1;
    }
    assert i == |ticks| ==> ticks[i..] == [];
  }

}
