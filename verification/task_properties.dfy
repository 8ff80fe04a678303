/**
 * What the measurement loop and `rtask_main` guarantee: the histogram counts
 * every sample once, the loop stops at the first stopping condition with
 * SIGINT checked before the count, and the generator is started only after
 * both checks pass and stopped, before the sessions close in reverse order of
 * opening, on every way out.
 */
module TaskProperties {

  import opened Wrappers
  import opened Machine
  import opened Histogram
  import opened Device
  import opened CommandLine
  import opened MeasurementTask

  /** The number of samples taken: one START read per sample. */
  function Samples(ev: seq<Event>): nat
  {
    if ev == [] then 0 else (if ev[0] == Read(REG_START) then 1 else 0) + Samples(ev[1..])
  }

  /** The number of interrupt waits. */
  function Waits(ev: seq<Event>): nat
  {
    if ev == [] then 0 else (if ev[0].Wait? then 1 else 0) + Waits(ev[1..])
  }

  lemma {:induction false} CountsAppend(a: seq<Event>, b: seq<Event>)
    ensures Samples(a + b) == Samples(a) + Samples(b)
    ensures Waits(a + b) == Waits(a) + Waits(b)
  {
    if a != [] {
      assert (a + b)[1..] == a[1..] + b;
      CountsAppend(a[1..], b);
    } else {
      assert a + b == b;
    }
  }

  lemma IterationCounts(mask: u32)
    ensures Samples(IterationEvents(mask)) == if mask == 0 then 0 else 1
    ensures Waits(IterationEvents(mask)) == 1
  {
    var ev := IterationEvents(mask);
    if mask == 0 {
      assert ev[1..] == [];
    } else {
      var rd: seq<Event> := [Read(REG_START), Read(REG_NOW)];
      assert rd[1..][1..] == [];
      assert Samples(rd[1..]) == 0 && Waits(rd[1..]) == 0;
      assert Samples(rd) == 1 && Waits(rd) == 0;
      assert ev[1..] == rd;
    }
  }

  /** An iteration that goes on to the next one. */
  predicate Continues(t: Tick, irqCount: nat, limit: u32)
  {
    t.wait.Signaled? && !t.sigint && !(limit > 0 && irqCount == limit)
  }

  /**
   * Conservation: when every bucket is far enough below UINT32_MAX that one
   * sample per input cannot make it wrap, every START read (one per interrupt
   * with a nonzero mask) adds exactly one to the buckets or to `irq_missed`,
   * and nothing else changes their total.
   */
  lemma {:induction false} RunLoopConserves(h: Hist, irqCount: nat, ticks: seq<Tick>, fclk: u32, limit: u32)
    requires Sized(h) && fclk > 0
    requires forall i :: 0 <= i < |h.buckets| ==> h.buckets[i] + |ticks| < U32_LIMIT
    ensures var r := RunLoop(h, irqCount, ticks, fclk, limit);
            Sum(r.hist.buckets) + r.hist.missed == Sum(h.buckets) + h.missed + Samples(r.events)
    ensures RunLoop(h, irqCount, ticks, fclk, limit).hist.missed >= h.missed
    decreases |ticks|
  {
    if ticks != [] && ticks[0].wait.Signaled? {
      var t := ticks[0];
      var mask := t.wait.mask;
      var h' := if mask == 0 then h else Record(h, SampleMicros(t, fclk));
      var ev := IterationEvents(mask);
      if mask != 0 {
        var us := SampleMicros(t, fclk);
        if us < LAT_MAX_COUNT {
          assert h.buckets[us] + |ticks| < U32_LIMIT;
        }
        RecordConserves(h, us);
      }
      IterationCounts(mask);
      if !t.sigint && !(limit > 0 && irqCount == limit) {
        assert forall i :: 0 <= i < |h'.buckets| ==> h'.buckets[i] <= h.buckets[i] + 1;
        RunLoopConserves(h', irqCount + 1, ticks[1..], fclk, limit);
        CountsAppend(ev, RunLoop(h', irqCount + 1, ticks[1..], fclk, limit).events);
      }
    }
  }

  /**
   * Every iteration waits once; the loop runs through all its inputs only
   * when none of them stops it, and otherwise stops at one of them.
   */
  lemma {:induction false} RunLoopIterations(h: Hist, irqCount: nat, ticks: seq<Tick>, fclk: u32, limit: u32)
    requires Sized(h) && fclk > 0
    ensures var r := RunLoop(h, irqCount, ticks, fclk, limit);
            && r.irqCount >= irqCount
            && (r.exit == OutOfTicks ==> r.irqCount - irqCount == |ticks| == Waits(r.events))
            && (r.exit != OutOfTicks ==> r.irqCount - irqCount < |ticks| && Waits(r.events) == r.irqCount - irqCount + 1)
    decreases |ticks|
  {
    if ticks != [] && Continues(ticks[0], irqCount, limit) {
      var mask := ticks[0].wait.mask;
      var h' := if mask == 0 then h else Record(h, SampleMicros(ticks[0], fclk));
      RunLoopIterations(h', irqCount + 1, ticks[1..], fclk, limit);
      CountsAppend(IterationEvents(mask), RunLoop(h', irqCount + 1, ticks[1..], fclk, limit).events);
      IterationCounts(mask);
    } else if ticks != [] {
      IterationCounts(if ticks[0].wait.Signaled? then ticks[0].wait.mask else 0);
    }
  }

  /**
   * The loop stops at its first stopping condition: every iteration before
   * the last went on, and the last one is the wait error, SIGINT, or the
   * bound, which is checked only when SIGINT is not set. A run that ends in
   * the bound leaves `irq_count` equal to it.
   */
  lemma {:induction false} RunLoopStopsAtFirstExit(h: Hist, irqCount: nat, ticks: seq<Tick>, fclk: u32, limit: u32)
    requires Sized(h) && fclk > 0
    requires RunLoop(h, irqCount, ticks, fclk, limit).exit != OutOfTicks
    ensures var r := RunLoop(h, irqCount, ticks, fclk, limit);
            var n := r.irqCount - irqCount;
            && 0 <= n < |ticks|
            && (forall j :: 0 <= j < n ==> Continues(ticks[j], irqCount + j, limit))
            && (r.exit == WaitFailed ==> ticks[n].wait.WaitError?)
            && (r.exit == Sigint ==> ticks[n].wait.Signaled? && ticks[n].sigint)
            && (r.exit == CountReached ==>
                  ticks[n].wait.Signaled? && !ticks[n].sigint && limit > 0 && r.irqCount == limit)
    decreases |ticks|
  {
    RunLoopIterations(h, irqCount, ticks, fclk, limit);
    if Continues(ticks[0], irqCount, limit) {
      var mask := ticks[0].wait.mask;
      var h' := if mask == 0 then h else Record(h, SampleMicros(ticks[0], fclk));
      var rest := RunLoop(h', irqCount + 1, ticks[1..], fclk, limit);
      RunLoopStopsAtFirstExit(h', irqCount + 1, ticks[1..], fclk, limit);
      var n := rest.irqCount - irqCount;
      assert ticks[n] == ticks[1..][n - 1];
      forall j | 0 <= j < n
        ensures Continues(ticks[j], irqCount + j, limit)
      {
        if j > 0 {
          assert ticks[j] == ticks[1..][j - 1];
        }
      }
    }
  }

  /**
   * With a nonzero bound and a count that starts below it, the loop never
   * counts past the bound; with bound 0 only SIGINT or a wait error stops it.
   */
  lemma {:induction false} RunLoopCountBound(h: Hist, irqCount: nat, ticks: seq<Tick>, fclk: u32, limit: u32)
    requires Sized(h) && fclk > 0
    ensures limit > 0 && irqCount <= limit ==> RunLoop(h, irqCount, ticks, fclk, limit).irqCount <= limit
    ensures limit == 0 ==> RunLoop(h, irqCount, ticks, fclk, limit).exit != CountReached
    decreases |ticks|
  {
    if ticks != [] && Continues(ticks[0], irqCount, limit) {
      var mask := ticks[0].wait.mask;
      var h' := if mask == 0 then h else Record(h, SampleMicros(ticks[0], fclk));
      RunLoopCountBound(h', irqCount + 1, ticks[1..], fclk, limit);
    }
  }

  /** A loop that used up its inputs went on at every one of them. */
  lemma {:induction false} RunLoopRanThrough(h: Hist, irqCount: nat, ticks: seq<Tick>, fclk: u32, limit: u32)
    requires Sized(h) && fclk > 0
    requires RunLoop(h, irqCount, ticks, fclk, limit).exit == OutOfTicks
    ensures forall j :: 0 <= j < |ticks| ==> Continues(ticks[j], irqCount + j, limit)
    decreases |ticks|
  {
    if ticks != [] {
      var mask := ticks[0].wait.mask;
      var h' := if mask == 0 then h else Record(h, SampleMicros(ticks[0], fclk));
      RunLoopRanThrough(h', irqCount + 1, ticks[1..], fclk, limit);
      forall j | 0 <= j < |ticks|
        ensures Continues(ticks[j], irqCount + j, limit)
      {
        if j > 0 {
          assert ticks[j] == ticks[1..][j - 1];
        }
      }
    }
  }

  /**
   * A bound of N takes N + 1 interrupts: the bound is checked before the
   * count is incremented, so the run ends with `irq_count == N` after its
   * (N + 1)-th wait.
   */
  lemma CountedRunWaitsOnceMore(h: Hist, ticks: seq<Tick>, fclk: u32, limit: u32)
    requires Sized(h) && fclk > 0
    requires RunLoop(h, 0, ticks, fclk, limit).exit == CountReached
    ensures RunLoop(h, 0, ticks, fclk, limit).irqCount == limit
    ensures Waits(RunLoop(h, 0, ticks, fclk, limit).events) == limit + 1
  {
    RunLoopIterations(h, 0, ticks, fclk, limit);
    RunLoopStopsAtFirstExit(h, 0, ticks, fclk, limit);
  }

  /**
   * Iterations whose wait returns an empty mask read neither START nor NOW
   * and leave the buckets and `irq_missed` alone, though `irq_count` still
   * advances past them.
   */
  lemma {:induction false} EmptyMasksLeaveHistogram(h: Hist, irqCount: nat, ticks: seq<Tick>, fclk: u32, limit: u32)
    requires Sized(h) && fclk > 0
    requires forall j :: 0 <= j < |ticks| ==> ticks[j].wait != Signaled(0) ==> ticks[j].wait.WaitError?
    ensures RunLoop(h, irqCount, ticks, fclk, limit).hist == h
    ensures Samples(RunLoop(h, irqCount, ticks, fclk, limit).events) == 0
    ensures forall k :: 0 <= k < |RunLoop(h, irqCount, ticks, fclk, limit).events| ==>
              RunLoop(h, irqCount, ticks, fclk, limit).events[k] == Wait(WAIT_TIMEOUT_MS)
    decreases |ticks|
  {
    if ticks != [] && Continues(ticks[0], irqCount, limit) {
      var rest := RunLoop(h, irqCount + 1, ticks[1..], fclk, limit);
      forall j | 0 <= j < |ticks[1..]|
        ensures ticks[1..][j].wait != Signaled(0) ==> ticks[1..][j].wait.WaitError?
      {
        assert ticks[1..][j] == ticks[j + 1];
      }
      EmptyMasksLeaveHistogram(h, irqCount + 1, ticks[1..], fclk, limit);
      CountsAppend([Wait(WAIT_TIMEOUT_MS)], rest.events);
    }
  }

  /** Every event of the loop is a wait or a register read. */
  lemma {:induction false} LoopOnlyObserves(h: Hist, irqCount: nat, ticks: seq<Tick>, fclk: u32, limit: u32)
    requires Sized(h) && fclk > 0
    ensures forall k :: 0 <= k < |RunLoop(h, irqCount, ticks, fclk, limit).events| ==>
              RunLoop(h, irqCount, ticks, fclk, limit).events[k].Wait? ||
              RunLoop(h, irqCount, ticks, fclk, limit).events[k].Read?
    decreases |ticks|
  {
    if ticks != [] && Continues(ticks[0], irqCount, limit) {
      var t := ticks[0];
      var mask := t.wait.mask;
      var h' := if mask == 0 then h else Record(h, SampleMicros(t, fclk));
      LoopOnlyObserves(h', irqCount + 1, ticks[1..], fclk, limit);
    }
  }

  lemma HeldOpened()
    ensures Held(Opened) == Some([Uirq, Epci])
    ensures CtlWrites(Opened) == []
  {
    var t1: seq<Event> := [Acquire(Uirq)];
    var t2 := t1 + [SetMask(IRQ_MASK)];
    var t3 := t2 + [Acquire(Epci)];
    Snoc([], Acquire(Uirq));
    assert [] + [Acquire(Uirq)] == t1;
    assert [] + [Uirq] == [Uirq];
    assert Held(t1) == Some([Uirq]);
    Snoc(t1, SetMask(IRQ_MASK));
    assert Held(t2) == Some([Uirq]);
    Snoc(t2, Acquire(Epci));
    assert [Uirq] + [Epci] == [Uirq, Epci];
    assert Held(t3) == Some([Uirq, Epci]);
    Snoc(t3, Read(REG_MAGIC));
    assert t3 + [Read(REG_MAGIC)] == Opened;
  }

  lemma HeldUirqOnly()
    ensures Held([Acquire(Uirq), SetMask(IRQ_MASK)]) == Some([Uirq])
    ensures CtlWrites([Acquire(Uirq), SetMask(IRQ_MASK)]) == []
  {
    var t1: seq<Event> := [Acquire(Uirq)];
    Snoc([], Acquire(Uirq));
    assert [] + [Acquire(Uirq)] == t1;
    assert [] + [Uirq] == [Uirq];
    Snoc(t1, SetMask(IRQ_MASK));
    assert t1 + [SetMask(IRQ_MASK)] == [Acquire(Uirq), SetMask(IRQ_MASK)];
  }

  /** Arming the generator, then events that only observe, after the sessions are open. */
  lemma ArmedPrefix(d: u32, events: seq<Event>)
    requires forall k :: 0 <= k < |events| ==> events[k].Wait? || events[k].Read?
    ensures var ran := Opened + [Read(REG_FCLK), Write(REG_CTL, CtlStart(d))] + events;
            Held(ran) == Some([Uirq, Epci]) && CtlWrites(ran) == [CtlStart(d)]
  {
    var arm: seq<Event> := [Read(REG_FCLK), Write(REG_CTL, CtlStart(d))];
    var ran := Opened + arm + events;
    HeldOpened();
    assert ran == Opened + (arm + events);
    HeldIgnoresNeutral(Opened, arm + events);
    CtlWritesAppend(Opened, arm + events);
    CtlWritesAppend(arm, events);
    CtlWritesNone(events);
    assert arm == [Read(REG_FCLK)] + [Write(REG_CTL, CtlStart(d))];
    CtlWritesAppend([Read(REG_FCLK)], [Write(REG_CTL, CtlStart(d))]);
    Snoc([], Read(REG_FCLK));
    Snoc([], Write(REG_CTL, CtlStart(d)));
  }

  /**
   * Resource order: a finished run has released everything it acquired, each
   * release undoing the most recent acquisition still held (the register
   * session before the interrupt session); a run still in its loop holds both.
   */
  lemma RtaskReleasesInReverse(env: Env, cmd: Cmdline, h0: Hist, count0: nat)
    requires Sized(h0)
    ensures var r := Rtask(env, cmd, h0, count0);
            Held(r.trace) == Some(if r.status.Running? then [Uirq, Epci] else [])
  {
    var r := Rtask(env, cmd, h0, count0);
    if !env.enableIrqOk || !env.initLibOk || !env.uirqOpenOk {
    } else if !env.setMaskOk || !env.epciOpenOk {
      HeldUirqOnly();
      UnwindReleasesInReverse([Acquire(Uirq), SetMask(IRQ_MASK)], UirqHeld);
    } else if env.magic != MAGIC {
      HeldOpened();
      UnwindReleasesInReverse(Opened, BothHeld);
    } else if !Divide(env.fclk, cmd.irqFgen).Divider? {
      HeldOpened();
      Snoc(Opened, Read(REG_FCLK));
      UnwindReleasesInReverse(Opened + [Read(REG_FCLK)], BothHeld);
    } else {
      var d := Divide(env.fclk, cmd.irqFgen).value;
      var l := RunLoop(h0.(missed := 0), 0, env.ticks, env.fclk, cmd.irqCount);
      LoopOnlyObserves(h0.(missed := 0), 0, env.ticks, env.fclk, cmd.irqCount);
      ArmedPrefix(d, l.events);
      var ran := Opened + [Read(REG_FCLK), Write(REG_CTL, CtlStart(d))] + l.events;
      if l.exit != OutOfTicks {
        UnwindReleasesInReverse(ran, BothHeld);
      }
    }
  }

  /**
   * What is written to CTL: nothing before the register session is open;
   * only the stop value 0 when the identity or divider check fails; the start
   * value `(1 << 31) | divider` exactly once when both pass, followed by 0 on
   * every way out of the loop.
   */
  lemma RtaskCtlWrites(env: Env, cmd: Cmdline, h0: Hist, count0: nat)
    requires Sized(h0)
    ensures var r := Rtask(env, cmd, h0, count0);
            && (!SessionsOpen(env) ==> CtlWrites(r.trace) == [])
            && (SessionsOpen(env) && !Arms(env, cmd) ==> CtlWrites(r.trace) == [0])
            && (Arms(env, cmd) ==>
                  CtlWrites(r.trace) ==
                    [CtlStart(Divide(env.fclk, cmd.irqFgen).value)] + (if r.status.Running? then [] else [0]))
  {
    if !env.enableIrqOk || !env.initLibOk || !env.uirqOpenOk {
    } else if !env.setMaskOk || !env.epciOpenOk {
      HeldUirqOnly();
      UnwindReleasesInReverse([Acquire(Uirq), SetMask(IRQ_MASK)], UirqHeld);
    } else if env.magic != MAGIC {
      HeldOpened();
      UnwindReleasesInReverse(Opened, BothHeld);
    } else if !Divide(env.fclk, cmd.irqFgen).Divider? {
      HeldOpened();
      Snoc(Opened, Read(REG_FCLK));
      UnwindReleasesInReverse(Opened + [Read(REG_FCLK)], BothHeld);
    } else {
      var d := Divide(env.fclk, cmd.irqFgen).value;
      var l := RunLoop(h0.(missed := 0), 0, env.ticks, env.fclk, cmd.irqCount);
      LoopOnlyObserves(h0.(missed := 0), 0, env.ticks, env.fclk, cmd.irqCount);
      ArmedPrefix(d, l.events);
      var ran := Opened + [Read(REG_FCLK), Write(REG_CTL, CtlStart(d))] + l.events;
      if l.exit != OutOfTicks {
        UnwindReleasesInReverse(ran, BothHeld);
      }
    }
  }

  /**
   * Once the register session is open, every finished run ends with the
   * generator stopped, then the register session closed, then the interrupt
   * session closed. Before that, a failure leaves the histogram and the
   * counters as they were.
   */
  lemma RtaskDisarmsThenCloses(env: Env, cmd: Cmdline, h0: Hist, count0: nat)
    requires Sized(h0)
    ensures var r := Rtask(env, cmd, h0, count0);
            SessionsOpen(env) && r.status.Returned? ==>
              |r.trace| >= 3 && r.trace[|r.trace| - 3..] == [Write(REG_CTL, 0), Release(Epci), Release(Uirq)]
    ensures var r := Rtask(env, cmd, h0, count0);
            !Arms(env, cmd) ==> r.status == Returned(-1) && r.hist == h0 && r.irqCount == count0
  {
  }

  /**
   * The return value: 0 exactly when the generator was armed and the loop
   * stopped on SIGINT or on the bound; -1 for a wait error and for every
   * failure before arming.
   */
  lemma RtaskReturnValue(env: Env, cmd: Cmdline, h0: Hist, count0: nat)
    requires Sized(h0)
    ensures var r := Rtask(env, cmd, h0, count0);
            r.status == Returned(0) <==>
              Arms(env, cmd) &&
              RunLoop(h0.(missed := 0), 0, env.ticks, env.fclk, cmd.irqCount).exit in {Sigint, CountReached}
    ensures var r := Rtask(env, cmd, h0, count0);
            r.status.Returned? ==> r.status.err in {0, -1}
  {
  }


  /**
   * A steady interrupt source: every wait returns the same nonzero mask and
   * every sample has the same latency inside the histogram. With a bound N
   * the loop stops on the bound after N + 1 samples, all in that latency's
   * bucket.
   */
  lemma {:induction false} SteadyRun(h: Hist, irqCount: nat, ticks: seq<Tick>, fclk: u32, limit: u32, t: Tick)
    requires Sized(h) && fclk > 0
    requires t.wait.Signaled? && t.wait.mask != 0 && !t.sigint
    requires SampleMicros(t, fclk) < LAT_MAX_COUNT
    requires limit > 0 && irqCount <= limit && limit - irqCount < |ticks|
    requires forall j :: 0 <= j <= limit - irqCount ==> ticks[j] == t
    requires h.buckets[SampleMicros(t, fclk)] + (limit - irqCount) < UINT32_MAX
    ensures var r := RunLoop(h, irqCount, ticks, fclk, limit);
            var us := SampleMicros(t, fclk);
            && r.exit == CountReached && r.irqCount == limit && r.hist.missed == h.missed
            && r.hist.buckets == h.buckets[us := h.buckets[us] + (limit - irqCount) + 1]
    decreases limit - irqCount
  {
    var us := SampleMicros(t, fclk);
    var h' := Record(h, us);
    assert ticks[0] == t;
    assert h'.buckets == h.buckets[us := h.buckets[us] + 1];
    if irqCount < limit {
      assert forall j :: 0 <= j <= limit - (irqCount + 1) ==> ticks[1..][j] == ticks[j + 1];
      SteadyRun(h', irqCount + 1, ticks[1..], fclk, limit, t);
      assert h'.buckets[us := h'.buckets[us] + (limit - irqCount - 1) + 1] ==
             h.buckets[us := h.buckets[us] + (limit - irqCount) + 1];
    }
  }

}
