# rtbench `stat`: interrupt latency measurement, modelled in Dafny

`src/stat/main.c` measures how late software serves the periodic
interrupts a device generates. It parses `-freq <hz>` and `-count <n>`.
It checks the device's identity register (MAGIC, `0xbadcafee`) and reads the
device clock FCLK. It writes `(1 << 31) | (FCLK / freq)` to the control
register CTL to start the generator. For every interrupt it reads the
generation tick START and the current tick NOW. It turns the difference into
microseconds and counts it in a histogram of 1,000,000 one-microsecond
buckets, or in `irq_missed` when it is out of range. It stops on SIGINT, on
the requested count or on a wait error. On the way out it writes CTL = 0 and
closes the register session and the interrupt session in reverse order.
`main` then prints the counters and one line per nonzero bucket.

The project models that file:

- `machine.dfy`: `uint32_t`/`uint64_t` as subset types, and the wrapping 32-bit increment.
- `latency.dfy`: the hand-written wrap-around tick difference and the 64-bit tick-to-microsecond conversion.
- `histogram.dfy`: the buckets and `irq_missed` (`Hist`), one sample (`Record`), and the zeroing and report loops of `main` on an `array<u32>`.
- `device.dfy`: the register map, the divider and the CTL start value, and the cleanup ladder. An observable trace of events (acquire and release of the `uirq` and `epci` sessions, register reads and writes, waits) records what the program does to the device.
- `cmdline.dfy`: `get_num` and `get_cmdline`.
- `task.dfy`: `rtask_main`. `Rtask` and `RunLoop` are its specification as functions. `TaskArg` is `rtask_arg_t` as a class whose array of buckets and counters the methods `RtaskMain`, `MeasurementLoop` and `RecordSample` update in place.
- `task_properties.dfy`: what the loop and the arm/disarm protocol guarantee.
- `stat.dfy`: `rtask_entry` and `main`, with the end-to-end properties and scenarios.

The hardware and the operating system are inputs (`Env`):

- whether each opaque call succeeds: SCHED_FIFO, `enable_ebone_slave_interrupt`, `uirq_init_lib`, `uirq_open`, `uirq_set_mask`, `epci_open`;
- what MAGIC and FCLK read;
- for each loop iteration, a `Tick`: what `uirq_wait` returns, what START and NOW read, and whether SIGINT has been caught by then.

These inputs are finite. When they run out before the loop stops, the task
is reported as still `Running` and `main` as `Blocked`.

`Rtask`, `RtaskMain`, `Entry` and `Main` use the corrected `Divide`, which
refuses a frequency of 0 (see "## Findings"). The division by zero at
src/stat/main.c:337 is modelled only by `DivideAsWritten` and
`FreqZeroDividesByZero`.

What the code does that a reader may not expect:

- A bound of N takes N + 1 interrupts, though the comment at src/stat/main.c:67 calls it "how many IRQ to generate". The bound is checked before the for-increment, so the count ends at N after N + 1 waits (`CountedRunWaitsOnceMore`). When every mask is nonzero that is N + 1 samples (`SteadyRun`, `CountFiveScenario`).
- A MAGIC mismatch still writes CTL = 0 on the way out (`RtaskCtlWrites`).
- The divider is not masked to the 24 bits that the register map at src/stat/main.c:12-13 gives it in CTL<23:0>. A divider of 2^31 or more merges with the start bit (`CtlStart`).
- Across a counter wrap the elapsed time is one tick short (`Elapsed`).
- `irq_missed` is never initialised by `main`. When the task fails before its loop, whatever it holds is printed (`MainReportsGarbageOnEarlyFailure`).

## Model

| member | source | states |
|---|---|---|
| Machine.Inc32 | src/stat/main.c:374 | `++` on a `uint32_t` bucket adds one below UINT32_MAX and wraps to 0 at it |
| Latency.Elapsed | src/stat/main.c:365-366 | the result fits 32 bits; without a wrap it is the true modular tick difference, across a wrap it is exactly one less |
| Latency.Micros | src/stat/main.c:370 | the 64-bit product cannot overflow; when the quotient fits 32 bits the result is the floor of elapsed·10^6/fclk, otherwise it differs from the quotient by a multiple of 2^32 and is never larger |
| Latency.MicrosIsFloorForFastClock | src/stat/main.c:370 | with FCLK of at least 1 MHz no truncation happens: the result is the exact floor and at most the tick count |
| Latency.MicrosTruncationAliases | src/stat/main.c:370 | a slow clock makes the cast to `uint32_t` alias: 4294968 ticks at 1 kHz read as 704 µs |
| Histogram.Record | src/stat/main.c:374-375 | exactly one counter moves: the sample's own bucket (wrapping) when below 1,000,000, else `irq_missed`; every other bucket is unchanged |
| Histogram.RecordConserves | src/stat/main.c:374-375 | unless the sample's own bucket is at UINT32_MAX, buckets plus `irq_missed` grow by exactly one per sample |
| Histogram.NonZeroBucketsSpec | src/stat/main.c:434-438 | the report lists every nonzero bucket with its count, only those, each once, in strictly ascending offset |
| Histogram.ReportTotals | src/stat/main.c:434-438 | skipping zero buckets loses nothing: the listed counts add up to the buckets' total |
| Histogram.ReportOfZeros | src/stat/main.c:434-438 | all-zero buckets give an empty report |
| Histogram.ReportOfOne | src/stat/main.c:434-438 | buckets that are zero but one give exactly that one line |
| Histogram.ZeroHistogram | src/stat/main.c:420 | the allocation loop leaves every bucket at 0 |
| Histogram.Report | src/stat/main.c:434-438 | the scan over the array produces exactly the nonzero-bucket report of its contents |
| Device.DivideAsWritten | src/stat/main.c:337-342 | as written: a zero frequency traps; otherwise a divider of 0 (frequency above FCLK) is refused and any other is the floor of FCLK/freq |
| Device.Divide | src/stat/main.c:337-342 | corrected: never traps; a zero frequency is refused as no frequency, one above FCLK as too fast, and any other yields a positive floor of FCLK/freq |
| Device.DivideAgreesAsWritten | src/stat/main.c:337-342 | the corrected division agrees with the written one for every nonzero frequency |
| Device.CtlStart | src/stat/main.c:344 | the start value has bit 31 set and keeps the divider's low 31 bits; a divider below 2^24 is added to the start bit unchanged |
| Device.UnwindReleasesInReverse | src/stat/main.c:391-399 | from any label of the cleanup ladder, the sessions still held are released most recent first, and CTL = 0 is written exactly when the register session was open |
| CommandLine.GetNumDecimal | src/stat/main.c:57-62 | a decimal numeral up to ULONG_MAX reads back as its value modulo 2^32 |
| CommandLine.GetNumHex | src/stat/main.c:57-62 | a `0x`-prefixed hexadecimal numeral of any 32-bit value reads back as that value |
| CommandLine.GetNumTruncates | src/stat/main.c:62 | "4294967297" reads as 1: the `unsigned long` is truncated to `uint32_t` |
| CommandLine.GetNumBarePrefix | src/stat/main.c:60-61 | base 16 needs something after `0x`: "0x" alone is read in base 10 as 0 |
| CommandLine.GetNumUpperPrefix | src/stat/main.c:60-61 | base 16 needs a lower-case `x`: "0X1f" is read in base 10 as 0 |
| CommandLine.GetNumStopCases | src/stat/main.c:62 | reading stops at the first non-digit, and no digits read as 0 |
| CommandLine.LastValueDefault | src/stat/main.c:73-74 | a flag that does not occur keeps its default |
| CommandLine.LastValueAt | src/stat/main.c:76-79 | otherwise the value given with its last occurrence wins |
| CommandLine.ParseArgsRefuses | src/stat/main.c:71-80 | for example, an odd number of arguments and an unknown flag are refused |
| CommandLine.ParseArgsDefaults | src/stat/main.c:73-74 | no arguments give 1000 Hz and no bound |
| CommandLine.ParseArgsLastWins | src/stat/main.c:76-79 | a repeated flag keeps its last value, hexadecimal values included |
| CommandLine.GetCmdline | src/stat/main.c:64-86 | the pairwise loop returns the configuration `ParseArgs` describes, or the error |
| MeasurementTask.TaskArg.RecordSample | src/stat/main.c:374-375 | the in-place increment of the array or of `irq_missed` is `Record` on the task's state, and `irq_count` is untouched |
| MeasurementTask.MeasurementLoop | src/stat/main.c:346-387 | the loop over the array, from `irq_missed = 0` and `irq_count = 0`, ends in the histogram, count, exit reason and events of `RunLoop` |
| MeasurementTask.RtaskMain | src/stat/main.c:256-400 | `rtask_main` with its goto ladder returns the status and trace and leaves the histogram and count that `Rtask` describes |
| TaskProperties.IterationCounts | src/stat/main.c:349-364 | each iteration waits once, and reads START only when the mask is nonzero |
| TaskProperties.RunLoopConserves | src/stat/main.c:358-375 | when every bucket is at least as many inputs below 2^32 as the run has, buckets plus `irq_missed` grow by exactly the number of START reads, and `irq_missed` never decreases |
| TaskProperties.RunLoopIterations | src/stat/main.c:347-387 | a run that used up its inputs counted and waited once per input; a run that stopped waited once more than it counted |
| TaskProperties.RunLoopStopsAtFirstExit | src/stat/main.c:349-386 | the loop stops at its first stopping iteration: wait error, else SIGINT, else the nonzero bound reached (then `irq_count` equals it) |
| TaskProperties.RunLoopRanThrough | src/stat/main.c:349-386 | a run that used up its inputs went on at every one of them |
| TaskProperties.RunLoopCountBound | src/stat/main.c:386 | with a nonzero bound the count never passes it; with bound 0 the bound never stops the loop |
| TaskProperties.CountedRunWaitsOnceMore | src/stat/main.c:347-386 | a run stopped by bound N ends with `irq_count == N` after N + 1 waits |
| TaskProperties.EmptyMasksLeaveHistogram | src/stat/main.c:358 | iterations with an empty mask read neither START nor NOW and leave the buckets and `irq_missed` unchanged |
| TaskProperties.LoopOnlyObserves | src/stat/main.c:347-387 | the loop only waits and reads registers: it neither writes CTL nor opens or closes a session |
| TaskProperties.SteadyRun | src/stat/main.c:347-387 | with every interrupt at the same in-range latency and bound N, the loop stops on the bound with N + 1 more samples in that one bucket |
| TaskProperties.HeldOpened | src/stat/main.c:283-307 | after opening both sessions and reading MAGIC, both are held, interrupt session first, and CTL is untouched |
| TaskProperties.HeldUirqOnly | src/stat/main.c:283-289 | after opening the interrupt session and setting its mask only it is held |
| TaskProperties.ArmedPrefix | src/stat/main.c:336-387 | arming and then looping holds both sessions and has written CTL once, with the start value |
| TaskProperties.RtaskReleasesInReverse | src/stat/main.c:391-399 | every finished run has released all it acquired, each release undoing the latest acquisition; a running one holds both |
| TaskProperties.RtaskCtlWrites | src/stat/main.c:307-392 | CTL is never written before the register session is open; a failed MAGIC or divider check writes only 0; an armed run writes the start value once and then 0 on every exit |
| TaskProperties.RtaskDisarmsThenCloses | src/stat/main.c:391-395 | every finished run after the register session opened ends CTL = 0, close `epci`, close `uirq`; a run that never arms returns -1 with histogram and count untouched |
| TaskProperties.RtaskReturnValue | src/stat/main.c:349-389 | 0 exactly when armed and the loop stopped on SIGINT or the bound; otherwise -1 |
| Stat.Entry | src/stat/main.c:98-121 | the task's error is 0 or -1, and -1 with nothing changed when the realtime policy is refused or the device is not armed; when the policy is refused, `rtask_main` never runs and the device sees nothing (empty trace) |
| Stat.RtaskEntry | src/stat/main.c:98-121 | runs `rtask_main` only after the realtime policy is set, with the outcome `Entry` describes |
| Stat.Main | src/stat/main.c:405-444 | `main` exits 0 or -1, and any report it prints has nonzero counts at in-range offsets in strictly ascending order |
| Stat.StatMain | src/stat/main.c:405-444 | parse, allocate, zero, run the task in place and scan the array give the outcome `Main` describes |
| Stat.MainSucceeds | src/stat/main.c:411-443 | exit status 0 exactly when parsing, allocation and SCHED_FIFO succeed, the device arms, and the loop stops on SIGINT or the bound |
| Stat.MainReportsGarbageOnEarlyFailure | src/stat/main.c:418-432 | a task that fails before its loop still gets a report: count 0, the uninitialised `irq_missed`, no lines |
| Stat.MainReportAccounts | src/stat/main.c:430-438 | while no bucket can wrap, the printed counts plus `irq_missed` equal the samples the loop took, and the printed count is the loop's |
| Stat.CountFiveScenario | src/stat/main.c:347-387 | `-count 5` at 1 MHz with every interrupt 500,000 ticks late exits 0 with count 5, nothing missed, and the single line "500000 6" |
| Stat.FreqZeroDividesByZero | src/stat/main.c:337 | as written, `-freq 0` is accepted and then divides FCLK by zero |
| Stat.FreqZeroIsRefused | src/stat/main.c:337-342 | with the corrected division, `-freq 0` never arms the device and `main` exits -1 with an empty report |

## Left out

- Threads and scheduling (`rtask_start`, `rtask_wait`, `pthread_setschedparam` at src/stat/main.c:98-138): only "the realtime policy is refused, so `rtask_main` never runs and the error stays -1" is modelled, as `Env.schedOk`. `rtask_start` always returns 0, so its failure branch in `main` is not modelled.
- The SIGINT handler (src/stat/main.c:224-229) runs asynchronously. It is modelled as one flag per loop iteration, read at line 385.
- `enable_ebone_slave_interrupt` and the `uirq_*`/`epci_*` library calls are foreign code. Each is a success flag or a register value in `Env`. The BAR-0 read-modify-write in `enable_ebone_slave_interrupt` is not in the trace.
- `uirq_wait` is modelled as returning -1 or a mask. Its timeout semantics and any other return value are not modelled.
- `strtoul` is modelled on digits only. Leading white space and a sign are not modelled. In base 16 the model reads after the `0x` prefix, which `strtoul` would skip itself. Overflow saturates at ULONG_MAX on a 64-bit `unsigned long`, and the value is then truncated to 32 bits.
- `printf` formatting is left out. The report is its sequence of (offset, count) lines.
- The `#if 0` blocks (src/stat/main.c:314-330, 377-382) are dead code and not modelled.
- `irq_count` and `irq_missed` are `size_t` in the source and `nat` here. Their wrap after 2^64 interrupts is not modelled.
- The measurement loop is infinite without a bound. The model covers the finite prefix its inputs describe and reports the rest as still running.
- `malloc` is modelled as a success flag. `free` and `uirq_fini_lib` are not in the trace; the latter is commented out at src/stat/main.c:397.
- src/load/main.c is not part of this model: thread-based load generation, UDP sockets and floating point.
- Histogram.RecordConserves is stated only when the sample's bucket is below UINT32_MAX. At UINT32_MAX the bucket wraps to 0 (`Record` states the wrap).
- TaskProperties.RunLoopConserves is stated only when each bucket plus the number of inputs stays below 2^32, so that no bucket can wrap during the run.

## Findings

| source | as written | input that shows it | evidently intended | confidence | as-written member | corrected member |
|---|---|---|---|---|---|---|
| src/stat/main.c:337 | `get_cmdline` accepts any number after `-freq`, and `irq_fclk / cmd->irq_fgen` then divides by zero | arguments `-freq 0` on a device that opens and passes the MAGIC check | a frequency of 0 refused like one above FCLK: no arming, return -1 | high for the division by zero (integer division by zero is undefined behaviour in C); not executed | Stat.FreqZeroDividesByZero (on Device.DivideAsWritten) | Device.Divide, with Stat.FreqZeroIsRefused |
