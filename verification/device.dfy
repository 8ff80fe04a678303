/**
 * The interrupt generator's register map and the arm/disarm protocol of
 * `rtask_main`, with the observable effects of a run recorded as a trace of
 * events: acquiring and releasing the interrupt session (`uirq`) and the
 * register session (`epci`), register reads and writes, and interrupt waits.
 */
module Device {

  import opened Wrappers
  import opened Machine

  // The registers sit in BAR 1 from offset 0x80 on; the offsets below are
  // relative to that base. TOGL (0x08) and COUNT (0x1c) are never accessed.
  const REG_CTL: int := 0x00
  const REG_MAGIC: int := 0x0c
  const REG_FCLK: int := 0x10
  const REG_START: int := 0x14
  const REG_NOW: int := 0x18

  /** The identity the MAGIC register must hold. */
  const MAGIC: u32 := 0xbadcafee

  /** Bit 31 of CTL: start interrupt generation. */
  const CTL_START: u32 := 0x8000_0000

  /** The interrupt source enabled in the interrupt session: `1 << 1`. */
  const IRQ_MASK: u32 := 2

  /** Timeout of every interrupt wait, in milliseconds. */
  const WAIT_TIMEOUT_MS: nat := 1000

  datatype Resource = Uirq | Epci

  datatype Event =
    | Acquire(resource: Resource)
    | Release(resource: Resource)
    | SetMask(mask: u32)
    | Read(offset: nat)
    | Write(offset: nat, value: u32)
    | Wait(timeoutMs: nat)

  /**
   * The frequency divider, or why there is none: the requested frequency is
   * above the clock's, it is 0, or the division by 0 itself.
   */
  datatype Divider = Divider(value: u32) | TooFast | NoFrequency | DivisionTrap

  /**
   * `irq_fclk / cmd->irq_fgen` followed by the zero check, as written: a
   * requested frequency of 0 is a C division by zero.
   */
  function DivideAsWritten(fclk: u32, fgen: u32): (d: Divider)
    ensures d.DivisionTrap? <==> fgen == 0
    ensures d.TooFast? <==> fgen != 0 && fclk < fgen
    ensures !d.NoFrequency?
    ensures d.Divider? ==> d.value * fgen <= fclk < (d.value + 1) * fgen
  {
    if fgen == 0 then DivisionTrap
    else
      DivisionFacts(fclk, fgen);
      if fclk / fgen == 0 then TooFast else Divider(fclk / fgen)
  }

  lemma DivisionFacts(x: nat, y: nat)
    requires y > 0
    ensures (x / y) * y <= x < (x / y + 1) * y
    ensures x / y == 0 <==> x < y
  {
    assert x == (x / y) * y + x % y;
  }

  /**
   * The divider check with a requested frequency of 0 refused before the
   * division. A divider exists exactly when the clock is at least the
   * requested frequency, and it is the largest one whose generated frequency
   * `fclk / d` is not below the requested one.
   */
  function Divide(fclk: u32, fgen: u32): (d: Divider)
    ensures !d.DivisionTrap?
    ensures d.NoFrequency? <==> fgen == 0
    ensures d.TooFast? <==> fgen != 0 && fclk < fgen
    ensures d.Divider? <==> fgen != 0 && fgen <= fclk
    ensures d.Divider? ==> d.value > 0 && d.value * fgen <= fclk < (d.value + 1) * fgen
  {
    if fgen == 0 then NoFrequency else DivideAsWritten(fclk, fgen)
  }

  /** The two agree on every request the source can serve. */
  lemma DivideAgreesAsWritten(fclk: u32, fgen: u32)
    requires fgen != 0
    ensures Divide(fclk, fgen) == DivideAsWritten(fclk, fgen)
  {
  }

  /**
   * `(1 << 31) | divider`: bit 31 is set and the lower 31 bits are the
   * divider's. The divider is not masked to the 24 bits CTL reserves for it.
   */
  function CtlStart(divider: u32): (ctl: u32)
    ensures ctl >= CTL_START
    ensures ctl % CTL_START == divider % CTL_START
    ensures divider < 0x100_0000 ==> ctl == CTL_START + divider
  {
    if divider >= CTL_START then divider else CTL_START + divider
  }

  /** How far the set-up got: the label of the cleanup ladder a failure jumps to. */
  datatype Stage = NothingHeld | UirqHeld | BothHeld

  /** The cleanup ladder from a stage on: stop the generator, close `epci`, close `uirq`. */
  function Unwind(stage: Stage): seq<Event>
  {
    match stage
    case NothingHeld => []
    case UirqHeld => [Release(Uirq)]
    case BothHeld => [Write(REG_CTL, 0), Release(Epci), Release(Uirq)]
  }

  /**
   * The resources a trace still holds, most recent last; None when it
   * releases a resource that is not the most recently acquired one held.
   */
  function Held(t: seq<Event>): Option<seq<Resource>>
  {
    if t == [] then Some([]) else HeldAfter(Held(t[..|t| - 1]), t[|t| - 1])
  }

  function HeldAfter(prev: Option<seq<Resource>>, e: Event): Option<seq<Resource>>
  {
    match prev
    case None => None
    case Some(stack) =>
      match e
      case Acquire(r) => Some(stack + [r])
      case Release(r) =>
        if stack != [] && stack[|stack| - 1] == r then Some(stack[..|stack| - 1]) else None
      case _ => prev
  }

  /** The values written to CTL, in order. */
  function CtlWrites(t: seq<Event>): seq<u32>
  {
    if t == [] then [] else CtlWrites(t[..|t| - 1]) + CtlWritten(t[|t| - 1])
  }

  function CtlWritten(e: Event): seq<u32>
  {
    if e.Write? && e.offset == REG_CTL then [e.value] else []
  }

  lemma Snoc(t: seq<Event>, e: Event)
    ensures Held(t + [e]) == HeldAfter(Held(t), e)
    ensures CtlWrites(t + [e]) == CtlWrites(t) + CtlWritten(e)
  {
    assert (t + [e])[..|t|] == t;
  }

  /** Events that neither acquire nor release a resource. */
  predicate Neutral(e: Event)
  {
    !e.Acquire? && !e.Release?
  }

  lemma {:induction false} HeldIgnoresNeutral(a: seq<Event>, b: seq<Event>)
    requires forall k :: 0 <= k < |b| ==> Neutral(b[k])
    ensures Held(a + b) == Held(a)
  {
    if b != [] {
      var b' := b[..|b| - 1];
      assert a + b == (a + b') + [b[|b| - 1]];
      Snoc(a + b', b[|b| - 1]);
      HeldIgnoresNeutral(a, b');
    } else {
      assert a + b == a;
    }
  }

  lemma {:induction false} CtlWritesNone(t: seq<Event>)
    requires forall k :: 0 <= k < |t| ==> !t[k].Write?
    ensures CtlWrites(t) == []
  {
    if t != [] {
      CtlWritesNone(t[..|t| - 1]);
    }
  }

  lemma {:induction false} CtlWritesAppend(a: seq<Event>, b: seq<Event>)
    ensures CtlWrites(a + b) == CtlWrites(a) + CtlWrites(b)
  {
    if b != [] {
      var b' := b[..|b| - 1];
      assert a + b == (a + b') + [b[|b| - 1]];
      Snoc(a + b', b[|b| - 1]);
      Snoc(b', b[|b| - 1]);
      assert b' + [b[|b| - 1]] == b;
      CtlWritesAppend(a, b');
    } else {
      assert a + b == a;
    }
  }

  /** What a stage holds, in order of acquisition. */
  function HeldAt(stage: Stage): seq<Resource>
  {
    match stage
    case NothingHeld => []
    case UirqHeld => [Uirq]
    case BothHeld => [Uirq, Epci]
  }

  /**
   * The cleanup ladder releases, from any stage, exactly what that stage
   * holds, in reverse order of acquisition, and stops the generator before
   * closing the register session.
   */
  lemma UnwindReleasesInReverse(before: seq<Event>, stage: Stage)
    requires Held(before) == Some(HeldAt(stage))
    ensures Held(before + Unwind(stage)) == Some([])
    ensures CtlWrites(before + Unwind(stage)) ==
              CtlWrites(before) + (if stage.BothHeld? then [0] else [])
  {
    match stage
    case NothingHeld =>
      assert before + Unwind(stage) == before;
    case UirqHeld =>
      assert before + Unwind(stage) == before + [Release(Uirq)];
      Snoc(before, Release(Uirq));
    case BothHeld =>
      UnwindBoth(before);
  }

  lemma UnwindBoth(before: seq<Event>)
    requires Held(before) == Some([Uirq, Epci])
    ensures Held(before + Unwind(BothHeld)) == Some([])
    ensures CtlWrites(before + Unwind(BothHeld)) == CtlWrites(before) + [0]
  {
    var t1 := before + [Write(REG_CTL, 0)];
    var t2 := t1 + [Release(Epci)];
    Snoc(before, Write(REG_CTL, 0));
    Snoc(t1, Release(Epci));
    assert [Uirq, Epci][..1] == [Uirq];
    Snoc(t2, Release(Uirq));
    assert before + Unwind(BothHeld) == t2 + [Release(Uirq)];
  }

}
