/**
 * Latency arithmetic of `rtask_main`: two 32-bit tick counters read from the
 * device (START, the tick at which the interrupt was generated, and NOW) become
 * a latency in whole microseconds.
 */
module Latency {

  import opened Machine

  /** Microseconds per second, the factor of the fixed-point conversion. */
  const US_PER_S: int := 1000000

  /** Reference: the number of ticks from `start` to `now` on a counter that wraps at 2^32. */
  function ModularDiff(start: u32, now: u32): u32
  {
    (now - start) % U32_LIMIT
  }

  /**
   * The elapsed-tick computation with its hand-written wrap-around branch.
   * Without a wrap it is the true tick difference; across a wrap it is one tick
   * short of it, because the code subtracts from UINT32_MAX instead of 2^32.
   */
  function Elapsed(start: u32, now: u32): (e: u32)
    ensures now >= start ==> e == ModularDiff(start, now)
    ensures now < start ==> e + 1 == ModularDiff(start, now)
  {
    if now < start then UINT32_MAX - start + now else now - start
  }

  /**
   * Ticks to microseconds: the product is formed in 64 bits (it cannot
   * overflow there, since elapsed < 2^32 and 10^6 < 2^20), divided by the
   * clock frequency, and the quotient is truncated to 32 bits.
   * When the quotient fits in 32 bits the result is the whole number of
   * microseconds (the floor); otherwise it differs from it by a multiple of 2^32.
   */
  function Micros(elapsed: u32, fclk: u32): (us: u32)
    requires fclk > 0
    ensures elapsed * US_PER_S / fclk < U32_LIMIT ==>
              us * fclk <= elapsed * US_PER_S < (us + 1) * fclk
    ensures us <= elapsed * US_PER_S / fclk
    ensures (elapsed * US_PER_S / fclk - us) % U32_LIMIT == 0
  {
    var wide: u64 := elapsed * US_PER_S;
    var quotient: u64 := wide / fclk;
    quotient % U32_LIMIT
  }

  /** With a device clock of at least 1 MHz the 32-bit truncation never happens. */
  lemma MicrosIsFloorForFastClock(elapsed: u32, fclk: u32)
    requires fclk >= US_PER_S
    ensures Micros(elapsed, fclk) * fclk <= elapsed * US_PER_S < (Micros(elapsed, fclk) + 1) * fclk
    ensures Micros(elapsed, fclk) <= elapsed
  {
    var p := elapsed * US_PER_S;
    assert p / fclk <= p / US_PER_S by {
      DivAntitone(p, US_PER_S, fclk);
    }
    assert p / US_PER_S == elapsed;
  }

  /** Dividing by a larger positive number gives a smaller quotient. */
  lemma DivAntitone(p: nat, a: nat, b: nat)
    requires 0 < a <= b
    ensures p / b <= p / a
  {
    var qa, qb := p / a, p / b;
    assert p == qa * a + p % a;
    assert p == qb * b + p % b;
    assert qb * a <= qb * b by { MulMonotone(a, b, qb); }
    assert qb * a < (qa + 1) * a;
    if qa + 1 <= qb {
      MulMonotone(qa + 1, qb, a);
    }
  }

  lemma MulMonotone(x: nat, y: nat, k: nat)
    requires x <= y
    ensures x * k <= y * k
  {
  }

  /**
   * With a slow device clock the truncation aliases: 4294968 ticks at 1 kHz are
   * 4294968000 microseconds, which lands on microsecond 704.
   */
  lemma MicrosTruncationAliases()
    ensures Micros(4294968, 1000) == 704
    ensures 4294968 * US_PER_S / 1000 >= US_PER_S
  {
  }

}
