/**
 * Command-line parsing of the measurement program: `-freq <hz>` and
 * `-count <n>` pairs, numbers in decimal or `0x`-prefixed hexadecimal.
 */
module CommandLine {

  import opened Wrappers
  import opened Machine

  /** `cmdline_t`: the interrupt generation frequency and how many interrupts to take (0: no bound). */
  datatype Cmdline = Cmdline(irqFgen: u32, irqCount: u32)

  const DEFAULT_FGEN: u32 := 1000
  const DEFAULT_COUNT: u32 := 0

  /** The digit a character stands for in strtoul (letters continue after 9); 36 for none. */
  function DigitValue(c: char): nat
  {
    if '0' <= c <= '9' then c as int - '0' as int
    else if 'a' <= c <= 'z' then c as int - 'a' as int + 10
    else if 'A' <= c <= 'Z' then c as int - 'A' as int + 10
    else 36
  }

  /** The length of the leading run of digits of `base` in `s`: where strtoul stops reading. */
  function DigitRun(s: string, base: nat): (n: nat)
    ensures n <= |s|
    ensures forall k :: 0 <= k < n ==> DigitValue(s[k]) < base
    ensures n < |s| ==> DigitValue(s[n]) >= base
  {
    if s == [] || DigitValue(s[0]) >= base then 0 else 1 + DigitRun(s[1..], base)
  }

  /** The value of a digit string, most significant digit first. */
  function DigitsValue(s: string, base: nat): nat
  {
    if s == [] then 0 else DigitsValue(s[..|s| - 1], base) * base + DigitValue(s[|s| - 1])
  }

  /** `strtoul` on an `unsigned long` of 64 bits: the leading digits' value, ULONG_MAX when it overflows. */
  function Strtoul(s: string, base: nat): nat
  {
    var v := DigitsValue(s[..DigitRun(s, base)], base);
    if v > ULONG_MAX then ULONG_MAX else v
  }

  /** `get_num` reads hexadecimal only after a `0x` prefix that is followed by something. */
  predicate HexPrefixed(s: string)
  {
    |s| > 2 && s[0] == '0' && s[1] == 'x'
  }

  /** `get_num`: strtoul in the chosen base, truncated to `uint32_t`. */
  function GetNum(s: string): u32
  {
    var v := if HexPrefixed(s) then Strtoul(s[2..], 16) else Strtoul(s, 10);
    v % U32_LIMIT
  }

  function DigitChar(d: nat): (c: char)
    requires d < 16
    ensures DigitValue(c) == d
  {
    if d < 10 then ('0' as int + d) as char else ('a' as int + d - 10) as char
  }

  /** The digits of `n` in `base`, most significant first, as a reference encoder. */
  function ToDigits(n: nat, base: nat): (s: string)
    requires 2 <= base <= 16
    ensures |s| > 0
    ensures forall k :: 0 <= k < |s| ==> DigitValue(s[k]) < base
    decreases n
  {
    if n < base then [DigitChar(n)]
    else
      DivStep(n, base);
      var front := ToDigits(n / base, base);
      var last := DigitChar(n % base);
      assert forall k :: 0 <= k < |front| ==> (front + [last])[k] == front[k];
      front + [last]
  }

  lemma {:induction false} ToDigitsValue(n: nat, base: nat)
    requires 2 <= base <= 16
    ensures DigitsValue(ToDigits(n, base), base) == n
    decreases n
  {
    if n < base {
      DigitsValueSnoc([], DigitChar(n), base);
      assert [] + [DigitChar(n)] == ToDigits(n, base);
    } else {
      DivStep(n, base);
      var q, r := n / base, n % base;
      ToDigitsValue(q, base);
      DigitsValueSnoc(ToDigits(q, base), DigitChar(r), base);
    }
  }

  lemma DigitsValueSnoc(s: string, c: char, base: nat)
    ensures DigitsValue(s + [c], base) == DigitsValue(s, base) * base + DigitValue(c)
  {
    assert (s + [c])[..|s|] == s;
  }

  lemma DivStep(n: nat, base: nat)
    requires 2 <= base <= n
    ensures 0 < n / base < n && n % base < base
    ensures n == (n / base) * base + n % base
  {
  }

  lemma StrtoulOfDigits(n: nat, base: nat)
    requires 2 <= base <= 16
    ensures Strtoul(ToDigits(n, base), base) == if n > ULONG_MAX then ULONG_MAX else n
  {
    var s := ToDigits(n, base);
    assert DigitRun(s, base) == |s|;
    assert s[..|s|] == s;
    ToDigitsValue(n, base);
  }

  /** A decimal number reads back as itself, truncated to 32 bits. */
  lemma GetNumDecimal(n: nat)
    requires n <= ULONG_MAX
    ensures GetNum(ToDigits(n, 10)) == n % U32_LIMIT
  {
    var s := ToDigits(n, 10);
    assert !HexPrefixed(s) by {
      if |s| > 2 {
        assert DigitValue(s[1]) < 10;
      }
    }
    StrtoulOfDigits(n, 10);
  }

  /** A `0x`-prefixed hexadecimal number reads back as itself. */
  lemma GetNumHex(n: u32)
    ensures GetNum("0x" + ToDigits(n, 16)) == n
  {
    var s := "0x" + ToDigits(n, 16);
    assert HexPrefixed(s);
    assert s[2..] == ToDigits(n, 16);
    StrtoulOfDigits(n, 16);
  }

  /** A value that needs more than 32 bits wraps: "4294967297" reads as 1. */
  lemma GetNumTruncates()
    ensures GetNum(ToDigits(U32_LIMIT + 1, 10)) == 1
  {
    GetNumDecimal(U32_LIMIT + 1);
  }

  /** A bare "0x" has nothing after the prefix, so it is read in base 10 and stops after the 0. */
  lemma GetNumBarePrefix()
    ensures GetNum("0x") == 0
  {
    var a := "0x";
    assert !HexPrefixed(a);
    assert DigitRun(a[1..], 10) == 0;
    assert a[..1] == "0";
  }

  /** Only a lower-case `x` selects base 16: "0X1f" is read in base 10 and stops after the 0. */
  lemma GetNumUpperPrefix()
    ensures GetNum("0X1f") == 0
  {
    var b := "0X1f";
    assert !HexPrefixed(b);
    assert DigitRun(b[1..], 10) == 0;
    assert b[..1] == "0";
  }

  /** Reading stops at the first character that is not a digit; nothing reads as 0. */
  lemma GetNumStopCases()
    ensures GetNum("12abc") == 12
    ensures GetNum("") == 0
  {
    var d := "12abc";
    assert !HexPrefixed(d) && DigitRun(d, 10) == 2 && d[..2] == "12";
    assert DigitsValue("12", 10) == DigitsValue("1", 10) * 10 + 2;
  }

  predicate IsOption(a: string)
  {
    a == "-freq" || a == "-count"
  }

  /** The flag of the `k`-th pair. */
  function FlagAt(av: seq<string>, k: nat): string
    requires 2 * k < |av|
  {
    av[2 * k]
  }

  /** Arguments come in pairs and every pair starts with a known flag. */
  predicate WellFormed(av: seq<string>)
  {
    |av| % 2 == 0 && forall k :: 0 <= k < |av| / 2 ==> IsOption(FlagAt(av, k))
  }

  /** The number given with the last occurrence of `flag`, or `default`. */
  function LastValue(av: seq<string>, flag: string, default: u32): u32
    requires |av| % 2 == 0
  {
    if av == [] then default
    else if av[|av| - 2] == flag then GetNum(av[|av| - 1])
    else LastValue(av[..|av| - 2], flag, default)
  }

  /** What `get_cmdline` accepts and the configuration it builds. */
  function ParseArgs(av: seq<string>): Option<Cmdline>
  {
    if WellFormed(av) then
      Some(Cmdline(LastValue(av, "-freq", DEFAULT_FGEN), LastValue(av, "-count", DEFAULT_COUNT)))
    else None
  }

  /** A flag that never occurs keeps its default. */
  lemma {:induction false} LastValueDefault(av: seq<string>, flag: string, default: u32)
    requires |av| % 2 == 0
    requires forall k :: 0 <= k < |av| / 2 ==> FlagAt(av, k) != flag
    ensures LastValue(av, flag, default) == default
  {
    if av != [] {
      var front := av[..|av| - 2];
      assert FlagAt(av, |av| / 2 - 1) != flag;
      forall k | 0 <= k < |front| / 2
        ensures FlagAt(front, k) != flag
      {
        assert FlagAt(front, k) == FlagAt(av, k);
      }
      LastValueDefault(front, flag, default);
    }
  }

  /** Otherwise the number given with its last occurrence wins. */
  lemma {:induction false} LastValueAt(av: seq<string>, flag: string, default: u32, k: nat)
    requires |av| % 2 == 0 && k < |av| / 2
    requires FlagAt(av, k) == flag
    requires forall j :: k < j < |av| / 2 ==> FlagAt(av, j) != flag
    ensures LastValue(av, flag, default) == GetNum(av[2 * k + 1])
  {
    var m := |av| / 2 - 1;
    if k < m {
      var front := av[..|av| - 2];
      assert FlagAt(av, m) != flag;
      assert FlagAt(front, k) == FlagAt(av, k);
      forall j | k < j < |front| / 2
        ensures FlagAt(front, j) != flag
      {
        assert FlagAt(front, j) == FlagAt(av, j);
      }
      LastValueAt(front, flag, default, k);
    }
  }

  /** An odd number of arguments and an unknown flag are refused. */
  lemma ParseArgsRefuses()
    ensures ParseArgs(["-freq"]) == None
    ensures ParseArgs(["-freq", "10", "-rate", "1"]) == None
  {
    var bad := ["-freq", "10", "-rate", "1"];
    assert !IsOption(FlagAt(bad, 1));
  }

  /** No arguments give the defaults: 1000 Hz and no bound. */
  lemma ParseArgsDefaults()
    ensures ParseArgs([]) == Some(Cmdline(1000, 0))
  {
  }

  /** A repeated flag keeps its last value, here a hexadecimal one. */
  lemma ParseArgsLastWins()
    ensures ParseArgs(["-count", "7", "-count", "0x10"]) == Some(Cmdline(1000, 16))
  {
    var twice := ["-count", "7", "-count", "0x10"];
    assert FlagAt(twice, 0) == "-count" && FlagAt(twice, 1) == "-count";
    assert WellFormed(twice);
    LastValueDefault(twice, "-freq", DEFAULT_FGEN);
    LastValueAt(twice, "-count", DEFAULT_COUNT, 1);
    GetNumHex(16);
    assert ToDigits(16, 16) == "10";
  }

  /** `get_cmdline`: the configuration, or None for the `-1` return. */
  method GetCmdline(av: seq<string>) returns (cmd: Option<Cmdline>)
    ensures cmd == ParseArgs(av)
  {
    if |av| % 2 == 1 {
      return None;
    }
    var irqFgen := DEFAULT_FGEN;
    var irqCount := DEFAULT_COUNT;
    var i := 0;
    while i != |av|
      invariant 0 <= i <= |av| && i % 2 == 0
      invariant forall k :: 0 <= k < i / 2 ==> IsOption(FlagAt(av, k))
      invariant irqFgen == LastValue(av[..i], "-freq", DEFAULT_FGEN)
      invariant irqCount == LastValue(av[..i], "-count", DEFAULT_COUNT)
    {
      assert av[..i + 2][..i] == av[..i];
      if av[i] == "-freq" {
        irqFgen := GetNum(av[i + 1]);
      } else if av[i] == "-count" {
        irqCount := GetNum(av[i + 1]);
      } else {
        assert !IsOption(FlagAt(av, i / 2));
        return None;
      }
      i := i + 2;
    }
    assert av[..i] == av;
    return Some(Cmdline(irqFgen, irqCount));
  }

}
