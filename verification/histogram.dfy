/**
 * The latency histogram of `rtask_arg_t`: one `uint32_t` bucket per
 * microsecond below LAT_MAX_US, and the count of interrupts whose latency
 * fell outside it (`irq_missed`). Also the report of `main`, which lists the
 * nonzero buckets.
 */
module Histogram {

  import opened Machine

  const LAT_MAX_US: int := 1000000
  const LAT_RES_US: int := 1
  const LAT_MAX_COUNT: int := LAT_MAX_US / LAT_RES_US

  /** The buckets `lat_hist[0 .. LAT_MAX_COUNT)` and the counter `irq_missed`. */
  datatype Hist = Hist(buckets: seq<u32>, missed: nat)

  predicate Sized(h: Hist)
  {
    |h.buckets| == LAT_MAX_COUNT
  }

  /** All buckets at zero, as `main` leaves them before the measurement starts. */
  function Zeros(): (s: seq<u32>)
    ensures |s| == LAT_MAX_COUNT
  {
    seq(LAT_MAX_COUNT, _ => 0)
  }

  /** The number of samples held by the buckets. */
  function Sum(s: seq<u32>): nat
  {
    if s == [] then 0 else Sum(s[..|s| - 1]) + s[|s| - 1]
  }

  /**
   * One sample of `us` microseconds: exactly one counter moves. A latency
   * inside the histogram increments its own bucket (as a `uint32_t`), any other
   * increments `irq_missed`; no other bucket changes.
   */
  function Record(h: Hist, us: u32): (r: Hist)
    requires Sized(h)
    ensures Sized(r)
    ensures us < LAT_MAX_COUNT ==> r.buckets[us] == Inc32(h.buckets[us]) && r.missed == h.missed
    ensures us >= LAT_MAX_COUNT ==> r.buckets == h.buckets && r.missed == h.missed + 1
    ensures forall i :: 0 <= i < LAT_MAX_COUNT && i != us ==> r.buckets[i] == h.buckets[i]
  {
    if us < LAT_MAX_COUNT then h.(buckets := h.buckets[us := Inc32(h.buckets[us])])
    else h.(missed := h.missed + 1)
  }

  lemma {:induction false} SumOfZeros(n: nat)
    ensures Sum(seq(n, _ => 0)) == 0
  {
    if n > 0 {
      assert seq(n, _ => 0)[..n - 1] == seq(n - 1, _ => 0);
      SumOfZeros(n - 1);
    }
  }

  lemma {:induction false} SumUpdate(s: seq<u32>, i: nat, v: u32)
    requires i < |s|
    ensures Sum(s[i := v]) == Sum(s) - s[i] + v
  {
    if i < |s| - 1 {
      assert s[i := v][..|s| - 1] == s[..|s| - 1][i := v];
      SumUpdate(s[..|s| - 1], i, v);
    } else {
      assert s[i := v][..|s| - 1] == s[..|s| - 1];
    }
  }

  /**
   * Conservation: unless the sample's own bucket is at UINT32_MAX and wraps,
   * the sample is counted exactly once, in a bucket or in `irq_missed`.
   */
  lemma RecordConserves(h: Hist, us: u32)
    requires Sized(h)
    requires us < LAT_MAX_COUNT ==> h.buckets[us] < UINT32_MAX
    ensures Sum(Record(h, us).buckets) + Record(h, us).missed == Sum(h.buckets) + h.missed + 1
  {
    if us < LAT_MAX_COUNT {
      SumUpdate(h.buckets, us, Inc32(h.buckets[us]));
    }
  }

  /** One line of the report: a microsecond offset and its nonzero count. */
  datatype Line = Line(offset: nat, count: u32)

  /** The buckets that are nonzero, in ascending order of offset. */
  function NonZeroBuckets(s: seq<u32>): seq<Line>
  {
    if s == [] then []
    else
      var i := |s| - 1;
      NonZeroBuckets(s[..i]) + (if s[i] == 0 then [] else [Line(i * LAT_RES_US, s[i])])
  }

  /**
   * The report lists exactly the nonzero buckets, each with its own count,
   * each once and in strictly ascending order of offset.
   */
  lemma {:induction false} NonZeroBucketsSpec(s: seq<u32>)
    ensures forall k :: 0 <= k < |NonZeroBuckets(s)| ==>
              var l := NonZeroBuckets(s)[k];
              l.offset < |s| && l.count == s[l.offset] && l.count != 0
    ensures forall j, k :: 0 <= j < k < |NonZeroBuckets(s)| ==>
              NonZeroBuckets(s)[j].offset < NonZeroBuckets(s)[k].offset
    ensures forall i :: 0 <= i < |s| && s[i] != 0 ==> Line(i, s[i]) in NonZeroBuckets(s)
  {
    if s != [] {
      var i := |s| - 1;
      NonZeroBucketsSpec(s[..i]);
      var prev := NonZeroBuckets(s[..i]);
      forall j | 0 <= j < |s| && s[j] != 0
        ensures Line(j, s[j]) in NonZeroBuckets(s)
      {
        if j < i {
          assert s[..i][j] == s[j];
        }
      }
    }
  }

  /** The samples a report accounts for. */
  function LineTotal(lines: seq<Line>): nat
  {
    if lines == [] then 0 else LineTotal(lines[..|lines| - 1]) + lines[|lines| - 1].count
  }

  lemma LineTotalAppend(a: seq<Line>, b: seq<Line>)
    requires |b| <= 1
    ensures LineTotal(a + b) == LineTotal(a) + LineTotal(b)
  {
    if b != [] {
      assert (a + b)[..|a + b| - 1] == a;
      assert b[..0] == [];
    } else {
      assert a + b == a;
    }
  }

  /** Leaving out the zero buckets loses no sample: the report adds up to the buckets. */
  lemma {:induction false} ReportTotals(s: seq<u32>)
    ensures LineTotal(NonZeroBuckets(s)) == Sum(s)
  {
    if s != [] {
      var i := |s| - 1;
      ReportTotals(s[..i]);
      LineTotalAppend(NonZeroBuckets(s[..i]), if s[i] == 0 then [] else [Line(i * LAT_RES_US, s[i])]);
    }
  }

  /** Buckets that are all zero give an empty report. */
  lemma {:induction false} ReportOfZeros(n: nat)
    ensures NonZeroBuckets(seq(n, _ => 0)) == []
  {
    if n > 0 {
      assert seq(n, _ => 0)[..n - 1] == seq(n - 1, _ => 0);
      ReportOfZeros(n - 1);
    }
  }

  /** Buckets that are zero but one give a report of one line. */
  lemma {:induction false} ReportOfOne(n: nat, u: nat, v: u32)
    requires u < n && v != 0
    ensures var z: seq<u32> := seq(n, _ => 0);
            NonZeroBuckets(z[u := v]) == [Line(u * LAT_RES_US, v)]
  {
    var z: seq<u32> := seq(n, _ => 0);
    var z': seq<u32> := seq(n - 1, _ => 0);
    if u < n - 1 {
      assert z[u := v][..n - 1] == z'[u := v];
      ReportOfOne(n - 1, u, v);
    } else {
      assert z[u := v][..n - 1] == z';
      ReportOfZeros(n - 1);
    }
  }

  /** The zeroing loop of `main`, run on the freshly allocated buckets. */
  method ZeroHistogram(hist: array<u32>)
    modifies hist
    ensures hist[..] == seq(hist.Length, _ => 0)
  {
    var i := 0;
    while i != hist.Length
      invariant 0 <= i <= hist.Length
      invariant forall k :: 0 <= k < i ==> hist[k] == 0
    {
      hist[i] := 0;
      i := i + 1;
    }
  }

  /** The report loop of `main`: scans every bucket and keeps the nonzero ones. */
  method Report(hist: array<u32>) returns (lines: seq<Line>)
    ensures lines == NonZeroBuckets(hist[..])
  {
    lines := [];
    var i := 0;
    while i != hist.Length
      invariant 0 <= i <= hist.Length
      invariant lines == NonZeroBuckets(hist[..i])
    {
      assert hist[..i + 1][..i] == hist[..i];
      if hist[i] != 0 {
        lines := lines + [Line(i * LAT_RES_US, hist[i])];
      }
      i := i + 1;
    }
    assert hist[..] == hist[..hist.Length];
  }

}
