/** Signal strength averaging: the energy-detect accumulator and clear-channel assessment. */
module Rssi {
  import opened Clock

  type s8 = x: int | -128 <= x < 128
  type s32 = x: int | -0x8000_0000 <= x < 0x8000_0000

  const COMPACT_AT: int := 0xfffffe
  const CCA_SPAN_US: nat := 128

  /** Division of C: truncates towards zero. */
  function TruncDiv(a: int, b: int): (q: int)
    requires b > 0
    ensures a >= 0 ==> q * b <= a < q * b + b
    ensures a <= 0 ==> q * b - b < a <= q * b
  {
    if a >= 0 then a / b else -(-a / b)
  }

  function Sum(s: seq<s8>): int {
    if s == [] then 0 else Sum(s[..|s| - 1]) + s[|s| - 1]
  }

  function Least(s: seq<s8>): (m: s8)
    requires s != []
    ensures m in s && forall i :: 0 <= i < |s| ==> m <= s[i]
  {
    var last := s[|s| - 1];
    if |s| == 1 then last else
      var m := Least(s[..|s| - 1]);
      if last < m then last else m
  }

  function Greatest(s: seq<s8>): (m: s8)
    requires s != []
    ensures m in s && forall i :: 0 <= i < |s| ==> s[i] <= m
  {
    var last := s[|s| - 1];
    if |s| == 1 then last else
      var m := Greatest(s[..|s| - 1]);
      if last > m then last else m
  }

  /** Truncation keeps a mean between integer bounds. */
  lemma MeanBetween(sum: int, cnt: int, lo: int, hi: int)
    requires cnt > 0 && lo * cnt <= sum <= hi * cnt
    ensures lo <= TruncDiv(sum, cnt) <= hi
  {
    var q := TruncDiv(sum, cnt);
    if q < lo {
      MulLess(q, lo, cnt);
      assert false;
    }
    if q > hi {
      MulLess(hi, q, cnt);
      assert false;
    }
  }

  lemma MulLess(a: int, b: int, c: int)
    requires a < b && c > 0
    ensures a * c + c <= b * c
  {
    MulLessEq(a + 1, b, c);
  }

  lemma MulLessEq(a: int, b: int, c: int)
    requires a <= b && c > 0
    ensures a * c <= b * c
  {
  }

  // ---------------------------------------------------------------- energy detect

  datatype Acc = Acc(sum: int, cnt: int)

  /** One more sample: accumulate, and fold the mean back into one sample when the count gets large. */
  function Detect(a: Acc, rssi: s8): Acc
    requires a.cnt >= 0
  {
    var sum, cnt := a.sum + rssi, a.cnt + 1;
    if cnt >= COMPACT_AT then Acc(TruncDiv(sum, cnt), 1) else Acc(sum, cnt)
  }

  function DetectAll(s: seq<s8>): (a: Acc)
    ensures a.cnt >= 0
  {
    if s == [] then Acc(0, 0) else Detect(DetectAll(s[..|s| - 1]), s[|s| - 1])
  }

  /** One sample more keeps a sum between its bounds. */
  lemma StepBetween(sum: int, cnt: nat, x: int, lo: int, lo': int, hi: int, hi': int)
    requires cnt > 0 && lo' * cnt <= sum <= hi' * cnt
    requires lo <= lo' && lo <= x <= hi && hi' <= hi
    ensures lo * (cnt + 1) <= sum + x <= hi * (cnt + 1)
  {
    MulLessEq(lo, lo', cnt);
    MulLessEq(hi', hi, cnt);
    assert lo * (cnt + 1) == lo * cnt + lo && hi * (cnt + 1) == hi * cnt + hi;
  }

  lemma PrefixBounds(s: seq<s8>)
    requires |s| > 1
    ensures Least(s) <= Least(s[..|s| - 1]) && Greatest(s[..|s| - 1]) <= Greatest(s)
    ensures Least(s) <= s[|s| - 1] <= Greatest(s)
  {
  }

  ghost predicate Between(a: Acc, lo: int, hi: int) {
    1 <= a.cnt < COMPACT_AT && lo * a.cnt <= a.sum <= hi * a.cnt
  }

  lemma DetectBetween(a: Acc, x: s8, lo: int, lo': int, hi: int, hi': int)
    requires Between(a, lo', hi') && lo <= lo' && lo <= x <= hi && hi' <= hi
    ensures Between(Detect(a, x), lo, hi)
  {
    StepBetween(a.sum, a.cnt, x, lo, lo', hi, hi');
    MeanBetween(a.sum + x, a.cnt + 1, lo, hi);
  }

  /** However long the scan, the accumulator lies between `cnt` times the least and the greatest sample. */
  lemma {:induction false} AccBetween(s: seq<s8>)
    requires s != []
    ensures Between(DetectAll(s), Least(s), Greatest(s))
  {
    var t, x := s[..|s| - 1], s[|s| - 1];
    if t == [] {
      assert DetectAll(t) == Acc(0, 0);
      assert DetectAll(s) == Acc(x, 1);
    } else {
      AccBetween(t);
      PrefixBounds(s);
      DetectBetween(DetectAll(t), x, Least(s), Least(t), Greatest(s), Greatest(t));
    }
  }

  /** Neither the stored sum nor the sum before compaction leaves 32 bits, for any stream of samples. */
  lemma AccFits(s: seq<s8>, x: s8)
    ensures var a := DetectAll(s);
            && -128 * a.cnt <= a.sum <= 127 * a.cnt && a.cnt < COMPACT_AT
            && -0x8000_0000 < a.sum + x < 0x8000_0000
  {
    if s != [] {
      AccBetween(s);
      var a := DetectAll(s);
      MulLessEq(-128, Least(s), a.cnt);
      MulLessEq(Greatest(s), 127, a.cnt);
    }
  }

  /** Below the compaction point nothing is lost: sum and count are those of the samples. */
  lemma {:induction false} ShortScanExact(s: seq<s8>)
    requires |s| < COMPACT_AT
    ensures DetectAll(s) == Acc(Sum(s), |s|)
  {
    if s != [] {
      ShortScanExact(s[..|s| - 1]);
    }
  }

  class EnergyDetect {
    var sumRssi: s32
    var cntRssi: s32
    var softRssi: s8
    ghost var samples: seq<s8>

    /** A scan is under way: the variables are the accumulation of its samples. */
    ghost predicate Scanning()
      reads this
    {
      Acc(sumRssi, cntRssi) == DetectAll(samples)
    }

    /** A scan, or no samples yet and the count at one, as before the first scan and after an empty one. */
    ghost predicate Valid()
      reads this
    {
      Scanning() || (samples == [] && sumRssi == 0 && cntRssi == 1)
    }

    constructor ()
      ensures Valid() && samples == [] && cntRssi == 1
    {
      sumRssi, cntRssi, softRssi := 0, 1, 0;
      samples := [];
    }

    method Start()
      modifies this
      ensures Scanning() && samples == [] && sumRssi == 0 && cntRssi == 0 && softRssi == -110
    {
      softRssi, sumRssi, cntRssi := -110, 0, 0;
      samples := [];
    }

    method Detect(rssi: s8)
      requires Scanning()
      modifies this
      ensures Scanning() && samples == old(samples) + [rssi]
      ensures var sum, n := old(sumRssi) as int + rssi, old(cntRssi) as int + 1;
              if n < 0xFFFFFE then sumRssi == sum && cntRssi == n
              else cntRssi == 1 && (sum >= 0 ==> sumRssi * n <= sum < sumRssi * n + n) && (sum <= 0 ==> sumRssi * n - n < sum <= sumRssi * n)
    {
      AccFits(samples, rssi);
      assert (samples + [rssi])[..|samples|] == samples;
      AccFits(samples + [rssi], 0);
      sumRssi := sumRssi + rssi;
      cntRssi := cntRssi + 1;
      if cntRssi >= COMPACT_AT {
        var mean := TruncDiv(sumRssi, cntRssi);
        sumRssi, cntRssi := mean, 1;
      }
      samples := samples + [rssi];
    }

    /** The mean of the scan: between the least and greatest sample, exact for short scans, 0 without samples. */
    method Stop() returns (mean: s8)
      requires Valid()
      modifies this`cntRssi, this`softRssi
      ensures Valid() && softRssi == mean && sumRssi == old(sumRssi)
      ensures samples != [] ==> Least(samples) <= mean <= Greatest(samples)
      ensures 0 < |samples| < COMPACT_AT ==> mean == TruncDiv(Sum(samples), |samples|)
      ensures samples == [] ==> mean == 0
      ensures old(cntRssi) > 0 ==>
                var sum, n := sumRssi as int, old(cntRssi) as int;
                (sum >= 0 ==> mean * n <= sum < mean * n + n) && (sum <= 0 ==> mean * n - n < sum <= mean * n)
    {
      if samples != [] {
        AccBetween(samples);
        MeanBetween(sumRssi, cntRssi, Least(samples), Greatest(samples));
        if |samples| < COMPACT_AT {
          ShortScanExact(samples);
        }
      }
      if cntRssi == 0 {
        cntRssi := 1;
      }
      mean := TruncDiv(sumRssi, cntRssi);
      softRssi := mean;
    }
  }

  // ---------------------------------------------------------------- clear-channel assessment

  lemma {:induction false} SumBetween(s: seq<s8>)
    requires s != []
    ensures Least(s) * |s| <= Sum(s) <= Greatest(s) * |s|
  {
    var t := s[..|s| - 1];
    if t != [] {
      SumBetween(t);
      PrefixBounds(s);
      StepBetween(Sum(t), |t|, s[|s| - 1], Least(s), Least(t), Greatest(s), Greatest(t));
    }
  }

  /** Comparing the truncated mean with a threshold, in terms of the exact sum. */
  lemma ThresholdExact(sum: int, cnt: int, thres: int)
    requires cnt > 0
    ensures thres < 0 ==> (TruncDiv(sum, cnt) > thres <==> sum > thres * cnt)
    ensures thres >= 0 ==> (TruncDiv(sum, cnt) > thres <==> sum >= (thres + 1) * cnt)
  {
    var q := TruncDiv(sum, cnt);
    if q > thres {
      MulLess(thres, q, cnt);
    } else {
      MulLessEq(q, thres, cnt);
    }
    if q > 0 {
      MulLess(0, q, cnt);
    } else if q < 0 {
      MulLess(q, 0, cnt);
    }
    assert (thres + 1) * cnt == thres * cnt + cnt;
    if thres < 0 {
      MulLess(thres, 0, cnt);
    } else {
      MulLessEq(0, thres, cnt);
    }
  }

  /** The first `n` samples the radio gives. */
  function Samples(rssi: nat -> s8, n: nat): (s: seq<s8>)
    ensures |s| == n
  {
    if n == 0 then [] else
      Samples(rssi, n - 1) + [rssi(n - 1)]
  }

  lemma SumOfOneMore(rssi: nat -> s8, n: nat)
    ensures Sum(Samples(rssi, n + 1)) == Sum(Samples(rssi, n)) + rssi(n)
  {
    assert Samples(rssi, n + 1)[..n] == Samples(rssi, n);
  }

  /**
   * `at(0)` is the time of the start reading and `at(k)` that of the k-th timeout test. The channel
   * is sampled until more than 128 microseconds have passed, and no more than 2049 times. It is
   * busy when the truncated mean is above the threshold or a transmission is under way, which
   * for a negative threshold is when the exact mean is above it.
   */
  method PerformCca(at: nat -> nat, rssi: nat -> s8, ccaThres: s8, txBusy: bool) returns (busy: bool, ghost n: nat, mean: s8)
    requires Ticking(at, WRAP - CCA_SPAN_US * TICKS_PER_US)
    ensures 1 <= n <= CCA_SPAN_US * TICKS_PER_US + 1
    ensures AllWithin(at, CCA_SPAN_US, n - 1) && at(n) - at(0) > CCA_SPAN_US * TICKS_PER_US
    ensures mean == TruncDiv(Sum(Samples(rssi, n)), n)
    ensures Least(Samples(rssi, n)) <= mean <= Greatest(Samples(rssi, n))
    ensures busy <==> mean > ccaThres || txBusy
    ensures ccaThres < 0 ==> (busy <==> Sum(Samples(rssi, n)) > ccaThres * n || txBusy)
  {
    var t1 := ClockTime(at(0));
    var rssiSum: int := rssi(0);
    var cnt: nat := 1;
    SumOfOneMore(rssi, 0);
    PollIsExact(at, CCA_SPAN_US, 1);
    while !ClockTimeExceed(ClockTime(at(cnt)), t1, CCA_SPAN_US)
      invariant 1 <= cnt <= CCA_SPAN_US * TICKS_PER_US + 1
      invariant AllWithin(at, CCA_SPAN_US, cnt - 1)
      invariant rssiSum == Sum(Samples(rssi, cnt))
      decreases CCA_SPAN_US * TICKS_PER_US + 1 - cnt
    {
      PollIsExact(at, CCA_SPAN_US, cnt);
      SumOfOneMore(rssi, cnt);
      var rssiCur := rssi(cnt);
      rssiSum := rssiSum + rssiCur;
      cnt := cnt + 1;
    }
    PollIsExact(at, CCA_SPAN_US, cnt);
    n := cnt;
    Assess(Samples(rssi, n), ccaThres);
    mean := TruncDiv(rssiSum, cnt);
    busy := mean > ccaThres || txBusy;
  }

  /** What the truncated mean of some samples says. */
  lemma Assess(s: seq<s8>, thres: s8)
    requires s != []
    ensures var mean := TruncDiv(Sum(s), |s|);
            && Least(s) <= mean <= Greatest(s)
            && (thres < 0 ==> (mean > thres <==> Sum(s) > thres * |s|))
  {
    SumBetween(s);
    MeanBetween(Sum(s), |s|, Least(s), Greatest(s));
    ThresholdExact(Sum(s), |s|, thres);
  }
}
