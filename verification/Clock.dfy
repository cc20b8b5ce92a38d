/** The free-running 32-bit system tick, 16 ticks to the microsecond, and timeouts measured on it. */
module Clock {

  const WRAP: nat := 0x1_0000_0000
  const TICKS_PER_US: nat := 16

  type tick = x: int | 0 <= x < WRAP

  /** What the tick register reads at absolute time `t`. */
  function ClockTime(t: nat): tick {
    t % WRAP
  }

  /** Unsigned 32-bit difference of two readings. */
  function Elapsed(now: tick, ref: tick): tick {
    (now - ref) % WRAP
  }

  function ClockTimeExceed(now: tick, ref: tick, us: tick): bool {
    Elapsed(now, ref) > us * TICKS_PER_US % WRAP
  }

  /** The difference of two readings is the true distance, modulo the wrap. */
  lemma ElapsedIsTrue(start: nat, t: nat)
    requires start <= t
    ensures Elapsed(ClockTime(t), ClockTime(start)) == (t - start) % WRAP
    ensures t - start < WRAP ==> Elapsed(ClockTime(t), ClockTime(start)) == t - start
  {
  }

  /**
   * For spans that fit the multiplication, the test answers "more than `us` microseconds have
   * passed" correctly except when whole wraps were missed and the remainder is within the span.
   */
  lemma ExceedExact(start: nat, t: nat, us: nat)
    requires start <= t && us * TICKS_PER_US < WRAP
    ensures var passed := t - start;
            (ClockTimeExceed(ClockTime(t), ClockTime(start), us) <==> passed > us * TICKS_PER_US)
            <==> !(passed >= WRAP && passed % WRAP <= us * TICKS_PER_US)
  {
    ElapsedIsTrue(start, t);
  }

  /**
   * The timeout test is right at every moment of the first wrap exactly for spans below 2^28
   * microseconds: from there on the tick count of the span itself wraps.
   */
  lemma SpanExact(us: tick)
    ensures (forall start: nat, t: nat :: start <= t < start + WRAP ==>
               (ClockTimeExceed(ClockTime(t), ClockTime(start), us) <==> t - start > us * TICKS_PER_US))
       <==> us < 0x1000_0000
  {
    if us < 0x1000_0000 {
      forall start: nat, t: nat | start <= t < start + WRAP
        ensures ClockTimeExceed(ClockTime(t), ClockTime(start), us) <==> t - start > us * TICKS_PER_US
      {
        ExceedExact(start, t, us);
      }
    } else {
      var late := us * TICKS_PER_US % WRAP + 1;
      assert late <= WRAP - TICKS_PER_US + 1 by {
        SpanRemainder(us);
      }
      ElapsedIsTrue(0, late);
      assert ClockTimeExceed(ClockTime(late), ClockTime(0), us) && !(late - 0 > us * TICKS_PER_US);
    }
  }

  /** Tick counts are multiples of 16, wrapped or not. */
  lemma SpanRemainder(us: nat)
    ensures us * TICKS_PER_US % WRAP <= WRAP - TICKS_PER_US
  {
    var q, r := us / 0x1000_0000, us % 0x1000_0000;
    assert us == q * 0x1000_0000 + r;
    assert us * TICKS_PER_US == q * WRAP + r * TICKS_PER_US;
  }

  // ---------------------------------------------------------------- polling

  /** `at(k)` is the time of reading `k`: readings move forward, by less than `gap` ticks at a time. */
  ghost predicate Ticking(at: nat -> nat, gap: nat) {
    forall k: nat :: Forward(at, k, gap)
  }

  ghost predicate Forward(at: nat -> nat, k: nat, gap: nat) {
    at(k) < at(k + 1) < at(k) + gap
  }

  /** Every reading is at least as many ticks late as its number. */
  lemma {:induction false} ReadingsAdvance(at: nat -> nat, gap: nat, k: nat)
    requires Ticking(at, gap)
    ensures at(k) >= at(0) + k
  {
    if k > 0 {
      ReadingsAdvance(at, gap, k - 1);
      assert Forward(at, k - 1, gap);
    }
  }

  /** Readings 1 to `n` all came within `us` microseconds of reading 0. */
  ghost predicate AllWithin(at: nat -> nat, us: nat, n: nat) {
    forall k :: 1 <= k <= n ==> at(k) - at(0) <= us * TICKS_PER_US
  }

  /**
   * A polling loop that has not timed out before reading `k` sees the truth at reading `k`,
   * and has taken no more readings than there are ticks in its span.
   */
  lemma PollIsExact(at: nat -> nat, us: nat, k: nat)
    requires 1 <= k && us * TICKS_PER_US < WRAP && Ticking(at, WRAP - us * TICKS_PER_US)
    requires AllWithin(at, us, k - 1)
    ensures at(0) <= at(k)
    ensures ClockTimeExceed(ClockTime(at(k)), ClockTime(at(0)), us) <==> at(k) - at(0) > us * TICKS_PER_US
    ensures at(k) - at(0) <= us * TICKS_PER_US ==> k <= us * TICKS_PER_US
  {
    var gap := WRAP - us * TICKS_PER_US;
    ReadingsAdvance(at, gap, k);
    assert Forward(at, k - 1, gap);
    assert at(k - 1) - at(0) <= us * TICKS_PER_US;
    ExceedExact(at(0), at(k), us);
  }

  // ---------------------------------------------------------------- turnaround

  /** Microseconds to wait before transmitting, `now` being the reading when the frame is ready. */
  function TurnaroundWait(now: tick, switched: tick, turnArnd: nat, ticksPerUs: nat): (wait: nat)
    requires ticksPerUs > 0
    ensures wait <= turnArnd
  {
    var delay := Elapsed(now, switched) / ticksPerUs;
    if delay < turnArnd then turnArnd - delay else 0
  }

  /**
   * Wherever the tick stands at the switch to TX and however late the frame is ready, waiting that
   * long makes the whole turnaround at least `turnArnd` microseconds. When no wrap was missed
   * it costs less than one microsecond more than needed.
   */
  lemma TurnaroundKept(switched: nat, ready: nat, turnArnd: nat, ticksPerUs: nat)
    requires switched <= ready && ticksPerUs > 0
    ensures var wait := TurnaroundWait(ClockTime(ready), ClockTime(switched), turnArnd, ticksPerUs);
            var start := ready + wait * ticksPerUs;
            && start >= switched + turnArnd * ticksPerUs
            && (ready - switched < WRAP ==> start == ready || start < switched + (turnArnd + 1) * ticksPerUs)
  {
    ElapsedIsTrue(switched, ready);
    var e := Elapsed(ClockTime(ready), ClockTime(switched));
    assert e <= ready - switched;
    var delay := e / ticksPerUs;
    DivBounds(e, ticksPerUs);
    if delay < turnArnd {
      assert (turnArnd - delay) * ticksPerUs == turnArnd * ticksPerUs - delay * ticksPerUs;
      assert (turnArnd + 1) * ticksPerUs == turnArnd * ticksPerUs + ticksPerUs;
    } else {
      MulMono(turnArnd, delay, ticksPerUs);
    }
  }

  lemma DivBounds(x: nat, d: nat)
    requires d > 0
    ensures x / d * d <= x < x / d * d + d
  {
  }

  lemma MulMono(a: nat, b: nat, c: nat)
    requires a <= b
    ensures a * c <= b * c
  {
  }
}
