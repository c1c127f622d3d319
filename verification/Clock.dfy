/** Durations from `time.h` and the throughput figures that `bm_stats.h` derives from them. */
module Clock {
  import opened Arithmetic

  const NANOS: int := 1_000_000_000

  /** A timestamp as `clock_gettime` returns it. */
  datatype Time = Time(sec: int, nsec: int)

  predicate Normal(t: Time) { 0 <= t.nsec < NANOS }

  function Nanos(t: Time): int { t.sec * NANOS + t.nsec }

  /** Division as in C: towards zero. */
  function Truncate(a: int, b: int): int
    requires b > 0
  {
    if a >= 0 then a / b else -((-a) / b)
  }

  /** `calc_spent_time`, in microseconds. */
  function SpentTime(start: Time, finish: Time): int {
    (finish.sec - start.sec) * 1_000_000 + Truncate(finish.nsec - start.nsec, 1000)
  }

  /** `calc_spent_time_nano`. */
  function SpentTimeNano(start: Time, finish: Time): int {
    (finish.sec - start.sec) * NANOS + (finish.nsec - start.nsec)
  }

  /** The two functions measure the same span, the first to less than a microsecond in either direction. */
  lemma SpentTimeIsClose(start: Time, finish: Time)
    ensures SpentTimeNano(start, finish) == Nanos(finish) - Nanos(start)
    ensures -1000 < 1000 * SpentTime(start, finish) - SpentTimeNano(start, finish) < 1000
  {
  }

  /** How far the measured microseconds are from the whole microseconds of the span. */
  function PhaseError(start: Time, finish: Time): int {
    var s, d := finish.sec - start.sec, finish.nsec - start.nsec;
    if d % 1000 == 0 then 0 else if s > 0 && d < 0 then 1 else if s < 0 && d > 0 then -1 else 0
  }

  /** The measured duration is the whole microseconds of the span, off by exactly the phase error: it is too large
      when a later second and an earlier, not whole number of microseconds are measured separately. */
  lemma SpentTimeExactly(start: Time, finish: Time)
    requires Normal(start) && Normal(finish)
    ensures SpentTime(start, finish) == Truncate(SpentTimeNano(start, finish), 1000) + PhaseError(start, finish)
    ensures var s, d := finish.sec - start.sec, finish.nsec - start.nsec;
            SpentTime(start, finish) == Truncate(SpentTimeNano(start, finish), 1000) <==>
            s == 0 || d % 1000 == 0 || (s > 0 <==> d > 0)
  {
    var s, d := finish.sec - start.sec, finish.nsec - start.nsec;
    DivMod(d, 1000);
    DivMod(-d, 1000);
    var n := SpentTimeNano(start, finish);
    DivMod(n, 1000);
    DivMod(-n, 1000);
  }

  /** So two windows of the same span get different numbers exactly when their phase errors differ, which happens. */
  lemma SpentTimeDependsOnPhase(a: Time, b: Time, c: Time, d: Time)
    requires Normal(a) && Normal(b) && Normal(c) && Normal(d) && SpentTimeNano(a, b) == SpentTimeNano(c, d)
    ensures SpentTime(a, b) - SpentTime(c, d) == PhaseError(a, b) - PhaseError(c, d)
    ensures SpentTime(Time(0, 0), Time(0, 999_999_999)) == 999_999 && SpentTime(Time(0, 1), Time(1, 0)) == 1_000_000
    ensures SpentTimeNano(Time(0, 0), Time(0, 999_999_999)) == SpentTimeNano(Time(0, 1), Time(1, 0))
  {
    SpentTimeExactly(a, b);
    SpentTimeExactly(c, d);
  }

  /** A later or equal normal timestamp in the order of its two fields. */
  lemma LaterByFields(a: Time, b: Time)
    requires Normal(a) && Normal(b)
    ensures Nanos(a) <= Nanos(b) <==> a.sec < b.sec || (a.sec == b.sec && a.nsec <= b.nsec)
  {
  }

  /** Nevertheless a window nested in another one is never measured longer. */
  lemma NestedWindows(outerStart: Time, start: Time, finish: Time, outerFinish: Time)
    requires Normal(outerStart) && Normal(start) && Normal(finish) && Normal(outerFinish)
    requires Nanos(outerStart) <= Nanos(start) <= Nanos(finish) <= Nanos(outerFinish)
    ensures 0 <= SpentTime(start, finish) <= SpentTime(outerStart, outerFinish)
  {
    LaterByFields(outerStart, start);
    LaterByFields(start, finish);
    LaterByFields(finish, outerFinish);
    var d, d' := finish.nsec - start.nsec, outerFinish.nsec - outerStart.nsec;
    var s, s' := finish.sec - start.sec, outerFinish.sec - outerStart.sec;
    assert s <= s' && s' * NANOS + d' >= s * NANOS + d;
  }

  /** Operations per unit of a duration, as `bm_print_stats` computes it. */
  function Throughput(count: nat, scale: nat, duration: nat): real
    requires duration > 0
  {
    (count * 1000 * scale) as real / duration as real
  }

  /** In its whole duration, a throughput of so many operations per scaled millisecond makes up the operations. */
  lemma ThroughputIsRate(count: nat, scale: nat, duration: nat)
    requires duration > 0
    ensures Throughput(count, scale, duration) * duration as real == 1000.0 * count as real * scale as real
  {
    assert (count * 1000 * scale) as real == 1000.0 * count as real * scale as real;
    var x, d := (count * 1000 * scale) as real, duration as real;
    assert x / d * d == x;
  }

  /** The longer duration gives the smaller throughput. */
  lemma ThroughputOrder(count: nat, scale: nat, shorter: nat, longer: nat)
    requires 0 < shorter <= longer
    ensures Throughput(count, scale, longer) <= Throughput(count, scale, shorter)
  {
    DivideBySmaller((count * 1000 * scale) as real, shorter as real, longer as real);
  }

  lemma DivideBySmaller(x: real, a: real, b: real)
    requires x >= 0.0 && 0.0 < a <= b
    ensures x / b <= x / a
  {
    var q := x / b;
    assert q * a <= q * b == x;
    assert q * a / a == q;
  }
}
