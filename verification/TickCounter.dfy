/** The millisecond counter over the performance counter of Windows. */
module TickCounter {
  import opened Wrappers

  const MICROSECONDS := 1_000_000
  const INT64_LIMIT := 0x8000_0000_0000_0000
  const UINT64_MODULUS := 0x1_0000_0000_0000_0000

  /** The value of a 64-bit signed result. */
  function Wrap(x: int): (r: int)
    ensures -INT64_LIMIT <= r < INT64_LIMIT
    ensures -INT64_LIMIT <= x < INT64_LIMIT ==> r == x
    ensures (x - r) % UINT64_MODULUS == 0
  {
    var m := x % UINT64_MODULUS;
    assert x - m == UINT64_MODULUS * (x / UINT64_MODULUS);
    if m < INT64_LIMIT then m
    else
      assert x - (m - UINT64_MODULUS) == UINT64_MODULUS * (x / UINT64_MODULUS + 1);
      m - UINT64_MODULUS
  }

  /** Division in C truncates. */
  function Quotient(x: int, y: int): int
    requires y > 0
  {
    if x >= 0 then x / y else -(-x / y)
  }

  function Remainder(x: int, y: int): int
    requires y > 0
  {
    x - y * Quotient(x, y)
  }

  /** The raw counter up to which time is accounted for, and the microseconds accumulated; the code calls the latter
      `current_ms`. */
  datatype Ticks = Ticks(last: int, accumulated: nat)

  /** `tickcounter_get_current_ms` at raw counter `raw`, for frequency `f`. */
  function Read(s: Ticks, raw: int, f: int): Ticks
    requires f > 0
  {
    var scaled := Wrap(Wrap(raw - s.last) * MICROSECONDS);
    var remainder := Quotient(Remainder(scaled, f), MICROSECONDS);
    Ticks(Wrap(raw - remainder), (s.accumulated + Quotient(scaled, f)) % UINT64_MODULUS)
  }

  function Milliseconds(s: Ticks): nat {
    s.accumulated / 1000
  }

  /** The states after reads at the given raw counters. */
  function ReadAll(s: Ticks, raws: seq<int>, f: int): Ticks
    requires f > 0
  {
    if raws == [] then s else Read(ReadAll(s, raws[..|raws| - 1], f), raws[|raws| - 1], f)
  }

  /** The time accounted for by the accumulated microseconds and the ticks since `last` falls short of the `elapsed`
      ticks by what `n` roundings can lose.  Times are in millionths of a tick, multiplied by the frequency. */
  predicate Drift(s: Ticks, raw: int, elapsed: nat, f: int, n: nat) {
    var ticksLeft := MICROSECONDS * (raw - s.last);
    var lost := MICROSECONDS * elapsed - f * s.accumulated - ticksLeft;
    && 0 <= ticksLeft < f
    && 0 <= lost <= n * (MICROSECONDS - 1)
  }

  /** The bound a user sees. */
  predicate Bounded(s: Ticks, elapsed: nat, f: int, n: nat) {
    0 <= MICROSECONDS * elapsed - f * s.accumulated < f + n * MICROSECONDS
  }

  lemma DriftIsBounded(s: Ticks, raw: int, elapsed: nat, f: int, n: nat)
    requires Drift(s, raw, elapsed, f, n)
    ensures Bounded(s, elapsed, f, n)
  {
    assert n * MICROSECONDS == n * (MICROSECONDS - 1) + n;
  }

  lemma DivMod(x: int, y: int)
    requires y > 0 && x >= 0
    ensures x == y * (x / y) + x % y && 0 <= x % y < y && 0 <= x / y
  {
  }

  /** One read without overflow, in exact arithmetic. */
  lemma ReadIsExact(s: Ticks, raw: int, f: int, q: nat, r: nat)
    requires 0 < f && s.last <= raw < INT64_LIMIT && (raw - s.last) * MICROSECONDS < INT64_LIMIT
    requires -INT64_LIMIT <= raw - f
    requires q == (raw - s.last) * MICROSECONDS / f && r == (raw - s.last) * MICROSECONDS % f
    requires s.accumulated + q < UINT64_MODULUS
    ensures Read(s, raw, f) == Ticks(raw - r / MICROSECONDS, s.accumulated + q)
  {
    var scaled := (raw - s.last) * MICROSECONDS;
    DivMod(scaled, f);
    DivMod(r, MICROSECONDS);
    assert Wrap(raw - s.last) == raw - s.last && Wrap(scaled) == scaled;
    assert Remainder(scaled, f) == r;
  }

  /** One read, when neither the scaled difference nor the accumulated time overflows. */
  lemma ReadKeepsDrift(s: Ticks, before: int, raw: int, elapsed: nat, f: int, n: nat)
    requires 0 < f < INT64_LIMIT && 0 <= before <= raw < INT64_LIMIT && Drift(s, before, elapsed, f, n)
    requires (raw - s.last) * MICROSECONDS < INT64_LIMIT
    requires MICROSECONDS * (elapsed + (raw - before)) < f * UINT64_MODULUS
    ensures var t := Read(s, raw, f);
            && Drift(t, raw, elapsed + (raw - before), f, n + 1)
            && s.accumulated <= t.accumulated
  {
    hide Read;
    var scaled := (raw - s.last) * MICROSECONDS;
    DivMod(scaled, f);
    var q, r := scaled / f, scaled % f;
    DivMod(r, MICROSECONDS);
    var total := s.accumulated + q;
    assert f * total == f * s.accumulated + f * q;
    var lost := MICROSECONDS * elapsed - f * s.accumulated - MICROSECONDS * (before - s.last);
    assert MICROSECONDS * (elapsed + (raw - before)) - f * total == lost + r;
    Fits(f, total, UINT64_MODULUS, MICROSECONDS * (elapsed + (raw - before)));
    ReadIsExact(s, raw, f, q, r);
  }

  lemma Fits(f: int, total: int, limit: int, bound: int)
    requires f > 0 && f * total <= bound < f * limit
    ensures total < limit
  {
    assert f * (total - limit) == f * total - f * limit;
    assert total >= limit ==> f * (total - limit) >= 0;
  }

  function Latest(start: int, raws: seq<int>): int {
    if raws == [] then start else raws[|raws| - 1]
  }

  /** The raw counters read never run backwards, and neither the time between two reads nor the whole time is more
      than 64 bits can hold of it. */
  predicate Readable(start: int, raws: seq<int>, f: int) {
    if raws == [] then true
    else
      var earlier, raw := raws[..|raws| - 1], raws[|raws| - 1];
      && Readable(start, earlier, f)
      && Latest(start, earlier) <= raw < INT64_LIMIT
      && (raw - Latest(start, earlier)) * MICROSECONDS + f <= INT64_LIMIT
      && MICROSECONDS * (raw - start) < f * UINT64_MODULUS
  }

  lemma NoDrift(start: int, f: int)
    requires f > 0
    ensures Drift(Ticks(start, 0), start, 0, f, 0)
  {
  }

  lemma NextRead(s: Ticks, before: int, raw: int, elapsed: nat, f: int, n: nat)
    requires 0 < f < INT64_LIMIT && 0 <= before <= raw < INT64_LIMIT && Drift(s, before, elapsed, f, n)
    requires (raw - before) * MICROSECONDS + f <= INT64_LIMIT
    requires MICROSECONDS * (elapsed + (raw - before)) < f * UINT64_MODULUS
    ensures var t := Read(s, raw, f);
            && Drift(t, raw, elapsed + (raw - before), f, n + 1)
            && Milliseconds(s) <= Milliseconds(t)
  {
    hide Read;
    ReadKeepsDrift(s, before, raw, elapsed, f, n);
  }

  /** After any number of reads since the counter was created, its drift is bounded: it never runs ahead, and it lags
      by less than a microsecond and a tick for each read. */
  lemma {:induction false} DriftBound(start: int, raws: seq<int>, f: int)
    requires 0 < f < INT64_LIMIT && 0 <= start < INT64_LIMIT && Readable(start, raws, f)
    ensures start <= Latest(start, raws) < INT64_LIMIT
    ensures Drift(ReadAll(Ticks(start, 0), raws, f), Latest(start, raws), Latest(start, raws) - start, f, |raws|)
    ensures Bounded(ReadAll(Ticks(start, 0), raws, f), Latest(start, raws) - start, f, |raws|)
    decreases |raws|
  {
    hide Read, Drift, Bounded;
    var s := ReadAll(Ticks(start, 0), raws, f);
    if raws == [] {
      NoDrift(start, f);
    } else {
      var earlier := raws[..|raws| - 1];
      DriftBound(start, earlier, f);
      NextRead(ReadAll(Ticks(start, 0), earlier, f), Latest(start, earlier), Latest(start, raws), Latest(start,
          earlier) - start, f, |earlier|);
    }
    DriftIsBounded(s, Latest(start, raws), Latest(start, raws) - start, f, |raws|);
  }

  /** The milliseconds reported never decrease. */
  lemma {:induction false} NeverDecreases(start: int, raws: seq<int>, f: int, k: nat)
    requires 0 < f < INT64_LIMIT && 0 <= start < INT64_LIMIT && Readable(start, raws, f) && k <= |raws|
    ensures Milliseconds(ReadAll(Ticks(start, 0), raws[..k], f)) <= Milliseconds(ReadAll(Ticks(start, 0), raws, f))
    decreases |raws| - k
  {
    hide Read, Drift, Bounded;
    if k == |raws| {
      assert raws[..k] == raws;
    } else {
      var earlier := raws[..|raws| - 1];
      DriftBound(start, earlier, f);
      NextRead(ReadAll(Ticks(start, 0), earlier, f), Latest(start, earlier), Latest(start, raws), Latest(start,
          earlier) - start, f, |earlier|);
      assert earlier[..k] == raws[..k];
      NeverDecreases(start, earlier, f, k);
    }
  }

  /** The scaled difference, which may overflow twice. */
  lemma WrapScaled(d: int) returns (k: int)
    ensures d * MICROSECONDS == Wrap(Wrap(d) * MICROSECONDS) + UINT64_MODULUS * k
  {
    hide Wrap;
    var k1 := WrapLoses(d);
    var k2 := WrapLoses(Wrap(d) * MICROSECONDS);
    k := k1 * MICROSECONDS + k2;
  }

  lemma WrapLoses(x: int) returns (k: int)
    ensures x == Wrap(x) + UINT64_MODULUS * k
  {
    k := x / UINT64_MODULUS + if x % UINT64_MODULUS < INT64_LIMIT then 0 else 1;
  }

  lemma Truncates(x: int, f: int)
    requires f > 0
    ensures x == f * Quotient(x, f) + Remainder(x, f) && -f < Remainder(x, f) < f
    ensures x >= 0 ==> 0 <= Quotient(x, f) <= x
    ensures x < 0 ==> x <= Quotient(x, f) <= 0
  {
    var m := if x >= 0 then x else -x;
    DivMod(m, f);
    Smaller(m / f, f);
    Opposite(m / f, f);
  }

  lemma Smaller(q: int, f: int)
    requires q >= 0 && f > 0
    ensures q <= f * q
  {
    assert f * q == q + (f - 1) * q;
    assert (f - 1) * q >= 0;
  }

  lemma Opposite(q: int, f: int)
    ensures f * (-q) == -(f * q)
  {
  }

  /** The accumulated time after adding `q`, modulo 2^64: it is off by a whole range at most once, up or down. */
  lemma Accumulates(total: int)
    requires -UINT64_MODULUS <= total < 2 * UINT64_MODULUS
    ensures total % UINT64_MODULUS == if total < 0 then total + UINT64_MODULUS
        else if total < UINT64_MODULUS then total else total - UINT64_MODULUS
  {
  }

  /** The difference in millionths of a tick, as the code computes it, and how many 64-bit ranges it lost. */
  function Scaled(s: Ticks, raw: int): int {
    Wrap(Wrap(raw - s.last) * MICROSECONDS)
  }

  function LostRanges(s: Ticks, raw: int): int {
    ((raw - s.last) * MICROSECONDS - Scaled(s, raw)) / UINT64_MODULUS
  }

  /** How many 64-bit ranges the accumulated time loses when the read adds to it: -1, 0 or 1. */
  function LostTime(s: Ticks, raw: int, f: int): int
    requires f > 0
  {
    (s.accumulated + Quotient(Scaled(s, raw), f)) / UINT64_MODULUS
  }

  /** What the roundings of earlier reads have lost. */
  function LostBefore(s: Ticks, before: int, elapsed: nat, f: int): int {
    MICROSECONDS * elapsed - f * s.accumulated - MICROSECONDS * (before - s.last)
  }

  lemma Spread(f: int, a: int, b: int)
    ensures f * (a + b) == f * a + f * b
  {
  }

  /** A multiple of the 64-bit range in the drift is too much, or too little, for the bound. */
  lemma WholeRangesShow(f: int, n: nat, ranges: int, part: int, drift: int)
    requires 0 < f && f + (n + 1) * MICROSECONDS <= INT64_LIMIT && -f < part < f + n * MICROSECONDS
    requires drift == part + UINT64_MODULUS * ranges
    ensures 0 <= drift < f + (n + 1) * MICROSECONDS <==> ranges == 0 && part >= 0
  {
  }

  /** The bound after a read, exactly: it is kept when the ranges lost by the scaled difference and by the accumulated
      time cancel.  Nothing is lost when the scaled difference fits; for frequencies above a million nothing else
      cancels, for lower ones it may. */
  lemma BoundedExactly(s: Ticks, before: int, raw: int, elapsed: nat, f: int, n: nat)
    requires 0 < f < INT64_LIMIT && 0 <= before <= raw < INT64_LIMIT && Drift(s, before, elapsed, f, n)
    requires f + (n + 1) * MICROSECONDS <= INT64_LIMIT && s.accumulated < UINT64_MODULUS
    ensures Bounded(Read(s, raw, f), elapsed + (raw - before), f, n + 1) <==>
            && LostRanges(s, raw) + f * LostTime(s, raw, f) == 0
            && Remainder(Scaled(s, raw), f) + LostBefore(s, before, elapsed, f) >= 0
  {
    hide Wrap, Quotient, Remainder;
    var scaled, k := Scaled(s, raw), LostRanges(s, raw);
    LostRangesAre(s, raw);
    Truncates(scaled, f);
    var q, r := Quotient(scaled, f), Remainder(scaled, f);
    var total := s.accumulated + q;
    var j := LostTime(s, raw, f);
    DivMod64(total);
    var lost := LostBefore(s, before, elapsed, f);
    Spread(f, s.accumulated, q);
    TimesRange(f, total, j);
    assert n * MICROSECONDS == n * (MICROSECONDS - 1) + n;
    WholeRangesShow(f, n, k + f * j, r + lost,
                    MICROSECONDS * (elapsed + (raw - before)) - f * (total % UINT64_MODULUS));
  }

  lemma LostRangesAre(s: Ticks, raw: int)
    ensures (raw - s.last) * MICROSECONDS == Scaled(s, raw) + UINT64_MODULUS * LostRanges(s, raw)
  {
    hide Wrap;
    var k := WrapScaled(raw - s.last);
    WholeRanges((raw - s.last) * MICROSECONDS - Scaled(s, raw), k);
  }

  lemma WholeRanges(x: int, k: int)
    requires x == UINT64_MODULUS * k
    ensures x / UINT64_MODULUS == k
  {
  }

  lemma DivMod64(x: int)
    ensures x == UINT64_MODULUS * (x / UINT64_MODULUS) + x % UINT64_MODULUS
  {
  }

  lemma TimesRange(f: int, total: int, j: int)
    requires total == UINT64_MODULUS * j + total % UINT64_MODULUS
    ensures f * total == UINT64_MODULUS * (f * j) + f * (total % UINT64_MODULUS)
  {
    Spread(f, UINT64_MODULUS * j, total % UINT64_MODULUS);
  }

  /** For a frequency above a million exactly the reads whose scaled difference fits 64 bits keep the bound.  For one
      of a million or less that half fails: see LowFrequencyCancels. */
  lemma BoundedExactlyWithoutOverflow(s: Ticks, before: int, raw: int, elapsed: nat, f: int, n: nat)
    requires MICROSECONDS < f < INT64_LIMIT && elapsed <= before <= raw < INT64_LIMIT && Drift(s, before, elapsed, f, n)
    requires f + (n + 1) * MICROSECONDS <= INT64_LIMIT && s.accumulated < UINT64_MODULUS
    ensures Bounded(Read(s, raw, f), elapsed + (raw - before), f, n + 1) <==>
            (raw - s.last) * MICROSECONDS < INT64_LIMIT
  {
    hide Read, Drift, Bounded;
    if (raw - s.last) * MICROSECONDS < INT64_LIMIT {
      ReadKeepsDrift(s, before, raw, elapsed, f, n);
      DriftIsBounded(Read(s, raw, f), raw, elapsed + (raw - before), f, n + 1);
    } else {
      BoundedExactly(s, before, raw, elapsed, f, n);
      OverflowDoesNotCancel(s, before, raw, elapsed, f, n);
    }
  }

  lemma OverflowDoesNotCancel(s: Ticks, before: int, raw: int, elapsed: nat, f: int, n: nat)
    requires MICROSECONDS < f < INT64_LIMIT && 0 <= before <= raw < INT64_LIMIT && Drift(s, before, elapsed, f, n)
    requires s.accumulated < UINT64_MODULUS && (raw - s.last) * MICROSECONDS >= INT64_LIMIT
    ensures LostRanges(s, raw) + f * LostTime(s, raw, f) != 0
  {
    hide Wrap, Quotient, Remainder;
    LostRangesAre(s, raw);
    Truncates(Scaled(s, raw), f);
    Accumulates(s.accumulated + Quotient(Scaled(s, raw), f));
    var k, j := LostRanges(s, raw), LostTime(s, raw, f);
    assert 1 <= k < MICROSECONDS;
    assert -1 <= j <= 1;
    assert f * j == (if j == 0 then 0 else if j == 1 then f else -f);
  }

  /** At ten million ticks a second, ten million million ticks between two reads (eleven and a half days) overflow. */
  lemma OverflowExample()
    ensures !Bounded(Read(Ticks(0, 0), 10_000_000_000_000, 10_000_000), 10_000_000_000_000, 10_000_000, 1)
  {
    BoundedExactlyWithoutOverflow(Ticks(0, 0), 0, 10_000_000_000_000, 0, 10_000_000, 0);
  }

  /** At one tick a second the same overflow is given back by that of the accumulated time. */
  lemma LowFrequencyCancels()
    ensures 10_000_000_000_000 * MICROSECONDS >= INT64_LIMIT
    ensures Bounded(Read(Ticks(0, 0), 10_000_000_000_000, 1), 10_000_000_000_000, 1, 1)
  {
    var scaled := 10_000_000_000_000 * MICROSECONDS - UINT64_MODULUS;
    assert Wrap(10_000_000_000_000) == 10_000_000_000_000;
    assert Wrap(10_000_000_000_000 * MICROSECONDS) == scaled;
    assert Quotient(scaled, 1) == scaled;
    assert Read(Ticks(0, 0), 10_000_000_000_000, 1).accumulated == 10_000_000_000_000 * MICROSECONDS;
  }

  /** A counter.  Without a performance counter it counts the seconds since `backupTimeValue`; None stands for the
      invalid time. */
  class TickCounterInstance {
    var perfFrequency: int
    var lastPerfCounter: int
    var backupTimeValue: Option<int>
    var currentMs: nat

    ghost function View(): Ticks
      reads this
    {
      Ticks(lastPerfCounter, currentMs)
    }

    constructor (frequency: int, raw: int, backupTime: Option<int>)
      ensures perfFrequency == frequency && View() == Ticks(raw, 0) && backupTimeValue == backupTime
    {
      perfFrequency, lastPerfCounter, backupTimeValue, currentMs := frequency, raw, backupTime, 0;
    }

    /** `tickcounter_get_current_ms`; `raw` and `time` are the answers of `QueryPerformanceCounter` and `time`, either
        of which may fail.  (In C the conversion of a negative time is undefined; here it wraps.) */
    method GetCurrentMs(raw: Option<int>, time: Option<int>) returns (ms: Option<nat>)
      requires backupTimeValue == None ==> perfFrequency > 0
      modifies this
      ensures perfFrequency == old(perfFrequency) && backupTimeValue == old(backupTimeValue)
      ensures ms == None <==> if old(backupTimeValue) == None then raw == None else time == None
      ensures ms == None ==> View() == old(View())
      ensures ms.Some? && old(backupTimeValue) == None ==>
                View() == Read(old(View()), raw.value, perfFrequency) && ms == Some(Milliseconds(View()))
      ensures ms.Some? && old(backupTimeValue).Some? ==>
                var passed := (time.value - old(backupTimeValue).value) * 1000;
                0 <= passed < UINT64_MODULUS ==> ms == Some(passed)
    {
      if backupTimeValue == None {
        if raw == None {
          return None;
        }
        var perfInMs := Wrap(Wrap(raw.value - lastPerfCounter) * MICROSECONDS);
        var remainder := Quotient(Remainder(perfInMs, perfFrequency), MICROSECONDS);
        perfInMs := Quotient(perfInMs, perfFrequency);
        currentMs := (currentMs + perfInMs) % UINT64_MODULUS;
        lastPerfCounter := Wrap(raw.value - remainder);
        return Some(currentMs / 1000);
      }
      if time == None {
        return None;
      }
      currentMs := (time.value - backupTimeValue.value) * 1000 % UINT64_MODULUS;
      return Some(currentMs);
    }
  }

  /** `tickcounter_create`: `frequency`, `raw` and `time` are the answers of `QueryPerformanceFrequency`,
      `QueryPerformanceCounter` and `time`. */
  method TickCounterCreate(frequency: Option<int>, raw: Option<int>, time: Option<int>)
      returns (counter: TickCounterInstance?)
    ensures counter == null <==> if frequency == None then time == None else raw == None
    ensures counter != null ==> fresh(counter) && counter.currentMs == 0
    ensures counter != null && frequency.Some? ==>
              && counter.perfFrequency == frequency.value && counter.backupTimeValue == None
              && counter.View() == Ticks(raw.value, 0)
    ensures counter != null && frequency.Some? && frequency.value > 0 ==>
              Drift(counter.View(), raw.value, 0, frequency.value, 0)
    ensures counter != null && frequency == None ==> counter.backupTimeValue == time
  {
    counter := null;
    if frequency == None {
      if time.Some? {
        counter := new TickCounterInstance(0, 0, time);
      }
    } else if raw.Some? {
      counter := new TickCounterInstance(frequency.value, raw.value, None);
    }
  }

  /** A new counter, read at the given raw counters. */
  method Report(start: int, raws: seq<int>, f: int) returns (reported: seq<nat>)
    requires f > 0
    ensures |reported| == |raws|
    ensures forall i :: 0 <= i < |raws| ==> reported[i] == Milliseconds(ReadAll(Ticks(start, 0), raws[..i + 1], f))
  {
    hide Read, Drift, Milliseconds;
    var counter := TickCounterCreate(Some(f), Some(start), None);
    reported := [];
    assert raws[..0] == [];
    while |reported| < |raws|
      invariant |reported| <= |raws| && counter != null && fresh(counter)
      invariant counter.perfFrequency == f && counter.backupTimeValue == None
      invariant counter.View() == ReadAll(Ticks(start, 0), raws[..|reported|], f)
      invariant forall i :: 0 <= i < |reported| ==>
                  reported[i] == Milliseconds(ReadAll(Ticks(start, 0), raws[..i + 1], f))
    {
      var n := |reported|;
      assert raws[..n + 1][..n] == raws[..n];
      var ms := counter.GetCurrentMs(Some(raws[n]), None);
      reported := reported + [ms.value];
    }
  }

  /** Any run of reads of a new counter: what is reported never runs ahead of the raw counter, lags by a bounded time,
      and never decreases. */
  method Run(start: int, raws: seq<int>, f: int) returns (reported: seq<nat>)
    requires 0 < f < INT64_LIMIT && 0 <= start < INT64_LIMIT && Readable(start, raws, f)
    ensures |reported| == |raws|
    ensures forall i :: 0 <= i < |raws| ==>
              && start <= raws[i]
              && f * (reported[i] * 1000) <= MICROSECONDS * (raws[i] - start)
              && MICROSECONDS * (raws[i] - start) < f * (reported[i] * 1000 + 1000) + f + (i + 1) * MICROSECONDS
    ensures forall i, j :: 0 <= i <= j < |raws| ==> reported[i] <= reported[j]
  {
    hide ReadAll, Drift, Readable, Milliseconds;
    reported := Report(start, raws, f);
    forall i | 0 <= i < |raws|
      ensures start <= raws[i]
      ensures f * (reported[i] * 1000) <= MICROSECONDS * (raws[i] - start)
      ensures MICROSECONDS * (raws[i] - start) < f * (reported[i] * 1000 + 1000) + f + (i + 1) * MICROSECONDS
    {
      ReportedIsClose(start, raws, f, i);
    }
    forall i, j | 0 <= i <= j < |raws|
      ensures reported[i] <= reported[j]
    {
      ReadablePrefix(start, raws, f, j + 1);
      NeverDecreases(start, raws[..j + 1], f, i + 1);
      assert raws[..j + 1][..i + 1] == raws[..i + 1];
    }
  }

  lemma {:induction false} ReadablePrefix(start: int, raws: seq<int>, f: int, k: nat)
    requires Readable(start, raws, f) && k <= |raws|
    ensures Readable(start, raws[..k], f)
  {
    if k == |raws| {
      assert raws[..k] == raws;
    } else {
      var earlier := raws[..|raws| - 1];
      ReadablePrefix(start, earlier, f, k);
      assert earlier[..k] == raws[..k];
    }
  }

  lemma ReportedIsClose(start: int, raws: seq<int>, f: int, i: nat)
    requires 0 < f < INT64_LIMIT && 0 <= start < INT64_LIMIT && Readable(start, raws, f) && i < |raws|
    ensures var ms := Milliseconds(ReadAll(Ticks(start, 0), raws[..i + 1], f));
            && start <= raws[i]
            && f * (ms * 1000) <= MICROSECONDS * (raws[i] - start)
            && MICROSECONDS * (raws[i] - start) < f * (ms * 1000 + 1000) + f + (i + 1) * MICROSECONDS
  {
    hide Readable, ReadAll, Drift;
    ReadablePrefix(start, raws, f, i + 1);
    DriftBound(start, raws[..i + 1], f);
    var s := ReadAll(Ticks(start, 0), raws[..i + 1], f);
    var ms := Milliseconds(s);
    Scale(f, ms * 1000, s.accumulated);
    Scale(f, s.accumulated, ms * 1000 + 1000);
  }

  lemma Scale(f: int, a: int, b: int)
    requires f > 0 && a <= b
    ensures f * a <= f * b
  {
    assert f * (b - a) >= 0;
  }
}
