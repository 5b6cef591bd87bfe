/** Cycle-counter timing macros: elapsed-cycle differences and running sums
    over 64-bit unsigned counter readings, with C's unsigned wrap-around
    written out explicitly. Counter readings are opaque inputs. */
module Rdtsc {

  /** 2^64: unsigned 64-bit arithmetic is arithmetic modulo this number. */
  const Modulus: nat := 0x1_0000_0000_0000_0000

  /** `unsigned long long` (hp_timing_t, and its alias timing_t), and
      `unsigned long` (the file's uint64_t) on an LP64 target. */
  type Word64 = x: int | 0 <= x < Modulus

  /** The value of `a + b` for unsigned 64-bit operands: the sum, less 2^64
      when it carries out of the top bit. */
  function WrapAdd(a: Word64, b: Word64): (s: Word64)
    ensures a + b < Modulus ==> s == a + b
    ensures Modulus <= a + b ==> s == a + b - Modulus
  {
    (a + b) % Modulus
  }

  /** HP_TIMING_DIFF(Diff, Start, End): `Diff = End - Start` on unsigned
      64-bit values. The result is the one 64-bit value that, added to the
      start reading, gives the end reading; there is no clamping at zero. */
  function HpTimingDiff(start: Word64, end: Word64): (diff: Word64)
    ensures WrapAdd(start, diff) == end
    ensures start <= end ==> diff == end - start
    ensures end < start ==> diff == Modulus - (start - end)
  {
    (end - start) % Modulus
  }

  /** TIMING_DIFF(diff, start, end) expands to HP_TIMING_DIFF. */
  function TimingDiff(start: Word64, end: Word64): (diff: Word64)
    ensures diff == HpTimingDiff(start, end)
  {
    HpTimingDiff(start, end)
  }

  /** HP_TIMING_ACCUM_NT(Sum, Diff): `Sum += Diff`. The caller's variable is
      updated by assigning the result back to it, `sum := HpTimingAccumNt(sum, diff)`,
      and nothing else changes. */
  method HpTimingAccumNt(sum: Word64, diff: Word64) returns (newSum: Word64)
    ensures newSum == WrapAdd(sum, diff)
    ensures HpTimingDiff(sum, newSum) == diff
  {
    newSum := (sum + diff) % Modulus;
  }

  /** TIMING_ACCUM(sum, diff) expands to HP_TIMING_ACCUM_NT. */
  method TimingAccum(sum: Word64, diff: Word64) returns (newSum: Word64)
    ensures newSum == WrapAdd(sum, diff)
    ensures HpTimingDiff(sum, newSum) == diff
  {
    newSum := HpTimingAccumNt(sum, diff);
  }

  /** The demo program: take a start reading, take an end reading (a second
      later, which is not modelled), and store their difference in the
      `unsigned long` variable `cur`. The model assumes an LP64 x86-64
      target, where `unsigned long` is as wide as the readings. */
  method MeasureSpan(startReading: Word64, endReading: Word64) returns (cur: Word64)
    ensures WrapAdd(startReading, cur) == endReading
    ensures startReading <= endReading ==> cur == endReading - startReading
    ensures cur == 0 <==> startReading == endReading
  {
    var start: Word64 := startReading;
    var end: Word64 := endReading;
    cur := TimingDiff(start, end);
    DiffZeroIff(start, end);
  }

  // ---------------------------------------------------------------------
  // Properties of the difference

  /** The difference is the only 64-bit value that completes the round trip
      from the start reading to the end reading. */
  lemma DiffUnique(start: Word64, end: Word64, d: Word64)
    requires WrapAdd(start, d) == end
    ensures d == HpTimingDiff(start, end)
  {
  }

  /** A zero difference means exactly that both readings are equal. */
  lemma DiffZeroIff(start: Word64, end: Word64)
    ensures HpTimingDiff(start, end) == 0 <==> start == end
  {
  }

  /** When the end reading is numerically below the start reading, the
      difference wraps to a value larger than the end reading, never zero. */
  lemma DiffWrapsWhenEndPrecedesStart(start: Word64, end: Word64)
    requires end < start
    ensures HpTimingDiff(start, end) != 0
    ensures HpTimingDiff(start, end) > end
  {
  }

  /** The differences of a span and its reverse add up to zero modulo 2^64. */
  lemma DiffReverseCancels(start: Word64, end: Word64)
    ensures WrapAdd(HpTimingDiff(start, end), HpTimingDiff(end, start)) == 0
  {
  }

  // ---------------------------------------------------------------------
  // Accumulation

  /** Adding the difference of b over a to a running sum, then the
      difference of c over b, adds the difference of c over a. */
  lemma AccumTelescopes(sum: Word64, a: Word64, b: Word64, c: Word64)
    ensures WrapAdd(WrapAdd(sum, HpTimingDiff(a, b)), HpTimingDiff(b, c))
         == WrapAdd(sum, HpTimingDiff(a, c))
  {
  }

  /** The running sum after accumulating the difference of every pair of
      consecutive readings into `sum`. The program itself has no such loop:
      this generalises repeated `TIMING_ACCUM (sum, TIMING_DIFF (...))` over
      consecutive readings. */
  function AccumSpans(sum: Word64, readings: seq<Word64>): Word64
    decreases |readings|
  {
    if |readings| < 2 then sum
    else AccumSpans(WrapAdd(sum, HpTimingDiff(readings[0], readings[1])), readings[1..])
  }

  /** Accumulating consecutive spans into a sum adds the span from the first
      reading to the last one. */
  lemma {:induction false} AccumSpansTelescopes(sum: Word64, readings: seq<Word64>)
    requires |readings| > 0
    decreases |readings|
    ensures AccumSpans(sum, readings) == WrapAdd(sum, HpTimingDiff(readings[0], readings[|readings| - 1]))
  {
    if |readings| >= 2 {
      var next := WrapAdd(sum, HpTimingDiff(readings[0], readings[1]));
      AccumSpansTelescopes(next, readings[1..]);
      AccumTelescopes(sum, readings[0], readings[1], readings[|readings| - 1]);
    }
  }

  /** Starting from zero and accumulating the spans a..b and b..c, using the
      accumulation macro as a program would, gives the span a..c. */
  method AccumTwoSpans(a: Word64, b: Word64, c: Word64) returns (sum: Word64)
    ensures sum == TimingDiff(a, c)
  {
    sum := 0;
    sum := TimingAccum(sum, TimingDiff(a, b));
    sum := TimingAccum(sum, TimingDiff(b, c));
    AccumTelescopes(0, a, b, c);
  }
}
