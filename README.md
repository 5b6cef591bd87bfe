# Cycle-counter timing macros

A Dafny model of the timing utility in `simple/c/rdtsc.c`: the macros that
take the difference of two 64-bit time-stamp-counter readings
(`HP_TIMING_DIFF`, aliased as `TIMING_DIFF`) and add a difference into a
running sum (`HP_TIMING_ACCUM_NT`, aliased as `TIMING_ACCUM`), and the demo
`main` that reads the counter twice and takes the difference.

Counter values are `unsigned long long` (`hp_timing_t`, `timing_t`) and the
demo stores the difference in an `unsigned long` (the file's own `uint64_t`).
The model assumes an LP64 x86-64 target, where both types are 64 bits wide.
The model uses one type, `Word64`: the integers in `[0, 2^64)`. C's unsigned
arithmetic is written out as arithmetic modulo 2^64 (`WrapAdd`,
`HpTimingDiff`).

All of it is in `rdtsc.dfy`, module `Rdtsc`.

- The difference is a function. It wraps when the end reading is below the
  start reading. It is the unique 64-bit value that, added to the start,
  gives the end. It is zero exactly when the readings are equal.
- `Sum += Diff` on a caller's variable becomes a method that returns the new
  sum, which the caller assigns back: `sum := HpTimingAccumNt(sum, diff)`.
  A Dafny method cannot reach into its caller's locals, and the method
  touches nothing else, which is what the macro does.
- Accumulating consecutive differences telescopes: the sum gains the
  difference from the first reading to the last, modulo 2^64.

`HP_TIMING_DIFF` (simple/c/rdtsc.c:20) subtracts with no saturation at
zero, no anomaly flag and no error path: the result wraps modulo 2^64, and
`DiffWrapsWhenEndPrecedesStart` states that it is then non-zero and larger
than the end reading.

## Model

| member | source | states |
|---|---|---|
| Rdtsc.WrapAdd | simple/c/rdtsc.c:21 | unsigned 64-bit `+`: the sum when it fits, otherwise the sum less 2^64 |
| Rdtsc.HpTimingDiff | simple/c/rdtsc.c:20 | `End - Start` fits in 64 bits; added back to Start (mod 2^64) it gives End; equals `End - Start` when `Start <= End`; wraps to `2^64 - (Start - End)` when `End < Start` |
| Rdtsc.TimingDiff | simple/c/rdtsc.c:24 | `TIMING_DIFF` gives the same value as `HP_TIMING_DIFF` |
| Rdtsc.HpTimingAccumNt | simple/c/rdtsc.c:21 | the new sum is the old sum plus the difference modulo 2^64, and the difference of the new sum over the old one is the added difference |
| Rdtsc.TimingAccum | simple/c/rdtsc.c:25 | `TIMING_ACCUM` updates the sum exactly as `HP_TIMING_ACCUM_NT` does |
| Rdtsc.MeasureSpan | simple/c/rdtsc.c:27-35 | the demo's `cur` completes the round trip from `start` to `end`, equals `end - start` when the counter did not go backwards, and is zero exactly when both readings are equal |
| Rdtsc.DiffUnique | simple/c/rdtsc.c:20 | any 64-bit value that, added to Start, gives End is the difference: the difference is determined by the round trip |
| Rdtsc.DiffZeroIff | simple/c/rdtsc.c:20 | the difference is zero if and only if the two readings are equal |
| Rdtsc.DiffWrapsWhenEndPrecedesStart | simple/c/rdtsc.c:20 | when End is below Start the difference is neither clamped to zero nor an error: it is non-zero and exceeds End |
| Rdtsc.DiffReverseCancels | simple/c/rdtsc.c:20-21 | the difference of a span and that of its reverse add up to zero modulo 2^64 |
| Rdtsc.AccumTelescopes | simple/c/rdtsc.c:20-21 | adding the a-to-b difference and then the b-to-c difference to a sum adds the a-to-c difference |
| Rdtsc.AccumSpansTelescopes | simple/c/rdtsc.c:20-21 | accumulating the difference of every consecutive pair of readings adds the difference from the first reading to the last |
| Rdtsc.AccumTwoSpans | simple/c/rdtsc.c:24-25 | starting from a zero sum, `TIMING_ACCUM` of `TIMING_DIFF(a, b)` and then of `TIMING_DIFF(b, c)` leaves the sum equal to `TIMING_DIFF(a, c)` |

## Left out

- Counter reads (`HP_TIMING_NOW`, `TIMING_NOW`, simple/c/rdtsc.c:10-18, 23): the `rdtsc` and `rdtscp` instructions are hardware intrinsics. Readings are parameters of the model, and the `rdtscp` auxiliary value is discarded by the source anyway. Whether the counter is monotonic is a hardware fact, not a promise of the code, so the model does not assume it; `MeasureSpan` states the `start <= end` case as a conditional.
- `sleep(1)` and `printf` in `main` (simple/c/rdtsc.c:31, 34): I/O. Printing the unsigned difference with the signed `%lld` conversion is a formatting matter and is not modelled.
- The `uint64_t` typedef (simple/c/rdtsc.c:7) is fixed at 64 bits, as on LP64 x86-64; a 32-bit `unsigned long` (32-bit x86, where the same counter builtins exist), which would keep only the low 32 bits of `cur`, is not modelled.
- simple/c/sample_multithread.c and simple/c/sample_multiprocess.c: thread and process creation, CPU queries and printing, with a busy loop whose result is discarded. They are not part of this model.
- The subtraction has no saturation or error path, so the model has none either.
- In-place update: `Sum += Diff` changes the caller's variable; the model returns the new value for the caller to assign, which is the same effect for a local variable. Aliasing of the sum with other storage is not modelled.
