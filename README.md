# frame-tick: the integer core of `Tick`, in Dafny

`Tick` is a fixed-point representation of time: a signed 64-bit count of
indivisible units, `TICKS_PER_SECOND` of which make one second. The default
resolution is 3,603,600 ticks per second (2^4 * 3^2 * 5^2 * 7 * 11 * 13); the
`low_res` feature selects 25,200. Either resolution is a whole multiple of many
display rates, so whole frames at those rates are whole numbers of ticks.

This project models, from `src/lib.rs`:

- the `Tick` value (`datatype Tick = Tick(value: i64)`), `Tick::new`, and the
  arithmetic and ordering derived from the inner `i64`: `Add` and `Sub` of two
  ticks, the scalar `Mul` and `Div` by an `i64` (what `derive_more` generates
  for a one-field tuple struct), and `Ord`;
- the resolution as a build choice (`Resolution = Default | LowRes`), with
  `TicksPerSecond` giving 3,603,600 or 25,200;
- the integer-rate conversion `FrameRateConversion<NonZeroU32>`: `to_frame`
  computes `t * rate / TICKS_PER_SECOND` and `from_frame` computes
  `frame * TICKS_PER_SECOND / rate`, both widened to `i128`, divided with
  Rust's truncating division and narrowed back with `as i64`.

Modelling choices:

- Integers are Dafny's unbounded `int`; `i64` and `i128` are subset types.
  Rust's `/` truncates toward zero while Dafny's is Euclidean, so
  `MachineInt.TruncDiv` defines Rust's division explicitly, and both
  conversions use it.
- The narrowing `as i64` is modelled exactly, as two's-complement wrapping
  (`MachineInt.WrapI64`). The `i128` intermediates are assigned to the `i128`
  subset type, so the verifier checks that they never overflow.
- `NonZeroU32` is the subset type `FrameRate` (1 to 2^32 - 1).
- Panics of the derived operators (overflow, division by zero,
  `i64::MIN / -1`) are preconditions.

The crate has no rational frame-rate type, timecode conversion, `lerp`,
enumeration or multiplication of two ticks; its derived `Mul`/`Div` are
integer scalar operations, and the model follows the code. The crate documentation (`src/lib.rs:20`) lists 29.97 Hz and 59.94 Hz NTSC
among the exactly representable rates. At 30000/1001 Hz one frame lasts
3,603,600 * 1001 / 30000 = 120,240.12 ticks, and at 60000/1001 Hz 60,120.06
ticks, so single frames do not start on whole ticks; only every 25th and
every 50th frame does (`FrameRateConversion.NtscFramePeriodIsNotWholeTicks`).

Files: `machine_int.dfy` (Rust integer semantics), `tick.dfy` (the `Tick`
value, resolution, arithmetic, ordering), `frame_rate_conversion.dfy` (the
integer-rate conversions and their laws).

## Model

| member | source | states |
|---|---|---|
| `MachineInt.TruncDiv` | src/lib.rs:124 | Rust's `i128` division: the remainder is smaller than the divisor and never has the opposite sign of the dividend, and the quotient times the divisor never exceeds the dividend in magnitude |
| `MachineInt.TruncQuotientUnique` | src/lib.rs:131-132 | these conditions determine the truncated quotient uniquely |
| `MachineInt.TruncDivNeg` | src/lib.rs:131-132 | truncating division commutes with negating the dividend, unlike Euclidean division |
| `MachineInt.TruncDivMonotone` | src/lib.rs:124 | for a positive divisor the truncated quotient is monotone in the dividend |
| `MachineInt.WrapI64` | src/lib.rs:125 | the `as i64` narrowing yields an `i64` congruent to its input modulo 2^64, and the input itself whenever it fits |
| `TickTime.TicksPerSecond` | src/lib.rs:91-97 | both resolutions are positive, below 2^22, and multiples of 25,200 |
| `TickTime.New` | src/lib.rs:100-102 | `Tick::new` wraps the raw count unchanged |
| `TickTime.NewRoundTrip` | src/lib.rs:100-102 | `Tick::new` and the inner value undo each other; `new` is injective |
| `TickTime.Compare` | src/lib.rs:71-72 | the derived `cmp` answers `Equal` exactly for equal ticks and `Less` exactly when the count is smaller |
| `TickTime.Le` | src/lib.rs:72 | the derived `<=` holds exactly when the inner count is no larger (its order laws are in `CompareIsTotalOrder`) |
| `TickTime.CompareIsTotalOrder` | src/lib.rs:71-72 | swapping operands reverses `cmp`; `<=` is reflexive, antisymmetric, transitive and total |
| `TickTime.Add` | src/lib.rs:82 | the sum compares to the first operand as the second operand compares to zero |
| `TickTime.Sub` | src/lib.rs:83 | the difference compares to the first operand as zero compares to the second operand |
| `TickTime.AddSubInverse` | src/lib.rs:82-83 | subtraction undoes addition and vice versa; addition is commutative and associative with zero as identity |
| `TickTime.AddMonotone` | src/lib.rs:71-82 | adding the same tick count to both sides keeps their order |
| `TickTime.Mul` | src/lib.rs:80 | scaling by -1 negates, and dividing by a non-zero scalar undoes scaling by it |
| `TickTime.Div` | src/lib.rs:81 | scalar division rounds toward zero and never grows the count in magnitude |
| `TickTime.DivRoundsTowardZero` | src/lib.rs:81 | negating the dividend negates the quotient, and quotient times divisor never overshoots the dividend |
| `FrameRateConversion.WideProductsFit` | src/lib.rs:124-132 | the `i128` products stay below 2^95 and 2^85 in magnitude, so only the final narrowing can lose information |
| `FrameRateConversion.ToFrame` | src/lib.rs:123-126 | wherever the result fits in `i64`, the frame number is the truncated quotient of ticks times rate by the resolution; at any rate up to the resolution it always fits and is no larger than the tick count |
| `FrameRateConversion.FromFrame` | src/lib.rs:129-134 | wherever the result fits in `i64` (even when frame times resolution does not), the tick count is the truncated quotient of frame times resolution by the rate |
| `FrameRateConversion.ZeroMapsToZero` | src/lib.rs:123-134 | zero ticks is frame zero and frame zero is zero ticks at every rate |
| `FrameRateConversion.WholeSecondsAreWholeFrames` | src/lib.rs:123-134 | k seconds of ticks are exactly k * rate frames (narrowed to `i64`), and k * rate frames are exactly k seconds |
| `FrameRateConversion.FrameTickFrameRoundTrip` | src/lib.rs:123-134 | when the rate divides the resolution, `from_frame(n)` is n whole frame periods and `to_frame` gives n back, as long as n × (TICKS_PER_SECOND / rate) fits in `i64` |
| `FrameRateConversion.TickFrameTickRoundTrip` | src/lib.rs:123-134 | a frame-aligned tick count converts to its exact frame number and back to itself at any rate, as long as the frame number fits in `i64` |
| `FrameRateConversion.ToFrameOdd` | src/lib.rs:123-126 | negating the tick count negates the frame number (wrapping negation; plain negation unless the frame is `i64::MIN`) |
| `FrameRateConversion.FromFrameOdd` | src/lib.rs:129-134 | negating the frame number negates the tick count in the same way |
| `FrameRateConversion.ToFrameMonotone` | src/lib.rs:123-126 | while it does not wrap, a later tick is never on an earlier frame |
| `FrameRateConversion.FromFrameMonotone` | src/lib.rs:129-134 | while it does not wrap, a later frame never starts earlier |
| `FrameRateConversion.ToFrameDividesByPeriod` | src/lib.rs:123-126 | at a rate dividing the resolution, `to_frame` is the tick count divided by the frame period, truncated toward zero |
| `FrameRateConversion.ToFrameThenFromFrameSnaps` | src/lib.rs:123-134 | at such a rate `from_frame(to_frame(t))` is the start of the frame holding `t`: whole periods, never past `t`, less than one period short, same side of zero |
| `FrameRateConversion.DocumentedRatesDivideTicksPerSecond` | src/lib.rs:14-31 | each documented integer rate (6 to 240 Hz) divides both resolutions |
| `FrameRateConversion.DocumentedRatesAreLossless` | src/lib.rs:14-31 | hence each documented rate round-trips frame n exactly, as long as n × (TICKS_PER_SECOND / rate) fits in `i64`, and snaps ticks to frame starts |
| `FrameRateConversion.NonDividingRateLosesFrames` | src/lib.rs:123-134 | at rate 2997 frame 1 starts at tick 1202, which converts back to frame 0: divisibility is needed for the round trip |
| `FrameRateConversion.NtscFramePeriodIsNotWholeTicks` | src/lib.rs:20 | at either resolution, frames 1 to 24 at 30000/1001 Hz and frames 1 to 49 at 60000/1001 Hz do not start on a whole tick; frame 25 and frame 50 respectively do |
| `FrameRateConversion.TestedConversions` | src/tests.rs:39-122 | the tested conversions hold at both resolutions: 60 Hz, 24/30/120/25 Hz cases, zero, minus one second, and rate 2997 over 100 s, each with its round trip |
| `FrameRateConversion.TestedArithmetic` | src/tests.rs:129-134 | the tested sums and differences of one second and half a second are the expected whole tick counts at both resolutions |

## Left out

- `Tick::from_secs` and `Tick::to_secs` (src/lib.rs:104-112): floating-point scaling and casts; Dafny has no IEEE double model here.
- `FrameRateConversion` for `StrictlyPositiveFinite<f32>` and `<f64>` (src/lib.rs:137-164): floating-point arithmetic with a `+ 0.5` bias, behind an optional feature.
- Conversion to and from `std::time::Duration` (src/lib.rs:166-179, src/std_traits.rs:13-24): a wrapper over the floating-point seconds path.
- The multiplication and division tests by `2.0` and `0.5` (src/tests.rs:136-142): the derived `Mul` and `Div` take an integer scalar, so a floating-point factor is outside the integer model.
- `Display`, `FromStr`, `From`/`Into`, `AsRef`/`AsMut`, `Debug`, `Hash` and the serde derives: text formatting, parsing and serialization glue with no numeric content beyond the identity on the inner `i64`.
- TickTime.Add: `i64` overflow is excluded by a precondition rather than modelled as the debug-build panic or release-build wrap.
- TickTime.Sub: `i64` overflow is excluded by a precondition, as for `Add`.
- TickTime.Mul: `i64` overflow is excluded by a precondition, as for `Add`.
- TickTime.Div: division by zero and `i64::MIN / -1`, which panic, are excluded by a precondition.
- FrameRateConversion.ToFrameMonotone: monotonicity is stated only where the narrowing does not wrap; past that the source's `as i64` cast makes the result non-monotone.
- FrameRateConversion.FromFrameMonotone: likewise stated only where the narrowing does not wrap.
