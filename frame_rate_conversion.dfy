/** `FrameRateConversion<NonZeroU32> for Tick`: converting between tick counts
    and frame numbers at a whole number of frames per second. Both directions
    widen to `i128`, multiply, divide with Rust's truncating division and
    narrow the quotient back to `i64` with a two's-complement cast.
 */
module FrameRateConversion {
  import opened MachineInt
  import opened TickTime

  /** `NonZeroU32`: a frame rate of 1 to 2^32 - 1 frames per second. */
  type FrameRate = r: int | 1 <= r <= 0xFFFF_FFFF witness 1

  const TwoTo85: int := 0x20_0000_0000_0000_0000_0000
  const TwoTo95: int := 0x8000_0000_0000_0000_0000_0000

  lemma MulBound(x: nat, bx: nat, y: nat, by_: nat)
    requires x <= bx && y <= by_
    ensures x * y <= bx * by_
  {
    MulMonotone(x, bx, y);
    MulMonotone(y, by_, bx);
  }

  /** The `i128` products never overflow: a tick count times a frame rate stays
      below 2^95 in magnitude, a frame number times the resolution below 2^85.
      Only the final narrowing to `i64` can lose information. */
  lemma WideProductsFit(value: i64, rate: FrameRate, res: Resolution)
    ensures Abs(value * rate) < TwoTo95 && InI128(value * rate)
    ensures Abs(value * TicksPerSecond(res)) < TwoTo85 && InI128(value * TicksPerSecond(res))
  {
    var tps := TicksPerSecond(res);
    assert InI64(value);
    assert Abs(value) <= 0x8000_0000_0000_0000;
    MulAbs(value, rate);
    MulBound(Abs(value), 0x8000_0000_0000_0000, rate, 0xFFFF_FFFF);
    MulAbs(value, tps);
    MulBound(Abs(value), 0x8000_0000_0000_0000, tps, 0x3F_FFFF);
  }

  /** When the divisor is at least the multiplier, `value * rate / divisor`
      is no larger than `value` in magnitude. */
  lemma ScaledQuotientShrinks(value: int, rate: nat, divisor: int)
    requires 0 < rate <= divisor
    ensures Abs(TruncDiv(value * rate, divisor)) <= Abs(value)
  {
    var q := TruncDiv(value * rate, divisor);
    MulAbs(value, rate);
    MulMonotone(rate, divisor, Abs(value));
    assert Abs(q) * divisor <= Abs(value) * divisor;
    if Abs(q) > Abs(value) {
      MulStrictMonotone(Abs(value), Abs(q), divisor);
    }
  }

  /** `to_frame`: `(t as i128 * rate as i128 / TICKS_PER_SECOND as i128) as i64`.
      Wherever the quotient fits in `i64` the narrowing loses nothing and the
      frame number is the truncated quotient of `t * rate` by the resolution;
      at any rate up to the resolution it always fits, and the frame number is
      no larger than the tick count. */
  function ToFrame(t: Tick, rate: FrameRate, res: Resolution): (frame: i64)
    ensures FrameFits(t, rate, res) ==> IsTruncQuotient(frame, t.value * rate, TicksPerSecond(res))
    ensures rate <= TicksPerSecond(res) ==>
      Abs(frame) <= Abs(t.value) && IsTruncQuotient(frame, t.value * rate, TicksPerSecond(res))
  {
    var tps := TicksPerSecond(res);
    WideProductsFit(t.value, rate, res);
    var product: i128 := t.value * rate;
    TruncDivShrinks(product, tps);
    var quotient: i128 := TruncDiv(product, tps);
    assert rate <= tps ==> Abs(quotient) <= Abs(t.value) by {
      if rate <= tps {
        ScaledQuotientShrinks(t.value, rate, tps);
      }
    }
    WrapI64(quotient)
  }

  /** `from_frame`: `(frame as i128 * TICKS_PER_SECOND as i128 / rate as i128) as i64`.
      Wherever the quotient fits in `i64` (in particular whenever
      `frame * TICKS_PER_SECOND` itself does) the narrowing loses nothing and
      the tick count is the truncated quotient of `frame * TICKS_PER_SECOND` by
      the rate. */
  function FromFrame(frame: i64, rate: FrameRate, res: Resolution): (t: Tick)
    ensures TicksFit(frame, rate, res) ==>
      IsTruncQuotient(t.value, frame * TicksPerSecond(res), rate)
    ensures InI64(frame * TicksPerSecond(res)) ==>
      IsTruncQuotient(t.value, frame * TicksPerSecond(res), rate)
  {
    var tps := TicksPerSecond(res);
    WideProductsFit(frame, rate, res);
    var product: i128 := frame * tps;
    TruncDivShrinks(product, rate);
    var quotient: i128 := TruncDiv(product, rate);
    Tick(WrapI64(quotient))
  }

  /** Zero ticks is frame zero and frame zero is zero ticks, at every rate. */
  lemma ZeroMapsToZero(rate: FrameRate, res: Resolution)
    ensures ToFrame(Zero, rate, res) == 0
    ensures FromFrame(0, rate, res) == Zero
  {
    TruncDivExact(0, TicksPerSecond(res));
    TruncDivExact(0, rate);
  }

  /** `to_frame` does not wrap: the exact truncated frame number fits in `i64`. */
  predicate FrameFits(t: Tick, rate: FrameRate, res: Resolution)
  {
    InI64(TruncDiv(t.value * rate, TicksPerSecond(res)))
  }

  /** `from_frame` does not wrap: the exact truncated tick count fits in `i64`. */
  predicate TicksFit(frame: i64, rate: FrameRate, res: Resolution)
  {
    InI64(TruncDiv(frame * TicksPerSecond(res), rate))
  }

  /** A whole number `k` of seconds, `k * TICKS_PER_SECOND` ticks, is exactly
      `k * rate` frames (narrowed to `i64`), and `k * rate` frames are exactly
      `k` seconds of ticks. */
  lemma WholeSecondsAreWholeFrames(k: int, rate: FrameRate, res: Resolution)
    requires InI64(k * TicksPerSecond(res))
    ensures ToFrame(Tick(k * TicksPerSecond(res)), rate, res) == WrapI64(k * rate)
    ensures InI64(k * rate) ==> FromFrame(k * rate, rate, res) == Tick(k * TicksPerSecond(res))
  {
    var tps := TicksPerSecond(res);
    assert (k * tps) * rate == (k * rate) * tps;
    TruncDivExact(k * rate, tps);
    TruncDivExact(k * tps, rate);
  }

  /** When the rate divides the resolution, every frame starts on a whole tick:
      `from_frame(n)` is exactly `n` frame periods of ticks, and `to_frame`
      gives `n` back, as long as those `n` periods fit in `i64` (otherwise
      the narrowing of `from_frame` wraps). */
  lemma FrameTickFrameRoundTrip(n: i64, rate: FrameRate, res: Resolution)
    requires TicksPerSecond(res) % rate == 0
    requires InI64(n * (TicksPerSecond(res) / rate))
    ensures FromFrame(n, rate, res).value == n * (TicksPerSecond(res) / rate)
    ensures ToFrame(FromFrame(n, rate, res), rate, res) == n
  {
    var tps := TicksPerSecond(res);
    var period := tps / rate;
    assert tps == period * rate;
    assert n * tps == (n * period) * rate;
    TruncDivExact(n * period, rate);
    TruncDivExact(n, tps);
  }

  /** A frame-aligned tick count (`t * rate` a multiple of the resolution)
      converts to its exact frame number and back to itself, whatever the
      rate, as long as that frame number fits in `i64`. */
  lemma TickFrameTickRoundTrip(t: Tick, rate: FrameRate, res: Resolution)
    requires (t.value * rate) % TicksPerSecond(res) == 0
    requires InI64(t.value * rate / TicksPerSecond(res))
    ensures ToFrame(t, rate, res) == t.value * rate / TicksPerSecond(res)
    ensures FromFrame(ToFrame(t, rate, res), rate, res) == t
  {
    var tps := TicksPerSecond(res);
    var m := t.value * rate / tps;
    assert t.value * rate == m * tps;
    TruncDivExact(m, tps);
    TruncDivExact(t.value, rate);
  }

  /** Truncating division makes `to_frame` odd: negating the tick count
      negates the frame number (as a wrapping negation, which is plain
      negation unless the frame number is `i64::MIN`). */
  lemma ToFrameOdd(t: Tick, rate: FrameRate, res: Resolution)
    requires t.value != MinI64
    ensures ToFrame(Tick(-t.value), rate, res) == WrapI64(-(ToFrame(t, rate, res) as int))
    ensures ToFrame(t, rate, res) != MinI64 ==> ToFrame(Tick(-t.value), rate, res) == -ToFrame(t, rate, res)
  {
    var tps := TicksPerSecond(res);
    assert (-t.value) * rate == -(t.value * rate);
    TruncDivNeg(t.value * rate, tps);
    WrapNeg(TruncDiv(t.value * rate, tps));
  }

  /** `from_frame` is odd in the frame number in the same way. */
  lemma FromFrameOdd(n: int, rate: FrameRate, res: Resolution)
    requires InI64(n) && InI64(-n)
    ensures FromFrame(-n, rate, res).value == WrapI64(-(FromFrame(n, rate, res).value as int))
    ensures FromFrame(n, rate, res).value != MinI64 ==> FromFrame(-n, rate, res).value == -FromFrame(n, rate, res).value
  {
    var tps := TicksPerSecond(res);
    assert (-n) * tps == -(n * tps);
    TruncDivNeg(n * tps, rate);
    WrapNeg(TruncDiv(n * tps, rate));
  }

  /** While it does not wrap, `to_frame` is monotone: a later tick is never on
      an earlier frame. */
  lemma ToFrameMonotone(t1: Tick, t2: Tick, rate: FrameRate, res: Resolution)
    requires Le(t1, t2)
    requires FrameFits(t1, rate, res) && FrameFits(t2, rate, res)
    ensures ToFrame(t1, rate, res) <= ToFrame(t2, rate, res)
  {
    MulMonotone(t1.value, t2.value, rate);
    TruncDivMonotone(t1.value * rate, t2.value * rate, TicksPerSecond(res));
  }

  /** While it does not wrap, `from_frame` is monotone: a later frame never
      starts earlier. */
  lemma FromFrameMonotone(n1: i64, n2: i64, rate: FrameRate, res: Resolution)
    requires n1 <= n2
    requires TicksFit(n1, rate, res) && TicksFit(n2, rate, res)
    ensures Le(FromFrame(n1, rate, res), FromFrame(n2, rate, res))
  {
    MulMonotone(n1, n2, TicksPerSecond(res));
    TruncDivMonotone(n1 * TicksPerSecond(res), n2 * TicksPerSecond(res), rate);
  }

  /** At a rate that divides the resolution a frame lasts
      `TICKS_PER_SECOND / rate` ticks, and `to_frame` divides the tick count by
      that period, truncating toward zero. */
  lemma ToFrameDividesByPeriod(t: Tick, rate: FrameRate, res: Resolution)
    requires TicksPerSecond(res) % rate == 0
    ensures ToFrame(t, rate, res) == TruncDiv(t.value, TicksPerSecond(res) / rate)
  {
    var tps := TicksPerSecond(res);
    var period := tps / rate;
    assert tps == period * rate;
    TruncDivCancel(t.value, period, rate);
    TruncDivShrinks(t.value, period);
  }

  /** Hence `from_frame(to_frame(t))` is the start of the frame that holds
      `t`: a whole number of periods, never past `t`, less than one period
      short of it, and on the same side of zero. */
  lemma ToFrameThenFromFrameSnaps(t: Tick, rate: FrameRate, res: Resolution)
    requires TicksPerSecond(res) % rate == 0
    ensures IsTruncQuotient(ToFrame(t, rate, res), t.value, TicksPerSecond(res) / rate)
    ensures FromFrame(ToFrame(t, rate, res), rate, res).value
         == ToFrame(t, rate, res) * (TicksPerSecond(res) / rate)
  {
    var period := TicksPerSecond(res) / rate;
    ToFrameDividesByPeriod(t, rate, res);
    var f := ToFrame(t, rate, res);
    assert InI64(f * period) by {
      MulAbs(f, period);
    }
    FrameTickFrameRoundTrip(f, rate, res);
  }

  /** The whole-number rates that the crate documentation lists as exactly
      representable. */
  const DocumentedRates: seq<FrameRate> := [6, 8, 12, 24, 25, 30, 48, 50, 60, 72, 90, 120, 144, 240]

  /** Every documented rate divides both resolutions. */
  lemma DocumentedRatesDivideTicksPerSecond(res: Resolution)
    ensures forall rate :: rate in DocumentedRates ==> TicksPerSecond(res) % rate == 0
  {
  }

  /** Hence every documented rate converts frames to ticks and back without
      loss, as long as the tick count fits in `i64`, and snaps ticks to frame
      starts. */
  lemma DocumentedRatesAreLossless(n: i64, t: Tick, rate: FrameRate, res: Resolution)
    requires rate in DocumentedRates
    requires InI64(n * (TicksPerSecond(res) / rate))
    ensures ToFrame(FromFrame(n, rate, res), rate, res) == n
    ensures IsTruncQuotient(ToFrame(t, rate, res), t.value, TicksPerSecond(res) / rate)
  {
    DocumentedRatesDivideTicksPerSecond(res);
    FrameTickFrameRoundTrip(n, rate, res);
    ToFrameThenFromFrameSnaps(t, rate, res);
  }

  /** The divisibility condition of `FrameTickFrameRoundTrip` is needed: at
      2997 frames per second, which does not divide the default resolution,
      frame 1 starts at tick 1202 and tick 1202 is still on frame 0. */
  lemma NonDividingRateLosesFrames()
    ensures DefaultTicksPerSecond % 2997 != 0
    ensures FromFrame(1, 2997, Default) == Tick(1202)
    ensures ToFrame(FromFrame(1, 2997, Default), 2997, Default) == 0
  {
  }

  /** Frame `n` at `numerator / 1001` frames per second starts
      `n * TICKS_PER_SECOND * 1001 / numerator` ticks in; it starts on a whole
      tick when that division is exact. */
  predicate StartsOnTick(n: int, numerator: int, res: Resolution)
    requires numerator > 0
  {
    (n * TicksPerSecond(res) * 1001) % numerator == 0
  }

  /** A quotient and remainder in range are Dafny's Euclidean ones. */
  lemma ModUnique(x: int, m: int, q: int, r: int)
    requires m > 0 && 0 <= r < m && x == q * m + r
    ensures x % m == r
  {
    var q0, r0 := x / m, x % m;
    assert (q - q0) * m == r0 - r;
    if q > q0 {
      MulMonotone(1, q - q0, m);
    } else if q < q0 {
      MulMonotone(1, q0 - q, m);
    }
  }

  /** Only the residue of a factor matters to a remainder. */
  lemma ReduceFactor(n: int, c: int, m: int)
    requires m > 0
    ensures (n * c) % m == (n * (c % m)) % m
  {
    var q, r := c / m, c % m;
    var s := n * r;
    assert n * c == (n * q) * m + s by {
      assert c == q * m + r;
    }
    assert n * c == (n * q + s / m) * m + s % m;
    ModUnique(n * c, m, n * q + s / m, s % m);
  }

  /** Frame `n` at `numerator / 1001` Hz misses the tick grid when `n` times
      `residue`, which is `TICKS_PER_SECOND * 1001` reduced modulo
      `numerator`, is not a multiple of `numerator`. */
  lemma OffGridBelow(n: int, res: Resolution, numerator: int, residue: int)
    requires numerator > 0 && residue == (TicksPerSecond(res) * 1001) % numerator
    requires (n * residue) % numerator != 0
    ensures !StartsOnTick(n, numerator, res)
  {
    var c := TicksPerSecond(res) * 1001;
    assert n * TicksPerSecond(res) * 1001 == n * c;
    ReduceFactor(n, c, numerator);
  }

  /** One frame among the first 49 at 59.94 Hz, or the first 24 at 29.97 Hz,
      misses the tick grid. */
  lemma NtscFrameOffGrid(n: int, res: Resolution)
    requires 0 < n < 50
    ensures n < 25 ==> !StartsOnTick(n, 30000, res)
    ensures !StartsOnTick(n, 60000, res)
  {
    var r := if res == Default then 3600 else 25200;
    assert (TicksPerSecond(res) * 1001) % 30000 == r;
    assert (TicksPerSecond(res) * 1001) % 60000 == r;
    assert (n * r) % 60000 != 0;
    if n < 25 {
      assert (n * r) % 30000 != 0;
      OffGridBelow(n, res, 30000, r);
    }
    OffGridBelow(n, res, 60000, r);
  }

  /** The NTSC rates 30000/1001 (29.97 Hz) and 60000/1001 (59.94 Hz) have no
      whole-tick frame period at either resolution: at 29.97 Hz only every
      25th frame starts on a tick, at 59.94 Hz only every 50th. */
  lemma NtscFramePeriodIsNotWholeTicks(res: Resolution)
    ensures forall n :: 0 < n < 25 ==> !StartsOnTick(n, 30000, res)
    ensures StartsOnTick(25, 30000, res)
    ensures forall n :: 0 < n < 50 ==> !StartsOnTick(n, 60000, res)
    ensures StartsOnTick(50, 60000, res)
  {
    forall n | 0 < n < 50
      ensures n < 25 ==> !StartsOnTick(n, 30000, res)
      ensures !StartsOnTick(n, 60000, res)
    {
      NtscFrameOffGrid(n, res);
    }
    NtscFramesOnGrid(res);
  }

  /** Frame 25 at 29.97 Hz and frame 50 at 59.94 Hz start on a tick. */
  lemma NtscFramesOnGrid(res: Resolution)
    ensures StartsOnTick(25, 30000, res) && StartsOnTick(50, 60000, res)
  {
    var k := if res == Default then 3006003 else 21021;
    assert 25 * TicksPerSecond(res) * 1001 == k * 30000;
    assert 50 * TicksPerSecond(res) * 1001 == k * 60000;
    ModUnique(k * 30000, 30000, k, 0);
    ModUnique(k * 60000, 60000, k, 0);
  }

  /** The conversions the crate's tests check, at both resolutions:
      one second is 60 frames at 60 Hz and back, the mixed rates and
      durations, zero, minus one second, and 100 seconds at rate 2997. */
  lemma TestedConversions(res: Resolution)
    ensures ToFrame(Tick(TicksPerSecond(res)), 60, res) == 60
    ensures FromFrame(60, 60, res) == Tick(TicksPerSecond(res))
    ensures ToFrame(Tick(TicksPerSecond(res)), 24, res) == 24
    ensures FromFrame(24, 24, res) == Tick(TicksPerSecond(res))
    ensures ToFrame(Tick(2 * TicksPerSecond(res)), 30, res) == 60
    ensures FromFrame(60, 30, res) == Tick(2 * TicksPerSecond(res))
    ensures ToFrame(Tick(TicksPerSecond(res) / 2), 120, res) == 60
    ensures FromFrame(60, 120, res) == Tick(TicksPerSecond(res) / 2)
    ensures ToFrame(Tick(TicksPerSecond(res)), 25, res) == 25
    ensures FromFrame(25, 25, res) == Tick(TicksPerSecond(res))
    ensures ToFrame(Zero, 60, res) == 0 && FromFrame(0, 60, res) == Zero
    ensures ToFrame(Tick(-TicksPerSecond(res)), 60, res) == -60
    ensures FromFrame(-60, 60, res) == Tick(-TicksPerSecond(res))
    ensures ToFrame(Tick(100 * TicksPerSecond(res)), 2997, res) == 299700
    ensures FromFrame(299700, 2997, res) == Tick(100 * TicksPerSecond(res))
  {
    var tps := TicksPerSecond(res);
    WholeSecondsAreWholeFrames(1, 60, res);
    WholeSecondsAreWholeFrames(1, 24, res);
    WholeSecondsAreWholeFrames(2, 30, res);
    WholeSecondsAreWholeFrames(1, 25, res);
    WholeSecondsAreWholeFrames(-1, 60, res);
    WholeSecondsAreWholeFrames(100, 2997, res);
    FrameTickFrameRoundTrip(60, 120, res);
    ZeroMapsToZero(60, res);
  }

  /** The tested tick arithmetic: one second plus one second is two seconds,
      plus half a second is one and a half; one second minus itself is zero,
      minus half a second is half a second. Both resolutions are even, so half
      a second is a whole number of ticks. */
  lemma TestedArithmetic(res: Resolution)
    ensures var second := Tick(TicksPerSecond(res));
      var half := Tick(TicksPerSecond(res) / 2);
      && Add(second, second) == Tick(2 * TicksPerSecond(res))
      && Add(second, half) == Tick(3 * TicksPerSecond(res) / 2)
      && Sub(second, second) == Zero
      && Sub(second, half) == half
  {
  }
}
