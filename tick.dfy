/** The `Tick` value type: a signed 64-bit count of indivisible time units,
    `TicksPerSecond` of which make one second, with the arithmetic and the
    ordering it derives from its inner integer.
 */
module TickTime {
  import opened MachineInt

  /** A point in (or span of) time, counted in ticks; negative values lie
      before the origin. Any `i64` is a legal tick count. */
  datatype Tick = Tick(value: i64)

  /** The build-time choice of resolution: the default, or the one selected by
      the `low_res` feature. */
  datatype Resolution = Default | LowRes

  /** 3,603,600 = 2^4 * 3^2 * 5^2 * 7 * 11 * 13. */
  const DefaultTicksPerSecond: int := 3603600
  /** 25,200 = 2^4 * 3^2 * 5^2 * 7. */
  const LowResTicksPerSecond: int := 25200

  /** The number of ticks in one second. Both choices lie below 2^22, and the
      low resolution divides the default one, so every low-resolution tick
      count is an exact number of default ticks. */
  function TicksPerSecond(res: Resolution): (tps: int)
    ensures 0 < tps < 0x40_0000
    ensures tps % LowResTicksPerSecond == 0
  {
    match res
    case Default => DefaultTicksPerSecond
    case LowRes => LowResTicksPerSecond
  }

  /** `Tick::new`: wraps a raw count without validation. */
  function New(value: i64): (t: Tick)
    ensures t.value == value
  {
    Tick(value)
  }

  /** `Tick::new` and the inner `.0` undo each other. */
  lemma NewRoundTrip(value: i64, t: Tick)
    ensures New(value).value == value
    ensures New(t.value) == t
    ensures New(value) == t <==> value == t.value
  {
  }

  const Zero: Tick := Tick(0)

  /** The three outcomes of `Ord::cmp`. */
  datatype Ordering = Less | Equal | Greater {
    function Reverse(): Ordering {
      match this
      case Less => Greater
      case Equal => Equal
      case Greater => Less
    }
  }

  /** The derived `Ord`: ticks compare as their counts do. */
  function Compare(a: Tick, b: Tick): (o: Ordering)
    ensures o == Equal <==> a == b
    ensures o == Less <==> a.value < b.value
  {
    if a.value < b.value then Less
    else if a.value == b.value then Equal
    else Greater
  }

  /** The derived `PartialOrd::le`. */
  predicate Le(a: Tick, b: Tick)
    ensures Le(a, b) <==> a.value <= b.value
  {
    Compare(a, b) != Greater
  }

  /** The derived ordering is a total order, and swapping the operands of
      `cmp` reverses its answer. */
  lemma CompareIsTotalOrder(a: Tick, b: Tick, c: Tick)
    ensures Compare(a, b) == Compare(b, a).Reverse()
    ensures Le(a, a)
    ensures Le(a, b) && Le(b, a) ==> a == b
    ensures Le(a, b) && Le(b, c) ==> Le(a, c)
    ensures Le(a, b) || Le(b, a)
  {
  }

  /** The derived `Add`. Overflow of the inner `i64` is excluded by the
      precondition. Adding a positive tick count moves later, a negative one
      earlier. */
  function Add(a: Tick, b: Tick): (r: Tick)
    requires InI64(a.value + b.value)
    ensures Compare(r, a) == Compare(b, Zero)
  {
    Tick(a.value + b.value)
  }

  /** The derived `Sub`. Overflow of the inner `i64` is excluded by the
      precondition. Subtracting a positive tick count moves earlier. */
  function Sub(a: Tick, b: Tick): (r: Tick)
    requires InI64(a.value - b.value)
    ensures Compare(r, a) == Compare(Zero, b)
  {
    Tick(a.value - b.value)
  }

  /** Subtraction undoes addition and the other way round; addition is
      commutative and associative with `Zero` as its identity. */
  lemma AddSubInverse(a: Tick, b: Tick, c: Tick)
    ensures InI64(a.value + b.value) ==> Sub(Add(a, b), b) == a
    ensures InI64(a.value - b.value) ==> Add(Sub(a, b), b) == a
    ensures InI64(a.value + b.value) ==> Add(a, b) == Add(b, a)
    ensures Add(a, Zero) == a
    ensures InI64(a.value + b.value) && InI64(b.value + c.value) && InI64(a.value + b.value + c.value) ==>
      Add(Add(a, b), c) == Add(a, Add(b, c))
  {
  }

  /** Adding the same tick count to both sides keeps their order. */
  lemma AddMonotone(a: Tick, b: Tick, c: Tick)
    requires Le(a, b)
    requires InI64(a.value + c.value) && InI64(b.value + c.value)
    ensures Le(Add(a, c), Add(b, c))
  {
  }

  /** The derived scalar `Mul`: `Tick * i64`. Overflow of the inner `i64` is
      excluded by the precondition. The scalar division undoes it. */
  function Mul(t: Tick, k: i64): (r: Tick)
    requires InI64(t.value * k)
    ensures k == -1 ==> r.value == -t.value
    ensures k != 0 ==> Div(r, k) == t
  {
    assert k != 0 ==> TruncDiv(t.value * k, k) == t.value by {
      if k != 0 {
        TruncDivExact(t.value, k);
      }
    }
    Tick(t.value * k)
  }

  /** The derived scalar `Div`: `Tick / i64`, Rust's truncating integer
      division. Division by zero and `i64::MIN / -1` panic in the source and
      are excluded by the precondition. */
  function Div(t: Tick, k: i64): (r: Tick)
    requires k != 0 && !(t.value == MinI64 && k == -1)
    ensures IsTruncQuotient(r.value, t.value, k)
    ensures Abs(r.value) <= Abs(t.value)
  {
    TruncDivShrinks(t.value, k);
    assert k == -1 ==> TruncDiv(t.value, k) == -t.value by {
      if k == -1 {
        TruncDivExact(-t.value, -1);
      }
    }
    Tick(TruncDiv(t.value, k))
  }

  /** Scalar division rounds toward zero: negating the dividend negates the
      quotient, and multiplying back never overshoots the dividend. */
  lemma DivRoundsTowardZero(t: Tick, k: i64)
    requires k != 0 && t.value != MinI64
    ensures Div(Tick(-t.value), k).value == -Div(t, k).value
    ensures Abs(Div(t, k).value * k) <= Abs(t.value)
  {
    TruncDivNeg(t.value, k);
    MulAbs(Div(t, k).value, k);
  }
}
