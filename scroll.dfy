/**
 * The scroll accumulator of the viewer (vello/src/main.rs:74-83): every
 * wheel event moves `scroll_delta` by a line- or pixel-based amount and the
 * result is floored at zero, with no ceiling.
 */
module Scroll {

  /** SCROLL_FACTOR_THRESHOLD: one wheel line is worth this many units. */
  const Threshold: real := 100.0

  /** winit's MouseScrollDelta: whole lines, or pixels (only `y` is used). */
  datatype ScrollDelta =
    | LineDelta(columns: real, lines: real)
    | PixelDelta(x: real, y: real)

  function Max(a: real, b: real): real {
    if a >= b then a else b
  }

  /** f64::signum on a finite value: zero counts as positive. */
  function Signum(x: real): real {
    if x >= 0.0 then 1.0 else -1.0
  }

  /** What one wheel event subtracts from the accumulator. */
  function Amount(delta: ScrollDelta): real {
    match delta
    case LineDelta(_, lines) => Signum(lines) * Threshold
    case PixelDelta(_, y) => y
  }

  /**
   * The accumulator after one wheel event: the amount is subtracted and the
   * result is clamped below at zero and nowhere else.
   */
  function Apply(value: real, delta: ScrollDelta): (r: real)
    ensures r >= 0.0
    ensures r >= value - Amount(delta)
    ensures r == value - Amount(delta) || r == 0.0
  {
    Max(value - Amount(delta), 0.0)
  }

  /** A line event moves by exactly one threshold; zero lines count as scrolling up. */
  lemma LineDeltaStep(value: real, columns: real, lines: real)
    requires value >= 0.0
    ensures lines < 0.0 ==> Apply(value, LineDelta(columns, lines)) == value + Threshold
    ensures lines >= 0.0 ==>
      Apply(value, LineDelta(columns, lines)) == (if value >= Threshold then value - Threshold else 0.0)
  {
  }

  /** A larger accumulator stays at least as large after the same event. */
  lemma ApplyMonotone(v1: real, v2: real, delta: ScrollDelta)
    requires v1 <= v2
    ensures Apply(v1, delta) <= Apply(v2, delta)
  {
  }

  /**
   * Scrolling by some pixels and then by the opposite amount does not always
   * restore the accumulator: the part clipped by the floor is lost, and the
   * result is the larger of the old value and the pixel amount.
   */
  lemma PixelRoundTrip(value: real, x: real, y: real)
    requires value >= 0.0
    ensures Apply(Apply(value, PixelDelta(x, y)), PixelDelta(x, -y)) == Max(value, y)
  {
  }

  /** The same for line events: scrolling down then up is exact, up then down is floored. */
  lemma LineRoundTrip(value: real, columns: real, lines: real)
    requires value >= 0.0 && lines != 0.0
    ensures lines < 0.0 ==>
      Apply(Apply(value, LineDelta(columns, lines)), LineDelta(columns, -lines)) == value
    ensures lines > 0.0 ==>
      Apply(Apply(value, LineDelta(columns, lines)), LineDelta(columns, -lines)) == Max(value, Threshold)
  {
  }
}
