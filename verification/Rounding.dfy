/** Integer and real helpers shared by the whole controller.  Reals stand for
    the float64 values of the implementation, so rounding to an integer is
    always an explicit call. */
module Rounding {

  /** Round half away from zero (Go's math.Round followed by int). */
  function RoundHalfAway(x: real): (r: int)
    ensures x - 0.5 <= r as real <= x + 0.5
  {
    if x >= 0.0 then (x + 0.5).Floor else -((-x + 0.5).Floor)
  }

  /** Go's int(math.Floor(x + 0.5)). */
  function RoundHalfUp(x: real): (r: int)
    ensures x - 0.5 < r as real <= x + 0.5
  {
    (x + 0.5).Floor
  }

  /** Go's int(x): truncation toward zero. */
  function Trunc(x: real): (r: int)
    ensures x >= 0.0 ==> 0 <= r && r as real <= x < r as real + 1.0
    ensures x <= 0.0 ==> r <= 0 && r as real - 1.0 < x <= r as real
  {
    if x >= 0.0 then x.Floor else -((-x).Floor)
  }

  /** Go's int(math.Ceil(x)). */
  function Ceiling(x: real): (r: int)
    ensures r as real - 1.0 < x <= r as real
  {
    -((-x).Floor)
  }

  function Clamp(v: int, lo: int, hi: int): int {
    if v < lo then lo else if v > hi then hi else v
  }

  function Max(a: int, b: int): int { if a < b then b else a }

  function Min(a: int, b: int): int { if a < b then a else b }

  function Abs(a: int): nat { if a < 0 then -a else a }

  function MaxReal(a: real, b: real): real { if a < b then b else a }

  function MinReal(a: real, b: real): real { if a < b then a else b }

  function AbsReal(a: real): real { if a < 0.0 then -a else a }

  /** A product by name, so that a proof can hide it and treat it as one term. */
  function Times(x: real, y: real): real { x * y }

  // Real products, one scalar step at a time.

  lemma MulMonotone(k: real, x: real, y: real)
    requires k >= 0.0 && x <= y
    ensures x * k <= y * k
  {
  }

  lemma MulStrict(k: real, x: real, y: real)
    requires k > 0.0 && x < y
    ensures x * k < y * k
  {
  }

  lemma PartOf(q: real, h: real)
    requires 0.0 <= q <= 1.0 && h >= 0.0
    ensures 0.0 <= q * h <= h
  {
    MulMonotone(h, 0.0, q);
    MulMonotone(h, q, 1.0);
  }

  /** A quotient is the unique solution of the product equation. */
  lemma Quotient(x: real, w: real)
    requires w > 0.0
    ensures x / w * w == x
    ensures 0.0 <= x <= w ==> 0.0 <= x / w <= 1.0
    ensures x >= w ==> x / w >= 1.0
  {
    var q := x / w;
    assert q * w == x;
    if 0.0 <= x && q < 0.0 { MulStrict(w, q, 0.0); }
    if x <= w && q > 1.0 { MulStrict(w, 1.0, q); }
    if x >= w && q < 1.0 { MulStrict(w, q, 1.0); }
  }

  lemma TimesZero(x: real)
    ensures Times(x, 0.0) == 0.0 && Times(0.0, x) == 0.0
  {
  }

  lemma SquareSign(x: real)
    ensures x == 0.0 ==> Times(x, x) == 0.0
    ensures x != 0.0 ==> Times(x, x) > 0.0
  {
    hide Times;
    TimesZero(0.0);
    if x > 0.0 {
      PositiveProduct(x, x);
    } else if x < 0.0 {
      NegativeProduct(x, x);
    }
  }

  lemma PositiveProduct(x: real, y: real)
    requires x > 0.0 && y > 0.0
    ensures Times(x, y) > 0.0
  {
    assert x * y > 0.0;
  }

  lemma NegativeProduct(x: real, y: real)
    requires x < 0.0 && y < 0.0
    ensures Times(x, y) > 0.0
  {
    assert x * y > 0.0;
  }

  lemma WholeRounds(n: int)
    ensures RoundHalfAway(n as real) == n
  {
  }

  lemma RoundHalfAwayMonotone(x: real, y: real)
    requires x <= y
    ensures RoundHalfAway(x) <= RoundHalfAway(y)
  {
  }

  /** Rounding adds strictly less than one unit to a difference. */
  lemma RoundHalfUpGap(x: real, y: real, gap: real)
    requires AbsReal(x - y) <= gap
    ensures Abs(RoundHalfUp(x) - RoundHalfUp(y)) as real < gap + 1.0
  {
  }
}
