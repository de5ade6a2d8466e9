/** Display precision: how the `-p` flag is clamped, and how a value is cut
    down to that many decimals before it is shown. */
module Precision {
  import opened Outcomes

  /** Largest precision the program accepts. */
  const MaxPrecision: nat := 6

  /** The effective precision: a missing `-p` counts as 0, and a value outside
      0..6 is ignored in favour of 0. */
  function EffectivePrecision(p: Option<int>): (r: nat)
    ensures r <= MaxPrecision
    ensures p.Some? && 0 <= p.value <= MaxPrecision ==> r == p.value
    ensures p.None? || p.value < 0 || p.value > MaxPrecision ==> r == 0
  {
    if p.None? then 0
    else if 0 <= p.value <= MaxPrecision then p.value
    else 0
  }

  /** 10 to the power p. */
  function Pow10(p: nat): (r: real)
    ensures r >= 1.0
    ensures p > 0 ==> r >= 10.0
  {
    if p == 0 then 1.0 else 10.0 * Pow10(p - 1)
  }

  /** Python's `int()` on a float: drop the fractional part, that is, round
      toward zero. */
  function TruncateTowardZero(x: real): (n: int)
    ensures 0.0 <= x ==> 0 <= n && n as real <= x < n as real + 1.0
    ensures x < 0.0 ==> n <= 0 && n as real - 1.0 < x <= n as real
  {
    if x >= 0.0 then x.Floor else -((-x).Floor)
  }

  /** v is a whole number. */
  predicate IsWhole(v: real) {
    v.Floor as real == v
  }

  /** y has at most p decimals: it is a whole multiple of 10^-p. */
  predicate OnGrid(y: real, p: nat) {
    IsWhole(y * Pow10(p))
  }

  /** `get_precision`: precision 0 truncates toward zero, any other precision
      keeps p decimals by rounding down (toward minus infinity). For p > 0
      the two clauses together single out one value (GetPrecisionIsUnique). */
  function GetPrecision(x: real, p: nat): (y: real)
    ensures p == 0 ==> y == TruncateTowardZero(x) as real
    ensures p > 0 ==> OnGrid(y, p) && y <= x < y + 1.0 / Pow10(p)
  {
    if p == 0 then TruncateTowardZero(x) as real
    else
      FloorBounds(x, Pow10(p));
      RoundDownOnGrid(x, p);
      RoundDown(x, Pow10(p))
  }

  /** Rounding down to the 10^-p grid lands on the grid. */
  lemma RoundDownOnGrid(x: real, p: nat)
    ensures OnGrid(RoundDown(x, Pow10(p)), p)
  {
    RoundDownIsWhole(x, Pow10(p));
  }

  lemma RoundDownIsWhole(x: real, scale: real)
    requires scale > 0.0
    ensures IsWhole(RoundDown(x, scale) * scale)
  {
    var f := (x * scale).Floor;
    DivideThenMultiply(f as real, scale);
    assert RoundDown(x, scale) * scale == f as real;
  }

  lemma DivideThenMultiply(a: real, scale: real)
    requires scale > 0.0
    ensures (a / scale) * scale == a
  {
  }

  /** The largest multiple of 1/scale that does not exceed x. */
  function RoundDown(x: real, scale: real): real
    requires scale > 0.0
  {
    (x * scale).Floor as real / scale
  }

  /** Scaling, rounding down and scaling back lands within one step of the
      grid below x. */
  lemma FloorBounds(x: real, scale: real)
    requires scale > 0.0
    ensures RoundDown(x, scale) <= x < RoundDown(x, scale) + 1.0 / scale
  {
    var f := (x * scale).Floor as real;
    assert f <= x * scale < f + 1.0;
    DivideBothSides(f, x * scale, scale);
    DivideBothSides(x * scale, f + 1.0, scale);
    assert (x * scale) / scale == x;
    assert (f + 1.0) / scale == f / scale + 1.0 / scale;
  }

  lemma DivideBothSides(a: real, b: real, scale: real)
    requires scale > 0.0 && a <= b
    ensures a / scale <= b / scale
    ensures a < b ==> a / scale < b / scale
  {
    assert b / scale - a / scale == (b - a) / scale;
  }

  /** With p > 0 the shown value is the largest multiple of 10^-p that does
      not exceed x: no grid point between it and x is skipped. */
  lemma {:induction false} GetPrecisionIsGreatestGridPoint(x: real, p: nat, k: int)
    requires p > 0
    requires k as real / Pow10(p) <= x
    ensures k as real / Pow10(p) <= GetPrecision(x, p)
  {
    RoundDownIsGreatest(x, Pow10(p), k);
  }

  lemma RoundDownIsGreatest(x: real, scale: real, k: int)
    requires scale > 0.0
    requires k as real / scale <= x
    ensures k as real / scale <= RoundDown(x, scale)
  {
    var f := (x * scale).Floor;
    assert k as real == (k as real / scale) * scale;
    assert k as real <= x * scale by {
      MultiplyBothSides(k as real / scale, x, scale);
    }
    assert k <= f;
    DivideBothSides(k as real, f as real, scale);
  }

  /** With p > 0 no other value on the 10^-p grid lies within one step at
      or below x: the contract of GetPrecision determines its result. */
  lemma {:induction false} GetPrecisionIsUnique(x: real, p: nat, z: real)
    requires p > 0
    requires OnGrid(z, p) && z <= x < z + 1.0 / Pow10(p)
    ensures z == GetPrecision(x, p)
  {
    RoundDownIsUnique(x, Pow10(p), z);
  }

  lemma RoundDownIsUnique(x: real, scale: real, z: real)
    requires scale > 0.0
    requires IsWhole(z * scale)
    requires z <= x < z + 1.0 / scale
    ensures z == RoundDown(x, scale)
  {
    var m := (z * scale).Floor;
    var n := (x * scale).Floor;
    MultiplyThenDivide(z, scale);
    assert z == m as real / scale;
    RoundDownIsGreatest(x, scale, m);
    FloorBounds(x, scale);
    assert (m + 1) as real / scale == m as real / scale + 1.0 / scale;
    GridPointsWithinOneStep(scale, m, n);
  }

  lemma MultiplyThenDivide(a: real, scale: real)
    requires scale > 0.0
    ensures (a * scale) / scale == a
  {
  }

  /** Two grid points less than one step apart are the same point. */
  lemma GridPointsWithinOneStep(scale: real, m: int, n: int)
    requires scale > 0.0
    requires m as real / scale <= n as real / scale < (m + 1) as real / scale
    ensures m == n
  {
    MultiplyBothSides(m as real / scale, n as real / scale, scale);
    DivideThenMultiply(m as real, scale);
    DivideThenMultiply(n as real, scale);
    DivideThenMultiply((m + 1) as real, scale);
    if n >= m + 1 {
      DivideBothSides((m + 1) as real, n as real, scale);
    }
  }

  lemma MultiplyBothSides(a: real, b: real, scale: real)
    requires scale > 0.0 && a <= b
    ensures a * scale <= b * scale
  {
    assert b * scale - a * scale == (b - a) * scale;
  }

  lemma RoundDownMonotone(x: real, z: real, scale: real)
    requires scale > 0.0 && x <= z
    ensures RoundDown(x, scale) <= RoundDown(z, scale)
  {
    MultiplyBothSides(x, z, scale);
    assert (x * scale).Floor <= (z * scale).Floor;
    DivideBothSides((x * scale).Floor as real, (z * scale).Floor as real, scale);
  }

  /** A larger value is never shown as a smaller one, at any precision. */
  lemma {:induction false} GetPrecisionMonotone(x: real, z: real, p: nat)
    requires x <= z
    ensures GetPrecision(x, p) <= GetPrecision(z, p)
  {
    if p == 0 {
      if 0.0 <= x {
        assert x.Floor <= z.Floor;
      } else if z < 0.0 {
        assert (-z).Floor <= (-x).Floor;
      }
    } else {
      RoundDownMonotone(x, z, Pow10(p));
    }
  }

  /** The two rounding rules disagree below zero: for a negative value that
      is not already on the display grid, precision 0 rounds up, toward zero,
      and every other precision rounds down. */
  lemma NegativeValuesSplitByPrecision(x: real, p: nat)
    requires x < 0.0 && GetPrecision(x, p) != x
    ensures p == 0 ==> GetPrecision(x, p) > x
    ensures p > 0 ==> GetPrecision(x, p) < x
  {
  }

  /** Worked values: two decimals of 1.23456789, and 1.999 at precision 0. */
  lemma Examples()
    ensures GetPrecision(1.23456789, 2) == 1.23
    ensures GetPrecision(1.999, 0) == 1.0
    ensures GetPrecision(-1.5, 0) == -1.0
    ensures GetPrecision(-1.55, 1) == -1.6
  {
    assert Pow10(2) == 100.0;
    assert Pow10(1) == 10.0;
  }
}
