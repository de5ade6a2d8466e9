/** The concentration formulas of the two phases in the three modes.
    Exponential decay `0.5 ** x` is not computed: every formula that needs it
    takes it as a function `halfPow` that obeys the laws of IsHalfPow, and
    the natural logarithm of 2 is a positive parameter `ln2`. */
module Kinetics {
  import opened Precision

  /** What the model relies on about x |-> 0.5 ** x: it is 1 at 0, one half
      at 1, always positive, and strictly decreasing. */
  ghost predicate IsHalfPow(halfPow: real -> real) {
    && halfPow(0.0) == 1.0
    && halfPow(1.0) == 0.5
    && (forall x :: 0.0 < halfPow(x))
    && (forall x, y :: x < y ==> halfPow(y) < halfPow(x))
  }

  /** A decay factor for a non-negative exponent lies in (0, 1]. */
  lemma HalfPowOfNonNegative(halfPow: real -> real, x: real)
    requires IsHalfPow(halfPow) && 0.0 <= x
    ensures 0.0 < halfPow(x) <= 1.0
  {
    if x > 0.0 {
      assert halfPow(x) < halfPow(0.0);
    }
  }

  /** `get_constant`: the first-order rate constant ln 2 / half-life. */
  function GetConstant(ln2: real, halfLife: real): (k: real)
    requires halfLife != 0.0
    ensures k * halfLife == ln2
    ensures 0.0 < ln2 && 0.0 < halfLife ==> 0.0 < k
  {
    ln2 / halfLife
  }

  // ---------------------------------------------------------------------
  // Elimination phase

  /** Exponential elimination before truncation: the dose halves with every
      half-life elapsed since tmax. */
  function EliminationLevel(dose: real, timeSinceTmax: real, halfLife: real,
                            halfPow: real -> real): (c: real)
    requires halfLife != 0.0
  {
    dose * halfPow(timeSinceTmax / halfLife)
  }

  /** `elimination_functions.get_concentration`. */
  function EliminationConcentration(dose: real, timeSinceTmax: real, halfLife: real,
                                    prec: nat, halfPow: real -> real): (c: real)
    requires halfLife != 0.0
    ensures prec == 0 ==> c == TruncateTowardZero(EliminationLevel(dose, timeSinceTmax, halfLife, halfPow)) as real
    ensures prec > 0 ==> OnGrid(c, prec) && c <= EliminationLevel(dose, timeSinceTmax, halfLife, halfPow) < c + 1.0 / Pow10(prec)
  {
    GetPrecision(EliminationLevel(dose, timeSinceTmax, halfLife, halfPow), prec)
  }

  /** `elimination_functions.get_probability`: the percentage of the dose
      still present, rounded down, whatever the dose. */
  function Probability(timeSinceTmax: real, halfLife: real,
                       halfPow: real -> real): (percent: int)
    requires halfLife != 0.0
    ensures percent as real <= halfPow(timeSinceTmax / halfLife) * 100.0 < percent as real + 1.0
    ensures 0.0 <= halfPow(timeSinceTmax / halfLife) <= 1.0 ==> 0 <= percent <= 100
    ensures halfPow(timeSinceTmax / halfLife) == 0.5 ==> percent == 50
  {
    (halfPow(timeSinceTmax / halfLife) * 100.0).Floor
  }

  /** Linear elimination before truncation: the dose minus a fixed fraction
      ke of it per unit of time since tmax. */
  function LinearEliminationLevel(dose: real, timeSinceTmax: real, halfLife: real,
                                  ln2: real): (c: real)
    requires halfLife != 0.0
  {
    dose - dose * timeSinceTmax * GetConstant(ln2, halfLife)
  }

  /** `elimination_functions.get_linear_concentration`. */
  function LinearEliminationConcentration(dose: real, timeSinceTmax: real, halfLife: real,
                                          prec: nat, ln2: real): (c: real)
    requires halfLife != 0.0
    ensures prec == 0 ==> c == TruncateTowardZero(LinearEliminationLevel(dose, timeSinceTmax, halfLife, ln2)) as real
    ensures prec > 0 ==> OnGrid(c, prec) && c <= LinearEliminationLevel(dose, timeSinceTmax, halfLife, ln2) < c + 1.0 / Pow10(prec)
  {
    GetPrecision(LinearEliminationLevel(dose, timeSinceTmax, halfLife, ln2), prec)
  }

  // ---------------------------------------------------------------------
  // Absorption phase

  /** Exponential absorption before truncation: the dose minus the part not
      yet absorbed, which halves with every absorption half-life. */
  function AbsorptionLevel(dose: real, timeSinceDose: real, absorptionHalfLife: real,
                           halfPow: real -> real): (c: real)
    requires absorptionHalfLife != 0.0
  {
    dose - dose * halfPow(timeSinceDose / absorptionHalfLife)
  }

  /** `absorption_functions.get_concentration`. */
  function AbsorptionConcentration(dose: real, timeSinceDose: real, absorptionHalfLife: real,
                                   prec: nat, halfPow: real -> real): (c: real)
    requires absorptionHalfLife != 0.0
    ensures prec == 0 ==> c == TruncateTowardZero(AbsorptionLevel(dose, timeSinceDose, absorptionHalfLife, halfPow)) as real
    ensures prec > 0 ==> OnGrid(c, prec) && c <= AbsorptionLevel(dose, timeSinceDose, absorptionHalfLife, halfPow) < c + 1.0 / Pow10(prec)
  {
    GetPrecision(AbsorptionLevel(dose, timeSinceDose, absorptionHalfLife, halfPow), prec)
  }

  /** Linear absorption before truncation: the dose scaled by the fraction of
      the time to peak that has elapsed. */
  function LinearAbsorptionLevel(dose: real, timeSinceDose: real, peak: real): (c: real)
    requires peak != 0.0
  {
    (timeSinceDose / peak) * dose
  }

  /** `absorption_functions.get_linear_concentration`. */
  function LinearAbsorptionConcentration(dose: real, timeSinceDose: real, peak: real,
                                         prec: nat): (c: real)
    requires peak != 0.0
    ensures prec == 0 ==> c == TruncateTowardZero(LinearAbsorptionLevel(dose, timeSinceDose, peak)) as real
    ensures prec > 0 ==> OnGrid(c, prec) && c <= LinearAbsorptionLevel(dose, timeSinceDose, peak) < c + 1.0 / Pow10(prec)
  {
    GetPrecision(LinearAbsorptionLevel(dose, timeSinceDose, peak), prec)
  }

  // ---------------------------------------------------------------------
  // Values at the ends of each phase

  /** Exponential elimination starts at the full dose at tmax and is down to
      half of it one half-life later. */
  lemma EliminationEndpoints(dose: real, halfLife: real, halfPow: real -> real)
    requires IsHalfPow(halfPow) && halfLife != 0.0
    ensures EliminationLevel(dose, 0.0, halfLife, halfPow) == dose
    ensures EliminationLevel(dose, halfLife, halfLife, halfPow) == dose / 2.0
  {
    assert halfLife / halfLife == 1.0;
  }

  /** Exponential absorption starts at zero when the dose is taken and has
      reached half the dose one absorption half-life later. */
  lemma AbsorptionEndpoints(dose: real, absorptionHalfLife: real, halfPow: real -> real)
    requires IsHalfPow(halfPow) && absorptionHalfLife != 0.0
    ensures AbsorptionLevel(dose, 0.0, absorptionHalfLife, halfPow) == 0.0
    ensures AbsorptionLevel(dose, absorptionHalfLife, absorptionHalfLife, halfPow) == dose / 2.0
  {
    assert absorptionHalfLife / absorptionHalfLife == 1.0;
  }

  /** The probability is 100 at tmax and 50 one half-life later. */
  lemma ProbabilityEndpoints(halfLife: real, halfPow: real -> real)
    requires IsHalfPow(halfPow) && halfLife != 0.0
    ensures Probability(0.0, halfLife, halfPow) == 100
    ensures Probability(halfLife, halfLife, halfPow) == 50
  {
    assert halfLife / halfLife == 1.0;
  }

  /** Linear elimination starts at the full dose at tmax. */
  lemma LinearEliminationStartsAtDose(dose: real, halfLife: real, ln2: real)
    requires halfLife != 0.0
    ensures LinearEliminationLevel(dose, 0.0, halfLife, ln2) == dose
  {
  }

  /** Linear absorption starts at zero and reaches the whole dose at the
      peak time. */
  lemma LinearAbsorptionEndpoints(dose: real, peak: real)
    requires peak != 0.0
    ensures LinearAbsorptionLevel(dose, 0.0, peak) == 0.0
    ensures LinearAbsorptionLevel(dose, peak, peak) == dose
  {
    assert peak / peak == 1.0;
  }

  // ---------------------------------------------------------------------
  // Properties across times

  /** Dividing two times by the same positive half-life keeps their order. */
  lemma ScaledTimesKeepOrder(t1: real, t2: real, h: real)
    requires 0.0 < h && t1 < t2
    ensures t1 / h < t2 / h
  {
    DivideBothSides(t1, t2, h);
  }

  lemma NonNegativeProduct(a: real, b: real)
    requires 0.0 <= a && 0.0 <= b
    ensures 0.0 <= a * b
  {
  }

  lemma ScaleStrictly(dose: real, a: real, b: real)
    requires 0.0 < dose && a < b
    ensures dose * a < dose * b
  {
    assert dose * b - dose * a == dose * (b - a);
  }

  /** Exponential elimination strictly falls as time since tmax grows. */
  lemma {:induction false} EliminationDecreasing(dose: real, t1: real, t2: real, halfLife: real,
                                                 halfPow: real -> real)
    requires IsHalfPow(halfPow) && 0.0 < dose && 0.0 < halfLife && t1 < t2
    ensures EliminationLevel(dose, t2, halfLife, halfPow) < EliminationLevel(dose, t1, halfLife, halfPow)
  {
    ScaledTimesKeepOrder(t1, t2, halfLife);
    ScaleStrictly(dose, halfPow(t2 / halfLife), halfPow(t1 / halfLife));
  }

  /** So the display of exponential elimination never rises. */
  lemma {:induction false} EliminationDisplayNeverRises(dose: real, t1: real, t2: real,
                                                        halfLife: real, prec: nat,
                                                        halfPow: real -> real)
    requires IsHalfPow(halfPow) && 0.0 < dose && 0.0 < halfLife && t1 < t2
    ensures EliminationConcentration(dose, t2, halfLife, prec, halfPow)
         <= EliminationConcentration(dose, t1, halfLife, prec, halfPow)
  {
    EliminationDecreasing(dose, t1, t2, halfLife, halfPow);
    GetPrecisionMonotone(EliminationLevel(dose, t2, halfLife, halfPow),
                         EliminationLevel(dose, t1, halfLife, halfPow), prec);
  }

  /** From tmax on, exponential elimination stays within (0, dose]. */
  lemma {:induction false} EliminationBounded(dose: real, t: real, halfLife: real,
                                              halfPow: real -> real)
    requires IsHalfPow(halfPow) && 0.0 < dose && 0.0 < halfLife && 0.0 <= t
    ensures 0.0 < EliminationLevel(dose, t, halfLife, halfPow) <= dose
  {
    DivideBothSides(0.0, t, halfLife);
    HalfPowOfNonNegative(halfPow, t / halfLife);
    NonNegativeProduct(dose, 1.0 - halfPow(t / halfLife));
    assert dose * 1.0 - dose * halfPow(t / halfLife) == dose * (1.0 - halfPow(t / halfLife));
    assert EliminationLevel(dose, t, halfLife, halfPow) == dose * halfPow(t / halfLife);
  }

  /** Exponential absorption strictly rises with time since the dose. */
  lemma {:induction false} AbsorptionIncreasing(dose: real, t1: real, t2: real,
                                                absorptionHalfLife: real, halfPow: real -> real)
    requires IsHalfPow(halfPow) && 0.0 < dose && 0.0 < absorptionHalfLife && t1 < t2
    ensures AbsorptionLevel(dose, t1, absorptionHalfLife, halfPow)
          < AbsorptionLevel(dose, t2, absorptionHalfLife, halfPow)
  {
    ScaledTimesKeepOrder(t1, t2, absorptionHalfLife);
    ScaleStrictly(dose, halfPow(t2 / absorptionHalfLife), halfPow(t1 / absorptionHalfLife));
  }

  /** So the display of exponential absorption never falls. */
  lemma {:induction false} AbsorptionDisplayNeverFalls(dose: real, t1: real, t2: real,
                                                       absorptionHalfLife: real, prec: nat,
                                                       halfPow: real -> real)
    requires IsHalfPow(halfPow) && 0.0 < dose && 0.0 < absorptionHalfLife && t1 < t2
    ensures AbsorptionConcentration(dose, t1, absorptionHalfLife, prec, halfPow)
         <= AbsorptionConcentration(dose, t2, absorptionHalfLife, prec, halfPow)
  {
    AbsorptionIncreasing(dose, t1, t2, absorptionHalfLife, halfPow);
    GetPrecisionMonotone(AbsorptionLevel(dose, t1, absorptionHalfLife, halfPow),
                         AbsorptionLevel(dose, t2, absorptionHalfLife, halfPow), prec);
  }

  /** From the dose on, exponential absorption stays within [0, dose). */
  lemma {:induction false} AbsorptionBounded(dose: real, t: real, absorptionHalfLife: real,
                                             halfPow: real -> real)
    requires IsHalfPow(halfPow) && 0.0 < dose && 0.0 < absorptionHalfLife && 0.0 <= t
    ensures 0.0 <= AbsorptionLevel(dose, t, absorptionHalfLife, halfPow) < dose
  {
    DivideBothSides(0.0, t, absorptionHalfLife);
    HalfPowOfNonNegative(halfPow, t / absorptionHalfLife);
    NonNegativeProduct(dose, 1.0 - halfPow(t / absorptionHalfLife));
    assert dose * 1.0 - dose * halfPow(t / absorptionHalfLife)
        == dose * (1.0 - halfPow(t / absorptionHalfLife));
    assert AbsorptionLevel(dose, t, absorptionHalfLife, halfPow)
        == dose - dose * halfPow(t / absorptionHalfLife);
  }

  /** From tmax on, the probability is a percentage, and it never rises. */
  lemma {:induction false} ProbabilityIsFallingPercentage(t1: real, t2: real, halfLife: real,
                                                          halfPow: real -> real)
    requires IsHalfPow(halfPow) && 0.0 < halfLife && 0.0 <= t1 <= t2
    ensures 0 <= Probability(t2, halfLife, halfPow) <= Probability(t1, halfLife, halfPow) <= 100
  {
    DivideBothSides(0.0, t1, halfLife);
    HalfPowOfNonNegative(halfPow, t1 / halfLife);
    if t1 < t2 {
      ScaledTimesKeepOrder(t1, t2, halfLife);
      assert halfPow(t2 / halfLife) < halfPow(t1 / halfLife);
    }
    assert halfPow(t2 / halfLife) * 100.0 <= halfPow(t1 / halfLife) * 100.0 <= 100.0;
  }

  /** Linear elimination reaches zero at t = half-life / ln 2 = 1 / ke, and
      it is not clamped there: it keeps falling below zero. */
  lemma {:induction false} LinearEliminationCrossesZero(dose: real, t: real, halfLife: real,
                                                        ln2: real)
    requires 0.0 < dose && 0.0 < halfLife && 0.0 < ln2
    ensures t == halfLife / ln2 ==> LinearEliminationLevel(dose, t, halfLife, ln2) == 0.0
    ensures t > halfLife / ln2 ==> LinearEliminationLevel(dose, t, halfLife, ln2) < 0.0
  {
    var ke := GetConstant(ln2, halfLife);
    assert ke == ln2 / halfLife;
    assert (halfLife / ln2) * ke == 1.0;
    if t > halfLife / ln2 {
      assert t * ke > (halfLife / ln2) * ke by {
        assert t * ke - (halfLife / ln2) * ke == (t - halfLife / ln2) * ke;
      }
      ScaleStrictly(dose, 1.0, t * ke);
      assert dose * t * ke == dose * (t * ke);
    }
  }

  /** Linear elimination strictly falls as time since tmax grows. */
  lemma {:induction false} LinearEliminationDecreasing(dose: real, t1: real, t2: real,
                                                       halfLife: real, ln2: real)
    requires 0.0 < dose && 0.0 < halfLife && 0.0 < ln2 && t1 < t2
    ensures LinearEliminationLevel(dose, t2, halfLife, ln2)
          < LinearEliminationLevel(dose, t1, halfLife, ln2)
  {
    var ke := GetConstant(ln2, halfLife);
    ScaleStrictly(dose, t1, t2);
    ScaleStrictly(ke, dose * t1, dose * t2);
    assert ke * (dose * t1) == dose * t1 * ke && ke * (dose * t2) == dose * t2 * ke;
  }

  /** So the display of linear elimination never rises. */
  lemma {:induction false} LinearEliminationDisplayNeverRises(dose: real, t1: real, t2: real,
                                                              halfLife: real, prec: nat, ln2: real)
    requires 0.0 < dose && 0.0 < halfLife && 0.0 < ln2 && t1 < t2
    ensures LinearEliminationConcentration(dose, t2, halfLife, prec, ln2)
         <= LinearEliminationConcentration(dose, t1, halfLife, prec, ln2)
  {
    LinearEliminationDecreasing(dose, t1, t2, halfLife, ln2);
    GetPrecisionMonotone(LinearEliminationLevel(dose, t2, halfLife, ln2),
                         LinearEliminationLevel(dose, t1, halfLife, ln2), prec);
  }

  /** Linear absorption is proportional to the time since the dose. */
  lemma {:induction false} LinearAbsorptionProportional(dose: real, t: real, peak: real, a: real)
    requires peak != 0.0
    ensures LinearAbsorptionLevel(dose, a * t, peak) == a * LinearAbsorptionLevel(dose, t, peak)
  {
    assert (a * t) / peak == a * (t / peak);
  }
}
