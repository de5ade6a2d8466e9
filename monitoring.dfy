/** The monitor loop of `main`: every tick reads the clock, decides whether
    the absorption phase is over, and prints the current value. */
module Monitoring {
  import opened Outcomes
  import opened Precision
  import opened Kinetics
  import opened Startup

  /** One printed value: a (truncated) concentration, or in the probability
      mode's elimination phase an integer percentage. */
  datatype Reading = Concentration(amount: real) | Percentage(percent: int)

  /** What one tick prints, and the exception it raises, if any. */
  datatype TickOutcome = TickOutcome(printed: seq<Reading>, raised: Option<Fault>)

  /** The three clock readings of one tick, in the order they are taken: for
      the time since the dose, for the time since tmax, and for the new
      tmax epoch (used only when the phase changes on this tick). */
  datatype Clock = Clock(doseReading: real, tmaxReading: real, epochReading: real)

  /** The loop's own state: whether tmax has been passed, and when. */
  datatype Phase = Phase(tmaxed: bool, tmaxEpoch: real)

  /** Before the first tick: absorbing, with the epoch still at 0. */
  const Absorbing: Phase := Phase(false, 0.0)

  /** The value shown during absorption in each mode; the linear and the
      probability modes both use the linear ramp up to tmax. */
  function AbsorptionReading(s: Settings, halfPow: real -> real, timeSinceDose: real)
    : (r: Result<Reading>)
    ensures r.Ok? ==> r.value.Concentration?
    ensures s.mode == DefaultMode ==>
      (r.Err? <==> s.absorptionHalfLife.None? || s.absorptionHalfLife.value == 0.0)
    ensures s.mode != DefaultMode ==> (r.Err? <==> s.tmax.None? || s.tmax.value == 0.0)
    ensures r.Err? && s.mode == DefaultMode ==>
      (r.fault == TypeError <==> s.absorptionHalfLife.None?)
    ensures r.Err? && s.mode != DefaultMode ==> (r.fault == TypeError <==> s.tmax.None?)
    // exponential absorption in the default mode, the linear ramp to tmax otherwise
    ensures r.Ok? && s.mode == DefaultMode ==>
      r.value == Concentration(AbsorptionConcentration(s.dose, timeSinceDose,
                                                       s.absorptionHalfLife.value, s.precision, halfPow))
    ensures r.Ok? && s.mode != DefaultMode ==>
      r.value == Concentration(LinearAbsorptionConcentration(s.dose, timeSinceDose,
                                                             s.tmax.value, s.precision))
  {
    match s.mode
    case DefaultMode =>
      if s.absorptionHalfLife.None? then Err(TypeError)
      else if s.absorptionHalfLife.value == 0.0 then Err(ZeroDivisionError)
      else Ok(Concentration(AbsorptionConcentration(s.dose, timeSinceDose,
                                                    s.absorptionHalfLife.value, s.precision, halfPow)))
    case _ =>
      if s.tmax.None? then Err(TypeError)
      else if s.tmax.value == 0.0 then Err(ZeroDivisionError)
      else Ok(Concentration(LinearAbsorptionConcentration(s.dose, timeSinceDose,
                                                          s.tmax.value, s.precision)))
  }

  /** The value shown during elimination in each mode. */
  function EliminationReading(s: Settings, ln2: real, halfPow: real -> real, timeSinceTmax: real)
    : (r: Result<Reading>)
    ensures r.Ok? ==> (r.value.Percentage? <==> s.mode == ProbabilityMode)
    ensures r.Err? <==> s.halfLife.None? || s.halfLife.value == 0.0
    ensures r.Err? ==> (r.fault == TypeError <==> s.halfLife.None?)
    // one elimination formula per mode
    ensures r.Ok? && s.mode == DefaultMode ==>
      r.value == Concentration(EliminationConcentration(s.dose, timeSinceTmax, s.halfLife.value,
                                                        s.precision, halfPow))
    ensures r.Ok? && s.mode == LinearMode ==>
      r.value == Concentration(LinearEliminationConcentration(s.dose, timeSinceTmax, s.halfLife.value,
                                                              s.precision, ln2))
    ensures r.Ok? && s.mode == ProbabilityMode ==>
      r.value == Percentage(Probability(timeSinceTmax, s.halfLife.value, halfPow))
  {
    if s.halfLife.None? then Err(TypeError)
    else if s.halfLife.value == 0.0 then Err(ZeroDivisionError)
    else
      match s.mode
      case DefaultMode =>
        Ok(Concentration(EliminationConcentration(s.dose, timeSinceTmax, s.halfLife.value,
                                                  s.precision, halfPow)))
      case LinearMode =>
        Ok(Concentration(LinearEliminationConcentration(s.dose, timeSinceTmax, s.halfLife.value,
                                                        s.precision, ln2)))
      case ProbabilityMode =>
        Ok(Percentage(Probability(timeSinceTmax, s.halfLife.value, halfPow)))
  }

  /** In every mode the value shown during elimination never rises as the
      time since tmax grows: a concentration in the default and linear modes,
      a percentage within 0..100 in the probability mode. */
  lemma {:induction false} EliminationReadingNeverRises(s: Settings, ln2: real, halfPow: real -> real,
                                                        t1: real, t2: real)
    requires IsHalfPow(halfPow) && 0.0 < ln2 && 0.0 < s.dose
    requires s.halfLife.Some? && 0.0 < s.halfLife.value && 0.0 <= t1 < t2
    ensures EliminationReading(s, ln2, halfPow, t1).Ok? && EliminationReading(s, ln2, halfPow, t2).Ok?
    ensures s.mode != ProbabilityMode ==>
      EliminationReading(s, ln2, halfPow, t2).value.amount
      <= EliminationReading(s, ln2, halfPow, t1).value.amount
    ensures s.mode == ProbabilityMode ==>
      0 <= EliminationReading(s, ln2, halfPow, t2).value.percent
        <= EliminationReading(s, ln2, halfPow, t1).value.percent <= 100
  {
    var h := s.halfLife.value;
    match s.mode
    case DefaultMode =>
      EliminationDisplayNeverRises(s.dose, t1, t2, h, s.precision, halfPow);
    case LinearMode =>
      LinearEliminationDisplayNeverRises(s.dose, t1, t2, h, s.precision, ln2);
    case ProbabilityMode =>
      ProbabilityIsFallingPercentage(t1, t2, h, halfPow);
  }

  /** In every mode the value shown during absorption never falls as the
      time since the dose grows. */
  lemma {:induction false} AbsorptionReadingNeverFalls(s: Settings, halfPow: real -> real,
                                                       t1: real, t2: real)
    requires IsHalfPow(halfPow) && 0.0 < s.dose && t1 < t2
    requires s.mode == DefaultMode ==>
      s.absorptionHalfLife.Some? && 0.0 < s.absorptionHalfLife.value
    requires s.mode != DefaultMode ==> s.tmax.Some? && 0.0 < s.tmax.value
    ensures AbsorptionReading(s, halfPow, t1).Ok? && AbsorptionReading(s, halfPow, t2).Ok?
    ensures AbsorptionReading(s, halfPow, t1).value.amount
         <= AbsorptionReading(s, halfPow, t2).value.amount
  {
    if s.mode == DefaultMode {
      AbsorptionDisplayNeverFalls(s.dose, t1, t2, s.absorptionHalfLife.value, s.precision, halfPow);
    } else {
      var peak := s.tmax.value;
      DivideBothSides(t1, t2, peak);
      MultiplyBothSides(t1 / peak, t2 / peak, s.dose);
      assert (t1 / peak) * s.dose <= (t2 / peak) * s.dose;
      GetPrecisionMonotone(LinearAbsorptionLevel(s.dose, t1, peak),
                           LinearAbsorptionLevel(s.dose, t2, peak), s.precision);
    }
  }

  /** The phase ends on a tick that starts absorbing and finds that at least
      tmax seconds have passed since the start. */
  predicate Due(s: Settings, startTime: real, phase: Phase, c: Clock) {
    !phase.tmaxed && s.tmax.Some? && c.doseReading - startTime >= s.tmax.value
  }

  /** One iteration of the loop as a function of the phase before it. Both
      elapsed times are taken before the phase check, so a tick that ends
      absorption measures its time since tmax from the epoch it started
      with. */
  function Step(s: Settings, startTime: real, ln2: real, halfPow: real -> real,
                phase: Phase, c: Clock): (r: (Phase, TickOutcome))
    ensures phase.tmaxed ==> r.0 == phase
    ensures !phase.tmaxed && r.1.raised.None? ==> (r.0.tmaxed <==> Due(s, startTime, phase, c))
    ensures Due(s, startTime, phase, c) ==> r.0 == Phase(true, c.epochReading)
    ensures !Due(s, startTime, phase, c) ==> r.0 == phase
    ensures r.1.raised.None? ==> 1 <= |r.1.printed| <= 2
    // after tmax: the elimination value, measured from the recorded epoch
    ensures phase.tmaxed ==>
      (r.1.raised.None? <==> EliminationReading(s, ln2, halfPow, c.tmaxReading - phase.tmaxEpoch).Ok?)
    ensures phase.tmaxed && r.1.raised.None? ==>
      r.1.printed == [EliminationReading(s, ln2, halfPow, c.tmaxReading - phase.tmaxEpoch).value]
    // still absorbing: the absorption value, measured from the start
    ensures !phase.tmaxed && !Due(s, startTime, phase, c) ==>
      (r.1.raised.None? <==> s.tmax.Some? && AbsorptionReading(s, halfPow, c.doseReading - startTime).Ok?)
    ensures !phase.tmaxed && !Due(s, startTime, phase, c) && r.1.raised.None? ==>
      r.1.printed == [AbsorptionReading(s, halfPow, c.doseReading - startTime).value]
    // the transition tick: both, the elimination value from the epoch the tick started with
    ensures Due(s, startTime, phase, c) ==>
      (r.1.raised.None? <==> AbsorptionReading(s, halfPow, c.doseReading - startTime).Ok?
                             && EliminationReading(s, ln2, halfPow, c.tmaxReading - phase.tmaxEpoch).Ok?)
    ensures Due(s, startTime, phase, c) && r.1.raised.None? ==>
      r.1.printed == [AbsorptionReading(s, halfPow, c.doseReading - startTime).value,
                      EliminationReading(s, ln2, halfPow, c.tmaxReading - phase.tmaxEpoch).value]
  {
    var timeSinceDose := c.doseReading - startTime;
    var timeSinceTmax := c.tmaxReading - phase.tmaxEpoch;
    if phase.tmaxed then
      match EliminationReading(s, ln2, halfPow, timeSinceTmax)
      case Err(f) => (phase, TickOutcome([], Some(f)))
      case Ok(e) => (phase, TickOutcome([e], None))
    else if s.tmax.None? then
      (phase, TickOutcome([], Some(TypeError)))
    else
      var next := if Due(s, startTime, phase, c) then Phase(true, c.epochReading) else phase;
      match AbsorptionReading(s, halfPow, timeSinceDose)
      case Err(f) => (next, TickOutcome([], Some(f)))
      case Ok(a) =>
        if !next.tmaxed then (next, TickOutcome([a], None))
        else
          match EliminationReading(s, ln2, halfPow, timeSinceTmax)
          case Err(f) => (next, TickOutcome([a], Some(f)))
          case Ok(e) => (next, TickOutcome([a, e], None))
  }

  /** A finite prefix of the loop: ticks run in order until one raises. */
  function Run(s: Settings, startTime: real, ln2: real, halfPow: real -> real,
               phase: Phase, clocks: seq<Clock>): (r: (Phase, seq<TickOutcome>))
    ensures |r.1| <= |clocks|
    decreases |clocks|
  {
    if clocks == [] then (phase, [])
    else
      var (next, out) := Step(s, startTime, ln2, halfPow, phase, clocks[0]);
      if out.raised.Some? then (next, [out])
      else
        var rest := Run(s, startTime, ln2, halfPow, next, clocks[1..]);
        (rest.0, [out] + rest.1)
  }

  /** Settings under which no tick can raise: the unit was recognised, and
      no divisor the mode uses is zero. */
  predicate Runnable(s: Settings) {
    && s.tmax.Some? && s.halfLife.Some? && s.absorptionHalfLife.Some?
    && s.halfLife.value != 0.0
    && (s.mode == DefaultMode ==> s.absorptionHalfLife.value != 0.0)
    && (s.mode != DefaultMode ==> s.tmax.value != 0.0)
  }

  /** Under runnable settings a tick never raises; it prints one value, or
      two on the tick that ends absorption. */
  lemma StepPrints(s: Settings, startTime: real, ln2: real, halfPow: real -> real,
                   phase: Phase, c: Clock)
    requires Runnable(s)
    ensures Step(s, startTime, ln2, halfPow, phase, c).1.raised.None?
    ensures |Step(s, startTime, ln2, halfPow, phase, c).1.printed|
         == if Due(s, startTime, phase, c) then 2 else 1
  {
  }

  /** A unit that fell through conversion makes the first tick raise, before
      anything is printed. */
  lemma UnrecognisedUnitFailsFirstTick(s: Settings, startTime: real, ln2: real,
                                       halfPow: real -> real, c: Clock)
    requires s.tmax.None?
    ensures Step(s, startTime, ln2, halfPow, Absorbing, c) == (Absorbing, TickOutcome([], Some(TypeError)))
  {
  }

  /** The tick that ends absorption prints the absorption value and then the
      elimination value, and the latter is computed from the time since the
      OLD epoch: from the start of the loop that is the raw clock reading
      itself, not the (near zero) time since the new epoch. The dose assigned
      at the transition is never printed. */
  lemma TransitionTickUsesStaleEpoch(s: Settings, startTime: real, ln2: real,
                                     halfPow: real -> real, c: Clock)
    requires Runnable(s) && Due(s, startTime, Absorbing, c)
    ensures Step(s, startTime, ln2, halfPow, Absorbing, c)
         == (Phase(true, c.epochReading),
             TickOutcome([AbsorptionReading(s, halfPow, c.doseReading - startTime).value,
                          EliminationReading(s, ln2, halfPow, c.tmaxReading).value],
                         None))
  {
    assert c.tmaxReading - Absorbing.tmaxEpoch == c.tmaxReading;
  }

  /** In the probability mode, the transition tick therefore shows the
      percentage left after c.tmaxReading seconds, which for any clock
      reading at or past one half-life is at most 50. */
  lemma {:induction false} TransitionPercentageFromClock(s: Settings, startTime: real, ln2: real,
                                                         halfPow: real -> real, c: Clock)
    requires Runnable(s) && Due(s, startTime, Absorbing, c) && s.mode == ProbabilityMode
    requires IsHalfPow(halfPow) && 0.0 < s.halfLife.value <= c.tmaxReading
    ensures Step(s, startTime, ln2, halfPow, Absorbing, c).1.printed[1].percent <= 50
  {
    TransitionTickUsesStaleEpoch(s, startTime, ln2, halfPow, c);
    ProbabilityEndpoints(s.halfLife.value, halfPow);
    ProbabilityIsFallingPercentage(s.halfLife.value, c.tmaxReading, s.halfLife.value, halfPow);
  }

  /** Once tmax has been passed, no later tick goes back to absorbing or
      moves the epoch. */
  lemma {:induction false} RunNeverReverts(s: Settings, startTime: real, ln2: real,
                                           halfPow: real -> real, phase: Phase, clocks: seq<Clock>)
    requires phase.tmaxed
    ensures Run(s, startTime, ln2, halfPow, phase, clocks).0 == phase
    decreases |clocks|
  {
    if clocks != [] {
      RunNeverReverts(s, startTime, ln2, halfPow, phase, clocks[1..]);
    }
  }

  /** The index of the first tick that finds tmax passed, if any. */
  function FirstDue(s: Settings, startTime: real, clocks: seq<Clock>): (r: Option<nat>)
    ensures r.Some? ==> r.value < |clocks| && Due(s, startTime, Absorbing, clocks[r.value])
    ensures r.Some? ==> forall k :: 0 <= k < r.value ==> !Due(s, startTime, Absorbing, clocks[k])
    ensures r.None? ==> forall k :: 0 <= k < |clocks| ==> !Due(s, startTime, Absorbing, clocks[k])
  {
    if clocks == [] then None
    else if Due(s, startTime, Absorbing, clocks[0]) then Some(0)
    else match FirstDue(s, startTime, clocks[1..])
         case None => None
         case Some(k) => Some(k + 1)
  }

  /** Under runnable settings a run of n ticks from any absorbing phase
      prints on every tick, ends in elimination exactly when some tick found
      tmax passed, and then holds the epoch read on the first such tick. */
  lemma {:induction false} RunFromAbsorbing(s: Settings, startTime: real, ln2: real,
                                            halfPow: real -> real, epoch: real, clocks: seq<Clock>)
    requires Runnable(s)
    ensures var r := Run(s, startTime, ln2, halfPow, Phase(false, epoch), clocks);
      && |r.1| == |clocks|
      && (forall k :: 0 <= k < |r.1| ==> r.1[k].raised.None?)
      && r.0 == match FirstDue(s, startTime, clocks)
                case None => Phase(false, epoch)
                case Some(k) => Phase(true, clocks[k].epochReading)
    decreases |clocks|
  {
    if clocks != [] {
      var phase := Phase(false, epoch);
      StepPrints(s, startTime, ln2, halfPow, phase, clocks[0]);
      var next := Step(s, startTime, ln2, halfPow, phase, clocks[0]).0;
      assert Due(s, startTime, phase, clocks[0]) == Due(s, startTime, Absorbing, clocks[0]);
      if Due(s, startTime, phase, clocks[0]) {
        RunNeverReverts(s, startTime, ln2, halfPow, next, clocks[1..]);
        RunNoRaise(s, startTime, ln2, halfPow, next, clocks[1..]);
      } else {
        RunFromAbsorbing(s, startTime, ln2, halfPow, epoch, clocks[1..]);
      }
    }
  }

  /** Under runnable settings no tick of a run raises. */
  lemma {:induction false} RunNoRaise(s: Settings, startTime: real, ln2: real,
                                      halfPow: real -> real, phase: Phase, clocks: seq<Clock>)
    requires Runnable(s)
    ensures var r := Run(s, startTime, ln2, halfPow, phase, clocks);
      |r.1| == |clocks| && forall k :: 0 <= k < |r.1| ==> r.1[k].raised.None?
    decreases |clocks|
  {
    if clocks != [] {
      StepPrints(s, startTime, ln2, halfPow, phase, clocks[0]);
      RunNoRaise(s, startTime, ln2, halfPow, Step(s, startTime, ln2, halfPow, phase, clocks[0]).0,
                 clocks[1..]);
    }
  }

  /** The phase changes exactly once in a run from the start: the one tick
      that prints two values is the first tick that finds tmax passed. */
  lemma {:induction false} TransitionExactlyOnce(s: Settings, startTime: real, ln2: real,
                                                 halfPow: real -> real, phase: Phase,
                                                 clocks: seq<Clock>, k: nat)
    requires Runnable(s) && !phase.tmaxed && k < |clocks|
    ensures |Run(s, startTime, ln2, halfPow, phase, clocks).1| == |clocks|
    ensures |Run(s, startTime, ln2, halfPow, phase, clocks).1[k].printed| == 2
        <==> FirstDue(s, startTime, clocks) == Some(k)
    decreases |clocks|
  {
    RunNoRaise(s, startTime, ln2, halfPow, phase, clocks);
    StepPrints(s, startTime, ln2, halfPow, phase, clocks[0]);
    var next := Step(s, startTime, ln2, halfPow, phase, clocks[0]).0;
    var rest := Run(s, startTime, ln2, halfPow, next, clocks[1..]);
    assert Due(s, startTime, phase, clocks[0]) == Due(s, startTime, Absorbing, clocks[0]);
    if k > 0 {
      assert Run(s, startTime, ln2, halfPow, phase, clocks).1[k] == rest.1[k - 1];
      if Due(s, startTime, phase, clocks[0]) {
        EliminatingPrintsOne(s, startTime, ln2, halfPow, next, clocks[1..]);
      } else {
        TransitionExactlyOnce(s, startTime, ln2, halfPow, next, clocks[1..], k - 1);
      }
    }
  }

  /** Under runnable settings every tick after tmax prints exactly one
      value. */
  lemma {:induction false} EliminatingPrintsOne(s: Settings, startTime: real, ln2: real,
                                                halfPow: real -> real, phase: Phase,
                                                clocks: seq<Clock>)
    requires Runnable(s) && phase.tmaxed
    ensures |Run(s, startTime, ln2, halfPow, phase, clocks).1| == |clocks|
    ensures forall k :: 0 <= k < |clocks| ==>
              |Run(s, startTime, ln2, halfPow, phase, clocks).1[k].printed| == 1
    decreases |clocks|
  {
    if clocks != [] {
      StepPrints(s, startTime, ln2, halfPow, phase, clocks[0]);
      EliminatingPrintsOne(s, startTime, ln2, halfPow, phase, clocks[1..]);
      var r := Run(s, startTime, ln2, halfPow, phase, clocks);
      var rest := Run(s, startTime, ln2, halfPow, phase, clocks[1..]);
      forall k | 0 < k < |clocks|
        ensures |r.1[k].printed| == 1
      {
        assert r.1[k] == rest.1[k - 1];
      }
    }
  }

  /** Under runnable settings every tick after tmax prints the elimination
      value for the time since the recorded epoch. */
  lemma {:induction false} EliminatingMeasuresFromEpoch(s: Settings, startTime: real, ln2: real,
                                                        halfPow: real -> real, phase: Phase,
                                                        clocks: seq<Clock>)
    requires Runnable(s) && phase.tmaxed
    ensures |Run(s, startTime, ln2, halfPow, phase, clocks).1| == |clocks|
    ensures forall j :: 0 <= j < |clocks| ==>
              Run(s, startTime, ln2, halfPow, phase, clocks).1[j].printed
              == [EliminationReading(s, ln2, halfPow, clocks[j].tmaxReading - phase.tmaxEpoch).value]
    decreases |clocks|
  {
    if clocks != [] {
      StepPrints(s, startTime, ln2, halfPow, phase, clocks[0]);
      EliminatingMeasuresFromEpoch(s, startTime, ln2, halfPow, phase, clocks[1..]);
      var r := Run(s, startTime, ln2, halfPow, phase, clocks);
      var rest := Run(s, startTime, ln2, halfPow, phase, clocks[1..]);
      forall j | 0 < j < |clocks|
        ensures r.1[j].printed
             == [EliminationReading(s, ln2, halfPow, clocks[j].tmaxReading - phase.tmaxEpoch).value]
      {
        assert r.1[j] == rest.1[j - 1];
        assert clocks[1..][j - 1] == clocks[j];
      }
    }
  }

  /** In a run from the start, the epoch read on the first tick that finds
      tmax passed becomes the zero point of every later tick: each of them
      prints the elimination value for its own reading minus that epoch. */
  lemma {:induction false} LaterTicksMeasureFromTransitionEpoch(s: Settings, startTime: real,
                                                                ln2: real, halfPow: real -> real,
                                                                clocks: seq<Clock>, k: nat, j: nat)
    requires Runnable(s) && FirstDue(s, startTime, clocks) == Some(k) && k < j < |clocks|
    ensures |Run(s, startTime, ln2, halfPow, Absorbing, clocks).1| == |clocks|
    ensures Run(s, startTime, ln2, halfPow, Absorbing, clocks).1[j].printed
         == [EliminationReading(s, ln2, halfPow, clocks[j].tmaxReading - clocks[k].epochReading).value]
    decreases |clocks|
  {
    RunNoRaise(s, startTime, ln2, halfPow, Absorbing, clocks);
    StepPrints(s, startTime, ln2, halfPow, Absorbing, clocks[0]);
    var next := Step(s, startTime, ln2, halfPow, Absorbing, clocks[0]).0;
    var rest := Run(s, startTime, ln2, halfPow, next, clocks[1..]);
    assert Run(s, startTime, ln2, halfPow, Absorbing, clocks).1[j] == rest.1[j - 1];
    assert clocks[1..][j - 1] == clocks[j];
    if k == 0 {
      assert next == Phase(true, clocks[0].epochReading);
      EliminatingMeasuresFromEpoch(s, startTime, ln2, halfPow, next, clocks[1..]);
    } else {
      assert next == Absorbing;
      assert FirstDue(s, startTime, clocks[1..]) == Some(k - 1);
      assert clocks[1..][k - 1] == clocks[k];
      LaterTicksMeasureFromTransitionEpoch(s, startTime, ln2, halfPow, clocks[1..], k - 1, j - 1);
    }
  }

  /** A run of at least one tick is its first Step followed, unless that
      tick raised, by the run of the rest. */
  lemma RunFirstTick(s: Settings, startTime: real, ln2: real, halfPow: real -> real,
                     phase: Phase, clocks: seq<Clock>)
    requires clocks != []
    ensures var (next, out) := Step(s, startTime, ln2, halfPow, phase, clocks[0]);
      var r := Run(s, startTime, ln2, halfPow, phase, clocks);
      var rest := Run(s, startTime, ln2, halfPow, next, clocks[1..]);
      && (out.raised.Some? ==> r == (next, [out]))
      && (out.raised.None? ==> r == (rest.0, [out] + rest.1))
  {
  }

  /** The loop's local state as an object: the settings it was started with
      and the phase flag and tmax epoch that the ticks update. */
  class Monitor {
    const settings: Settings
    const startTime: real
    const ln2: real
    const halfPow: real -> real
    var tmaxed: bool
    var tmaxEpoch: real

    function Current(): Phase
      reads this
    {
      Phase(tmaxed, tmaxEpoch)
    }

    constructor (settings: Settings, startTime: real, ln2: real, halfPow: real -> real)
      ensures this.settings == settings && this.startTime == startTime
      ensures this.ln2 == ln2 && this.halfPow == halfPow
      ensures Current() == Absorbing
    {
      this.settings := settings;
      this.startTime := startTime;
      this.ln2 := ln2;
      this.halfPow := halfPow;
      tmaxed := false;
      tmaxEpoch := 0.0;
    }

    /** One pass through the body of the `while True` loop, with the three
        clock readings it takes. Both elapsed times are computed first; the
        phase check may then set the flag and the epoch; an absorbing tick
        prints the absorption value, and a tick that ends with the flag set
        prints the elimination value. */
    method Tick(c: Clock) returns (out: TickOutcome)
      modifies this
      ensures (Current(), out) == Step(settings, startTime, ln2, halfPow, old(Current()), c)
    {
      var timeSinceDose := c.doseReading - startTime;
      var timeSinceTmax := c.tmaxReading - tmaxEpoch;
      var printed: seq<Reading> := [];
      if !tmaxed {
        if settings.tmax.None? {
          return TickOutcome([], Some(TypeError));
        }
        if timeSinceDose >= settings.tmax.value {
          tmaxed := true;
          tmaxEpoch := c.epochReading;
        }
        var a := AbsorptionReading(settings, halfPow, timeSinceDose);
        if a.Err? {
          return TickOutcome([], Some(a.fault));
        }
        printed := printed + [a.value];
      }
      if tmaxed {
        var e := EliminationReading(settings, ln2, halfPow, timeSinceTmax);
        if e.Err? {
          assert printed == if old(tmaxed) then [] else [printed[0]];
          return TickOutcome(printed, Some(e.fault));
        }
        printed := printed + [e.value];
      }
      assert printed == if old(tmaxed) then [printed[0]] else if tmaxed then [printed[0], printed[1]] else [printed[0]];
      out := TickOutcome(printed, None);
    }

    /** A finite prefix of the loop: tick once per clock triple, stopping at
        the first tick that raises. */
    method RunTicks(clocks: seq<Clock>) returns (outs: seq<TickOutcome>)
      modifies this
      ensures (Current(), outs) == Run(settings, startTime, ln2, halfPow, old(Current()), clocks)
    {
      ghost var whole := Run(settings, startTime, ln2, halfPow, Current(), clocks);
      outs := [];
      var i := 0;
      while i < |clocks|
        invariant i <= |clocks|
        invariant whole.0 == Run(settings, startTime, ln2, halfPow, Current(), clocks[i..]).0
        invariant whole.1 == outs + Run(settings, startTime, ln2, halfPow, Current(), clocks[i..]).1
      {
        ghost var before := Current();
        RunFirstTick(settings, startTime, ln2, halfPow, before, clocks[i..]);
        var out := Tick(clocks[i]);
        outs := outs + [out];
        if out.raised.Some? {
          assert whole == (Current(), outs);
          return;
        }
        assert clocks[i..][1..] == clocks[i + 1..];
        i := i + 1;
      }
      assert clocks[i..] == [];
      assert Run(settings, startTime, ln2, halfPow, Current(), []) == (Current(), []);
      assert outs + [] == outs;
      assert whole == (Current(), outs);
    }
  }
}
