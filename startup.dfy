/** Start-up: choosing the mode from the two flags, clamping the precision,
    filling in missing parameters from prompt answers, and converting the
    time parameters to seconds. */
module Startup {
  import opened Outcomes
  import opened Precision
  import opened Units

  /** The four numeric parameters, in the order they are resolved. */
  datatype Param = Dose | Tmax | T12a | T12

  const InputOrder: seq<Param> := [Dose, Tmax, T12a, T12]

  /** Exponential (neither flag), linear (--linear) or probability
      (--probability). */
  datatype Mode = DefaultMode | LinearMode | ProbabilityMode

  /** The parsed command line. A parameter absent from `given` was not given. */
  datatype Args = Args(p: Option<int>, unit: Option<string>, given: map<Param, real>,
                       probability: bool, linear: bool)

  /** Everything the monitor loop reads: the mode, the effective precision,
      the dose and the three time parameters in seconds (None when the unit
      was not recognised). */
  datatype Settings = Settings(mode: Mode, precision: nat, dose: real,
                               tmax: Option<real>, halfLife: Option<real>,
                               absorptionHalfLife: Option<real>)

  /** Both flags at once is refused; otherwise exactly one mode is active. */
  function SelectMode(probability: bool, linear: bool): (r: Result<Mode>)
    ensures r.Err? <==> probability && linear
    ensures r.Err? ==> r.fault == ConflictingModes
    ensures r.Ok? ==> (r.value == LinearMode <==> linear)
    ensures r.Ok? ==> (r.value == ProbabilityMode <==> probability)
  {
    if probability && linear then Err(ConflictingModes)
    else if linear then Ok(LinearMode)
    else if probability then Ok(ProbabilityMode)
    else Ok(DefaultMode)
  }

  /** A parameter is prompted for when it is missing, except the absorption
      half-life outside the default mode, which is set to 0 instead. */
  predicate NeedsPrompt(q: Param, vals: map<Param, real>, useDefault: bool) {
    q !in vals && (useDefault || q != T12a)
  }

  /** The prompts issued, in order, when resolving `order` from `vals`. */
  function Prompts(order: seq<Param>, vals: map<Param, real>, useDefault: bool): seq<Param>
  {
    if order == [] then []
    else (if NeedsPrompt(order[0], vals, useDefault) then [order[0]] else [])
         + Prompts(order[1..], vals, useDefault)
  }

  predicate Distinct(order: seq<Param>) {
    forall i, j :: 0 <= i < j < |order| ==> order[i] != order[j]
  }

  /** The resolution loop as a function: walk `order`, keeping given values,
      setting a missing absorption half-life to 0 outside the default mode,
      and taking the next prompt answer for anything else that is missing.
      Running out of answers is the end of the input. */
  function ResolveFrom(order: seq<Param>, vals: map<Param, real>, useDefault: bool,
                       replies: seq<real>): (r: Result<map<Param, real>>)
    ensures r.Err? ==> r.fault == EOFError
    ensures r.Ok? ==> r.value.Keys == vals.Keys + set q | q in order
    decreases |order|
  {
    if order == [] then Ok(vals)
    else
      var q := order[0];
      if q in vals then ResolveFrom(order[1..], vals, useDefault, replies)
      else if !useDefault && q == T12a then ResolveFrom(order[1..], vals[q := 0.0], useDefault, replies)
      else if replies == [] then Err(EOFError)
      else ResolveFrom(order[1..], vals[q := replies[0]], useDefault, replies[1..])
  }

  /** The `for i in input_values` loop of `main`, updating the argument
      dictionary in place and consuming one answer per prompt. */
  method ResolveInputs(given: map<Param, real>, useDefault: bool, replies: seq<real>)
    returns (r: Result<map<Param, real>>)
    ensures r == ResolveFrom(InputOrder, given, useDefault, replies)
  {
    var vals := given;
    var next := 0;
    for i := 0 to |InputOrder|
      invariant next <= |replies|
      invariant ResolveFrom(InputOrder, given, useDefault, replies)
             == ResolveFrom(InputOrder[i..], vals, useDefault, replies[next..])
    {
      var q := InputOrder[i];
      if q !in vals {
        if !useDefault {
          if q == T12a {
            vals := vals[q := 0.0];
            continue;
          }
          if next == |replies| {
            return Err(EOFError);
          }
          vals := vals[q := replies[next]];
          next := next + 1;
        }
        if useDefault {
          if next == |replies| {
            return Err(EOFError);
          }
          vals := vals[q := replies[next]];
          next := next + 1;
        }
      }
    }
    r := Ok(vals);
  }

  /** The prompts for `order` do not depend on the value of a parameter that
      `order` does not mention. */
  lemma {:induction false} PromptsIgnoreOthers(order: seq<Param>, vals: map<Param, real>,
                                               useDefault: bool, q: Param, v: real)
    requires q !in order
    ensures Prompts(order, vals[q := v], useDefault) == Prompts(order, vals, useDefault)
  {
    if order != [] {
      PromptsIgnoreOthers(order[1..], vals, useDefault, q, v);
    }
  }

  /** Exactly the parameters that need one are prompted for, each once. */
  lemma {:induction false} PromptsAreExactlyTheMissing(order: seq<Param>, vals: map<Param, real>,
                                                       useDefault: bool)
    requires Distinct(order)
    ensures forall q :: q in Prompts(order, vals, useDefault)
                        <==> q in order && NeedsPrompt(q, vals, useDefault)
    ensures Distinct(Prompts(order, vals, useDefault))
  {
    if order != [] {
      assert Distinct(order[1..]);
      PromptsAreExactlyTheMissing(order[1..], vals, useDefault);
      assert order[0] !in order[1..];
    }
  }

  /** Resolution succeeds exactly when there is an answer for every prompt. */
  lemma {:induction false} ResolveSucceedsIffEnoughReplies(order: seq<Param>, vals: map<Param, real>,
                                                           useDefault: bool, replies: seq<real>)
    requires Distinct(order)
    ensures ResolveFrom(order, vals, useDefault, replies).Ok?
        <==> |Prompts(order, vals, useDefault)| <= |replies|
  {
    if order != [] {
      var q := order[0];
      assert Distinct(order[1..]);
      assert q !in order[1..];
      if q in vals {
        ResolveSucceedsIffEnoughReplies(order[1..], vals, useDefault, replies);
      } else if !useDefault && q == T12a {
        PromptsIgnoreOthers(order[1..], vals, useDefault, q, 0.0);
        ResolveSucceedsIffEnoughReplies(order[1..], vals[q := 0.0], useDefault, replies);
      } else if replies != [] {
        PromptsIgnoreOthers(order[1..], vals, useDefault, q, replies[0]);
        ResolveSucceedsIffEnoughReplies(order[1..], vals[q := replies[0]], useDefault, replies[1..]);
      }
    }
  }

  /** A successful resolution keeps every given value unchanged. */
  lemma {:induction false} ResolveKeepsGiven(order: seq<Param>, vals: map<Param, real>,
                                             useDefault: bool, replies: seq<real>, q: Param)
    requires ResolveFrom(order, vals, useDefault, replies).Ok? && q in vals
    ensures ResolveFrom(order, vals, useDefault, replies).value[q] == vals[q]
  {
    if order != [] {
      var p := order[0];
      if p in vals {
        ResolveKeepsGiven(order[1..], vals, useDefault, replies, q);
      } else if !useDefault && p == T12a {
        ResolveKeepsGiven(order[1..], vals[p := 0.0], useDefault, replies, q);
      } else {
        ResolveKeepsGiven(order[1..], vals[p := replies[0]], useDefault, replies[1..], q);
      }
    }
  }

  /** Outside the default mode, a missing absorption half-life becomes 0. */
  lemma {:induction false} ResolveZeroesAbsorption(order: seq<Param>, vals: map<Param, real>,
                                                   replies: seq<real>)
    requires ResolveFrom(order, vals, false, replies).Ok?
    requires T12a in order && T12a !in vals
    ensures ResolveFrom(order, vals, false, replies).value[T12a] == 0.0
  {
    var p := order[0];
    if p == T12a {
      ResolveKeepsGiven(order[1..], vals[p := 0.0], false, replies, T12a);
    } else if p in vals {
      ResolveZeroesAbsorption(order[1..], vals, replies);
    } else {
      ResolveZeroesAbsorption(order[1..], vals[p := replies[0]], replies[1..]);
    }
  }

  /** A successful resolution gives the k-th prompted parameter the k-th
      answer. */
  lemma {:induction false} ResolveAnswersInOrder(order: seq<Param>, vals: map<Param, real>,
                                                 useDefault: bool, replies: seq<real>, k: nat)
    requires Distinct(order)
    requires ResolveFrom(order, vals, useDefault, replies).Ok?
    requires k < |Prompts(order, vals, useDefault)|
    ensures k < |replies|
    ensures Prompts(order, vals, useDefault)[k] in ResolveFrom(order, vals, useDefault, replies).value
    ensures ResolveFrom(order, vals, useDefault, replies).value[Prompts(order, vals, useDefault)[k]]
         == replies[k]
  {
    ResolveSucceedsIffEnoughReplies(order, vals, useDefault, replies);
    PromptsAreExactlyTheMissing(order, vals, useDefault);
    assert Prompts(order, vals, useDefault)[k] in Prompts(order, vals, useDefault);
    var q := order[0];
    assert Distinct(order[1..]);
    assert q !in order[1..];
    if q in vals {
      ResolveAnswersInOrder(order[1..], vals, useDefault, replies, k);
    } else if !useDefault && q == T12a {
      PromptsIgnoreOthers(order[1..], vals, useDefault, q, 0.0);
      ResolveAnswersInOrder(order[1..], vals[q := 0.0], useDefault, replies, k);
    } else {
      var rest := Prompts(order[1..], vals, useDefault);
      assert Prompts(order, vals, useDefault) == [q] + rest;
      PromptsIgnoreOthers(order[1..], vals, useDefault, q, replies[0]);
      if k == 0 {
        ResolveKeepsGiven(order[1..], vals[q := replies[0]], useDefault, replies[1..], q);
      } else {
        ResolveAnswersInOrder(order[1..], vals[q := replies[0]], useDefault, replies[1..], k - 1);
      }
    }
  }

  /** The parameter list has no repeats, so the lemmas above apply to it;
      outside the default mode the absorption half-life is never prompted. */
  lemma InputOrderFacts(vals: map<Param, real>)
    ensures Distinct(InputOrder)
    ensures T12a !in Prompts(InputOrder, vals, false)
  {
    PromptsAreExactlyTheMissing(InputOrder, vals, false);
  }

  /** The unit string, "h" when none was given. */
  function UnitOrHours(unit: Option<string>): string {
    if unit.None? then "h" else unit.value
  }

  /** Start-up as a whole, in the order the program does it: the conflicting
      flags end the program first, then the missing parameters are prompted
      for, and only then is the unit's first character read for the
      conversions. */
  function Configure(args: Args, replies: seq<real>): (r: Result<Settings>)
    ensures r.Err? && r.fault == ConflictingModes <==> args.probability && args.linear
    ensures r.Err? ==> r.fault in {ConflictingModes, EOFError, IndexError}
    ensures r.Ok? ==> (r.value.mode == LinearMode <==> args.linear)
    ensures r.Ok? ==> (r.value.mode == ProbabilityMode <==> args.probability)
    ensures r.Ok? ==> r.value.precision == EffectivePrecision(args.p) <= MaxPrecision
  {
    match SelectMode(args.probability, args.linear)
    case Err(f) => Err(f)
    case Ok(mode) =>
      var unit := UnitOrHours(args.unit);
      var precision := EffectivePrecision(args.p);
      var resolved := ResolveFrom(InputOrder, args.given, mode == DefaultMode, replies);
      if resolved.Err? then Err(resolved.fault)
      else if |unit| == 0 then Err(IndexError)
      else
        var vals := resolved.value;
        assert Dose in InputOrder && Tmax in InputOrder && T12 in InputOrder && T12a in InputOrder;
        Ok(Settings(mode, precision, vals[Dose],
                    ConvertToSeconds(vals[Tmax], unit),
                    ConvertToSeconds(vals[T12], unit),
                    ConvertToSeconds(vals[T12a], unit)))
  }

  /** The conflicting flags end the program before any prompt: whatever the
      answers, the result is the same refusal. */
  lemma ConflictBeforeAnyPrompt(args: Args, replies: seq<real>)
    requires args.probability && args.linear
    ensures Configure(args, replies) == Configure(args, []) == Err(ConflictingModes)
  {
  }

  /** Which error start-up ends with: the conflict, a prompt with no answer
      left, or an empty unit string, checked in that order. */
  lemma ConfigureErrors(args: Args, replies: seq<real>)
    ensures var useDefault := !args.probability && !args.linear;
            var r := Configure(args, replies);
      && (r == Err(EOFError) <==>
            !(args.probability && args.linear)
            && |Prompts(InputOrder, args.given, useDefault)| > |replies|)
      && (r == Err(IndexError) <==>
            !(args.probability && args.linear)
            && |Prompts(InputOrder, args.given, useDefault)| <= |replies|
            && args.unit == Some(""))
  {
    InputOrderFacts(args.given);
    ResolveSucceedsIffEnoughReplies(InputOrder, args.given, !args.probability && !args.linear, replies);
  }

  /** With a recognised unit every time parameter is a number of seconds, and
      with any other first character all three are None; a given parameter
      is used as given, converted. */
  lemma ConfigureGivenValues(args: Args, replies: seq<real>)
    requires !(args.probability && args.linear) && args.unit != Some("")
    requires |Prompts(InputOrder, args.given, !args.probability && !args.linear)| <= |replies|
    ensures Configure(args, replies).Ok?
    ensures var s := Configure(args, replies).value;
            var unit := UnitOrHours(args.unit);
      && |unit| > 0
      && (s.tmax.None? <==> unit[0] !in "hms")
      && s.halfLife.None? == s.tmax.None?
      && s.absorptionHalfLife.None? == s.tmax.None?
      && (Dose in args.given ==> s.dose == args.given[Dose])
      && (Tmax in args.given ==> s.tmax == ConvertToSeconds(args.given[Tmax], unit))
      && (T12 in args.given ==> s.halfLife == ConvertToSeconds(args.given[T12], unit))
      && (T12a in args.given ==> s.absorptionHalfLife == ConvertToSeconds(args.given[T12a], unit))
      && (s.mode != DefaultMode && T12a !in args.given ==>
            s.absorptionHalfLife == ConvertToSeconds(0.0, unit))
  {
    var useDefault := !args.probability && !args.linear;
    InputOrderFacts(args.given);
    ResolveSucceedsIffEnoughReplies(InputOrder, args.given, useDefault, replies);
    var m := ResolveFrom(InputOrder, args.given, useDefault, replies).value;
    forall q | q in args.given
      ensures m[q] == args.given[q]
    {
      ResolveKeepsGiven(InputOrder, args.given, useDefault, replies, q);
    }
    if !useDefault && T12a !in args.given {
      ResolveZeroesAbsorption(InputOrder, args.given, replies);
    }
  }

  /** A missing parameter is answered by the prompt issued for it: the k-th
      prompt fills the k-th parameter that needs one, and a missing dose is
      always asked for first. */
  lemma {:induction false} ConfigurePromptedValues(args: Args, replies: seq<real>, k: nat)
    requires !(args.probability && args.linear) && args.unit != Some("")
    requires |Prompts(InputOrder, args.given, !args.probability && !args.linear)| <= |replies|
    requires k < |Prompts(InputOrder, args.given, !args.probability && !args.linear)|
    ensures Configure(args, replies).Ok?
    ensures var s := Configure(args, replies).value;
            var q := Prompts(InputOrder, args.given, !args.probability && !args.linear)[k];
            var unit := UnitOrHours(args.unit);
      && (q == Dose ==> k == 0 && s.dose == replies[k])
      && (q == Tmax ==> s.tmax == ConvertToSeconds(replies[k], unit))
      && (q == T12 ==> s.halfLife == ConvertToSeconds(replies[k], unit))
      && (q == T12a ==> s.absorptionHalfLife == ConvertToSeconds(replies[k], unit))
  {
    var useDefault := !args.probability && !args.linear;
    var unit := UnitOrHours(args.unit);
    InputOrderFacts(args.given);
    ResolveSucceedsIffEnoughReplies(InputOrder, args.given, useDefault, replies);
    var m := ResolveFrom(InputOrder, args.given, useDefault, replies).value;
    var mode := SelectMode(args.probability, args.linear).value;
    assert Configure(args, replies)
        == Ok(Settings(mode, EffectivePrecision(args.p), m[Dose],
                       ConvertToSeconds(m[Tmax], unit), ConvertToSeconds(m[T12], unit),
                       ConvertToSeconds(m[T12a], unit)));
    ResolveAnswersInOrder(InputOrder, args.given, useDefault, replies, k);
    var ps := Prompts(InputOrder, args.given, useDefault);
    if ps[k] == Dose {
      DoseIsAskedFirst(args.given, useDefault, k);
    }
  }

  /** The dose comes first in the parameter list, so its prompt, if any, is
      the first one. */
  lemma DoseIsAskedFirst(given: map<Param, real>, useDefault: bool, k: nat)
    requires k < |Prompts(InputOrder, given, useDefault)|
    requires Prompts(InputOrder, given, useDefault)[k] == Dose
    ensures k == 0
  {
    InputOrderFacts(given);
    PromptsAreExactlyTheMissing(InputOrder, given, useDefault);
    var ps := Prompts(InputOrder, given, useDefault);
    assert Dose in ps;
    assert ps[0] == Dose;
  }
}
