/** Unit normalisation: every time value the user gives is turned into
    seconds so that it can be compared with differences of clock readings. */
module Units {
  import opened Outcomes

  /** Seconds in one hour, one minute and one second. */
  const SecondsPerHour: real := 3600.0
  const SecondsPerMinute: real := 60.0

  /** `convert_to_seconds`: only the first character of the unit is looked at.
      Any character other than 'h', 'm' or 's' makes the function fall off
      its end and return None. Indexing an empty unit raises, so the caller
      must rule it out (the start-up code models that error). */
  function ConvertToSeconds(x: real, unit: string): (r: Option<real>)
    requires |unit| > 0
    ensures r.Some? <==> unit[0] in "hms"
    ensures unit[0] == 'h' ==> r == Some(x * SecondsPerHour)
    ensures unit[0] == 'm' ==> r == Some(x * SecondsPerMinute)
    ensures unit[0] == 's' ==> r == Some(x)
  {
    match unit[0]
    case 'h' => Some(x * SecondsPerHour)
    case 'm' => Some(x * SecondsPerMinute)
    case 's' => Some(x)
    case _ => None
  }

  /** Whether a unit is recognised does not depend on the magnitude, and a
      recognised unit scales every magnitude by the same factor: conversion
      is linear, and monotone. */
  lemma ConvertIsLinear(a: real, x: real, y: real, unit: string)
    requires |unit| > 0
    ensures ConvertToSeconds(x, unit).Some? == ConvertToSeconds(y, unit).Some?
    ensures ConvertToSeconds(x, unit).Some? ==>
      ConvertToSeconds(a * x + y, unit).value
        == a * ConvertToSeconds(x, unit).value + ConvertToSeconds(y, unit).value
    ensures ConvertToSeconds(x, unit).Some? && x <= y ==>
      ConvertToSeconds(x, unit).value <= ConvertToSeconds(y, unit).value
  {
  }

  /** One unit of each kind, given by its full name or its first letter. */
  lemma ConvertOneOfEach()
    ensures ConvertToSeconds(1.0, "hours") == ConvertToSeconds(1.0, "h") == Some(3600.0)
    ensures ConvertToSeconds(1.0, "minutes") == ConvertToSeconds(1.0, "m") == Some(60.0)
    ensures ConvertToSeconds(1.0, "seconds") == ConvertToSeconds(1.0, "s") == Some(1.0)
    ensures ConvertToSeconds(1.0, "days") == None
    ensures ConvertToSeconds(1.0, "Hours") == None
  {
  }
}
