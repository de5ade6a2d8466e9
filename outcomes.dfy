/** Values shared by every part of the model: optional values, and the
    ways the program can stop with an error instead of producing a value. */
module Outcomes {

  datatype Option<+T> = None | Some(value: T)

  /** Why the program stops. `ConflictingModes` is the explicit exit taken when
      both mode flags are set; the others are the Python exceptions that end
      the program. */
  datatype Fault =
    | ConflictingModes   // --probability and --linear together
    | IndexError         // an empty --unit string, indexed at position 0
    | TypeError          // a unit that fell through conversion left None behind
    | ZeroDivisionError  // a zero tmax or half-life used as a divisor
    | EOFError           // a prompt met the end of the input

  datatype Result<+T> = Ok(value: T) | Err(fault: Fault)
}
