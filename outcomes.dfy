/** Option and Result, and the runtime failures of the analysis script. */
module Outcomes {

  datatype Option<+T> = None | Some(value: T)

  /** The exceptions the script raises on the paths the model covers. */
  datatype Failure =
    | MonthNotInList       // `months.index(month)` raises ValueError
    | EmptyColumn          // `mode()[0]` on an empty column raises KeyError
    | NoBirthYears         // `int(NaN)` of an all-missing Birth Year column raises ValueError
    | SeveralModes         // `int(series)` of a multi-value mode raises TypeError

  datatype Result<+T> = Ok(value: T) | Err(error: Failure)
}
