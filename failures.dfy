/** The ways a run of the converter can end early, and the result types that carry them. */
module Failures {

  datatype Option<T> = None | Some(value: T)

  /** Every way the converter stops before writing its output. */
  datatype Error =
    | MissingArguments                  // no input path on the command line; usage is printed, exit status 1
    | InvalidFormat                     // the first header line lacks `fileformat=VCFv4`; exit status 1
    | UnknownReviewStatus(status: string) // a CLNREVSTAT value missing from the star table (KeyError)
    | MissingHeaderValue                // a fileDate/reference header line without `=` (IndexError)
    | MissingColumn(index: nat)         // a data line with too few tab fields (IndexError)

  datatype Result<T> = Ok(value: T) | Err(error: Error) {
    predicate IsFailure() { Err? }

    function PropagateFailure<U>(): Result<U>
      requires Err?
    {
      Err(error)
    }

    function Extract(): T
      requires Ok?
    {
      value
    }
  }
}
