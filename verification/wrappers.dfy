/** Option and Result values standing for Python's `None` and for the
    exceptions the modelled code raises. */
module Wrappers {

  datatype Option<+T> = None | Some(value: T) {
    function GetOr(default: T): T {
      match this
      case Some(v) => v
      case None => default
    }
  }

  /** The Python exceptions the modelled code can raise. */
  datatype Fault =
    | EmptySequence     // min/max/argmin of an empty sequence (ValueError)
    | IndexOutOfRange   // `line[0]` of an empty line, `.values[0]` of an empty selection (IndexError)
    | MissingColumn     // a column read on a data frame that never got columns (AttributeError)
    | TooLong           // the explicit `raise Exception('f_length too big ...')`
    | NotFound          // the explicit `raise Exception('Route ID ... not found ...')`
    | BadTime           // pd.to_datetime on a time that is not a clock time

  datatype Result<+T> = Ok(value: T) | Err(fault: Fault)
}
