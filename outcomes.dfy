/** Results of the operations that can fail, and the Java exceptions they stand for. */
module Outcomes {

  datatype Option<+T> = None | Some(value: T)

  /** The exceptions the core can raise on degenerate input. */
  datatype Failure =
    | EmptyInput        // Main.main: no city was read, it reports and returns
    | NoSuchElement     // List.getFirst / List.getLast on an empty list
    | IndexOutOfBounds  // List.get(-1) on an empty list

  datatype Result<+T> = Ok(value: T) | Err(error: Failure)
}
