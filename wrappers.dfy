/** Option and Result, and the ways the script can stop with an exception. */
module Wrappers {

  datatype Option<+T> = None | Some(value: T)

  datatype Result<+T, +E> = Ok(value: T) | Err(error: E)

  /** The exceptions that end a run of the script. */
  datatype Failure =
    | EmptyInput            // `next(tsvreader)` on a file with no header row (StopIteration)
    | IndexOutOfRange       // a row or a line has too few fields (IndexError)
    | NotAnInteger          // `int(...)` of a text that is not a decimal integer (ValueError)
    | MissingFile(sample: string)  // the sample's unsorted file does not exist (FileNotFoundError)
}
