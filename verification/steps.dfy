/** The decision a resolver variant takes on one line of input. */
module Steps {
  import opened Values
  import opened Errors

  datatype Step =
    | Commit(value: Value)               // write the value and stop
    | Retry(diagnostic: string)          // print the diagnostic (empty: a silent retry) and prompt again
    | Abort(error: NotAssignableError)   // stop with the error; the destination is not written
}
