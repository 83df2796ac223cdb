/** Outcome types shared by every module: Go's `(value, error)` pairs become
    a `Result`, and a missing value becomes an `Option`. */
module Results {

  datatype Option<+T> = None | Some(value: T)

  /** The failures the preprocessor can report. Errors produced by code
      outside the model (file reads, HTTP, the address grammar) arrive as
      `Failed`; `At` is the `"file:line: cause"` wrapping Go adds with
      `fmt.Errorf("%s:%d: %v", ...)`. `SliceBounds` stands for the run-time
      panic Go raises when a byte range falls outside the fetched text. */
  datatype Error =
    | InvalidName(name: string)
    | SyntaxError(file: string, line: int, directive: string)
    | OutOfBounds(line: int)
    | At(file: string, line: int, cause: Error)
    | Failed(reason: string)
    | SliceBounds(lo: int, hi: int)

  datatype Result<+T> = Ok(value: T) | Err(error: Error)
}
