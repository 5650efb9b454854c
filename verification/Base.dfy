/** Types and small helpers that every component shares. */
module Base {

  newtype byte = b: int | 0 <= b < 256

  type Bytes = seq<byte>

  datatype Option<+T> = None | Some(value: T)

  function Min(a: int, b: int): int {
    if a <= b then a else b
  }

  function Max(a: int, b: int): int {
    if a <= b then b else a
  }

  /** How one call to a Go `io.Reader` or `io.ReaderAt` ended. */
  datatype Status =
    | More    // nil error
    | Eof     // io.EOF
    | Broken  // any other error
}
