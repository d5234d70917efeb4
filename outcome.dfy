/** Error and result types shared by the interpreter's components.
    Every `panic!` of the interpreter becomes an `Err` carrying one of these. */
module Outcome {

  datatype Error =
    | EmptyToken                              // `chars[0]` of an empty token
    | MissingOperator(token: string)          // `chars[1]` of a one-character `U`/`B` token
    | UnknownIndicator(indicator: char, token: string)
    | DigitUnderflow(digit: char)             // `c as u8 - '!' as u8` below zero
    | InvalidCode(code: char)                 // decode_string: byte outside 33..126
    | NotInAlphabet(symbol: char)             // encode_string: reverse-table lookup failed
    | OutOfBounds(index: int, length: int)    // create_ast ran off the token stream
    | TypeMismatch                            // unwrap_* or `=` on the wrong kind of value
    | UnknownOperator(op: char)
    | DivisionByZero
    | SliceOutOfRange(count: int, length: int) // `T`/`D` with a bad index
    | Unsupported                             // eval of a bare Lambda/Var, visit of a Boolean
    | InvalidCell(key: nat)                   // a Sudoku clue whose key names no cell of the grid

  datatype Result<T> = Ok(value: T) | Err(error: Error) {
    predicate IsFailure() { Err? }

    function PropagateFailure<U>(): Result<U>
      requires Err?
    {
      Err(error)
    }

    function Extract(): T
      requires Ok?
    {
      value
    }
  }

  datatype Option<T> = None | Some(value: T)
}
