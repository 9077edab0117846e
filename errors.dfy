/** Failure-carrying results shared by the lexer, the parser and the transformer. */
module Errors {

  datatype Option<+T> = None | Some(value: T)

  /** Why a configuration text was rejected. */
  datatype Error =
    | UndefinedConstant(name: string)    // `[NAME]` with no earlier `(define NAME ...)`
    | InvalidLiteral(lexeme: string)     // `int(...)` refused a number lexeme
    | TooManyDigits(digits: nat)         // `int(...)` of decimal text longer than the digit limit
    | UnexpectedCharacter(ch: char)   // no token of the grammar starts here
    | UnexpectedToken(token: string)     // a token the grammar does not allow here
    | UnexpectedEnd                      // the tokens ran out inside a production

  datatype Result<+T> = Success(value: T) | Failure(error: Error) {
    predicate IsFailure() { Failure? }

    function PropagateFailure<U>(): Result<U>
      requires Failure?
    {
      Failure(error)
    }

    function Extract(): T
      requires Success?
    {
      value
    }
  }
}
