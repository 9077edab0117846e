/** The text of the exception raised for each error. */
module Messages {
  import opened Errors
  import opened Numbers

  function Message(e: Error): string
  {
    match e
    case UndefinedConstant(name) => "Undefined constant: " + name
    case InvalidLiteral(lexeme) => "invalid literal for int() with base 10: '" + lexeme + "'"
    case TooManyDigits(digits) =>
      "Exceeds the limit (" + Show(MaxStrDigits) + " digits) for integer string conversion: value has "
      + Show(digits) + " digits; use sys.set_int_max_str_digits() to increase the limit"
    case UnexpectedCharacter(c) => "No terminal matches '" + [c] + "'"
    case UnexpectedToken(t) => "Unexpected token " + t
    case UnexpectedEnd => "Unexpected end-of-input"
  }
}
