/** The errors of the HTTP codec, and the status each is answered with. */
module ParseErrors {

  datatype ParseError =
    | Success | NeedMoreData | InvalidRequestLine | MissingHost | HeaderTooLarge | TooManyHeaders
    | ContentLengthMismatch | InternalError

  function ErrorStatus(error: ParseError): int {
    match error
    case Success => 200
    case NeedMoreData => 400
    case InvalidRequestLine => 400
    case MissingHost => 400
    case HeaderTooLarge => 431
    case TooManyHeaders => 431
    case ContentLengthMismatch => 400
    case InternalError => 500
  }
}
