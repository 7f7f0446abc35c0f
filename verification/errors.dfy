/** The unified `Error`: exactly one of the six kinds, rendered by pure
    delegation to the kind it wraps. */
module Errors {
  import K = ErrorKinds

  datatype Error =
    | ExpectedIdentifier(expectedIdentifier: K.ExpectedIdentifier)
    | ExpectedToken(expectedToken: K.ExpectedToken)
    | ExpectedEscape(expectedEscape: K.ExpectedEscape)
    | UnexpectedToken(unexpectedToken: K.UnexpectedToken)
    | InvalidEscape(invalidEscape: K.InvalidEscape)
    | InvalidIdentifier(invalidIdentifier: K.InvalidIdentifier)
  {
    /** The wrapped kind's invariant. */
    ghost predicate Valid()
    {
      match this
      case ExpectedIdentifier(e) => e.Valid()
      case ExpectedToken(e) => e.Valid()
      case ExpectedEscape(e) => e.Valid()
      case UnexpectedToken(e) => e.Valid()
      case InvalidEscape(e) => e.Valid()
      case InvalidIdentifier(e) => e.Valid()
    }
  }

  /** `Display for Error`: the wrapped kind's rendering, with no text of
      its own. */
  function Display(err: Error): (r: string)
    requires err.Valid()
    ensures err.ExpectedIdentifier? ==> r == K.DisplayExpectedIdentifier(err.expectedIdentifier)
    ensures err.ExpectedToken? ==> r == K.DisplayExpectedToken(err.expectedToken)
    ensures err.ExpectedEscape? ==> r == K.DisplayExpectedEscape(err.expectedEscape)
    ensures err.UnexpectedToken? ==> r == K.DisplayUnexpectedToken(err.unexpectedToken)
    ensures err.InvalidEscape? ==> r == K.DisplayInvalidEscape(err.invalidEscape)
    ensures err.InvalidIdentifier? ==> r == K.DisplayInvalidIdentifier(err.invalidIdentifier)
  {
    match err
    case ExpectedIdentifier(e) => K.DisplayExpectedIdentifier(e)
    case ExpectedToken(e) => K.DisplayExpectedToken(e)
    case ExpectedEscape(e) => K.DisplayExpectedEscape(e)
    case UnexpectedToken(e) => K.DisplayUnexpectedToken(e)
    case InvalidEscape(e) => K.DisplayInvalidEscape(e)
    case InvalidIdentifier(e) => K.DisplayInvalidIdentifier(e)
  }
}
