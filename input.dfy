/** What every validator receives and returns: the candidate value, the
    verdict with the reason for a failure, and the check that all four
    validators make first (the value must be a non-empty string). */
module Input {

  /** A candidate value. The source accepts any JavaScript value; only a
      string can pass. Obj stands for every other non-string value (the
      tests use the empty object). */
  datatype Value = Str(s: string) | Null | Undefined | Obj

  datatype Option<T> = None | Some(value: T)

  /** Why a validator said no. */
  datatype Reason =
    | NotAString
    | Empty
    | TooShort
    | TooLong
    | Malformed
    | ContainsSpace
    | NonDigit
    | WrongLength
    | StrengthRequestTooLow
    | TooWeak
    | LengthMismatch
    | BelowMin
    | AboveMax
    | Repetitive
    | NotAName
    | NotAFullname
    | NotAPostalCode

  datatype Verdict = Pass | Fail(reason: Reason)

  /** The shared first step of every validator: reject a value that is not
      a string, then the empty string, before looking at anything else. */
  function CheckText(v: Value): (r: Verdict)
    ensures r == Pass <==> v.Str? && v.s != []
    ensures !v.Str? ==> r == Fail(NotAString)
    ensures v == Str("") ==> r == Fail(Empty)
  {
    match v
    case Str(s) => if s == [] then Fail(Empty) else Pass
    case _ => Fail(NotAString)
  }

  /** A diagnostic text for the log; field is the validator's name. */
  function Message(field: string, reason: Reason): string {
    field + match reason
      case NotAString => " is not a string"
      case Empty => " is empty"
      case TooShort => " is too short"
      case TooLong => " is too long"
      case Malformed => " is not well formed"
      case ContainsSpace => " contains a space"
      case NonDigit => " contains a non-digit"
      case WrongLength => " has the wrong length"
      case StrengthRequestTooLow => " strength must be at least 3"
      case TooWeak => " is weaker than required"
      case LengthMismatch => " does not have the fixed length"
      case BelowMin => " is shorter than the minimum"
      case AboveMax => " is longer than the maximum"
      case Repetitive => " is a repetition"
      case NotAName => " is not a name"
      case NotAFullname => " is not a full name"
      case NotAPostalCode => " is not a postal code"
  }
}
