/** The command-line validator `is_valid_int`. */
module Validator {
  import opened Wrappers
  import opened Native
  import opened ParseInt

  /**
    Accepts exactly the strings that parse as a `usize`; otherwise the error
    carries the text of the parse error: empty string, invalid digit (a
    non-digit reached before any overflow) or number too large (digits
    read so far exceed `usize::MAX`, whatever follows).
   */
  function IsValidInt(s: string): (r: Result<(), string>)
    ensures r == Ok(()) <==> IsUsizeLiteral(s)
    ensures s == [] ==> r == Err(Message(Empty))
    ensures s == "+" || s == "-" ==> r == Err(Message(InvalidDigit))
    ensures var ds := Unsigned(s);
      forall i :: 0 <= i < |ds| && !IsDigit(ds[i]) && AllDigits(ds[..i]) && DecimalValue(ds[..i]) <= USIZE_MAX ==>
                    r == Err(Message(InvalidDigit))
    ensures var ds := Unsigned(s);
      forall i :: 0 < i <= |ds| && AllDigits(ds[..i]) && DecimalValue(ds[..i]) > USIZE_MAX ==>
                    r == Err(Message(PosOverflow))
    ensures r.Err? ==> r.error in {Message(Empty), Message(InvalidDigit), Message(PosOverflow)}
  {
    match ParseUsize(s)
    case Ok(_) => Ok(())
    case Err(e) => Err(Message(e))
  }

  /** A lone `+` and a `-`-signed number are rejected as invalid digits. */
  lemma SignsRejected(digits: string)
    requires DecimalLiteral(digits)
    ensures IsValidInt("+") == Err(Message(InvalidDigit))
    ensures IsValidInt(['-'] + digits) == Err(Message(InvalidDigit))
    ensures IsValidInt(['+'] + digits) == Ok(())
  {
    assert (['+'] + digits)[1..] == digits;
    assert !IsDigit((['-'] + digits)[0]);
  }
}
