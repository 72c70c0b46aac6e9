/** `validateId` of cmds.js: turns the raw `<id>` argument of a command into
    an integer, or rejects it.  It looks only at its argument; whether a quiz
    with that id exists is for the caller to find out. */
module Validator {
  import opened Wrappers
  import opened Text
  import opened NumberParsing

  /** Why `validateId` rejects: no argument at all, or one `parseInt` reads as NaN. */
  datatype IdError = MissingParameter | NotANumber

  /** The promise `validateId(id)` settles: the argument is `undefined`
      (`None`) or the text the user typed after the command name. */
  function ValidateId(raw: Option<string>): (r: Result<int, IdError>)
    ensures raw.None? <==> r == Failure(MissingParameter)
    ensures r.Success? ==> ParseInt(raw.value) == Int(r.value)
    ensures r.Success? ==> exists i :: 0 <= i < |raw.value| && IsDecimalDigit(raw.value[i])
  {
    match raw
    case None => Failure(MissingParameter)
    case Some(s) =>
      match ParseInt(s)
      case NaN => Failure(NotANumber)
      case Int(v) =>
        ParseIntNeedsDigit(s);
        Success(v)
  }

  /** A present argument is rejected exactly when `parseInt` finds no number
      in it, and then always as "not a number", never as "missing". */
  lemma ValidateIdRejectsExactlyNaN(s: string)
    ensures ValidateId(Some(s)).Failure? <==> ParseInt(s) == NaN
    ensures ValidateId(Some(s)).Failure? ==> ValidateId(Some(s)).error == NotANumber
  {
  }

  /** The decimal numeral of any id, with anything after it that does not
      continue the number, validates to that id: `"3abc"` gives 3. */
  lemma ValidateIdDecimal(n: int, rest: string)
    requires rest == [] || (!IsDecimalDigit(rest[0]) && (n == 0 ==> rest[0] != 'x' && rest[0] != 'X'))
    ensures ValidateId(Some(ToDecimal(n) + rest)) == Success(n)
  {
    ParseIntDecimal(n, rest);
  }

  /** Leading white space in the argument is ignored. */
  lemma ValidateIdSkipsSpace(p: string, s: string)
    requires AllSpace(p)
    ensures ValidateId(Some(p + s)) == ValidateId(Some(s))
  {
    ParseIntSkipsSpace(p, s);
  }

  /** An argument with no decimal digit anywhere is "not a number". */
  lemma ValidateIdNoDigit(s: string)
    requires forall i :: 0 <= i < |s| ==> !IsDecimalDigit(s[i])
    ensures ValidateId(Some(s)) == Failure(NotANumber)
  {
  }

  /** Trailing text that does not continue the number is dropped. */
  lemma ValidateIdDropsTrailingText()
    ensures ValidateId(Some("12xyz")) == Success(12)
  {
    assert Numeral(1, 10) == "1";
    assert ToDecimal(12) == Numeral(1, 10) + [DigitChar(2)];
    ValidateIdDecimal(12, "xyz");
    assert ToDecimal(12) + "xyz" == "12xyz";
  }

  /** A sign in front of the digits is honoured. */
  lemma ValidateIdNegative()
    ensures ValidateId(Some("-7")) == Success(-7)
  {
    assert ToDecimal(-7) == "-7";
    ValidateIdDecimal(-7, "");
    assert ToDecimal(-7) + "" == "-7";
  }

  /** An empty argument is present but is not a number. */
  lemma ValidateIdEmpty()
    ensures ValidateId(Some("")) == Failure(NotANumber)
  {
  }

  /** A `0x` prefix switches to hexadecimal digits. */
  lemma ValidateIdHex()
    ensures ValidateId(Some("0x1f")) == Success(31)
  {
    ParseIntHexDigits("1f", "");
    assert "0x" + ("1f" + "") == "0x1f";
  }

  /** `0x` with no hexadecimal digit after it is not a number, although `0`
      alone would be. */
  lemma ValidateIdBareHexPrefix()
    ensures ValidateId(Some("0x")) == Failure(NotANumber)
  {
    ParseIntBareHexPrefix("");
    assert "0x" + "" == "0x";
  }
}
