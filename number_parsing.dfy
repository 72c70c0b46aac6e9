/** JavaScript's global `parseInt(string)` called WITHOUT a radix argument
    (section 19.2.5 of ECMA-262): skip leading white space, take an optional
    sign, read a `0x`/`0X` prefix as hexadecimal, then take the longest run of
    digits and ignore whatever follows.  The resulting Number is modelled as an
    unbounded integer (or NaN). */
module NumberParsing {
  import opened Text

  /** The Number `parseInt` returns: NaN, or an integral value. */
  datatype Number = NaN | Int(value: int)

  /** Value of a character as a digit of radix up to 36 (`0`-`9`, then `a`-`z`
      or `A`-`Z` from ten); 36 for a character that is a digit in no radix. */
  function DigitValue(c: char): nat
  {
    if '0' <= c <= '9' then c as int - '0' as int
    else if 'a' <= c <= 'z' then c as int - 'a' as int + 10
    else if 'A' <= c <= 'Z' then c as int - 'A' as int + 10
    else 36
  }

  predicate IsDecimalDigit(c: char)
  {
    DigitValue(c) < 10
  }

  /** Length of the longest prefix of `s` made of digits of `radix`. */
  function LeadingDigits(s: string, radix: nat): (n: nat)
    ensures n <= |s|
    ensures forall i :: 0 <= i < n ==> DigitValue(s[i]) < radix
    ensures n < |s| ==> DigitValue(s[n]) >= radix
  {
    if |s| > 0 && DigitValue(s[0]) < radix then 1 + LeadingDigits(s[1..], radix) else 0
  }

  /** Value of a run of digits, most significant first. */
  function ValueOf(ds: string, radix: nat): nat
  {
    if ds == [] then 0 else ValueOf(ds[..|ds| - 1], radix) * radix + DigitValue(ds[|ds| - 1])
  }

  /** The digit character for `d`, lower-case letters from ten on. */
  function DigitChar(d: nat): (c: char)
    requires d < 36
    ensures DigitValue(c) == d
  {
    if d < 10 then ('0' as int + d) as char else ('a' as int + d - 10) as char
  }

  lemma ValueOfAppend(ds: string, c: char, radix: nat)
    ensures ValueOf(ds + [c], radix) == ValueOf(ds, radix) * radix + DigitValue(c)
  {
    assert (ds + [c])[..|ds|] == ds;
  }

  lemma DivMod(n: nat, radix: nat)
    requires radix == 10 || radix == 16
    ensures n / radix * radix + n % radix == n
  {
    if radix == 10 { assert n / 10 * 10 + n % 10 == n; } else { assert n / 16 * 16 + n % 16 == n; }
  }

  /** The numeral of `n` in `radix` (the two radixes `parseInt` chooses
      between) without leading zeros, as `Number.prototype.toString(radix)`
      writes a non-negative integer. */
  function Numeral(n: nat, radix: nat): (r: string)
    requires radix == 10 || radix == 16
    ensures |r| >= 1 && forall i :: 0 <= i < |r| ==> DigitValue(r[i]) < radix
    ensures ValueOf(r, radix) == n
    ensures r[0] == '0' <==> n == 0
    decreases n
  {
    if n < radix then [DigitChar(n)]
    else
      var q, d := n / radix, n % radix;
      var ds := Numeral(q, radix);
      ValueOfAppend(ds, DigitChar(d), radix);
      DivMod(n, radix);
      ds + [DigitChar(d)]
  }

  /** `String(n)` for an integral Number: the decimal numeral with a `-` in
      front of a negative value. */
  function ToDecimal(n: int): string
  {
    if n < 0 then "-" + Numeral(-n, 10) else Numeral(n, 10)
  }

  /** `parseInt(s)` with no radix. */
  function ParseInt(s: string): Number
  {
    ParseSigned(TrimStart(s))
  }

  /** Steps 3 and 4 of `parseInt`: an optional sign in front of the magnitude. */
  function ParseSigned(t: string): Number
  {
    if |t| > 0 && (t[0] == '+' || t[0] == '-') then
      match ParseMagnitude(t[1..])
      case NaN => NaN
      case Int(v) => Int(if t[0] == '-' then -v else v)
    else ParseMagnitude(t)
  }

  /** Steps 8 to 11 of `parseInt` with no radix given: a `0x` or `0X` prefix
      selects radix 16, otherwise radix 10; then the longest run of digits,
      NaN when that run is empty. */
  function ParseMagnitude(u: string): Number
  {
    if |u| >= 2 && u[0] == '0' && (u[1] == 'x' || u[1] == 'X') then ParseDigits(u[2..], 16)
    else ParseDigits(u, 10)
  }

  function ParseDigits(w: string, radix: nat): (r: Number)
    ensures r.Int? ==> r.value >= 0
  {
    var n := LeadingDigits(w, radix);
    if n == 0 then NaN else Int(ValueOf(w[..n], radix))
  }

  /** The digits end where the first non-digit of the radix stands. */
  lemma LeadingDigitsOf(ds: string, rest: string, radix: nat)
    requires forall i :: 0 <= i < |ds| ==> DigitValue(ds[i]) < radix
    requires rest == [] || DigitValue(rest[0]) >= radix
    ensures LeadingDigits(ds + rest, radix) == |ds|
    ensures ParseDigits(ds + rest, radix) == if ds == [] then NaN else Int(ValueOf(ds, radix))
  {
    var s := ds + rest;
    assert forall i :: 0 <= i < |ds| ==> s[i] == ds[i];
    assert |ds| < |s| ==> s[|ds|] == rest[0];
    assert s[..|ds|] == ds;
  }

  lemma AppendAssoc(a: string, b: string, c: string)
    ensures a + b + c == a + (b + c)
  {
  }

  /** A string that does not start with white space is its own `TrimStart`. */
  lemma TrimStartNoSpace(s: string)
    requires s != [] && !IsSpace(s[0])
    ensures TrimStart(s) == s
  {
    assert LeadingSpaces(s) == 0;
  }

  /** White space in front of the number is skipped. */
  lemma ParseIntSkipsSpace(p: string, s: string)
    requires AllSpace(p)
    ensures ParseInt(p + s) == ParseInt(s)
  {
    TrimStartSkips(p, s);
  }

  /** `parseInt` on text that starts with neither white space nor a sign
      reads its magnitude. */
  lemma ParseIntUnsigned(u: string)
    requires u != [] && !IsSpace(u[0]) && u[0] != '+' && u[0] != '-'
    ensures ParseInt(u) == ParseMagnitude(u)
  {
    TrimStartNoSpace(u);
  }

  /** `parseInt` on `-` followed by any text negates the magnitude read from
      that text. */
  lemma ParseIntMinus(u: string)
    ensures ParseInt("-" + u) == match ParseMagnitude(u) case NaN => NaN case Int(v) => Int(-v)
  {
    var s := "-" + u;
    assert s[0] == '-' && s[1..] == u;
    TrimStartNoSpace(s);
    assert ParseInt(s) == ParseSigned(s);
  }

  /** A run of decimal digits not starting with `0x`/`0X` is read in radix 10. */
  lemma ParseMagnitudeDecimal(ds: string, rest: string)
    requires ds != [] && forall i :: 0 <= i < |ds| ==> IsDecimalDigit(ds[i])
    requires rest == [] || !IsDecimalDigit(rest[0])
    requires ds[0] == '0' && |ds| == 1 ==> rest == [] || (rest[0] != 'x' && rest[0] != 'X')
    ensures ParseMagnitude(ds + rest) == Int(ValueOf(ds, 10))
  {
    var u := ds + rest;
    assert ParseDigits(u, 10) == Int(ValueOf(ds, 10)) by {
      LeadingDigitsOf(ds, rest, 10);
    }
    assert u[0] == ds[0];
    assert |u| >= 2 ==> u[1] == if |ds| >= 2 then ds[1] else rest[0];
  }

  /** Decimal round trip: the numeral of any integer, followed by anything
      that does not extend the number, parses back to that integer.  The one
      exception to "anything" is `0` followed by `x` or `X`, which `parseInt`
      reads as the start of a hexadecimal numeral. */
  lemma ParseIntDecimal(n: int, rest: string)
    requires rest == [] || (!IsDecimalDigit(rest[0]) && (n == 0 ==> rest[0] != 'x' && rest[0] != 'X'))
    ensures ParseInt(ToDecimal(n) + rest) == Int(n)
  {
    if n < 0 {
      ParseIntNegativeNumeral(-n, rest);
      assert ToDecimal(n) + rest == "-" + Numeral(-n, 10) + rest;
    } else {
      ParseIntNumeral(n, rest);
      assert ToDecimal(n) + rest == Numeral(n, 10) + rest;
    }
  }

  lemma ParseIntNumeral(m: nat, rest: string)
    requires rest == [] || (!IsDecimalDigit(rest[0]) && (m == 0 ==> rest[0] != 'x' && rest[0] != 'X'))
    ensures ParseInt(Numeral(m, 10) + rest) == Int(m)
  {
    ParseNumeralMagnitude(m, rest);
    ParseIntUnsigned(Numeral(m, 10) + rest);
  }

  lemma ParseIntNegativeNumeral(m: nat, rest: string)
    requires m > 0 && (rest == [] || !IsDecimalDigit(rest[0]))
    ensures ParseInt("-" + Numeral(m, 10) + rest) == Int(-(m as int))
  {
    var u := Numeral(m, 10) + rest;
    ParseNumeralMagnitude(m, rest);
    ParseIntMinus(u);
    AppendAssoc("-", Numeral(m, 10), rest);
  }

  /** The magnitude read from a decimal numeral and what follows it. */
  lemma ParseNumeralMagnitude(m: nat, rest: string)
    requires rest == [] || (!IsDecimalDigit(rest[0]) && (m == 0 ==> rest[0] != 'x' && rest[0] != 'X'))
    ensures var u := Numeral(m, 10) + rest;
      ParseMagnitude(u) == Int(m) && IsDecimalDigit(u[0])
  {
    var ds := Numeral(m, 10);
    ParseMagnitudeDecimal(ds, rest);
    assert (ds + rest)[0] == ds[0];
  }

  /** After `0x` the digits are read in radix 16. */
  lemma ParseHexPrefix(w: string)
    ensures ParseInt("0x" + w) == ParseDigits(w, 16)
  {
    var s := "0x" + w;
    assert s[0] == '0' && s[1] == 'x' && s[2..] == w;
    ParseIntUnsigned(s);
  }

  /** `0x`, hexadecimal digits, then anything that does not extend them. */
  lemma ParseIntHexDigits(ds: string, rest: string)
    requires ds != [] && forall i :: 0 <= i < |ds| ==> DigitValue(ds[i]) < 16
    requires rest == [] || DigitValue(rest[0]) >= 16
    ensures ParseInt("0x" + (ds + rest)) == Int(ValueOf(ds, 16))
  {
    LeadingDigitsOf(ds, rest, 16);
    ParseHexPrefix(ds + rest);
  }

  /** Hexadecimal round trip: `0x` followed by the hexadecimal numeral of `n`
      and anything that is not a hexadecimal digit parses back to `n`. */
  lemma ParseIntHex(n: nat, rest: string)
    requires rest == [] || DigitValue(rest[0]) >= 16
    ensures ParseInt("0x" + Numeral(n, 16) + rest) == Int(n)
  {
    var ds := Numeral(n, 16);
    ParseIntHexDigits(ds, rest);
    assert "0x" + ds + rest == "0x" + (ds + rest);
  }

  /** A `0x` prefix commits `parseInt` to hexadecimal: with no hexadecimal
      digit after it the result is NaN, even though `0` alone would parse. */
  lemma ParseIntBareHexPrefix(rest: string)
    requires rest == [] || DigitValue(rest[0]) >= 16
    ensures ParseInt("0x" + rest) == NaN
  {
    ParseHexPrefix(rest);
  }

  /** Whatever `parseInt` returns as a number was read from at least one
      decimal digit of the input (the `0` of a `0x` prefix counts). */
  lemma ParseIntNeedsDigit(s: string)
    requires ParseInt(s).Int?
    ensures exists i :: 0 <= i < |s| && IsDecimalDigit(s[i])
  {
    var a := LeadingSpaces(s);
    var t := TrimStart(s);
    var signed := |t| > 0 && (t[0] == '+' || t[0] == '-');
    var k := a + (if signed then 1 else 0);
    assert k < |s| && s[k] == (if signed then t[1..] else t)[0];
    assert IsDecimalDigit(s[k]);
  }
}
