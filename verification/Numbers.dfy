/** Decimal numerals, and the C library's reading of them. */
module Numbers {
  import opened CStrings

  predicate IsDigit(c: char) { '0' <= c <= '9' }

  predicate AllDigits(s: string) { forall i | 0 <= i < |s| :: IsDigit(s[i]) }

  function DecimalValue(s: string): nat
    requires AllDigits(s)
  {
    if s == "" then 0
    else 10 * DecimalValue(s[..|s| - 1]) + (s[|s| - 1] as int - '0' as int)
  }

  function Decimal(n: nat): string {
    if n < 10 then [('0' as int + n) as char]
    else Decimal(n / 10) + [('0' as int + n % 10) as char]
  }

  lemma {:induction false} DecimalReads(n: nat)
    ensures Decimal(n) != "" && AllDigits(Decimal(n)) && DecimalValue(Decimal(n)) == n
  {
    if n >= 10 {
      DecimalReads(n / 10);
      assert Decimal(n)[..|Decimal(n)| - 1] == Decimal(n / 10);
    }
  }

  /** No numeral has a leading zero but that of zero. */
  lemma {:induction false} NoLeadingZero(n: nat)
    ensures Decimal(n)[0] == '0' <==> n == 0
    ensures Decimal(0) == "0"
  {
    if n >= 10 {
      NoLeadingZero(n / 10);
      DecimalReads(n / 10);
    }
  }

  function Power(b: nat, n: nat): nat { if n == 0 then 1 else b * Power(b, n - 1) }

  /** The first digit counts for its value times ten to the number of digits
      after it. */
  lemma {:induction false} LeadingDigit(c: char, s: string)
    requires '0' <= c <= '9' && forall i | 0 <= i < |s| :: '0' <= s[i] <= '9'
    ensures DecimalValue([c] + s) == (c as int - '0' as int) * Power(10, |s|) + DecimalValue(s)
  {
    var whole, n := [c] + s, |s|;
    if s == "" {
      assert whole[..0] == "";
    } else {
      LeadingDigit(c, s[..n - 1]);
      assert whole[..n] == [c] + s[..n - 1];
      assert (c as int - '0' as int) * Power(10, n) == 10 * ((c as int - '0' as int) * Power(10, n - 1));
    }
  }

  const INT_MAX: int := 0x7FFF_FFFF

  /** A leading zero does not change the value. */
  lemma {:induction false} LeadingZero(s: string)
    requires AllDigits(s)
    ensures AllDigits("0" + s) && DecimalValue("0" + s) == DecimalValue(s)
  {
    if s == "" {
      assert ("0" + s)[..0] == "";
    } else {
      var n := |s| - 1;
      assert ("0" + s)[..n + 1] == "0" + s[..n];
      LeadingZero(s[..n]);
    }
  }

  // ---------------------------------------------------------------------
  // strtol, base 10, and ParseInt32
  // ---------------------------------------------------------------------

  predicate IsSpace(c: char) { c in {' ', '\t', '\n', '\r', '\U{000B}', '\U{000C}'} }

  predicate AllSpaces(s: string) { forall i | 0 <= i < |s| :: IsSpace(s[i]) }

  /** How many characters a text starts with that satisfy p. */
  function Span(s: string, p: char -> bool): (n: nat)
    ensures n <= |s| && (forall i | 0 <= i < n :: p(s[i])) && (n < |s| ==> !p(s[n]))
  {
    if s == "" || !p(s[0]) then 0 else 1 + Span(s[1..], p)
  }

  lemma SpanUnique(s: string, p: char -> bool, n: nat)
    requires n <= |s| && (forall i | 0 <= i < n :: p(s[i])) && (n < |s| ==> !p(s[n]))
    ensures Span(s, p) == n
  {
  }

  function Clamp(low: int, v: int, high: int): int {
    if v < low then low else if v > high then high else v
  }

  datatype Sign = NoSign | Plus | Minus

  function SignText(sign: Sign): string {
    match sign
    case NoSign => []
    case Plus => ['+']
    case Minus => ['-']
  }

  function SignOf(s: string): (sign: Sign)
    ensures SignText(sign) <= s
  {
    if s == "" then NoSign
    else if s[0] == '+' then Plus
    else if s[0] == '-' then Minus
    else NoSign
  }

  function Signed(sign: Sign, magnitude: nat): int {
    if sign.Minus? then -(magnitude as int) else magnitude
  }

  /** The value, and where reading stopped: at the start when no number was
      found. */
  function Strtol(s: string, longMax: int): (r: (int, nat))
    ensures r.1 <= |s|
  {
    var spaces := Span(s, IsSpace);
    var (value, length) := ReadSigned(s[spaces..]);
    if length == 0 then (0, 0) else (Clamp(-longMax - 1, value, longMax), spaces + length)
  }

  // A sign and digits at the start of s; no length without digits.
  function ReadSigned(s: string): (r: (int, nat))
    ensures r.1 <= |s|
  {
    var sign := SignOf(s);
    var rest := s[|SignText(sign)|..];
    var digits := Span(rest, IsDigit);
    if digits == 0 then (0, 0) else (Signed(sign, DecimalValue(rest[..digits])), |SignText(sign)| + digits)
  }

  /** The value must end the text, be neither end of the range of long and
      survive the conversion to 32 bits. */
  function ParseInt32(str: string, longMax: int): Option<int> {
    var (value, end) := Strtol(str, longMax);
    if end != |str| || value == longMax || value == -longMax - 1 || !(-INT_MAX - 1 <= value <= INT_MAX)
    then None else Some(value)
  }

  ghost predicate IsNumeral(str: string, v: int, spaces: string, sign: string, digits: string) {
    && str == spaces + sign + digits
    && (forall i | 0 <= i < |spaces| :: spaces[i] == ' ' || 0x09 <= spaces[i] as int <= 0x0D)
    && sign in {"", "+", "-"}
    && digits != "" && (forall i | 0 <= i < |digits| :: '0' <= digits[i] <= '9')
    && v == (if sign == "-" then -1 else 1) * DecimalValue(digits)
  }

  /** str is a numeral for v: white space, a sign or none, and digits. */
  ghost predicate Numeral(str: string, v: int) {
    exists spaces, sign, digits :: IsNumeral(str, v, spaces, sign, digits)
  }

  predicate AcceptedInt32(v: int, longMax: int) {
    -0x8000_0000 <= v <= 0x7FFF_FFFF && -longMax - 1 < v < longMax
  }

  lemma SignRead(sign: Sign, digits: string)
    requires digits != "" && AllDigits(digits)
    ensures SignOf(SignText(sign) + digits) == sign
    ensures !IsSpace((SignText(sign) + digits)[0])
  {
    assert IsDigit(digits[0]);
  }

  lemma SignedRead(sign: Sign, digits: string)
    requires digits != "" && AllDigits(digits)
    ensures ReadSigned(SignText(sign) + digits) == (Signed(sign, DecimalValue(digits)), |SignText(sign) + digits|)
  {
    hide SignOf, SignText, DecimalValue;
    SignRead(sign, digits);
    assert (SignText(sign) + digits)[|SignText(sign)|..] == digits;
    SpanUnique(digits, IsDigit, |digits|);
    assert digits[..|digits|] == digits;
  }

  lemma NumeralRead(str: string, v: int, spaces: string, sign: Sign, digits: string, longMax: int)
    requires str == spaces + SignText(sign) + digits && AllSpaces(spaces)
    requires digits != "" && AllDigits(digits) && v == Signed(sign, DecimalValue(digits))
    ensures Strtol(str, longMax) == (Clamp(-longMax - 1, v, longMax), |str|)
  {
    hide SignText, ReadSigned, DecimalValue, Clamp, Signed;
    var signed := SignText(sign) + digits;
    SignRead(sign, digits);
    SignedRead(sign, digits);
    assert str == spaces + signed;
    assert str[|spaces|..] == signed && str[|spaces|] == signed[0];
    SpanUnique(str, IsSpace, |spaces|);
  }

  lemma SignedTakes(s: string) returns (sign: Sign, digits: string)
    requires ReadSigned(s).1 == |s| && s != ""
    ensures s == SignText(sign) + digits && digits != "" && AllDigits(digits)
    ensures ReadSigned(s).0 == Signed(sign, DecimalValue(digits))
  {
    hide SignText, DecimalValue;
    sign := SignOf(s);
    digits := s[|SignText(sign)|..];
    assert digits[..|digits|] == digits;
  }

  lemma StrtolTakesNumeral(str: string, longMax: int) returns (v: int)
    requires Strtol(str, longMax).1 == |str| && str != ""
    ensures Numeral(str, v) && Strtol(str, longMax).0 == Clamp(-longMax - 1, v, longMax)
  {
    hide SignText, ReadSigned, DecimalValue, Clamp;
    var spaces := Span(str, IsSpace);
    var sign, digits := SignedTakes(str[spaces..]);
    v := ReadSigned(str[spaces..]).0;
    assert str == str[..spaces] + SignText(sign) + digits;
    SignIsText(sign);
    assert IsNumeral(str, v, str[..spaces], SignText(sign), digits);
  }

  /** A text is read as v exactly when it is a numeral for v in range, or
      empty and v is zero. */
  lemma ParseInt32Iff(str: string, longMax: int, v: int)
    requires longMax >= INT_MAX
    ensures ParseInt32(str, longMax) == Some(v) <==>
            (Numeral(str, v) && AcceptedInt32(v, longMax)) || (str == "" && v == 0)
  {
    hide Numeral, Strtol;
    if Numeral(str, v) {
      NumeralClamped(str, v, longMax);
    }
    if str == "" {
      EmptyRead(longMax);
      EmptyNotNumeral(v);
    } else if Strtol(str, longMax).1 == |str| {
      var w := StrtolTakesNumeral(str, longMax);
    }
  }

  lemma SignIsText(sign: Sign)
    ensures SignText(sign) in {"", "+", "-"} && (SignText(sign) == "-" <==> sign.Minus?)
  {
  }

  function SignNamed(text: string): Sign {
    if text == "+" then Plus else if text == "-" then Minus else NoSign
  }

  lemma NumeralClamped(str: string, v: int, longMax: int)
    requires Numeral(str, v)
    ensures Strtol(str, longMax) == (Clamp(-longMax - 1, v, longMax), |str|)
  {
    var spaces, sign, digits :| IsNumeral(str, v, spaces, sign, digits);
    assert SignText(SignNamed(sign)) == sign;
    NumeralRead(str, v, spaces, SignNamed(sign), digits, longMax);
  }

  lemma EmptyRead(longMax: int)
    ensures Strtol("", longMax) == (0, 0)
  {
  }

  /** The empty text is no numeral, and is read as 0. */
  lemma EmptyTextIsZero(longMax: int)
    requires longMax >= INT_MAX
    ensures ParseInt32("", longMax) == Some(0) && forall v :: !Numeral("", v)
  {
    ParseInt32Iff("", longMax, 0);
  }

  lemma EmptyNotNumeral(v: int)
    ensures !Numeral("", v)
  {
  }

  function Int32Text(v: int): string {
    if v < 0 then ['-'] + Decimal(-v) else Decimal(v)
  }

  /** Printed integers read back, except the ends of the range where long is
      no wider than Int32. */
  lemma Int32RoundTripIff(v: int, longMax: int)
    requires longMax >= INT_MAX && -INT_MAX - 1 <= v <= INT_MAX
    ensures ParseInt32(Int32Text(v), longMax) == Some(v) <==> longMax > INT_MAX || -INT_MAX - 1 < v < INT_MAX
  {
    hide ParseInt32, Numeral, Int32Text;
    ParseInt32Iff(Int32Text(v), longMax, v);
    Int32TextNumeral(v);
  }

  lemma Int32TextNumeral(v: int)
    ensures Int32Text(v) != "" && Numeral(Int32Text(v), v)
  {
    hide Decimal, DecimalValue;
    var n: nat := if v < 0 then -v else v;
    DecimalReads(n);
    var sign := if v < 0 then Minus else NoSign;
    assert Int32Text(v) == [] + SignText(sign) + Decimal(n);
    assert IsNumeral(Int32Text(v), v, [], SignText(sign), Decimal(n));
  }
}
