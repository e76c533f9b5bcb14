/** Printing of byte strings as C++ string literals (gtest-printers.cc), and a
    reader for adjacent string literals that the printer is proved against. */
module StringPrinter {
  import opened CStrings
  import opened OutStreams

  /** A narrow character. */
  type Byte = c: char | c as int < 256 witness 'a'

  // ---------------------------------------------------------------------
  // Printing
  // ---------------------------------------------------------------------

  datatype CharFormat = AsIs | HexEscape | SpecialEscape
  datatype Literal = Literal(text: string, format: CharFormat)

  function HexDigit(d: nat): (c: char)
    requires d < 16
  {
    if d < 10 then ('0' as int + d) as char else ('A' as int + d - 10) as char
  }

  function FormatHexInt(n: nat): string {
    if n < 16 then [HexDigit(n)] else FormatHexInt(n / 16) + [HexDigit(n % 16)]
  }

  predicate IsXDigit(c: char) { '0' <= c <= '9' || 'a' <= c <= 'f' || 'A' <= c <= 'F' }

  predicate IsPrintableAscii(c: char) { 0x20 <= c as int <= 0x7E }

  function AsCharLiteral(c: Byte): Literal {
    match c
    case '\0' => Literal("\\0", SpecialEscape)
    case '\'' => Literal("\\'", SpecialEscape)
    case '\\' => Literal("\\\\", SpecialEscape)
    case '\U{0007}' => Literal("\\a", SpecialEscape)
    case '\U{0008}' => Literal("\\b", SpecialEscape)
    case '\U{000C}' => Literal("\\f", SpecialEscape)
    case '\n' => Literal("\\n", SpecialEscape)
    case '\r' => Literal("\\r", SpecialEscape)
    case '\t' => Literal("\\t", SpecialEscape)
    case '\U{000B}' => Literal("\\v", SpecialEscape)
    case _ => if IsPrintableAscii(c) then Literal([c], AsIs) else Literal("\\x" + FormatHexInt(c as int), HexEscape)
  }

  function AsStringLiteral(c: Byte): Literal {
    match c
    case '\'' => Literal("'", AsIs)
    case '"' => Literal("\\\"", SpecialEscape)
    case _ => AsCharLiteral(c)
  }

  // What goes between the outer quotes; a hex escape is cut off from a
  // following hex digit by closing and reopening the literal.
  function Body(s: seq<Byte>, isPreviousHex: bool): string {
    if s == [] then ""
    else
      (if isPreviousHex && IsXDigit(s[0]) then "\" \"" else "") +
      AsStringLiteral(s[0]).text + Body(s[1..], AsStringLiteral(s[0]).format.HexEscape?)
  }

  function Printed(s: seq<Byte>): string {
    "\"" + Body(s, false) + "\""
  }

  method PrintAsStringLiteralTo(c: Byte, os: OutStream) returns (format: CharFormat)
    modifies os
    ensures os.contents == old(os.contents) + AsStringLiteral(c).text
    ensures format == AsStringLiteral(c).format
  {
    os.Write(AsStringLiteral(c).text);
    return AsStringLiteral(c).format;
  }

  method PrintCharsAsStringTo(begin: seq<Byte>, os: OutStream)
    modifies os
    ensures os.contents == old(os.contents) + Printed(begin)
  {
    hide AsStringLiteral, IsXDigit, Body;
    os.Write("\"");
    var isPreviousHex := false;
    assert begin[0..] == begin;
    for index := 0 to |begin|
      invariant os.contents + Body(begin[index..], isPreviousHex) == old(os.contents) + "\"" + Body(begin, false)
    {
      var cur := begin[index];
      BodyStep(begin[index..], isPreviousHex);
      assert begin[index..][1..] == begin[index + 1..];
      ghost var start, rest := os.contents, Body(begin[index + 1..], AsStringLiteral(cur).format.HexEscape?);
      if isPreviousHex && IsXDigit(cur) {
        os.Write("\" \"");
        assert start + ("\" \"" + AsStringLiteral(cur).text + rest) == os.contents + AsStringLiteral(cur).text + rest;
      } else {
        assert start + ("" + AsStringLiteral(cur).text + rest) == os.contents + AsStringLiteral(cur).text + rest;
      }
      var format := PrintAsStringLiteralTo(cur, os);
      isPreviousHex := format.HexEscape?;
    }
    BodyEmpty(isPreviousHex);
    os.Write("\"");
    assert old(os.contents) + ("\"" + Body(begin, false) + "\"") == old(os.contents) + "\"" + Body(begin, false) + "\"";
  }

  lemma BodyStep(s: seq<Byte>, isPreviousHex: bool)
    requires s != []
    ensures Body(s, isPreviousHex) ==
            (if isPreviousHex && IsXDigit(s[0]) then "\" \"" else "") +
            AsStringLiteral(s[0]).text + Body(s[1..], AsStringLiteral(s[0]).format.HexEscape?)
  {
  }

  lemma BodyEmpty(isPreviousHex: bool)
    ensures Body([], isPreviousHex) == ""
  {
  }

  // ---------------------------------------------------------------------
  // What is printed, in full
  // ---------------------------------------------------------------------

  lemma PrintedOne(c: Byte)
    ensures Printed([c]) == "\"" + AsStringLiteral(c).text + "\""
  {
    hide AsStringLiteral;
    BodyStep([c], false);
    BodyEmpty(AsStringLiteral(c).format.HexEscape?);
    assert [c][1..] == [] && "" + AsStringLiteral(c).text + "" == AsStringLiteral(c).text;
  }

  /** The characters with an escape of their own. */
  lemma SpecialCharactersPrinted()
    ensures Printed(['\0']) == "\"\\0\"" && Printed(['"']) == "\"\\\"\"" && Printed(['\\']) == "\"\\\\\""
    ensures Printed([7 as char]) == "\"\\a\"" && Printed([8 as char]) == "\"\\b\"" && Printed([9 as char]) == "\"\\t\""
    ensures Printed([10 as char]) == "\"\\n\"" && Printed([11 as char]) == "\"\\v\""
    ensures Printed([12 as char]) == "\"\\f\"" && Printed([13 as char]) == "\"\\r\""
  {
    hide Printed;
    PrintedOne('\0');
    PrintedOne('"');
    PrintedOne('\\');
    PrintedOne(7 as char);
    PrintedOne(8 as char);
    PrintedOne(9 as char);
    PrintedOne(10 as char);
    PrintedOne(11 as char);
    PrintedOne(12 as char);
    PrintedOne(13 as char);
  }

  /** Of the others, printable ASCII is printed as it is, and the rest by a hex
      escape with no leading zero. */
  lemma OtherCharactersPrinted(c: Byte)
    requires c !in {'\0', '"', '\\'} && !(7 <= c as int <= 13)
    ensures 0x20 <= c as int <= 0x7E ==> Printed([c]) == ['"', c, '"']
    ensures !(0x20 <= c as int <= 0x7E) ==>
              var digits := "0123456789ABCDEF";
              Printed([c]) == "\"\\x" + (if c as int < 16 then "" else [digits[c as int / 16]])
                              + [digits[c as int % 16]] + "\""
  {
    hide Printed;
    PrintedOne(c);
    if !(0x20 <= c as int <= 0x7E) {
      HexInFull(c as int);
    }
  }

  /** Hex numbers are written in capitals, a digit more for every factor of 16. */
  lemma HexByDigits(n: nat)
    ensures var digits := "0123456789ABCDEF";
            FormatHexInt(n) == (if n < 16 then "" else FormatHexInt(n / 16)) + [digits[n % 16]]
  {
    HexDigitListed(n % 16);
  }

  lemma HexInFull(n: nat)
    requires n < 256
    ensures var digits := "0123456789ABCDEF";
            FormatHexInt(n) == (if n < 16 then "" else [digits[n / 16]]) + [digits[n % 16]]
  {
    hide FormatHexInt;
    HexByDigits(n);
    HexByDigits(n / 16);
  }

  lemma HexDigitListed(d: nat)
    requires d < 16
    ensures HexDigit(d) == "0123456789ABCDEF"[d]
  {
    var digits := "0123456789ABCDEF";
    assert digits[0] == '0' && digits[1] == '1' && digits[2] == '2' && digits[3] == '3' && digits[4] == '4';
    assert digits[5] == '5' && digits[6] == '6' && digits[7] == '7' && digits[8] == '8' && digits[9] == '9';
    assert digits[10] == 'A' && digits[11] == 'B' && digits[12] == 'C' && digits[13] == 'D';
    assert digits[14] == 'E' && digits[15] == 'F';
  }

  /** Characters are printed one after the other; only between a hex escape and
      a hex digit is the literal closed and reopened. */
  lemma PrintedCons(c: Byte, s: seq<Byte>)
    requires s != []
    ensures var isHexEscape := c !in {'\0', '"', '\\'} && !(7 <= c as int <= 13) && !(0x20 <= c as int <= 0x7E);
            var d := s[0];
            var isHexDigit := '0' <= d <= '9' || 'A' <= d <= 'F' || 'a' <= d <= 'f';
            var one := Printed([c]);
            Printed([c] + s) ==
            one[..|one| - 1] + (if isHexEscape && isHexDigit then "\" \"" else "") + Printed(s)[1..]
  {
    hide Body, AsStringLiteral;
    PrintedOne(c);
    HexEscapeIff(c);
    BodyCons(c, s);
    var text, isHex := AsStringLiteral(c).text, AsStringLiteral(c).format.HexEscape?;
    QuotedGlue(text, if isHex && IsXDigit(s[0]) then "\" \"" else "", Body(s, false));
  }

  lemma BodyCons(c: Byte, s: seq<Byte>)
    requires s != []
    ensures var isHex := AsStringLiteral(c).format.HexEscape?;
            Body([c] + s, false) ==
            AsStringLiteral(c).text + ((if isHex && IsXDigit(s[0]) then "\" \"" else "") + Body(s, false))
  {
    hide Body, AsStringLiteral, IsXDigit;
    var isHex := AsStringLiteral(c).format.HexEscape?;
    BodyStep([c] + s, false);
    assert ([c] + s)[1..] == s;
    BodyStep(s, isHex);
    BodyStep(s, false);
    assert Body(s, isHex) == (if isHex && IsXDigit(s[0]) then "\" \"" else "") + Body(s, false);
  }

  lemma QuotedGlue(text: string, gap: string, rest: string)
    ensures var one := "\"" + text + "\"";
            "\"" + (text + (gap + rest)) + "\"" == one[..|one| - 1] + gap + ("\"" + rest + "\"")[1..]
  {
    var one := "\"" + text + "\"";
    assert one[..|one| - 1] == "\"" + text && ("\"" + rest + "\"")[1..] == rest + "\"";
  }

  lemma HexEscapeIff(c: Byte)
    ensures AsStringLiteral(c).format.HexEscape? <==>
            c !in {'\0', '"', '\\'} && !(7 <= c as int <= 13) && !(0x20 <= c as int <= 0x7E)
  {
  }

  // ---------------------------------------------------------------------
  // Reading adjacent string literals: sections [lex.ccon], [lex.string] and
  // [lex.phases] of the C++ standard
  // ---------------------------------------------------------------------

  predicate IsOctalDigit(c: char) { '0' <= c <= '7' }

  function OctalValue(c: char): nat
    requires IsOctalDigit(c)
  {
    c as int - '0' as int
  }

  function HexValue(c: char): (v: nat)
    requires IsXDigit(c)
    ensures v < 16
  {
    if c <= '9' then c as int - '0' as int
    else if c <= 'F' then c as int - 'A' as int + 10
    else c as int - 'a' as int + 10
  }

  /** The longest run of hex digits a text starts with. */
  function HexRun(text: string): (n: nat)
    ensures n <= |text|
    ensures forall i | 0 <= i < n :: IsXDigit(text[i])
    ensures n < |text| ==> !IsXDigit(text[n])
  {
    if text == "" || !IsXDigit(text[0]) then 0 else 1 + HexRun(text[1..])
  }

  function HexNumber(digits: string): nat
    requires forall i | 0 <= i < |digits| :: IsXDigit(digits[i])
  {
    if digits == "" then 0
    else 16 * HexNumber(digits[..|digits| - 1]) + HexValue(digits[|digits| - 1])
  }

  /** What an escape sequence without its backslash stands for, and its length. */
  datatype Escape = Escape(c: Byte, length: nat)

  function ReadEscape(text: string): (e: Option<Escape>)
    ensures e.Some? ==> 0 < e.value.length <= |text|
  {
    if text == "" then None
    else
      match text[0]
      case '\'' => Some(Escape('\'', 1))
      case '"' => Some(Escape('"', 1))
      case '?' => Some(Escape('?', 1))
      case '\\' => Some(Escape('\\', 1))
      case 'a' => Some(Escape('\U{0007}', 1))
      case 'b' => Some(Escape('\U{0008}', 1))
      case 'f' => Some(Escape('\U{000C}', 1))
      case 'n' => Some(Escape('\n', 1))
      case 'r' => Some(Escape('\r', 1))
      case 't' => Some(Escape('\t', 1))
      case 'v' => Some(Escape('\U{000B}', 1))
      case 'x' =>
        var n := HexRun(text[1..]);
        if n == 0 || HexNumber(text[1..1 + n]) >= 256 then None
        else Some(Escape(HexNumber(text[1..1 + n]) as char, 1 + n))
      case _ => ReadOctalEscape(text)
  }

  // One to three octal digits, as many as there are.
  function ReadOctalEscape(text: string): (e: Option<Escape>)
    requires text != ""
    ensures e.Some? ==> 0 < e.value.length <= |text|
  {
    if !IsOctalDigit(text[0]) then None
    else
      var one := OctalValue(text[0]);
      if |text| == 1 || !IsOctalDigit(text[1]) then Some(Escape(one as char, 1))
      else
        var two := 8 * one + OctalValue(text[1]);
        if |text| == 2 || !IsOctalDigit(text[2]) then Some(Escape(two as char, 2))
        else
          var three := 8 * two + OctalValue(text[2]);
          if three >= 256 then None else Some(Escape(three as char, 3))
  }

  function Cons(c: char, rest: Option<string>): Option<string> {
    if rest.None? then None else Some([c] + rest.value)
  }

  /** Reads on from inside a literal to the end of the last one. */
  function ReadInside(text: string): Option<string>
    decreases |text|
  {
    if text == "" || text[0] == '\n' then None
    else if text[0] == '"' then ReadAfter(text[1..])
    else if text[0] != '\\' then Cons(text[0], ReadInside(text[1..]))
    else
      match ReadEscape(text[1..])
      case None => None
      case Some(e) => Cons(e.c, ReadInside(text[1 + e.length..]))
  }

  /** Reads on from after a closing quote; further literals concatenate. */
  function ReadAfter(text: string): Option<string>
    decreases |text|
  {
    if text == "" then Some("")
    else if text[0] == ' ' then ReadAfter(text[1..])
    else if text[0] == '"' then ReadInside(text[1..])
    else None
  }

  /** The value of a sequence of adjacent string literals. */
  function ReadLiterals(text: string): Option<string> {
    if text == "" || text[0] != '"' then None else ReadInside(text[1..])
  }

  // ---------------------------------------------------------------------
  // What reading gives back
  // ---------------------------------------------------------------------

  // How many octal digits, up to two, a text starts with.
  function OctalRun(text: string): (n: nat)
    ensures n <= 2 && n <= |text|
  {
    if text == "" || !IsOctalDigit(text[0]) then 0
    else if |text| == 1 || !IsOctalDigit(text[1]) then 1
    else 2
  }

  function OctalNumber(text: string): (c: nat)
    ensures c < 64
  {
    if OctalRun(text) == 0 then 0
    else if OctalRun(text) == 1 then OctalValue(text[0])
    else 8 * OctalValue(text[0]) + OctalValue(text[1])
  }

  /** A NUL swallows up to two octal digits that follow it. */
  function Merge(s: seq<Byte>): seq<Byte>
    decreases |s|
  {
    if s == [] then []
    else if s[0] == '\0' then [OctalNumber(s[1..]) as char] + Merge(s[1 + OctalRun(s[1..])..])
    else [s[0]] + Merge(s[1..])
  }

  predicate HasNulBeforeOctalDigit(s: seq<Byte>) {
    exists i | 0 <= i < |s| - 1 :: s[i] == '\0' && IsOctalDigit(s[i + 1])
  }

  lemma {:induction false} MergeShrinks(s: seq<Byte>)
    ensures |Merge(s)| <= |s|
    ensures HasNulBeforeOctalDigit(s) ==> |Merge(s)| < |s|
    ensures !HasNulBeforeOctalDigit(s) ==> Merge(s) == s
    decreases |s|
  {
    if s != [] {
      hide HasNulBeforeOctalDigit, OctalNumber;
      var n := if s[0] == '\0' then OctalRun(s[1..]) else 0;
      HasNulTail(s);
      MergeShrinks(s[1 + n..]);
      assert s == [s[0]] + s[1..];
    }
  }

  lemma HasNulTail(s: seq<Byte>)
    requires s != []
    ensures HasNulBeforeOctalDigit(s) <==>
            (|s| > 1 && s[0] == '\0' && IsOctalDigit(s[1])) || HasNulBeforeOctalDigit(s[1..])
  {
    if i :| 0 <= i < |s[1..]| - 1 && s[1..][i] == '\0' && IsOctalDigit(s[1..][i + 1]) {
      assert s[i + 1] == '\0' && IsOctalDigit(s[i + 1 + 1]);
    }
    if |s| > 1 && s[0] == '\0' && IsOctalDigit(s[1]) {
      assert IsOctalDigit(s[0 + 1]);
    }
    if i :| 0 <= i < |s| - 1 && s[i] == '\0' && IsOctalDigit(s[i + 1]) {
      if i > 0 {
        assert s[1..][i - 1] == '\0' && IsOctalDigit(s[1..][i - 1 + 1]);
      }
    }
  }

  lemma {:induction false} HexRunUnique(digits: string, rest: string)
    requires forall i | 0 <= i < |digits| :: IsXDigit(digits[i])
    requires rest != "" ==> !IsXDigit(rest[0])
    ensures HexRun(digits + rest) == |digits|
  {
    if digits == "" {
      assert digits + rest == rest;
    } else {
      assert (digits + rest)[1..] == digits[1..] + rest;
      HexRunUnique(digits[1..], rest);
    }
  }

  lemma {:induction false} FormatHexReads(n: nat)
    ensures FormatHexInt(n) != "" && forall i | 0 <= i < |FormatHexInt(n)| :: IsXDigit(FormatHexInt(n)[i])
    ensures HexNumber(FormatHexInt(n)) == n
  {
    if n >= 16 {
      FormatHexReads(n / 16);
      assert FormatHexInt(n)[..|FormatHexInt(n)| - 1] == FormatHexInt(n / 16);
    }
  }

  lemma ReadQuote(rest: string)
    ensures ReadInside("\"" + rest) == ReadAfter(rest)
  {
    assert ("\"" + rest)[1..] == rest;
  }

  lemma ReadPlain(c: char, rest: string)
    requires c !in {'\n', '"', '\\'}
    ensures ReadInside([c] + rest) == Cons(c, ReadInside(rest))
  {
    assert ([c] + rest)[1..] == rest;
  }

  lemma ReadEscaped(escape: string, rest: string, c: Byte)
    requires escape != "" && ReadEscape(escape + rest) == Some(Escape(c, |escape|))
    ensures ReadInside("\\" + escape + rest) == Cons(c, ReadInside(rest))
  {
    var text := "\\" + escape + rest;
    assert text[1..] == escape + rest && text[1 + |escape|..] == rest;
  }

  lemma HexEscapeReads(n: nat, rest: string)
    requires n < 256 && (rest != "" ==> !IsXDigit(rest[0]))
    ensures ReadEscape("x" + FormatHexInt(n) + rest) == Some(Escape(n as char, 1 + |FormatHexInt(n)|))
  {
    hide FormatHexInt, HexNumber;
    var digits := FormatHexInt(n);
    var text := "x" + digits + rest;
    FormatHexReads(n);
    HexRunUnique(digits, rest);
    assert text[1..] == digits + rest;
    assert text[1..1 + |digits|] == digits;
  }

  lemma SpecialEscapeReads(c: Byte, rest: string)
    requires c != '\0' && AsStringLiteral(c).format.SpecialEscape?
    ensures var text := AsStringLiteral(c).text;
            |text| == 2 && text[0] == '\\' && ReadEscape([text[1]] + rest) == Some(Escape(c, 1))
  {
  }

  // One printed character is read back, whatever follows, provided a hex
  // escape is not followed by a hex digit.
  lemma ReadPiece(c: Byte, rest: string)
    requires c != '\0'
    requires AsStringLiteral(c).format.HexEscape? && rest != "" ==> !IsXDigit(rest[0])
    ensures ReadInside(AsStringLiteral(c).text + rest) == Cons(c, ReadInside(rest))
  {
    hide ReadInside, ReadEscape, HexRun, FormatHexInt, IsXDigit;
    var text := AsStringLiteral(c).text;
    match AsStringLiteral(c).format
    case AsIs =>
      ReadPlain(c, rest);
    case HexEscape =>
      var escape := "x" + FormatHexInt(c as int);
      HexEscapeReads(c as int, rest);
      ReadEscaped(escape, rest, c);
      assert text == "\\" + escape;
    case SpecialEscape =>
      SpecialEscapeReads(c, rest);
      ReadEscaped([text[1]], rest, c);
      assert text == "\\" + [text[1]];
  }

  // How a body starts decides where an escape before it ends.
  lemma BodyHead(s: seq<Byte>)
    ensures !IsXDigit((Body(s, true) + "\"")[0])
    ensures IsOctalDigit((Body(s, false) + "\"")[0]) <==> s != [] && IsOctalDigit(s[0])
  {
    if s != [] {
      var lit := AsStringLiteral(s[0]);
      assert lit.text != "" && lit.text[0] == if lit.format.AsIs? then s[0] else '\\';
      assert (Body(s, false) + "\"")[0] == lit.text[0];
    }
  }

  lemma DigitBody(s: seq<Byte>)
    requires s != [] && IsOctalDigit(s[0])
    ensures Body(s, false) == [s[0]] + Body(s[1..], false)
  {
  }

  lemma ZeroEscapeReads(text: string)
    ensures ReadEscape("0" + text) == Some(Escape(OctalNumber(text) as char, 1 + OctalRun(text)))
  {
    var whole := "0" + text;
    assert |text| > 0 ==> whole[1] == text[0];
    assert |text| > 1 ==> whole[2] == text[1];
  }

  // A NUL is printed as \0, which reads on into octal digits.
  lemma ReadNul(text: string)
    ensures ReadInside("\\0" + text) == Cons(OctalNumber(text) as char, ReadInside(text[OctalRun(text)..]))
  {
    hide ReadInside, ReadEscape, OctalNumber, OctalRun;
    var n := OctalRun(text);
    ZeroEscapeReads(text);
    assert "0" + text == "0" + text[..n] + text[n..];
    ReadEscaped("0" + text[..n], text[n..], OctalNumber(text) as char);
    assert "\\0" + text == "\\" + ("0" + text[..n]) + text[n..];
  }

  lemma {:induction false} ReadBody(s: seq<Byte>, isPreviousHex: bool)
    ensures ReadInside(Body(s, isPreviousHex) + "\"") == Some(Merge(s))
    decreases |s|, isPreviousHex, 1
  {
    hide ReadInside, AsStringLiteral, IsXDigit;
    if s == [] {
      ReadQuote("");
      assert Body(s, isPreviousHex) + "\"" == "\"" + "";
    } else if isPreviousHex && IsXDigit(s[0]) {
      var reopened := Body(s, false) + "\"";
      ReadBody(s, false);
      ReadReopened(reopened);
      assert Body(s, isPreviousHex) + "\"" == "\" \"" + reopened;
    } else if s[0] != '\0' {
      ReadBodyCons(s, isPreviousHex);
    } else {
      ReadBodyNul(s, isPreviousHex);
    }
  }

  lemma ReadReopened(rest: string)
    ensures ReadInside("\" \"" + rest) == ReadInside(rest)
  {
    ReadQuote(" \"" + rest);
    assert "\"" + (" \"" + rest) == "\" \"" + rest;
    assert (" \"" + rest)[1..] == "\"" + rest;
    assert ReadAfter(" \"" + rest) == ReadAfter("\"" + rest);
    assert ("\"" + rest)[1..] == rest;
  }

  lemma {:induction false} ReadBodyCons(s: seq<Byte>, isPreviousHex: bool)
    requires s != [] && s[0] != '\0' && !(isPreviousHex && IsXDigit(s[0]))
    ensures ReadInside(Body(s, isPreviousHex) + "\"") == Some(Merge(s))
    decreases |s|, isPreviousHex, 0
  {
    hide ReadInside, AsStringLiteral, IsXDigit, Body, Merge;
    var lit := AsStringLiteral(s[0]);
    var body := Body(s[1..], lit.format.HexEscape?);
    BodyStep(s, isPreviousHex);
    assert Body(s, isPreviousHex) + "\"" == lit.text + (body + "\"");
    BodyHead(s[1..]);
    ReadPiece(s[0], body + "\"");
    ReadBody(s[1..], lit.format.HexEscape?);
    MergeCons(s);
  }

  lemma MergeCons(s: seq<Byte>)
    requires s != [] && s[0] != '\0'
    ensures Merge(s) == [s[0]] + Merge(s[1..])
  {
  }

  lemma {:induction false} ReadBodyNul(s: seq<Byte>, isPreviousHex: bool)
    requires s != [] && s[0] == '\0'
    ensures ReadInside(Body(s, isPreviousHex) + "\"") == Some(Merge(s))
    decreases |s|, isPreviousHex, 0
  {
    hide ReadInside, Merge, IsOctalDigit, OctalNumber, OctalRun, Body;
    var rest, n := Body(s[1..], false) + "\"", OctalRun(s[1..]);
    NulBody(s, isPreviousHex);
    assert Body(s, isPreviousHex) + "\"" == "\\0" + rest;
    ReadNul(rest);
    OctalRunOfBody(s[1..]);
    MergeNul(s);
    assert s[1..][n..] == s[1 + n..];
    ReadBody(s[1 + n..], false);
  }

  // The octal digits after a NUL are printed as they are.
  lemma OctalRunOfBody(s: seq<Byte>)
    ensures var rest, n := Body(s, false) + "\"", OctalRun(s);
            OctalRun(rest) == n && OctalNumber(rest) == OctalNumber(s) && rest[n..] == Body(s[n..], false) + "\""
  {
    hide Body;
    var rest := Body(s, false) + "\"";
    BodyHead(s);
    assert s[0..] == s && rest[0..] == rest;
    if s != [] && IsOctalDigit(s[0]) {
      DigitBody(s);
      var rest1 := Body(s[1..], false) + "\"";
      assert rest == [s[0]] + rest1;
      BodyHead(s[1..]);
      if |s| > 1 && IsOctalDigit(s[1]) {
        DigitBody(s[1..]);
        assert s[1..][1..] == s[2..];
        assert rest1 == [s[1]] + (Body(s[2..], false) + "\"");
      }
    }
  }

  lemma NulBody(s: seq<Byte>, isPreviousHex: bool)
    requires s != [] && s[0] == '\0'
    ensures Body(s, isPreviousHex) == "\\0" + Body(s[1..], false)
  {
  }

  lemma MergeNul(s: seq<Byte>)
    requires s != [] && s[0] == '\0'
    ensures Merge(s) == [OctalNumber(s[1..]) as char] + Merge(s[1 + OctalRun(s[1..])..])
  {
  }

  /** For every byte string, reading the printed literals gives the string in
      which each NUL has swallowed up to two octal digits after it. */
  lemma ReadPrinted(s: seq<Byte>)
    ensures ReadLiterals(Printed(s)) == Some(Merge(s))
  {
    assert Printed(s)[1..] == Body(s, false) + "\"";
    ReadBody(s, false);
  }

  /** Printing is inverted by reading exactly when no NUL is directly followed
      by an octal digit. */
  lemma RoundTripIff(s: seq<Byte>)
    ensures ReadLiterals(Printed(s)) == Some(s) <==> !HasNulBeforeOctalDigit(s)
  {
    ReadPrinted(s);
    MergeShrinks(s);
  }

  /** A NUL and the digit 1 come back as the one character of octal code 1. */
  lemma NulAndDigitMerge()
    ensures ReadLiterals(Printed(['\0', '1'])) == Some(['\U{0001}'])
  {
    hide ReadLiterals, Printed;
    var s: seq<Byte> := ['\0', '1'];
    ReadPrinted(s);
    assert s[1..] == ['1'] && ['1'][1..] == "" && OctalRun(['1']) == 1;
    assert OctalNumber(['1']) == 1 && s[2..] == [];
    assert Merge(s) == [1 as char] + Merge(s[2..]) == [1 as char];
    assert [1 as char] == ['\U{0001}'];
  }

  // ---------------------------------------------------------------------
  // Arrays
  // ---------------------------------------------------------------------

  function PrintedArray(s: seq<Byte>): string {
    if |s| > 0 && s[|s| - 1] == '\0' then Printed(s[..|s| - 1]) else Printed(s) + " (no terminating NUL)"
  }

  method UniversalPrintCharArray(begin: seq<Byte>, os: OutStream)
    modifies os
    ensures os.contents == old(os.contents) + PrintedArray(begin)
  {
    var len := |begin|;
    if len > 0 && begin[len - 1] == '\0' {
      PrintCharsAsStringTo(begin[..len - 1], os);
      return;
    }
    PrintCharsAsStringTo(begin, os);
    os.Write(" (no terminating NUL)");
  }

  /** The elements of the array that are printed. */
  function Shown(s: seq<Byte>): seq<Byte> {
    if |s| > 0 && s[|s| - 1] == '\0' then s[..|s| - 1] else s
  }

  /** The output tells apart any two arrays whose shown elements survive the
      round trip, terminating NUL included. */
  lemma PrintedArrayInjective(s: seq<Byte>, t: seq<Byte>)
    requires !HasNulBeforeOctalDigit(Shown(s)) && !HasNulBeforeOctalDigit(Shown(t))
    requires PrintedArray(s) == PrintedArray(t)
    ensures s == t
  {
    hide ReadLiterals, Printed, HasNulBeforeOctalDigit;
    RoundTripIff(Shown(s));
    RoundTripIff(Shown(t));
    EndsInQuote(Shown(s));
    EndsInQuote(Shown(t));
    assert Printed(Shown(s)) == Printed(Shown(t)) by {
      SameLiteral(Printed(Shown(s)), Printed(Shown(t)), " (no terminating NUL)");
    }
    assert |s| > 0 ==> s == s[..|s| - 1] + [s[|s| - 1]];
    assert |t| > 0 ==> t == t[..|t| - 1] + [t[|t| - 1]];
  }

  lemma EndsInQuote(s: seq<Byte>)
    ensures Printed(s) != "" && Printed(s)[|Printed(s)| - 1] == '"'
  {
  }

  // Texts ending in a quote differ from texts ending in a parenthesis.
  lemma SameLiteral(p: string, q: string, suffix: string)
    requires p != "" && q != "" && p[|p| - 1] == '"' && q[|q| - 1] == '"'
    requires suffix != "" && suffix[|suffix| - 1] == ')'
    ensures p != q + suffix && q != p + suffix
    ensures p + suffix == q + suffix ==> p == q
  {
    assert (p + suffix)[|p + suffix| - 1] == ')' && (q + suffix)[|q + suffix| - 1] == ')';
    assert (p + suffix)[..|p|] == p && (q + suffix)[..|q|] == q;
  }
}
