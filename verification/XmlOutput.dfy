/** XML text written by the result printer (gtest.cc): escaped text, attribute
    values and CDATA sections, with readers following sections 2.4, 2.7, 3.3.3
    and 4.1 of the XML 1.0 recommendation. */
module XmlOutput {
  import opened CStrings
  import opened OutStreams
  import opened StringPrinter

  // ---------------------------------------------------------------------
  // Escaping
  // ---------------------------------------------------------------------

  predicate IsNormalizableWhitespace(c: Byte) { c in {'\t', '\n', '\r'} }

  /** Where char is signed, bytes from 0x80 on compare as negative numbers. */
  predicate IsValidXmlCharacter(c: Byte, charIsSigned: bool) {
    IsNormalizableWhitespace(c) || (if charIsSigned then 0x20 <= c as int < 0x80 else 0x20 <= c as int)
  }

  function FormatByte(c: Byte): string {
    [HexDigit(c as int / 16), HexDigit(c as int % 16)]
  }

  function EscapeChar(c: Byte, isAttribute: bool, charIsSigned: bool): string {
    match c
    case '<' => "&lt;"
    case '>' => "&gt;"
    case '&' => "&amp;"
    case '\'' => if isAttribute then "&apos;" else "'"
    case '"' => if isAttribute then "&quot;" else "\""
    case _ =>
      if !IsValidXmlCharacter(c, charIsSigned) then ""
      else if isAttribute && IsNormalizableWhitespace(c) then "&#x" + FormatByte(c) + ";"
      else [c]
  }

  function Escaped(s: seq<Byte>, isAttribute: bool, charIsSigned: bool): string {
    if s == [] then ""
    else Escaped(s[..|s| - 1], isAttribute, charIsSigned) + EscapeChar(s[|s| - 1], isAttribute, charIsSigned)
  }

  method EscapeXml(str: seq<Byte>, isAttribute: bool, charIsSigned: bool) returns (m: string)
    ensures m == Escaped(str, isAttribute, charIsSigned)
  {
    hide EscapeChar;
    m := "";
    for i := 0 to |str|
      invariant m == Escaped(str[..i], isAttribute, charIsSigned)
    {
      assert str[..i + 1][..i] == str[..i];
      m := m + EscapeChar(str[i], isAttribute, charIsSigned);
    }
    assert str[..|str|] == str;
  }

  /** Characters are escaped one by one. */
  lemma {:induction false} EscapedConcat(s: seq<Byte>, t: seq<Byte>, isAttribute: bool, charIsSigned: bool)
    ensures Escaped(s + t, isAttribute, charIsSigned)
            == Escaped(s, isAttribute, charIsSigned) + Escaped(t, isAttribute, charIsSigned)
    decreases |t|
  {
    hide EscapeChar;
    if t == [] {
      assert s + t == s;
    } else {
      EscapedConcat(s, t[..|t| - 1], isAttribute, charIsSigned);
      assert (s + t)[..|s + t| - 1] == s + t[..|t| - 1];
    }
  }

  lemma EscapedOne(c: Byte, isAttribute: bool, charIsSigned: bool)
    ensures Escaped([c], isAttribute, charIsSigned) == EscapeChar(c, isAttribute, charIsSigned)
  {
    hide EscapeChar;
    assert [c][..0] == [];
    assert Escaped([], isAttribute, charIsSigned) == "";
  }

  /** The escapes of both modes, those of attribute values, and what becomes of
      every other character: itself or nothing. */
  lemma EscapesInFull(c: Byte, isAttribute: bool, charIsSigned: bool)
    ensures Escaped(['<'], isAttribute, charIsSigned) == "&lt;"
    ensures Escaped(['>'], isAttribute, charIsSigned) == "&gt;"
    ensures Escaped(['&'], isAttribute, charIsSigned) == "&amp;"
    ensures Escaped(['\''], isAttribute, charIsSigned) == if isAttribute then "&apos;" else "'"
    ensures Escaped(['"'], isAttribute, charIsSigned) == if isAttribute then "&quot;" else "\""
    ensures Escaped(['\t'], isAttribute, charIsSigned) == if isAttribute then "&#x09;" else "\t"
    ensures Escaped(['\n'], isAttribute, charIsSigned) == if isAttribute then "&#x0A;" else "\n"
    ensures Escaped(['\r'], isAttribute, charIsSigned) == if isAttribute then "&#x0D;" else "\r"
    ensures c !in {'<', '>', '&', '\'', '"', '\t', '\n', '\r'} ==>
              Escaped([c], isAttribute, charIsSigned) ==
              if 0x20 <= c as int && (charIsSigned ==> c as int < 0x80) then [c] else []
  {
    hide Escaped;
    EscapedOne('<', isAttribute, charIsSigned);
    EscapedOne('>', isAttribute, charIsSigned);
    EscapedOne('&', isAttribute, charIsSigned);
    EscapedOne('\'', isAttribute, charIsSigned);
    EscapedOne('"', isAttribute, charIsSigned);
    EscapedOne('\t', isAttribute, charIsSigned);
    EscapedOne('\n', isAttribute, charIsSigned);
    EscapedOne('\r', isAttribute, charIsSigned);
    EscapedOne(c, isAttribute, charIsSigned);
  }

  function OnlyValid(s: seq<Byte>, charIsSigned: bool): seq<Byte> {
    if s == [] then []
    else
      var rest, c := OnlyValid(s[..|s| - 1], charIsSigned), s[|s| - 1];
      if IsValidXmlCharacter(c, charIsSigned) then rest + [c] else rest
  }

  /** Bytes are kept or removed one by one: kept are tab, newline, carriage
      return and all from 0x20 on (section 2.2 of XML 1.0), below 0x80 only
      where char is signed. */
  lemma RemovalByByte(c: Byte, charIsSigned: bool)
    ensures OnlyValid([], charIsSigned) == []
    ensures OnlyValid([c], charIsSigned) ==
            if (c as int in {0x09, 0x0A, 0x0D} || 0x20 <= c as int) && (charIsSigned ==> c as int < 0x80) then [c]
            else []
  {
    assert [c][..0] == [];
  }

  lemma {:induction false} RemovalOfConcat(s: seq<Byte>, t: seq<Byte>, charIsSigned: bool)
    ensures OnlyValid(s + t, charIsSigned) == OnlyValid(s, charIsSigned) + OnlyValid(t, charIsSigned)
    decreases |t|
  {
    hide IsValidXmlCharacter;
    if t == [] {
      assert s + t == s;
    } else {
      RemovalOfConcat(s, t[..|t| - 1], charIsSigned);
      assert (s + t)[..|s + t| - 1] == s + t[..|t| - 1];
    }
  }

  /** A byte above ASCII is kept or dropped by the signedness of char. */
  lemma HighByteDroppedWhenSigned(c: Byte)
    requires c as int >= 0x80
    ensures OnlyValid([c], true) == [] && OnlyValid([c], false) == [c]
  {
    assert [c][..0] == [];
  }

  method RemoveInvalidXmlCharacters(str: seq<Byte>, charIsSigned: bool) returns (output: seq<Byte>)
    ensures output == OnlyValid(str, charIsSigned)
  {
    output := [];
    for i := 0 to |str|
      invariant output == OnlyValid(str[..i], charIsSigned)
    {
      assert str[..i + 1][..i] == str[..i];
      if IsValidXmlCharacter(str[i], charIsSigned) {
        output := output + [str[i]];
      }
    }
    assert str[..|str|] == str;
  }

  // ---------------------------------------------------------------------
  // CDATA sections
  // ---------------------------------------------------------------------

  const OPEN := "<![CDATA["
  const CLOSE := "]]>"

  predicate CloseAt(s: string, i: nat) {
    i + 3 <= |s| && s[i] == ']' && s[i + 1] == ']' && s[i + 2] == '>'
  }

  /** strstr for the closing mark: the first place it occurs. */
  function FindClose(s: string): (at: Option<nat>)
    ensures at.Some? ==> CloseAt(s, at.value) && forall k | 0 <= k < at.value :: !CloseAt(s, k)
    ensures at.None? ==> forall k | 0 <= k < |s| :: !CloseAt(s, k)
  {
    if s == "" then None
    else if CloseAt(s, 0) then Some(0)
    else
      assert forall k | 0 < k < |s| :: CloseAt(s, k) == CloseAt(s[1..], k - 1);
      match FindClose(s[1..])
      case None => None
      case Some(i) => Some(i + 1)
  }

  function CDataBody(data: string): string
    decreases |data|
  {
    match FindClose(data)
    case None => data
    case Some(i) => data[..i] + "]]>]]&gt;<![CDATA[" + CDataBody(data[i + 3..])
  }

  function CData(data: string): string {
    OPEN + CDataBody(data) + CLOSE
  }

  method OutputXmlCDataSection(stream: OutStream, data: CString)
    modifies stream
    ensures stream.contents == old(stream.contents) + CData(data)
  {
    var segment := data;
    stream.Write(OPEN);
    while true
      invariant stream.contents + CDataBody(segment) == old(stream.contents) + OPEN + CDataBody(data)
      decreases |segment|
    {
      hide CDataBody;
      var nextSegment := FindClose(segment);
      CDataBodyStep(segment);
      if nextSegment.Some? {
        ghost var before, rest := stream.contents, CDataBody(segment[nextSegment.value + 3..]);
        stream.Write(segment[..nextSegment.value]);
        stream.Write("]]>]]&gt;<![CDATA[");
        Associate(before, segment[..nextSegment.value], "]]>]]&gt;<![CDATA[", rest);
        segment := segment[nextSegment.value + 3..];
      } else {
        stream.Write(segment);
        break;
      }
    }
    stream.Write(CLOSE);
    Associate(old(stream.contents), OPEN, CDataBody(data), CLOSE);
  }

  lemma CDataBodyStep(data: string)
    ensures CDataBody(data) ==
            match FindClose(data)
            case None => data
            case Some(i) => data[..i] + "]]>]]&gt;<![CDATA[" + CDataBody(data[i + 3..])
  {
  }

  /** Data without a closing mark is one section; each closing mark ends one
      section, is written as escaped text and starts another. */
  lemma CDataInFull(data: string, rest: string)
    requires forall i | 0 <= i < |data| :: !("]]>" <= data[i..])
    ensures CData(data) == "<![CDATA[" + data + "]]>"
    ensures CData(data + "]]>" + rest) == "<![CDATA[" + data + "]]>" + "]]&gt;" + CData(rest)
  {
    CloseByText(data);
    assert FindClose(data).None?;
    FindCloseAfter(data, rest);
    assert data + CLOSE + rest == data + "]]>" + rest;
    hide CDataBody, FindClose, CData;
    CDataParts(data + CLOSE + rest, |data|);
    assert (data + CLOSE + rest)[..|data|] == data && (data + CLOSE + rest)[|data| + 3..] == rest;
    var open, close := "<![CDATA[", "]]>";
    assert CData(data) == open + data + close by { CDataOne(data); }
    assert open + data + close + "]]&gt;" + CData(rest) == open + data + close + ("]]&gt;" + CData(rest));
  }

  lemma CDataOne(data: string)
    requires FindClose(data).None?
    ensures CData(data) == "<![CDATA[" + data + "]]>"
  {
  }

  lemma CloseByText(data: string)
    requires forall i | 0 <= i < |data| :: !("]]>" <= data[i..])
    ensures forall i | 0 <= i < |data| :: !CloseAt(data, i)
  {
    assert forall i | 0 <= i < |data| :: CloseAt(data, i) ==> "]]>" <= data[i..];
  }

  lemma Associate(a: string, b: string, c: string, d: string)
    ensures a + (b + c + d) == a + b + c + d
  {
  }

  // ---------------------------------------------------------------------
  // Readers
  // ---------------------------------------------------------------------

  /** A reference: the character it stands for and its length. */
  function ReadReference(text: string): (e: Option<Escape>)
    ensures e.Some? ==> 0 < e.value.length <= |text|
  {
    if "&lt;" <= text then Some(Escape('<', 4))
    else if "&gt;" <= text then Some(Escape('>', 4))
    else if "&amp;" <= text then Some(Escape('&', 5))
    else if "&apos;" <= text then Some(Escape('\'', 6))
    else if "&quot;" <= text then Some(Escape('"', 6))
    else if "&#x" <= text then
      var n := HexRun(text[3..]);
      if n == 0 || |text| <= 3 + n || text[3 + n] != ';' || HexNumber(text[3..3 + n]) >= 256 then None
      else Some(Escape(HexNumber(text[3..3 + n]) as char, 4 + n))
    else None
  }

  /** The character data of element content made of text and CDATA sections. */
  function ReadContent(text: string): Option<string>
    decreases |text|
  {
    if text == "" then Some("")
    else if text[0] == '<' then
      if OPEN <= text then
        match FindClose(text[9..])
        case None => None
        case Some(i) => Prefix(text[9..9 + i], ReadContent(text[12 + i..]))
      else None
    else if text[0] == '&' then
      match ReadReference(text)
      case None => None
      case Some(e) => Cons(e.c, ReadContent(text[e.length..]))
    else if CloseAt(text, 0) then None
    else Cons(text[0], ReadContent(text[1..]))
  }

  /** The value of an attribute between quotes of the given kind: a raw quote
      or < is an error, raw white space is normalised to a space. */
  function ReadAttributeValue(text: string, quote: char): Option<string>
    decreases |text|
  {
    if text == "" then Some("")
    else if text[0] == quote || text[0] == '<' then None
    else if text[0] == '&' then
      match ReadReference(text)
      case None => None
      case Some(e) => Cons(e.c, ReadAttributeValue(text[e.length..], quote))
    else
      Cons(if text[0] in {'\t', '\n', '\r'} then ' ' else text[0], ReadAttributeValue(text[1..], quote))
  }

  function Prefix(s: string, rest: Option<string>): Option<string> {
    if rest.None? then None else Some(s + rest.value)
  }

  // ---------------------------------------------------------------------
  // Reading gives back what was written
  // ---------------------------------------------------------------------

  lemma FindCloseAfter(segment: string, rest: string)
    requires FindClose(segment).None?
    ensures FindClose(segment + CLOSE + rest) == Some(|segment|)
  {
    var whole := segment + CLOSE + rest;
    assert CloseAt(whole, |segment|);
    forall k | 0 <= k < |segment|
      ensures !CloseAt(whole, k)
    {
      assert !CloseAt(segment, k);
      assert k + 2 < |segment| ==>
               whole[k] == segment[k] && whole[k + 1] == segment[k + 1] && whole[k + 2] == segment[k + 2];
    }
  }

  lemma ReadContentChar(c: char, rest: string)
    requires c !in {'<', '&'} && !CloseAt([c] + rest, 0)
    ensures ReadContent([c] + rest) == Cons(c, ReadContent(rest))
  {
    assert ([c] + rest)[1..] == rest;
  }

  lemma ReadContentReference(reference: string, c: Byte, rest: string)
    requires reference != "" && reference[0] == '&'
    requires ReadReference(reference + rest) == Some(Escape(c, |reference|))
    ensures ReadContent(reference + rest) == Cons(c, ReadContent(rest))
  {
    assert (reference + rest)[|reference|..] == rest;
  }

  // One section read from the front.
  lemma ReadSection(segment: string, rest: string)
    requires FindClose(segment).None?
    ensures ReadContent(OPEN + segment + CLOSE + rest) == Prefix(segment, ReadContent(rest))
  {
    var text := OPEN + segment + CLOSE + rest;
    FindCloseAfter(segment, rest);
    assert text[9..] == segment + CLOSE + rest;
    assert text[9..9 + |segment|] == segment && text[12 + |segment|..] == rest;
  }

  lemma NotPrefix(p: string, q: string, rest: string, i: nat)
    requires i < |p| && i < |q| && p[i] != q[i]
    ensures !(p <= q + rest)
  {
    assert (q + rest)[i] == q[i];
  }

  lemma NamedReferences(rest: string)
    ensures ReadReference("&lt;" + rest) == Some(Escape('<', 4))
    ensures ReadReference("&gt;" + rest) == Some(Escape('>', 4))
    ensures ReadReference("&amp;" + rest) == Some(Escape('&', 5))
    ensures ReadReference("&apos;" + rest) == Some(Escape('\'', 6))
    ensures ReadReference("&quot;" + rest) == Some(Escape('"', 6))
  {
    NotPrefix("&lt;", "&gt;", rest, 1);
    NotPrefix("&lt;", "&amp;", rest, 1);
    NotPrefix("&gt;", "&amp;", rest, 1);
    NotPrefix("&lt;", "&apos;", rest, 1);
    NotPrefix("&gt;", "&apos;", rest, 1);
    NotPrefix("&amp;", "&apos;", rest, 2);
    NotPrefix("&lt;", "&quot;", rest, 1);
    NotPrefix("&gt;", "&quot;", rest, 1);
    NotPrefix("&amp;", "&quot;", rest, 1);
    NotPrefix("&apos;", "&quot;", rest, 1);
  }

  // The text between two sections stands for a closing mark.
  lemma ReadEscapedClose(rest: string)
    ensures ReadContent("]]&gt;" + rest) == Prefix(CLOSE, ReadContent(rest))
  {
    hide ReadContent, ReadReference;
    var one, two := "&gt;" + rest, "]" + ("&gt;" + rest);
    NamedReferences(rest);
    ReadContentReference("&gt;", '>', rest);
    assert two[1] == '&';
    ReadContentChar(']', one);
    assert (['!'] + two)[2] == '&' && ("]" + two)[2] == '&';
    ReadContentChar(']', two);
    assert "]]&gt;" + rest == "]" + two;
    assert two == "]" + one;
    var inner := ReadContent(rest);
    if inner.Some? {
      assert "]" + ("]" + (">" + inner.value)) == CLOSE + inner.value;
    }
  }

  // The data up to a closing mark, and what follows it, are written apart.
  lemma CDataSplit(data: string, i: nat)
    requires FindClose(data) == Some(i)
    ensures FindClose(data[..i]).None?
    ensures CData(data) == OPEN + data[..i] + CLOSE + ("]]&gt;" + CData(data[i + 3..]))
    ensures data == data[..i] + (CLOSE + data[i + 3..])
  {
    NoCloseBefore(data, i);
    CDataParts(data, i);
  }

  lemma NoCloseBefore(data: string, i: nat)
    requires FindClose(data) == Some(i)
    ensures FindClose(data[..i]).None?
    ensures data == data[..i] + (CLOSE + data[i + 3..])
  {
    assert forall k | 0 <= k < i :: CloseAt(data[..i], k) ==> CloseAt(data, k);
  }

  lemma CDataParts(data: string, i: nat)
    requires FindClose(data) == Some(i)
    ensures CData(data) == OPEN + data[..i] + CLOSE + ("]]&gt;" + CData(data[i + 3..]))
  {
    hide CDataBody;
    CDataBodyStep(data);
    hide FindClose;
    CDataGlue(OPEN, data[..i], CLOSE, "]]&gt;", CDataBody(data[i + 3..]));
    assert CLOSE + "]]&gt;" + OPEN == "]]>]]&gt;<![CDATA[";
  }

  lemma CDataGlue(open: string, segment: string, close: string, between: string, rest: string)
    ensures open + (segment + (close + between + open) + rest) + close ==
            open + segment + close + (between + (open + rest + close))
  {
    assert open + (segment + (close + between + open) + rest) + close ==
           open + segment + close + between + open + rest + close;
    assert open + segment + close + (between + (open + rest + close)) ==
           open + segment + close + between + open + rest + close;
  }

  /** Reading the written sections gives the data, wherever it contains the
      closing mark or ends in brackets. */
  lemma {:induction false} CDataRoundTrip(data: string)
    ensures ReadContent(CData(data)) == Some(data)
    decreases |data|
  {
    hide ReadContent;
    match FindClose(data)
    case None =>
      ReadSection(data, "");
      assert CData(data) == OPEN + data + CLOSE + "";
      ReadNothing();
      assert data + "" == data;
    case Some(i) =>
      hide CData;
      var rest := data[i + 3..];
      CDataSplit(data, i);
      ReadSection(data[..i], "]]&gt;" + CData(rest));
      ReadEscapedClose(CData(rest));
      CDataRoundTrip(rest);
  }

  lemma ReadNothing()
    ensures ReadContent("") == Some("")
  {
  }

  // ---------------------------------------------------------------------
  // Escaped text and attribute values
  // ---------------------------------------------------------------------

  function Kept(c: Byte, charIsSigned: bool): string {
    if IsValidXmlCharacter(c, charIsSigned) then [c] else ""
  }

  /** The escape of a character is a reference to it, or nothing when it is
      invalid, or the character itself. */
  lemma EscapeIsReference(c: Byte, isAttribute: bool, charIsSigned: bool, rest: string)
    ensures var e := EscapeChar(c, isAttribute, charIsSigned);
            if e != "" && e[0] == '&' then
              ReadReference(e + rest) == Some(Escape(c, |e|)) && IsValidXmlCharacter(c, charIsSigned)
            else
              e == Kept(c, charIsSigned) && c !in {'<', '>', '&'} &&
              (isAttribute ==> c !in {'\'', '"'} && (e != "" ==> !IsNormalizableWhitespace(c)))
  {
    hide ReadReference;
    NamedReferences(rest);
    if isAttribute && IsNormalizableWhitespace(c) {
      CharacterReference(c, rest);
    }
  }

  lemma CharacterReference(c: Byte, rest: string)
    requires IsNormalizableWhitespace(c)
    ensures ReadReference("&#x" + FormatByte(c) + ";" + rest) == Some(Escape(c, 6))
  {
    var digits := FormatByte(c);
    var text := "&#x" + digits + ";" + rest;
    NotPrefix("&lt;", "&#x", digits + ";" + rest, 1);
    NotPrefix("&gt;", "&#x", digits + ";" + rest, 1);
    NotPrefix("&amp;", "&#x", digits + ";" + rest, 1);
    NotPrefix("&apos;", "&#x", digits + ";" + rest, 1);
    NotPrefix("&quot;", "&#x", digits + ";" + rest, 1);
    assert text == "&#x" + (digits + ";" + rest);
    HexRunUnique(digits, ";" + rest);
    assert text[3..] == digits + (";" + rest);
    assert text[3..3 + 2] == digits;
    assert digits[..1] == "0" && HexNumber("0") == 0;
  }

  lemma {:induction false} EscapedCons(c: Byte, s: seq<Byte>, isAttribute: bool, charIsSigned: bool)
    ensures Escaped([c] + s, isAttribute, charIsSigned) ==
            EscapeChar(c, isAttribute, charIsSigned) + Escaped(s, isAttribute, charIsSigned)
    decreases |s|
  {
    hide EscapeChar;
    var whole, n := [c] + s, |s|;
    if s == [] {
      assert whole[..n] == [];
    } else {
      EscapedCons(c, s[..n - 1], isAttribute, charIsSigned);
      assert whole[..n] == [c] + s[..n - 1];
    }
  }

  lemma {:induction false} OnlyValidCons(c: Byte, s: seq<Byte>, charIsSigned: bool)
    ensures OnlyValid([c] + s, charIsSigned) == Kept(c, charIsSigned) + OnlyValid(s, charIsSigned)
    decreases |s|
  {
    hide IsValidXmlCharacter;
    var whole, n := [c] + s, |s|;
    if s == [] {
      assert whole[..n] == [];
    } else {
      OnlyValidCons(c, s[..n - 1], charIsSigned);
      assert whole[..n] == [c] + s[..n - 1];
    }
  }

  // The next character kept, or nothing.
  function ConsKept(c: Byte, charIsSigned: bool, rest: Option<string>): Option<string> {
    if IsValidXmlCharacter(c, charIsSigned) then Cons(c, rest) else rest
  }

  lemma ReadContentStep(c: Byte, rest: string, charIsSigned: bool)
    requires '>' !in rest
    ensures ReadContent(EscapeChar(c, false, charIsSigned) + rest) == ConsKept(c, charIsSigned, ReadContent(rest))
  {
    hide EscapeChar, ReadContent, ReadReference, IsValidXmlCharacter;
    var e := EscapeChar(c, false, charIsSigned);
    EscapeIsReference(c, false, charIsSigned, rest);
    if e != "" && e[0] == '&' {
      ReadContentReference(e, c, rest);
    } else if e != "" {
      assert |rest| > 1 ==> ([c] + rest)[2] == rest[1] && rest[1] in rest;
      ReadContentChar(c, rest);
    } else {
      assert e + rest == rest;
    }
  }

  lemma OnlyValidStep(c: Byte, s: seq<Byte>, charIsSigned: bool)
    ensures Some(OnlyValid([c] + s, charIsSigned)) == ConsKept(c, charIsSigned, Some(OnlyValid(s, charIsSigned)))
  {
    hide OnlyValid, IsValidXmlCharacter;
    OnlyValidCons(c, s, charIsSigned);
    assert "" + OnlyValid(s, charIsSigned) == OnlyValid(s, charIsSigned);
  }

  /** Text mode: reading the escaped text as element content gives the input
      without the characters that count as invalid. */
  lemma {:induction false} EscapedTextRoundTrip(s: seq<Byte>, charIsSigned: bool)
    ensures ReadContent(Escaped(s, false, charIsSigned)) == Some(OnlyValid(s, charIsSigned))
  {
    if s == [] {
      ReadNothing();
    } else {
      hide EscapeChar, ReadContent, ConsKept, Escaped, OnlyValid;
      EscapedTextRoundTrip(s[1..], charIsSigned);
      NoCloseInEscaped(s[1..], charIsSigned);
      ReadContentStep(s[0], Escaped(s[1..], false, charIsSigned), charIsSigned);
      EscapedCons(s[0], s[1..], false, charIsSigned);
      OnlyValidStep(s[0], s[1..], charIsSigned);
      assert s == [s[0]] + s[1..];
    }
  }

  // > is always escaped, so no closing mark can arise.
  lemma {:induction false} NoCloseInEscaped(s: seq<Byte>, charIsSigned: bool)
    ensures '>' !in Escaped(s, false, charIsSigned)
  {
    if s != [] {
      NoCloseInEscaped(s[..|s| - 1], charIsSigned);
    }
  }

  lemma ReadAttributeChar(c: char, rest: string, quote: char)
    requires c !in {'<', '&', quote, '\t', '\n', '\r'}
    ensures ReadAttributeValue([c] + rest, quote) == Cons(c, ReadAttributeValue(rest, quote))
  {
    assert ([c] + rest)[1..] == rest;
  }

  lemma ReadAttributeReference(reference: string, c: Byte, rest: string, quote: char)
    requires reference != "" && reference[0] == '&' && quote in {'"', '\''}
    requires ReadReference(reference + rest) == Some(Escape(c, |reference|))
    ensures ReadAttributeValue(reference + rest, quote) == Cons(c, ReadAttributeValue(rest, quote))
  {
    assert (reference + rest)[|reference|..] == rest;
  }

  lemma ReadAttributeStep(c: Byte, rest: string, charIsSigned: bool, quote: char)
    requires quote in {'"', '\''}
    ensures ReadAttributeValue(EscapeChar(c, true, charIsSigned) + rest, quote)
            == ConsKept(c, charIsSigned, ReadAttributeValue(rest, quote))
  {
    hide EscapeChar, ReadAttributeValue, ReadReference, IsValidXmlCharacter;
    var e := EscapeChar(c, true, charIsSigned);
    EscapeIsReference(c, true, charIsSigned, rest);
    if e != "" && e[0] == '&' {
      ReadAttributeReference(e, c, rest, quote);
    } else if e != "" {
      ReadAttributeChar(c, rest, quote);
    } else {
      assert e + rest == rest;
    }
  }

  /** Attribute mode: between quotes of either kind the escaped text has no raw
      quote, and after white space normalisation it still reads as the input
      without the characters that count as invalid. */
  lemma {:induction false} EscapedAttributeRoundTrip(s: seq<Byte>, charIsSigned: bool, quote: char)
    requires quote in {'"', '\''}
    ensures ReadAttributeValue(Escaped(s, true, charIsSigned), quote) == Some(OnlyValid(s, charIsSigned))
  {
    if s == [] {
      assert ReadAttributeValue("", quote) == Some("");
    } else {
      hide EscapeChar, ReadAttributeValue, ConsKept, Escaped, OnlyValid;
      EscapedAttributeRoundTrip(s[1..], charIsSigned, quote);
      ReadAttributeStep(s[0], Escaped(s[1..], true, charIsSigned), charIsSigned, quote);
      EscapedCons(s[0], s[1..], true, charIsSigned);
      OnlyValidStep(s[0], s[1..], charIsSigned);
      assert s == [s[0]] + s[1..];
    }
  }

  // ---------------------------------------------------------------------
  // What the signedness of char costs
  // ---------------------------------------------------------------------

  predicate AllAscii(s: seq<Byte>) { forall i | 0 <= i < |s| :: s[i] as int < 0x80 }

  lemma {:induction false} SignedDropsMore(s: seq<Byte>)
    ensures |OnlyValid(s, true)| <= |OnlyValid(s, false)|
    ensures AllAscii(s) ==> OnlyValid(s, true) == OnlyValid(s, false)
    ensures !AllAscii(s) ==> |OnlyValid(s, true)| < |OnlyValid(s, false)|
  {
    if s != [] {
      var n := |s| - 1;
      SignedDropsMore(s[..n]);
      assert AllAscii(s) <==> AllAscii(s[..n]) && s[n] as int < 0x80 by {
        assert s == s[..n] + [s[n]];
      }
    }
  }

  lemma {:induction false} AllKeptIff(s: seq<Byte>, charIsSigned: bool)
    ensures |OnlyValid(s, charIsSigned)| <= |s|
    ensures OnlyValid(s, charIsSigned) == s <==> forall i | 0 <= i < |s| :: IsValidXmlCharacter(s[i], charIsSigned)
  {
    hide IsValidXmlCharacter;
    if s != [] {
      var n := |s| - 1;
      var before, after := OnlyValid(s[..n], charIsSigned), OnlyValid(s, charIsSigned);
      AllKeptIff(s[..n], charIsSigned);
      assert s == s[..n] + [s[n]];
      if IsValidXmlCharacter(s[n], charIsSigned) {
        assert after == s <==> before == s[..n] by {
          assert after[..|before|] == before;
        }
      } else {
        assert |after| < |s|;
      }
    }
  }

  /** A text comes through unchanged exactly when each of its bytes is one that
      XML allows (section 2.2 of XML 1.0), in ASCII where char is signed: through
      the removal, and read back through the escaping in both modes. */
  lemma UnchangedIff(s: seq<Byte>, charIsSigned: bool, quote: char)
    requires quote in {'"', '\''}
    ensures var clean := forall i | 0 <= i < |s| ::
                           && (s[i] as int in {0x09, 0x0A, 0x0D} || 0x20 <= s[i] as int)
                           && (charIsSigned ==> s[i] as int < 0x80);
            && (OnlyValid(s, charIsSigned) == s <==> clean)
            && (ReadContent(Escaped(s, false, charIsSigned)) == Some(s) <==> clean)
            && (ReadAttributeValue(Escaped(s, true, charIsSigned), quote) == Some(s) <==> clean)
  {
    hide ReadContent, ReadAttributeValue, Escaped, OnlyValid;
    EscapedTextRoundTrip(s, charIsSigned);
    EscapedAttributeRoundTrip(s, charIsSigned, quote);
    AllKeptIff(s, charIsSigned);
  }

  /** No character that XML allows is removed, exactly where char is unsigned or
      the text is ASCII. */
  lemma NothingRemovedIff(s: seq<Byte>, charIsSigned: bool)
    ensures OnlyValid(s, charIsSigned) == OnlyValid(s, false) <==> !charIsSigned || AllAscii(s)
  {
    SignedDropsMore(s);
  }

  /** Escaping as text loses nothing else than what XML does not allow, exactly
      where char is unsigned or the text is ASCII. */
  lemma EscapedTextExactIff(s: seq<Byte>, charIsSigned: bool)
    ensures ReadContent(Escaped(s, false, charIsSigned)) == Some(OnlyValid(s, false)) <==> !charIsSigned || AllAscii(s)
  {
    hide ReadContent, Escaped, OnlyValid, AllAscii;
    EscapedTextRoundTrip(s, charIsSigned);
    NothingRemovedIff(s, charIsSigned);
  }

  /** The same of attribute values. */
  lemma EscapedAttributeExactIff(s: seq<Byte>, charIsSigned: bool, quote: char)
    requires quote in {'"', '\''}
    ensures ReadAttributeValue(Escaped(s, true, charIsSigned), quote) == Some(OnlyValid(s, false))
            <==> !charIsSigned || AllAscii(s)
  {
    hide ReadAttributeValue, Escaped, OnlyValid, AllAscii;
    EscapedAttributeRoundTrip(s, charIsSigned, quote);
    NothingRemovedIff(s, charIsSigned);
  }
}
