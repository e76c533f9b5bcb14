/** Conversion of 16-bit wide strings to UTF-8 (gtest.cc), proved against the
    encodings of RFC 2781 section 2.1 and RFC 3629 section 3. */
module Utf8 {
  import opened CStrings
  import StringPrinter

  type WChar = bv16
  type CodePoint = bv32
  type Byte = bv8

  /** A wide string without its terminator. */
  type WString = s: seq<WChar> | 0 !in s

  const MAX_CODE_POINT_1: CodePoint := 0x7F
  const MAX_CODE_POINT_2: CodePoint := 0x7FF
  const MAX_CODE_POINT_3: CodePoint := 0xFFFF
  const MAX_CODE_POINT_4: CodePoint := 0x1F_FFFF

  function Low(x: bv32): Byte { (x & 0xFF) as bv8 }

  // ---------------------------------------------------------------------
  // UTF-8, section 3 of RFC 3629, on code points of up to 21 bits
  // ---------------------------------------------------------------------

  // 10xxxxxx with six bits of c, from bit k up.
  function Trail(c: CodePoint, k: bv5): Byte { Low(0x80 | ((c >> k) & 0x3F)) }

  function Utf8(c: CodePoint): (s: seq<Byte>)
    requires c <= MAX_CODE_POINT_4
    ensures 1 <= |s| <= 4
  {
    if c <= 0x7F then [Low(c)]
    else if c <= 0x7FF then [Low(0xC0 | (c >> 6)), Trail(c, 0)]
    else if c <= 0xFFFF then [Low(0xE0 | (c >> 12)), Trail(c, 6), Trail(c, 0)]
    else [Low(0xF0 | (c >> 18)), Trail(c, 12), Trail(c, 6), Trail(c, 0)]
  }

  datatype Decoded = Decoded(c: CodePoint, length: nat)

  predicate IsTrail(b: Byte) { b & 0xC0 == 0x80 }

  function Bits(b: Byte): CodePoint { (b & 0x3F) as bv32 }

  function Join2(a: Byte, b: Byte): CodePoint { (((a & 0x1F) as bv32) << 6) | Bits(b) }

  function Join3(a: Byte, b: Byte, c: Byte): CodePoint {
    (((a & 0x0F) as bv32) << 12) | (Bits(b) << 6) | Bits(c)
  }

  function Join4(a: Byte, b: Byte, c: Byte, d: Byte): CodePoint {
    (((a & 0x07) as bv32) << 18) | (Bits(b) << 12) | (Bits(c) << 6) | Bits(d)
  }

  /** The first code point of a byte sequence; only the shortest form counts. */
  function DecodeOne(s: seq<Byte>): (d: Option<Decoded>)
    ensures d.Some? ==> 0 < d.value.length <= |s|
  {
    if s == [] then None
    else if s[0] < 0x80 then Some(Decoded(s[0] as bv32, 1))
    else if s[0] & 0xE0 == 0xC0 then
      if |s| < 2 || !IsTrail(s[1]) || Join2(s[0], s[1]) <= MAX_CODE_POINT_1 then None
      else Some(Decoded(Join2(s[0], s[1]), 2))
    else if s[0] & 0xF0 == 0xE0 then
      if |s| < 3 || !IsTrail(s[1]) || !IsTrail(s[2]) || Join3(s[0], s[1], s[2]) <= MAX_CODE_POINT_2 then None
      else Some(Decoded(Join3(s[0], s[1], s[2]), 3))
    else if s[0] & 0xF8 == 0xF0 then
      if |s| < 4 || !IsTrail(s[1]) || !IsTrail(s[2]) || !IsTrail(s[3]) then None
      else if Join4(s[0], s[1], s[2], s[3]) <= MAX_CODE_POINT_3 then None
      else Some(Decoded(Join4(s[0], s[1], s[2], s[3]), 4))
    else None
  }

  function DecodeAll(s: seq<Byte>): Option<seq<CodePoint>>
    decreases |s|
  {
    if s == [] then Some([])
    else
      match DecodeOne(s)
      case None => None
      case Some(d) =>
        match DecodeAll(s[d.length..])
        case None => None
        case Some(rest) => Some([d.c] + rest)
  }

  ghost predicate Encodable(cs: seq<CodePoint>) {
    forall i | 0 <= i < |cs| :: cs[i] <= MAX_CODE_POINT_4
  }

  function EncodeAll(cs: seq<CodePoint>): seq<Byte>
    requires Encodable(cs)
  {
    if cs == [] then [] else EncodeAll(cs[..|cs| - 1]) + Utf8(cs[|cs| - 1])
  }

  lemma Bits1(c: CodePoint)
    requires c <= 0x7F
    ensures Low(c) < 0x80 && Low(c) as bv32 == c
  {
  }

  lemma Bits2(c: CodePoint)
    requires 0x7F < c <= 0x7FF
    ensures Low(0xC0 | (c >> 6)) & 0xE0 == 0xC0 && IsTrail(Trail(c, 0))
    ensures Join2(Low(0xC0 | (c >> 6)), Trail(c, 0)) == c
  {
  }

  lemma Bits3(c: CodePoint)
    requires 0x7FF < c <= 0xFFFF
    ensures var a := Low(0xE0 | (c >> 12));
            a & 0xF0 == 0xE0 && IsTrail(Trail(c, 6)) && IsTrail(Trail(c, 0)) && Join3(a, Trail(c, 6), Trail(c, 0)) == c
  {
  }

  lemma Bits4(c: CodePoint)
    requires 0xFFFF < c <= 0x1F_FFFF
    ensures var a := Low(0xF0 | (c >> 18));
            && a & 0xF8 == 0xF0 && IsTrail(Trail(c, 12)) && IsTrail(Trail(c, 6)) && IsTrail(Trail(c, 0))
            && Join4(a, Trail(c, 12), Trail(c, 6), Trail(c, 0)) == c
  {
  }

  // The lead bytes of the four lengths exclude each other.
  lemma Leads(a: Byte)
    ensures a & 0xE0 == 0xC0 ==> a >= 0x80
    ensures a & 0xF0 == 0xE0 ==> a >= 0x80 && a & 0xE0 != 0xC0
    ensures a & 0xF8 == 0xF0 ==> a >= 0x80 && a & 0xE0 != 0xC0 && a & 0xF0 != 0xE0
  {
  }

  /** Decoding inverts encoding, whatever bytes follow. */
  lemma DecodeEncoded(c: CodePoint, rest: seq<Byte>)
    requires c <= MAX_CODE_POINT_4
    ensures DecodeOne(Utf8(c) + rest) == Some(Decoded(c, |Utf8(c)|))
  {
    hide Low, Trail, IsTrail, Join2, Join3, Join4;
    var e := Utf8(c);
    assert forall k | 0 <= k < |e| :: (e + rest)[k] == e[k];
    Leads(e[0]);
    if c <= 0x7F {
      Bits1(c);
    } else if c <= 0x7FF {
      Bits2(c);
    } else if c <= 0xFFFF {
      Bits3(c);
    } else {
      Bits4(c);
    }
  }

  lemma Encode2(a: Byte, b: Byte)
    requires a & 0xE0 == 0xC0 && IsTrail(b)
    ensures var c := Join2(a, b); c <= 0x7FF && Low(0xC0 | (c >> 6)) == a && Trail(c, 0) == b
  {
  }

  lemma Encode3(a: Byte, b: Byte, d: Byte)
    requires a & 0xF0 == 0xE0 && IsTrail(b) && IsTrail(d)
    ensures var c := Join3(a, b, d); c <= 0xFFFF && Low(0xE0 | (c >> 12)) == a && Trail(c, 6) == b && Trail(c, 0) == d
  {
  }

  lemma Encode4(a: Byte, b: Byte, d: Byte, e: Byte)
    requires a & 0xF8 == 0xF0 && IsTrail(b) && IsTrail(d) && IsTrail(e)
    ensures var c := Join4(a, b, d, e);
            && c <= 0x1F_FFFF && Low(0xF0 | (c >> 18)) == a
            && Trail(c, 12) == b && Trail(c, 6) == d && Trail(c, 0) == e
  {
  }

  lemma Encode1(a: Byte)
    requires a < 0x80
    ensures a as bv32 <= 0x7F && Low(a as bv32) == a
  {
  }

  /** What decodes is the encoding of its code point. */
  lemma EncodeDecoded(s: seq<Byte>)
    requires DecodeOne(s).Some?
    ensures var d := DecodeOne(s).value; d.c <= MAX_CODE_POINT_4 && Utf8(d.c) == s[..d.length]
  {
    hide Low, Trail, IsTrail, Join2, Join3, Join4;
    if s[0] < 0x80 {
      Encode1(s[0]);
    } else if s[0] & 0xE0 == 0xC0 {
      Encode2(s[0], s[1]);
    } else if s[0] & 0xF0 == 0xE0 {
      Encode3(s[0], s[1], s[2]);
    } else {
      Encode4(s[0], s[1], s[2], s[3]);
    }
  }

  /** s has one of the four bit patterns, and its free bits are those of c;
      over-long forms included. */
  predicate HasPattern(s: seq<Byte>, c: CodePoint) {
    || (|s| == 1 && s[0] < 0x80 && s[0] as bv32 == c)
    || (|s| == 2 && s[0] & 0xE0 == 0xC0 && IsTrail(s[1]) && Join2(s[0], s[1]) == c)
    || (|s| == 3 && s[0] & 0xF0 == 0xE0 && IsTrail(s[1]) && IsTrail(s[2]) && Join3(s[0], s[1], s[2]) == c)
    || (|s| == 4 && s[0] & 0xF8 == 0xF0 && IsTrail(s[1]) && IsTrail(s[2]) && IsTrail(s[3])
        && Join4(s[0], s[1], s[2], s[3]) == c)
  }

  /** The encoding is the only shortest byte sequence with the bits of c. */
  lemma ShortestForm(s: seq<Byte>, c: CodePoint)
    requires c <= MAX_CODE_POINT_4
    ensures HasPattern(Utf8(c), c)
    ensures HasPattern(s, c) ==> |Utf8(c)| <= |s| && (|Utf8(c)| == |s| ==> s == Utf8(c))
  {
    PatternOfEncoding(c);
    if HasPattern(s, c) {
      OnlyShortest(s, c);
    }
  }

  lemma OnlyShortest(s: seq<Byte>, c: CodePoint)
    requires c <= MAX_CODE_POINT_4 && HasPattern(s, c)
    ensures |Utf8(c)| <= |s| && (|Utf8(c)| == |s| ==> s == Utf8(c))
  {
    hide Low, Trail, IsTrail, Join2, Join3, Join4;
    if |s| == 1 {
      Encode1(s[0]);
    } else if |s| == 2 {
      Encode2(s[0], s[1]);
    } else if |s| == 3 {
      Encode3(s[0], s[1], s[2]);
    } else {
      Encode4(s[0], s[1], s[2], s[3]);
    }
  }

  lemma PatternOfEncoding(c: CodePoint)
    requires c <= MAX_CODE_POINT_4
    ensures HasPattern(Utf8(c), c)
  {
    hide Low, Trail, IsTrail, Join2, Join3, Join4;
    if c <= 0x7F {
      Bits1(c);
    } else if c <= 0x7FF {
      Bits2(c);
    } else if c <= 0xFFFF {
      Bits3(c);
    } else {
      Bits4(c);
    }
  }

  lemma {:induction false} EncodeAllCons(c: CodePoint, cs: seq<CodePoint>)
    requires c <= MAX_CODE_POINT_4 && Encodable(cs)
    ensures Encodable([c] + cs) && EncodeAll([c] + cs) == Utf8(c) + EncodeAll(cs)
    decreases |cs|
  {
    hide Utf8;
    var whole, n := [c] + cs, |cs|;
    if cs == [] {
      assert whole[..n] == [];
    } else {
      EncodeAllCons(c, cs[..n - 1]);
      assert whole[..n] == [c] + cs[..n - 1];
    }
  }

  /** Concatenated encodings decode uniquely. */
  lemma {:induction false} DecodeEncodedAll(cs: seq<CodePoint>)
    requires Encodable(cs)
    ensures DecodeAll(EncodeAll(cs)) == Some(cs)
  {
    if cs != [] {
      hide Utf8, DecodeOne, EncodeAll;
      var rest := EncodeAll(cs[1..]);
      DecodeEncodedAll(cs[1..]);
      EncodeAllCons(cs[0], cs[1..]);
      assert cs == [cs[0]] + cs[1..];
      DecodeEncoded(cs[0], rest);
      assert (Utf8(cs[0]) + rest)[|Utf8(cs[0])|..] == rest;
    }
  }

  /** The decoder accepts nothing but encodings: one text, one encoding. */
  lemma {:induction false} EncodeDecodedAll(s: seq<Byte>)
    requires DecodeAll(s).Some?
    ensures Encodable(DecodeAll(s).value) && EncodeAll(DecodeAll(s).value) == s
    decreases |s|
  {
    if s != [] {
      hide Utf8, DecodeOne, EncodeAll, Encodable;
      hide DecodeAll;
      DecodeAllHead(s);
      var d := DecodeOne(s).value;
      EncodeDecoded(s);
      EncodeDecodedAll(s[d.length..]);
      ConsEncoded(d.c, DecodeAll(s[d.length..]).value, s, d.length);
    }
  }

  lemma ConsEncoded(c: CodePoint, cs: seq<CodePoint>, s: seq<Byte>, n: nat)
    requires c <= MAX_CODE_POINT_4 && n <= |s| && Utf8(c) == s[..n]
    requires Encodable(cs) && EncodeAll(cs) == s[n..]
    ensures Encodable([c] + cs) && EncodeAll([c] + cs) == s
  {
    hide Utf8, EncodeAll;
    EncodeAllCons(c, cs);
    assert s == s[..n] + s[n..];
  }

  lemma DecodeAllHead(s: seq<Byte>)
    requires s != [] && DecodeAll(s).Some?
    ensures DecodeOne(s).Some?
    ensures var d := DecodeOne(s).value;
            DecodeAll(s[d.length..]).Some? && DecodeAll(s).value == [d.c] + DecodeAll(s[d.length..]).value
  {
    hide DecodeOne;
  }

  /** No encoding is a proper prefix of another, and different code points have
      different encodings. */
  lemma PrefixFree(c: CodePoint, d: CodePoint)
    requires c <= MAX_CODE_POINT_4 && d <= MAX_CODE_POINT_4 && Utf8(c) <= Utf8(d)
    ensures c == d
  {
    hide Utf8, DecodeOne;
    DecodeEncoded(c, Utf8(d)[|Utf8(c)|..]);
    DecodeEncoded(d, []);
    assert Utf8(c) + Utf8(d)[|Utf8(c)|..] == Utf8(d) == Utf8(d) + [];
  }

  /** How many bytes a value takes, and the ranges of the first and the others
      (section 4 of RFC 3629, here for up to 21 bits). */
  lemma EncodingByRange(c: CodePoint, i: nat)
    requires c <= 0x1F_FFFF
    ensures c <= 0x7F ==> |Utf8(c)| == 1 && Utf8(c)[0] <= 0x7F
    ensures 0x7F < c <= 0x7FF ==> |Utf8(c)| == 2 && 0xC2 <= Utf8(c)[0] <= 0xDF
    ensures 0x7FF < c <= 0xFFFF ==> |Utf8(c)| == 3 && 0xE0 <= Utf8(c)[0] <= 0xEF
    ensures 0xFFFF < c ==> |Utf8(c)| == 4 && 0xF0 <= Utf8(c)[0] <= 0xF7
    ensures 0 < i < |Utf8(c)| ==> 0x80 <= Utf8(c)[i] <= 0xBF
  {
    hide Low, Trail;
    TrailRange(c);
    LeadRange(c);
  }

  lemma TrailRange(c: CodePoint)
    ensures 0x80 <= Trail(c, 0) <= 0xBF && 0x80 <= Trail(c, 6) <= 0xBF && 0x80 <= Trail(c, 12) <= 0xBF
  {
  }

  lemma LeadRange(c: CodePoint)
    ensures c <= 0x7F ==> Low(c) <= 0x7F
    ensures 0x7F < c <= 0x7FF ==> 0xC2 <= Low(0xC0 | (c >> 6)) <= 0xDF
    ensures 0x7FF < c <= 0xFFFF ==> 0xE0 <= Low(0xE0 | (c >> 12)) <= 0xEF
    ensures 0xFFFF < c <= 0x1F_FFFF ==> 0xF0 <= Low(0xF0 | (c >> 18)) <= 0xF7
  {
  }

  /** Some values in full: e with an acute accent, the Euro sign and an emoji. */
  lemma SomeEncodings()
    ensures Utf8(0xE9) == [0xC3, 0xA9] && Utf16(0xE9) == [0xE9]
    ensures Utf8(0x20AC) == [0xE2, 0x82, 0xAC] && Utf16(0x20AC) == [0x20AC]
    ensures Utf8(0x1_F600) == [0xF0, 0x9F, 0x98, 0x80] && Utf16(0x1_F600) == [0xD83D, 0xDE00]
  {
  }

  // ---------------------------------------------------------------------
  // CodePointToUtf8
  // ---------------------------------------------------------------------

  /** Returns the six lowest bits and the bit pattern without them. */
  method ChopLowBits(bits: bv32) returns (lowBits: bv32, rest: bv32)
    ensures lowBits == Chopped(bits) && rest == bits >> 6
  {
    lowBits := bits & ((1 << 6) - 1);
    rest := bits >> 6;
  }

  function Ascii(text: string): seq<Byte> {
    if text == "" then [] else Ascii(text[..|text| - 1]) + [(text[|text| - 1] as int % 0x100) as Byte]
  }

  // The C string in a buffer, as bytes.
  function UpToNul(buffer: seq<Byte>): seq<Byte> {
    if buffer == [] || buffer[0] == 0 then [] else [buffer[0]] + UpToNul(buffer[1..])
  }

  function Invalid(c: CodePoint): seq<Byte> {
    Ascii("(Invalid Unicode 0x" + StringPrinter.FormatHexInt(c as int) + ")")
  }

  /** The bytes the conversion writes for one code point: nothing for 0, which
      ends the string, and a message past the 21-bit range. */
  function Converted(c: CodePoint): seq<Byte> {
    if c > MAX_CODE_POINT_4 then Invalid(c) else if c == 0 then [] else Utf8(c)
  }

  lemma {:induction false} AsciiLength(text: string)
    ensures |Ascii(text)| == |text|
  {
    if text != "" {
      AsciiLength(text[..|text| - 1]);
    }
  }

  /** The message stands for the values past 21 bits, and not, as the
      documentation has it, for all that are not Unicode code points: the two
      agree exactly outside U+110000 to U+1FFFFF. */
  lemma MessageIff(c: CodePoint)
    ensures Converted(c) == Invalid(c) <==> c > MAX_CODE_POINT_4
    ensures (Converted(c) == Invalid(c) <==> c > 0x10_FFFF) <==> !(0x10_FFFF < c <= MAX_CODE_POINT_4)
  {
    AsciiLength("(Invalid Unicode 0x" + StringPrinter.FormatHexInt(c as int) + ")");
  }

  lemma NoMessageFor110000()
    ensures Converted(0x11_0000) == [0xF4, 0x90, 0x80, 0x80] != Invalid(0x11_0000)
  {
    MessageIff(0x11_0000);
  }

  // Chopping six bits at a time leaves the fields of the encoding.
  lemma Chops(c: CodePoint)
    ensures Low(0x80 | Chopped(c)) == Trail(c, 0)
    ensures Low(0x80 | Chopped(c >> 6)) == Trail(c, 6)
    ensures Low(0xE0 | ((c >> 6) >> 6)) == Low(0xE0 | (c >> 12))
  {
  }

  lemma ThirdChop(c: CodePoint, c1: bv32, c2: bv32, low: bv32, c3: bv32)
    requires c1 == c >> 6 && c2 == c1 >> 6 && low == Chopped(c2) && c3 == c2 >> 6
    ensures Low(0x80 | low) == Trail(c, 12) && Low(0xF0 | c3) == Low(0xF0 | (c >> 18))
  {
  }

  function Chopped(bits: bv32): bv32 { bits & ((1 << 6) - 1) }

  lemma NoNulByte(c: CodePoint)
    requires 0 < c <= MAX_CODE_POINT_4
    ensures 0 !in Utf8(c)
  {
    assert Trail(c, 0) != 0 && Trail(c, 6) != 0 && Trail(c, 12) != 0;
    assert Low(0xC0 | (c >> 6)) != 0 && Low(0xE0 | (c >> 12)) != 0 && Low(0xF0 | (c >> 18)) != 0;
    assert c <= 0x7F ==> Low(c) != 0;
  }

  lemma {:induction false} UpToNulOf(s: seq<Byte>, junk: seq<Byte>)
    requires 0 !in s
    ensures UpToNul(s + [0] + junk) == s
  {
    var buffer := s + [0] + junk;
    if s != [] {
      assert buffer[1..] == s[1..] + [0] + junk;
      UpToNulOf(s[1..], junk);
    }
  }

  /** The bytes are the codes of the text's characters. */
  predicate Spells(bytes: seq<Byte>, text: string) {
    |bytes| == |text| && forall i | 0 <= i < |bytes| :: bytes[i] == (text[i] as int % 0x100) as Byte
  }

  lemma {:induction false} AsciiSpells(text: string)
    ensures Spells(Ascii(text), text)
  {
    if text != "" {
      AsciiSpells(text[..|text| - 1]);
    }
  }

  method CodePointToUtf8(codePoint: CodePoint) returns (bytes: seq<Byte>)
    ensures bytes == Converted(codePoint)
    ensures codePoint > 0x1F_FFFF ==>
              Spells(bytes, "(Invalid Unicode 0x" + StringPrinter.FormatHexInt(codePoint as int) + ")")
  {
    if codePoint > MAX_CODE_POINT_4 {
      AsciiSpells("(Invalid Unicode 0x" + StringPrinter.FormatHexInt(codePoint as int) + ")");
      return Invalid(codePoint);
    }
    bytes := EncodeInBuffer(codePoint);
  }

  // The branches that fill the five-byte buffer from its end.
  method EncodeInBuffer(codePoint: CodePoint) returns (bytes: seq<Byte>)
    requires codePoint <= MAX_CODE_POINT_4
    ensures bytes == Converted(codePoint)
  {
    hide Low, Trail, Chopped, Converted;
    Chops(codePoint);
    ghost var e := Utf8(codePoint);
    var str := new Byte[5](_ => 0);
    if codePoint <= MAX_CODE_POINT_1 {
      str[1] := 0;
      str[0] := Low(codePoint);
      assert str[..2] == e + [0];
    } else if codePoint <= MAX_CODE_POINT_2 {
      str[2] := 0;
      var low, c := ChopLowBits(codePoint);
      str[1] := Low(0x80 | low);
      str[0] := Low(0xC0 | c);
      assert str[..3] == e + [0];
    } else if codePoint <= MAX_CODE_POINT_3 {
      FillThree(str, codePoint);
    } else {
      FillFour(str, codePoint);
    }
    BufferHolds(str[..], codePoint);
    return UpToNul(str[..]);
  }

  method FillThree(str: array<Byte>, codePoint: CodePoint)
    requires str.Length == 5 && MAX_CODE_POINT_2 < codePoint <= MAX_CODE_POINT_3
    modifies str
    ensures str[..4] == Utf8(codePoint) + [0]
  {
    hide Low, Trail, Chopped;
    Chops(codePoint);
    var c := codePoint;
    var low: bv32;
    str[3] := 0;
    low, c := ChopLowBits(c);
    str[2] := Low(0x80 | low);
    low, c := ChopLowBits(c);
    str[1] := Low(0x80 | low);
    str[0] := Low(0xE0 | c);
  }

  method FillFour(str: array<Byte>, codePoint: CodePoint)
    requires str.Length == 5 && MAX_CODE_POINT_3 < codePoint <= MAX_CODE_POINT_4
    modifies str
    ensures str[..5] == Utf8(codePoint) + [0]
  {
    hide Low, Trail, Chopped;
    Chops(codePoint);
    var c := codePoint;
    var low: bv32;
    str[4] := 0;
    low, c := ChopLowBits(c);
    str[3] := Low(0x80 | low);
    ghost var c1 := c;
    low, c := ChopLowBits(c);
    str[2] := Low(0x80 | low);
    ghost var c2 := c;
    low, c := ChopLowBits(c);
    str[1] := Low(0x80 | low);
    str[0] := Low(0xF0 | c);
    ThirdChop(codePoint, c1, c2, low, c);
  }

  lemma BufferHolds(buffer: seq<Byte>, c: CodePoint)
    requires c <= MAX_CODE_POINT_4 && |Utf8(c)| < |buffer| && buffer[..|Utf8(c)| + 1] == Utf8(c) + [0]
    ensures UpToNul(buffer) == Converted(c)
  {
    hide Low, Trail, Utf8;
    if c > 0 {
      NoNulByte(c);
      BufferSplit(buffer, Utf8(c));
    } else {
      ZeroEncoded();
      assert buffer[0] == buffer[..2][0];
    }
  }

  lemma BufferSplit(buffer: seq<Byte>, s: seq<Byte>)
    requires |s| < |buffer| && buffer[..|s| + 1] == s + [0] && 0 !in s
    ensures UpToNul(buffer) == s
  {
    UpToNulOf(s, buffer[|s| + 1..]);
    assert buffer == buffer[..|s| + 1] + buffer[|s| + 1..];
  }

  lemma ZeroEncoded()
    ensures Utf8(0) == [0]
  {
    LowZero();
  }

  lemma LowZero()
    ensures Low(0) == 0
  {
  }

  // ---------------------------------------------------------------------
  // UTF-16, section 2.1 of RFC 2781
  // ---------------------------------------------------------------------

  /** A Unicode scalar value. */
  predicate IsScalar(c: CodePoint) { c <= 0x10_FFFF && !(0xD800 <= c <= 0xDFFF) }

  function Half(x: bv32): WChar { (x & 0xFFFF) as bv16 }

  function Utf16(c: CodePoint): (s: seq<WChar>)
    requires IsScalar(c)
  {
    if c < 0x1_0000 then [Half(c)]
    else
      var u := c - 0x1_0000;
      [Half(0xD800 | (u >> 10)), Half(0xDC00 | (u & 0x3FF))]
  }

  ghost predicate Scalars(cs: seq<CodePoint>) {
    forall i | 0 <= i < |cs| :: 0 < cs[i] && IsScalar(cs[i])
  }

  function Utf16All(cs: seq<CodePoint>): seq<WChar>
    requires Scalars(cs)
  {
    if cs == [] then [] else Utf16(cs[0]) + Utf16All(cs[1..])
  }

  predicate IsLead(x: WChar) { x & 0xFC00 == 0xD800 }

  predicate IsUtf16SurrogatePair(first: WChar, second: WChar) {
    IsLead(first) && second & 0xFC00 == 0xDC00
  }

  function Wide(x: WChar): CodePoint { x as bv32 }

  function CreateCodePointFromUtf16SurrogatePair(first: WChar, second: WChar): CodePoint {
    var mask: bv32 := (1 << 10) - 1;
    (((first as bv32 & mask) << 10) | (second as bv32 & mask)) + 0x1_0000
  }

  /** The code points a wide string is read as; unpaired surrogates stand for
      themselves. */
  function CodePoints(w: seq<WChar>): seq<CodePoint>
    decreases |w|
  {
    if w == [] then []
    else if |w| > 1 && IsUtf16SurrogatePair(w[0], w[1]) then
      [CreateCodePointFromUtf16SurrogatePair(w[0], w[1])] + CodePoints(w[2..])
    else [Wide(w[0])] + CodePoints(w[1..])
  }

  lemma PairBits(first: WChar, second: WChar)
    requires IsUtf16SurrogatePair(first, second)
    ensures var c := CreateCodePointFromUtf16SurrogatePair(first, second); var u := c - 0x1_0000;
            && 0x1_0000 <= c <= 0x10_FFFF && IsScalar(c)
            && Half(0xD800 | (u >> 10)) == first && Half(0xDC00 | (u & 0x3FF)) == second
  {
  }

  lemma PairInRange(first: WChar, second: WChar)
    requires IsUtf16SurrogatePair(first, second)
    ensures var c := CreateCodePointFromUtf16SurrogatePair(first, second);
            0x1_0000 <= c <= 0x10_FFFF && IsScalar(c) && Utf16(c) == [first, second]
  {
    hide Half, IsScalar, IsUtf16SurrogatePair, CreateCodePointFromUtf16SurrogatePair;
    PairBits(first, second);
  }

  lemma {:induction false} CodePointsInRange(w: seq<WChar>)
    requires 0 !in w
    ensures forall i | 0 <= i < |CodePoints(w)| :: 0 < CodePoints(w)[i] <= 0x10_FFFF
    decreases |w|
  {
    if w != [] {
      hide IsUtf16SurrogatePair, CreateCodePointFromUtf16SurrogatePair, Wide;
      assert w[0] in w && w[0] != 0;
      WidenNonZero(w[0]);
      if |w| > 1 && IsUtf16SurrogatePair(w[0], w[1]) {
        PairInRange(w[0], w[1]);
        CodePointsInRange(w[2..]);
      } else {
        CodePointsInRange(w[1..]);
      }
    }
  }

  lemma WidenNonZero(x: WChar)
    requires x != 0
    ensures 0 < Wide(x) <= 0xFFFF
  {
  }

  lemma SingleUnit(c: CodePoint)
    requires c < 0x1_0000 && IsScalar(c)
    ensures Wide(Half(c)) == c && !IsLead(Half(c))
  {
  }

  lemma PairUnits(c: CodePoint)
    requires IsScalar(c) && c >= 0x1_0000
    ensures var u := c - 0x1_0000;
            var first, second := Half(0xD800 | (u >> 10)), Half(0xDC00 | (u & 0x3FF));
            IsUtf16SurrogatePair(first, second) && CreateCodePointFromUtf16SurrogatePair(first, second) == c
  {
  }

  predicate IsPairOf(w: seq<WChar>, c: CodePoint) {
    |w| == 2 && IsUtf16SurrogatePair(w[0], w[1]) && CreateCodePointFromUtf16SurrogatePair(w[0], w[1]) == c
  }

  predicate IsSingleOf(w: seq<WChar>, c: CodePoint) {
    |w| == 1 && Wide(w[0]) == c && !IsLead(w[0])
  }

  lemma Utf16Units(c: CodePoint)
    requires IsScalar(c)
    ensures IsSingleOf(Utf16(c), c) || IsPairOf(Utf16(c), c)
  {
    hide Half, IsScalar, IsLead, Wide, IsUtf16SurrogatePair, CreateCodePointFromUtf16SurrogatePair;
    if c < 0x1_0000 {
      SingleUnit(c);
    } else {
      PairUnits(c);
    }
  }

  // The units of one scalar value are read back as that value, whatever
  // follows.
  lemma ReadUtf16(c: CodePoint, rest: seq<WChar>)
    requires IsScalar(c)
    ensures CodePoints(Utf16(c) + rest) == [c] + CodePoints(rest)
  {
    hide IsScalar, CodePoints, Utf16, IsSingleOf, IsPairOf;
    Utf16Units(c);
    if IsSingleOf(Utf16(c), c) {
      SingleFirst(Utf16(c), c, rest);
    } else {
      PairFirst(Utf16(c), c, rest);
    }
  }

  lemma NoLead(x: WChar, y: WChar)
    requires !IsLead(x)
    ensures !IsUtf16SurrogatePair(x, y)
  {
  }

  lemma SingleFirst(w: seq<WChar>, c: CodePoint, rest: seq<WChar>)
    requires IsSingleOf(w, c)
    ensures CodePoints(w + rest) == [c] + CodePoints(rest)
  {
    hide IsLead, Wide, IsUtf16SurrogatePair, CreateCodePointFromUtf16SurrogatePair;
    if rest != [] {
      NoLead(w[0], rest[0]);
    }
    assert (w + rest)[1..] == rest;
  }

  lemma PairFirst(w: seq<WChar>, c: CodePoint, rest: seq<WChar>)
    requires IsPairOf(w, c)
    ensures CodePoints(w + rest) == [c] + CodePoints(rest)
  {
    hide Wide, IsUtf16SurrogatePair, CreateCodePointFromUtf16SurrogatePair;
    assert (w + rest)[2..] == rest;
  }

  /** Reading well-formed UTF-16 gives the scalar values it encodes. */
  lemma {:induction false} CodePointsOfUtf16(cs: seq<CodePoint>)
    requires Scalars(cs)
    ensures CodePoints(Utf16All(cs)) == cs
  {
    if cs != [] {
      hide Utf16, CodePoints, IsScalar;
      ReadUtf16(cs[0], Utf16All(cs[1..]));
      CodePointsOfUtf16(cs[1..]);
    } else {
      hide IsUtf16SurrogatePair, CreateCodePointFromUtf16SurrogatePair;
    }
  }

  /** The code points read are all scalar values exactly when the string is
      well-formed UTF-16. */
  lemma {:induction false} ScalarsIffWellFormed(w: seq<WChar>)
    requires 0 !in w
    ensures Scalars(CodePoints(w)) <==> exists cs :: Scalars(cs) && Utf16All(cs) == w
  {
    if Scalars(CodePoints(w)) {
      Utf16OfCodePoints(w);
    }
    if cs :| Scalars(cs) && Utf16All(cs) == w {
      CodePointsOfUtf16(cs);
    }
  }

  lemma {:induction false} Utf16OfCodePoints(w: seq<WChar>)
    requires 0 !in w && Scalars(CodePoints(w))
    ensures Utf16All(CodePoints(w)) == w
    decreases |w|
  {
    if w != [] {
      hide IsScalar, Half, Wide, IsUtf16SurrogatePair, CreateCodePointFromUtf16SurrogatePair, Utf16;
      if |w| > 1 && IsUtf16SurrogatePair(w[0], w[1]) {
        PairInRange(w[0], w[1]);
        OneMore(CreateCodePointFromUtf16SurrogatePair(w[0], w[1]), CodePoints(w[2..]));
        Utf16OfCodePoints(w[2..]);
        assert w == [w[0], w[1]] + w[2..];
      } else {
        OneMore(Wide(w[0]), CodePoints(w[1..]));
        SingleBack(w[0]);
        Utf16OfCodePoints(w[1..]);
        assert w == [w[0]] + w[1..];
      }
    }
  }

  lemma OneMore(c: CodePoint, cs: seq<CodePoint>)
    requires Scalars([c] + cs)
    ensures IsScalar(c) && Scalars(cs) && Utf16All([c] + cs) == Utf16(c) + Utf16All(cs)
  {
    hide IsScalar, Utf16;
    assert ([c] + cs)[0] == c && ([c] + cs)[1..] == cs;
    forall i | 0 <= i < |cs| ensures 0 < cs[i] && IsScalar(cs[i]) {
      assert cs[i] == ([c] + cs)[i + 1];
    }
  }

  lemma SingleBack(x: WChar)
    ensures Wide(x) < 0x1_0000 && Half(Wide(x)) == x
    ensures IsScalar(Wide(x)) ==> Utf16(Wide(x)) == [x]
  {
  }

  // ---------------------------------------------------------------------
  // WideStringToUtf8
  // ---------------------------------------------------------------------

  function WideAt(w: WString, i: nat): WChar
    requires i <= |w|
  {
    if i == |w| then 0 else w[i]
  }

  /** The characters a call looks at; -1 means all of them. */
  function Limited(str: WString, numChars: int): WString {
    if numChars == -1 || numChars >= |str| then str else if numChars < 0 then [] else str[..numChars]
  }

  /** Replaces NUL bytes by two printable characters. */
  method StringStreamToString(str: seq<Byte>) returns (result: seq<Byte>)
    ensures 0 !in str ==> result == str
  {
    result := [];
    for i := 0 to |str|
      invariant 0 !in str ==> result == str[..i]
    {
      if str[i] == 0 {
        result := result + [0x5C, 0x30];
      } else {
        result := result + [str[i]];
      }
    }
  }

  method WideStringToUtf8(str: WString, numChars: int) returns (r: seq<Byte>)
    ensures Encodable(CodePoints(Limited(str, numChars)))
    ensures r == EncodeAll(CodePoints(Limited(str, numChars)))
    ensures forall cs | Scalars(cs) && Utf16All(cs) == Limited(str, numChars) ::
              Encodable(cs) && r == EncodeAll(cs) && DecodeAll(r) == Some(cs)
  {
    hide Utf8, CodePoints, Scalars, Utf16All, DecodeAll;
    ghost var w := Limited(str, numChars);
    CodePointsInRange(w);
    var n := if numChars == -1 then |str| else numChars;
    var stream: seq<Byte> := [];
    ghost var done: seq<CodePoint> := [];
    var i := 0;
    assert w[0..] == w;
    while i < n
      invariant 0 <= i <= |w|
      invariant CodePoints(w) == done + CodePoints(w[i..])
      invariant Encodable(done) && stream == EncodeAll(done) && 0 !in stream
      decreases |w| - i
    {
      if WideAt(str, i) == 0 {
        break;
      }
      ghost var before := i;
      var unicodeCodePoint;
      unicodeCodePoint, i := NextCodePoint(str, numChars, n, i);
      assert CodePoints(w) == done + [unicodeCodePoint] + CodePoints(w[i..]);
      assert CodePoints(w)[|done|] == unicodeCodePoint;
      NoNulByte(unicodeCodePoint);
      var bytes := CodePointToUtf8(unicodeCodePoint);
      stream := stream + bytes;
      EncodeAllSnoc(done, unicodeCodePoint);
      done := done + [unicodeCodePoint];
    }
    assert CodePoints(w[i..]) == [] && done + [] == done by {
      CodePointsStep(w, i);
    }
    r := StringStreamToString(stream);
    forall cs | Scalars(cs) && Utf16All(cs) == w
      ensures Encodable(cs) && r == EncodeAll(cs) && DecodeAll(r) == Some(cs)
    {
      Utf16ToUtf8(cs);
    }
  }

  /** A wide C string of UTF-16 text comes out as UTF-8. */
  method ShowWideCString(wideCStr: Option<WString>) returns (r: seq<Byte>)
    ensures wideCStr.None? ==> Spells(r, "(null)")
    ensures forall cs | Scalars(cs) && wideCStr.Some? && Utf16All(cs) == wideCStr.value ::
              Encodable(cs) && r == EncodeAll(cs) && DecodeAll(r) == Some(cs)
  {
    if wideCStr.None? {
      AsciiSpells("(null)");
      return Ascii("(null)");
    }
    r := WideStringToUtf8(wideCStr.value, -1);
  }

  lemma EncodeAllSnoc(cs: seq<CodePoint>, c: CodePoint)
    requires Encodable(cs) && c <= MAX_CODE_POINT_4
    ensures Encodable(cs + [c]) && EncodeAll(cs + [c]) == EncodeAll(cs) + Utf8(c)
  {
    hide Utf8;
    assert (cs + [c])[..|cs|] == cs;
  }

  // The body of the loop up to the conversion.
  method NextCodePoint(str: WString, ghost numChars: int, n: int, i: nat) returns (c: CodePoint, next: nat)
    requires n == (if numChars == -1 then |str| else numChars) && i < n && i < |str|
    ensures var w := Limited(str, numChars);
            i < next <= |w| && CodePoints(w[i..]) == [c] + CodePoints(w[next..])
  {
    hide IsUtf16SurrogatePair, CreateCodePointFromUtf16SurrogatePair, CodePoints, Wide;
    ghost var w := Limited(str, numChars);
    CodePointsStep(w, i);
    NoPairWithNul(WideAt(str, i));
    assert w[i] == WideAt(str, i);
    assert i + 1 < |w| ==> w[i + 1] == WideAt(str, i + 1);
    if i + 1 < n && IsUtf16SurrogatePair(WideAt(str, i), WideAt(str, i + 1)) {
      c := CreateCodePointFromUtf16SurrogatePair(WideAt(str, i), WideAt(str, i + 1));
      next := i + 2;
    } else {
      c := Wide(WideAt(str, i));
      next := i + 1;
    }
  }

  lemma NoPairWithNul(x: WChar)
    ensures !IsUtf16SurrogatePair(x, 0)
  {
  }

  lemma CodePointsStep(w: seq<WChar>, i: nat)
    requires i <= |w|
    ensures i == |w| ==> CodePoints(w[i..]) == []
    ensures i < |w| ==>
              CodePoints(w[i..]) ==
              if i + 1 < |w| && IsUtf16SurrogatePair(w[i], w[i + 1]) then
                [CreateCodePointFromUtf16SurrogatePair(w[i], w[i + 1])] + CodePoints(w[i + 2..])
              else [Wide(w[i])] + CodePoints(w[i + 1..])
  {
    hide IsUtf16SurrogatePair, CreateCodePointFromUtf16SurrogatePair, Wide;
    if i < |w| {
      assert w[i..][1..] == w[i + 1..];
      if i + 1 < |w| {
        assert w[i..][2..] == w[i + 2..];
      }
    }
  }

  lemma UnitsNotNul(c: CodePoint)
    requires IsScalar(c) && c != 0
    ensures 0 !in Utf16(c)
  {
    assert c < 0x1_0000 ==> Half(c) != 0;
    var u := c - 0x1_0000;
    assert Half(0xD800 | (u >> 10)) != 0 && Half(0xDC00 | (u & 0x3FF)) != 0;
  }

  /** The UTF-16 form of non-zero scalar values is a wide C string: it has no
      NUL in it. */
  lemma {:induction false} Utf16HasNoNul(cs: seq<CodePoint>)
    requires Scalars(cs)
    ensures 0 !in Utf16All(cs)
  {
    if cs != [] {
      hide Utf16, IsScalar;
      UnitsNotNul(cs[0]);
      Utf16HasNoNul(cs[1..]);
    }
  }

  /** Every sequence of non-zero scalar values in UTF-16 is a wide C string, is
      read as those values, and they can be decoded from their UTF-8 form. */
  lemma Utf16ToUtf8(cs: seq<CodePoint>)
    requires Scalars(cs)
    ensures 0 !in Utf16All(cs) && Limited(Utf16All(cs), -1) == Utf16All(cs)
    ensures Encodable(cs) && CodePoints(Utf16All(cs)) == cs
    ensures DecodeAll(EncodeAll(CodePoints(Utf16All(cs)))) == Some(cs)
  {
    Utf16HasNoNul(cs);
    CodePointsOfUtf16(cs);
    DecodeEncodedAll(cs);
  }
}
