/** The simple regular expressions of gtest-port.cc: their grammar, their
    meaning as sets of strings, and the validator and matcher that work on the
    raw pattern text. */
module SimpleRegex {
  import opened CStrings

  // ---------------------------------------------------------------------
  // Character classes
  // ---------------------------------------------------------------------

  predicate IsAsciiDigit(ch: char) { '0' <= ch <= '9' }

  /** ASCII punctuation; see PunctuationListed. */
  predicate IsAsciiPunct(ch: char) {
    '!' <= ch <= '/' || ':' <= ch <= '@' || '[' <= ch <= '`' || '{' <= ch <= '~'
  }

  /** The source's list of 32 characters is exactly the four ASCII ranges. */
  lemma PunctuationListed(ch: char)
    ensures IsAsciiPunct(ch) <==> IsInSet(ch, "^-!\"#$%&'()*+,./:;<=>?@[\\]_`{|}~")
  {
    var list := "^-!\"#$%&'()*+,./:;<=>?@[\\]_`{|}~";
    assert |list| == 32;
  }

  predicate IsRepeat(ch: char) { ch in {'?', '*', '+'} }

  predicate IsAsciiWhiteSpace(ch: char) {
    ch in {' ', '\U{000C}', '\n', '\r', '\t', '\U{000B}'}
  }

  // Characters with a role of their own; ( ) [ ] { } | are never accepted.
  predicate IsUnsupported(ch: char) { ch in {'(', ')', '[', ']', '{', '}', '|'} }

  predicate IsAsciiWordChar(ch: char) {
    'a' <= ch <= 'z' || 'A' <= ch <= 'Z' || '0' <= ch <= '9' || ch == '_'
  }

  predicate IsValidEscape(c: char) {
    IsAsciiPunct(c) || c in {'d', 'D', 'f', 'n', 'r', 's', 'S', 't', 'v', 'w', 'W'}
  }

  predicate AtomMatchesChar(escaped: bool, patternChar: char, ch: char) {
    if escaped then
      match patternChar
      case 'd' => IsAsciiDigit(ch)
      case 'D' => !IsAsciiDigit(ch)
      case 'f' => ch == '\U{000C}'
      case 'n' => ch == '\n'
      case 'r' => ch == '\r'
      case 's' => IsAsciiWhiteSpace(ch)
      case 'S' => !IsAsciiWhiteSpace(ch)
      case 't' => ch == '\t'
      case 'v' => ch == '\U{000B}'
      case 'w' => IsAsciiWordChar(ch)
      case 'W' => !IsAsciiWordChar(ch)
      case _ => IsAsciiPunct(patternChar) && patternChar == ch
    else
      (patternChar == '.' && ch != '\n') || patternChar == ch
  }

  // ---------------------------------------------------------------------
  // Grammar: optional ^, atoms with at most one repeat mark each, optional $
  // ---------------------------------------------------------------------

  datatype Repeat = Once | Optional | Star | Plus
  datatype Token = Token(escaped: bool, c: char, repeat: Repeat)
  datatype Tail = Tail(tokens: seq<Token>, dollar: bool)
  datatype Regex = Regex(caret: bool, tail: Tail)

  predicate WellFormedAtom(escaped: bool, c: char) {
    if escaped then IsValidEscape(c) else c !in {'\0', '\\', '^', '$'} && !IsUnsupported(c) && !IsRepeat(c)
  }

  predicate WellFormed(tokens: seq<Token>) {
    forall i | 0 <= i < |tokens| :: WellFormedToken(tokens[i])
  }

  predicate WellFormedToken(t: Token) { WellFormedAtom(t.escaped, t.c) }

  function RenderRepeat(r: Repeat): CString {
    match r
    case Once => ""
    case Optional => "?"
    case Star => "*"
    case Plus => "+"
  }

  function RepeatOf(mark: char): Repeat {
    match mark
    case '?' => Optional
    case '*' => Star
    case '+' => Plus
    case _ => Once
  }

  function RenderToken(t: Token): string {
    (if t.escaped then ['\\', t.c] else [t.c]) + RenderRepeat(t.repeat)
  }

  function RenderTail(t: Tail): string
    decreases |t.tokens|
  {
    if t.tokens == [] then (if t.dollar then "$" else "")
    else RenderToken(t.tokens[0]) + RenderTail(Tail(t.tokens[1..], t.dollar))
  }

  function Render(r: Regex): string {
    (if r.caret then "^" else "") + RenderTail(r.tail)
  }

  /** The pattern is a sentence of the grammar. */
  ghost predicate InGrammar(s: string) {
    exists r: Regex :: WellFormed(r.tail.tokens) && Render(r) == s
  }

  // The token a text starts with and the characters it takes up.
  datatype Head = Head(token: Token, length: nat)

  function ParseToken(s: string): (r: Option<Head>)
    requires s != ""
    ensures r.Some? ==> 0 < r.value.length <= |s|
  {
    var escaped := s[0] == '\\';
    var n := if escaped then 2 else 1;
    if |s| < n || !WellFormedAtom(escaped, s[n - 1]) then None
    else if |s| > n && IsRepeat(s[n]) then Some(Head(Token(escaped, s[n - 1], RepeatOf(s[n])), n + 1))
    else Some(Head(Token(escaped, s[n - 1], Once), n))
  }

  // The unique way to read a text as a Tail, if there is one.
  function ParseTail(s: string): Option<Tail>
    decreases |s|
  {
    if s == "" then Some(Tail([], false))
    else if s == "$" then Some(Tail([], true))
    else
      match ParseToken(s)
      case None => None
      case Some(head) =>
        var rest := ParseTail(s[head.length..]);
        if rest.None? then None
        else Some(Tail([head.token] + rest.value.tokens, rest.value.dollar))
  }

  function ParseRegex(s: string): Option<Regex> {
    var caret := s != "" && s[0] == '^';
    match ParseTail(if caret then s[1..] else s)
    case None => None
    case Some(t) => Some(Regex(caret, t))
  }

  lemma ParseTokenRender(s: string)
    requires s != "" && ParseToken(s).Some?
    ensures var h := ParseToken(s).value;
            WellFormedToken(h.token) && RenderToken(h.token) == s[..h.length]
  {
  }

  // A token read without a repeat mark is not followed by one.
  lemma MarkAfterToken(s: string)
    requires s != "" && ParseToken(s).Some?
    ensures var h := ParseToken(s).value;
            h.token.repeat.Once? && h.length < |s| ==> !IsRepeat(s[h.length])
  {
  }

  lemma RenderTokenParse(t: Token, rest: string)
    requires WellFormedToken(t)
    requires rest != "" ==> !IsRepeat(rest[0])
    ensures ParseToken(RenderToken(t) + rest) == Some(Head(t, |RenderToken(t)|))
  {
    assert rest != "" ==> (RenderToken(t) + rest)[|RenderToken(t)|] == rest[0];
  }

  lemma RenderTailCons(h: Token, t: Tail)
    ensures RenderTail(Tail([h] + t.tokens, t.dollar)) == RenderToken(h) + RenderTail(t)
  {
    assert ([h] + t.tokens)[1..] == t.tokens;
  }

  lemma {:induction false} ParseTailRender(s: string)
    requires ParseTail(s).Some?
    ensures WellFormed(ParseTail(s).value.tokens) && RenderTail(ParseTail(s).value) == s
    decreases |s|
  {
    if s != "" && s != "$" {
      hide WellFormedToken, RenderToken, ParseToken, RenderTail, ParseTail;
      ParseTailStep(s);
      var head := ParseToken(s).value;
      var tail := s[head.length..];
      ParseTokenRender(s);
      ParseTailRender(tail);
      RenderTailCons(head.token, ParseTail(tail).value);
      assert s == s[..head.length] + tail;
    } else {
      hide ParseToken;
    }
  }

  lemma ParseTailStep(s: string)
    requires s != "" && s != "$" && ParseTail(s).Some?
    ensures ParseToken(s).Some?
    ensures var head := ParseToken(s).value; var rest := ParseTail(s[head.length..]);
            rest.Some? && ParseTail(s).value == Tail([head.token] + rest.value.tokens, rest.value.dollar)
  {
    hide ParseToken;
  }

  // No sentence of the tail grammar starts with a repeat mark or with ^.
  lemma RenderTailHead(t: Tail)
    requires WellFormed(t.tokens)
    ensures RenderTail(t) != "" ==> !IsRepeat(RenderTail(t)[0]) && RenderTail(t)[0] != '^'
    ensures RenderTail(t) == "" <==> t == Tail([], false)
    ensures RenderTail(t) == "$" <==> t == Tail([], true)
  {
    if t.tokens != [] {
      assert WellFormedToken(t.tokens[0]);
      assert RenderTail(t)[0] == RenderToken(t.tokens[0])[0];
    }
  }

  lemma {:induction false} RenderTailParse(t: Tail)
    requires WellFormed(t.tokens)
    ensures ParseTail(RenderTail(t)) == Some(t)
    decreases |t.tokens|
  {
    RenderTailHead(t);
    if t.tokens != [] {
      var h, rest := t.tokens[0], Tail(t.tokens[1..], t.dollar);
      RenderTailHead(rest);
      RenderTailParse(rest);
      RenderTokenParse(h, RenderTail(rest));
      assert RenderTail(t)[|RenderToken(h)|..] == RenderTail(rest);
      assert t.tokens == [h] + rest.tokens;
    }
  }

  /** Reading a pattern inverts writing it, so the grammar is unambiguous. */
  lemma ParseIffRender(s: string, r: Regex)
    ensures ParseRegex(s) == Some(r) <==> WellFormed(r.tail.tokens) && Render(r) == s
  {
    if ParseRegex(s) == Some(r) {
      ParseTailRender(if r.caret then s[1..] else s);
    }
    if WellFormed(r.tail.tokens) && Render(r) == s {
      RenderTailHead(r.tail);
      RenderTailParse(r.tail);
      if r.caret {
        assert s == ['^'] + RenderTail(r.tail);
        assert s[1..] == RenderTail(r.tail);
      } else {
        assert s == RenderTail(r.tail);
      }
    }
  }

  lemma InGrammarIffParses(s: string)
    ensures InGrammar(s) <==> ParseRegex(s).Some?
  {
    if InGrammar(s) {
      var r: Regex :| WellFormed(r.tail.tokens) && Render(r) == s;
      ParseIffRender(s, r);
    }
    if ParseRegex(s).Some? {
      ParseIffRender(s, ParseRegex(s).value);
    }
  }

  /** What the matcher requires of every text it recurses into: it is accepted
      and has no leading ^. */
  lemma TailIffAcceptedWithoutCaret(s: string)
    ensures ParseTail(s).Some? <==> InGrammar(s) && (s != "" ==> s[0] != '^')
  {
    InGrammarIffParses(s);
  }

  // ---------------------------------------------------------------------
  // The validator
  // ---------------------------------------------------------------------

  // No error is reported at index i or later, given what the loop remembers
  // about the token before i.
  predicate NoErrorFrom(s: CString, i: nat, prevRepeatable: bool)
    requires i <= |s|
    decreases |s| - i
  {
    if i == |s| then true
    else if s[i] == '\\' then
      i + 1 < |s| && IsValidEscape(s[i + 1]) && NoErrorFrom(s, i + 2, true)
    else
      && !(s[i] == '^' && i > 0)
      && !(s[i] == '$' && i + 1 < |s|)
      && !IsUnsupported(s[i])
      && !(IsRepeat(s[i]) && !prevRepeatable)
      && NoErrorFrom(s, i + 1, !(s[i] in {'^', '$'} || IsRepeat(s[i])))
  }

  // One atom with its optional repeat mark takes the loop one or two steps.
  lemma NoErrorStep(s: CString, i: nat, prev: bool)
    requires i < |s| && s[i..] != "$"
    requires IsRepeat(s[i]) ==> !prev
    requires i == 0 ==> s[0] != '^'
    ensures NoErrorFrom(s, i, prev) <==>
            match ParseToken(s[i..])
            case None => false
            case Some(h) => NoErrorFrom(s, i + h.length, h.token.repeat.Once?)
  {
    var t := s[i..];
    assert forall k | 0 <= k < |t| :: t[k] == s[i + k];
    assert s[i] == '$' ==> i + 1 < |s|;
    if s[i] == '\\' {
      assert i + 1 < |s| ==> s[i + 1] == t[1];
    } else if WellFormedAtom(false, s[i]) {
      assert NoErrorFrom(s, i, prev) == NoErrorFrom(s, i + 1, true);
    }
  }

  // Past the first character the remembered bit only matters when the next
  // character is a repeat mark.
  lemma {:induction false} NoErrorIffTail(s: CString, i: nat, prev: bool)
    requires i <= |s|
    requires i < |s| && IsRepeat(s[i]) ==> !prev
    requires i == 0 && |s| > 0 ==> s[0] != '^'
    ensures NoErrorFrom(s, i, prev) <==> ParseTail(s[i..]).Some?
    decreases |s| - i
  {
    var t := s[i..];
    if i < |s| && t != "$" {
      hide NoErrorFrom, ParseTail, ParseToken;
      NoErrorStep(s, i, prev);
      TailAfterToken(t);
      if ParseToken(t).Some? {
        var h := ParseToken(t).value;
        MarkAfterToken(t);
        assert t[h.length..] == s[i + h.length..];
        NoErrorIffTail(s, i + h.length, h.token.repeat.Once?);
      }
    }
  }

  lemma TailAfterToken(s: string)
    requires s != "" && s != "$"
    ensures ParseTail(s).Some? <==> ParseToken(s).Some? && ParseTail(s[ParseToken(s).value.length..]).Some?
  {
    hide ParseToken;
  }

  lemma NoErrorIffInGrammar(s: CString)
    ensures NoErrorFrom(s, 0, false) <==> InGrammar(s)
  {
    InGrammarIffParses(s);
    if s != "" && s[0] == '^' {
      NoErrorIffTail(s, 1, false);
    } else {
      assert s[0..] == s;
      NoErrorIffTail(s, 0, false);
    }
  }

  /** Accepts exactly the grammar; NULL is rejected. */
  method ValidateRegex(regex: Option<CString>) returns (isValid: bool)
    ensures isValid <==> regex.Some? && InGrammar(regex.value)
  {
    if regex.None? {
      return false;
    }
    var s := regex.value;
    NoErrorIffInGrammar(s);
    isValid := true;
    var prevRepeatable := false;
    var i := 0;
    while At(s, i) != '\0'
      invariant 0 <= i <= |s|
      invariant NoErrorFrom(s, 0, false) <==> isValid && NoErrorFrom(s, i, prevRepeatable)
      decreases |s| - i
    {
      if At(s, i) == '\\' {
        i := i + 1;
        if At(s, i) == '\0' {
          return false;
        }
        if !IsValidEscape(At(s, i)) {
          isValid := false;
        }
        prevRepeatable := true;
      } else {
        var ch := At(s, i);
        if ch == '^' && i > 0 {
          isValid := false;
        } else if ch == '$' && At(s, i + 1) != '\0' {
          isValid := false;
        } else if IsUnsupported(ch) {
          isValid := false;
        } else if IsRepeat(ch) && !prevRepeatable {
          isValid := false;
        }
        prevRepeatable := !(ch in {'^', '$'} || IsRepeat(ch));
      }
      i := i + 1;
    }
  }

  // ---------------------------------------------------------------------
  // Meaning: the set of strings a pattern stands for
  // ---------------------------------------------------------------------

  predicate CountAllowed(r: Repeat, n: nat) {
    match r
    case Once => n == 1
    case Optional => n <= 1
    case Star => true
    case Plus => n >= 1
  }

  ghost predicate TokenDenotes(t: Token, w: string) {
    CountAllowed(t.repeat, |w|) && forall ch | ch in w :: AtomMatchesChar(t.escaped, t.c, ch)
  }

  /** w lies in the concatenation of the tokens' languages. */
  ghost predicate Denotes(tokens: seq<Token>, w: string)
    decreases |tokens|
  {
    if tokens == [] then w == ""
    else exists k | 0 <= k <= |w| :: TokenDenotes(tokens[0], w[..k]) && Denotes(tokens[1..], w[k..])
  }

  /** Some prefix of s is in the language; with $ it has to be all of s. */
  ghost predicate MatchesPrefix(t: Tail, s: string) {
    exists k | 0 <= k <= |s| :: Denotes(t.tokens, s[..k]) && (t.dollar ==> k == |s|)
  }

  /** Some substring of s is in the language, under the anchors. */
  ghost predicate MatchesSomewhere(r: Regex, s: string) {
    exists i, k | 0 <= i <= k <= |s| ::
      Denotes(r.tail.tokens, s[i..k]) && (r.caret ==> i == 0) && (r.tail.dollar ==> k == |s|)
  }

  // Peeling off the first token leaves a prefix match of the remaining tail.
  lemma MatchesPrefixStep(t: Tail, s: string)
    requires t.tokens != []
    ensures MatchesPrefix(t, s) <==>
            exists k | 0 <= k <= |s| ::
              TokenDenotes(t.tokens[0], s[..k]) && MatchesPrefix(Tail(t.tokens[1..], t.dollar), s[k..])
  {
    hide TokenDenotes, MatchesPrefix;
    var rest := Tail(t.tokens[1..], t.dollar);
    if MatchesPrefix(t, s) {
      var k := PeelToken(t, s);
      assert TokenDenotes(t.tokens[0], s[..k]) && MatchesPrefix(rest, s[k..]);
    }
    if k :| 0 <= k <= |s| && TokenDenotes(t.tokens[0], s[..k]) && MatchesPrefix(rest, s[k..]) {
      PrependToken(t, s, k);
    }
  }

  lemma PeelToken(t: Tail, s: string) returns (k: nat)
    requires t.tokens != [] && MatchesPrefix(t, s)
    ensures k <= |s| && TokenDenotes(t.tokens[0], s[..k]) && MatchesPrefix(Tail(t.tokens[1..], t.dollar), s[k..])
  {
    hide TokenDenotes;
    var n :| 0 <= n <= |s| && Denotes(t.tokens, s[..n]) && (t.dollar ==> n == |s|);
    k :| 0 <= k <= n && TokenDenotes(t.tokens[0], s[..n][..k]) && Denotes(t.tokens[1..], s[..n][k..]);
    assert s[..n][..k] == s[..k] && s[..n][k..] == s[k..][..n - k];
  }

  lemma PrependToken(t: Tail, s: string, k: nat)
    requires t.tokens != [] && k <= |s|
    requires TokenDenotes(t.tokens[0], s[..k]) && MatchesPrefix(Tail(t.tokens[1..], t.dollar), s[k..])
    ensures MatchesPrefix(t, s)
  {
    hide TokenDenotes;
    var n :| 0 <= n <= |s| - k && Denotes(t.tokens[1..], s[k..][..n]) && (t.dollar ==> n == |s| - k);
    assert s[..k + n][..k] == s[..k] && s[..k + n][k..] == s[k..][..n];
    assert Denotes(t.tokens, s[..k + n]);
  }

  lemma MatchesSomewhereIff(r: Regex, s: string)
    ensures MatchesSomewhere(r, s) <==>
            exists i | 0 <= i <= |s| :: (r.caret ==> i == 0) && MatchesPrefix(r.tail, s[i..])
  {
    if MatchesSomewhere(r, s) {
      var i, k :| 0 <= i <= k <= |s| && Denotes(r.tail.tokens, s[i..k]) &&
        (r.caret ==> i == 0) && (r.tail.dollar ==> k == |s|);
      assert s[i..k] == s[i..][..k - i];
      assert MatchesPrefix(r.tail, s[i..]);
    }
    if i :| 0 <= i <= |s| && (r.caret ==> i == 0) && MatchesPrefix(r.tail, s[i..]) {
      var n :| 0 <= n <= |s| - i && Denotes(r.tail.tokens, s[i..][..n]) && (r.tail.dollar ==> n == |s| - i);
      assert s[i..][..n] == s[i..i + n];
    }
  }

  // ---------------------------------------------------------------------
  // The matcher
  // ---------------------------------------------------------------------

  const SIZE_MAX: nat := 0xFFFF_FFFF_FFFF_FFFF

  /** Decides whether a repeated atom followed by regex matches a prefix. */
  method MatchRepetitionAndRegexAtHead(escaped: bool, c: char, repeat: char, regex: CString, str: CString)
    returns (matched: bool)
    requires IsRepeat(repeat)
    requires InGrammar(regex) && (regex != "" ==> regex[0] != '^')
    requires |str| < SIZE_MAX
    ensures ParseTail(regex).Some?
    ensures matched <==>
            var rest := ParseTail(regex).value;
            MatchesPrefix(Tail([Token(escaped, c, RepeatOf(repeat))] + rest.tokens, rest.dollar), str)
    decreases |regex|, 1
  {
    hide InGrammar;
    TailIffAcceptedWithoutCaret(regex);
    ghost var rest := ParseTail(regex).value;
    ghost var t := Token(escaped, c, RepeatOf(repeat));
    ghost var whole := Tail([t] + rest.tokens, rest.dollar);
    assert whole.tokens[1..] == rest.tokens;
    MatchesPrefixStep(whole, str);
    var minCount := if repeat == '+' then 1 else 0;
    var maxCount := if repeat == '?' then 1 else SIZE_MAX - 1;
    var i := 0;
    while i <= maxCount
      invariant 0 <= i <= |str|
      invariant i <= maxCount + 1
      invariant forall ch | ch in str[..i] :: AtomMatchesChar(escaped, c, ch)
      invariant forall k | minCount <= k < i :: !MatchesPrefix(rest, str[k..])
    {
      if i >= minCount {
        var tailMatched := MatchRegexAtHead(regex, str[i..]);
        if tailMatched {
          assert TokenDenotes(t, str[..i]);
          return true;
        }
      }
      if At(str, i) == '\0' || !AtomMatchesChar(escaped, c, At(str, i)) {
        assert forall k | i < k <= |str| :: str[i] in str[..k];
        return false;
      }
      i := i + 1;
    }
    return false;
  }

  /** Decides whether regex matches a prefix of str; terminates because the
      pattern gets shorter. */
  method MatchRegexAtHead(regex: CString, str: CString) returns (matched: bool)
    requires InGrammar(regex) && (regex != "" ==> regex[0] != '^')
    requires |str| < SIZE_MAX
    ensures ParseTail(regex).Some?
    ensures matched <==> MatchesPrefix(ParseTail(regex).value, str)
    decreases |regex|, 0
  {
    hide InGrammar;
    TailIffAcceptedWithoutCaret(regex);
    ghost var tail := ParseTail(regex).value;
    if At(regex, 0) == '\0' {
      assert Denotes([], str[..0]);
      return true;
    }
    if At(regex, 0) == '$' {
      assert regex == "$";
      assert str == str[..|str|];
      return At(str, 0) == '\0';
    }
    var escaped := At(regex, 0) == '\\';
    var regex' := if escaped then regex[1..] else regex;
    if IsRepeat(At(regex', 1)) {
      assert regex'[2..] == regex[if escaped then 3 else 2..];
      TailIffAcceptedWithoutCaret(regex'[2..]);
      matched := MatchRepetitionAndRegexAtHead(escaped, At(regex', 0), At(regex', 1), regex'[2..], str);
    } else {
      ghost var t := Token(escaped, regex'[0], Once);
      assert regex'[1..] == regex[if escaped then 2 else 1..];
      assert tail.tokens[0] == t && tail.tokens[1..] == ParseTail(regex'[1..]).value.tokens;
      MatchesPrefixStep(tail, str);
      assert forall k | 0 <= k <= |str| && TokenDenotes(t, str[..k]) :: k == 1 && str[0] in str[..k];
      if At(str, 0) == '\0' || !AtomMatchesChar(escaped, At(regex', 0), At(str, 0)) {
        return false;
      }
      assert TokenDenotes(t, str[..1]);
      TailIffAcceptedWithoutCaret(regex'[1..]);
      matched := MatchRegexAtHead(regex'[1..], str[1..]);
    }
  }

  // Behind an optional ^, an accepted pattern is its tail, accepted without one.
  lemma TailOfRegex(s: string)
    requires ParseRegex(s).Some?
    ensures var r := ParseRegex(s).value; var tail := if r.caret then s[1..] else s;
            && (r.caret <==> s != "" && s[0] == '^')
            && ParseTail(tail) == Some(r.tail) && InGrammar(tail) && (tail != "" ==> tail[0] != '^')
  {
    hide ParseTail, InGrammar;
    TailIffAcceptedWithoutCaret(if s != "" && s[0] == '^' then s[1..] else s);
  }

  /** Decides whether regex matches any substring of str. */
  method MatchRegexAnywhere(regex: Option<CString>, str: Option<CString>) returns (matched: bool)
    requires regex.Some? ==> ParseRegex(regex.value).Some?
    requires str.Some? ==> |str.value| < SIZE_MAX
    ensures matched <==> regex.Some? && str.Some? && MatchesSomewhere(ParseRegex(regex.value).value, str.value)
  {
    if regex.None? || str.None? {
      return false;
    }
    hide MatchesPrefix, MatchesSomewhere, InGrammar, ParseTail, ParseRegex;
    var re, s := regex.value, str.value;
    ghost var r := ParseRegex(re).value;
    TailOfRegex(re);
    if At(re, 0) == '^' {
      AnchoredIff(r, s);
      matched := MatchRegexAtHead(re[1..], s);
    } else {
      MatchesSomewhereIff(r, s);
      matched := Search(re, s);
    }
  }

  // The loop for a regex without ^.
  method Search(regex: CString, str: CString) returns (matched: bool)
    requires InGrammar(regex) && (regex != "" ==> regex[0] != '^')
    requires |str| < SIZE_MAX
    ensures ParseTail(regex).Some?
    ensures matched <==> exists i | 0 <= i <= |str| :: MatchesPrefix(ParseTail(regex).value, str[i..])
  {
    TailIffAcceptedWithoutCaret(regex);
    hide MatchesPrefix, InGrammar, ParseTail;
    ghost var tail := ParseTail(regex).value;
    var i := 0;
    while true
      invariant 0 <= i <= |str|
      invariant forall j | 0 <= j < i :: !MatchesPrefix(tail, str[j..])
      decreases |str| - i
    {
      matched := MatchRegexAtHead(regex, str[i..]);
      if matched || At(str, i) == '\0' {
        return;
      }
      i := i + 1;
    }
  }

  lemma AnchoredIff(r: Regex, s: string)
    requires r.caret
    ensures MatchesSomewhere(r, s) <==> MatchesPrefix(r.tail, s)
  {
    hide MatchesPrefix, MatchesSomewhere;
    MatchesSomewhereIff(r, s);
    assert s[0..] == s;
  }

  // ---------------------------------------------------------------------
  // Full and partial matching
  // ---------------------------------------------------------------------

  /** The last token is the escape \$, with no anchor after it. */
  predicate EndsInEscapedDollar(r: Regex) {
    var n := |r.tail.tokens|;
    !r.tail.dollar && n > 0 && r.tail.tokens[n - 1] == Token(true, '$', Once)
  }

  /** The pattern Init derives for a full match. */
  function FullPattern(s: string): string {
    (if s != "" && s[0] == '^' then "" else "^") + s + (if s != "" && s[|s| - 1] == '$' then "" else "$")
  }

  lemma TokenLastByte(t: Token)
    requires WellFormedToken(t)
    ensures RenderToken(t)[|RenderToken(t)| - 1] == '$' <==> t == Token(true, '$', Once)
  {
  }

  lemma {:induction false} LastByteIsDollar(t: Tail)
    requires WellFormed(t.tokens)
    ensures RenderTail(t) != "" && RenderTail(t)[|RenderTail(t)| - 1] == '$' <==>
            t.dollar || EndsInEscapedDollar(Regex(false, t))
    decreases |t.tokens|
  {
    if t.tokens != [] {
      var h, rest := t.tokens[0], Tail(t.tokens[1..], t.dollar);
      LastByteIsDollar(rest);
      TokenLastByte(h);
      RenderTailHead(rest);
      if rest.tokens != [] {
        assert rest.tokens[|rest.tokens| - 1] == t.tokens[|t.tokens| - 1];
      }
    }
  }

  lemma {:induction false} RenderTailAnchor(t: Tail)
    requires !t.dollar
    ensures RenderTail(Tail(t.tokens, true)) == RenderTail(t) + "$"
    decreases |t.tokens|
  {
    if t.tokens != [] {
      RenderTailAnchor(Tail(t.tokens[1..], false));
    }
  }

  // The two bytes Init looks at tell which anchors the pattern carries.
  lemma EndBytes(s: string, r: Regex)
    requires ParseRegex(s) == Some(r)
    ensures WellFormed(r.tail.tokens) && s == Render(r)
    ensures s != "" && s[0] == '^' <==> r.caret
    ensures s != "" && s[|s| - 1] == '$' <==> r.tail.dollar || EndsInEscapedDollar(r)
  {
    ParseIffRender(s, r);
    var tail := RenderTail(r.tail);
    LastByteIsDollar(r.tail);
    RenderTailHead(r.tail);
    assert tail != "" ==> s[|s| - 1] == tail[|tail| - 1];
  }

  lemma AnchoredTail(r: Regex)
    ensures RenderTail(Tail(r.tail.tokens, !EndsInEscapedDollar(r))) ==
            RenderTail(r.tail) + (if r.tail.dollar || EndsInEscapedDollar(r) then "" else "$")
  {
    if !r.tail.dollar {
      RenderTailAnchor(r.tail);
    }
  }

  /** The pattern Init derives, as a Regex. */
  function FullRegex(r: Regex): Regex {
    Regex(true, Tail(r.tail.tokens, !EndsInEscapedDollar(r)))
  }

  lemma FullPatternGlue(s: string, caret: bool, tail: string, anchored: bool)
    requires s == (if caret then "^" else "") + tail
    requires s != "" && s[0] == '^' <==> caret
    requires s != "" && s[|s| - 1] == '$' <==> anchored
    ensures FullPattern(s) == "^" + (tail + (if anchored then "" else "$"))
  {
  }

  lemma FullPatternText(s: string, r: Regex)
    requires ParseRegex(s) == Some(r)
    ensures WellFormed(r.tail.tokens) && FullPattern(s) == Render(FullRegex(r))
  {
    EndBytes(s, r);
    AnchoredTail(r);
    FullPatternGlue(s, r.caret, RenderTail(r.tail), r.tail.dollar || EndsInEscapedDollar(r));
  }

  /** The derived pattern is accepted, keeps the tokens, is anchored at the
      start, and is anchored at the end unless the pattern ends in \$. */
  lemma FullPatternAccepted(s: CString)
    requires ParseRegex(s).Some?
    ensures ParseRegex(FullPattern(s)) == Some(FullRegex(ParseRegex(s).value))
    ensures '\0' !in FullPattern(s) && |FullPattern(s)| + 1 <= |s| + 3
  {
    var r := ParseRegex(s).value;
    FullPatternText(s, r);
    ParseIffRender(FullPattern(s), FullRegex(r));
  }

  /** What a full match computes: the whole string has to be in the language,
      except that after a final \$ the end is not checked. */
  ghost predicate FullMatches(r: Regex, s: string) {
    if EndsInEscapedDollar(r) then MatchesPrefix(r.tail, s) else Denotes(r.tail.tokens, s)
  }

  lemma FullMatchesIff(r: Regex, s: string)
    ensures FullMatches(r, s) <==>
            MatchesSomewhere(FullRegex(r), s)
  {
    assert s[0..|s|] == s;
    assert forall k | 0 <= k <= |s| :: s[0..k] == s[..k];
  }

  /** A full match is always a partial match. */
  lemma FullImpliesPartial(r: Regex, s: string)
    requires FullMatches(r, s)
    ensures MatchesSomewhere(r, s)
  {
    if EndsInEscapedDollar(r) {
      var k :| 0 <= k <= |s| && Denotes(r.tail.tokens, s[..k]);
      assert s[0..k] == s[..k];
    } else {
      assert s[0..|s|] == s;
    }
  }

  // Every accepted token stands for at least one string.
  lemma TokenInhabited(t: Token) returns (w: CString)
    requires WellFormedAtom(t.escaped, t.c)
    ensures TokenDenotes(t, w)
  {
    var ch := if !t.escaped then (if t.c == '.' then 'a' else t.c) else
      match t.c
      case 'd' => '0'
      case 'D' => 'a'
      case 'f' => '\U{000C}'
      case 'n' => '\n'
      case 'r' => '\r'
      case 's' => ' '
      case 'S' => 'a'
      case 't' => '\t'
      case 'v' => '\U{000B}'
      case 'w' => 'a'
      case 'W' => ' '
      case other => other;
    w := [ch];
  }

  lemma {:induction false} Inhabited(tokens: seq<Token>) returns (w: CString)
    requires WellFormed(tokens)
    ensures Denotes(tokens, w)
    decreases |tokens|
  {
    if tokens == [] {
      w := "";
    } else {
      assert WellFormedToken(tokens[0]);
      var head := TokenInhabited(tokens[0]);
      var rest := Inhabited(tokens[1..]);
      w := head + rest;
      assert w[..|head|] == head && w[|head|..] == rest;
    }
  }

  lemma {:induction false} LastCharIsDollar(tokens: seq<Token>, w: string)
    requires tokens != [] && tokens[|tokens| - 1] == Token(true, '$', Once)
    requires Denotes(tokens, w)
    ensures w != "" && w[|w| - 1] == '$'
    decreases |tokens|
  {
    hide TokenDenotes;
    var k :| 0 <= k <= |w| && TokenDenotes(tokens[0], w[..k]) && Denotes(tokens[1..], w[k..]);
    if |tokens| > 1 {
      LastCharIsDollar(tokens[1..], w[k..]);
    } else {
      EscapedDollarToken(w[..k]);
      assert w[k..] == "";
    }
  }

  lemma EscapedDollarToken(w: string)
    requires TokenDenotes(Token(true, '$', Once), w)
    ensures w == "$"
  {
    assert w[0] in w;
  }

  /** A full match tests the whole string for every subject exactly when the
      pattern does not end in the escape \$. */
  lemma FullMatchExactIff(r: Regex)
    requires WellFormed(r.tail.tokens)
    ensures (forall s: CString :: FullMatches(r, s) <==> Denotes(r.tail.tokens, s)) <==> !EndsInEscapedDollar(r)
  {
    if EndsInEscapedDollar(r) {
      var w := Inhabited(r.tail.tokens);
      var s: CString := w + "a";
      assert s[..|w|] == w;
      assert FullMatches(r, s);
      if Denotes(r.tail.tokens, s) {
        LastCharIsDollar(r.tail.tokens, s);
        assert false;
      }
    }
  }

  /** Such a pattern: the escape of $ fully matches a text that goes on. */
  lemma EscapedDollarMatchesMore()
    ensures var p := ParseRegex("\\$");
            p.Some? && FullMatches(p.value, "$a") && !Denotes(p.value.tail.tokens, "$a")
  {
    var t := Token(true, '$', Once);
    var r := Regex(false, Tail([t], false));
    assert RenderToken(t) == "\\$" && RenderTail(Tail([t][1..], false)) == "";
    assert Render(r) == "\\$";
    ParseIffRender("\\$", r);
    assert TokenDenotes(t, "$") && Denotes([], "");
    assert "$a"[..1] == "$" && "$"[1..] == "";
    assert Denotes([t], "$");
    if Denotes([t], "$a") {
      LastCharIsDollar([t], "$a");
    }
  }

  // ---------------------------------------------------------------------
  // Acceptance, told character by character
  // ---------------------------------------------------------------------

  /** The character at i is a backslash that makes an escape of the next. */
  predicate StartsEscape(s: string, i: nat)
    requires i < |s|
  {
    s[i] == '\\' && !(i > 0 && StartsEscape(s, i - 1))
  }

  predicate IsEscaped(s: string, i: nat)
    requires i < |s|
  {
    i > 0 && StartsEscape(s, i - 1)
  }

  // A repeat mark may stand at i.
  predicate Repeatable(s: string, i: nat)
    requires i <= |s|
  {
    i > 0 && (IsEscaped(s, i - 1) || s[i - 1] !in "^$?*+")
  }

  /** What an accepted pattern may have at i. */
  predicate AllowedAt(s: string, i: nat)
    requires i < |s|
  {
    if StartsEscape(s, i) then
      i + 1 < |s| && s[i + 1] in "^-!\"#$%&'()*+,./:;<=>?@[\\]_`{|}~dDfnrsStvwW"
    else if IsEscaped(s, i) then true
    else
      && s[i] !in "()[]{}|"
      && (s[i] == '^' ==> i == 0)
      && (s[i] == '$' ==> i + 1 == |s|)
      && (s[i] in "?*+" ==> Repeatable(s, i))
  }

  lemma EscapeListed(c: char)
    requires c != '\0'
    ensures IsValidEscape(c) <==> c in "^-!\"#$%&'()*+,./:;<=>?@[\\]_`{|}~dDfnrsStvwW"
  {
    PunctuationListed(c);
    var list, letters := "^-!\"#$%&'()*+,./:;<=>?@[\\]_`{|}~", "dDfnrsStvwW";
    assert list + letters == "^-!\"#$%&'()*+,./:;<=>?@[\\]_`{|}~dDfnrsStvwW";
  }

  // Outside an escape, what the loop checks of one character.
  lemma PlainAllowed(s: CString, i: nat)
    requires i < |s| && s[i] != '\\' && !IsEscaped(s, i)
    ensures AllowedAt(s, i) <==>
            && !(s[i] == '^' && i > 0)
            && !(s[i] == '$' && i + 1 < |s|)
            && !IsUnsupported(s[i])
            && !(IsRepeat(s[i]) && !Repeatable(s, i))
  {
    var brackets, marks := "()[]{}|", "?*+";
    assert IsUnsupported(s[i]) <==> s[i] in brackets;
    assert IsRepeat(s[i]) <==> s[i] in marks;
  }

  lemma SpecialListed(c: char)
    ensures c in {'^', '$'} || IsRepeat(c) <==> c in "^$?*+"
  {
    var special := "^$?*+";
    assert special[0] == '^' && special[1] == '$' && special[2] == '?' && special[3] == '*' && special[4] == '+';
  }

  lemma EscapeAllowed(s: CString, i: nat)
    requires i < |s| && s[i] == '\\' && !IsEscaped(s, i)
    ensures AllowedAt(s, i) <==> i + 1 < |s| && IsValidEscape(s[i + 1])
    ensures i + 1 < |s| ==> IsEscaped(s, i + 1) && !StartsEscape(s, i + 1) && AllowedAt(s, i + 1)
  {
    hide IsValidEscape;
    if i + 1 < |s| {
      EscapeListed(s[i + 1]);
    }
  }

  // One turn of the loop.
  lemma NoErrorAtPlain(s: CString, i: nat)
    requires i < |s| && s[i] != '\\' && !IsEscaped(s, i)
    ensures !StartsEscape(s, i)
    ensures NoErrorFrom(s, i, Repeatable(s, i)) <==> AllowedAt(s, i) && NoErrorFrom(s, i + 1, Repeatable(s, i + 1))
  {
    PlainAllowed(s, i);
    SpecialListed(s[i]);
    hide AllowedAt, IsUnsupported, IsRepeat;
  }

  lemma NoErrorAtEscape(s: CString, i: nat)
    requires i < |s| && s[i] == '\\' && !IsEscaped(s, i)
    ensures i + 1 < |s| ==> !StartsEscape(s, i + 1) && AllowedAt(s, i + 1)
    ensures NoErrorFrom(s, i, Repeatable(s, i)) <==>
            i + 1 < |s| && AllowedAt(s, i) && NoErrorFrom(s, i + 2, Repeatable(s, i + 2))
    ensures i + 1 == |s| ==> !AllowedAt(s, i)
  {
    EscapeAllowed(s, i);
    hide AllowedAt, IsValidEscape;
  }

  // The rest of the loop reports no error, given what it remembers.
  lemma {:induction false} NoErrorIffAllowed(s: CString, i: nat)
    requires i <= |s| && (i > 0 ==> !StartsEscape(s, i - 1))
    ensures NoErrorFrom(s, i, Repeatable(s, i)) <==> forall j | i <= j < |s| :: AllowedAt(s, j)
    decreases |s| - i
  {
    hide AllowedAt, Repeatable, StartsEscape;
    if i < |s| {
      hide NoErrorFrom;
      if s[i] == '\\' {
        NoErrorAtEscape(s, i);
        if i + 1 < |s| {
          NoErrorIffAllowed(s, i + 2);
        }
      } else {
        NoErrorAtPlain(s, i);
        NoErrorIffAllowed(s, i + 1);
      }
    }
  }

  /** A pattern is accepted exactly when every character of it is allowed where
      it stands. */
  lemma AcceptedIffAllowed(s: CString)
    ensures InGrammar(s) <==> forall i | 0 <= i < |s| :: AllowedAt(s, i)
  {
    hide NoErrorFrom, AllowedAt, InGrammar;
    NoErrorIffInGrammar(s);
    NoErrorIffAllowed(s, 0);
  }

  // ---------------------------------------------------------------------
  // Matching, told by the text of the pattern
  // ---------------------------------------------------------------------

  /** What PartialMatch answers for a pattern. */
  ghost predicate PartiallyMatches(pattern: string, s: string) {
    var r := ParseRegex(pattern);
    r.Some? && MatchesSomewhere(r.value, s)
  }

  /** What FullMatch answers for a pattern. */
  ghost predicate FullyMatches(pattern: string, s: string) {
    var r := ParseRegex(pattern);
    r.Some? && FullMatches(r.value, s)
  }

  /** An accepted pattern that neither starts with ^ nor ends in an anchor $. */
  ghost predicate IsBody(p: string) { InGrammar(p) && InGrammar("^" + p + "$") }

  /** All of s is matched by the body. */
  ghost predicate InLanguage(p: string, s: string) { PartiallyMatches("^" + p + "$", s) }

  function TokensOf(p: string): seq<Token> {
    if ParseTail(p).Some? then ParseTail(p).value.tokens else []
  }

  lemma {:induction false} NoSecondDollar(p: string)
    requires ParseTail(p).Some? && ParseTail(p).value.dollar
    ensures ParseTail(p + "$").None?
    decreases |p|
  {
    if p == "$" {
      assert p + "$" == "$$";
      assert ParseToken("$$").None?;
    } else {
      var h, q := ParseToken(p).value, p + "$";
      assert ParseTail(p[h.length..]).Some? && ParseTail(p[h.length..]).value.dollar;
      assert p[h.length..] != "";
      NoSecondDollar(p[h.length..]);
      assert q[h.length..] == p[h.length..] + "$";
      assert ParseToken(q) == Some(h);
    }
  }

  // A body is read with the anchors put around it as with none.
  lemma BodyParses(p: string)
    requires IsBody(p)
    ensures ParseTail(p) == Some(Tail(TokensOf(p), false)) && WellFormed(TokensOf(p))
    ensures RenderTail(Tail(TokensOf(p), false)) == p
    ensures ParseRegex(p) == Some(Regex(false, Tail(TokensOf(p), false)))
    ensures ParseRegex("^" + p) == Some(Regex(true, Tail(TokensOf(p), false)))
    ensures ParseRegex(p + "$") == Some(Regex(false, Tail(TokensOf(p), true)))
    ensures ParseRegex("^" + p + "$") == Some(Regex(true, Tail(TokensOf(p), true)))
  {
    hide ParseTail, InGrammar, RenderTail, WellFormed;
    BodyTail(p);
    ParseTailRender(p);
    RenderTailAnchor(Tail(TokensOf(p), false));
    var plain, anchored := Tail(TokensOf(p), false), Tail(TokensOf(p), true);
    assert "^" + p + "$" == "^" + (p + "$");
    ParseIffRender(p, Regex(false, plain));
    ParseIffRender("^" + p, Regex(true, plain));
    ParseIffRender(p + "$", Regex(false, anchored));
    ParseIffRender("^" + p + "$", Regex(true, anchored));
  }

  lemma BodyTail(p: string)
    requires IsBody(p)
    ensures ParseTail(p) == Some(Tail(TokensOf(p), false))
  {
    hide ParseTail, InGrammar;
    InGrammarIffParses("^" + p + "$");
    assert ("^" + p + "$")[1..] == p + "$";
    TailIffAcceptedWithoutCaret(p + "$");
    assert p != "" ==> (p + "$")[0] == p[0];
    TailIffAcceptedWithoutCaret(p);
    if ParseTail(p).value.dollar {
      NoSecondDollar(p);
    }
  }

  lemma BodyOfTokens(tokens: seq<Token>)
    requires WellFormed(tokens)
    ensures var p := RenderTail(Tail(tokens, false)); IsBody(p) && TokensOf(p) == tokens
  {
    hide ParseTail, InGrammar, RenderTail, WellFormed;
    var p := RenderTail(Tail(tokens, false));
    RenderTailParse(Tail(tokens, false));
    RenderTailHead(Tail(tokens, false));
    RenderTailAnchor(Tail(tokens, false));
    var r := Regex(true, Tail(tokens, true));
    assert Render(r) == "^" + p + "$";
    ParseIffRender("^" + p + "$", r);
    InGrammarIffParses("^" + p + "$");
    TailIffAcceptedWithoutCaret(p);
  }

  lemma LanguageOfTokens(p: string, s: string)
    requires IsBody(p)
    ensures InLanguage(p, s) <==> Denotes(TokensOf(p), s)
  {
    hide ParseRegex, Denotes, IsBody;
    BodyParses(p);
    assert s[0..|s|] == s;
  }

  /** A partial match finds a substring in the language of the body, which
      starts where ^ says and ends where $ says. */
  lemma PartialMatchByText(caret: bool, p: string, dollar: bool, s: string)
    requires IsBody(p)
    ensures PartiallyMatches((if caret then "^" else "") + p + (if dollar then "$" else ""), s) <==>
            exists i, k | 0 <= i <= k <= |s| ::
              InLanguage(p, s[i..k]) && (caret ==> i == 0) && (dollar ==> k == |s|)
  {
    hide ParseRegex, Denotes, IsBody, InLanguage;
    BodyParses(p);
    var pattern := (if caret then "^" else "") + p + (if dollar then "$" else "");
    assert pattern == if caret then if dollar then "^" + p + "$" else "^" + p else if dollar then p + "$" else p;
    forall i, k | 0 <= i <= k <= |s| ensures InLanguage(p, s[i..k]) <==> Denotes(TokensOf(p), s[i..k]) {
      LanguageOfTokens(p, s[i..k]);
    }
  }

  /** With or without anchors, a full match is one of the whole subject; only a
      body that ends in the escape \$ and has no anchor after it is satisfied
      with a prefix. */
  lemma FullMatchByText(caret: bool, p: string, dollar: bool, s: string)
    requires IsBody(p)
    ensures FullyMatches((if caret then "^" else "") + p + (if dollar then "$" else ""), s) <==>
            if !dollar && p != "" && p[|p| - 1] == '$' then exists k | 0 <= k <= |s| :: InLanguage(p, s[..k])
            else InLanguage(p, s)
  {
    hide ParseRegex, Denotes, IsBody, InLanguage, RenderTail;
    BodyParses(p);
    var pattern := (if caret then "^" else "") + p + (if dollar then "$" else "");
    assert pattern == if caret then if dollar then "^" + p + "$" else "^" + p else if dollar then p + "$" else p;
    var r := Regex(caret, Tail(TokensOf(p), dollar));
    assert ParseRegex(pattern) == Some(r);
    LastByteIsDollar(Tail(TokensOf(p), false));
    assert EndsInEscapedDollar(r) <==> !dollar && p != "" && p[|p| - 1] == '$';
    forall k | 0 <= k <= |s| ensures InLanguage(p, s[..k]) <==> Denotes(TokensOf(p), s[..k]) {
      LanguageOfTokens(p, s[..k]);
    }
    assert s[..|s|] == s;
  }

  /** The empty body matches the empty text. */
  lemma EmptyBody(s: string)
    ensures IsBody("") && (InLanguage("", s) <==> s == "")
  {
    BodyOfTokens([]);
    LanguageOfTokens("", s);
  }

  lemma DenotesConcat(a: seq<Token>, b: seq<Token>, s: string)
    ensures Denotes(a + b, s) <==> exists k | 0 <= k <= |s| :: Denotes(a, s[..k]) && Denotes(b, s[k..])
  {
    hide Denotes;
    if Denotes(a + b, s) {
      var k := CutBetween(a, b, s);
    }
    if k :| 0 <= k <= |s| && Denotes(a, s[..k]) && Denotes(b, s[k..]) {
      DenotesBoth(a, b, s, k);
    }
  }

  lemma {:induction false} CutBetween(a: seq<Token>, b: seq<Token>, s: string) returns (k: nat)
    requires Denotes(a + b, s)
    ensures k <= |s| && Denotes(a, s[..k]) && Denotes(b, s[k..])
    decreases |a|
  {
    hide Denotes, TokenDenotes;
    if a == [] {
      assert a + b == b && s[0..] == s;
      k := 0;
      DenotesNothing("");
    } else {
      assert a + b == [a[0]] + (a[1..] + b) && a == [a[0]] + a[1..];
      DenotesCons(a[0], a[1..] + b, s);
      var n :| 0 <= n <= |s| && TokenDenotes(a[0], s[..n]) && Denotes(a[1..] + b, s[n..]);
      var m := CutBetween(a[1..], b, s[n..]);
      k := n + m;
      assert s[..k][..n] == s[..n] && s[..k][n..] == s[n..][..m] && s[n..][m..] == s[k..];
      DenotesCons(a[0], a[1..], s[..k]);
    }
  }

  lemma {:induction false} DenotesBoth(a: seq<Token>, b: seq<Token>, s: string, k: nat)
    requires k <= |s| && Denotes(a, s[..k]) && Denotes(b, s[k..])
    ensures Denotes(a + b, s)
    decreases |a|
  {
    hide Denotes, TokenDenotes;
    if a == [] {
      DenotesNothing(s[..k]);
      assert a + b == b && s[k..] == s;
    } else {
      assert a + b == [a[0]] + (a[1..] + b) && a == [a[0]] + a[1..];
      DenotesCons(a[0], a[1..], s[..k]);
      var n :| 0 <= n <= k && TokenDenotes(a[0], s[..k][..n]) && Denotes(a[1..], s[..k][n..]);
      assert s[..k][..n] == s[..n] && s[..k][n..] == s[n..][..k - n] && s[k..] == s[n..][k - n..];
      DenotesBoth(a[1..], b, s[n..], k - n);
      DenotesCons(a[0], a[1..] + b, s);
    }
  }

  lemma DenotesNothing(s: string)
    ensures Denotes([], s) <==> s == ""
  {
  }

  lemma DenotesCons(t: Token, rest: seq<Token>, s: string)
    ensures Denotes([t] + rest, s) <==> exists k | 0 <= k <= |s| :: TokenDenotes(t, s[..k]) && Denotes(rest, s[k..])
  {
    hide TokenDenotes;
    assert ([t] + rest)[1..] == rest;
  }

  lemma {:induction false} RenderTailConcat(a: seq<Token>, b: seq<Token>)
    ensures RenderTail(Tail(a + b, false)) == RenderTail(Tail(a, false)) + RenderTail(Tail(b, false))
    decreases |a|
  {
    hide RenderToken;
    if a == [] {
      assert a + b == b;
    } else {
      RenderTailConcat(a[1..], b);
      assert (a + b)[1..] == a[1..] + b;
    }
  }

  /** Bodies one after the other match texts one after the other. */
  lemma ConcatByText(p: string, q: string, s: string)
    requires IsBody(p) && IsBody(q)
    ensures IsBody(p + q)
    ensures InLanguage(p + q, s) <==> exists k | 0 <= k <= |s| :: InLanguage(p, s[..k]) && InLanguage(q, s[k..])
  {
    hide ParseTail, Denotes, IsBody, InLanguage, RenderTail, WellFormedToken, TokensOf;
    BodyParses(p);
    BodyParses(q);
    var a, b := TokensOf(p), TokensOf(q);
    RenderTailConcat(a, b);
    BodyOfTokens(a + b);
    LanguageOfTokens(p + q, s);
    DenotesConcat(a, b, s);
    forall k | 0 <= k <= |s|
      ensures InLanguage(p, s[..k]) <==> Denotes(a, s[..k])
      ensures InLanguage(q, s[k..]) <==> Denotes(b, s[k..])
    {
      LanguageOfTokens(p, s[..k]);
      LanguageOfTokens(q, s[k..]);
    }
  }

  lemma DenotesOne(t: Token, s: string)
    ensures Denotes([t], s) <==> TokenDenotes(t, s)
  {
    hide TokenDenotes;
    DenotesCons(t, [], s);
    assert s[..|s|] == s;
    assert forall k | 0 <= k <= |s| && Denotes([], s[k..]) :: k == |s|;
  }

  // The token of an atom without a repeat mark, and its text with one.
  lemma AtomToken(atom: string, repeat: Repeat)
    requires IsBody(atom) && (|atom| == 1 || (|atom| == 2 && atom[0] == '\\'))
    ensures var escaped, c := |atom| == 2, atom[|atom| - 1];
            && TokensOf(atom) == [Token(escaped, c, Once)]
            && IsBody(atom + RenderRepeat(repeat))
            && TokensOf(atom + RenderRepeat(repeat)) == [Token(escaped, c, repeat)]
  {
    hide IsBody, TokensOf;
    var escaped, c := |atom| == 2, atom[|atom| - 1];
    AtomWellFormed(atom);
    OneTokenBody(Token(escaped, c, Once));
    OneTokenBody(Token(escaped, c, repeat));
    assert RenderToken(Token(escaped, c, Once)) == atom;
    assert RenderToken(Token(escaped, c, repeat)) == atom + RenderRepeat(repeat);
  }

  lemma AtomWellFormed(atom: string)
    requires IsBody(atom) && (|atom| == 1 || (|atom| == 2 && atom[0] == '\\'))
    ensures WellFormedAtom(|atom| == 2, atom[|atom| - 1])
  {
    hide IsBody, WellFormedAtom;
    BodyTail(atom);
    assert ParseToken(atom).Some?;
  }

  lemma OneTokenBody(t: Token)
    requires WellFormedToken(t)
    ensures IsBody(RenderToken(t)) && TokensOf(RenderToken(t)) == [t]
  {
    hide IsBody, TokensOf;
    BodyOfTokens([t]);
    assert RenderTail(Tail([t][1..], false)) == "";
    assert RenderTail(Tail([t], false)) == RenderToken(t);
  }

  /** An atom matches one character; under ? at most one, under + at least one
      and under * any number of the characters it matches. */
  lemma RepeatByText(atom: string, mark: string, s: string)
    requires IsBody(atom) && (|atom| == 1 || (|atom| == 2 && atom[0] == '\\'))
    requires mark in {"", "?", "*", "+"}
    ensures IsBody(atom + mark)
    ensures InLanguage(atom + mark, s) <==>
            && (mark == "" ==> |s| == 1) && (mark == "?" ==> |s| <= 1) && (mark == "+" ==> |s| >= 1)
            && forall i | 0 <= i < |s| :: InLanguage(atom, [s[i]])
  {
    hide IsBody, InLanguage, TokensOf;
    var repeat := if mark == "" then Once else RepeatOf(mark[0]);
    assert RenderRepeat(repeat) == mark;
    AtomToken(atom, repeat);
    var one, many := TokensOf(atom)[0], TokensOf(atom + mark)[0];
    LanguageOfTokens(atom + mark, s);
    DenotesOne(many, s);
    hide Denotes;
    forall i | 0 <= i < |s|
      ensures InLanguage(atom, [s[i]]) <==> AtomMatchesChar(many.escaped, many.c, s[i])
    {
      LanguageOfTokens(atom, [s[i]]);
      DenotesOne(one, [s[i]]);
    }
    assert forall ch | ch in s :: exists i | 0 <= i < |s| :: s[i] == ch;
  }

  /** The pattern matches the one-character subject ch, fully as well as
      partially, exactly if yes. */
  ghost predicate Tells(pattern: string, ch: char, yes: bool) {
    && (PartiallyMatches(pattern, [ch]) <==> yes)
    && (FullyMatches(pattern, [ch]) <==> yes)
    && (InLanguage(pattern, [ch]) <==> yes)
  }

  // One character against the pattern of one atom.
  lemma AtomTells(escaped: bool, c: char, ch: char)
    requires WellFormedAtom(escaped, c)
    ensures var atom := if escaped then ['\\', c] else [c];
            IsBody(atom) && Tells(atom, ch, AtomMatchesChar(escaped, c, ch))
  {
    hide IsBody, InLanguage, TokensOf, PartiallyMatches, FullyMatches, AtomMatchesChar;
    var t := Token(escaped, c, Once);
    var atom := if escaped then ['\\', c] else [c];
    assert atom == RenderToken(t);
    OneTokenBody(t);
    LanguageOfTokens(atom, [ch]);
    DenotesOne(t, [ch]);
    assert TokenDenotes(t, [ch]) <==> AtomMatchesChar(escaped, c, ch);
    hide TokenDenotes;
    LanguageOfTokens(atom, "");
    DenotesOne(t, "");
    assert !InLanguage(atom, "") by { assert !TokenDenotes(t, ""); }
    PartialMatchByText(false, atom, false, [ch]);
    FullMatchByText(false, atom, false, [ch]);
    assert "" + atom + "" == atom;
    assert [ch][0..1] == [ch] && [ch][0..0] == "" && [ch][1..1] == "" && [ch][..0] == "" && [ch][..1] == [ch];
  }

  /** The escapes with a meaning of their own. */
  lemma EscapesByText(ch: char)
    ensures Tells("\\d", ch, '0' <= ch <= '9')
    ensures Tells("\\D", ch, !('0' <= ch <= '9'))
    ensures Tells("\\f", ch, ch as int == 0x0C)
    ensures Tells("\\n", ch, ch as int == 0x0A)
    ensures Tells("\\r", ch, ch as int == 0x0D)
    ensures Tells("\\s", ch, ch == ' ' || 0x09 <= ch as int <= 0x0D)
    ensures Tells("\\S", ch, !(ch == ' ' || 0x09 <= ch as int <= 0x0D))
    ensures Tells("\\t", ch, ch as int == 0x09)
    ensures Tells("\\v", ch, ch as int == 0x0B)
    ensures Tells("\\w", ch, 'a' <= ch <= 'z' || 'A' <= ch <= 'Z' || '0' <= ch <= '9' || ch == '_')
    ensures Tells("\\W", ch, !('a' <= ch <= 'z' || 'A' <= ch <= 'Z' || '0' <= ch <= '9' || ch == '_'))
  {
    hide Tells, IsBody;
    AtomTells(true, 'd', ch);
    AtomTells(true, 'D', ch);
    AtomTells(true, 'f', ch);
    AtomTells(true, 'n', ch);
    AtomTells(true, 'r', ch);
    AtomTells(true, 's', ch);
    AtomTells(true, 'S', ch);
    AtomTells(true, 't', ch);
    AtomTells(true, 'v', ch);
    AtomTells(true, 'w', ch);
    AtomTells(true, 'W', ch);
  }

  /** An escaped punctuation mark stands for itself, a dot for any character but
      a newline, and any other character without a role for itself. */
  lemma CharactersByText(c: char, ch: char)
    ensures c in "^-!\"#$%&'()*+,./:;<=>?@[\\]_`{|}~" ==> IsBody(['\\', c]) && Tells(['\\', c], ch, ch == c)
    ensures IsBody(".") && Tells(".", ch, ch != '\n')
    ensures c !in "\0\\^$.?*+()[]{}|" ==> IsBody([c]) && Tells([c], ch, ch == c)
  {
    hide Tells, IsBody, AtomMatchesChar, WellFormedAtom, IsAsciiPunct;
    PunctuationListed(c);
    if IsAsciiPunct(c) {
      MarkStandsForItself(c, ch);
      AtomTells(true, c, ch);
    }
    DotStandsFor(ch);
    AtomTells(false, '.', ch);
    if c !in "\0\\^$.?*+()[]{}|" {
      RolesListed(c);
      PlainStandsForItself(c, ch);
      AtomTells(false, c, ch);
    }
  }

  lemma MarkStandsForItself(c: char, ch: char)
    requires IsAsciiPunct(c)
    ensures WellFormedAtom(true, c) && (AtomMatchesChar(true, c, ch) <==> ch == c) && c != '\0'
  {
  }

  lemma DotStandsFor(ch: char)
    ensures WellFormedAtom(false, '.') && (AtomMatchesChar(false, '.', ch) <==> ch != '\n')
  {
  }

  lemma PlainStandsForItself(c: char, ch: char)
    requires c != '.'
    ensures AtomMatchesChar(false, c, ch) <==> ch == c
  {
  }

  lemma RolesListed(c: char)
    requires c !in "\0\\^$.?*+()[]{}|"
    ensures WellFormedAtom(false, c) && c != '.'
  {
    var special := "\0\\^$.?*+()[]{}|";
    assert special[0] == '\0' && special[1] == '\\' && special[2] == '^' && special[3] == '$' && special[4] == '.';
    assert special[5] == '?' && special[6] == '*' && special[7] == '+' && special[8] == '(' && special[9] == ')';
    assert special[10] == '[' && special[11] == ']' && special[12] == '{' && special[13] == '}' && special[14] == '|';
  }

  // memcpy of a whole string into a block at an offset.
  method CopyInto(block: array<char>, at: nat, s: string)
    requires at + |s| <= block.Length
    modifies block
    ensures block[..] == old(block[..at]) + s + old(block[at + |s|..])
  {
    forall k | 0 <= k < |s| {
      block[at + k] := s[k];
    }
  }

  /** The part of Init that writes the full pattern through a moving pointer;
      every write stays inside the len + 3 characters allocated. */
  method BuildFullPattern(regex: CString) returns (block: array<char>)
    ensures fresh(block) && block.Length == |regex| + 3
    ensures '\0' in block[..] && StringIn(block[..]) == FullPattern(regex)
  {
    hide FullPattern;
    FullPatternParts(regex);
    var len := |regex|;
    block := new char[len + 3](_ => ' ');
    var buffer := 0;
    if At(regex, 0) != '^' {
      block[buffer] := '^';
      buffer := buffer + 1;
    }
    ghost var start := block[..buffer];
    CopyInto(block, buffer, regex);
    buffer := buffer + len;
    assert block[..buffer] == start + regex;
    if len == 0 || regex[len - 1] != '$' {
      block[buffer] := '$';
      buffer := buffer + 1;
    }
    assert block[..buffer] == FullPattern(regex);
    block[buffer] := '\0';
    Terminated(block[..], buffer);
  }

  lemma FullPatternParts(s: CString)
    ensures FullPattern(s) ==
            (if At(s, 0) == '^' then "" else "^") + s + (if |s| > 0 && s[|s| - 1] == '$' then "" else "$")
    ensures '\0' !in FullPattern(s)
  {
  }

  lemma Terminated(block: seq<char>, end: nat)
    requires end < |block| && block[end] == '\0' && '\0' !in block[..end]
    ensures '\0' in block && StringIn(block) == block[..end]
  {
    StringInBuffer(block[..end], block[end + 1..]);
    assert block == block[..end] + ['\0'] + block[end + 1..];
  }

  /** The RE class. fullBuffer is the block allocated for the full pattern. */
  class RE {
    var pattern: Option<CString>
    var fullBuffer: array?<char>
    var isValid: bool

    ghost predicate Valid()
      reads this, fullBuffer
    {
      && (isValid <==> pattern.Some? && ParseRegex(pattern.value).Some?)
      && (isValid ==>
            && fullBuffer != null
            && '\0' in fullBuffer[..]
            && StringIn(fullBuffer[..]) == FullPattern(pattern.value))
    }

    constructor Init(regex: Option<CString>)
      ensures Valid() && pattern == regex
      ensures isValid <==> regex.Some? && InGrammar(regex.value)
      ensures isValid ==> fullBuffer != null && fullBuffer.Length == |regex.value| + 3
    {
      pattern, fullBuffer := regex, null;
      isValid := false;
      new;
      isValid := ValidateRegex(regex);
      if !isValid {
        if regex.Some? {
          InGrammarIffParses(regex.value);
        }
        return;
      }
      InGrammarIffParses(regex.value);
      fullBuffer := BuildFullPattern(regex.value);
    }

    /** True exactly when the pattern is valid and all of str matches it, up to
        the missing end anchor after \$. */
    static method FullMatch(str: CString, re: RE) returns (matched: bool)
      requires re.Valid()
      requires |str| < SIZE_MAX
      ensures matched <==> re.pattern.Some? && FullyMatches(re.pattern.value, str)
    {
      if !re.isValid {
        return false;
      }
      FullPatternAccepted(re.pattern.value);
      FullMatchesIff(ParseRegex(re.pattern.value).value, str);
      matched := MatchRegexAnywhere(Some(StringIn(re.fullBuffer[..])), Some(str));
    }

    /** True exactly when the pattern is valid and some substring matches. */
    static method PartialMatch(str: CString, re: RE) returns (matched: bool)
      requires re.Valid()
      requires |str| < SIZE_MAX
      ensures matched <==> re.pattern.Some? && PartiallyMatches(re.pattern.value, str)
    {
      if !re.isValid {
        return false;
      }
      matched := MatchRegexAnywhere(re.pattern, Some(str));
    }
  }
}
