/** The grammar in the documentation of pump.py, as a relation between tokens
    and trees that says nothing about how to parse, and the proof that the
    parser accepts exactly its sentences. */
module PumpGrammar {
  import opened CStrings
  import opened Pump

  // ---------------------------------------------------------------------
  // Sentences: tokens start with the text of a tree, and rest follows it
  // ---------------------------------------------------------------------

  ghost predicate Sentence(tokens: seq<Token>, atoms: seq<Atomic>, rest: seq<Token>)
    decreases atoms, 0
  {
    if atoms == [] then tokens == rest
    else exists mid :: Derives(tokens, atoms[0], mid) && Sentence(mid, atoms[1..], rest)
  }

  ghost predicate Bracketed(tokens: seq<Token>, code: Code, rest: seq<Token>)
    decreases code, 1
  {
    Next(tokens, KOpen) && exists mid :: Sentence(tokens[1..], code.atoms, mid) && Closes(mid, rest)
  }

  predicate Closes(tokens: seq<Token>, rest: seq<Token>) {
    Next(tokens, KClose) && rest == tokens[1..]
  }

  predicate Kinds(tokens: seq<Token>, kinds: seq<Kind>) {
    |kinds| <= |tokens| && forall i | 0 <= i < |kinds| :: tokens[i].kind == kinds[i]
  }

  ghost predicate Derives(tokens: seq<Token>, a: Atomic, rest: seq<Token>)
    decreases a, 1
  {
    match a
    case Raw(text) => Next(tokens, KCode) && tokens[0].value == text && rest == tokens[1..]
    case VarExp(id, exp) =>
      Kinds(tokens, [KVar, KId, KEq, KExp]) && tokens[1].value == id && tokens[3].value == exp && rest == tokens[4..]
    case VarCode(id, code) =>
      Kinds(tokens, [KVar, KId, KEq]) && tokens[1].value == id && Bracketed(tokens[3..], code, rest)
    case For(id, sep, code) =>
      && Kinds(tokens, if sep.Some? then [KFor, KId, KCode] else [KFor, KId]) && tokens[1].value == id
      && (sep.Some? ==> tokens[2].value == sep.value)
      && Bracketed(if sep.Some? then tokens[3..] else tokens[2..], code, rest)
    case If(_, _, _) => Next(tokens, KIf) && Conditional(tokens[1..], a, rest)
    case Range(id, exp1, exp2) =>
      && Kinds(tokens, [KRange, KId, KExp, KDotDot, KExp])
      && tokens[1].value == id && tokens[2].value == exp1 && tokens[4].value == exp2 && rest == tokens[5..]
    case Identifier(name) =>
      && Next(tokens, KDollarId) && rest == tokens[1..]
      && name == (if tokens[0].value == "" then "" else tokens[0].value[1..])
    case Expression(exp) => Kinds(tokens, [KDollar, KExp]) && tokens[1].value == exp && rest == tokens[2..]
    case LiteralDollar => Next(tokens, KLiteralDollar) && rest == tokens[1..]
    case Block(code) => Bracketed(tokens, code, rest)
  }

  // A condition, its branch and the else part.
  ghost predicate Conditional(tokens: seq<Token>, a: Atomic, rest: seq<Token>)
    requires a.If?
    decreases a, 0
  {
    && Next(tokens, KCode) && tokens[0].value == a.exp
    && exists mid :: Bracketed(tokens[1..], a.thenBranch, mid) && ElseBranch(mid, a.elseBranch, rest)
  }

  // Blank code ahead of the else part, or of nothing, belongs to neither.
  ghost predicate ElseBranch(tokens: seq<Token>, other: Option<Code>, rest: seq<Token>)
    decreases other, 1
  {
    exists n :: 0 <= n <= |tokens| && AllBlankCode(tokens[..n]) && ElsePart(tokens[n..], other, rest)
  }

  ghost predicate ElsePart(tokens: seq<Token>, other: Option<Code>, rest: seq<Token>)
    decreases other, 0
  {
    match other
    case None => tokens == rest
    case Some(code) =>
      || (Next(tokens, KElse) && Bracketed(tokens[1..], code, rest))
      || (Next(tokens, KElif) && IsConditional(code) && Conditional(tokens[1..], code.atoms[0], rest))
  }

  predicate BlankCode(t: Token) { t.kind == KCode && IsBlank(t.value) }

  predicate AllBlankCode(tokens: seq<Token>) {
    forall i | 0 <= i < |tokens| :: BlankCode(tokens[i])
  }

  // ---------------------------------------------------------------------
  // What is accepted is a sentence
  // ---------------------------------------------------------------------

  lemma {:induction false} BracketedSound(tokens: seq<Token>)
    ensures var p := ParseBracketed(tokens); p.Ok? ==> Bracketed(tokens, p.node, p.rest)
    decreases |tokens|, 0
  {
    var p := ParseBracketed(tokens);
    if p.Ok? {
      ParserSound(tokens[1..]);
      var mid := ParseCode(tokens[1..]).rest;
      assert Sentence(tokens[1..], p.node.atoms, mid) && Closes(mid, p.rest);
    }
  }

  lemma {:induction false} ElseSound(tokens: seq<Token>)
    ensures var p := ParseElse(tokens); p.Ok? ==> ElseBranch(tokens, p.node, p.rest)
    decreases |tokens|, 1
  {
    var p := ParseElse(tokens);
    if p.Ok? {
      assert tokens[0..] == tokens && AllBlankCode(tokens[..0]);
      if tokens == [] {
        assert ElsePart(tokens[0..], p.node, p.rest);
      } else if tokens[0].kind == KElse {
        BracketedSound(tokens[1..]);
        assert ElsePart(tokens[0..], p.node, p.rest);
      } else if tokens[0].kind == KElif {
        ConditionalSound(tokens[1..]);
        assert ElsePart(tokens[0..], p.node, p.rest);
      } else if IsBlank(tokens[0].value) {
        ElseSound(tokens[1..]);
        BlankAhead(tokens, p.node, p.rest);
      } else {
        assert ElsePart(tokens[0..], p.node, p.rest);
      }
    }
  }

  lemma BlankAhead(tokens: seq<Token>, other: Option<Code>, rest: seq<Token>)
    requires tokens != [] && BlankCode(tokens[0]) && ElseBranch(tokens[1..], other, rest)
    ensures ElseBranch(tokens, other, rest)
  {
    hide ElsePart;
    var n :| 0 <= n <= |tokens[1..]| && AllBlankCode(tokens[1..][..n]) && ElsePart(tokens[1..][n..], other, rest);
    assert tokens[..n + 1] == [tokens[0]] + tokens[1..][..n];
    assert tokens[n + 1..] == tokens[1..][n..];
    assert AllBlankCode(tokens[..n + 1]);
  }

  lemma {:induction false} ConditionalSound(tokens: seq<Token>)
    ensures var p := ParseConditional(tokens); p.Ok? ==> Conditional(tokens, p.node, p.rest)
    decreases |tokens|, 2
  {
    var p := ParseConditional(tokens);
    if p.Ok? {
      BracketedSound(tokens[1..]);
      var mid := ParseBracketed(tokens[1..]).rest;
      ElseSound(mid);
      assert Bracketed(tokens[1..], p.node.thenBranch, mid) && ElseBranch(mid, p.node.elseBranch, p.rest);
    }
  }

  lemma {:induction false} AtomicSound(tokens: seq<Token>)
    requires tokens != []
    ensures var p := ParseAtomic(tokens); p.Node? ==> Derives(tokens, p.atomic, p.rest)
    decreases |tokens|, 3
  {
    hide ParseCode, ParseConditional, ParseBracketed, Bracketed, Conditional;
    var rest := tokens[1..];
    match tokens[0].kind
    case KVar =>
      if |rest| >= 3 {
        BracketedSound(rest[2..]);
        assert rest[2..] == tokens[3..] && rest[3..] == tokens[4..];
      }
    case KFor =>
      if |rest| >= 2 {
        BracketedSound(rest[1..]);
        BracketedSound(rest[2..]);
        assert rest[1..] == tokens[2..] && rest[2..] == tokens[3..];
      }
    case KIf => ConditionalSound(rest);
    case KRange =>
      if |rest| >= 4 {
        assert rest[4..] == tokens[5..];
      }
    case KDollar =>
      if rest != [] {
        assert rest[1..] == tokens[2..];
      }
    case KOpen => BracketedSound(tokens);
    case _ =>
  }

  /** Whatever the parser accepts, it has read a sentence for the tree it
      returns, up to the tokens it leaves. */
  lemma {:induction false} ParserSound(tokens: seq<Token>)
    ensures var p := ParseCode(tokens); p.Ok? ==> Sentence(tokens, p.node.atoms, p.rest)
    decreases |tokens|, 4
  {
    hide Derives, ParseAtomic;
    if tokens != [] {
      AtomicSound(tokens);
      match ParseAtomic(tokens)
      case Error =>
      case Stops =>
      case Node(atomic, rest) =>
        ParserSound(rest);
        var p := ParseCode(rest);
        if p.Ok? {
          assert ([atomic] + p.node.atoms)[1..] == p.node.atoms;
        }
    }
  }

  // ---------------------------------------------------------------------
  // Every sentence is accepted
  // ---------------------------------------------------------------------

  /** What the tokeniser guarantees: only code and expressions can be blank. */
  predicate Tokenized(tokens: seq<Token>) {
    forall i | 0 <= i < |tokens| :: tokens[i].kind in {KCode, KExp} || !IsBlank(tokens[i].value)
  }

  // rest is what is left of tokens after at least n of them.
  predicate Within(rest: seq<Token>, tokens: seq<Token>, n: nat) {
    |rest| + n <= |tokens| && rest == tokens[|tokens| - |rest|..]
  }

  lemma WithinTokenized(rest: seq<Token>, tokens: seq<Token>, n: nat)
    requires Within(rest, tokens, n) && Tokenized(tokens)
    ensures Tokenized(rest)
  {
  }

  lemma WithinDrop(tokens: seq<Token>, k: nat)
    requires k <= |tokens|
    ensures Within(tokens[k..], tokens, k)
  {
  }

  lemma WithinTrans(a: seq<Token>, b: seq<Token>, c: seq<Token>, m: nat, n: nat)
    requires Within(a, b, m) && Within(b, c, n)
    ensures Within(a, c, m + n)
  {
  }

  lemma {:induction false} SentenceWithin(tokens: seq<Token>, atoms: seq<Atomic>, rest: seq<Token>)
    requires Sentence(tokens, atoms, rest)
    ensures Within(rest, tokens, 0)
    decreases atoms, 0
  {
    hide Within, Derives;
    if atoms == [] {
      WithinDrop(tokens, 0);
      assert tokens[0..] == tokens;
    } else {
      var mid :| Derives(tokens, atoms[0], mid) && Sentence(mid, atoms[1..], rest);
      DerivesWithin(tokens, atoms[0], mid);
      SentenceWithin(mid, atoms[1..], rest);
      WithinTrans(rest, mid, tokens, 0, 1);
      WithinWeaken(rest, tokens, 1);
    }
  }

  lemma WithinWeaken(rest: seq<Token>, tokens: seq<Token>, n: nat)
    requires Within(rest, tokens, n)
    ensures Within(rest, tokens, 0) && (n > 0 ==> Within(rest, tokens, 1))
  {
  }

  lemma {:induction false} BracketedWithin(tokens: seq<Token>, code: Code, rest: seq<Token>)
    requires Bracketed(tokens, code, rest)
    ensures Within(rest, tokens, 1)
    decreases code, 1
  {
    hide Within, Sentence;
    var mid :| Sentence(tokens[1..], code.atoms, mid) && Closes(mid, rest);
    SentenceWithin(tokens[1..], code.atoms, mid);
    WithinDrop(mid, 1);
    WithinDrop(tokens, 1);
    WithinTrans(rest, mid, tokens[1..], 1, 0);
    WithinTrans(rest, tokens[1..], tokens, 1, 1);
    WithinWeaken(rest, tokens, 2);
  }

  lemma {:induction false} ConditionalWithin(tokens: seq<Token>, a: Atomic, rest: seq<Token>)
    requires a.If? && Conditional(tokens, a, rest)
    ensures Within(rest, tokens, 1)
    decreases a, 0
  {
    hide Within, Bracketed, ElseBranch;
    var mid :| Bracketed(tokens[1..], a.thenBranch, mid) && ElseBranch(mid, a.elseBranch, rest);
    BracketedWithin(tokens[1..], a.thenBranch, mid);
    ElseWithin(mid, a.elseBranch, rest);
    WithinDrop(tokens, 1);
    WithinTrans(rest, mid, tokens[1..], 0, 1);
    WithinTrans(rest, tokens[1..], tokens, 1, 1);
    WithinWeaken(rest, tokens, 2);
  }

  lemma {:induction false} ElseWithin(tokens: seq<Token>, other: Option<Code>, rest: seq<Token>)
    requires ElseBranch(tokens, other, rest)
    ensures Within(rest, tokens, 0)
    decreases other, 1
  {
    hide Within, Bracketed, Conditional;
    var n :| 0 <= n <= |tokens| && AllBlankCode(tokens[..n]) && ElsePart(tokens[n..], other, rest);
    var part := tokens[n..];
    WithinDrop(tokens, n);
    WithinWeaken(part, tokens, n);
    WithinDrop(part, if part == [] then 0 else 1);
    match other
    case None =>
    case Some(code) =>
      if Next(part, KElse) && Bracketed(part[1..], code, rest) {
        BracketedWithin(part[1..], code, rest);
      } else {
        ConditionalWithin(part[1..], code.atoms[0], rest);
      }
      WithinTrans(rest, part[1..], part, 1, 1);
      WithinTrans(rest, part, tokens, 2, 0);
      WithinWeaken(rest, tokens, 2);
  }

  lemma {:induction false} DerivesWithin(tokens: seq<Token>, a: Atomic, rest: seq<Token>)
    requires Derives(tokens, a, rest)
    ensures Within(rest, tokens, 1)
    decreases a, 1
  {
    hide Within, Bracketed, Conditional, Derives, BodyStart;
    var k := BodyStart(a);
    BodyStartFits(tokens, a, rest);
    WithinDrop(tokens, k);
    if HasBody(a) {
      if a.If? {
        ConditionalWithin(tokens[k..], a, rest);
      } else {
        BracketedWithin(tokens[k..], a.code, rest);
      }
      WithinTrans(rest, tokens[k..], tokens, 1, k);
      WithinWeaken(rest, tokens, k + 1);
    } else {
      WithinWeaken(rest, tokens, k);
    }
  }

  predicate HasBody(a: Atomic) { a.VarCode? || a.For? || a.If? || a.Block? }

  // The number of tokens ahead of the body, or of all tokens without one.
  function BodyStart(a: Atomic): nat {
    match a
    case VarExp(_, _) => 4
    case VarCode(_, _) => 3
    case For(_, sep, _) => if sep.Some? then 3 else 2
    case Range(_, _, _) => 5
    case Expression(_) => 2
    case Block(_) => 0
    case _ => 1
  }

  lemma BodyStartFits(tokens: seq<Token>, a: Atomic, rest: seq<Token>)
    requires Derives(tokens, a, rest)
    ensures var k := BodyStart(a);
            && k <= |tokens|
            && (a.If? ==> Conditional(tokens[k..], a, rest))
            && (HasBody(a) && !a.If? ==> Bracketed(tokens[k..], a.code, rest))
            && (!HasBody(a) ==> k > 0 && rest == tokens[k..])
  {
    hide Bracketed, Conditional;
    assert tokens[0..] == tokens;
  }

  function SkipBlank(tokens: seq<Token>): (rest: seq<Token>)
    ensures |rest| <= |tokens|
  {
    if tokens != [] && BlankCode(tokens[0]) then SkipBlank(tokens[1..]) else tokens
  }

  /** What can follow an $if without an else branch. */
  predicate Follows(tokens: seq<Token>) {
    var next := SkipBlank(tokens);
    next != [] ==> next[0].kind !in {KElse, KElif} && !IsBlank(next[0].value)
  }

  predicate EndsSentence(rest: seq<Token>) {
    rest != [] ==> rest[0].kind == KClose
  }

  lemma DerivesStart(tokens: seq<Token>, a: Atomic, rest: seq<Token>)
    requires Derives(tokens, a, rest)
    ensures tokens != []
    ensures tokens[0].kind in {KCode, KVar, KFor, KIf, KRange, KDollarId, KLiteralDollar, KDollar, KOpen}
    ensures tokens[0].kind == KCode ==> rest == tokens[1..]
  {
    hide Sentence, Conditional;
  }

  // A sentence stays one when the blank code in front is left out.
  lemma {:induction false} SkipInSentence(tokens: seq<Token>, atoms: seq<Atomic>, rest: seq<Token>)
    returns (fewer: seq<Atomic>)
    requires Sentence(tokens, atoms, rest) && EndsSentence(rest) && Tokenized(tokens)
    ensures Follows(tokens) && Sentence(SkipBlank(tokens), fewer, rest)
    decreases |atoms|
  {
    hide Derives;
    fewer := atoms;
    if atoms != [] {
      var mid :| Derives(tokens, atoms[0], mid) && Sentence(mid, atoms[1..], rest);
      DerivesStart(tokens, atoms[0], mid);
      if BlankCode(tokens[0]) {
        fewer := SkipInSentence(mid, atoms[1..], rest);
      }
    }
  }

  lemma {:induction false} ParseElseNothing(tokens: seq<Token>)
    requires Follows(tokens)
    ensures ParseElse(tokens) == Ok(None, SkipBlank(tokens))
    decreases |tokens|
  {
    if tokens != [] && BlankCode(tokens[0]) {
      ParseElseNothing(tokens[1..]);
    }
  }

  lemma {:induction false} BracketedComplete(tokens: seq<Token>, code: Code, rest: seq<Token>)
    requires Bracketed(tokens, code, rest) && Tokenized(tokens)
    ensures var p := ParseBracketed(tokens); p.Ok? && p.rest == rest
    decreases |tokens|, 0
  {
    hide Sentence;
    var mid :| Sentence(tokens[1..], code.atoms, mid) && Closes(mid, rest);
    ParserComplete(tokens[1..], code.atoms, mid);
  }

  // The else part, or the blank code ahead of it.
  lemma ElseCases(tokens: seq<Token>, other: Option<Code>, rest: seq<Token>) returns (blank: bool)
    requires ElseBranch(tokens, other, rest)
    ensures blank ==> tokens != [] && BlankCode(tokens[0]) && ElseBranch(tokens[1..], other, rest)
    ensures !blank ==> ElsePart(tokens, other, rest)
  {
    hide ElsePart;
    var n :| 0 <= n <= |tokens| && AllBlankCode(tokens[..n]) && ElsePart(tokens[n..], other, rest);
    blank := n > 0;
    if blank {
      assert BlankCode(tokens[..n][0]);
      BlankBehind(tokens, n, other, rest);
    } else {
      assert tokens[0..] == tokens;
    }
  }

  lemma {:induction false} ElseComplete(tokens: seq<Token>, other: Option<Code>, rest: seq<Token>)
    requires ElseBranch(tokens, other, rest) && Tokenized(tokens) && Follows(rest)
    ensures var p := ParseElse(tokens); p.Ok? && (p.rest == rest || p.rest == SkipBlank(rest))
    decreases |tokens|, 1
  {
    hide ElseBranch, ElsePart, Follows, SkipBlank, ParseBracketed, ParseConditional, IsBlank, Tokenized;
    var blank := ElseCases(tokens, other, rest);
    if blank {
      TailTokenized(tokens);
      ElseComplete(tokens[1..], other, rest);
    } else {
      ElsePartComplete(tokens, other, rest);
    }
  }

  lemma {:induction false} ElsePartComplete(tokens: seq<Token>, other: Option<Code>, rest: seq<Token>)
    requires ElsePart(tokens, other, rest) && Tokenized(tokens) && Follows(rest)
    ensures var p := ParseElse(tokens); p.Ok? && (p.rest == rest || p.rest == SkipBlank(rest))
    decreases |tokens|, 0
  {
    hide Bracketed, Conditional, ParseBracketed, ParseConditional, Follows, SkipBlank, Tokenized, IsBlank;
    if other.None? {
      ParseElseNothing(tokens);
    } else {
      TailTokenized(tokens);
      if Next(tokens, KElse) {
        BracketedComplete(tokens[1..], other.value, rest);
      } else {
        ConditionalComplete(tokens[1..], other.value.atoms[0], rest);
      }
    }
  }

  lemma BlankBehind(tokens: seq<Token>, n: nat, other: Option<Code>, rest: seq<Token>)
    requires 0 < n <= |tokens| && AllBlankCode(tokens[..n]) && ElsePart(tokens[n..], other, rest)
    ensures ElseBranch(tokens[1..], other, rest)
  {
    hide ElsePart;
    assert tokens[1..][..n - 1] == tokens[..n][1..];
    assert tokens[1..][n - 1..] == tokens[n..];
  }

  lemma {:induction false} ConditionalComplete(tokens: seq<Token>, a: Atomic, rest: seq<Token>)
    requires a.If? && Conditional(tokens, a, rest) && Tokenized(tokens) && Follows(rest)
    ensures var p := ParseConditional(tokens); p.Ok? && (p.rest == rest || p.rest == SkipBlank(rest))
    decreases |tokens|, 2
  {
    hide Bracketed, ElseBranch, Within, ParseBracketed, ParseElse;
    var mid :| Bracketed(tokens[1..], a.thenBranch, mid) && ElseBranch(mid, a.elseBranch, rest);
    BracketedComplete(tokens[1..], a.thenBranch, mid);
    BracketedWithin(tokens[1..], a.thenBranch, mid);
    WithinTokenized(mid, tokens[1..], 1);
    WithinShorter(mid, tokens[1..], 1);
    ElseComplete(mid, a.elseBranch, rest);
  }

  lemma WithinShorter(rest: seq<Token>, tokens: seq<Token>, n: nat)
    requires Within(rest, tokens, n)
    ensures |rest| + n <= |tokens|
  {
  }

  lemma {:induction false} VarComplete(tokens: seq<Token>, a: Atomic, rest: seq<Token>)
    requires a.VarCode? && Derives(tokens, a, rest) && Tokenized(tokens)
    ensures var p := ParseVar(tokens[1..]); p.Ok? && p.rest == rest
    decreases |tokens|, 2
  {
    hide Bracketed, ParseBracketed, IsBlank;
    assert tokens[1..][2..] == tokens[3..];
    BracketedComplete(tokens[3..], a.code, rest);
    BracketedOpens(tokens[3..], a.code, rest);
  }

  lemma {:induction false} ForComplete(tokens: seq<Token>, a: Atomic, rest: seq<Token>)
    requires a.For? && Derives(tokens, a, rest) && Tokenized(tokens)
    ensures var p := ParseFor(tokens[1..]); p.Ok? && p.rest == rest
    decreases |tokens|, 2
  {
    hide Bracketed, ParseBracketed, IsBlank;
    var k := if a.sep.Some? then 3 else 2;
    assert tokens[1..][k - 1..] == tokens[k..];
    BracketedComplete(tokens[k..], a.code, rest);
    BracketedOpens(tokens[k..], a.code, rest);
  }

  lemma FlatComplete(tokens: seq<Token>, a: Atomic, rest: seq<Token>)
    requires Derives(tokens, a, rest) && (a.VarExp? || a.Range? || a.Expression?)
    ensures tokens != []
    ensures var p := ParseAtomic(tokens); p.Node? && p.rest == rest
  {
    var after := tokens[1..];
    if a.VarExp? {
      assert after[3..] == tokens[4..];
    } else if a.Range? {
      assert after[4..] == tokens[5..];
    } else {
      assert after[1..] == tokens[2..];
    }
  }

  lemma {:induction false} AtomicComplete(tokens: seq<Token>, a: Atomic, rest: seq<Token>)
    requires Derives(tokens, a, rest) && Tokenized(tokens)
    requires a.If? ==> Follows(rest)
    ensures tokens != []
    ensures var p := ParseAtomic(tokens); p.Node? && (p.rest == rest || (a.If? && p.rest == SkipBlank(rest)))
    decreases |tokens|, 3
  {
    hide Bracketed, Conditional, ParseBracketed, ParseConditional, ParseVar, ParseFor, ParseRange, IsBlank;
    hide Tokenized, Follows, SkipBlank;
    DerivesStart(tokens, a, rest);
    match a
    case VarCode(_, _) => VarComplete(tokens, a, rest);
    case For(_, _, _) => ForComplete(tokens, a, rest);
    case If(_, _, _) =>
      TailTokenized(tokens);
      ConditionalComplete(tokens[1..], a, rest);
    case Block(code) =>
      BracketedComplete(tokens, code, rest);
      BracketedOpens(tokens, code, rest);
    case VarExp(_, _) => FlatComplete(tokens, a, rest);
    case Range(_, _, _) => FlatComplete(tokens, a, rest);
    case Expression(_) => FlatComplete(tokens, a, rest);
    case _ =>
  }

  lemma TailTokenized(tokens: seq<Token>)
    requires tokens != [] && Tokenized(tokens)
    ensures Tokenized(tokens[1..])
  {
  }

  lemma BracketedOpens(tokens: seq<Token>, code: Code, rest: seq<Token>)
    requires Bracketed(tokens, code, rest)
    ensures Next(tokens, KOpen)
  {
  }

  /** Every sentence that is followed by nothing or a closing bracket is
      accepted, and exactly what follows is left. */
  lemma {:induction false} ParserComplete(tokens: seq<Token>, atoms: seq<Atomic>, rest: seq<Token>)
    requires Sentence(tokens, atoms, rest) && EndsSentence(rest) && Tokenized(tokens)
    ensures var p := ParseCode(tokens); p.Ok? && p.rest == rest
    decreases |tokens|, 4
  {
    hide Derives, Within, ParseAtomic;
    if atoms == [] {
      ClosingStops(tokens);
    } else {
      var mid :| Derives(tokens, atoms[0], mid) && Sentence(mid, atoms[1..], rest);
      DerivesWithin(tokens, atoms[0], mid);
      WithinTokenized(mid, tokens, 1);
      WithinShorter(mid, tokens, 1);
      var fewer := SkipInSentence(mid, atoms[1..], rest);
      AtomicComplete(tokens, atoms[0], mid);
      if ParseAtomic(tokens).rest == mid {
        ParserComplete(mid, atoms[1..], rest);
      } else {
        SkipTokenized(mid);
        ParserComplete(SkipBlank(mid), fewer, rest);
      }
    }
  }

  lemma ClosingStops(tokens: seq<Token>)
    requires EndsSentence(tokens)
    ensures ParseCode(tokens) == Ok(Code([]), tokens)
  {
  }

  lemma {:induction false} SkipTokenized(tokens: seq<Token>)
    requires Tokenized(tokens)
    ensures Tokenized(SkipBlank(tokens))
  {
    if tokens != [] && BlankCode(tokens[0]) {
      SkipTokenized(tokens[1..]);
    }
  }

  /** On tokens from the tokeniser, the parser takes all of them exactly when
      they are a sentence of the grammar. */
  lemma AcceptsExactly(tokens: seq<Token>)
    requires Tokenized(tokens)
    ensures (exists code :: ParseCode(tokens) == Ok(code, [])) <==> (exists atoms :: Sentence(tokens, atoms, []))
  {
    hide Sentence, ParseCode;
    ParserSound(tokens);
    if atoms :| Sentence(tokens, atoms, []) {
      ParserComplete(tokens, atoms, []);
      assert ParseCode(tokens) == Ok(ParseCode(tokens).node, []);
    }
  }

  // ---------------------------------------------------------------------
  // Which tree is made of a sentence
  // ---------------------------------------------------------------------

  /** The tree without the blank code that comes right after an open $if; with
      swallow, also without blank code in front. */
  function Trim(atoms: seq<Atomic>, elif: bool, swallow: bool): seq<Atomic>
    decreases atoms, 0
  {
    if atoms == [] then []
    else if swallow && IsBlankCode(atoms[0]) then Trim(atoms[1..], elif, true)
    else [TrimAtomic(atoms[0], elif)] + Trim(atoms[1..], elif, OpenEnded(atoms[0], elif))
  }

  function TrimCode(code: Code, elif: bool): Code
    decreases code, 0
  {
    Code(Trim(code.atoms, elif, false))
  }

  function TrimElse(other: Option<Code>, elif: bool): Option<Code>
    decreases other, 0
  {
    if other.None? then None else Some(TrimCode(other.value, elif))
  }

  function TrimAtomic(a: Atomic, elif: bool): Atomic
    decreases a, 1
  {
    match a
    case VarCode(id, code) => VarCode(id, TrimCode(code, elif))
    case For(id, sep, code) => For(id, sep, TrimCode(code, elif))
    case If(exp, branch, other) => If(exp, TrimCode(branch, elif), TrimElse(other, elif))
    case Block(code) => Block(TrimCode(code, elif))
    case _ => a
  }

  /** Whether an else branch that is a single $if is written as $elif or not
      makes no difference to what is trimmed. */
  predicate SameTrim(atoms: seq<Atomic>, swallow: bool) {
    Trim(atoms, true, swallow) == Trim(atoms, false, swallow)
  }

  lemma {:induction false} TrimmedFront(atoms: seq<Atomic>, elif: bool)
    ensures var trimmed := Trim(atoms, elif, true); trimmed != [] ==> !IsBlankCode(trimmed[0])
    decreases |atoms|
  {
    if atoms != [] && IsBlankCode(atoms[0]) {
      TrimmedFront(atoms[1..], elif);
    }
  }

  lemma TrimFirst(atoms: seq<Atomic>, elif: bool, swallow: bool)
    requires atoms != [] && !(swallow && IsBlankCode(atoms[0]))
    ensures var trimmed := Trim(atoms, elif, swallow);
            && trimmed != [] && trimmed[0] == TrimAtomic(atoms[0], elif)
            && trimmed[1..] == Trim(atoms[1..], elif, OpenEnded(atoms[0], elif))
  {
  }

  // Where the styles differ in what is open, no blank code can follow.
  lemma SameTrimTail(atoms: seq<Atomic>, swallow: bool)
    requires atoms != [] && !(swallow && IsBlankCode(atoms[0])) && SameTrim(atoms, swallow)
    ensures TrimAtomic(atoms[0], true) == TrimAtomic(atoms[0], false)
    ensures SameTrim(atoms[1..], OpenEnded(atoms[0], false))
    ensures OpenEnded(atoms[0], true) != OpenEnded(atoms[0], false) && |atoms| > 1 ==> !IsBlankCode(atoms[1])
  {
    TrimFirst(atoms, true, swallow);
    TrimFirst(atoms, false, swallow);
    hide TrimAtomic, IsBlank;
    var tail := atoms[1..];
    if OpenEnded(atoms[0], true) != OpenEnded(atoms[0], false) && tail != [] {
      TrimmedFront(tail, true);
      BlankStays(tail[0]);
    }
  }

  lemma BlankStays(a: Atomic)
    ensures IsBlankCode(a) ==> TrimAtomic(a, false) == a
  {
  }

  lemma {:induction false} BracketedTrims(tokens: seq<Token>, code: Code, rest: seq<Token>)
    requires Bracketed(tokens, code, rest) && Tokenized(tokens) && SameTrim(code.atoms, false)
    ensures ParseBracketed(tokens) == Ok(TrimCode(code, false), rest)
    decreases |tokens|, 0
  {
    hide Sentence, Trim;
    var mid :| Sentence(tokens[1..], code.atoms, mid) && Closes(mid, rest);
    SentenceTrims(tokens[1..], code.atoms, mid, false);
  }

  predicate SameTrimElse(other: Option<Code>) {
    other.Some? ==> SameTrim(other.value.atoms, false)
  }

  // What the parser leaves after an $if: blank code is gone where the $if is
  // open, and may be gone where only $elif would leave it open.
  predicate LeftAfter(left: seq<Token>, rest: seq<Token>, open: bool, openWithElif: bool) {
    && (left == rest || left == SkipBlank(rest))
    && (open ==> left == SkipBlank(rest))
    && (!openWithElif ==> left == rest)
  }

  predicate OpenElse(other: Option<Code>, elif: bool) {
    other.None? || (elif && IsConditional(other.value) && OpenEnded(other.value.atoms[0], elif))
  }

  lemma {:induction false} ElseTrims(tokens: seq<Token>, other: Option<Code>, rest: seq<Token>)
    requires ElseBranch(tokens, other, rest) && Tokenized(tokens) && Follows(rest) && SameTrimElse(other)
    ensures var p := ParseElse(tokens);
            && p.Ok? && p.node == TrimElse(other, false)
            && LeftAfter(p.rest, rest, OpenElse(other, false), OpenElse(other, true))
    decreases |tokens|, 1
  {
    hide ElseBranch, ElsePart, Follows, SkipBlank, ParseBracketed, ParseConditional, IsBlank, Tokenized;
    hide TrimElse, SameTrimElse, LeftAfter, OpenElse;
    var blank := ElseCases(tokens, other, rest);
    if blank {
      TailTokenized(tokens);
      ElseTrims(tokens[1..], other, rest);
    } else {
      ElsePartTrims(tokens, other, rest);
    }
  }

  lemma {:induction false} ElsePartTrims(tokens: seq<Token>, other: Option<Code>, rest: seq<Token>)
    requires ElsePart(tokens, other, rest) && Tokenized(tokens) && Follows(rest) && SameTrimElse(other)
    ensures var p := ParseElse(tokens);
            && p.Ok? && p.node == TrimElse(other, false)
            && LeftAfter(p.rest, rest, OpenElse(other, false), OpenElse(other, true))
    decreases |tokens|, 0
  {
    hide Bracketed, Conditional, ParseBracketed, ParseConditional, Follows, SkipBlank, Tokenized, IsBlank;
    hide Trim, TrimAtomic;
    if other.None? {
      ParseElseNothing(tokens);
    } else {
      TailTokenized(tokens);
      if Next(tokens, KElse) {
        BracketedTrims(tokens[1..], other.value, rest);
      } else {
        TrimSingle(other.value);
        ConditionalTrims(tokens[1..], other.value.atoms[0], rest);
      }
    }
  }

  lemma TrimSingle(code: Code)
    requires IsConditional(code) && SameTrim(code.atoms, false)
    ensures TrimAtomic(code.atoms[0], true) == TrimAtomic(code.atoms[0], false)
    ensures TrimCode(code, false) == Code([TrimAtomic(code.atoms[0], false)])
  {
    SameTrimTail(code.atoms, false);
    assert Trim(code.atoms[1..], false, OpenEnded(code.atoms[0], false)) == [];
  }

  predicate SameTrimIn(a: Atomic) { TrimAtomic(a, true) == TrimAtomic(a, false) }

  lemma SameTrimParts(a: Atomic)
    requires SameTrimIn(a)
    ensures a.VarCode? || a.For? || a.Block? ==> SameTrim(a.code.atoms, false)
    ensures a.If? ==> SameTrim(a.thenBranch.atoms, false) && SameTrimElse(a.elseBranch)
  {
    hide Trim;
    match a
    case VarCode(_, code) => SameTrimCode(code);
    case For(_, _, code) => SameTrimCode(code);
    case If(_, branch, other) =>
      SameTrimCode(branch);
      if other.Some? {
        SameTrimCode(other.value);
        assert TrimElse(other, true) == Some(TrimCode(other.value, true));
        assert TrimElse(other, false) == Some(TrimCode(other.value, false));
      }
    case Block(code) => SameTrimCode(code);
    case _ =>
  }

  lemma SameTrimCode(code: Code)
    ensures SameTrim(code.atoms, false) <==> TrimCode(code, true) == TrimCode(code, false)
  {
    hide Trim;
  }

  lemma OpenByElse(a: Atomic)
    requires a.If?
    ensures OpenEnded(a, false) <==> OpenElse(a.elseBranch, false)
    ensures OpenEnded(a, true) <==> OpenElse(a.elseBranch, true)
  {
  }

  lemma {:induction false} ConditionalTrims(tokens: seq<Token>, a: Atomic, rest: seq<Token>)
    requires a.If? && Conditional(tokens, a, rest) && Tokenized(tokens) && Follows(rest) && SameTrimIn(a)
    ensures var p := ParseConditional(tokens);
            && p.Ok? && p.node == TrimAtomic(a, false)
            && LeftAfter(p.rest, rest, OpenEnded(a, false), OpenEnded(a, true))
    decreases |tokens|, 2
  {
    hide Bracketed, ElseBranch, Within, ParseBracketed, ParseElse, Trim, TrimElse, TrimCode, SameTrim, SameTrimElse;
    hide LeftAfter, Follows, Tokenized, SameTrimIn, OpenEnded, OpenElse;
    SameTrimParts(a);
    OpenByElse(a);
    var mid :| Bracketed(tokens[1..], a.thenBranch, mid) && ElseBranch(mid, a.elseBranch, rest);
    TailTokenized(tokens);
    BracketedTrims(tokens[1..], a.thenBranch, mid);
    BracketedWithin(tokens[1..], a.thenBranch, mid);
    WithinTokenized(mid, tokens[1..], 1);
    WithinShorter(mid, tokens[1..], 1);
    ElseTrims(mid, a.elseBranch, rest);
  }

  lemma {:induction false} VarTrims(tokens: seq<Token>, a: Atomic, rest: seq<Token>)
    requires a.VarCode? && Derives(tokens, a, rest) && Tokenized(tokens) && SameTrimIn(a)
    ensures ParseVar(tokens[1..]) == Ok(TrimAtomic(a, false), rest)
    decreases |tokens|, 2
  {
    hide Bracketed, ParseBracketed, Tokenized, Trim, TrimCode, TrimElse, SameTrim, SameTrimIn;
    SameTrimParts(a);
    DropTokenized(tokens, 3);
    assert tokens[1..][2..] == tokens[3..];
    BracketedTrims(tokens[3..], a.code, rest);
    BracketedOpens(tokens[3..], a.code, rest);
  }

  lemma {:induction false} ForTrims(tokens: seq<Token>, a: Atomic, rest: seq<Token>)
    requires a.For? && Derives(tokens, a, rest) && Tokenized(tokens) && SameTrimIn(a)
    ensures ParseFor(tokens[1..]) == Ok(TrimAtomic(a, false), rest)
    decreases |tokens|, 2
  {
    hide Bracketed, ParseBracketed, Tokenized, Trim, TrimCode, TrimElse, SameTrim, SameTrimIn;
    SameTrimParts(a);
    var k := if a.sep.Some? then 3 else 2;
    DropTokenized(tokens, k);
    assert tokens[1..][k - 1..] == tokens[k..];
    BracketedTrims(tokens[k..], a.code, rest);
    BracketedOpens(tokens[k..], a.code, rest);
  }

  lemma DropTokenized(tokens: seq<Token>, k: nat)
    requires Tokenized(tokens) && k <= |tokens|
    ensures Tokenized(tokens[k..])
  {
  }

  lemma FlatTrims(tokens: seq<Token>, a: Atomic, rest: seq<Token>)
    requires Derives(tokens, a, rest) && (a.VarExp? || a.Range? || a.Expression?)
    ensures tokens != [] && ParseAtomic(tokens) == Node(a, rest)
  {
    var after := tokens[1..];
    if a.VarExp? {
      assert after[3..] == tokens[4..];
    } else if a.Range? {
      assert after[4..] == tokens[5..];
    } else {
      assert after[1..] == tokens[2..];
    }
  }

  lemma {:induction false} AtomicTrims(tokens: seq<Token>, a: Atomic, rest: seq<Token>)
    requires Derives(tokens, a, rest) && Tokenized(tokens) && SameTrimIn(a)
    requires a.If? ==> Follows(rest)
    ensures tokens != []
    ensures var p := ParseAtomic(tokens);
            && p.Node? && p.atomic == TrimAtomic(a, false)
            && LeftAfter(p.rest, rest, OpenEnded(a, false), OpenEnded(a, true))
    decreases |tokens|, 3
  {
    hide Bracketed, Conditional, ParseBracketed, ParseConditional, ParseVar, ParseFor, ParseRange, IsBlank;
    hide Tokenized, Follows, SkipBlank, Trim, TrimElse;
    DerivesStart(tokens, a, rest);
    match a
    case VarCode(_, _) => VarTrims(tokens, a, rest);
    case For(_, _, _) => ForTrims(tokens, a, rest);
    case If(_, _, _) =>
      TailTokenized(tokens);
      ConditionalTrims(tokens[1..], a, rest);
    case Block(code) =>
      SameTrimParts(a);
      BracketedTrims(tokens, code, rest);
      BracketedOpens(tokens, code, rest);
    case VarExp(_, _) => FlatTrims(tokens, a, rest);
    case Range(_, _, _) => FlatTrims(tokens, a, rest);
    case Expression(_) => FlatTrims(tokens, a, rest);
    case _ =>
  }

  lemma RawOnly(tokens: seq<Token>, a: Atomic, rest: seq<Token>)
    requires Derives(tokens, a, rest) && Next(tokens, KCode)
    ensures a == Raw(tokens[0].value)
  {
    hide Sentence, Conditional;
  }

  // A sentence starts with blank code exactly when its tree does.
  lemma StartsBlank(tokens: seq<Token>, a: Atomic, rest: seq<Token>)
    requires Derives(tokens, a, rest)
    ensures tokens != [] && (BlankCode(tokens[0]) <==> IsBlankCode(a))
    ensures IsBlankCode(a) ==> rest == tokens[1..]
  {
    hide IsBlank, Sentence, Conditional, Bracketed;
    DerivesStart(tokens, a, rest);
    if tokens[0].kind == KCode {
      RawOnly(tokens, a, rest);
    }
  }

  lemma NoBlankToSkip(tokens: seq<Token>, atoms: seq<Atomic>, rest: seq<Token>)
    requires Sentence(tokens, atoms, rest) && EndsSentence(rest)
    requires atoms != [] ==> !IsBlankCode(atoms[0])
    ensures SkipBlank(tokens) == tokens
  {
    hide Derives;
    if atoms != [] {
      var mid :| Derives(tokens, atoms[0], mid) && Sentence(mid, atoms[1..], rest);
      StartsBlank(tokens, atoms[0], mid);
    }
  }

  /** What the parser makes of a sentence: the tree without the blank code after
      open $ifs, wherever the sentence alone decides which $ifs are open. */
  lemma {:induction false} SentenceTrims(tokens: seq<Token>, atoms: seq<Atomic>, rest: seq<Token>, swallow: bool)
    requires Sentence(tokens, atoms, rest) && EndsSentence(rest) && Tokenized(tokens) && SameTrim(atoms, swallow)
    ensures ParseCode(if swallow then SkipBlank(tokens) else tokens) == Ok(Code(Trim(atoms, false, swallow)), rest)
    decreases |tokens|, 4
  {
    hide Derives, Within, ParseAtomic, OpenEnded, Follows, TrimAtomic, Tokenized;
    if atoms == [] {
      ClosingStops(tokens);
    } else {
      var mid :| Derives(tokens, atoms[0], mid) && Sentence(mid, atoms[1..], rest);
      DerivesWithin(tokens, atoms[0], mid);
      WithinTokenized(mid, tokens, 1);
      WithinShorter(mid, tokens, 1);
      StartsBlank(tokens, atoms[0], mid);
      if swallow && IsBlankCode(atoms[0]) {
        SentenceTrims(mid, atoms[1..], rest, true);
      } else {
        var _ := SkipInSentence(mid, atoms[1..], rest);
        SameTrimTail(atoms, swallow);
        AtomicTrims(tokens, atoms[0], mid);
        if OpenEnded(atoms[0], true) != OpenEnded(atoms[0], false) {
          NoBlankToSkip(mid, atoms[1..], rest);
        }
        SentenceTrims(mid, atoms[1..], rest, OpenEnded(atoms[0], false));
        OpenBothWays(atoms[0]);
        hide ParseCode, Trim;
        ParseStep(tokens, atoms, rest, swallow);
      }
    }
  }

  lemma OpenBothWays(a: Atomic)
    ensures OpenEnded(a, false) ==> OpenEnded(a, true)
  {
  }

  lemma ParseStep(tokens: seq<Token>, atoms: seq<Atomic>, rest: seq<Token>, swallow: bool)
    requires tokens != [] && atoms != [] && !(swallow && IsBlankCode(atoms[0]))
    requires BlankCode(tokens[0]) <==> IsBlankCode(atoms[0])
    requires var p := ParseAtomic(tokens);
             && p.Node? && p.atomic == TrimAtomic(atoms[0], false)
             && ParseCode(p.rest) == Ok(Code(Trim(atoms[1..], false, OpenEnded(atoms[0], false))), rest)
    ensures ParseCode(if swallow then SkipBlank(tokens) else tokens) == Ok(Code(Trim(atoms, false, swallow)), rest)
  {
    hide ParseAtomic, TrimAtomic, OpenEnded, IsBlank;
  }

  lemma {:induction false} NothingToTrim(atoms: seq<Atomic>, elif: bool)
    requires NoneSwallowed(atoms, true)
    ensures Trim(atoms, elif, false) == atoms
    ensures (atoms != [] ==> !IsBlankCode(atoms[0])) ==> Trim(atoms, elif, true) == atoms
    decreases atoms, 0
  {
    hide IsBlank;
    if atoms != [] {
      NothingToTrimIn(atoms[0], elif);
      NothingToTrim(atoms[1..], elif);
      OpenBothWays(atoms[0]);
      assert atoms == [atoms[0]] + atoms[1..];
    }
  }

  lemma {:induction false} NothingToTrimIn(a: Atomic, elif: bool)
    requires NothingSwallowedIn(a, true)
    ensures TrimAtomic(a, elif) == a
    decreases a, 1
  {
    hide Trim, NoneSwallowed;
    match a
    case VarCode(_, code) => NothingToTrim(code.atoms, elif);
    case For(_, _, code) => NothingToTrim(code.atoms, elif);
    case If(_, branch, other) =>
      NothingToTrim(branch.atoms, elif);
      if other.Some? {
        NothingToTrim(other.value.atoms, elif);
        assert TrimCode(other.value, elif) == other.value;
      }
    case Block(code) => NothingToTrim(code.atoms, elif);
    case _ =>
  }

  /** The case where nothing is removed: of a tree that has no blank code after
      an open $if, every sentence is parsed to that tree. */
  lemma ParserResolves(tokens: seq<Token>, atoms: seq<Atomic>, rest: seq<Token>)
    requires Sentence(tokens, atoms, rest) && EndsSentence(rest) && Tokenized(tokens)
    requires NoneSwallowed(atoms, true)
    ensures ParseCode(tokens) == Ok(Code(atoms), rest)
  {
    NothingToTrim(atoms, true);
    NothingToTrim(atoms, false);
    SentenceTrims(tokens, atoms, rest, false);
  }

  /** The parser's tree of any sentence whose trimming does not depend on the
      style of its else branches. */
  lemma ParserTrims(tokens: seq<Token>, code: Code, rest: seq<Token>)
    requires Sentence(tokens, code.atoms, rest) && EndsSentence(rest) && Tokenized(tokens)
    requires TrimCode(code, true) == TrimCode(code, false)
    ensures ParseCode(tokens) == Ok(TrimCode(code, false), rest)
  {
    SentenceTrims(tokens, code.atoms, rest, false);
  }
}
