/** Printing with $elif gives the shortest sentence of a tree. Hence a tree that
    comes back from printing and parsing has lost no blank code on the way, and
    the condition for the round trip is exact with $elif, too. */
module PumpElif {
  import opened CStrings
  import opened Pump
  import opened PumpGrammar

  // ---------------------------------------------------------------------
  // Lengths of printed forms
  // ---------------------------------------------------------------------

  lemma AtomicLength(a: Atomic, rest: seq<Token>)
    ensures |PrintAtomic(a, true, rest)| == |PrintAtomic(a, true, [])| + |rest|
  {
    assert [] + rest == rest;
    PrintAtomicAppend(a, true, [], rest);
  }

  lemma AtomsLength(atoms: seq<Atomic>, rest: seq<Token>)
    ensures |PrintAtoms(atoms, true, rest)| == |PrintAtoms(atoms, true, [])| + |rest|
  {
    assert [] + rest == rest;
    PrintAtomsAppend(atoms, true, [], rest);
  }

  lemma BracketedLength(code: Code, rest: seq<Token>)
    ensures |PrintBracketed(code, true, rest)| == |PrintAtoms(code.atoms, true, [])| + |rest| + 2
  {
    AtomsLength(code.atoms, Before(KClose, "]]", rest));
  }

  lemma ConditionalLength(a: Atomic, rest: seq<Token>)
    requires a.If?
    ensures |PrintConditional(a, true, rest)| == |PrintConditional(a, true, [])| + |rest|
  {
    assert [] + rest == rest;
    PrintConditionalAppend(a, true, [], rest);
  }

  // ---------------------------------------------------------------------
  // No sentence is shorter than the printed form
  // ---------------------------------------------------------------------

  lemma {:induction false} SentenceShortest(tokens: seq<Token>, atoms: seq<Atomic>, rest: seq<Token>)
    requires Sentence(tokens, atoms, rest)
    ensures |PrintAtoms(atoms, true, rest)| <= |tokens|
    decreases atoms, 0
  {
    hide Derives, PrintAtomic;
    if atoms != [] {
      var mid :| Derives(tokens, atoms[0], mid) && Sentence(mid, atoms[1..], rest);
      DerivesShortest(tokens, atoms[0], mid);
      SentenceShortest(mid, atoms[1..], rest);
      AtomicLength(atoms[0], mid);
      AtomicLength(atoms[0], PrintAtoms(atoms[1..], true, rest));
    }
  }

  lemma {:induction false} BracketedShortest(tokens: seq<Token>, code: Code, rest: seq<Token>)
    requires Bracketed(tokens, code, rest)
    ensures |PrintBracketed(code, true, rest)| <= |tokens|
    decreases code, 1
  {
    hide Sentence, PrintAtoms, PrintBracketed;
    var mid :| Sentence(tokens[1..], code.atoms, mid) && Closes(mid, rest);
    SentenceShortest(tokens[1..], code.atoms, mid);
    AtomsLength(code.atoms, mid);
    BracketedLength(code, rest);
  }

  lemma {:induction false} ConditionalShortest(tokens: seq<Token>, a: Atomic, rest: seq<Token>)
    requires a.If? && Conditional(tokens, a, rest)
    ensures |PrintConditional(a, true, rest)| <= |tokens|
    decreases a, 0
  {
    hide Bracketed, ElseBranch, PrintBracketed, PrintElse;
    var mid :| Bracketed(tokens[1..], a.thenBranch, mid) && ElseBranch(mid, a.elseBranch, rest);
    BracketedShortest(tokens[1..], a.thenBranch, mid);
    ElseShortest(mid, a.elseBranch, rest);
    BracketedLength(a.thenBranch, mid);
    BracketedLength(a.thenBranch, PrintElse(a.elseBranch, true, rest));
  }

  lemma {:induction false} ElseShortest(tokens: seq<Token>, other: Option<Code>, rest: seq<Token>)
    requires ElseBranch(tokens, other, rest)
    ensures |PrintElse(other, true, rest)| <= |tokens|
    decreases other, 1
  {
    hide ElsePart, PrintElse;
    var n :| 0 <= n <= |tokens| && AllBlankCode(tokens[..n]) && ElsePart(tokens[n..], other, rest);
    ElsePartShortest(tokens[n..], other, rest);
  }

  lemma {:induction false} ElsePartShortest(tokens: seq<Token>, other: Option<Code>, rest: seq<Token>)
    requires ElsePart(tokens, other, rest)
    ensures |PrintElse(other, true, rest)| <= |tokens|
    decreases other, 0
  {
    hide Bracketed, Conditional, PrintBracketed, PrintConditional;
    match other
    case None =>
    case Some(code) =>
      if Next(tokens, KElse) && Bracketed(tokens[1..], code, rest) {
        BracketedShortest(tokens[1..], code, rest);
        if IsConditional(code) {
          ElifShorter(code, rest);
        }
      } else {
        ConditionalShortest(tokens[1..], code.atoms[0], rest);
      }
  }

  lemma ElifShorter(code: Code, rest: seq<Token>)
    requires IsConditional(code)
    ensures |PrintConditional(code.atoms[0], true, rest)| <= |PrintBracketed(code, true, rest)|
  {
    hide PrintConditional, PrintBracketed;
    var a := code.atoms[0];
    BracketedLength(code, rest);
    ConditionalLength(a, rest);
    assert PrintAtoms(code.atoms[1..], true, []) == [];
    assert PrintAtoms(code.atoms, true, []) == Before(KIf, "$if ", PrintConditional(a, true, []));
  }

  lemma {:induction false} DerivesShortest(tokens: seq<Token>, a: Atomic, rest: seq<Token>)
    requires Derives(tokens, a, rest)
    ensures |PrintAtomic(a, true, rest)| <= |tokens|
    decreases a, 1
  {
    hide Bracketed, Conditional, PrintBracketed, PrintConditional;
    match a
    case VarCode(_, code) => BracketedShortest(tokens[3..], code, rest);
    case For(_, sep, code) => BracketedShortest(tokens[if sep.Some? then 3 else 2..], code, rest);
    case If(_, _, _) => ConditionalShortest(tokens[1..], a, rest);
    case Block(code) => BracketedShortest(tokens, code, rest);
    case _ =>
  }

  // ---------------------------------------------------------------------
  // What comes back has lost nothing
  // ---------------------------------------------------------------------

  // Two tails of the same tokens with the same length.
  lemma SameTail(a: seq<Token>, b: seq<Token>, tokens: seq<Token>, m: nat, n: nat)
    requires Within(a, tokens, m) && Within(b, tokens, n) && |a| == |b|
    ensures a == b
  {
  }

  lemma PrintedWithin(front: seq<Token>, rest: seq<Token>)
    ensures Within(rest, front + rest, 0)
  {
  }

  lemma {:induction false} BracketedSurvives(code: Code, rest: seq<Token>)
    requires ParseBracketed(PrintBracketed(code, true, rest)) == Ok(code, rest)
    ensures NothingSwallowed(code, true)
    decreases code, 1
  {
    hide PrintAtoms, ParseCode, Sentence, NoneSwallowed, Within;
    var close := Before(KClose, "]]", rest);
    var tokens := PrintAtoms(code.atoms, true, close);
    assert PrintBracketed(code, true, rest)[1..] == tokens;
    var mid := ParseCode(tokens).rest;
    ParserSound(tokens);
    SentenceWithin(tokens, code.atoms, mid);
    assert [] + close == close;
    PrintAtomsAppend(code.atoms, true, [], close);
    PrintedWithin(PrintAtoms(code.atoms, true, []), close);
    assert mid[1..] == close[1..];
    SameTail(mid, close, tokens, 0, 0);
    AtomsSurvive(code.atoms, close);
  }

  lemma {:induction false} ConditionalSurvives(a: Atomic, rest: seq<Token>)
    requires a.If? && ParseConditional(PrintConditional(a, true, rest)) == Ok(a, rest)
    ensures NothingSwallowedIn(a, true) && (OpenEnded(a, true) ==> EndsIf(rest))
    decreases a, 0
  {
    hide PrintBracketed, PrintElse, ParseBracketed, ParseElse, Bracketed, ElseBranch, Within, NoneSwallowed, EndsIf;
    var follow := PrintElse(a.elseBranch, true, rest);
    var tokens := PrintBracketed(a.thenBranch, true, follow);
    var mid := ParseBracketed(tokens).rest;
    BracketedSound(tokens);
    BracketedShortest(tokens, a.thenBranch, mid);
    BracketedLength(a.thenBranch, mid);
    BracketedLength(a.thenBranch, follow);
    ElseSound(mid);
    ElseShortest(mid, a.elseBranch, rest);
    BracketedWithin(tokens, a.thenBranch, mid);
    assert [] + follow == follow;
    PrintBracketedAppend(a.thenBranch, true, [], follow);
    PrintedWithin(PrintBracketed(a.thenBranch, true, []), follow);
    SameTail(mid, follow, tokens, 1, 0);
    BracketedSurvives(a.thenBranch, follow);
    ElseSurvives(a.elseBranch, rest);
  }

  lemma {:induction false} ElseSurvives(other: Option<Code>, rest: seq<Token>)
    requires ParseElse(PrintElse(other, true, rest)) == Ok(other, rest)
    ensures other.Some? ==> NothingSwallowed(other.value, true)
    ensures OpenElse(other, true) ==> EndsIf(rest)
    decreases other, 0
  {
    hide PrintBracketed, PrintConditional, ParseBracketed, ParseConditional, IsBlank;
    if other.None? {
    } else if IsConditional(other.value) {
      ConditionalSurvives(other.value.atoms[0], rest);
      assert NoneSwallowed(other.value.atoms[1..], true);
    } else {
      BracketedSurvives(other.value, rest);
    }
  }

  lemma ForSurvives(a: Atomic, rest: seq<Token>)
    requires a.For? && ParseAtomic(PrintAtomic(a, true, rest)) == Node(a, rest)
    ensures ParseBracketed(PrintBracketed(a.code, true, rest)) == Ok(a.code, rest)
  {
    hide PrintBracketed, ParseBracketed;
    var body := PrintBracketed(a.code, true, rest);
    PrintedBracketedOpens(a.code, true, rest);
    if a.sep.Some? {
      assert Before(KId, a.id, Before(KCode, a.sep.value, body))[2..] == Before(KCode, a.sep.value, body)[1..];
    }
  }

  lemma VarSurvives(a: Atomic, rest: seq<Token>)
    requires a.VarCode? && ParseAtomic(PrintAtomic(a, true, rest)) == Node(a, rest)
    ensures ParseBracketed(PrintBracketed(a.code, true, rest)) == Ok(a.code, rest)
  {
    hide PrintBracketed, ParseBracketed;
    var body := PrintBracketed(a.code, true, rest);
    assert Before(KId, a.id, Before(KEq, "=", body))[2..] == Before(KEq, "=", body)[1..];
  }

  lemma {:induction false} AtomicSurvives(a: Atomic, rest: seq<Token>)
    requires ParseAtomic(PrintAtomic(a, true, rest)) == Node(a, rest)
    ensures NothingSwallowedIn(a, true) && (OpenEnded(a, true) ==> EndsIf(rest))
    decreases a, 1
  {
    hide PrintBracketed, PrintConditional, ParseBracketed, ParseConditional, NoneSwallowed, EndsIf;
    hide ParseVar, ParseFor, ParseRange;
    match a
    case VarCode(_, code) =>
      VarSurvives(a, rest);
      BracketedSurvives(code, rest);
    case For(_, _, code) =>
      ForSurvives(a, rest);
      BracketedSurvives(code, rest);
    case If(_, _, _) => ConditionalSurvives(a, rest);
    case Block(code) =>
      PrintedBracketedOpens(code, true, rest);
      BracketedSurvives(code, rest);
    case _ =>
  }

  lemma {:induction false} AtomsSurvive(atoms: seq<Atomic>, rest: seq<Token>)
    requires ParseCode(PrintAtoms(atoms, true, rest)) == Ok(Code(atoms), rest)
    ensures NoneSwallowed(atoms, true)
    decreases atoms, 0
  {
    hide PrintAtomic, ParseAtomic, Derives, Within, EndsIf, NothingSwallowedIn, OpenEnded;
    if atoms != [] {
      var a, follow := atoms[0], PrintAtoms(atoms[1..], true, rest);
      var tokens := PrintAtomic(a, true, follow);
      FirstParsed(tokens, atoms, rest);
      var mid := ParseAtomic(tokens).rest;
      AtomicSound(tokens);
      DerivesShortest(tokens, a, mid);
      AtomicLength(a, mid);
      AtomicLength(a, follow);
      ParserSound(mid);
      SentenceShortest(mid, atoms[1..], rest);
      DerivesWithin(tokens, a, mid);
      assert [] + follow == follow;
      PrintAtomicAppend(a, true, [], follow);
      PrintedWithin(PrintAtomic(a, true, []), follow);
      SameTail(mid, follow, tokens, 1, 0);
      AtomicSurvives(a, follow);
      AtomsSurvive(atoms[1..], rest);
      if OpenEnded(a, true) && |atoms| > 1 {
        NotBlankAhead(atoms[1], PrintAtoms(atoms[1..][1..], true, rest));
      }
    }
  }

  lemma FirstParsed(tokens: seq<Token>, atoms: seq<Atomic>, rest: seq<Token>)
    requires atoms != [] && tokens != [] && ParseCode(tokens) == Ok(Code(atoms), rest)
    ensures var p := ParseAtomic(tokens);
            p.Node? && p.atomic == atoms[0] && ParseCode(p.rest) == Ok(Code(atoms[1..]), rest)
  {
    hide ParseAtomic;
    var p := ParseAtomic(tokens);
    if p.Node? && ParseCode(p.rest).Ok? {
      var tail := ParseCode(p.rest).node.atoms;
      assert ([p.atomic] + tail)[1..] == tail;
    }
  }

  lemma NotBlankAhead(a: Atomic, rest: seq<Token>)
    requires EndsIf(PrintAtomic(a, true, rest))
    ensures !IsBlankCode(a)
  {
    hide IsBlank;
  }

  /** The round trip, exactly, with and without $elif. */
  lemma RoundTripIff(code: Code, elif: bool)
    ensures ParseCode(PrintCode(code, elif, [])) == Ok(code, []) <==> NothingSwallowed(code, elif)
  {
    hide ParseCode, PrintAtoms, NoneSwallowed;
    if !elif {
      PlainRoundTripIff(code);
    } else if ParseCode(PrintCode(code, true, [])) == Ok(code, []) {
      AtomsSurvive(code.atoms, []);
    } else if NothingSwallowed(code, true) {
      ParsePrintedAhead(code, true, []);
    }
  }
}
