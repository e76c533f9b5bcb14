/** The recursive-descent parser of pump.py: tokens, syntax trees, and the
    parser both as functions on token sequences and as methods that consume a
    mutable token list. Token positions serve only messages and are left out. */
module Pump {
  import opened CStrings

  datatype Kind =
    | KCode | KVar | KElif | KElse | KFor | KIf | KRange | KDollarId | KLiteralDollar | KDollar
    | KOpen | KClose | KId | KEq | KExp | KDotDot

  datatype Token = Token(kind: Kind, value: string)

  datatype Code = Code(atoms: seq<Atomic>)

  datatype Atomic =
    | Raw(text: string)
    | VarExp(id: string, exp: string)
    | VarCode(id: string, code: Code)
    | For(id: string, sep: Option<string>, code: Code)
    | If(exp: string, thenBranch: Code, elseBranch: Option<Code>)
    | Range(id: string, exp1: string, exp2: string)
    | Identifier(name: string)          // from $name
    | Expression(exp: string)           // from $(...)
    | LiteralDollar
    | Block(code: Code)

  /** not s.strip() */
  predicate IsBlank(s: string) {
    forall i | 0 <= i < |s| :: s[i] in {' ', '\t', '\n', '\r', '\U{000B}', '\U{000C}'}
  }

  /** Blank are the texts of spaces and the control characters from tab to
      carriage return. */
  lemma BlankByText(s: string)
    ensures IsBlank(s) <==> forall i | 0 <= i < |s| :: s[i] == ' ' || 0x09 <= s[i] as int <= 0x0D
  {
  }

  // ---------------------------------------------------------------------
  // The parser as functions
  // ---------------------------------------------------------------------

  /** Failed stands for the error exits and for the exceptions on running out
      of tokens. */
  datatype Parse<+T> = Failed | Ok(node: T, rest: seq<Token>)

  /** Stops means that the token is put back and no node is made. */
  datatype AtomicParse = Error | Stops | Node(atomic: Atomic, rest: seq<Token>)

  predicate Next(tokens: seq<Token>, kind: Kind) {
    tokens != [] && tokens[0].kind == kind
  }

  // The code between [[ and ]].
  function ParseBracketed(tokens: seq<Token>): (p: Parse<Code>)
    ensures p.Ok? ==> |p.rest| + 2 <= |tokens|
    decreases |tokens|, 0
  {
    if !Next(tokens, KOpen) then Failed
    else
      match ParseCode(tokens[1..])
      case Failed => Failed
      case Ok(code, rest) => if Next(rest, KClose) then Ok(code, rest[1..]) else Failed
  }

  function ParseElse(tokens: seq<Token>): (p: Parse<Option<Code>>)
    ensures p.Ok? ==> |p.rest| <= |tokens|
    decreases |tokens|, 1
  {
    if tokens == [] then Ok(None, [])
    else if tokens[0].kind == KElse then
      match ParseBracketed(tokens[1..])
      case Failed => Failed
      case Ok(code, rest) => Ok(Some(code), rest)
    else if tokens[0].kind == KElif then
      match ParseConditional(tokens[1..])
      case Failed => Failed
      case Ok(conditional, rest) => Ok(Some(Code([conditional])), rest)
    else if IsBlank(tokens[0].value) then
      if tokens[0].kind == KCode then ParseElse(tokens[1..]) else Failed
    else Ok(None, tokens)
  }

  // What follows $if and $elif: condition, branch and else part.
  function ParseConditional(tokens: seq<Token>): (p: Parse<Atomic>)
    ensures p.Ok? ==> |p.rest| < |tokens| && p.node.If?
    decreases |tokens|, 2
  {
    if !Next(tokens, KCode) then Failed
    else
      match ParseBracketed(tokens[1..])
      case Failed => Failed
      case Ok(branch, rest) =>
        match ParseElse(rest)
        case Failed => Failed
        case Ok(other, rest') => Ok(If(tokens[0].value, branch, other), rest')
  }

  // What follows $var.
  function ParseVar(tokens: seq<Token>): (p: Parse<Atomic>)
    ensures p.Ok? ==> |p.rest| < |tokens|
    decreases |tokens|, 2
  {
    if |tokens| < 3 || tokens[0].kind != KId || tokens[1].kind != KEq then Failed
    else if tokens[2].kind == KExp then Ok(VarExp(tokens[0].value, tokens[2].value), tokens[3..])
    else
      match ParseBracketed(tokens[2..])
      case Failed => Failed
      case Ok(code, rest) => Ok(VarCode(tokens[0].value, code), rest)
  }

  // What follows $for.
  function ParseFor(tokens: seq<Token>): (p: Parse<Atomic>)
    ensures p.Ok? ==> |p.rest| < |tokens|
    decreases |tokens|, 2
  {
    if |tokens| < 2 || tokens[0].kind != KId then Failed
    else
      var sep := if tokens[1].kind == KCode then Some(tokens[1].value) else None;
      match ParseBracketed(tokens[if sep.Some? then 2 else 1..])
      case Failed => Failed
      case Ok(code, rest) => Ok(For(tokens[0].value, sep, code), rest)
  }

  // What follows $range.
  function ParseRange(tokens: seq<Token>): (p: Parse<Atomic>)
    ensures p.Ok? ==> |p.rest| < |tokens|
  {
    if |tokens| < 4 || tokens[0].kind != KId || tokens[1].kind != KExp then Failed
    else if tokens[2].kind != KDotDot || tokens[3].kind != KExp then Failed
    else Ok(Range(tokens[0].value, tokens[1].value, tokens[3].value), tokens[4..])
  }

  function AsAtomic(p: Parse<Atomic>): AtomicParse {
    match p
    case Failed => Error
    case Ok(atomic, rest) => Node(atomic, rest)
  }

  function ParseAtomic(tokens: seq<Token>): (p: AtomicParse)
    requires tokens != []
    ensures p.Node? ==> |p.rest| < |tokens|
    decreases |tokens|, 3
  {
    var head, rest := tokens[0], tokens[1..];
    match head.kind
    case KCode => Node(Raw(head.value), rest)
    case KVar => AsAtomic(ParseVar(rest))
    case KFor => AsAtomic(ParseFor(rest))
    case KIf => AsAtomic(ParseConditional(rest))
    case KRange => AsAtomic(ParseRange(rest))
    case KDollarId => Node(Identifier(if head.value == "" then "" else head.value[1..]), rest)
    case KLiteralDollar => Node(LiteralDollar, rest)
    case KDollar => if Next(rest, KExp) then Node(Expression(rest[0].value), rest[1..]) else Error
    case KOpen =>
      (match ParseBracketed(tokens)
       case Failed => Error
       case Ok(code, rest') => Node(Block(code), rest'))
    case _ => Stops
  }

  function ParseCode(tokens: seq<Token>): (p: Parse<Code>)
    ensures p.Ok? ==> |p.rest| <= |tokens|
    decreases |tokens|, 4
  {
    if tokens == [] then Ok(Code([]), [])
    else
      match ParseAtomic(tokens)
      case Error => Failed
      case Stops => Ok(Code([]), tokens)
      case Node(atomic, rest) =>
        match ParseCode(rest)
        case Failed => Failed
        case Ok(code, rest') => Ok(Code([atomic] + code.atoms), rest')
  }

  // ---------------------------------------------------------------------
  // Printing a tree as tokens, ahead of the tokens that follow it. With
  // elif, an else branch that is a single $if is written as $elif.
  // ---------------------------------------------------------------------

  /** The tokens from one on. */
  function Before(kind: Kind, value: string, rest: seq<Token>): (tokens: seq<Token>)
    ensures tokens != [] && tokens[0] == Token(kind, value) && tokens[1..] == rest
  {
    [Token(kind, value)] + rest
  }

  function PrintBracketed(code: Code, elif: bool, rest: seq<Token>): seq<Token>
    decreases code, 1
  {
    Before(KOpen, "[[", PrintCode(code, elif, Before(KClose, "]]", rest)))
  }

  function PrintCode(code: Code, elif: bool, rest: seq<Token>): seq<Token>
    decreases code, 0
  {
    PrintAtoms(code.atoms, elif, rest)
  }

  function PrintAtoms(atoms: seq<Atomic>, elif: bool, rest: seq<Token>): seq<Token>
    decreases atoms, 0
  {
    if atoms == [] then rest else PrintAtomic(atoms[0], elif, PrintAtoms(atoms[1..], elif, rest))
  }

  function PrintAtomic(a: Atomic, elif: bool, rest: seq<Token>): (tokens: seq<Token>)
    ensures tokens != []
    decreases a, 1
  {
    match a
    case Raw(text) => Before(KCode, text, rest)
    case VarExp(id, exp) => Before(KVar, "$var ", Before(KId, id, Before(KEq, "=", Before(KExp, exp, rest))))
    case VarCode(id, code) => Before(KVar, "$var ", Before(KId, id, Before(KEq, "=", PrintBracketed(code, elif, rest))))
    case For(id, sep, code) =>
      var body := PrintBracketed(code, elif, rest);
      Before(KFor, "$for ", Before(KId, id, if sep.Some? then Before(KCode, sep.value, body) else body))
    case If(_, _, _) => Before(KIf, "$if ", PrintConditional(a, elif, rest))
    case Range(id, exp1, exp2) =>
      Before(KRange, "$range ", Before(KId, id, Before(KExp, exp1, Before(KDotDot, "..", Before(KExp, exp2, rest)))))
    case Identifier(name) => Before(KDollarId, "$" + name, rest)
    case Expression(exp) => Before(KDollar, "$", Before(KExp, exp, rest))
    case LiteralDollar => Before(KLiteralDollar, "$($)", rest)
    case Block(code) => PrintBracketed(code, elif, rest)
  }

  function PrintConditional(a: Atomic, elif: bool, rest: seq<Token>): seq<Token>
    requires a.If?
    decreases a, 0
  {
    Before(KCode, a.exp, PrintBracketed(a.thenBranch, elif, PrintElse(a.elseBranch, elif, rest)))
  }

  function PrintElse(other: Option<Code>, elif: bool, rest: seq<Token>): seq<Token>
    decreases other, 0
  {
    if other.None? then rest
    else if elif && IsConditional(other.value) then
      Before(KElif, "$elif ", PrintConditional(other.value.atoms[0], elif, rest))
    else Before(KElse, "$else ", PrintBracketed(other.value, elif, rest))
  }

  predicate IsConditional(code: Code) {
    |code.atoms| == 1 && code.atoms[0].If?
  }

  lemma BeforeAppend(kind: Kind, value: string, rest: seq<Token>, more: seq<Token>)
    ensures Before(kind, value, rest + more) == Before(kind, value, rest) + more
  {
  }

  /** What follows a tree does not change how the tree is printed. */
  lemma {:induction false} PrintAppend(code: Code, elif: bool, rest: seq<Token>, more: seq<Token>)
    ensures PrintCode(code, elif, rest + more) == PrintCode(code, elif, rest) + more
    decreases code, 0
  {
    PrintAtomsAppend(code.atoms, elif, rest, more);
  }

  lemma {:induction false} PrintAtomsAppend(atoms: seq<Atomic>, elif: bool, rest: seq<Token>, more: seq<Token>)
    ensures PrintAtoms(atoms, elif, rest + more) == PrintAtoms(atoms, elif, rest) + more
    decreases atoms, 0
  {
    if atoms == [] {
    } else {
      PrintAtomsAppend(atoms[1..], elif, rest, more);
      PrintAtomicAppend(atoms[0], elif, PrintAtoms(atoms[1..], elif, rest), more);
    }
  }

  lemma {:induction false} PrintBracketedAppend(code: Code, elif: bool, rest: seq<Token>, more: seq<Token>)
    ensures PrintBracketed(code, elif, rest + more) == PrintBracketed(code, elif, rest) + more
    decreases code, 1
  {
    PrintAppend(code, elif, Before(KClose, "]]", rest), more);
    BeforeAppend(KClose, "]]", rest, more);
    BeforeAppend(KOpen, "[[", PrintCode(code, elif, Before(KClose, "]]", rest)), more);
  }

  lemma {:induction false} PrintConditionalAppend(a: Atomic, elif: bool, rest: seq<Token>, more: seq<Token>)
    requires a.If?
    ensures PrintConditional(a, elif, rest + more) == PrintConditional(a, elif, rest) + more
    decreases a, 0
  {
    hide PrintBracketed, PrintElse;
    PrintElseAppend(a.elseBranch, elif, rest, more);
    PrintBracketedAppend(a.thenBranch, elif, PrintElse(a.elseBranch, elif, rest), more);
  }

  lemma {:induction false} PrintElseAppend(other: Option<Code>, elif: bool, rest: seq<Token>, more: seq<Token>)
    ensures PrintElse(other, elif, rest + more) == PrintElse(other, elif, rest) + more
    decreases other, 0
  {
    hide PrintBracketed, PrintConditional;
    if other.None? {
    } else if elif && IsConditional(other.value) {
      PrintConditionalAppend(other.value.atoms[0], elif, rest, more);
    } else {
      PrintBracketedAppend(other.value, elif, rest, more);
    }
  }

  lemma {:induction false} PrintAtomicAppend(a: Atomic, elif: bool, rest: seq<Token>, more: seq<Token>)
    ensures PrintAtomic(a, elif, rest + more) == PrintAtomic(a, elif, rest) + more
    decreases a, 1
  {
    hide Before, PrintBracketed, PrintConditional;
    forall kind, value, after: seq<Token>
      ensures Before(kind, value, after + more) == Before(kind, value, after) + more
    {
      BeforeAppend(kind, value, after, more);
    }
    match a
    case VarCode(id, code) => PrintBracketedAppend(code, elif, rest, more);
    case For(id, sep, code) => PrintBracketedAppend(code, elif, rest, more);
    case If(_, _, _) => PrintConditionalAppend(a, elif, rest, more);
    case Block(code) => PrintBracketedAppend(code, elif, rest, more);
    case _ =>
  }

  // ---------------------------------------------------------------------
  // Trees that survive: an $if printed without a closing $else swallows
  // blank code that comes right after it.
  // ---------------------------------------------------------------------

  predicate OpenEnded(a: Atomic, elif: bool) {
    && a.If?
    && (|| a.elseBranch.None?
        || (elif && IsConditional(a.elseBranch.value) && OpenEnded(a.elseBranch.value.atoms[0], elif)))
  }

  predicate IsBlankCode(a: Atomic) {
    a.Raw? && IsBlank(a.text)
  }

  predicate NothingSwallowed(code: Code, elif: bool) {
    NoneSwallowed(code.atoms, elif)
  }

  predicate NoneSwallowed(atoms: seq<Atomic>, elif: bool)
    decreases atoms
  {
    atoms != [] ==>
      && NothingSwallowedIn(atoms[0], elif)
      && NoneSwallowed(atoms[1..], elif)
      && (OpenEnded(atoms[0], elif) && |atoms| > 1 ==> !IsBlankCode(atoms[1]))
  }

  predicate NothingSwallowedIn(a: Atomic, elif: bool)
    decreases a
  {
    match a
    case VarCode(_, code) => NothingSwallowed(code, elif)
    case For(_, _, code) => NothingSwallowed(code, elif)
    case If(_, branch, other) => NothingSwallowed(branch, elif) && (other.Some? ==> NothingSwallowed(other.value, elif))
    case Block(code) => NothingSwallowed(code, elif)
    case _ => true
  }

  // ---------------------------------------------------------------------
  // Parsing what was printed
  // ---------------------------------------------------------------------

  predicate EndsCode(rest: seq<Token>) {
    rest != [] ==> rest[0].kind == KClose && !IsBlank(rest[0].value)
  }

  predicate EndsIf(rest: seq<Token>) {
    rest != [] ==> rest[0].kind != KElse && rest[0].kind != KElif && !IsBlank(rest[0].value)
  }

  lemma {:induction false} ParsePrintedAhead(code: Code, elif: bool, rest: seq<Token>)
    requires NothingSwallowed(code, elif) && EndsCode(rest)
    ensures ParseCode(PrintCode(code, elif, rest)) == Ok(code, rest)
    decreases code, 0
  {
    ParsePrintedAtoms(code.atoms, elif, rest);
  }

  lemma {:induction false} ParsePrintedAtoms(atoms: seq<Atomic>, elif: bool, rest: seq<Token>)
    requires NoneSwallowed(atoms, elif) && EndsCode(rest)
    ensures ParseCode(PrintAtoms(atoms, elif, rest)) == Ok(Code(atoms), rest)
    decreases atoms, 0
  {
    if atoms == [] {
    } else {
      var follow := PrintAtoms(atoms[1..], elif, rest);
      FollowEndsIf(atoms, elif, rest);
      ParsePrintedAtomic(atoms[0], elif, follow);
      ParsePrintedAtoms(atoms[1..], elif, rest);
      assert [atoms[0]] + atoms[1..] == atoms;
    }
  }

  lemma {:induction false} FollowEndsIf(atoms: seq<Atomic>, elif: bool, rest: seq<Token>)
    requires atoms != [] && NoneSwallowed(atoms, elif) && EndsCode(rest)
    ensures OpenEnded(atoms[0], elif) ==> EndsIf(PrintAtoms(atoms[1..], elif, rest))
  {
    if OpenEnded(atoms[0], elif) && |atoms| > 1 {
      PrintedStart(atoms[1], elif, PrintAtoms(atoms[1..][1..], elif, rest));
    }
  }

  lemma {:induction false} PrintedStart(a: Atomic, elif: bool, rest: seq<Token>)
    ensures !IsBlankCode(a) ==> EndsIf(PrintAtomic(a, elif, rest))
  {
    hide IsBlank, Before, PrintCode, PrintConditional;
    match a
    case Raw(_) =>
    case VarExp(_, _) => StartsUnblank("$var ");
    case VarCode(_, _) => StartsUnblank("$var ");
    case For(_, _, _) => StartsUnblank("$for ");
    case If(_, _, _) => StartsUnblank("$if ");
    case Range(_, _, _) => StartsUnblank("$range ");
    case Identifier(name) => StartsUnblank("$" + name);
    case Expression(_) => StartsUnblank("$");
    case LiteralDollar => StartsUnblank("$($)");
    case Block(_) => StartsUnblank("[[");
  }

  lemma StartsUnblank(s: string)
    requires s != "" && (s[0] == '$' || s[0] == '[')
    ensures !IsBlank(s)
  {
    assert s[0] !in {' ', '\t', '\n', '\r', '\U{000B}', '\U{000C}'};
  }

  lemma {:induction false} ParsePrintedBracketed(code: Code, elif: bool, rest: seq<Token>)
    requires NothingSwallowed(code, elif)
    ensures ParseBracketed(PrintBracketed(code, elif, rest)) == Ok(code, rest)
    decreases code, 1
  {
    var close := Token(KClose, "]]");
    assert close.value[0] == ']';
    ParsePrintedAhead(code, elif, Before(KClose, "]]", rest));
  }

  lemma {:induction false} ParsePrintedVar(id: string, code: Code, elif: bool, rest: seq<Token>)
    requires NothingSwallowed(code, elif)
    ensures ParseVar(Before(KId, id, Before(KEq, "=", PrintBracketed(code, elif, rest)))) == Ok(VarCode(id, code), rest)
    decreases code, 2
  {
    var body := PrintBracketed(code, elif, rest);
    ParsePrintedBracketed(code, elif, rest);
    assert Before(KId, id, Before(KEq, "=", body))[2..] == Before(KEq, "=", body)[1..];
  }

  lemma {:induction false} ParsePrintedFor(id: string, sep: Option<string>, code: Code, elif: bool, rest: seq<Token>)
    requires NothingSwallowed(code, elif)
    ensures var body := PrintBracketed(code, elif, rest);
            ParseFor(Before(KId, id, if sep.Some? then Before(KCode, sep.value, body) else body))
            == Ok(For(id, sep, code), rest)
    decreases code, 2
  {
    var body := PrintBracketed(code, elif, rest);
    ParsePrintedBracketed(code, elif, rest);
    if sep.Some? {
      assert Before(KId, id, Before(KCode, sep.value, body))[2..] == Before(KCode, sep.value, body)[1..];
    }
  }

  lemma ParsePrintedFlat(a: Atomic, elif: bool, rest: seq<Token>)
    requires a.VarExp? || a.Range?
    ensures ParseAtomic(PrintAtomic(a, elif, rest)) == Node(a, rest)
  {
    var inner := PrintAtomic(a, elif, rest)[1..];
    if a.VarExp? {
      assert inner[3..] == inner[1..][1..][1..];
    } else {
      assert inner[4..] == inner[1..][1..][1..][1..];
    }
  }

  lemma {:induction false} ParsePrintedAtomic(a: Atomic, elif: bool, rest: seq<Token>)
    requires NothingSwallowedIn(a, elif)
    requires OpenEnded(a, elif) ==> EndsIf(rest)
    ensures ParseAtomic(PrintAtomic(a, elif, rest)) == Node(a, rest)
    decreases a, 1
  {
    hide ParseVar, ParseFor, ParseRange, ParseConditional, ParseBracketed;
    hide PrintBracketed, PrintConditional;
    match a
    case VarExp(_, _) => ParsePrintedFlat(a, elif, rest);
    case VarCode(id, code) => ParsePrintedVar(id, code, elif, rest);
    case For(id, sep, code) => ParsePrintedFor(id, sep, code, elif, rest);
    case If(_, _, _) => ParsePrintedConditional(a, elif, rest);
    case Range(_, _, _) => ParsePrintedFlat(a, elif, rest);
    case Block(code) =>
      ParsePrintedBracketed(code, elif, rest);
      PrintedBracketedOpens(code, elif, rest);
    case _ =>
  }

  lemma PrintedBracketedOpens(code: Code, elif: bool, rest: seq<Token>)
    ensures Next(PrintBracketed(code, elif, rest), KOpen)
  {
  }

  lemma {:induction false} ParsePrintedConditional(a: Atomic, elif: bool, rest: seq<Token>)
    requires a.If? && NothingSwallowedIn(a, elif)
    requires OpenEnded(a, elif) ==> EndsIf(rest)
    ensures ParseConditional(PrintConditional(a, elif, rest)) == Ok(a, rest)
    decreases a, 0
  {
    ParsePrintedElse(a.elseBranch, elif, rest);
    ParsePrintedBracketed(a.thenBranch, elif, PrintElse(a.elseBranch, elif, rest));
  }

  lemma {:induction false} ParsePrintedElse(other: Option<Code>, elif: bool, rest: seq<Token>)
    requires other.Some? ==> NothingSwallowed(other.value, elif)
    requires other.None? ==> EndsIf(rest)
    requires other.Some? && elif && IsConditional(other.value) && OpenEnded(other.value.atoms[0], elif) ==> EndsIf(rest)
    ensures ParseElse(PrintElse(other, elif, rest)) == Ok(other, rest)
    decreases other, 0
  {
    if other.None? {
    } else if elif && IsConditional(other.value) {
      ParsePrintedConditional(other.value.atoms[0], elif, rest);
      assert other.value.atoms == [other.value.atoms[0]];
    } else {
      ParsePrintedBracketed(other.value, elif, rest);
    }
  }

  /** Parsing the printed form with something after it gives back the tree and
      what follows it. */
  lemma ParsePrinted(code: Code, elif: bool, rest: seq<Token>)
    requires NothingSwallowed(code, elif) && EndsCode(rest)
    ensures ParseCode(PrintCode(code, elif, []) + rest) == Ok(code, rest)
  {
    assert [] + rest == rest;
    PrintAppend(code, elif, [], rest);
    ParsePrintedAhead(code, elif, rest);
  }

  // ---------------------------------------------------------------------
  // What the parser can make
  // ---------------------------------------------------------------------

  lemma {:induction false} ParsedBracketed(tokens: seq<Token>)
    ensures var p := ParseBracketed(tokens); p.Ok? ==> NothingSwallowed(p.node, false)
    decreases |tokens|, 0
  {
    if Next(tokens, KOpen) {
      ParsedCode(tokens[1..]);
    }
  }

  lemma {:induction false} ParsedElse(tokens: seq<Token>)
    ensures var p := ParseElse(tokens); p.Ok? ==>
      && (p.node.Some? ==> NothingSwallowed(p.node.value, false))
      && (p.node.None? ==> EndsIf(p.rest))
    decreases |tokens|, 1
  {
    if tokens == [] {
    } else if tokens[0].kind == KElse {
      ParsedBracketed(tokens[1..]);
    } else if tokens[0].kind == KElif {
      ParsedConditional(tokens[1..]);
    } else if IsBlank(tokens[0].value) && tokens[0].kind == KCode {
      ParsedElse(tokens[1..]);
    }
  }

  lemma {:induction false} ParsedConditional(tokens: seq<Token>)
    ensures var p := ParseConditional(tokens); p.Ok? ==>
      && NothingSwallowedIn(p.node, false)
      && (OpenEnded(p.node, false) ==> EndsIf(p.rest))
    decreases |tokens|, 2
  {
    if Next(tokens, KCode) {
      ParsedBracketed(tokens[1..]);
      match ParseBracketed(tokens[1..])
      case Failed =>
      case Ok(branch, rest) => ParsedElse(rest);
    }
  }

  lemma {:induction false} ParsedAtomic(tokens: seq<Token>)
    requires tokens != []
    ensures var p := ParseAtomic(tokens); p.Node? ==>
      && NothingSwallowedIn(p.atomic, false)
      && (OpenEnded(p.atomic, false) ==> EndsIf(p.rest))
      && (IsBlankCode(p.atomic) ==> IsBlank(tokens[0].value))
    decreases |tokens|, 3
  {
    var rest := tokens[1..];
    match tokens[0].kind
    case KVar => if |rest| >= 3 { ParsedBracketed(rest[2..]); }
    case KFor =>
      if |rest| >= 2 {
        ParsedBracketed(rest[1..]);
        ParsedBracketed(rest[2..]);
      }
    case KIf => ParsedConditional(rest);
    case KOpen => ParsedBracketed(tokens);
    case _ =>
  }

  /** Every tree the parser makes keeps its blank code away from open $ifs. */
  lemma {:induction false} ParsedCode(tokens: seq<Token>)
    ensures var p := ParseCode(tokens); p.Ok? ==> NothingSwallowed(p.node, false)
    decreases |tokens|, 4
  {
    if tokens != [] {
      ParsedAtomic(tokens);
      match ParseAtomic(tokens)
      case Error =>
      case Stops =>
      case Node(atomic, rest) =>
        ParsedCode(rest);
        if rest != [] { ParsedAtomic(rest); }
    }
  }

  /** The round trip, exactly. */
  lemma {:induction false} PlainRoundTripIff(code: Code)
    ensures ParseCode(PrintCode(code, false, [])) == Ok(code, []) <==> NothingSwallowed(code, false)
  {
    ParsedCode(PrintCode(code, false, []));
    if NothingSwallowed(code, false) {
      ParsePrintedAhead(code, false, []);
    }
  }

  /** Printing a parsed tree and parsing again changes nothing. */
  lemma {:induction false} ReparseIsStable(tokens: seq<Token>)
    ensures var p := ParseCode(tokens); p.Ok? ==> ParseCode(PrintCode(p.node, false, [])) == Ok(p.node, [])
  {
    ParsedCode(tokens);
    var p := ParseCode(tokens);
    if p.Ok? {
      PlainRoundTripIff(p.node);
    }
  }

  // ---------------------------------------------------------------------
  // The parser on a mutable token list
  // ---------------------------------------------------------------------

  /** The token list that the parsing procedures share. A None result stands
      for the error exits and exceptions, after which the list is not used. */
  class TokenList {
    var tokens: seq<Token>

    constructor (tokens: seq<Token>)
      ensures this.tokens == tokens
    {
      this.tokens := tokens;
    }

    method PopFront() returns (head: Option<Token>)
      modifies this
      ensures old(tokens) == [] ==> head == None && tokens == []
      ensures old(tokens) != [] ==> head == Some(old(tokens)[0]) && tokens == old(tokens)[1..]
    {
      if tokens == [] {
        return None;
      }
      head := Some(tokens[0]);
      tokens := tokens[1..];
    }

    method PushFront(elem: Token)
      modifies this
      ensures tokens == [elem] + old(tokens)
    {
      tokens := [elem] + tokens;
    }

    method PopToken(kind: Kind) returns (token: Option<Token>)
      modifies this
      ensures token.Some? <==> Next(old(tokens), kind)
      ensures token.Some? ==> token == Some(old(tokens)[0]) && tokens == old(tokens)[1..]
    {
      token := PopFront();
      if token.Some? && token.value.kind != kind {
        token := None;
      }
    }

    method PeekToken() returns (head: Option<Token>)
      ensures head == if tokens == [] then None else Some(tokens[0])
    {
      if tokens == [] {
        return None;
      }
      head := Some(tokens[0]);
    }

    // [[, the code and ]]
    method ParseBracketedNode() returns (node: Option<Code>)
      modifies this
      ensures var p := ParseBracketed(old(tokens));
              if p.Ok? then node == Some(p.node) && tokens == p.rest else node.None?
      decreases |tokens|, 0
    {
      var open := PopToken(KOpen);
      if open.None? {
        return None;
      }
      node := ParseCodeNode();
      if node.None? {
        return;
      }
      var close := PopToken(KClose);
      if close.None? {
        return None;
      }
    }

    method ParseElseNode() returns (ok: bool, node: Option<Code>)
      modifies this
      ensures var p := ParseElse(old(tokens));
              if p.Ok? then ok && node == p.node && tokens == p.rest else !ok
      decreases |tokens|, 1
    {
      var next := PeekToken();
      if next.None? {
        return true, None;
      }
      if next.value.kind == KElse {
        var _ := PopToken(KElse);
        node := ParseBracketedNode();
        return node.Some?, node;
      }
      if next.value.kind == KElif {
        var _ := PopToken(KElif);
        var conditional := ParseConditionalNode();
        if conditional.None? {
          return false, None;
        }
        return true, Some(Code([conditional.value]));
      }
      if IsBlank(next.value.value) {
        var code := PopToken(KCode);
        if code.None? {
          return false, None;
        }
        ok, node := ParseElseNode();
        return;
      }
      return true, None;
    }

    // What follows $if and $elif
    method ParseConditionalNode() returns (node: Option<Atomic>)
      modifies this
      ensures var p := ParseConditional(old(tokens));
              if p.Ok? then node == Some(p.node) && tokens == p.rest else node.None?
      decreases |tokens|, 2
    {
      var exp := PopToken(KCode);
      if exp.None? {
        return None;
      }
      var branch := ParseBracketedNode();
      if branch.None? {
        return None;
      }
      var ok, other := ParseElseNode();
      if !ok {
        return None;
      }
      return Some(If(exp.value.value, branch.value, other));
    }

    // What follows $var
    method ParseVarNode() returns (node: Option<Atomic>)
      modifies this
      ensures var p := ParseVar(old(tokens));
              if p.Ok? then node == Some(p.node) && tokens == p.rest else node.None?
      decreases |tokens|, 2
    {
      var id := PopToken(KId);
      if id.None? {
        return None;
      }
      var eq := PopToken(KEq);
      if eq.None? {
        return None;
      }
      var next := PeekToken();
      if next.None? {
        return None;
      }
      if next.value.kind == KExp {
        var exp := PopToken(KExp);
        return Some(VarExp(id.value.value, exp.value.value));
      }
      var code := ParseBracketedNode();
      if code.None? {
        return None;
      }
      return Some(VarCode(id.value.value, code.value));
    }

    // What follows $for
    method ParseForNode() returns (node: Option<Atomic>)
      modifies this
      ensures var p := ParseFor(old(tokens));
              if p.Ok? then node == Some(p.node) && tokens == p.rest else node.None?
      decreases |tokens|, 2
    {
      var id := PopToken(KId);
      if id.None? {
        return None;
      }
      var next := PeekToken();
      if next.None? {
        return None;
      }
      var sep := None;
      if next.value.kind == KCode {
        sep := Some(next.value.value);
        var _ := PopToken(KCode);
      }
      var code := ParseBracketedNode();
      if code.None? {
        return None;
      }
      return Some(For(id.value.value, sep, code.value));
    }

    // What follows $range
    method ParseRangeNode() returns (node: Option<Atomic>)
      modifies this
      ensures var p := ParseRange(old(tokens));
              if p.Ok? then node == Some(p.node) && tokens == p.rest else node.None?
    {
      var id := PopToken(KId);
      if id.None? {
        return None;
      }
      var exp1 := PopToken(KExp);
      if exp1.None? {
        return None;
      }
      var dots := PopToken(KDotDot);
      if dots.None? {
        return None;
      }
      var exp2 := PopToken(KExp);
      if exp2.None? {
        return None;
      }
      return Some(Range(id.value.value, exp1.value.value, exp2.value.value));
    }

    /** ok is false on an error; otherwise no node means that the head token
        was put back. */
    method ParseAtomicCodeNode() returns (ok: bool, node: Option<Atomic>)
      requires tokens != []
      modifies this
      ensures var p := ParseAtomic(old(tokens));
              match p
              case Error => !ok
              case Stops => ok && node.None? && tokens == old(tokens)
              case Node(atomic, rest) => ok && node == Some(atomic) && tokens == rest
      decreases |tokens|, 3
    {
      var head := tokens[0];
      var _ := PopFront();
      match head.kind {
        case KCode => return true, Some(Raw(head.value));
        case KVar => node := ParseVarNode();
        case KFor => node := ParseForNode();
        case KIf => node := ParseConditionalNode();
        case KRange => node := ParseRangeNode();
        case KDollarId => return true, Some(Identifier(if head.value == "" then "" else head.value[1..]));
        case KLiteralDollar => return true, Some(LiteralDollar);
        case KDollar =>
          var exp := PopToken(KExp);
          return exp.Some?, if exp.Some? then Some(Expression(exp.value.value)) else None;
        case KOpen =>
          var code := ParseCodeNode();
          if code.None? {
            return false, None;
          }
          var close := PopToken(KClose);
          return close.Some?, Some(Block(code.value));
        case _ =>
          PushFront(head);
          assert [head] + old(tokens)[1..] == old(tokens);
          return true, None;
      }
      ok := node.Some?;
    }

    method ParseCodeNode() returns (node: Option<Code>)
      modifies this
      ensures var p := ParseCode(old(tokens));
              if p.Ok? then node == Some(p.node) && tokens == p.rest else node.None?
      decreases |tokens|, 4
    {
      var atoms: seq<Atomic> := [];
      PrefixedNone(ParseCode(tokens));
      while tokens != []
        invariant |tokens| <= |old(tokens)|
        invariant ParseCode(old(tokens)) == Prefixed(atoms, ParseCode(tokens))
        decreases |tokens|
      {
        var ok, atomic := ParseAtomicCodeNode();
        if !ok {
          return None;
        }
        if atomic.None? {
          break;
        }
        PrefixedStep(atoms, atomic.value, ParseCode(tokens));
        atoms := atoms + [atomic.value];
      }
      assert atoms + [] == atoms;
      return Some(Code(atoms));
    }
  }

  ghost function Prefixed(atoms: seq<Atomic>, p: Parse<Code>): Parse<Code> {
    match p
    case Failed => Failed
    case Ok(code, rest) => Ok(Code(atoms + code.atoms), rest)
  }

  lemma PrefixedNone(p: Parse<Code>)
    ensures Prefixed([], p) == p
  {
    if p.Ok? {
      assert [] + p.node.atoms == p.node.atoms;
    }
  }

  lemma PrefixedStep(atoms: seq<Atomic>, a: Atomic, p: Parse<Code>)
    ensures Prefixed(atoms, Prefixed([a], p)) == Prefixed(atoms + [a], p)
  {
    if p.Ok? {
      assert atoms + ([a] + p.node.atoms) == atoms + [a] + p.node.atoms;
    }
  }
}
