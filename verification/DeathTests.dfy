/** The classes and functions of gtest-death-test.cc around the protocol: the
    outcome of a death test, the flag that tells an exec-style child which
    death test to run, and the factory that obeys it. */
module DeathTests {
  import opened CStrings
  import opened DeathTestProtocol
  import opened Numbers
  import opened SimpleRegex

  // ---------------------------------------------------------------------
  // DeathTestImpl
  // ---------------------------------------------------------------------

  /** What one read of the status byte can return. */
  datatype ReadResult = Eintr | EndOfFile | Byte(flag: char) | ReadError

  datatype Control = Continues | ProgramEnds

  function FirstAnswer(results: seq<ReadResult>): (i: nat)
    ensures i <= |results|
    ensures forall k | 0 <= k < i :: results[k].Eintr?
    ensures i < |results| ==> !results[i].Eintr?
  {
    if results == [] || !results[0].Eintr? then 0 else 1 + FirstAnswer(results[1..])
  }

  /** What the reads decide; None means that the program ends. */
  function Decided(results: seq<ReadResult>): Option<Outcome>
    requires FirstAnswer(results) < |results|
  {
    match results[FirstAnswer(results)]
    case EndOfFile => Some(Died)
    case Byte(flag) => Interpret(flag)
    case _ => None
  }

  /** What the reads of a run return, one after the other. */
  function ReadResults(steps: seq<Step>): seq<ReadResult>
    requires IsRun(steps)
  {
    if steps == [] then []
    else
      var before := steps[..|steps| - 1];
      var s := After(before);
      match steps[|steps| - 1]
      case Interrupted => ReadResults(before) + [Eintr]
      case ReadStatus => ReadResults(before) + [if s.pipe == "" then EndOfFile else Byte(s.pipe[0])]
      case _ => ReadResults(before)
  }

  predicate HasRead(s: State) { !s.parent.Spawned? && !s.parent.Reading? }

  lemma FirstAnswerAppend(results: seq<ReadResult>, last: ReadResult)
    ensures FirstAnswer(results + [last]) ==
            FirstAnswer(results) + if FirstAnswer(results) == |results| && last.Eintr? then 1 else 0
  {
    if results != [] && results[0].Eintr? {
      assert (results + [last])[1..] == results[1..] + [last];
      FirstAnswerAppend(results[1..], last);
    }
  }

  /** In every run, the reads have decided the outcome exactly when the parent
      has it, and the same one. */
  lemma {:induction false} ReadsDecide(steps: seq<Step>)
    requires IsRun(steps)
    ensures var results, s := ReadResults(steps), After(steps);
            && (FirstAnswer(results) < |results| <==> HasRead(s))
            && (HasRead(s) ==> Decided(results) == if s.parent.Fatal? then None else Some(s.outcome))
  {
    hide Interpret;
    if steps != [] {
      var before, last := steps[..|steps| - 1], steps[|steps| - 1];
      ReadsDecide(before);
      var s := After(before);
      if last.Interrupted? {
        FirstAnswerAppend(ReadResults(before), Eintr);
      } else if last.ReadStatus? {
        FirstAnswerAppend(ReadResults(before), if s.pipe == "" then EndOfFile else Byte(s.pipe[0]));
      }
    }
  }

  class DeathTestImpl {
    const regex: RE
    var spawned: bool
    var status: int
    var outcome: Outcome
    var readFd: int
    var writeFd: int

    constructor (regex: RE)
      ensures this.regex == regex && !spawned && outcome.InProgress?
      ensures status == -1 && readFd == -1 && writeFd == -1
    {
      this.regex := regex;
      spawned, status, outcome, readFd, writeFd := false, -1, InProgress, -1, -1;
    }

    /** Reads the status byte and decides the outcome. results is what successive
        reads return; interrupted ones are repeated. */
    method ReadAndInterpretStatusByte(results: seq<ReadResult>) returns (c: Control)
      requires FirstAnswer(results) < |results|
      modifies this`outcome, this`readFd
      ensures match results[FirstAnswer(results)]
              case EndOfFile => c.Continues? && outcome == Died
              case Byte(flag) =>
                && (c.Continues? <==> flag in {'L', 'T', 'R'})
                && (c.Continues? ==> outcome == if flag == 'L' then Lived else if flag == 'T' then Threw else Returned)
              case _ => c == ProgramEnds
      ensures c.Continues? ==> readFd == -1
      ensures c == ProgramEnds ==> outcome == old(outcome) && readFd == old(readFd)
    {
      var i := 0;
      while results[i].Eintr?
        invariant 0 <= i <= FirstAnswer(results)
        decreases |results| - i
      {
        i := i + 1;
      }
      assert i == FirstAnswer(results);
      match results[i] {
        case EndOfFile => outcome := Died;
        case Byte(flag) =>
          if flag == DEATH_TEST_RETURNED {
            outcome := Returned;
          } else if flag == DEATH_TEST_THREW {
            outcome := Threw;
          } else if flag == DEATH_TEST_LIVED {
            outcome := Lived;
          } else {
            return ProgramEnds;
          }
        case _ => return ProgramEnds;
      }
      readFd := -1;
      return Continues;
    }

    /** The byte written to the pipe before the child exits. */
    method Abort(reason: AbortReason) returns (statusCh: char)
      ensures Interpret(statusCh) == Some(OutcomeOf(reason))
      ensures statusCh == if reason.TestDidNotDie? then 'L' else if reason.TestThrewException? then 'T' else 'R'
    {
      statusCh := if reason == TestDidNotDie then DEATH_TEST_LIVED
                  else if reason == TestThrewException then DEATH_TEST_THREW
                  else DEATH_TEST_RETURNED;
    }

    /** Waits for the child: the outcome first, then its exit status. */
    method Wait(results: seq<ReadResult>, childStatus: int) returns (c: Control, statusValue: int)
      requires FirstAnswer(results) < |results|
      modifies this`outcome, this`readFd, this`status
      ensures !old(spawned) ==> c.Continues? && statusValue == 0 && unchanged(this)
      ensures old(spawned) && c.Continues? ==>
                && statusValue == childStatus == status && !outcome.InProgress?
                && Some(outcome) == Decided(results)
      ensures old(spawned) ==> (c.Continues? <==> Decided(results).Some?)
      ensures c == ProgramEnds ==> unchanged(this)
    {
      if !spawned {
        return Continues, 0;
      }
      c := ReadAndInterpretStatusByte(results);
      if c == ProgramEnds {
        return c, 0;
      }
      status := childStatus;
      return Continues, childStatus;
    }

    /** Wait on what the reads and the reaping of a finished run return: the
        parent has the outcome and the status that the run leads to. */
    method WaitOverRun(steps: seq<Step>) returns (statusValue: int)
      requires spawned && IsRun(steps) && After(steps).parent.Done?
      modifies this`outcome, this`readFd, this`status
      ensures outcome == After(steps).outcome
      ensures statusValue == status == After(steps).parent.exitStatus
    {
      ReadsDecide(steps);
      var c;
      c, statusValue := Wait(ReadResults(steps), After(steps).parent.exitStatus);
    }

    /** Judges a concluded death test. */
    method Passed(statusOk: bool, errorMessage: CString) returns (success: bool)
      requires spawned ==> !outcome.InProgress?
      requires regex.Valid() && |errorMessage| < SIZE_MAX
      ensures success <==>
              && spawned && outcome.Died? && statusOk
              && regex.pattern.Some? && PartiallyMatches(regex.pattern.value, errorMessage)
    {
      if !spawned {
        return false;
      }
      success := false;
      match outcome {
        case Died =>
          if statusOk {
            var matched := RE.PartialMatch(errorMessage, regex);
            if matched {
              success := true;
            }
          }
        case _ =>
      }
    }
  }

  // ---------------------------------------------------------------------
  // Fields and numbers
  // ---------------------------------------------------------------------

  /** Splits a string on a delimiter. */
  method SplitString(str: string, delimiter: char) returns (dest: seq<string>)
    ensures dest == Fields(str, delimiter)
  {
    hide Fields, IndexOf;
    var pos := 0;
    dest := [];
    assert str[0..] == str;
    while true
      invariant 0 <= pos <= |str| && Fields(str, delimiter) == dest + Fields(str[pos..], delimiter)
      decreases |str| - pos
    {
      var colon := pos + IndexOf(str[pos..], delimiter);
      FieldsAt(str, delimiter, pos);
      if colon == |str| {
        dest := dest + [str[pos..]];
        break;
      } else {
        ghost var rest := Fields(str[colon + 1..], delimiter);
        Associate(dest, [str[pos..colon]], rest);
        dest := dest + [str[pos..colon]];
        pos := colon + 1;
      }
    }
  }

  lemma Associate<T>(a: seq<T>, b: seq<T>, c: seq<T>)
    ensures a + (b + c) == a + b + c
  {
  }

  lemma FieldsAt(str: string, delimiter: char, pos: nat)
    requires pos <= |str|
    ensures var colon := pos + IndexOf(str[pos..], delimiter);
            Fields(str[pos..], delimiter) ==
            if colon == |str| then [str[pos..]] else [str[pos..colon]] + Fields(str[colon + 1..], delimiter)
  {
    hide Fields, IndexOf;
    var rest := str[pos..];
    var i := IndexOf(rest, delimiter);
    FieldsFirst(rest, delimiter);
    if i < |rest| {
      assert rest[..i] == str[pos..pos + i] && rest[i + 1..] == str[pos + i + 1..];
    }
  }

  const ULLONG_MAX: int := 0xFFFF_FFFF_FFFF_FFFF

  /** Conversion to a 32-bit int, and from it back to 64 unsigned bits. */
  function ToInt(n: nat): (i: int)
    ensures -INT_MAX - 1 <= i <= INT_MAX
  {
    var low := n % 0x1_0000_0000;
    if low <= INT_MAX then low else low - 0x1_0000_0000
  }

  function ToUnsigned(i: int): (n: int)
    requires -INT_MAX - 1 <= i <= INT_MAX
  {
    if i >= 0 then i else i + ULLONG_MAX + 1
  }

  /** strtoull must take the whole string, which starts with a digit, and the
      value must survive the conversion to int and back. */
  function ParseNaturalNumber(str: string): Option<int> {
    if str == "" || !IsDigit(str[0]) || !AllDigits(str) then None
    else
      var parsed := DecimalValue(str);
      if parsed > ULLONG_MAX || ToUnsigned(ToInt(parsed)) != parsed then None else Some(ToInt(parsed))
  }

  /** Exactly the texts of digits are read, leading zeros included, and by their
      value if it is an int; the topmost 2^31 values of 64 bits come out
      negative, and no other is read. */
  lemma ParseNumberExact(str: string)
    ensures ParseNaturalNumber(str) ==
            if str == "" || exists i | 0 <= i < |str| :: !('0' <= str[i] <= '9') then None
            else
              var n := DecimalValue(str);
              if n < 0x8000_0000 then Some(n)
              else if 0xFFFF_FFFF_8000_0000 <= n < 0x1_0000_0000_0000_0000 then Some(n - 0x1_0000_0000_0000_0000)
              else None
  {
    hide DecimalValue, ToInt, ToUnsigned;
    if str != "" && AllDigits(str) {
      assert IsDigit(str[0]);
      IntOrNot(DecimalValue(str));
    } else if str != "" {
      var i :| 0 <= i < |str| && !IsDigit(str[i]);
      assert !('0' <= str[i] <= '9');
    }
  }

  // Which 64-bit values survive the conversion to int and back.
  lemma IntOrNot(n: nat)
    ensures n < 0x8000_0000 ==> ToInt(n) == n && ToUnsigned(ToInt(n)) == n
    ensures 0xFFFF_FFFF_8000_0000 <= n < 0x1_0000_0000_0000_0000 ==>
              ToInt(n) == n - 0x1_0000_0000_0000_0000 && ToUnsigned(ToInt(n)) == n
    ensures 0x8000_0000 <= n < 0xFFFF_FFFF_8000_0000 ==> ToUnsigned(ToInt(n)) != n
  {
  }

  /** The largest 64-bit number comes out as -1, with or without a leading zero. */
  lemma LargestNumberIsMinusOne()
    ensures ParseNaturalNumber(Decimal(ULLONG_MAX)) == ParseNaturalNumber("0" + Decimal(ULLONG_MAX)) == Some(-1)
  {
    hide Decimal, DecimalValue, AllDigits;
    DecimalReads(ULLONG_MAX);
    LeadingZero(Decimal(ULLONG_MAX));
    ParseNumberExact(Decimal(ULLONG_MAX));
    ParseNumberExact("0" + Decimal(ULLONG_MAX));
  }

  lemma ParsePrintedNumber(n: nat)
    requires n <= INT_MAX
    ensures ParseNaturalNumber(Decimal(n)) == Some(n)
  {
    DecimalReads(n);
    ParseNumberExact(Decimal(n));
  }

  // ---------------------------------------------------------------------
  // The flag for an exec-style child
  // ---------------------------------------------------------------------

  datatype InternalRunDeathTestFlag = InternalRunDeathTestFlag(file: string, line: int, index: int, writeFd: int)

  datatype ParsedFlag = NotSpecified | Bad | Parsed(flag: InternalRunDeathTestFlag)

  /** The text AssumeRole passes to the child. */
  function FormatFlag(file: string, line: nat, index: nat, writeFd: nat): string {
    file + "|" + Decimal(line) + "|" + Decimal(index) + "|" + Decimal(writeFd)
  }

  function ParseFields(fields: seq<string>): ParsedFlag {
    if |fields| != 4 then Bad
    else
      match (ParseNaturalNumber(fields[1]), ParseNaturalNumber(fields[2]), ParseNaturalNumber(fields[3]))
      case (Some(line), Some(index), Some(writeFd)) =>
        Parsed(InternalRunDeathTestFlag(fields[0], line, index, writeFd))
      case _ => Bad
  }

  method ParseInternalRunDeathTestFlag(text: string) returns (p: ParsedFlag)
    ensures p == if text == "" then NotSpecified else ParseFields(Fields(text, '|'))
  {
    if text == "" {
      return NotSpecified;
    }
    var fields := SplitString(text, '|');
    return ParseFields(fields);
  }

  // One field more than there are delimiters.
  lemma {:induction false} FieldCount(s: string, delimiter: char)
    ensures |Fields(s, delimiter)| == multiset(s)[delimiter] + 1
  {
    if s != "" {
      FieldCount(s[1..], delimiter);
      assert s == [s[0]] + s[1..];
    }
  }

  /** A flag is four fields, the last three of them numbers; every other text is
      bad. */
  lemma FlagByText(file: string, a: string, b: string, c: string, text: string)
    requires '|' !in file && '|' !in a && '|' !in b && '|' !in c
    ensures var line, index, writeFd := ParseNaturalNumber(a), ParseNaturalNumber(b), ParseNaturalNumber(c);
            ParseFields(Fields(file + "|" + a + "|" + b + "|" + c, '|')) ==
            if line.Some? && index.Some? && writeFd.Some? then
              Parsed(InternalRunDeathTestFlag(file, line.value, index.value, writeFd.value))
            else Bad
    ensures multiset(text)['|'] != 3 ==> ParseFields(Fields(text, '|')) == Bad
  {
    hide Fields, ParseNaturalNumber;
    FieldCount(text, '|');
    FieldsJoin(file, a, '|');
    FieldsJoin(file + "|" + a, b, '|');
    FieldsJoin(file + "|" + a + "|" + b, c, '|');
    FieldsNone(file, '|');
    FieldsNone(a, '|');
    FieldsNone(b, '|');
    FieldsNone(c, '|');
    assert Fields(file + "|" + a + "|" + b + "|" + c, '|') == [file, a, b, c];
  }

  lemma DecimalIsOneField(n: nat)
    ensures Fields(Decimal(n), '|') == [Decimal(n)]
  {
    DecimalReads(n);
    forall i | 0 <= i < |Decimal(n)|
      ensures Decimal(n)[i] != '|'
    {
      assert IsDigit(Decimal(n)[i]);
    }
    FieldsNone(Decimal(n), '|');
  }

  lemma FormatFlagFields(file: string, line: nat, index: nat, writeFd: nat)
    ensures Fields(FormatFlag(file, line, index, writeFd), '|') ==
            Fields(file, '|') + [Decimal(line), Decimal(index), Decimal(writeFd)]
  {
    hide Fields, Decimal;
    var a, b, c := Decimal(line), Decimal(index), Decimal(writeFd);
    FieldsJoin(file, a, '|');
    FieldsJoin(file + "|" + a, b, '|');
    FieldsJoin(file + "|" + a + "|" + b, c, '|');
    DecimalIsOneField(line);
    DecimalIsOneField(index);
    DecimalIsOneField(writeFd);
  }

  /** The child gets back exactly what the parent put in, if and only if the
      source path has no |; otherwise it refuses the flag. */
  lemma FlagRoundTripIff(file: string, line: nat, index: nat, writeFd: nat)
    requires line <= INT_MAX && index <= INT_MAX && writeFd <= INT_MAX
    ensures FormatFlag(file, line, index, writeFd) != ""
    ensures ParseFields(Fields(FormatFlag(file, line, index, writeFd), '|')) ==
            if '|' !in file then Parsed(InternalRunDeathTestFlag(file, line, index, writeFd)) else Bad
  {
    hide Fields, Decimal, ParseNaturalNumber;
    FormatFlagFields(file, line, index, writeFd);
    FieldCount(file, '|');
    ParsePrintedNumber(line);
    ParsePrintedNumber(index);
    ParsePrintedNumber(writeFd);
    if '|' !in file {
      FieldsNone(file, '|');
    }
  }

  // ---------------------------------------------------------------------
  // The factory
  // ---------------------------------------------------------------------

  /** Where a death test stands in the source. */
  datatype Site = Site(file: string, line: int)

  datatype Created = Refused | Skipped | ExecStyle | NoExecStyle

  /** What Create answers for the index-th death test of the current test. */
  function CreateSpec(flag: Option<InternalRunDeathTestFlag>, style: string, index: nat, site: Site): Created {
    if flag.Some? && index > flag.value.index then Refused
    else if flag.Some? && flag.value != InternalRunDeathTestFlag(site.file, site.line, index, flag.value.writeFd)
    then Skipped
    else if style == "threadsafe" then ExecStyle
    else if style == "fast" then NoExecStyle
    else Refused
  }

  class DefaultDeathTestFactory {
    const flag: Option<InternalRunDeathTestFlag>
    const style: string
    /** Of the current test. */
    var deathTestCount: nat

    constructor (flag: Option<InternalRunDeathTestFlag>, style: string)
      ensures this.flag == flag && this.style == style && deathTestCount == 0
    {
      this.flag, this.style, deathTestCount := flag, style, 0;
    }

    /** The death test is instantiated in the way the style says: without a
        flag always, under one only if the flag names exactly its place and
        number. Refused are those after that number, and an unknown style for a
        death test that would be instantiated. */
    method Create(file: string, line: int) returns (test: Created)
      modifies this
      ensures deathTestCount == old(deathTestCount) + 1
      ensures var named := flag.None? ||
                           (flag.value.file, flag.value.line, flag.value.index) == (file, line, deathTestCount);
              && (test.ExecStyle? <==> style == "threadsafe" && named)
              && (test.NoExecStyle? <==> style == "fast" && named)
              && (test.Refused? <==>
                    || (flag.Some? && deathTestCount > flag.value.index)
                    || (style !in {"threadsafe", "fast"} && named))
      ensures test == CreateSpec(flag, style, deathTestCount, Site(file, line))
    {
      deathTestCount := deathTestCount + 1;
      var deathTestIndex := deathTestCount;
      if flag.Some? {
        if deathTestIndex > flag.value.index {
          return Refused;
        }
        if !(flag.value.file == file && flag.value.line == line && flag.value.index == deathTestIndex) {
          return Skipped;
        }
      }
      if style == "threadsafe" {
        return ExecStyle;
      } else if style == "fast" {
        return NoExecStyle;
      } else {
        return Refused;
      }
    }

    /** A test body going through its death tests up to the first that is
        instantiated, which an exec-style child does not get past. */
    method Visit(sites: seq<Site>) returns (answers: seq<Created>)
      requires deathTestCount == 0
      modifies this
      ensures answers <= Answers(flag, style, sites)
      ensures |answers| == |sites| || (answers != [] && !answers[|answers| - 1].Skipped?)
      ensures forall i | 0 <= i < |answers| - 1 :: answers[i].Skipped?
    {
      answers := [];
      for i := 0 to |sites|
        invariant deathTestCount == i == |answers|
        invariant answers <= Answers(flag, style, sites)
        invariant forall k | 0 <= k < |answers| :: answers[k].Skipped?
      {
        var test := Create(sites[i].file, sites[i].line);
        answers := answers + [test];
        if !test.Skipped? {
          return;
        }
      }
    }
  }

  /** The answers to all death tests of a test body. */
  function Answers(flag: Option<InternalRunDeathTestFlag>, style: string, sites: seq<Site>): (answers: seq<Created>)
    ensures |answers| == |sites|
    ensures forall i | 0 <= i < |answers| :: answers[i] == CreateSpec(flag, style, i + 1, sites[i])
  {
    seq(|sites|, i requires 0 <= i < |sites| => CreateSpec(flag, style, i + 1, sites[i]))
  }

  predicate KnownStyle(style: string) { style == "threadsafe" || style == "fast" }

  /** Without a flag every death test is instantiated, in the style asked for. */
  lemma ParentInstantiatesAll(style: string, sites: seq<Site>, i: nat)
    requires i < |sites|
    ensures var answer := Answers(None, style, sites)[i];
            && (answer.ExecStyle? <==> style == "threadsafe")
            && (answer.NoExecStyle? <==> style == "fast")
            && (answer.Refused? <==> !KnownStyle(style))
  {
  }

  /** A child told to run the k-th death test instantiates it and no other, and
      that only if it stands where the parent said. */
  lemma InstantiatesExactly(flag: InternalRunDeathTestFlag, style: string, sites: seq<Site>, i: nat)
    requires i < |sites| && KnownStyle(style)
    ensures var answer := Answers(Some(flag), style, sites)[i];
            && (answer.ExecStyle? <==>
                  style == "threadsafe" && i + 1 == flag.index && sites[i] == Site(flag.file, flag.line))
            && (answer.NoExecStyle? <==>
                  style == "fast" && i + 1 == flag.index && sites[i] == Site(flag.file, flag.line))
            && (answer.Refused? <==> i + 1 > flag.index)
  {
  }

  /** From the parent's k-th death test through the flag text to the child: a
      child replaying the same death tests skips the first k-1 and instantiates
      exactly the k-th, if and only if the source path has no |. */
  lemma ChildRunsTheSameSite(sites: seq<Site>, k: nat, style: string, writeFd: nat)
    requires 1 <= k <= |sites| && k <= INT_MAX && writeFd <= INT_MAX && KnownStyle(style)
    requires 0 <= sites[k - 1].line <= INT_MAX
    ensures var p := ParseFields(Fields(FormatFlag(sites[k - 1].file, sites[k - 1].line, k, writeFd), '|'));
            && (p.Parsed? <==> '|' !in sites[k - 1].file)
            && (p.Parsed? ==>
                  var answers := Answers(Some(p.flag), style, sites);
                  && p.flag.writeFd == writeFd
                  && (forall i | 0 <= i < k - 1 :: answers[i].Skipped?)
                  && answers[k - 1] == (if style == "threadsafe" then ExecStyle else NoExecStyle)
                  && (forall i | k <= i < |sites| :: answers[i].Refused?))
  {
    hide Fields, FormatFlag, ParseFields;
    FlagRoundTripIff(sites[k - 1].file, sites[k - 1].line, k, writeFd);
  }
}
