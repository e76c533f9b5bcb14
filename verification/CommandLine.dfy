/** Google Test's flags on a command line: recognising one, and removing the
    recognised ones from argv in place. */
module CommandLine {
  import opened CStrings
  import opened Numbers

  const GTEST_FLAG_PREFIX: string := "gtest_"
  const GTEST_FLAG_PREFIX_DASH: string := "gtest-"
  const INTERNAL_PREFIX: string := "gtest_internal_"

  datatype FlagKind = BoolFlag | Int32Flag | StringFlag

  datatype Flag = Flag(kind: FlagKind, name: string)

  /** argv; a null argument is None. */
  type Arguments = seq<Option<string>>

  type SettingMap = map<string, FlagValue>

  datatype FlagValue = BoolValue(b: bool) | Int32Value(i: int) | StringValue(s: string)

  const ALSO_RUN_DISABLED_TESTS_FLAG: string := "also_run_disabled_tests"
  const BREAK_ON_FAILURE_FLAG: string := "break_on_failure"
  const CATCH_EXCEPTIONS_FLAG: string := "catch_exceptions"
  const COLOR_FLAG: string := "color"
  const DEATH_TEST_STYLE_FLAG: string := "death_test_style"
  const DEATH_TEST_USE_FORK_FLAG: string := "death_test_use_fork"
  const FILTER_FLAG: string := "filter"
  const INTERNAL_RUN_DEATH_TEST_FLAG: string := "internal_run_death_test"
  const LIST_TESTS_FLAG: string := "list_tests"
  const OUTPUT_FLAG: string := "output"
  const PRINT_TIME_FLAG: string := "print_time"
  const RANDOM_SEED_FLAG: string := "random_seed"
  const REPEAT_FLAG: string := "repeat"
  const SHUFFLE_FLAG: string := "shuffle"
  const STACK_TRACE_DEPTH_FLAG: string := "stack_trace_depth"
  const STREAM_RESULT_TO_FLAG: string := "stream_result_to"
  const THROW_ON_FAILURE_FLAG: string := "throw_on_failure"

  /** The flags in the order they are tried. */
  const FLAGS: seq<Flag> := [
    Flag(BoolFlag, ALSO_RUN_DISABLED_TESTS_FLAG),
    Flag(BoolFlag, BREAK_ON_FAILURE_FLAG),
    Flag(BoolFlag, CATCH_EXCEPTIONS_FLAG),
    Flag(StringFlag, COLOR_FLAG),
    Flag(StringFlag, DEATH_TEST_STYLE_FLAG),
    Flag(BoolFlag, DEATH_TEST_USE_FORK_FLAG),
    Flag(StringFlag, FILTER_FLAG),
    Flag(StringFlag, INTERNAL_RUN_DEATH_TEST_FLAG),
    Flag(BoolFlag, LIST_TESTS_FLAG),
    Flag(StringFlag, OUTPUT_FLAG),
    Flag(BoolFlag, PRINT_TIME_FLAG),
    Flag(Int32Flag, RANDOM_SEED_FLAG),
    Flag(Int32Flag, REPEAT_FLAG),
    Flag(BoolFlag, SHUFFLE_FLAG),
    Flag(Int32Flag, STACK_TRACE_DEPTH_FLAG),
    Flag(StringFlag, STREAM_RESULT_TO_FLAG),
    Flag(BoolFlag, THROW_ON_FAILURE_FLAG)
  ]

  // ---------------------------------------------------------------------
  // One argument
  // ---------------------------------------------------------------------

  /** The text after prefix, when str starts with it. */
  function SkipPrefix(prefix: string, str: string): Option<string> {
    if prefix <= str then Some(str[|prefix|..]) else None
  }

  function ParseFlagValue(str: string, flag: string, defOptional: bool): Option<string> {
    match SkipPrefix("--" + GTEST_FLAG_PREFIX + flag, str)
    case None => None
    case Some(end) =>
      if defOptional && end == "" then Some("")
      else if end == "" || end[0] != '=' then None
      else Some(end[1..])
  }

  /** A flag has a value exactly when written --gtest_flag=value, or
      --gtest_flag where the value may be left out. */
  lemma ParseFlagValueIff(str: string, flag: string, defOptional: bool, value: string)
    ensures ParseFlagValue(str, flag, defOptional) == Some(value) <==>
            var name := "--gtest_" + flag;
            str == name + "=" + value || (defOptional && value == "" && str == name)
  {
    assert "--" + GTEST_FLAG_PREFIX == "--gtest_";
    var name := "--" + GTEST_FLAG_PREFIX + flag;
    if name <= str {
      assert str == name + str[|name|..];
    }
    if str == name + "=" + value {
      assert str[|name|..] == "=" + value;
    }
  }

  /** What the argument sets the flag to, if it is for this flag. */
  function ParseFlag(arg: string, flag: Flag, longMax: int): Option<FlagValue> {
    match ParseFlagValue(arg, flag.name, flag.kind.BoolFlag?)
    case None => None
    case Some(text) =>
      match flag.kind
      case BoolFlag => Some(BoolValue(!(text != "" && text[0] in {'0', 'f', 'F'})))
      case StringFlag => Some(StringValue(text))
      case Int32Flag =>
        match ParseInt32(text, longMax)
        case None => None
        case Some(i) => Some(Int32Value(i))
  }

  datatype Setting = Setting(name: string, value: FlagValue)

  /** The first flag of the list that takes the argument. */
  function Recognize(arg: string, flags: seq<Flag>, longMax: int): (setting: Option<Setting>) {
    if flags == [] then None
    else
      match ParseFlag(arg, flags[0], longMax)
      case Some(value) => Some(Setting(flags[0].name, value))
      case None => Recognize(arg, flags[1..], longMax)
  }

  predicate GoodNames(flags: seq<Flag>) {
    && (forall i | 0 <= i < |flags| :: '=' !in flags[i].name)
    && (forall i, j | 0 <= i < j < |flags| :: flags[i].name != flags[j].name)
  }

  // A flag's place in the list, told from the length and the first letter of
  // its name.
  function PlaceOf(length: nat, first: char): int {
    if length == 23 then if first == 'a' then 0 else 7
    else if length == 16 then
      if first == 'b' then 1
      else if first == 'c' then 2
      else if first == 'd' then 4
      else if first == 's' then 15
      else 16
    else if length == 6 then if first == 'f' then 6 else if first == 'o' then 9 else 12
    else if length == 10 then if first == 'l' then 8 else 10
    else if length == 5 then 3
    else if length == 19 then 5
    else if length == 11 then 11
    else if length == 7 then 13
    else 14
  }

  predicate Placed(name: string, i: nat) {
    '=' !in name && name != "" && PlaceOf(|name|, name[0]) == i
  }

  lemma NamesPlacedFirst()
    ensures Placed(ALSO_RUN_DISABLED_TESTS_FLAG, 0)
    ensures Placed(BREAK_ON_FAILURE_FLAG, 1)
    ensures Placed(CATCH_EXCEPTIONS_FLAG, 2)
    ensures Placed(COLOR_FLAG, 3)
    ensures Placed(DEATH_TEST_STYLE_FLAG, 4)
    ensures Placed(DEATH_TEST_USE_FORK_FLAG, 5)
  {
  }

  lemma NamesPlacedSecond()
    ensures Placed(FILTER_FLAG, 6)
    ensures Placed(INTERNAL_RUN_DEATH_TEST_FLAG, 7)
    ensures Placed(LIST_TESTS_FLAG, 8)
    ensures Placed(OUTPUT_FLAG, 9)
    ensures Placed(PRINT_TIME_FLAG, 10)
    ensures Placed(RANDOM_SEED_FLAG, 11)
  {
  }

  lemma NamesPlacedThird()
    ensures Placed(REPEAT_FLAG, 12)
    ensures Placed(SHUFFLE_FLAG, 13)
    ensures Placed(STACK_TRACE_DEPTH_FLAG, 14)
    ensures Placed(STREAM_RESULT_TO_FLAG, 15)
    ensures Placed(THROW_ON_FAILURE_FLAG, 16)
  {
  }

  /** No flag's name has an equals sign, and no two flags share a name. */
  lemma FlagsHaveGoodNames()
    ensures GoodNames(FLAGS)
  {
    hide ALSO_RUN_DISABLED_TESTS_FLAG, BREAK_ON_FAILURE_FLAG, CATCH_EXCEPTIONS_FLAG;
    hide COLOR_FLAG, DEATH_TEST_STYLE_FLAG, DEATH_TEST_USE_FORK_FLAG;
    hide FILTER_FLAG, INTERNAL_RUN_DEATH_TEST_FLAG, LIST_TESTS_FLAG, OUTPUT_FLAG, PRINT_TIME_FLAG, RANDOM_SEED_FLAG;
    hide REPEAT_FLAG, SHUFFLE_FLAG, STACK_TRACE_DEPTH_FLAG, STREAM_RESULT_TO_FLAG, THROW_ON_FAILURE_FLAG;
    NamesPlacedFirst();
    NamesPlacedSecond();
    NamesPlacedThird();
    assert |FLAGS| == 17;
    assert forall i | 0 <= i < 17 :: Placed(FLAGS[i].name, i);
  }

  // An argument names at most one flag.
  lemma OneName(arg: string, a: string, b: string, optA: bool, optB: bool)
    requires '=' !in a && '=' !in b && a != b
    ensures ParseFlagValue(arg, a, optA).None? || ParseFlagValue(arg, b, optB).None?
  {
    hide ParseFlagValue, IndexOf;
    if ParseFlagValue(arg, a, optA).Some? && ParseFlagValue(arg, b, optB).Some? {
      NameEnds(arg, a, optA);
      NameEnds(arg, b, optB);
    }
  }

  lemma NameEnds(arg: string, name: string, optional: bool)
    requires '=' !in name && ParseFlagValue(arg, name, optional).Some?
    ensures var start := "--" + GTEST_FLAG_PREFIX;
            && |start| <= |arg|
            && name == arg[|start|..][..IndexOf(arg[|start|..], '=')]
  {
    hide IndexOf;
    var start := "--" + GTEST_FLAG_PREFIX;
    var rest := arg[|start|..];
    assert arg[..|start + name|] == start + name;
    assert rest[..|name|] == name;
    IndexOfUnique(rest, '=', |name|);
  }

  /** The order in which flags are tried does not matter. */
  lemma {:induction false} RecognizeIff(arg: string, flags: seq<Flag>, longMax: int, name: string, value: FlagValue)
    requires GoodNames(flags)
    ensures Recognize(arg, flags, longMax) == Some(Setting(name, value)) <==>
            exists flag :: flag in flags && flag.name == name && ParseFlag(arg, flag, longMax) == Some(value)
  {
    hide ParseFlagValue;
    if flags == [] {
    } else {
      var head := flags[0];
      assert flags == [head] + flags[1..];
      RecognizeIff(arg, flags[1..], longMax, name, value);
      if ParseFlag(arg, head, longMax).Some? {
        forall flag | flag in flags[1..] ensures ParseFlag(arg, flag, longMax).None? {
          OneName(arg, head.name, flag.name, head.kind.BoolFlag?, flag.kind.BoolFlag?);
        }
      }
    }
  }

  /** The texts that set a flag to a value: --gtest_flag sets a bool flag, and
      so does --gtest_flag=text unless text starts with 0, f or F; an Int32 flag
      takes the numerals of its range and the empty text, a string flag takes
      any text. */
  ghost predicate SetsTo(arg: string, flag: Flag, value: FlagValue, longMax: int) {
    var name := "--gtest_" + flag.name;
    if arg == name then flag.kind.BoolFlag? && value == BoolValue(true)
    else if !(name + "=" <= arg) then false
    else
      var text := arg[|name| + 1..];
      match flag.kind
      case BoolFlag => value == BoolValue(text == "" || text[0] !in {'0', 'f', 'F'})
      case StringFlag => value == StringValue(text)
      case Int32Flag =>
        && value.Int32Value?
        && ((Numeral(text, value.i) && AcceptedInt32(value.i, longMax)) || (text == "" && value.i == 0))
  }

  lemma ParseFlagIff(arg: string, flag: Flag, longMax: int, value: FlagValue)
    requires flag.kind.Int32Flag? ==> longMax >= INT_MAX
    ensures ParseFlag(arg, flag, longMax) == Some(value) <==> SetsTo(arg, flag, value, longMax)
  {
    hide ParseFlagValue, Numeral, ParseInt32;
    var name := "--gtest_" + flag.name;
    if arg == name {
      ParseFlagValueIff(arg, flag.name, flag.kind.BoolFlag?, "");
      NoValueText(arg, flag);
    } else if name + "=" <= arg {
      var text := arg[|name| + 1..];
      assert arg == name + "=" + text;
      ParseFlagValueIff(arg, flag.name, flag.kind.BoolFlag?, text);
      if flag.kind.Int32Flag? && value.Int32Value? {
        ParseInt32Iff(text, longMax, value.i);
      }
    } else {
      NoValueText(arg, flag);
    }
  }

  lemma NoValueText(arg: string, flag: Flag)
    requires var name := "--gtest_" + flag.name; !(name + "=" <= arg)
    ensures var text := ParseFlagValue(arg, flag.name, flag.kind.BoolFlag?);
            text.Some? ==> text.value == "" && arg == "--gtest_" + flag.name && flag.kind.BoolFlag?
  {
    var text := ParseFlagValue(arg, flag.name, flag.kind.BoolFlag?);
    if text.Some? {
      ParseFlagValueIff(arg, flag.name, flag.kind.BoolFlag?, text.value);
    }
  }

  /** An argument is recognised as a setting exactly when it is one of the texts
      that set a flag of the list to that value. */
  lemma RecognizeByText(arg: string, longMax: int, name: string, value: FlagValue)
    requires longMax >= INT_MAX
    ensures Recognize(arg, FLAGS, longMax) == Some(Setting(name, value)) <==>
            exists flag :: flag in FLAGS && flag.name == name && SetsTo(arg, flag, value, longMax)
  {
    hide FLAGS, Recognize, ParseFlag, SetsTo;
    FlagsHaveGoodNames();
    RecognizeIff(arg, FLAGS, longMax, name, value);
    forall flag | flag in FLAGS
      ensures ParseFlag(arg, flag, longMax) == Some(value) <==> SetsTo(arg, flag, value, longMax)
    {
      ParseFlagIff(arg, flag, longMax, value);
    }
  }

  lemma SetsIfWritten(arg: string, flag: Flag, value: FlagValue, longMax: int)
    requires flag in FLAGS && SetsTo(arg, flag, value, longMax)
    requires flag.kind.Int32Flag? ==> longMax >= INT_MAX
    ensures Recognize(arg, FLAGS, longMax) == Some(Setting(flag.name, value))
  {
    hide FLAGS, Recognize, ParseFlag, SetsTo;
    FlagsHaveGoodNames();
    RecognizeIff(arg, FLAGS, longMax, flag.name, value);
    ParseFlagIff(arg, flag, longMax, value);
  }

  /** A bool flag of the list, alone and with a value. */
  lemma BoolFlagSet(flag: Flag, text: string, longMax: int)
    requires flag in FLAGS && flag.kind.BoolFlag?
    ensures Recognize("--gtest_" + flag.name, FLAGS, longMax) == Some(Setting(flag.name, BoolValue(true)))
    ensures Recognize("--gtest_" + flag.name + "=" + text, FLAGS, longMax)
            == Some(Setting(flag.name, BoolValue(text == "" || text[0] !in {'0', 'f', 'F'})))
  {
    hide FLAGS, Recognize, SetsTo;
    var on := BoolValue(text == "" || text[0] !in {'0', 'f', 'F'});
    AloneSets(flag, longMax);
    SetsIfWritten("--gtest_" + flag.name, flag, BoolValue(true), longMax);
    TextSets(flag, text, on, longMax);
    SetsIfWritten("--gtest_" + flag.name + "=" + text, flag, on, longMax);
  }

  lemma AloneSets(flag: Flag, longMax: int)
    requires flag.kind.BoolFlag?
    ensures SetsTo("--gtest_" + flag.name, flag, BoolValue(true), longMax)
  {
  }

  lemma TextSets(flag: Flag, text: string, value: FlagValue, longMax: int)
    requires match flag.kind
             case BoolFlag => value == BoolValue(text == "" || text[0] !in {'0', 'f', 'F'})
             case StringFlag => value == StringValue(text)
             case Int32Flag => value.Int32Value? && Numeral(text, value.i) && AcceptedInt32(value.i, longMax)
    ensures SetsTo("--gtest_" + flag.name + "=" + text, flag, value, longMax)
  {
    hide Numeral, AcceptedInt32;
    var name := "--gtest_" + flag.name;
    assert (name + "=" + text)[|name| + 1..] == text;
  }

  /** A string flag of the list is set to any text after the equals sign. */
  lemma StringFlagSet(flag: Flag, text: string, longMax: int)
    requires flag in FLAGS && flag.kind.StringFlag?
    ensures Recognize("--gtest_" + flag.name + "=" + text, FLAGS, longMax)
            == Some(Setting(flag.name, StringValue(text)))
  {
    hide FLAGS, Recognize, SetsTo;
    TextSets(flag, text, StringValue(text), longMax);
    SetsIfWritten("--gtest_" + flag.name + "=" + text, flag, StringValue(text), longMax);
  }

  /** An Int32 flag of the list is set to i by the numerals for i. */
  lemma Int32FlagSet(flag: Flag, text: string, i: int, longMax: int)
    requires flag in FLAGS && flag.kind.Int32Flag? && longMax >= INT_MAX
    requires Numeral(text, i) && AcceptedInt32(i, longMax)
    ensures Recognize("--gtest_" + flag.name + "=" + text, FLAGS, longMax)
            == Some(Setting(flag.name, Int32Value(i)))
  {
    hide FLAGS, Recognize, SetsTo, Numeral;
    TextSets(flag, text, Int32Value(i), longMax);
    SetsIfWritten("--gtest_" + flag.name + "=" + text, flag, Int32Value(i), longMax);
  }

  /** The flags by name. */
  lemma FlagsListed(flag: Flag)
    ensures flag in FLAGS <==>
            match flag.kind
            case BoolFlag =>
              flag.name in {"also_run_disabled_tests", "break_on_failure", "catch_exceptions", "death_test_use_fork",
                            "list_tests", "print_time", "shuffle", "throw_on_failure"}
            case Int32Flag => flag.name in {"random_seed", "repeat", "stack_trace_depth"}
            case StringFlag =>
              flag.name in {"color", "death_test_style", "filter", "internal_run_death_test", "output",
                            "stream_result_to"}
  {
    assert |FLAGS| == 17;
    assert flag in FLAGS <==> exists i | 0 <= i < 17 :: FLAGS[i] == flag;
  }

  /** Four arguments in full. */
  lemma SomeArguments(longMax: int)
    requires longMax >= INT_MAX
    ensures Recognize("--gtest_shuffle", FLAGS, longMax) == Some(Setting("shuffle", BoolValue(true)))
    ensures Recognize("--gtest_shuffle=0", FLAGS, longMax) == Some(Setting("shuffle", BoolValue(false)))
    ensures Recognize("--gtest_repeat=-1", FLAGS, longMax) == Some(Setting("repeat", Int32Value(-1)))
    ensures Recognize("--gtest_filter=*", FLAGS, longMax) == Some(Setting("filter", StringValue("*")))
  {
    hide FLAGS, Recognize, Numeral;
    var shuffle, repeat, filter := Flag(BoolFlag, "shuffle"), Flag(Int32Flag, "repeat"), Flag(StringFlag, "filter");
    FlagsListed(shuffle);
    FlagsListed(repeat);
    FlagsListed(filter);
    assert "--gtest_" + "shuffle" == "--gtest_shuffle" && "--gtest_shuffle" + "=" + "0" == "--gtest_shuffle=0";
    assert "--gtest_" + "repeat" + "=" + "-1" == "--gtest_repeat=-1";
    assert "--gtest_" + "filter" + "=" + "*" == "--gtest_filter=*";
    BoolFlagSet(shuffle, "0", longMax);
    assert Int32Text(-1) == "-1";
    Int32TextNumeral(-1);
    Int32FlagSet(repeat, "-1", -1, longMax);
    StringFlagSet(filter, "*", longMax);
  }

  predicate HasGoogleTestFlagPrefix(str: string) {
    var afterDash :=
      if SkipPrefix("--", str).Some? then SkipPrefix("--", str)
      else if SkipPrefix("-", str).Some? then SkipPrefix("-", str)
      else SkipPrefix("/", str);
    && afterDash.Some?
    && SkipPrefix(INTERNAL_PREFIX, afterDash.value).None?
    && (|| SkipPrefix(GTEST_FLAG_PREFIX, afterDash.value).Some?
        || SkipPrefix(GTEST_FLAG_PREFIX_DASH, afterDash.value).Some?)
  }

  lemma PrefixOfRest(dash: string, prefix: string, str: string)
    requires dash <= str
    ensures dash + prefix <= str <==> prefix <= str[|dash|..]
  {
    if prefix <= str[|dash|..] {
      assert str[..|dash + prefix|] == str[..|dash|] + str[|dash|..][..|prefix|];
    }
  }

  predicate HasPrefixAfter(dash: string, str: string) {
    && (dash + "gtest_" <= str || dash + "gtest-" <= str)
    && !(dash + "gtest_internal_" <= str)
  }

  predicate HasPrefix(str: string) {
    ("gtest_" <= str || "gtest-" <= str) && !("gtest_internal_" <= str)
  }

  lemma PrefixAfterDash(dash: string, str: string)
    requires dash <= str
    ensures HasPrefixAfter(dash, str) <==> HasPrefix(str[|dash|..])
  {
    PrefixOfRest(dash, "gtest_", str);
    PrefixOfRest(dash, "gtest-", str);
    PrefixOfRest(dash, "gtest_internal_", str);
  }

  lemma NoPrefixWithoutDash(dash: string, str: string)
    requires !(dash <= str)
    ensures !HasPrefixAfter(dash, str)
  {
    assert dash <= dash + "gtest_" && dash <= dash + "gtest-";
  }

  lemma DashIsNoPrefix(str: string)
    requires str != "" && str[0] == '-'
    ensures !HasPrefix(str)
  {
    assert "gtest_"[0] == "gtest-"[0] == 'g';
  }

  /** After any one of the dashes comes a prefix that is not the internal one. */
  lemma HasGoogleTestFlagPrefixIff(str: string)
    ensures HasGoogleTestFlagPrefix(str) <==>
            HasPrefixAfter("--", str) || HasPrefixAfter("-", str) || HasPrefixAfter("/", str)
  {
    hide HasPrefixAfter, HasPrefix;
    if "--" <= str {
      assert str[0] == '-';
      PrefixAfterDash("--", str);
      PrefixAfterDash("-", str);
      DashIsNoPrefix(str[1..]);
      NoPrefixWithoutDash("/", str);
    } else if "-" <= str {
      assert str[0] == '-';
      NoPrefixWithoutDash("--", str);
      PrefixAfterDash("-", str);
      NoPrefixWithoutDash("/", str);
    } else {
      assert str != "" ==> str[0] != '-';
      NoPrefixWithoutDash("--", str);
      NoPrefixWithoutDash("-", str);
      if "/" <= str {
        PrefixAfterDash("/", str);
      } else {
        NoPrefixWithoutDash("/", str);
      }
    }
    AfterDashHasPrefix(str);
  }

  lemma AfterDashHasPrefix(str: string)
    ensures HasGoogleTestFlagPrefix(str) <==>
            if "--" <= str then HasPrefix(str[2..])
            else if "-" <= str || "/" <= str then HasPrefix(str[1..])
            else false
  {
  }

  predicate AsksForHelp(arg: string) {
    arg == "--help" || arg == "-h" || arg == "-?" || arg == "/?" || HasGoogleTestFlagPrefix(arg)
  }

  /** The texts that ask for help when no flag takes them. */
  lemma AsksForHelpIff(arg: string)
    ensures AsksForHelp(arg) <==>
            arg in {"--help", "-h", "-?", "/?"} || exists dash :: dash in {"--", "-", "/"} && HasPrefixAfter(dash, arg)
  {
    hide HasGoogleTestFlagPrefix, HasPrefixAfter;
    HasGoogleTestFlagPrefixIff(arg);
  }

  // ---------------------------------------------------------------------
  // All arguments
  // ---------------------------------------------------------------------

  /** A null argument reads as this text. */
  function TextOf(arg: Option<string>): string {
    match arg
    case None => "(null)"
    case Some(text) => text
  }

  /** The arguments that no flag takes, in their order. */
  function Kept(args: Arguments, longMax: int): (kept: Arguments)
    ensures |kept| <= |args|
  {
    if args == [] then []
    else
      var last := args[|args| - 1];
      var kept := Kept(args[..|args| - 1], longMax);
      if Recognize(TextOf(last), FLAGS, longMax).Some? then kept else kept + [last]
  }

  function Settings(args: Arguments, initial: SettingMap, longMax: int): SettingMap {
    if args == [] then initial
    else
      var settings := Settings(args[..|args| - 1], initial, longMax);
      match Recognize(TextOf(args[|args| - 1]), FLAGS, longMax)
      case None => settings
      case Some(setting) => settings[setting.name := setting.value]
  }

  predicate HelpAsked(args: Arguments, longMax: int) {
    exists i | 0 <= i < |args| :: AsksForHelp(TextOf(args[i])) && Recognize(TextOf(args[i]), FLAGS, longMax).None?
  }

  predicate Sets(arg: Option<string>, name: string, longMax: int) {
    var setting := Recognize(TextOf(arg), FLAGS, longMax);
    setting.Some? && setting.value.name == name
  }

  /** A flag has the value of the last argument that sets it. */
  lemma {:induction false} LastSettingWins(args: Arguments, initial: SettingMap, longMax: int, name: string, i: nat)
    requires i < |args| && Sets(args[i], name, longMax)
    requires forall j | i < j < |args| :: !Sets(args[j], name, longMax)
    ensures var settings := Settings(args, initial, longMax);
            name in settings && Some(Setting(name, settings[name])) == Recognize(TextOf(args[i]), FLAGS, longMax)
  {
    hide Recognize, TextOf, FLAGS;
    if i < |args| - 1 {
      LastSettingWins(args[..|args| - 1], initial, longMax, name, i);
      assert !Sets(args[|args| - 1], name, longMax);
    }
  }

  /** A flag that no argument sets keeps its value. */
  lemma {:induction false} UnsetKeepsValue(args: Arguments, initial: SettingMap, longMax: int, name: string)
    requires forall j | 0 <= j < |args| :: !Sets(args[j], name, longMax)
    ensures var settings := Settings(args, initial, longMax);
            (name in settings <==> name in initial) && (name in initial ==> settings[name] == initial[name])
  {
    hide Recognize, TextOf, FLAGS;
    if args != [] {
      UnsetKeepsValue(args[..|args| - 1], initial, longMax, name);
      assert !Sets(args[|args| - 1], name, longMax);
    }
  }

  lemma {:induction false} KeptUnrecognized(args: Arguments, longMax: int, x: Option<string>)
    ensures x in Kept(args, longMax) <==> x in args && Recognize(TextOf(x), FLAGS, longMax).None?
  {
    hide Recognize, TextOf, FLAGS;
    if args != [] {
      assert args == args[..|args| - 1] + [args[|args| - 1]];
      KeptUnrecognized(args[..|args| - 1], longMax, x);
    }
  }

  /** The arguments are looked at one by one, in order; a null one stays. */
  lemma {:induction false} KeptInOrder(args: Arguments, more: Arguments, arg: Option<string>, longMax: int)
    ensures Kept(args + more, longMax) == Kept(args, longMax) + Kept(more, longMax)
    ensures Kept([arg], longMax) == if arg.Some? && Recognize(arg.value, FLAGS, longMax).Some? then [] else [arg]
    decreases |more|
  {
    hide Recognize, FLAGS;
    NullStays(longMax);
    assert [arg][..0] == [];
    if more == [] {
      assert args + more == args;
    } else {
      KeptInOrder(args, more[..|more| - 1], arg, longMax);
      assert (args + more)[..|args + more| - 1] == args + more[..|more| - 1];
    }
  }

  lemma NullStays(longMax: int)
    ensures Recognize(TextOf(None), FLAGS, longMax).None?
  {
    hide FLAGS, ParseFlag;
    NoFlagTakes("(null)", FLAGS, longMax);
  }

  lemma {:induction false} NoFlagTakes(arg: string, flags: seq<Flag>, longMax: int)
    requires arg != "" && arg[0] != '-'
    ensures Recognize(arg, flags, longMax).None?
  {
    if flags != [] {
      NoFlagTakes(arg, flags[1..], longMax);
      assert ("--" + GTEST_FLAG_PREFIX + flags[0].name)[0] == '-';
    }
  }

  lemma {:induction false} NothingToRemove(args: Arguments, initial: SettingMap, longMax: int)
    requires forall x | x in args :: Recognize(TextOf(x), FLAGS, longMax).None?
    ensures Kept(args, longMax) == args && Settings(args, initial, longMax) == initial
  {
    hide Recognize, TextOf, FLAGS;
    if args != [] {
      assert args == args[..|args| - 1] + [args[|args| - 1]];
      NothingToRemove(args[..|args| - 1], initial, longMax);
    }
  }

  /** Parsing what parsing has left changes nothing. */
  lemma SecondParseIsIdle(args: Arguments, initial: SettingMap, longMax: int)
    ensures Kept(Kept(args, longMax), longMax) == Kept(args, longMax)
    ensures Settings(Kept(args, longMax), initial, longMax) == initial
  {
    hide Recognize, TextOf, FLAGS;
    forall x | x in Kept(args, longMax) ensures Recognize(TextOf(x), FLAGS, longMax).None? {
      KeptUnrecognized(args, longMax, x);
    }
    NothingToRemove(Kept(args, longMax), initial, longMax);
  }

  // ---------------------------------------------------------------------
  // argv in place
  // ---------------------------------------------------------------------

  /** Entries i + 1 up to argc move down by one. */
  method ShiftLeft(argv: array<Option<string>>, i: nat, argc: nat)
    requires i <= argc < argv.Length
    modifies argv
    ensures argv[..][..i] == old(argv[..])[..i]
    ensures argv[..][i..argc] == old(argv[..])[i + 1..argc + 1]
    ensures argv[..][argc..] == old(argv[..])[argc..]
  {
    var j := i;
    while j != argc
      invariant i <= j <= argc
      invariant forall k | 0 <= k < argv.Length && !(i <= k < j) :: argv[k] == old(argv[k])
      invariant forall k | i <= k < j :: argv[k] == old(argv[k + 1])
    {
      argv[j] := argv[j + 1];
      j := j + 1;
    }
  }

  lemma ParseStep(args: Arguments, done: nat, initial: SettingMap, longMax: int)
    requires done < |args|
    ensures var setting := Recognize(TextOf(args[done]), FLAGS, longMax);
            && Kept(args[..done + 1], longMax)
               == (var kept := Kept(args[..done], longMax); if setting.Some? then kept else kept + [args[done]])
            && Settings(args[..done + 1], initial, longMax)
               == (var before := Settings(args[..done], initial, longMax);
                   if setting.Some? then before[setting.value.name := setting.value.value] else before)
  {
    hide Recognize, TextOf, FLAGS;
    assert args[..done + 1][..done] == args[..done] && args[..done + 1][done] == args[done];
  }

  // now is argv when, of the orig[1..argc] there were, done arguments have been
  // looked at, kept are those that stay, and those from i up to newArgc have
  // not been looked at.
  ghost predicate Underway(orig: Arguments, argc: nat, now: Arguments, newArgc: int, i: int, done: int,
                           kept: Arguments)
  {
    && 0 < argc < |orig| == |now|
    && 1 <= i <= newArgc <= argc && done == i - 1 + (argc - newArgc)
    && now[..i] == [orig[0]] + kept
    && now[i..newArgc] == orig[1..argc][done..]
    && (forall k | newArgc <= k <= argc :: now[k] == orig[argc])
    && now[argc + 1..] == orig[argc + 1..]
  }

  lemma UnderwayStart(orig: Arguments, argc: nat)
    requires 0 < argc < |orig|
    ensures Underway(orig, argc, orig, argc, 1, 0, [])
  {
    assert orig[..1] == [orig[0]] + [];
  }

  // The next argument stays.
  lemma UnderwayKeep(orig: Arguments, argc: nat, now: Arguments, newArgc: int, i: int, done: int, kept: Arguments)
    requires Underway(orig, argc, now, newArgc, i, done, kept) && i < newArgc
    ensures now[i] == orig[1..argc][done]
    ensures Underway(orig, argc, now, newArgc, i + 1, done + 1, kept + [now[i]])
  {
    var args := orig[1..argc];
    assert now[i..newArgc][0] == args[done..][0];
    assert now[..i + 1] == now[..i] + [now[i]];
    assert now[i + 1..newArgc] == now[i..newArgc][1..];
  }

  // The next argument goes.
  lemma UnderwayRemove(orig: Arguments, argc: nat, now: Arguments, newArgc: int, i: int, done: int, kept: Arguments,
                       after: Arguments)
    requires Underway(orig, argc, now, newArgc, i, done, kept) && i < newArgc
    requires |after| == |now| && after[..i] == now[..i]
    requires after[i..newArgc] == now[i + 1..newArgc + 1] && after[newArgc..] == now[newArgc..]
    ensures now[i] == orig[1..argc][done]
    ensures Underway(orig, argc, after, newArgc - 1, i, done + 1, kept)
  {
    var args := orig[1..argc];
    assert now[i..newArgc][0] == args[done..][0];
    var moved := now[i + 1..newArgc + 1];
    assert after[i..newArgc - 1] == moved[..newArgc - 1 - i] == now[i..newArgc][1..];
    assert after[newArgc - 1] == after[i..newArgc][newArgc - 1 - i] == moved[newArgc - 1 - i] == now[newArgc];
    forall k | newArgc <= k <= argc ensures after[k] == orig[argc] {
      assert after[k] == after[newArgc..][k - newArgc];
    }
    assert after[argc + 1..] == after[newArgc..][argc + 1 - newArgc..];
  }

  // All arguments have been looked at.
  lemma UnderwayEnd(orig: Arguments, argc: nat, now: Arguments, newArgc: int, done: int, kept: Arguments)
    requires Underway(orig, argc, now, newArgc, newArgc, done, kept)
    ensures done == argc - 1 && newArgc == 1 + |kept| && now[..newArgc] == [orig[0]] + kept
    ensures forall k | newArgc <= k <= argc :: now[k] == orig[argc]
    ensures now[argc + 1..] == orig[argc + 1..]
  {
    assert |now[..newArgc]| == 1 + |kept|;
  }

  /** The global flag variables. */
  class FlagVariables {
    var settings: SettingMap
    var helpFlag: bool

    constructor (settings: SettingMap)
      ensures this.settings == settings && !helpFlag
    {
      this.settings := settings;
      helpFlag := false;
    }

    /** The recognised arguments are gone, the others moved down in order, and
        the entry that ended the list fills the entries set free. */
    method ParseGoogleTestFlagsOnly(argc: nat, argv: array<Option<string>>, longMax: int) returns (newArgc: nat)
      requires argc < argv.Length
      modifies this, argv
      ensures argc == 0 ==> newArgc == 0 && argv[..] == old(argv[..])
      ensures argc == 0 ==> settings == old(settings) && helpFlag == old(helpFlag)
      ensures argc > 0 ==>
                && newArgc == 1 + |Kept(old(argv[1..argc]), longMax)| <= argc
                && argv[..newArgc] == [old(argv[0])] + Kept(old(argv[1..argc]), longMax)
                && (forall k | newArgc <= k <= argc :: argv[k] == old(argv[argc]))
                && argv[argc + 1..] == old(argv[argc + 1..])
                && settings == Settings(old(argv[1..argc]), old(settings), longMax)
                && (helpFlag <==> old(helpFlag) || HelpAsked(old(argv[1..argc]), longMax))
    {
      hide Recognize, AsksForHelp, TextOf, Kept, Settings, HelpAsked, FLAGS, Underway;
      newArgc := argc;
      if argc == 0 {
        return;
      }
      ghost var args := argv[1..argc];
      ghost var done := 0;
      var i := 1;
      UnderwayStart(argv[..], argc);
      NothingParsed(settings, longMax);
      while i < newArgc
        invariant 1 <= i <= newArgc <= argc && done == i - 1 + (argc - newArgc)
        invariant Underway(old(argv[..]), argc, argv[..], newArgc, i, done, Kept(args[..done], longMax))
        invariant settings == Settings(args[..done], old(settings), longMax)
        invariant helpFlag <==> old(helpFlag) || HelpAsked(args[..done], longMax)
        decreases newArgc - i
      {
        ghost var before, kept := argv[..], Kept(args[..done], longMax);
        var arg := argv[i];
        var setting := Recognize(TextOf(arg), FLAGS, longMax);
        if setting.Some? {
          settings := settings[setting.value.name := setting.value.value];
          ShiftLeft(argv, i, newArgc);
          UnderwayRemove(old(argv[..]), argc, before, newArgc, i, done, kept, argv[..]);
          newArgc := newArgc - 1;
          i := i - 1;
        } else {
          UnderwayKeep(old(argv[..]), argc, before, newArgc, i, done, kept);
          if AsksForHelp(TextOf(arg)) {
            helpFlag := true;
          }
        }
        ParseStep(args, done, old(settings), longMax);
        HelpStep(args, done, longMax);
        i := i + 1;
        done := done + 1;
      }
      assert args[..done] == args;
      UnderwayEnd(old(argv[..]), argc, argv[..], newArgc, done, Kept(args, longMax));
      assert old(argv[..])[argc + 1..] == old(argv[argc + 1..]);
    }
  }

  lemma NothingParsed(initial: SettingMap, longMax: int)
    ensures Kept([], longMax) == [] && Settings([], initial, longMax) == initial && !HelpAsked([], longMax)
  {
  }

  lemma HelpStep(args: Arguments, done: nat, longMax: int)
    requires done < |args|
    ensures HelpAsked(args[..done + 1], longMax) <==>
            || HelpAsked(args[..done], longMax)
            || (AsksForHelp(TextOf(args[done])) && Recognize(TextOf(args[done]), FLAGS, longMax).None?)
  {
    hide Recognize, AsksForHelp, TextOf, FLAGS;
    assert args[..done + 1] == args[..done] + [args[done]];
  }
}
