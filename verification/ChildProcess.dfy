/** What the arguments that a parent adds for an exec-style child bring about
    in that child: its flags, the test it selects and the death test it runs. */
module ChildProcess {
  import opened CStrings
  import opened Numbers
  import opened TestFilter
  import opened CommandLine
  import opened DeathTests

  function FilterArgument(caseName: CString, testName: CString): string {
    "--" + GTEST_FLAG_PREFIX + FILTER_FLAG + "=" + FullName(caseName, testName)
  }

  function InternalArgument(file: string, line: nat, index: nat, writeFd: nat): string {
    "--" + GTEST_FLAG_PREFIX + INTERNAL_RUN_DEATH_TEST_FLAG + "=" + FormatFlag(file, line, index, writeFd)
  }

  /** How the two arguments start. */
  lemma ArgumentsByText(caseName: CString, testName: CString, file: string, line: nat, index: nat, writeFd: nat)
    ensures FilterArgument(caseName, testName) == "--gtest_filter=" + (caseName + "." + testName)
    ensures InternalArgument(file, line, index, writeFd) ==
            "--gtest_internal_run_death_test=" + FormatFlag(file, line, index, writeFd)
  {
    hide FormatFlag;
    FlagStart(FILTER_FLAG);
    FlagStart(INTERNAL_RUN_DEATH_TEST_FLAG);
    assert "--gtest_" + FILTER_FLAG + "=" == "--gtest_filter=";
    assert "--gtest_" + INTERNAL_RUN_DEATH_TEST_FLAG + "=" == "--gtest_internal_run_death_test=";
  }

  lemma FlagStart(name: string)
    ensures "--" + GTEST_FLAG_PREFIX + name + "=" == "--gtest_" + name + "="
  {
    assert "--" + GTEST_FLAG_PREFIX == "--gtest_";
  }

  lemma BothInFlags()
    ensures Flag(StringFlag, FILTER_FLAG) in FLAGS && Flag(StringFlag, INTERNAL_RUN_DEATH_TEST_FLAG) in FLAGS
    ensures FILTER_FLAG != INTERNAL_RUN_DEATH_TEST_FLAG
  {
    assert FLAGS[6] == Flag(StringFlag, FILTER_FLAG);
    assert FLAGS[7] == Flag(StringFlag, INTERNAL_RUN_DEATH_TEST_FLAG);
    assert |FILTER_FLAG| == 6 && |INTERNAL_RUN_DEATH_TEST_FLAG| == 23;
  }

  /** Names of tests that the macros can make: no wildcard, colon or dash. */
  predicate PlainName(name: string) {
    Literal(name) && ':' !in name && '-' !in name
  }

  /** A plain name, used as the filter, selects that name and no other. */
  lemma NameSelectsItself(name: string, other: string)
    requires PlainName(name)
    ensures FilterSelects(name, other) <==> other == name
  {
    hide InGlob, Fields;
    DashFree(name, other);
    FieldsNone(name, ':');
    LiteralOnly(name, other);
  }

  lemma DashFree(name: string, other: string)
    requires '-' !in name
    ensures FilterSelects(name, other) <==> InFilter(name, other)
  {
    IndexOfUnique(name, '-', |name|);
  }

  /** A glob matches every text that differs from it in wildcards only. */
  lemma {:induction false} GlobMatchesSimilar(glob: string, w: string)
    requires |w| == |glob| && forall i | 0 <= i < |w| :: w[i] == glob[i] || glob[i] in {'?', '*'}
    ensures InGlob(glob, w)
  {
    hide InGlob;
    if glob == "" {
      InGlobEmpty(w);
    } else {
      GlobMatchesSimilar(glob[1..], w[1..]);
      assert glob == [glob[0]] + glob[1..];
      InGlobCons(glob[0], glob[1..], w);
      assert w[..1] == [w[0]];
      assert PieceMatches(glob[0], w[..1]);
    }
  }

  // A name that is not literal, or has a colon, also selects another name.
  lemma OtherSelected(name: string) returns (other: string)
    requires '-' !in name && !(Literal(name) && ':' !in name)
    ensures other != name && FilterSelects(name, other)
  {
    hide InGlob, Fields, IndexOf;
    FieldsFirst(name, ':');
    var colon := IndexOf(name, ':');
    if colon < |name| {
      other := name[..colon];
      GlobMatchesSimilar(other, other);
      assert other in Fields(name, ':');
    } else {
      var i :| 0 <= i < |name| && name[i] in {'?', '*'};
      other := name[i := 'a'];
      GlobMatchesSimilar(name, other);
      assert name in Fields(name, ':');
      assert other[i] != name[i];
    }
    DashFree(name, other);
  }

  /** Of the names without a dash, exactly the plain ones select themselves and
      nothing else. */
  lemma SelectsOnlyItselfIff(name: string)
    requires '-' !in name
    ensures (forall other :: FilterSelects(name, other) <==> other == name) <==> PlainName(name)
  {
    hide FilterSelects;
    if PlainName(name) {
      forall other ensures FilterSelects(name, other) <==> other == name {
        NameSelectsItself(name, other);
      }
    } else {
      var other := OtherSelected(name);
      assert FilterSelects(name, other) && other != name;
    }
  }

  /** The value a setting has in the child. */
  ghost predicate HasText(settings: SettingMap, name: string, text: string) {
    name in settings && settings[name] == StringValue(text)
  }

  /** The arguments the parent adds come last, so they decide both flags
      whatever the arguments before them say; and the child removes them. */
  lemma AddedArgumentsDecide(args: Arguments, filterArg: string, filter: string, internalArg: string, internal: string,
                             initial: SettingMap, longMax: int)
    requires Recognize(filterArg, FLAGS, longMax) == Some(Setting(FILTER_FLAG, StringValue(filter)))
    requires Recognize(internalArg, FLAGS, longMax)
             == Some(Setting(INTERNAL_RUN_DEATH_TEST_FLAG, StringValue(internal)))
    ensures var settings := Settings(args + [Some(filterArg), Some(internalArg)], initial, longMax);
            HasText(settings, FILTER_FLAG, filter) && HasText(settings, INTERNAL_RUN_DEATH_TEST_FLAG, internal)
    ensures Kept(args + [Some(filterArg), Some(internalArg)], longMax) == Kept(args, longMax)
  {
    BothInFlags();
    hide FLAGS, Recognize, Kept, Settings, FILTER_FLAG, INTERNAL_RUN_DEATH_TEST_FLAG;
    var all := args + [Some(filterArg), Some(internalArg)];
    var n := |args|;
    ParseStep(all, n, initial, longMax);
    ParseStep(all, n + 1, initial, longMax);
    assert all[..n] == args && all[..n + 2] == all;
  }

  /** The child that the parent starts for the k-th death test of a test takes
      the parent's two arguments whatever else is on the command line; it
      selects that test and no other, for names without a dash exactly if the
      name is plain; and in it instantiates the k-th death test and no other, if
      and only if the source path has no |. */
  lemma ChildRunsThisDeathTest(args: Arguments, initial: SettingMap, longMax: int, caseName: CString, testName: CString,
                               sites: seq<Site>, k: nat, style: string, writeFd: nat)
    requires 1 <= k <= |sites| && k <= INT_MAX && writeFd <= INT_MAX && KnownStyle(style)
    requires 0 <= sites[k - 1].line <= INT_MAX
    ensures var site, name := sites[k - 1], caseName + "." + testName;
            var filterArg := FilterArgument(caseName, testName);
            var internalArg := InternalArgument(site.file, site.line, k, writeFd);
            var settings := Settings(args + [Some(filterArg), Some(internalArg)], initial, longMax);
            && Kept(args + [Some(filterArg), Some(internalArg)], longMax) == Kept(args, longMax)
            && HasText(settings, "filter", name)
            && ('-' !in name ==>
                  (PlainName(name) <==>
                    forall other :: FilterSelects(settings["filter"].s, other) <==> other == name))
            && HasText(settings, "internal_run_death_test", FormatFlag(site.file, site.line, k, writeFd))
            && var p := ParseFields(Fields(settings["internal_run_death_test"].s, '|'));
               && (p.Parsed? <==> '|' !in site.file)
               && (p.Parsed? ==>
                     var answers := Answers(Some(p.flag), style, sites);
                     && p.flag.writeFd == writeFd
                     && (forall i | 0 <= i < k - 1 :: answers[i].Skipped?)
                     && answers[k - 1] == (if style == "threadsafe" then ExecStyle else NoExecStyle)
                     && (forall i | k <= i < |sites| :: answers[i].Refused?))
  {
    var site := sites[k - 1];
    var name, text := caseName + "." + testName, FormatFlag(site.file, site.line, k, writeFd);
    var filterArg := FilterArgument(caseName, testName);
    var internalArg := InternalArgument(site.file, site.line, k, writeFd);
    ArgumentsRecognized(caseName, testName, site.file, site.line, k, writeFd, longMax);
    assert FILTER_FLAG == "filter" && INTERNAL_RUN_DEATH_TEST_FLAG == "internal_run_death_test";
    hide FLAGS, Recognize, Kept, Settings, FILTER_FLAG, INTERNAL_RUN_DEATH_TEST_FLAG, GTEST_FLAG_PREFIX;
    hide FormatFlag, FilterSelects, Fields, ParseFields, Answers, FilterArgument, InternalArgument;
    AddedArgumentsDecide(args, filterArg, name, internalArg, text, initial, longMax);
    if '-' !in name {
      SelectsOnlyItselfIff(name);
    }
    ChildRunsTheSameSite(sites, k, style, writeFd);
  }

  lemma ArgumentsRecognized(caseName: CString, testName: CString, file: string, line: nat, index: nat, writeFd: nat,
                            longMax: int)
    ensures Recognize(FilterArgument(caseName, testName), FLAGS, longMax)
            == Some(Setting(FILTER_FLAG, StringValue(caseName + "." + testName)))
    ensures Recognize(InternalArgument(file, line, index, writeFd), FLAGS, longMax)
            == Some(Setting(INTERNAL_RUN_DEATH_TEST_FLAG, StringValue(FormatFlag(file, line, index, writeFd))))
  {
    BothInFlags();
    hide FLAGS, Recognize, FILTER_FLAG, INTERNAL_RUN_DEATH_TEST_FLAG, FormatFlag;
    assert "--" + GTEST_FLAG_PREFIX == "--gtest_";
    StringFlagSet(Flag(StringFlag, FILTER_FLAG), caseName + "." + testName, longMax);
    StringFlagSet(Flag(StringFlag, INTERNAL_RUN_DEATH_TEST_FLAG), FormatFlag(file, line, index, writeFd), longMax);
  }
}
