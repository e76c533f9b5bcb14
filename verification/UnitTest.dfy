/** Registration, filtering, shuffling and running of tests: the classes
    TestInfo, TestCase and UnitTestImpl. */
module UnitTest {
  import opened CStrings
  import opened TestFilter
  import opened Shuffling
  import opened Sharding
  import opened RunOrder

  // ---------------------------------------------------------------------
  // The order registration leads to
  // ---------------------------------------------------------------------

  datatype Registration = Registration(caseName: CString, testName: CString)
  datatype CaseView = CaseView(name: CString, tests: seq<CString>)

  ghost predicate IsDeathCase(name: CString) { InFilter(DEATH_TEST_CASE_FILTER, name) }

  // What follows works for any classification of the case names; the class
  // below instantiates it with IsDeathCase.
  type Classifier = CString -> bool

  function CaseNamesOf(registered: seq<Registration>): (names: seq<CString>)
    ensures |names| == |registered|
  {
    seq(|registered|, i requires 0 <= i < |registered| => registered[i].caseName)
  }

  /** The names in the order in which each first occurs. */
  function FirstOccurrences(names: seq<CString>): seq<CString> {
    if names == [] then []
    else
      var earlier, last := FirstOccurrences(names[..|names| - 1]), names[|names| - 1];
      if last in earlier then earlier else earlier + [last]
  }

  ghost function Deaths(names: seq<CString>, isDeath: Classifier): seq<CString> {
    if names == [] then []
    else Deaths(names[..|names| - 1], isDeath) + if isDeath(names[|names| - 1]) then [names[|names| - 1]] else []
  }

  ghost function Others(names: seq<CString>, isDeath: Classifier): seq<CString> {
    if names == [] then []
    else Others(names[..|names| - 1], isDeath) + if isDeath(names[|names| - 1]) then [] else [names[|names| - 1]]
  }

  /** The tests registered under one case name, in order. */
  function TestsOf(registered: seq<Registration>, caseName: CString): seq<CString> {
    if registered == [] then []
    else
      var last := registered[|registered| - 1];
      TestsOf(registered[..|registered| - 1], caseName) + if last.caseName == caseName then [last.testName] else []
  }

  /** The stable partition of the first-registration order, death cases first. */
  ghost function CasesInOrder(registered: seq<Registration>, isDeath: Classifier): seq<CString> {
    var cases := FirstOccurrences(CaseNamesOf(registered));
    Deaths(cases, isDeath) + Others(cases, isDeath)
  }

  ghost function RegisteredView(registered: seq<Registration>, isDeath: Classifier): (view: seq<CaseView>)
    ensures |view| == |CasesInOrder(registered, isDeath)|
  {
    var cases := CasesInOrder(registered, isDeath);
    seq(|cases|, i requires 0 <= i < |cases| => CaseView(cases[i], TestsOf(registered, cases[i])))
  }

  ghost function DeathCount(registered: seq<Registration>, isDeath: Classifier): nat {
    |Deaths(FirstOccurrences(CaseNamesOf(registered)), isDeath)|
  }

  lemma {:induction false} SameNames(names: seq<CString>, isDeath: Classifier, name: CString)
    ensures name in Deaths(names, isDeath) + Others(names, isDeath) <==> name in names
  {
    if names != [] {
      SameNames(names[..|names| - 1], isDeath, name);
      assert names == names[..|names| - 1] + [names[|names| - 1]];
    }
  }

  lemma PartitionStep(names: seq<CString>, name: CString, isDeath: Classifier)
    ensures Deaths(names + [name], isDeath) == Deaths(names, isDeath) + if isDeath(name) then [name] else []
    ensures Others(names + [name], isDeath) == Others(names, isDeath) + if isDeath(name) then [] else [name]
  {
    assert (names + [name])[..|names|] == names;
  }

  lemma FirstOccurrencesStep(registered: seq<Registration>, r: Registration)
    ensures var cases := FirstOccurrences(CaseNamesOf(registered));
            FirstOccurrences(CaseNamesOf(registered + [r])) ==
            if r.caseName in cases then cases else cases + [r.caseName]
  {
    var names := CaseNamesOf(registered);
    assert CaseNamesOf(registered + [r]) == names + [r.caseName];
    assert (names + [r.caseName])[..|names|] == names;
  }

  // Where a registration puts its case: a new death case goes after the last
  // death case so far, any other new case to the end.
  lemma RegistrationStep(registered: seq<Registration>, isDeath: Classifier, r: Registration)
    ensures var cases, d := CasesInOrder(registered, isDeath), DeathCount(registered, isDeath);
            && d <= |cases|
            && CasesInOrder(registered + [r], isDeath) ==
               (if r.caseName in cases then cases
                else if isDeath(r.caseName) then cases[..d] + [r.caseName] + cases[d..]
                else cases + [r.caseName])
            && DeathCount(registered + [r], isDeath) ==
               if r.caseName !in cases && isDeath(r.caseName) then d + 1 else d
  {
    hide FirstOccurrences, Deaths, Others;
    var cases := FirstOccurrences(CaseNamesOf(registered));
    FirstOccurrencesStep(registered, r);
    PartitionStep(cases, r.caseName, isDeath);
    SameNames(cases, isDeath, r.caseName);
    var deaths, others := Deaths(cases, isDeath), Others(cases, isDeath);
    var all := deaths + others;
    if r.caseName !in cases {
      if isDeath(r.caseName) {
        assert all[..|deaths|] == deaths && all[|deaths|..] == others;
      } else {
        assert deaths + (others + [r.caseName]) == all + [r.caseName];
      }
    }
  }

  lemma TestsOfStep(registered: seq<Registration>, r: Registration, caseName: CString)
    ensures TestsOf(registered + [r], caseName) ==
            TestsOf(registered, caseName) + if r.caseName == caseName then [r.testName] else []
  {
    assert (registered + [r])[..|registered|] == registered;
  }

  lemma {:induction false} NoTestsYet(registered: seq<Registration>, caseName: CString)
    requires caseName !in CaseNamesOf(registered)
    ensures TestsOf(registered, caseName) == []
  {
    if registered != [] {
      var n := |registered| - 1;
      assert CaseNamesOf(registered)[n] == registered[n].caseName;
      assert CaseNamesOf(registered[..n]) == CaseNamesOf(registered)[..n];
      NoTestsYet(registered[..n], caseName);
    }
  }

  lemma {:induction false} FirstOccurrencesSet(names: seq<CString>, name: CString)
    ensures name in FirstOccurrences(names) <==> name in names
  {
    if names != [] {
      FirstOccurrencesSet(names[..|names| - 1], name);
      assert names == names[..|names| - 1] + [names[|names| - 1]];
    }
  }

  lemma {:induction false} FirstOccurrencesDistinct(names: seq<CString>)
    ensures Distinct(FirstOccurrences(names))
  {
    if names != [] {
      FirstOccurrencesDistinct(names[..|names| - 1]);
    }
  }

  lemma {:induction false} PartitionDistinct(names: seq<CString>, isDeath: Classifier)
    requires Distinct(names)
    ensures Distinct(Deaths(names, isDeath)) && Distinct(Others(names, isDeath))
    ensures forall name | name in Deaths(names, isDeath) :: name in names && isDeath(name)
    ensures forall name | name in Others(names, isDeath) :: name in names && !isDeath(name)
  {
    if names != [] {
      PartitionDistinct(names[..|names| - 1], isDeath);
      assert forall i | 0 <= i < |names| - 1 :: names[i] != names[|names| - 1];
    }
  }

  /** No case is listed twice. */
  lemma CasesDistinct(registered: seq<Registration>, isDeath: Classifier)
    ensures Distinct(CasesInOrder(registered, isDeath))
  {
    var cases := FirstOccurrences(CaseNamesOf(registered));
    FirstOccurrencesDistinct(CaseNamesOf(registered));
    PartitionDistinct(cases, isDeath);
    assert forall i | 0 <= i < |Deaths(cases, isDeath)| :: Deaths(cases, isDeath)[i] in Deaths(cases, isDeath);
    assert forall k | 0 <= k < |Others(cases, isDeath)| :: Others(cases, isDeath)[k] in Others(cases, isDeath);
  }

  /** The death cases are exactly the first ones. */
  lemma DeathCasesLead(registered: seq<Registration>, isDeath: Classifier, i: nat)
    requires i < |CasesInOrder(registered, isDeath)|
    ensures isDeath(CasesInOrder(registered, isDeath)[i]) <==> i < DeathCount(registered, isDeath)
  {
    var cases := FirstOccurrences(CaseNamesOf(registered));
    FirstOccurrencesDistinct(CaseNamesOf(registered));
    PartitionDistinct(cases, isDeath);
    var deaths, others := Deaths(cases, isDeath), Others(cases, isDeath);
    if i < |deaths| {
      assert deaths[i] in deaths;
    } else {
      assert others[i - |deaths|] in others;
    }
  }

  // What one registration does to the view: a test more in its case, or a new
  // case with one test.
  lemma ViewOfKnownCase(registered: seq<Registration>, isDeath: Classifier, r: Registration, k: nat)
    requires var view := RegisteredView(registered, isDeath);
             k < |view| && view[k].name == r.caseName
    ensures var view := RegisteredView(registered, isDeath);
            && RegisteredView(registered + [r], isDeath)
               == view[k := CaseView(r.caseName, view[k].tests + [r.testName])]
            && DeathCount(registered + [r], isDeath) == DeathCount(registered, isDeath)
  {
    hide CasesInOrder, DeathCount, TestsOf;
    RegistrationStep(registered, isDeath, r);
    CasesDistinct(registered, isDeath);
    var view, after := RegisteredView(registered, isDeath), RegisteredView(registered + [r], isDeath);
    assert view[k].name in CasesInOrder(registered, isDeath);
    forall i | 0 <= i < |view|
      ensures after[i] == if i == k then CaseView(r.caseName, view[k].tests + [r.testName]) else view[i]
    {
      TestsOfStep(registered, r, view[i].name);
    }
  }

  lemma ViewOfNewCase(registered: seq<Registration>, isDeath: Classifier, r: Registration)
    requires var view := RegisteredView(registered, isDeath); forall i | 0 <= i < |view| :: view[i].name != r.caseName
    ensures var view, d := RegisteredView(registered, isDeath), DeathCount(registered, isDeath);
            var at := if isDeath(r.caseName) then d else |view|;
            && d <= |view|
            && RegisteredView(registered + [r], isDeath)
               == view[..at] + [CaseView(r.caseName, [r.testName])] + view[at..]
            && DeathCount(registered + [r], isDeath) == d + if isDeath(r.caseName) then 1 else 0
  {
    hide DeathCount, TestsOf, CasesInOrder;
    var view, after := RegisteredView(registered, isDeath), RegisteredView(registered + [r], isDeath);
    var d := DeathCount(registered, isDeath);
    assert forall i | 0 <= i < |view| :: view[i].name == CasesInOrder(registered, isDeath)[i];
    RegistrationStep(registered, isDeath, r);
    NewCaseHasNoTests(registered, isDeath, r.caseName);
    forall i | 0 <= i < |after|
      ensures after[i].tests ==
              TestsOf(registered, after[i].name) + if r.caseName == after[i].name then [r.testName] else []
    {
      TestsOfStep(registered, r, after[i].name);
    }
    var created := CaseView(r.caseName, [r.testName]);
    var at := if isDeath(r.caseName) then d else |view|;
    var cases := CasesInOrder(registered, isDeath);
    assert CasesInOrder(registered + [r], isDeath) == cases[..at] + [r.caseName] + cases[at..];
    var expected := view[..at] + [created] + view[at..];
    forall i | 0 <= i < |after|
      ensures after[i] == expected[i]
    {
      assert after[i].name == expected[i].name;
      if i != at {
        assert after[i].name in CasesInOrder(registered, isDeath);
      }
    }
    assert after == expected;
  }

  lemma NewCaseHasNoTests(registered: seq<Registration>, isDeath: Classifier, caseName: CString)
    requires caseName !in CasesInOrder(registered, isDeath)
    ensures TestsOf(registered, caseName) == []
  {
    SameNames(FirstOccurrences(CaseNamesOf(registered)), isDeath, caseName);
    FirstOccurrencesSet(CaseNamesOf(registered), caseName);
    NoTestsYet(registered, caseName);
  }

  // ---------------------------------------------------------------------
  // Which tests are runnable
  // ---------------------------------------------------------------------

  ghost predicate IsDisabled(caseName: CString, testName: CString) {
    InFilter(DISABLE_TEST_FILTER, caseName) || InFilter(DISABLE_TEST_FILTER, testName)
  }

  datatype Flags = Flags(filter: CString, alsoRunDisabledTests: bool)

  ghost predicate IsRunnable(flags: Flags, caseName: CString, testName: CString) {
    && (flags.alsoRunDisabledTests || !IsDisabled(caseName, testName))
    && FilterSelects(flags.filter, FullName(caseName, testName))
  }

  /** A name is disabled if it starts with DISABLED_, or has it after a slash. A
      test runs if neither its case's name nor its own is, or disabled tests are
      asked for, and if the filter selects its full name. */
  lemma RunnableByText(flags: Flags, caseName: CString, testName: CString)
    ensures IsRunnable(flags, caseName, testName) <==>
            && (|| flags.alsoRunDisabledTests
                || !(|| "DISABLED_" <= caseName || Contains(caseName, "/DISABLED_")
                     || "DISABLED_" <= testName || Contains(testName, "/DISABLED_")))
            && FilterSelects(flags.filter, caseName + "." + testName)
  {
    hide FilterSelects, Contains, InFilter;
    DisabledNames(caseName);
    DisabledNames(testName);
  }

  /** A death case is one named ...DeathTest or ...DeathTest/... */
  lemma DeathCaseByText(name: CString)
    ensures IsDeathCase(name) <==> EndsWith(name, "DeathTest") || Contains(name, "DeathTest/")
  {
    DeathTestCaseNames(name);
  }

  ghost function RunnableRow(flags: Flags, c: CaseView): (row: seq<bool>)
    ensures |row| == |c.tests|
    ensures forall j | 0 <= j < |row| :: row[j] == IsRunnable(flags, c.name, c.tests[j])
  {
    seq(|c.tests|, j requires 0 <= j < |c.tests| => IsRunnable(flags, c.name, c.tests[j]))
  }

  ghost function RunnableRows(flags: Flags, view: seq<CaseView>): (rows: seq<seq<bool>>)
    ensures |rows| == |view|
    ensures forall i | 0 <= i < |rows| :: rows[i] == RunnableRow(flags, view[i])
  {
    seq(|view|, i requires 0 <= i < |view| => RunnableRow(flags, view[i]))
  }

  // ---------------------------------------------------------------------
  // The classes
  // ---------------------------------------------------------------------

  class TestInfo {
    const name: CString
    var isDisabled: bool
    var matchesFilter: bool
    var shouldRun: bool

    constructor (name: CString)
      ensures this.name == name
    {
      this.name := name;
      isDisabled, matchesFilter, shouldRun := false, false, false;
    }
  }

  function TestNames(infos: seq<TestInfo>): (names: seq<CString>)
    ensures |names| == |infos| && forall j | 0 <= j < |names| :: names[j] == infos[j].name
  {
    seq(|infos|, j requires 0 <= j < |infos| => infos[j].name)
  }

  // The flags filtering leaves on one test.
  ghost predicate TestFiltered(t: TestInfo, flags: Flags, caseName: CString, selected: bool)
    reads t
  {
    && (t.isDisabled <==> IsDisabled(caseName, t.name))
    && (t.matchesFilter <==> FilterSelects(flags.filter, FullName(caseName, t.name)))
    && t.shouldRun == selected
  }

  method Classify(flags: Flags, caseName: CString, testName: CString)
    returns (isDisabled: bool, matchesFilter: bool, isRunnable: bool)
    ensures isDisabled <==> IsDisabled(caseName, testName)
    ensures isDisabled <==> "DISABLED_" <= caseName || Contains(caseName, "/DISABLED_") ||
                            "DISABLED_" <= testName || Contains(testName, "/DISABLED_")
    ensures matchesFilter <==> FilterSelects(flags.filter, caseName + "." + testName)
    ensures isRunnable <==> (flags.alsoRunDisabledTests || !isDisabled) && matchesFilter
    ensures isRunnable <==> IsRunnable(flags, caseName, testName)
  {
    hide Contains;
    DisabledNames(caseName);
    DisabledNames(testName);
    var byCase := MatchesFilter(caseName, DISABLE_TEST_FILTER);
    var byTest := MatchesFilter(testName, DISABLE_TEST_FILTER);
    isDisabled := byCase || byTest;
    matchesFilter := FilterMatchesTest(flags.filter, caseName, testName);
    isRunnable := (flags.alsoRunDisabledTests || !isDisabled) && matchesFilter;
  }

  // Records the outcome in the test, where the flags are fields.
  method Mark(t: TestInfo, ghost flags: Flags, ghost caseName: CString,
              isDisabled: bool, matchesFilter: bool, isSelected: bool)
    requires isDisabled <==> IsDisabled(caseName, t.name)
    requires matchesFilter <==> FilterSelects(flags.filter, FullName(caseName, t.name))
    modifies t
    ensures TestFiltered(t, flags, caseName, isSelected)
  {
    hide IsDisabled, FilterSelects;
    t.isDisabled := isDisabled;
    t.matchesFilter := matchesFilter;
    t.shouldRun := isSelected;
  }

  class TestCase {
    const name: CString
    var testInfoList: seq<TestInfo>
    var testIndices: seq<nat>
    var shouldRun: bool

    constructor (name: CString)
      ensures this.name == name && testInfoList == [] && testIndices == []
    {
      this.name := name;
      testInfoList, testIndices, shouldRun := [], [], false;
    }

    method AddTestInfo(testInfo: TestInfo)
      modifies this`testInfoList, this`testIndices
      ensures testInfoList == old(testInfoList) + [testInfo]
      ensures testIndices == old(testIndices) + [|old(testIndices)|]
    {
      testInfoList := testInfoList + [testInfo];
      testIndices := testIndices + [|testIndices|];
    }

    method ShuffleTests(random: Random)
      requires |testIndices| < MAX_RANGE
      modifies this`testIndices, random
      ensures testIndices == ShuffledTests(old(testIndices), old(random.state))
      ensures random.state == StateAfter(old(random.state), |old(testIndices)|)
    {
      testIndices := ShuffleRange(random, 0, |testIndices|, testIndices);
    }

    method UnshuffleTests()
      modifies this`testIndices
      ensures testIndices == Identity(|old(testIndices)|)
    {
      var i := 0;
      while i < |testIndices|
        invariant 0 <= i <= |testIndices| == |old(testIndices)|
        invariant forall k | 0 <= k < i :: testIndices[k] == k
      {
        testIndices := testIndices[i := i];
        i := i + 1;
      }
    }

    /** The flags filtering leaves on this case and its tests. */
    ghost predicate Filtered(flags: Flags, row: seq<bool>)
      reads this`shouldRun, this`testInfoList, testInfoList
    {
      && |row| == |testInfoList|
      && (shouldRun <==> true in row)
      && forall j | 0 <= j < |row| :: TestFiltered(testInfoList[j], flags, name, row[j])
    }

    /** The inner loop of FilterTests: the tests of this case, which is case i,
        given the numbers of runnable and selected tests before them. */
    method Filter(flags: Flags, p: Protocol, runnableBefore: nat, selectedBefore: nat,
                  ghost rows: seq<seq<bool>>, ghost i: nat)
      returns (numRunnable: nat, numSelected: nat)
      requires WellFormed(p) && Distinct(testInfoList)
      requires i < |rows| && |rows[i]| == |testInfoList|
      requires forall j | 0 <= j < |rows[i]| :: rows[i][j] == IsRunnable(flags, name, testInfoList[j].name)
      requires runnableBefore == CountRows(rows[..i])
      modifies this`shouldRun, testInfoList
      ensures Filtered(flags, SelectedRows(rows, p)[i])
      ensures numRunnable == runnableBefore + CountTrue(rows[i])
      ensures numSelected == selectedBefore + CountTrue(SelectedRows(rows, p)[i])
    {
      hide IsRunnable, IsDisabled, FilterSelects, TestFiltered, CountTrue, CountRows;
      ghost var row := SelectedRows(rows, p)[i];
      NoneCounted();
      numRunnable, numSelected := runnableBefore, selectedBefore;
      shouldRun := false;
      for j := 0 to |testInfoList|
        invariant numRunnable == TestId(rows, i, j)
        invariant numSelected == selectedBefore + CountTrue(row[..j])
        invariant shouldRun <==> true in row[..j]
        invariant forall l | 0 <= l < j :: TestFiltered(testInfoList[l], flags, name, row[l])
      {
        var testInfo := testInfoList[j];
        var isDisabled, matchesFilter, isRunnable := Classify(flags, name, testInfo.name);
        var isSelected := isRunnable && (p.Ignore? || ShouldRunTestOnShard(p.totalShards, p.shardIndex, numRunnable));
        assert isSelected == row[j];
        Mark(testInfo, flags, name, isDisabled, matchesFilter, isSelected);
        numRunnable := numRunnable + if isRunnable then 1 else 0;
        numSelected := numSelected + if isSelected then 1 else 0;
        shouldRun := shouldRun || isSelected;
        CountTrueNext(rows[i], j);
        CountTrueNext(row, j);
      }
      assert rows[i][..|rows[i]|] == rows[i] && row[..|row|] == row;
    }

    /** Executes the selected tests in index order; i labels this case. */
    method Run(i: nat, ghost flags: Flags, ghost row: seq<bool>) returns (executed: seq<TestIndex>)
      requires Filtered(flags, row) && Indexes(testIndices, |testInfoList|)
      ensures executed == RunCase(row, i, testIndices)
    {
      hide IsDisabled, FilterSelects;
      executed := [];
      if !shouldRun {
        NothingToRun(row, i, testIndices);
        return;
      }
      for k := 0 to |testIndices|
        invariant executed == RunCase(row, i, testIndices[..k])
      {
        assert testIndices[..k + 1][..k] == testIndices[..k];
        assert TestFiltered(testInfoList[testIndices[k]], flags, name, row[testIndices[k]]);
        if testInfoList[testIndices[k]].shouldRun {
          executed := executed + [(i, testIndices[k])];
        }
      }
      assert testIndices[..|testIndices|] == testIndices;
    }
  }

  lemma {:induction false} NothingToRun(row: seq<bool>, i: nat, order: seq<nat>)
    requires true !in row && Indexes(order, |row|)
    ensures RunCase(row, i, order) == []
  {
    if order != [] {
      NothingToRun(row, i, order[..|order| - 1]);
    }
  }

  lemma DistinctInsert<T>(s: seq<T>, i: nat, x: T)
    requires i <= |s| && Distinct(s) && x !in s
    ensures Distinct(s[..i] + [x] + s[i..])
  {
  }

  ghost predicate Apart(c: TestCase, c': TestCase)
    reads c`testInfoList, c'`testInfoList
  {
    forall t | t in c.testInfoList :: t !in c'.testInfoList
  }

  ghost function View(cases: seq<TestCase>): (view: seq<CaseView>)
    reads cases
    ensures |view| == |cases|
  {
    seq(|cases|, i requires 0 <= i < |cases| reads cases =>
      CaseView(cases[i].name, TestNames(cases[i].testInfoList)))
  }

  // The objects form a tree: no case and no test is listed twice.
  ghost predicate Tree(cases: seq<TestCase>)
    reads cases`testInfoList
  {
    && Distinct(cases)
    && (forall c | c in cases :: Distinct(c.testInfoList))
    && (forall c, c' | c in cases && c' in cases && c != c' :: Apart(c, c'))
  }

  ghost predicate TestsUnshuffled(cases: seq<TestCase>)
    reads cases
  {
    forall c | c in cases :: c.testIndices == Identity(|c.testInfoList|)
  }

  method MatchesDeathTestCaseFilter(name: CString) returns (matched: bool)
    ensures matched <==> IsDeathCase(name)
    ensures matched <==> EndsWith(name, "DeathTest") || Contains(name, "DeathTest/")
  {
    DeathCaseByText(name);
    matched := MatchesFilter(name, DEATH_TEST_CASE_FILTER);
  }

  class UnitTestImpl {
    var testCases: seq<TestCase>
    var testCaseIndices: seq<nat>
    var lastDeathTestCase: int
    var randomSeed: UInt32
    const random: Random
    /** Tells death test cases by name. */
    ghost const isDeath: Classifier
    /** Every registration so far. */
    ghost var registered: seq<Registration>

    /** Holds between any two calls: the cases are those registered, in
        partition order, and lastDeathTestCase is the index of the last death
        case. */
    ghost predicate Valid()
      reads this`testCases, this`lastDeathTestCase, this`registered, testCases
    {
      && (forall name {:trigger IsDeathCase(name)} :: IsDeathCase(name) <==> isDeath(name))
      && Tree(testCases)
      && View(testCases) == RegisteredView(registered, isDeath)
      && lastDeathTestCase + 1 == DeathCount(registered, isDeath) <= |testCases|
    }

    /** All indices are the identity. */
    ghost predicate Unshuffled()
      reads this`testCases, this`testCaseIndices, testCases
    {
      testCaseIndices == Identity(|testCases|) && TestsUnshuffled(testCases)
    }

    constructor ()
      ensures Valid() && Unshuffled() && registered == []
    {
      testCases, testCaseIndices, lastDeathTestCase, randomSeed := [], [], -1, 0;
      random := new Random(0);
      registered := [];
      isDeath := (name: CString) => IsDeathCase(name);
    }

    /** std::find_if over the case names. */
    method FindTestCase(testCaseName: CString) returns (index: nat)
      ensures index <= |testCases| && forall k | 0 <= k < index :: testCases[k].name != testCaseName
      ensures index < |testCases| ==> testCases[index].name == testCaseName
    {
      index := 0;
      while index < |testCases| && testCases[index].name != testCaseName
        invariant index <= |testCases| && forall k | 0 <= k < index :: testCases[k].name != testCaseName
      {
        index := index + 1;
      }
    }

    /** The part of GetTestCase that creates a case: a death case goes after the
        last death case, any other to the end. */
    method CreateTestCase(testCaseName: CString) returns (index: nat)
      requires forall name {:trigger IsDeathCase(name)} :: IsDeathCase(name) <==> isDeath(name)
      requires 0 <= lastDeathTestCase + 1 <= |testCases| && testCaseIndices == Identity(|testCases|)
      modifies this`testCases, this`testCaseIndices, this`lastDeathTestCase
      ensures index == (if isDeath(testCaseName) then old(lastDeathTestCase) + 1 else |old(testCases)|)
      ensures index < |testCases|
      ensures testCases == old(testCases)[..index] + [testCases[index]] + old(testCases)[index..]
      ensures fresh(testCases[index]) && testCases[index].name == testCaseName
      ensures testCases[index].testInfoList == [] && testCases[index].testIndices == []
      ensures testCaseIndices == Identity(|testCases|)
      ensures lastDeathTestCase == old(lastDeathTestCase) + if isDeath(testCaseName) then 1 else 0
    {
      hide IsDeathCase;
      var testCase := new TestCase(testCaseName);
      var matched := MatchesDeathTestCaseFilter(testCaseName);
      if matched {
        lastDeathTestCase := lastDeathTestCase + 1;
        index := lastDeathTestCase;
        testCases := testCases[..lastDeathTestCase] + [testCase] + testCases[lastDeathTestCase..];
      } else {
        index := |testCases|;
        testCases := testCases + [testCase];
      }
      testCaseIndices := testCaseIndices + [|testCaseIndices|];
    }

    // A new empty case keeps the tree and shows in the view.
    twostate lemma InsertCase(index: nat, new created: TestCase)
      requires old(Tree(testCases)) && index <= |old(testCases)| && created !in old(testCases)
      requires testCases == old(testCases)[..index] + [created] + old(testCases)[index..]
      requires old(Unshuffled()) && created.testInfoList == [] && created.testIndices == []
      requires forall c | c in old(testCases) ::
                 c.testInfoList == old(c.testInfoList) && c.testIndices == old(c.testIndices)
      ensures Tree(testCases)
      ensures TestsUnshuffled(testCases)
      ensures View(testCases) ==
              old(View(testCases))[..index] + [CaseView(created.name, [])] + old(View(testCases))[index..]
    {
      DistinctInsert(old(testCases), index, created);
      forall c, c' | c in old(testCases) && c' in old(testCases) && c != c'
        ensures Apart(c, c')
      {
        assert old(Apart(c, c'));
      }
      forall c | c in old(testCases)
        ensures Distinct(c.testInfoList)
      {
        assert old(Distinct(c.testInfoList));
      }
    }

    /** Finds the case with the given name or creates one; only while the
        tests are not shuffled. The case is identified by its index. */
    method GetTestCase(testCaseName: CString) returns (index: nat, ghost found: bool)
      requires Valid() && Unshuffled()
      modifies this`testCases, this`testCaseIndices, this`lastDeathTestCase
      ensures Tree(testCases) && Unshuffled() && index < |testCases|
      ensures forall c | c in testCases && c !in old(testCases) :: fresh(c) && c.testInfoList == []
      ensures found ==> testCases == old(testCases) && lastDeathTestCase == old(lastDeathTestCase)
      ensures found ==> View(testCases)[index].name == testCaseName
      ensures !found ==>
                && (forall k | 0 <= k < |old(testCases)| :: old(View(testCases))[k].name != testCaseName)
                && index == (if isDeath(testCaseName) then old(lastDeathTestCase) + 1 else |old(testCases)|)
                && lastDeathTestCase == old(lastDeathTestCase) + (if isDeath(testCaseName) then 1 else 0)
                && View(testCases) ==
                   old(View(testCases))[..index] + [CaseView(testCaseName, [])] + old(View(testCases))[index..]
    {
      hide IsDeathCase, RegisteredView, DeathCount, Identity;
      index := FindTestCase(testCaseName);
      found := index < |testCases|;
      if index == |testCases| {
        index := CreateTestCase(testCaseName);
        InsertCase(index, testCases[index]);
      }
    }

    // Appending an unlisted test to one case keeps the tree and the identity
    // indices, and shows at the end of that case in the view.
    method AppendToCase(index: nat, testInfo: TestInfo)
      requires Tree(testCases) && index < |testCases|
      requires TestsUnshuffled(testCases) && forall c | c in testCases :: testInfo !in c.testInfoList
      modifies testCases[index]
      ensures Tree(testCases)
      ensures TestsUnshuffled(testCases)
      ensures var c := old(View(testCases))[index];
              View(testCases) == old(View(testCases))[index := CaseView(c.name, c.tests + [testInfo.name])]
    {
      ghost var c := View(testCases)[index];
      ghost var expected := View(testCases)[index := CaseView(c.name, c.tests + [testInfo.name])];
      testCases[index].AddTestInfo(testInfo);
      assert Distinct(old(testCases[index].testInfoList));
      forall c, c' | c in testCases && c' in testCases && c != c'
        ensures Apart(c, c')
      {
        assert old(Apart(c, c'));
      }
      forall i | 0 <= i < |testCases|
        ensures View(testCases)[i] == expected[i]
      {
        assert i != index ==> testCases[i] != testCases[index];
        assert View(testCases)[i].tests == expected[i].tests;
      }
    }

    /** Registers a test that is not listed yet. */
    method AddTestInfo(caseName: CString, testInfo: TestInfo)
      requires Valid() && Unshuffled()
      requires forall c | c in testCases :: testInfo !in c.testInfoList
      modifies this, testCases
      ensures Valid() && Unshuffled()
      ensures registered == old(registered) + [Registration(caseName, testInfo.name)]
    {
      hide IsDeathCase, DeathCount, RegisteredView, CasesInOrder, TestsOf, TestNames;
      hide View, Tree, Apart, Distinct, Identity, TestsUnshuffled;
      ghost var r := Registration(caseName, testInfo.name);
      ghost var view := View(testCases);
      var index, found := GetTestCase(caseName);
      ghost var mid := View(testCases);
      assert testCases[index] in testCases;
      AppendToCase(index, testInfo);
      ghost var c := mid[index];
      ghost var after := CaseView(c.name, c.tests + [testInfo.name]);
      if found {
        ViewOfKnownCase(registered, isDeath, r, index);
      } else {
        ViewOfNewCase(registered, isDeath, r);
        assert c == CaseView(caseName, []);
        assert after == CaseView(caseName, [testInfo.name]);
        InsertThenUpdate(view, index, c, after);
      }
      assert mid[index := after] == RegisteredView(registered + [r], isDeath);
      registered := registered + [r];
    }

    /** Marks the tests to run: runnable ones, dealt out over the shards. */
    method FilterTests(flags: Flags, p: Protocol) returns (numSelected: nat, ghost selected: seq<seq<bool>>)
      requires Valid() && WellFormed(p)
      modifies testCases`shouldRun, Infos(testCases)
      ensures Valid() && View(testCases) == old(View(testCases))
      ensures selected == SelectedRows(RunnableRows(flags, View(testCases)), p)
      ensures AllFiltered(testCases, flags, selected)
      ensures numSelected == CountRows(selected)
    {
      hide IsRunnable, RegisteredView, DeathCount, IsDeathCase, IsSelected, Tree, TestCase.Filtered, Infos;
      hide CountTrue, CountRows;
      NoneCounted();
      InfosContain(testCases);
      ghost var infos := Infos(testCases);
      ghost var view := View(testCases);
      ghost var rows := RunnableRows(flags, view);
      selected := SelectedRows(rows, p);
      var numRunnable := 0;
      numSelected := 0;
      for i := 0 to |testCases|
        invariant SameLists()
        invariant forall c, t | c in testCases && t in c.testInfoList :: t in infos
        invariant numRunnable == CountRows(rows[..i]) && numSelected == CountRows(selected[..i])
        invariant forall k | 0 <= k < i :: testCases[k].Filtered(flags, selected[k])
      {
        SameListsSameTree();
        RowOfCase(flags, testCases, i);
        numRunnable, numSelected := FilterCase(flags, p, numRunnable, numSelected, rows, i);
        CountRowsNext(rows, i);
        CountRowsNext(selected, i);
      }
      assert rows[..|testCases|] == rows && selected[..|testCases|] == selected;
      SameListsSameTree();
    }

    // One turn of the outer loop.
    method FilterCase(flags: Flags, p: Protocol, runnableBefore: nat, selectedBefore: nat,
                      ghost rows: seq<seq<bool>>, i: nat)
      returns (numRunnable: nat, numSelected: nat)
      requires WellFormed(p) && Tree(testCases) && i < |testCases| == |rows|
      requires |rows[i]| == |testCases[i].testInfoList|
      requires forall j | 0 <= j < |rows[i]| ::
                 rows[i][j] == IsRunnable(flags, testCases[i].name, testCases[i].testInfoList[j].name)
      requires runnableBefore == CountRows(rows[..i])
      requires forall k | 0 <= k < i :: testCases[k].Filtered(flags, SelectedRows(rows, p)[k])
      modifies {testCases[i]}`shouldRun, testCases[i].testInfoList
      ensures forall k | 0 <= k <= i :: testCases[k].Filtered(flags, SelectedRows(rows, p)[k])
      ensures numRunnable == runnableBefore + CountTrue(rows[i])
      ensures numSelected == selectedBefore + CountTrue(SelectedRows(rows, p)[i])
    {
      hide IsRunnable, IsSelected, TestFiltered, Tree;
      CasesApart(testCases, i);
      numRunnable, numSelected := testCases[i].Filter(flags, p, runnableBefore, selectedBefore, rows, i);
      forall k | 0 <= k < i
        ensures testCases[k].Filtered(flags, SelectedRows(rows, p)[k])
      {
        var c := testCases[k];
        forall j | 0 <= j < |c.testInfoList|
          ensures TestFiltered(c.testInfoList[j], flags, c.name, SelectedRows(rows, p)[k][j])
        {
          assert old(TestFiltered(c.testInfoList[j], flags, c.name, SelectedRows(rows, p)[k][j]));
          assert c.testInfoList[j] in c.testInfoList;
        }
      }
    }

    /** Shuffles the death cases, the other cases, and the tests of each case. */
    method ShuffleTests(ghost l: Layout)
      requires Distinct(testCases) && Fits(l, testCases) && l.Valid()
      requires lastDeathTestCase + 1 == l.deaths && |testCaseIndices| == |testCases|
      modifies this`testCaseIndices, testCases`testIndices, random
      ensures testCaseIndices ==
              ShuffledCases(|testCases|, l.deaths, old(testCaseIndices), old(random.state))
      ensures forall i | 0 <= i < |testCases| ::
                testCases[i].testIndices ==
                ShuffledTests(old(testCases[i].testIndices), StateAtCase(l, old(random.state), i))
    {
      hide ShuffledTests, ShuffledCases, StateAfter, StateAtCase;
      ghost var s0 := random.state;
      ShuffleCaseIndices(l);
      ghost var order := testCaseIndices;
      for i := 0 to |testCases|
        invariant testCaseIndices == order && random.state == StateAtCase(l, s0, i)
        invariant forall k | 0 <= k < i ::
                    testCases[k].testIndices == ShuffledTests(old(testCases[k].testIndices), StateAtCase(l, s0, k))
        invariant forall k | i <= k < |testCases| :: testCases[k].testIndices == old(testCases[k].testIndices)
      {
        StateAtNextCase(l, s0, i);
        testCases[i].ShuffleTests(random);
      }
    }

    // The two calls that shuffle the cases.
    method ShuffleCaseIndices(ghost l: Layout)
      requires l.Valid() && |l.selected| == |testCases| == |testCaseIndices|
      requires lastDeathTestCase + 1 == l.deaths
      modifies this`testCaseIndices, random
      ensures testCaseIndices ==
              ShuffledCases(|testCases|, l.deaths, old(testCaseIndices), old(random.state))
      ensures random.state == StateAtCase(l, old(random.state), 0)
    {
      hide FisherYates, Draws, StateAfter;
      testCaseIndices := ShuffleRange(random, 0, lastDeathTestCase + 1, testCaseIndices);
      testCaseIndices := ShuffleRange(random, lastDeathTestCase + 1, |testCases|, testCaseIndices);
    }

    /** Puts all indices back to the identity, whatever they were. */
    method UnshuffleTests()
      requires Distinct(testCases) && |testCaseIndices| == |testCases|
      requires forall c | c in testCases :: |c.testIndices| == |c.testInfoList|
      modifies this`testCaseIndices, testCases`testIndices
      ensures Unshuffled()
    {
      for i := 0 to |testCases|
        invariant |testCaseIndices| == |testCases|
        invariant forall c | c in testCases :: |c.testIndices| == |c.testInfoList|
        invariant forall k | 0 <= k < i :: testCaseIndices[k] == k
        invariant forall k | 0 <= k < i :: testCases[k].testIndices == Identity(|testCases[k].testInfoList|)
      {
        testCases[i].UnshuffleTests();
        testCaseIndices := testCaseIndices[i := i];
      }
    }

    /** The i-th case to run follows the shuffle. */
    function GetMutableTestCase(i: int): (c: Option<TestCase>)
      reads this
      requires Indexes(testCaseIndices, |testCases|)
      ensures c.Some? <==> 0 <= i < |testCaseIndices|
    {
      if i < 0 || i >= |testCaseIndices| then None else Some(testCases[testCaseIndices[i]])
    }

    /** The overload for a const object takes the i-th case as registered: the
        index only decides whether there is one. */
    function GetConstTestCase(i: int): (c: Option<TestCase>)
      reads this
      requires |testCaseIndices| == |testCases|
    {
      if i < 0 || i >= |testCaseIndices| then None else Some(testCases[i])
    }

    /** The two overloads agree exactly while the cases are not shuffled. */
    lemma AccessorsAgreeIff()
      requires Distinct(testCases) && |testCaseIndices| == |testCases| && Indexes(testCaseIndices, |testCases|)
      ensures (forall i :: GetConstTestCase(i) == GetMutableTestCase(i)) <==> testCaseIndices == Identity(|testCases|)
    {
      if forall i :: GetConstTestCase(i) == GetMutableTestCase(i) {
        forall i | 0 <= i < |testCases| ensures testCaseIndices[i] == i {
          assert GetConstTestCase(i) == GetMutableTestCase(i);
        }
      }
    }

    /** With the two cases of a program swapped they differ. */
    lemma AccessorsDifferWhenSwapped()
      requires Distinct(testCases) && |testCases| == 2 && testCaseIndices == [1, 0]
      ensures GetConstTestCase(0) != GetMutableTestCase(0)
    {
    }

    /** One pass over the cases in their current order. */
    method RunTestCases(ghost flags: Flags, ghost selected: seq<seq<bool>>, ghost orders: seq<seq<nat>>)
      returns (executed: seq<TestIndex>)
      requires AllFiltered(testCases, flags, selected) && Runnable(selected, testCaseIndices, orders)
      requires forall i | 0 <= i < |testCases| :: testCases[i].testIndices == orders[i]
      ensures executed == RunCases(selected, testCaseIndices, orders)
    {
      hide TestFiltered;
      executed := [];
      for k := 0 to |testCaseIndices|
        invariant executed == RunCases(selected, testCaseIndices[..k], orders)
      {
        var testCase := GetMutableTestCase(k).value;
        ghost var i := testCaseIndices[k];
        assert testCaseIndices[..k + 1][..k] == testCaseIndices[..k];
        var ran := testCase.Run(testCaseIndices[k], flags, selected[i]);
        executed := executed + ran;
      }
      assert testCaseIndices[..|testCaseIndices|] == testCaseIndices;
    }

    /** Everything is filtered as the layout says and in registration order. */
    ghost predicate Ready(flags: Flags, l: Layout)
      reads this`testCases, this`testCaseIndices, this`lastDeathTestCase, this`registered, testCases, Infos(testCases)
    {
      && Valid() && Unshuffled() && l.Valid() && Fits(l, testCases) && l.deaths == lastDeathTestCase + 1
      && AllFiltered(testCases, flags, l.selected)
    }

    /** One iteration of the repeat loop up to and including the unshuffling. */
    method RunIteration(ghost flags: Flags, ghost l: Layout, hasTestsToRun: bool, shuffle: bool)
      returns (executed: seq<TestIndex>)
      requires Ready(flags, l) && (hasTestsToRun <==> CountRows(l.selected) > 0)
      modifies this`testCaseIndices, testCases`testIndices, random
      ensures Ready(flags, l) && View(testCases) == old(View(testCases))
      ensures executed == Iteration(l, SeedOf(shuffle, randomSeed))
    {
      hide AllFiltered, Tree, RegisteredView, DeathCount, IsDeathCase, View, Infos, TestsUnshuffled;
      executed := [];
      if hasTestsToRun {
        executed := ShuffleAndRun(flags, l, shuffle);
      } else {
        UnshuffledLengths(testCases);
        NothingSelected(l, SeedOf(shuffle, randomSeed));
      }
      Restore(flags, l);
    }

    method ShuffleAndRun(ghost flags: Flags, ghost l: Layout, shuffle: bool) returns (executed: seq<TestIndex>)
      requires Ready(flags, l)
      modifies this`testCaseIndices, testCases`testIndices, random
      ensures AllFiltered(testCases, flags, l.selected) && Fits(l, testCases) && |testCaseIndices| == |testCases|
      ensures Tree(testCases) && View(testCases) == old(View(testCases))
      ensures executed == Iteration(l, SeedOf(shuffle, randomSeed))
    {
      hide TestCase.Filtered, Tree, RegisteredView, DeathCount, IsDeathCase, View, Infos;
      hide CaseOrder, TestOrder;
      ghost var seed := SeedOf(shuffle, randomSeed);
      UnshuffledOrders(l);
      if shuffle {
        TreeIsDistinct(testCases);
        ReseedAndShuffle(flags, l);
      }
      OrdersAreRunnable(l, seed);
      executed := RunTestCases(flags, l.selected, TestOrders(l, seed));
      SameListsSameTree();
    }

    // Neither call touches the flags of any test.
    method ReseedAndShuffle(ghost flags: Flags, ghost l: Layout)
      requires Distinct(testCases) && Fits(l, testCases) && l.Valid()
      requires lastDeathTestCase + 1 == l.deaths && |testCaseIndices| == |testCases|
      requires AllFiltered(testCases, flags, l.selected) && Unshuffled()
      modifies this`testCaseIndices, testCases`testIndices, random
      ensures AllFiltered(testCases, flags, l.selected) && Fits(l, testCases)
      ensures testCaseIndices == CaseOrder(l, Some(randomSeed))
      ensures forall i | 0 <= i < |testCases| :: testCases[i].testIndices == TestOrder(l, Some(randomSeed), i)
    {
      hide TestFiltered, ShuffledCases, ShuffledTests, StateAtCase;
      random.Reseed(randomSeed);
      ShuffleTests(l);
      forall i, j | 0 <= i < |testCases| && 0 <= j < |l.selected[i]|
        ensures TestFiltered(testCases[i].testInfoList[j], flags, testCases[i].name, l.selected[i][j])
      {
        assert old(testCases[i].Filtered(flags, l.selected[i]));
        assert old(TestFiltered(testCases[i].testInfoList[j], flags, testCases[i].name, l.selected[i][j]));
      }
      forall i | 0 <= i < |testCases|
        ensures testCases[i].testIndices == TestOrder(l, Some(randomSeed), i)
      {
        assert old(testCases[i].testIndices) == Identity(|l.selected[i]|);
      }
    }

    // Nor does UnshuffleTests.
    method Restore(ghost flags: Flags, ghost l: Layout)
      requires Tree(testCases) && Fits(l, testCases) && |testCaseIndices| == |testCases|
      requires AllFiltered(testCases, flags, l.selected)
      modifies this`testCaseIndices, testCases`testIndices
      ensures AllFiltered(testCases, flags, l.selected) && Fits(l, testCases) && Unshuffled()
      ensures Tree(testCases) && View(testCases) == old(View(testCases))
    {
      hide TestFiltered, Tree;
      TreeIsDistinct(testCases);
      UnshuffleTests();
      SameListsSameTree();
      forall i, j | 0 <= i < |testCases| && 0 <= j < |l.selected[i]|
        ensures TestFiltered(testCases[i].testInfoList[j], flags, testCases[i].name, l.selected[i][j])
      {
        assert old(testCases[i].Filtered(flags, l.selected[i]));
        assert old(TestFiltered(testCases[i].testInfoList[j], flags, testCases[i].name, l.selected[i][j]));
      }
    }

    /** Filters, then runs the given number of iterations; None when the shard
        variables make the program exit. A negative repeat flag means there is
        no last iteration, so what is said here holds of any first iterations
        of such a run. */
    method RunAllTests(flags: Flags, shuffle: bool, seedFlag: Int32, timeInMillis: nat,
                       totalShards: int, shardIndex: int, inSubprocess: bool, repeat: nat)
      returns (executed: Option<seq<seq<TestIndex>>>)
      requires Valid() && Unshuffled()
      requires |testCases| < MAX_RANGE && forall c | c in testCases :: |c.testInfoList| < MAX_RANGE
      modifies this`testCaseIndices, this`randomSeed, random
      modifies testCases`shouldRun, testCases`testIndices, Infos(testCases)
      ensures executed.None? <==> ShouldShard(totalShards, shardIndex, inSubprocess).Exit?
      ensures executed.Some? ==>
                && Valid() && Unshuffled() && View(testCases) == old(View(testCases)) && lastDeathTestCase >= -1
                && var l := LayoutOf(flags, View(testCases), lastDeathTestCase + 1,
                                     ProtocolOf(totalShards, shardIndex, inSubprocess));
                   && l.Valid()
                   && executed.value == RunSpec(l, shuffle, seedFlag, timeInMillis, if inSubprocess then 1 else repeat)
    {
      hide Valid, Unshuffled, View, Infos, LayoutOf, RunSpec;
      var shouldShard := ShouldShard(totalShards, shardIndex, inSubprocess);
      if shouldShard.Exit? {
        return None;
      }
      var p := if shouldShard.yes then Honor(totalShards, shardIndex) else Ignore;
      assert p == ProtocolOf(totalShards, shardIndex, inSubprocess);
      hide ShouldShard, ProtocolOf;
      var runs := RunShard(flags, p, shuffle, seedFlag, timeInMillis, if inSubprocess then 1 else repeat);
      return Some(runs);
    }

    // Filters for a shard, then runs the iterations.
    method RunShard(flags: Flags, p: Protocol, shuffle: bool, seedFlag: Int32, timeInMillis: nat, times: nat)
      returns (runs: seq<seq<TestIndex>>)
      requires Valid() && Unshuffled() && WellFormed(p)
      requires |testCases| < MAX_RANGE && forall c | c in testCases :: |c.testInfoList| < MAX_RANGE
      modifies this`testCaseIndices, this`randomSeed, random
      modifies testCases`shouldRun, testCases`testIndices, Infos(testCases)
      ensures Valid() && Unshuffled() && View(testCases) == old(View(testCases)) && lastDeathTestCase >= -1
      ensures var l := LayoutOf(flags, View(testCases), lastDeathTestCase + 1, p);
              l.Valid() && runs == RunSpec(l, shuffle, seedFlag, timeInMillis, times)
    {
      hide Valid, Unshuffled, Ready, View, Infos, LayoutOf, RunSpec;
      ghost var l: Layout;
      var numSelected;
      numSelected, l := PrepareRun(flags, p);
      randomSeed := if shuffle then GetRandomSeedFromFlag(seedFlag, timeInMillis) else 0;
      runs := Repeat(flags, l, numSelected > 0, shuffle, times, seedFlag, timeInMillis);
      ReadyIsValid(flags, l);
    }

    // The repeat loop.
    method Repeat(ghost flags: Flags, ghost l: Layout, hasTestsToRun: bool, shuffle: bool, repeat: nat,
                  ghost seedFlag: Int32, ghost timeInMillis: nat)
      returns (runs: seq<seq<TestIndex>>)
      requires l.Valid() && Ready(flags, l) && (hasTestsToRun <==> CountRows(l.selected) > 0)
      requires randomSeed == if shuffle then GetRandomSeedFromFlag(seedFlag, timeInMillis) else 0
      modifies this`testCaseIndices, this`randomSeed, testCases`testIndices, random
      ensures Ready(flags, l) && View(testCases) == old(View(testCases))
      ensures runs == RunSpec(l, shuffle, seedFlag, timeInMillis, repeat)
    {
      hide Valid, Unshuffled, View, TestCase.Filtered, Fits, Iteration, GetRandomSeedFromFlag, GetNextRandomSeed;
      hide CountRows, TestsUnshuffled, Tree;
      ghost var s0 := GetRandomSeedFromFlag(seedFlag, timeInMillis);
      runs := [];
      for i := 0 to repeat
        invariant Ready(flags, l) && View(testCases) == old(View(testCases))
        invariant randomSeed == if shuffle then SeedAt(s0, i) else 0
        invariant runs == RunSpec(l, shuffle, seedFlag, timeInMillis, i)
      {
        var run := RunIteration(flags, l, hasTestsToRun, shuffle);
        runs := runs + [run];
        RunSpecNext(l, shuffle, seedFlag, timeInMillis, i);
        assert SeedOf(shuffle, randomSeed) == SeedOf(shuffle, SeedAt(s0, i));
        if shuffle {
          randomSeed := GetNextRandomSeed(randomSeed);
        }
      }
    }

    lemma ReadyIsValid(flags: Flags, l: Layout)
      requires Ready(flags, l)
      ensures Valid() && Unshuffled()
    {
    }

    method PrepareRun(flags: Flags, p: Protocol) returns (numSelected: nat, ghost l: Layout)
      requires Valid() && Unshuffled() && WellFormed(p)
      requires |testCases| < MAX_RANGE && forall c | c in testCases :: |c.testInfoList| < MAX_RANGE
      modifies testCases`shouldRun, Infos(testCases)
      ensures View(testCases) == old(View(testCases)) && lastDeathTestCase >= -1
      ensures l == LayoutOf(flags, View(testCases), lastDeathTestCase + 1, p) && l.Valid()
      ensures Ready(flags, l) && numSelected == CountRows(l.selected)
    {
      hide Valid, Unshuffled, Ready, AllFiltered, Infos, View, LayoutOf, SelectedRows, RunnableRows, CountRows;
      UnshuffledParts();
      ghost var selected;
      numSelected, selected := FilterTests(flags, p);
      ValidCounts();
      l := LayoutOf(flags, View(testCases), lastDeathTestCase + 1, p);
      ReadyWhenFiltered(flags, p, selected);
    }

    lemma UnshuffledParts()
      requires Unshuffled()
      ensures testCaseIndices == Identity(|testCases|) && TestsUnshuffled(testCases)
    {
    }

    // Filtered and unshuffled cases are ready to run.
    lemma ReadyWhenFiltered(flags: Flags, p: Protocol, selected: seq<seq<bool>>)
      requires Valid() && WellFormed(p)
      requires testCaseIndices == Identity(|testCases|) && TestsUnshuffled(testCases)
      requires |testCases| < MAX_RANGE && forall c | c in testCases :: |c.testInfoList| < MAX_RANGE
      requires selected == SelectedRows(RunnableRows(flags, View(testCases)), p)
      requires AllFiltered(testCases, flags, selected)
      ensures lastDeathTestCase >= -1
      ensures var l := LayoutOf(flags, View(testCases), lastDeathTestCase + 1, p);
              l.selected == selected && l.Valid() && Ready(flags, l)
    {
      ValidCounts();
      hide Valid, AllFiltered, Infos, View, LayoutOf, SelectedRows, RunnableRows;
      LayoutShape(flags, View(testCases), lastDeathTestCase + 1, p);
      ShapeOfView(testCases);
      assert Fits(LayoutOf(flags, View(testCases), lastDeathTestCase + 1, p), testCases);
    }

    lemma ValidCounts()
      requires Valid()
      ensures 0 <= lastDeathTestCase + 1 <= |testCases|
    {
      hide Tree, View, RegisteredView, DeathCount, IsDeathCase;
    }

    twostate predicate SameLists()
      reads this, testCases
    {
      testCases == old(testCases) && forall c | c in testCases :: c.testInfoList == old(c.testInfoList)
    }

    twostate lemma SameListsSameTree()
      requires old(Tree(testCases)) && SameLists()
      ensures Tree(testCases) && View(testCases) == old(View(testCases))
    {
      forall c, c' | c in testCases && c' in testCases && c != c'
        ensures Apart(c, c')
      {
        assert old(Apart(c, c'));
      }
      assert forall c | c in testCases :: Distinct(old(c.testInfoList));
    }
  }

  /** The layout has the shape of the cases. */
  ghost predicate Fits(l: Layout, cases: seq<TestCase>)
    reads cases
  {
    && |l.selected| == |cases|
    && forall i | 0 <= i < |cases| :: |l.selected[i]| == |cases[i].testInfoList| == |cases[i].testIndices|
  }

  lemma StateAtNextCase(l: Layout, state: UInt32, i: nat)
    requires l.Valid() && i < |l.selected|
    ensures StateAtCase(l, state, i + 1) == StateAfter(StateAtCase(l, state, i), |l.selected[i]|)
  {
  }

  lemma {:induction false} NoTrueInRow(row: seq<bool>)
    requires CountTrue(row) == 0
    ensures true !in row
  {
    if row != [] {
      NoTrueInRow(row[..|row| - 1]);
      assert row == row[..|row| - 1] + [row[|row| - 1]];
    }
  }

  lemma {:induction false} NoTrueInRows(rows: seq<seq<bool>>)
    requires CountRows(rows) == 0
    ensures forall row | row in rows :: true !in row
  {
    if rows != [] {
      NoTrueInRows(rows[..|rows| - 1]);
      NoTrueInRow(rows[|rows| - 1]);
      assert rows == rows[..|rows| - 1] + [rows[|rows| - 1]];
    }
  }

  lemma NothingSelected(l: Layout, seed: Option<UInt32>)
    requires l.Valid() && CountRows(l.selected) == 0
    ensures Iteration(l, seed) == []
  {
    NoTrueInRows(l.selected);
    forall t: TestIndex
      ensures multiset(Iteration(l, seed))[t] == 0
    {
      IterationRunsEachSelectedOnce(l, seed, t);
      assert t.0 < |l.selected| ==> true !in l.selected[t.0];
    }
    assert multiset(Iteration(l, seed)) == multiset{};
    assert |multiset(Iteration(l, seed))| == |Iteration(l, seed)|;
  }

  lemma UnshuffledOrders(l: Layout)
    requires l.Valid()
    ensures CaseOrder(l, None) == Identity(|l.selected|)
    ensures forall i | 0 <= i < |l.selected| :: TestOrder(l, None, i) == Identity(|l.selected[i]|)
  {
  }

  function ProtocolOf(totalShards: int, shardIndex: int, inSubprocess: bool): (p: Protocol)
    ensures WellFormed(p)
  {
    if ShouldShard(totalShards, shardIndex, inSubprocess) == Shard(true) then Honor(totalShards, shardIndex) else Ignore
  }

  /** The shard variables count only outside a death test child, for an index
      below a total above one. */
  lemma ProtocolByValues(totalShards: int, shardIndex: int, inSubprocess: bool)
    ensures ProtocolOf(totalShards, shardIndex, inSubprocess) ==
            if !inSubprocess && 0 <= shardIndex < totalShards && totalShards > 1 then Honor(totalShards, shardIndex)
            else Ignore
  {
  }

  ghost function LayoutOf(flags: Flags, view: seq<CaseView>, deaths: nat, p: Protocol): Layout
    requires WellFormed(p)
  {
    Layout(deaths, SelectedRows(RunnableRows(flags, view), p))
  }

  lemma LayoutShape(flags: Flags, view: seq<CaseView>, deaths: nat, p: Protocol)
    requires WellFormed(p)
    ensures var l := LayoutOf(flags, view, deaths, p);
            && l.deaths == deaths && |l.selected| == |view|
            && l.selected == SelectedRows(RunnableRows(flags, view), p)
            && forall i | 0 <= i < |view| :: |l.selected[i]| == |view[i].tests|
  {
  }

  // ---------------------------------------------------------------------
  // One run per shard index
  // ---------------------------------------------------------------------

  /** A program run once per shard, each run with its own clock. */
  datatype ShardedRun = ShardedRun(flags: Flags, view: seq<CaseView>, deaths: nat, times: seq<nat>,
                                   shuffle: bool, seedFlag: Int32, iterations: nat)
  {
    predicate Valid() {
      && |times| > 0 && deaths <= |view| < MAX_RANGE
      && forall i | 0 <= i < |view| :: |view[i].tests| < MAX_RANGE
    }

    ghost function Rows(): seq<seq<bool>> { RunnableRows(flags, view) }

    /** What the run for shard s executes. */
    ghost function Run(s: nat): (runs: seq<seq<TestIndex>>)
      requires Valid() && s < |times|
      ensures |runs| == iterations
    {
      var p := ProtocolOf(|times|, s, false);
      LayoutShape(flags, view, deaths, p);
      RunSpec(LayoutOf(flags, view, deaths, p), shuffle, seedFlag, times[s], iterations)
    }

    ghost predicate IsRunnableTest(test: TestIndex) {
      && test.0 < |view| && test.1 < |view[test.0].tests|
      && IsRunnable(flags, view[test.0].name, view[test.0].tests[test.1])
    }
  }

  lemma ProtocolSelects(rows: seq<seq<bool>>, t: nat, s: nat)
    requires s < t
    ensures SelectedRows(rows, ProtocolOf(t, s, false)) == SelectedRows(rows, Honor(t, s))
  {
    if t == 1 {
      OneShardIsAll(rows);
    }
  }

  // Iteration k of shard s is an iteration over what the shard selects.
  lemma RunIsIteration(r: ShardedRun, s: nat, k: nat) returns (l: Layout, seed: Option<UInt32>)
    requires r.Valid() && s < |r.times| && k < r.iterations
    ensures l.Valid()
    ensures r.Run(s)[k] == Iteration(l, seed) && l.selected == SelectedRows(r.Rows(), Honor(|r.times|, s))
  {
    hide Iteration, GetRandomSeedFromFlag, RunnableRows, SelectedRows;
    var p := ProtocolOf(|r.times|, s, false);
    LayoutShape(r.flags, r.view, r.deaths, p);
    ProtocolSelects(r.Rows(), |r.times|, s);
    l := LayoutOf(r.flags, r.view, r.deaths, p);
    seed := SeedOf(r.shuffle, SeedAt(GetRandomSeedFromFlag(r.seedFlag, r.times[s]), k));
  }

  /** How often iteration k of the run for shard s executes a test. */
  ghost function TimesRun(r: ShardedRun, s: nat, k: nat, test: TestIndex): nat
    requires r.Valid() && s < |r.times| && k < r.iterations
  {
    multiset(r.Run(s)[k])[test]
  }

  lemma TimesRunIsSelected(r: ShardedRun, s: nat, k: nat, test: TestIndex)
    requires r.Valid() && s < |r.times| && k < r.iterations
    ensures var rows := r.Rows();
            TimesRun(r, s, k, test) ==
            if test.0 < |rows| && test.1 < |rows[test.0]| && IsSelected(rows, Honor(|r.times|, s), test.0, test.1)
            then 1 else 0
  {
    hide Iteration, RunnableRows, IsSelected, RunSpec;
    var l, seed := RunIsIteration(r, s, k);
    IterationRunsEachSelectedOnce(l, seed, test);
  }

  ghost predicate OnlyShardRuns(r: ShardedRun, k: nat, test: TestIndex, s: nat)
    requires r.Valid() && k < r.iterations
  {
    s < |r.times| && forall s' | 0 <= s' < |r.times| :: TimesRun(r, s', k, test) == if s' == s then 1 else 0
  }

  /** From the flags to what is executed: in every iteration, the runs of all
      shards together execute each runnable test exactly once and no other test
      at all, whatever the clocks and seeds. */
  lemma ShardsRunEachTestOnce(r: ShardedRun, k: nat, test: TestIndex)
    requires r.Valid() && k < r.iterations
    ensures r.IsRunnableTest(test) ==> exists s :: OnlyShardRuns(r, k, test, s)
    ensures !r.IsRunnableTest(test) ==> forall s | 0 <= s < |r.times| :: TimesRun(r, s, k, test) == 0
  {
    hide TimesRun, IsRunnable, IsSelected;
    var t, rows := |r.times|, r.Rows();
    forall s | 0 <= s < t
      ensures TimesRun(r, s, k, test) ==
              if test.0 < |rows| && test.1 < |rows[test.0]| && IsSelected(rows, Honor(t, s), test.0, test.1) then 1
              else 0
    {
      TimesRunIsSelected(r, s, k, test);
    }
    if test.0 < |rows| && test.1 < |rows[test.0]| {
      EachTestOnOneShard(rows, t, test.0, test.1);
      if rows[test.0][test.1] {
        var s :| OnlyShard(rows, t, test.0, test.1, s);
        assert OnlyShardRuns(r, k, test, s);
      }
    }
  }

  /** How many tests iteration k of the run for shard s executes. */
  ghost function LengthOfRun(r: ShardedRun, s: nat, k: nat): nat
    requires r.Valid() && s < |r.times| && k < r.iterations
  {
    |r.Run(s)[k]|
  }

  lemma LengthIsSelected(r: ShardedRun, s: nat, k: nat)
    requires r.Valid() && s < |r.times| && k < r.iterations
    ensures LengthOfRun(r, s, k) == CountRows(SelectedRows(r.Rows(), Honor(|r.times|, s)))
  {
    hide Iteration, RunnableRows, SelectedRows, CountRows, RunSpec;
    var l, seed := RunIsIteration(r, s, k);
    IterationLength(l, seed);
  }

  ghost function TotalLength(r: ShardedRun, shards: nat, k: nat): nat
    requires r.Valid() && shards <= |r.times| && k < r.iterations
  {
    if shards == 0 then 0 else TotalLength(r, shards - 1, k) + LengthOfRun(r, shards - 1, k)
  }

  lemma {:induction false} TotalIsShardTotal(r: ShardedRun, shards: nat, k: nat)
    requires r.Valid() && shards <= |r.times| && k < r.iterations
    ensures TotalLength(r, shards, k) == ShardTotal(r.Rows(), |r.times|, shards)
  {
    hide LengthOfRun, CountRows, RunnableRows, SelectedRows;
    if shards > 0 {
      TotalIsShardTotal(r, shards - 1, k);
      LengthIsSelected(r, shards - 1, k);
    }
  }

  /** In every iteration the shards together execute as many tests as are
      runnable, and any two of them differ by at most one. */
  lemma ShardRunsBalanced(r: ShardedRun, s: nat, s': nat, k: nat)
    requires r.Valid() && s < |r.times| && s' < |r.times| && k < r.iterations
    ensures TotalLength(r, |r.times|, k) == CountRows(r.Rows())
    ensures LengthOfRun(r, s, k) <= LengthOfRun(r, s', k) + 1
  {
    hide LengthOfRun, TotalLength, ShardTotal, CountRows, RunnableRows, SelectedRows;
    TotalIsShardTotal(r, |r.times|, k);
    ShardsSumUp(r.Rows(), |r.times|);
    LengthIsSelected(r, s, k);
    LengthIsSelected(r, s', k);
    ShardsBalanced(r.Rows(), |r.times|, s, s');
  }

  lemma ShapeOfView(cases: seq<TestCase>)
    ensures forall i | 0 <= i < |cases| :: |View(cases)[i].tests| == |cases[i].testInfoList|
  {
  }

  lemma NoneCounted()
    ensures CountTrue([]) == 0 && CountRows([]) == 0
  {
  }

  lemma InfosContain(cases: seq<TestCase>)
    ensures forall c, t | c in cases && t in c.testInfoList :: t in Infos(cases)
  {
  }

  lemma TreeIsDistinct(cases: seq<TestCase>)
    requires Tree(cases)
    ensures Distinct(cases)
  {
  }

  lemma UnshuffledLengths(cases: seq<TestCase>)
    requires TestsUnshuffled(cases)
    ensures forall c | c in cases :: |c.testIndices| == |c.testInfoList|
  {
  }

  lemma RowOfCase(flags: Flags, cases: seq<TestCase>, i: nat)
    requires i < |cases|
    ensures var row := RunnableRows(flags, View(cases))[i];
            && |row| == |cases[i].testInfoList|
            && forall j | 0 <= j < |row| :: row[j] == IsRunnable(flags, cases[i].name, cases[i].testInfoList[j].name)
  {
    hide IsRunnable;
    assert View(cases)[i] == CaseView(cases[i].name, TestNames(cases[i].testInfoList));
  }

  lemma CasesApart(cases: seq<TestCase>, i: nat)
    requires Tree(cases) && i < |cases|
    ensures cases[i] in cases && Distinct(cases[i].testInfoList)
    ensures forall k | 0 <= k < i :: cases[k] != cases[i] && Apart(cases[k], cases[i])
  {
  }

  /** The flags filtering leaves on all cases and tests. */
  ghost predicate AllFiltered(cases: seq<TestCase>, flags: Flags, selected: seq<seq<bool>>)
    reads cases`shouldRun, cases`testInfoList, Infos(cases)
  {
    InfosContain(cases);
    |selected| == |cases| && forall i | 0 <= i < |cases| :: cases[i].Filtered(flags, selected[i])
  }

  ghost function Infos(cases: seq<TestCase>): set<TestInfo>
    reads cases`testInfoList
  {
    set c, t | c in cases && t in c.testInfoList :: t
  }

  lemma InsertThenUpdate<T>(s: seq<T>, i: nat, x: T, y: T)
    requires i <= |s|
    ensures (s[..i] + [x] + s[i..])[i := y] == s[..i] + [y] + s[i..]
  {
  }
}
