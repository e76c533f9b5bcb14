/** Test filters of gtest.cc: wildcard patterns, colon-separated filters and
    the positive-negative split of --gtest_filter. */
module TestFilter {
  import opened CStrings

  // ---------------------------------------------------------------------
  // Wildcard patterns
  // ---------------------------------------------------------------------

  /** The first ':' or the terminator ends the pattern. */
  predicate PatternMatchesString(pattern: CString, str: CString)
    decreases |pattern| + |str|
  {
    match At(pattern, 0)
    case '\0' => At(str, 0) == '\0'
    case ':' => At(str, 0) == '\0'
    case '?' => At(str, 0) != '\0' && PatternMatchesString(pattern[1..], str[1..])
    case '*' =>
      || (At(str, 0) != '\0' && PatternMatchesString(pattern, str[1..]))
      || PatternMatchesString(pattern[1..], str)
    case c => c == At(str, 0) && PatternMatchesString(pattern[1..], str[1..])
  }

  predicate PieceMatches(c: char, piece: string) {
    match c
    case '?' => |piece| == 1
    case '*' => true
    case _ => piece == [c]
  }

  function Concat(pieces: seq<string>): string {
    if pieces == [] then "" else pieces[0] + Concat(pieces[1..])
  }

  ghost predicate Splits(glob: string, w: string, pieces: seq<string>) {
    && |pieces| == |glob|
    && Concat(pieces) == w
    && forall i | 0 <= i < |glob| :: PieceMatches(glob[i], pieces[i])
  }

  /** w can be cut into pieces, one for each character of the glob. */
  ghost predicate InGlob(glob: string, w: string) {
    exists pieces :: Splits(glob, w, pieces)
  }

  lemma InGlobCons(c: char, glob: string, w: string)
    ensures InGlob([c] + glob, w) <==>
            exists k | 0 <= k <= |w| :: PieceMatches(c, w[..k]) && InGlob(glob, w[k..])
  {
    if pieces :| Splits([c] + glob, w, pieces) {
      var k := |pieces[0]|;
      assert w[..k] == pieces[0] && w[k..] == Concat(pieces[1..]);
      assert PieceMatches(([c] + glob)[0], pieces[0]);
      assert forall i | 0 <= i < |glob| :: glob[i] == ([c] + glob)[i + 1];
      assert Splits(glob, w[k..], pieces[1..]);
    }
    if k :| 0 <= k <= |w| && PieceMatches(c, w[..k]) && InGlob(glob, w[k..]) {
      var rest :| Splits(glob, w[k..], rest);
      var pieces := [w[..k]] + rest;
      assert pieces[1..] == rest;
      assert Splits([c] + glob, w, pieces);
    }
  }

  lemma InGlobEmpty(w: string)
    ensures InGlob("", w) <==> w == ""
  {
    assert Splits("", "", []);
  }

  /** The matcher decides membership in the glob before the first colon. */
  lemma {:induction false} PatternMatchesIffInGlob(pattern: CString, str: CString)
    ensures PatternMatchesString(pattern, str) <==> InGlob(pattern[..IndexOf(pattern, ':')], str)
    decreases |pattern| + |str|
  {
    var glob := pattern[..IndexOf(pattern, ':')];
    if glob == "" {
      InGlobEmpty(str);
    } else {
      var c, rest := glob[0], glob[1..];
      assert rest == pattern[1..][..IndexOf(pattern[1..], ':')];
      assert glob == [c] + rest;
      InGlobCons(c, rest, str);
      if str != "" {
        if c == '*' {
          PatternMatchesIffInGlob(pattern, str[1..]);
          StarStep(rest, str);
        } else {
          PatternMatchesIffInGlob(pattern[1..], str[1..]);
          assert forall k | 0 <= k <= |str| && PieceMatches(c, str[..k]) :: k == 1;
          assert str[..1] == [str[0]];
        }
      }
      if c == '*' {
        PatternMatchesIffInGlob(pattern[1..], str);
        if str == "" {
          assert str[0..] == str;
        }
      }
    }
  }

  // A star either takes one more character or nothing.
  lemma StarStep(rest: string, str: string)
    requires str != ""
    ensures InGlob("*" + rest, str) <==> InGlob("*" + rest, str[1..]) || InGlob(rest, str)
  {
    InGlobCons('*', rest, str);
    InGlobCons('*', rest, str[1..]);
    assert str[0..] == str;
    assert forall k | 0 <= k < |str| :: str[1..][k..] == str[k + 1..];
    if InGlob("*" + rest, str) {
      var k :| 0 <= k <= |str| && PieceMatches('*', str[..k]) && InGlob(rest, str[k..]);
      if k > 0 {
        assert str[1..][k - 1..] == str[k..];
        assert PieceMatches('*', str[1..][..k - 1]);
      }
    }
    if InGlob("*" + rest, str[1..]) {
      var k :| 0 <= k <= |str| - 1 && PieceMatches('*', str[1..][..k]) && InGlob(rest, str[1..][k..]);
      assert str[1..][k..] == str[k + 1..];
      assert PieceMatches('*', str[..k + 1]);
    }
  }

  /** Globs one after the other match texts one after the other. */
  lemma {:induction false} GlobConcat(g: string, h: string, w: string)
    ensures InGlob(g + h, w) <==> exists k | 0 <= k <= |w| :: InGlob(g, w[..k]) && InGlob(h, w[k..])
    decreases |g|
  {
    hide InGlob, PieceMatches;
    if g == "" {
      assert g + h == h && w[0..] == w && w[..0] == "";
      forall k | 0 <= k <= |w| ensures InGlob("", w[..k]) <==> k == 0 {
        InGlobEmpty(w[..k]);
      }
    } else {
      assert g + h == [g[0]] + (g[1..] + h) && g == [g[0]] + g[1..];
      InGlobCons(g[0], g[1..] + h, w);
      if n :| 0 <= n <= |w| && PieceMatches(g[0], w[..n]) && InGlob(g[1..] + h, w[n..]) {
        GlobConcat(g[1..], h, w[n..]);
        var k :| 0 <= k <= |w| - n && InGlob(g[1..], w[n..][..k]) && InGlob(h, w[n..][k..]);
        InGlobCons(g[0], g[1..], w[..n + k]);
        assert w[..n + k][..n] == w[..n] && w[..n + k][n..] == w[n..][..k] && w[n..][k..] == w[n + k..];
      }
      if m :| 0 <= m <= |w| && InGlob(g, w[..m]) && InGlob(h, w[m..]) {
        InGlobCons(g[0], g[1..], w[..m]);
        var n :| 0 <= n <= m && PieceMatches(g[0], w[..m][..n]) && InGlob(g[1..], w[..m][n..]);
        assert w[..m][..n] == w[..n] && w[..m][n..] == w[n..][..m - n] && w[m..] == w[n..][m - n..];
        GlobConcat(g[1..], h, w[n..]);
      }
    }
  }

  /** Without a star a glob matches the texts of its length that differ from it
      under question marks only. */
  lemma {:induction false} GlobWithoutStar(g: string, w: string)
    requires '*' !in g
    ensures InGlob(g, w) <==> |w| == |g| && forall i | 0 <= i < |g| :: g[i] == '?' || w[i] == g[i]
  {
    hide InGlob;
    if g == "" {
      InGlobEmpty(w);
    } else {
      assert g == [g[0]] + g[1..];
      InGlobCons(g[0], g[1..], w);
      assert forall k | 0 <= k <= |w| && PieceMatches(g[0], w[..k]) :: k == 1;
      if w != "" {
        GlobWithoutStar(g[1..], w[1..]);
        assert w[..1] == [w[0]];
      }
    }
  }

  // ---------------------------------------------------------------------
  // Filters
  // ---------------------------------------------------------------------

  /** Some colon-separated segment of the filter matches the name. */
  ghost predicate InFilter(filter: string, name: string) {
    exists glob | glob in Fields(filter, ':') :: InGlob(glob, name)
  }

  method MatchesFilter(name: CString, filter: CString) returns (matched: bool)
    ensures matched <==> InFilter(filter, name)
  {
    var curPattern := filter;
    while true
      invariant InFilter(filter, name) <==> InFilter(curPattern, name)
      decreases |curPattern|
    {
      PatternMatchesIffInGlob(curPattern, name);
      FieldsFirst(curPattern, ':');
      var colon := IndexOf(curPattern, ':');
      assert colon == |curPattern| ==> curPattern[..colon] == curPattern;
      assert Fields(curPattern, ':')[0] == curPattern[..colon];
      if PatternMatchesString(curPattern, name) {
        return true;
      }
      if colon == |curPattern| {
        return false;
      }
      curPattern := curPattern[colon + 1..];
    }
  }

  /** Joining two filters with a colon is union. */
  lemma FilterUnion(f: string, g: string, name: string)
    ensures InFilter(f + ":" + g, name) <==> InFilter(f, name) || InFilter(g, name)
  {
    FieldsJoin(f, g, ':');
    assert f + ":" + g == f + [':'] + g;
    if InFilter(f, name) {
      var glob :| glob in Fields(f, ':') && InGlob(glob, name);
      assert glob in Fields(f + ":" + g, ':');
    }
    if InFilter(g, name) {
      var glob :| glob in Fields(g, ':') && InGlob(glob, name);
      assert glob in Fields(f + ":" + g, ':');
    }
  }

  /** A filter without a colon is one pattern. */
  lemma OnePattern(glob: string, name: string)
    requires ':' !in glob
    ensures InFilter(glob, name) <==> InGlob(glob, name)
  {
    hide InGlob;
    FieldsNone(glob, ':');
    assert glob in Fields(glob, ':');
  }

  /** A star matches every text. */
  lemma StarMatchesAll(name: string)
    ensures InGlob("*", name)
  {
    assert Concat([name]) == name + Concat([name][1..]) == name;
    assert Splits("*", name, [name]);
  }

  /** --gtest_filter selects a test: the part before the first dash (all tests
      when that is empty) matches its full name and the part after does not. */
  ghost predicate FilterSelects(flag: string, fullName: string) {
    var dash := IndexOf(flag, '-');
    if dash == |flag| then InFilter(flag, fullName)
    else (dash == 0 || InFilter(flag[..dash], fullName)) && !InFilter(flag[dash + 1..], fullName)
  }

  function FullName(testCaseName: CString, testName: CString): CString {
    testCaseName + "." + testName
  }

  method FilterMatchesTest(flag: CString, testCaseName: CString, testName: CString) returns (selected: bool)
    ensures selected <==> FilterSelects(flag, testCaseName + "." + testName)
  {
    var fullName := FullName(testCaseName, testName);
    var dash := IndexOf(flag, '-');
    var positive: CString, negative: CString;
    if dash == |flag| {
      positive := flag;
      negative := "";
      EmptyFilter(fullName);
    } else {
      positive := flag[..dash];
      negative := flag[dash + 1..];
      if positive == "" {
        positive := "*";
        StarMatchesAll(fullName);
        FieldsNone("*", ':');
        assert "*" in Fields("*", ':');
      }
    }
    var inPositive := MatchesFilter(fullName, positive);
    var inNegative := MatchesFilter(fullName, negative);
    selected := inPositive && !inNegative;
  }

  // The empty filter is one empty pattern, which no full name matches.
  lemma EmptyFilter(name: string)
    ensures InFilter("", name) <==> name == ""
  {
    FieldsNone("", ':');
    InGlobEmpty(name);
    assert "" in Fields("", ':');
  }

  /** What a flag selects, told by its text before and after the first dash. */
  lemma SelectsByText(positive: string, negative: string, fullName: string)
    requires '-' !in positive
    ensures FilterSelects(positive, fullName) <==> InFilter(positive, fullName)
    ensures FilterSelects(positive + "-" + negative, fullName) <==>
            (positive == "" || InFilter(positive, fullName)) && !InFilter(negative, fullName)
  {
    hide InFilter;
    DashSplit(positive, negative);
    assert positive[..|positive|] == positive;
    IndexOfUnique(positive, '-', |positive|);
  }

  /** Adding a negative part to a dash-free filter takes away exactly the tests
      that part matches, and an empty one takes away nothing. */
  lemma NegativePartExcludes(positive: string, negative: string, fullName: string)
    requires '-' !in positive && positive != "" && fullName != ""
    ensures FilterSelects(positive + "-" + negative, fullName) <==>
            FilterSelects(positive, fullName) && !InFilter(negative, fullName)
    ensures FilterSelects(positive + "-", fullName) <==> FilterSelects(positive, fullName)
    ensures FilterSelects("-" + negative, fullName) <==> FilterSelects("*-" + negative, fullName)
  {
    DashSplit(positive, negative);
    DashSplit(positive, "");
    DashSplit("", negative);
    DashSplit("*", negative);
    assert positive + "-" + "" == positive + "-";
    assert "" + "-" + negative == "-" + negative && "*" + "-" + negative == "*-" + negative;
    EmptyFilter(fullName);
    StarMatchesAll(fullName);
    FieldsNone("*", ':');
    assert "*" in Fields("*", ':');
    assert positive[..|positive|] == positive;
    IndexOfUnique(positive, '-', |positive|);
  }

  lemma DashSplit(positive: string, negative: string)
    requires '-' !in positive
    ensures var flag := positive + "-" + negative;
            IndexOf(flag, '-') == |positive| && flag[..|positive|] == positive && flag[|positive| + 1..] == negative
  {
    var flag := positive + "-" + negative;
    assert flag[..|positive|] == positive;
    IndexOfUnique(flag, '-', |positive|);
  }

  // ---------------------------------------------------------------------
  // The two built-in filters
  // ---------------------------------------------------------------------

  const DEATH_TEST_CASE_FILTER: CString := "*DeathTest:*DeathTest/*"
  const DISABLE_TEST_FILTER: CString := "DISABLED_*:*/DISABLED_*"

  predicate EndsWith(s: string, suffix: string) {
    |suffix| <= |s| && s[|s| - |suffix|..] == suffix
  }

  predicate Contains(s: string, part: string) {
    exists i | 0 <= i <= |s| :: part <= s[i..]
  }

  predicate Literal(g: string) { '?' !in g && '*' !in g }

  lemma {:induction false} InGlobLiteralThen(g: string, h: string, w: string)
    requires Literal(g)
    ensures InGlob(g + h, w) <==> g <= w && InGlob(h, w[|g|..])
    decreases |g|
  {
    if g == "" {
      assert g + h == h && w[0..] == w;
    } else {
      assert g + h == [g[0]] + (g[1..] + h);
      InGlobCons(g[0], g[1..] + h, w);
      assert g[0] in g && forall c | c in g[1..] :: c in g;
      if w != "" && w[0] == g[0] {
        assert w[..1] == [g[0]];
        InGlobLiteralThen(g[1..], h, w[1..]);
        assert g <= w ==> w[1..][|g| - 1..] == w[|g|..];
      }
      assert forall k | 0 <= k <= |w| && PieceMatches(g[0], w[..k]) :: k == 1 && w[0] == w[..1][0];
    }
  }

  lemma StarLiteral(g: string, w: string)
    requires Literal(g)
    ensures InGlob("*" + g, w) <==> EndsWith(w, g)
  {
    InGlobCons('*', g, w);
    forall k | 0 <= k <= |w|
      ensures InGlob(g, w[k..]) <==> w[k..] == g
    {
      LiteralOnly(g, w[k..]);
    }
    if EndsWith(w, g) {
      assert PieceMatches('*', w[..|w| - |g|]);
    }
  }

  lemma LiteralOnly(g: string, w: string)
    requires Literal(g)
    ensures InGlob(g, w) <==> w == g
  {
    InGlobLiteralThen(g, "", w);
    assert g + "" == g;
    if g <= w {
      InGlobEmpty(w[|g|..]);
    }
  }

  lemma LiteralStar(g: string, w: string)
    requires Literal(g)
    ensures InGlob(g + "*", w) <==> g <= w
  {
    InGlobLiteralThen(g, "*", w);
    if g <= w {
      StarMatchesAll(w[|g|..]);
    }
  }

  lemma StarLiteralStar(g: string, w: string)
    requires Literal(g)
    ensures InGlob("*" + (g + "*"), w) <==> Contains(w, g)
  {
    InGlobCons('*', g + "*", w);
    forall k | 0 <= k <= |w|
      ensures InGlob(g + "*", w[k..]) <==> g <= w[k..]
    {
      LiteralStar(g, w[k..]);
    }
    if Contains(w, g) {
      var i :| 0 <= i <= |w| && g <= w[i..];
      assert PieceMatches('*', w[..i]);
    }
  }

  // A filter of two colon-free patterns.
  lemma TwoPatterns(f: string, g: string, name: string)
    requires ':' !in f && ':' !in g
    ensures InFilter(f + ":" + g, name) <==> InGlob(f, name) || InGlob(g, name)
  {
    FilterUnion(f, g, name);
    FieldsNone(f, ':');
    FieldsNone(g, ':');
    assert f in Fields(f, ':') && g in Fields(g, ':');
  }

  /** Death test cases are named ...DeathTest, or ...DeathTest/... when typed
      or parameterised. */
  lemma DeathTestCaseNames(name: string)
    ensures InFilter(DEATH_TEST_CASE_FILTER, name) <==> EndsWith(name, "DeathTest") || Contains(name, "DeathTest/")
  {
    var plain, typed := "DeathTest", "DeathTest/";
    assert DEATH_TEST_CASE_FILTER == ("*" + plain) + ":" + ("*" + (typed + "*"));
    SuffixOrPart(plain, typed, name);
  }

  lemma SuffixOrPart(suffix: string, part: string, name: string)
    requires Literal(suffix) && Literal(part) && ':' !in suffix && ':' !in part
    ensures InFilter(("*" + suffix) + ":" + ("*" + (part + "*")), name) <==>
            EndsWith(name, suffix) || Contains(name, part)
  {
    TwoPatterns("*" + suffix, "*" + (part + "*"), name);
    StarLiteral(suffix, name);
    StarLiteralStar(part, name);
  }

  /** A disabled name starts with DISABLED_, or has it right after a slash. */
  lemma DisabledNames(name: string)
    ensures InFilter(DISABLE_TEST_FILTER, name) <==> "DISABLED_" <= name || Contains(name, "/DISABLED_")
  {
    var plain, nested := "DISABLED_", "/DISABLED_";
    assert DISABLE_TEST_FILTER == (plain + "*") + ":" + ("*" + (nested + "*"));
    PrefixOrPart(plain, nested, name);
  }

  lemma PrefixOrPart(prefix: string, part: string, name: string)
    requires Literal(prefix) && Literal(part) && ':' !in prefix && ':' !in part
    ensures InFilter((prefix + "*") + ":" + ("*" + (part + "*")), name) <==>
            prefix <= name || Contains(name, part)
  {
    TwoPatterns(prefix + "*", "*" + (part + "*"), name);
    LiteralStar(prefix, name);
    StarLiteralStar(part, name);
  }
}
