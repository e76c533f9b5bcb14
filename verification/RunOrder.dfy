/** The order in which one iteration of a test program executes its tests, as a
    function of the suite's layout and the seed, and how seeds follow each
    other over the iterations. A test is named by the index of its case in
    registration order and its own index within the case. */
module RunOrder {
  import opened CStrings
  import opened Sharding
  import opened Shuffling

  /** deaths cases, which come first, then the others; one row per case says
      which of its tests are selected. */
  datatype Layout = Layout(deaths: nat, selected: seq<seq<bool>>) {
    predicate Valid() {
      deaths <= |selected| < MAX_RANGE && forall i | 0 <= i < |selected| :: |selected[i]| < MAX_RANGE
    }
  }

  type TestIndex = (nat, nat)

  function Identity(n: nat): (s: seq<nat>)
    ensures |s| == n && forall i | 0 <= i < n :: s[i] == i
  {
    seq(n, i => i)
  }

  // ---------------------------------------------------------------------
  // Orders produced by one shuffle
  // ---------------------------------------------------------------------

  function ShuffledCases(n: nat, deaths: nat, order: seq<nat>, state: UInt32): (shuffled: seq<nat>)
    requires deaths <= n == |order|
    ensures |shuffled| == n
  {
    FisherYates(
      FisherYates(order, 0, deaths, Draws(state, deaths)),
      deaths, n - deaths, Draws(StateAfter(state, deaths), n - deaths))
  }

  function ShuffledTests(order: seq<nat>, state: UInt32): (shuffled: seq<nat>)
    ensures |shuffled| == |order|
  {
    FisherYates(order, 0, |order|, Draws(state, |order|))
  }

  // The generator's state when it reaches the tests of case i.
  function StateAtCase(l: Layout, state: UInt32, i: nat): UInt32
    requires l.Valid() && i <= |l.selected|
  {
    if i == 0 then StateAfter(StateAfter(state, l.deaths), |l.selected| - l.deaths)
    else StateAfter(StateAtCase(l, state, i - 1), |l.selected[i - 1]|)
  }

  /** The order of the cases; without a seed nothing is shuffled. */
  function CaseOrder(l: Layout, seed: Option<UInt32>): (order: seq<nat>)
    requires l.Valid()
    ensures |order| == |l.selected|
  {
    var n := |l.selected|;
    match seed
    case None => Identity(n)
    case Some(state) => ShuffledCases(n, l.deaths, Identity(n), state)
  }

  function TestOrder(l: Layout, seed: Option<UInt32>, i: nat): (order: seq<nat>)
    requires l.Valid() && i < |l.selected|
    ensures |order| == |l.selected[i]|
  {
    match seed
    case None => Identity(|l.selected[i]|)
    case Some(state) => ShuffledTests(Identity(|l.selected[i]|), StateAtCase(l, state, i))
  }

  function TestOrders(l: Layout, seed: Option<UInt32>): (orders: seq<seq<nat>>)
    requires l.Valid()
    ensures |orders| == |l.selected|
    ensures forall i | 0 <= i < |orders| :: orders[i] == TestOrder(l, seed, i)
  {
    seq(|l.selected|, i requires 0 <= i < |l.selected| => TestOrder(l, seed, i))
  }

  // ---------------------------------------------------------------------
  // Running in a given order
  // ---------------------------------------------------------------------

  ghost predicate Indexes(order: seq<nat>, n: nat) {
    forall k | 0 <= k < |order| :: order[k] < n
  }

  function RunCase(selected: seq<bool>, i: nat, order: seq<nat>): seq<TestIndex>
    requires forall k | 0 <= k < |order| :: order[k] < |selected|
  {
    if order == [] then []
    else
      var j := order[|order| - 1];
      RunCase(selected, i, order[..|order| - 1]) + if selected[j] then [(i, j)] else []
  }

  ghost predicate Runnable(selected: seq<seq<bool>>, caseOrder: seq<nat>, testOrders: seq<seq<nat>>) {
    && |testOrders| == |selected|
    && Indexes(caseOrder, |selected|)
    && forall i | 0 <= i < |selected| :: Indexes(testOrders[i], |selected[i]|)
  }

  ghost function RunCases(selected: seq<seq<bool>>, caseOrder: seq<nat>, testOrders: seq<seq<nat>>): seq<TestIndex>
    requires Runnable(selected, caseOrder, testOrders)
  {
    if caseOrder == [] then []
    else
      var i := caseOrder[|caseOrder| - 1];
      RunCases(selected, caseOrder[..|caseOrder| - 1], testOrders) + RunCase(selected[i], i, testOrders[i])
  }

  /** The tests one iteration executes, in order. */
  ghost function Iteration(l: Layout, seed: Option<UInt32>): seq<TestIndex>
    requires l.Valid()
  {
    OrdersAreRunnable(l, seed);
    RunCases(l.selected, CaseOrder(l, seed), TestOrders(l, seed))
  }

  // ---------------------------------------------------------------------
  // Shuffled orders are permutations that keep death cases first
  // ---------------------------------------------------------------------

  ghost predicate IsPermutation(order: seq<nat>, n: nat) {
    |order| == n && multiset(order) == multiset(Identity(n))
  }

  lemma PermutationIndexes(order: seq<nat>, n: nat)
    requires IsPermutation(order, n)
    ensures Indexes(order, n)
    ensures forall i: nat :: multiset(order)[i] == if i < n then 1 else 0
  {
    forall k | 0 <= k < |order|
      ensures order[k] < n
    {
      assert order[k] in multiset(order);
      assert order[k] in Identity(n);
    }
    forall i: nat
      ensures multiset(order)[i] == if i < n then 1 else 0
    {
      IdentityCount(n, i);
    }
  }

  lemma {:induction false} IdentityCount(n: nat, i: nat)
    ensures multiset(Identity(n))[i] == if i < n then 1 else 0
  {
    if n > 0 {
      IdentityCount(n - 1, i);
      assert Identity(n) == Identity(n - 1) + [n - 1];
    }
  }

  lemma ShuffledTestsPermute(n: nat, state: UInt32)
    ensures IsPermutation(ShuffledTests(Identity(n), state), n)
  {
    var order := ShuffledTests(Identity(n), state);
    FisherYatesPermutes(Identity(n), 0, n, Draws(state, n));
    assert Identity(n)[0..n] == Identity(n) && order[0..n] == order;
  }

  // Rearranging a prefix and then the rest keeps both apart.
  lemma TwoRanges(id: seq<nat>, mid: seq<nat>, order: seq<nat>, d: nat)
    requires d <= |id| == |mid|
    requires RangePermuted(id, mid, 0, d) && RangePermuted(mid, order, d, |id| - d)
    ensures |order| == |id|
    ensures multiset(order[..d]) == multiset(id[..d]) && multiset(order[d..]) == multiset(id[d..])
  {
    assert order[..d] == mid[0..d] && id[..d] == id[0..d];
    assert order[d..] == order[d..d + (|id| - d)] && id[d..] == mid[d..d + (|id| - d)];
  }

  lemma HalvesPermute(order: seq<nat>, n: nat, deaths: nat)
    requires deaths <= n == |order|
    requires multiset(order[..deaths]) == multiset(Identity(n)[..deaths])
    requires multiset(order[deaths..]) == multiset(Identity(n)[deaths..])
    ensures IsPermutation(order, n)
    ensures forall k | 0 <= k < n :: k < deaths <==> order[k] < deaths
  {
    assert order == order[..deaths] + order[deaths..];
    assert Identity(n) == Identity(n)[..deaths] + Identity(n)[deaths..];
    SameElements(order[..deaths], Identity(n)[..deaths]);
    SameElements(order[deaths..], Identity(n)[deaths..]);
    forall k | 0 <= k < n
      ensures k < deaths <==> order[k] < deaths
    {
      if k < deaths {
        assert order[k] == order[..deaths][k];
      } else {
        assert order[k] == order[deaths..][k - deaths];
      }
    }
  }

  /** Shuffling the cases permutes them; the death cases stay in front. */
  lemma ShuffledCasesPermute(n: nat, deaths: nat, state: UInt32)
    requires deaths <= n
    ensures var order := ShuffledCases(n, deaths, Identity(n), state);
            && IsPermutation(order, n)
            && (forall k | 0 <= k < n :: k < deaths <==> order[k] < deaths)
  {
    var first, second := Draws(state, deaths), Draws(StateAfter(state, deaths), n - deaths);
    var mid := FisherYates(Identity(n), 0, deaths, first);
    var order := FisherYates(mid, deaths, n - deaths, second);
    FisherYatesPermutes(Identity(n), 0, deaths, first);
    FisherYatesPermutes(mid, deaths, n - deaths, second);
    hide FisherYates, RangePermuted, Identity, IsPermutation, Draws, StateAfter;
    TwoRanges(Identity(n), mid, order, deaths);
    HalvesPermute(order, n, deaths);
  }

  /** Seed 1 swaps the two cases of a program that has no death cases. */
  lemma SeedOneSwapsTwoCases()
    ensures CaseOrder(Layout(0, [[true], [true]]), Some(1)) == [1, 0]
  {
    assert Draws(1, 2) == [0];
    assert Identity(2) == [0, 1];
    assert FisherYates([0, 1], 0, 2, [0]) == Swap([0, 1], 0, 1) == [1, 0];
  }

  lemma SameElements(s: seq<nat>, t: seq<nat>)
    requires multiset(s) == multiset(t)
    ensures forall k | 0 <= k < |s| :: s[k] in t
  {
    forall k | 0 <= k < |s|
      ensures s[k] in t
    {
      assert s[k] in multiset(s);
    }
  }

  lemma CaseOrderPermutes(l: Layout, seed: Option<UInt32>)
    requires l.Valid()
    ensures IsPermutation(CaseOrder(l, seed), |l.selected|)
    ensures forall k | 0 <= k < |l.selected| :: k < l.deaths <==> CaseOrder(l, seed)[k] < l.deaths
  {
    if seed.Some? {
      ShuffledCasesPermute(|l.selected|, l.deaths, seed.value);
    }
  }

  lemma TestOrderPermutes(l: Layout, seed: Option<UInt32>, i: nat)
    requires l.Valid() && i < |l.selected|
    ensures IsPermutation(TestOrder(l, seed, i), |l.selected[i]|)
  {
    if seed.Some? {
      ShuffledTestsPermute(|l.selected[i]|, StateAtCase(l, seed.value, i));
    }
  }

  lemma OrdersAreRunnable(l: Layout, seed: Option<UInt32>)
    requires l.Valid()
    ensures Runnable(l.selected, CaseOrder(l, seed), TestOrders(l, seed))
  {
    CaseOrderPermutes(l, seed);
    PermutationIndexes(CaseOrder(l, seed), |l.selected|);
    forall i | 0 <= i < |l.selected|
      ensures Indexes(TestOrders(l, seed)[i], |l.selected[i]|)
    {
      TestOrderPermutes(l, seed, i);
      PermutationIndexes(TestOrder(l, seed, i), |l.selected[i]|);
    }
  }

  // ---------------------------------------------------------------------
  // Every iteration executes exactly the selected tests, death tests first
  // ---------------------------------------------------------------------

  /** How often x occurs in s. */
  ghost function Times<T>(s: seq<T>, x: T): nat { multiset(s)[x] }

  lemma TimesNone<T>(x: T)
    ensures Times([], x) == 0
  {
  }

  lemma TimesSnoc<T>(s: seq<T>, last: T, x: T)
    ensures Times(s + [last], x) == Times(s, x) + if last == x then 1 else 0
  {
  }

  lemma TimesConcat<T>(s: seq<T>, t: seq<T>, x: T)
    ensures Times(s + t, x) == Times(s, x) + Times(t, x)
  {
  }

  lemma {:induction false} RunCaseCount(selected: seq<bool>, i: nat, order: seq<nat>, t: TestIndex)
    requires Indexes(order, |selected|)
    ensures Times(RunCase(selected, i, order), t) ==
            if t.0 == i && t.1 < |selected| && selected[t.1] then Times(order, t.1) else 0
  {
    hide Times;
    if order == [] {
      TimesNone(t);
      TimesNone(t.1);
    } else {
      var n := |order| - 1;
      var j, before := order[n], order[..n];
      RunCaseCount(selected, i, before, t);
      assert order == before + [j];
      TimesSnoc(before, j, t.1);
      if selected[j] {
        TimesSnoc(RunCase(selected, i, before), (i, j), t);
      } else {
        assert RunCase(selected, i, order) == RunCase(selected, i, before);
      }
    }
  }

  lemma {:induction false} RunCasesCount(
    selected: seq<seq<bool>>, caseOrder: seq<nat>, testOrders: seq<seq<nat>>, t: TestIndex)
    requires Runnable(selected, caseOrder, testOrders)
    requires forall i | 0 <= i < |selected| :: IsPermutation(testOrders[i], |selected[i]|)
    ensures Times(RunCases(selected, caseOrder, testOrders), t) ==
            if t.0 < |selected| && t.1 < |selected[t.0]| && selected[t.0][t.1] then Times(caseOrder, t.0) else 0
  {
    hide Times, IsPermutation, RunCase;
    if caseOrder == [] {
      TimesNone(t);
      TimesNone(t.0);
    } else {
      hide RunCases;
      var n := |caseOrder| - 1;
      var before, i := caseOrder[..n], caseOrder[n];
      RunCasesSnoc(selected, caseOrder, testOrders, t);
      RunCasesCount(selected, before, testOrders, t);
      OneCaseCount(selected[i], i, testOrders[i], t);
      assert caseOrder == before + [i];
      TimesSnoc(before, i, t.0);
    }
  }

  lemma RunCasesSnoc(selected: seq<seq<bool>>, caseOrder: seq<nat>, testOrders: seq<seq<nat>>, t: TestIndex)
    requires Runnable(selected, caseOrder, testOrders) && caseOrder != []
    ensures var n := |caseOrder| - 1; var i := caseOrder[n];
            Times(RunCases(selected, caseOrder, testOrders), t) ==
            Times(RunCases(selected, caseOrder[..n], testOrders), t) + Times(RunCase(selected[i], i, testOrders[i]), t)
  {
    hide Times, RunCase;
    var n := |caseOrder| - 1;
    var i := caseOrder[n];
    TimesConcat(RunCases(selected, caseOrder[..n], testOrders), RunCase(selected[i], i, testOrders[i]), t);
  }

  lemma OneCaseCount(selected: seq<bool>, i: nat, order: seq<nat>, t: TestIndex)
    requires IsPermutation(order, |selected|) && Indexes(order, |selected|)
    ensures Times(RunCase(selected, i, order), t) ==
            if t.0 == i && t.1 < |selected| && selected[t.1] then 1 else 0
  {
    PermutationIndexes(order, |selected|);
    RunCaseCount(selected, i, order, t);
  }

  /** An iteration executes every selected test exactly once and nothing
      else, whatever the seed. */
  lemma IterationRunsEachSelectedOnce(l: Layout, seed: Option<UInt32>, t: TestIndex)
    requires l.Valid()
    ensures multiset(Iteration(l, seed))[t] ==
            if t.0 < |l.selected| && t.1 < |l.selected[t.0]| && l.selected[t.0][t.1] then 1 else 0
  {
    OrdersAreRunnable(l, seed);
    CaseOrderPermutes(l, seed);
    PermutationIndexes(CaseOrder(l, seed), |l.selected|);
    forall i | 0 <= i < |l.selected|
      ensures IsPermutation(TestOrders(l, seed)[i], |l.selected[i]|)
    {
      TestOrderPermutes(l, seed, i);
    }
    RunCasesCount(l.selected, CaseOrder(l, seed), TestOrders(l, seed), t);
  }

  lemma {:induction false} RunCaseStaysInCase(selected: seq<bool>, i: nat, order: seq<nat>)
    requires Indexes(order, |selected|)
    ensures forall k | 0 <= k < |RunCase(selected, i, order)| :: RunCase(selected, i, order)[k].0 == i
  {
    if order != [] {
      RunCaseStaysInCase(selected, i, order[..|order| - 1]);
    }
  }

  ghost predicate DeathsFirst(deaths: nat, run: seq<TestIndex>) {
    forall a, b | 0 <= a < b < |run| :: run[b].0 < deaths ==> run[a].0 < deaths
  }

  lemma {:induction false} RunCasesDeathsFirst(
    deaths: nat, selected: seq<seq<bool>>, caseOrder: seq<nat>, testOrders: seq<seq<nat>>)
    requires Runnable(selected, caseOrder, testOrders)
    requires forall a, b | 0 <= a < b < |caseOrder| :: caseOrder[b] < deaths ==> caseOrder[a] < deaths
    ensures var run := RunCases(selected, caseOrder, testOrders);
            && DeathsFirst(deaths, run)
            && forall k | 0 <= k < |run| :: run[k].0 in caseOrder
  {
    if caseOrder != [] {
      var n := |caseOrder| - 1;
      var i := caseOrder[n];
      RunCasesDeathsFirst(deaths, selected, caseOrder[..n], testOrders);
      RunCaseStaysInCase(selected[i], i, testOrders[i]);
      var before, last := RunCases(selected, caseOrder[..n], testOrders), RunCase(selected[i], i, testOrders[i]);
      assert RunCases(selected, caseOrder, testOrders) == before + last;
      assert forall c | c in caseOrder[..n] :: c in caseOrder && (i < deaths ==> c < deaths);
    }
  }

  /** No death test runs after a test of an ordinary case. */
  lemma IterationRunsDeathsFirst(l: Layout, seed: Option<UInt32>)
    requires l.Valid()
    ensures DeathsFirst(l.deaths, Iteration(l, seed))
  {
    OrdersAreRunnable(l, seed);
    CaseOrderPermutes(l, seed);
    RunCasesDeathsFirst(l.deaths, l.selected, CaseOrder(l, seed), TestOrders(l, seed));
  }

  // ---------------------------------------------------------------------
  // Tests run in the order of the indices
  // ---------------------------------------------------------------------

  /** x stands somewhere before y. */
  ghost predicate Before(order: seq<nat>, x: nat, y: nat) {
    exists p, q | 0 <= p < q < |order| :: order[p] == x && order[q] == y
  }

  /** The first test comes before the second, by the order of the cases, and
      within a case by that of its tests. */
  ghost predicate Precedes(caseOrder: seq<nat>, testOrders: seq<seq<nat>>, s: TestIndex, t: TestIndex) {
    || Before(caseOrder, s.0, t.0)
    || (s.0 == t.0 < |testOrders| && Before(testOrders[s.0], s.1, t.1))
  }

  lemma BeforeInLonger(order: seq<nat>, x: nat, y: nat)
    requires order != [] && Before(order[..|order| - 1], x, y)
    ensures Before(order, x, y)
  {
    var before := order[..|order| - 1];
    var p, q :| 0 <= p < q < |before| && before[p] == x && before[q] == y;
    assert order[p] == x && order[q] == y;
  }

  lemma BeforeLast(order: seq<nat>, x: nat)
    requires order != [] && x in order[..|order| - 1]
    ensures Before(order, x, order[|order| - 1])
  {
    var before := order[..|order| - 1];
    var p :| 0 <= p < |before| && before[p] == x;
    assert order[p] == x;
  }

  lemma {:induction false} RunCaseInOrder(selected: seq<bool>, i: nat, order: seq<nat>, a: nat, b: nat)
    requires Indexes(order, |selected|) && b < |RunCase(selected, i, order)|
    ensures RunCase(selected, i, order)[b].0 == i && RunCase(selected, i, order)[b].1 in order
    ensures a < b ==> Before(order, RunCase(selected, i, order)[a].1, RunCase(selected, i, order)[b].1)
  {
    hide Before;
    var n := |order| - 1;
    var run, before := RunCase(selected, i, order), RunCase(selected, i, order[..n]);
    assert order[n] in order && forall x | x in order[..n] :: x in order;
    if b < |before| {
      RunCaseInOrder(selected, i, order[..n], a, b);
      if a < b {
        BeforeInLonger(order, run[a].1, run[b].1);
      }
    } else if a < b {
      RunCaseInOrder(selected, i, order[..n], 0, a);
      BeforeLast(order, run[a].1);
    }
  }

  lemma {:induction false} RunCasesInOrder(
    selected: seq<seq<bool>>, caseOrder: seq<nat>, testOrders: seq<seq<nat>>, a: nat, b: nat)
    requires Runnable(selected, caseOrder, testOrders) && b < |RunCases(selected, caseOrder, testOrders)|
    ensures RunCases(selected, caseOrder, testOrders)[b].0 in caseOrder
    ensures a < b ==> Precedes(caseOrder, testOrders, RunCases(selected, caseOrder, testOrders)[a],
                               RunCases(selected, caseOrder, testOrders)[b])
  {
    hide Before, RunCase;
    var n := |caseOrder| - 1;
    var i := caseOrder[n];
    var run, before := RunCases(selected, caseOrder, testOrders), RunCases(selected, caseOrder[..n], testOrders);
    var last := RunCase(selected[i], i, testOrders[i]);
    assert run == before + last;
    assert i in caseOrder && forall x | x in caseOrder[..n] :: x in caseOrder;
    if b < |before| {
      RunCasesInOrder(selected, caseOrder[..n], testOrders, a, b);
      if a < b && Before(caseOrder[..n], run[a].0, run[b].0) {
        BeforeInLonger(caseOrder, run[a].0, run[b].0);
      }
    } else {
      RunCaseInOrder(selected[i], i, testOrders[i], 0, b - |before|);
      if a < |before| {
        RunCasesInOrder(selected, caseOrder[..n], testOrders, 0, a);
        BeforeLast(caseOrder, run[a].0);
      } else if a < b {
        RunCaseInOrder(selected[i], i, testOrders[i], 0, a - |before|);
        RunCaseInOrder(selected[i], i, testOrders[i], a - |before|, b - |before|);
      }
    }
  }

  /** An iteration goes through the cases in the order of the case indices, and
      through the tests of each case in the order of its test indices. */
  lemma IterationInOrder(l: Layout, seed: Option<UInt32>, a: nat, b: nat)
    requires l.Valid() && a < b < |Iteration(l, seed)|
    ensures var s, t := Iteration(l, seed)[a], Iteration(l, seed)[b];
            || Before(CaseOrder(l, seed), s.0, t.0)
            || (s.0 == t.0 < |l.selected| && Before(TestOrder(l, seed, s.0), s.1, t.1))
  {
    hide Before, RunCases, CaseOrder, TestOrder;
    OrdersAreRunnable(l, seed);
    RunCasesInOrder(l.selected, CaseOrder(l, seed), TestOrders(l, seed), a, b);
  }

  /** Without a shuffle the tests run in registration order: by case, and within
      a case by test. */
  lemma UnshuffledInOrder(l: Layout, a: nat, b: nat)
    requires l.Valid() && a < b < |Iteration(l, None)|
    ensures var s, t := Iteration(l, None)[a], Iteration(l, None)[b];
            s.0 < t.0 || (s.0 == t.0 && s.1 < t.1)
  {
    hide Iteration;
    IterationInOrder(l, None, a, b);
  }

  // ---------------------------------------------------------------------
  // What the seed does
  // ---------------------------------------------------------------------

  /** How many numbers have been drawn when the tests of case i are shuffled. */
  function DrawnBefore(l: Layout, i: nat): nat
    requires l.Valid() && i <= |l.selected|
  {
    if i == 0 then Drawn(l.deaths) + Drawn(|l.selected| - l.deaths)
    else DrawnBefore(l, i - 1) + Drawn(|l.selected[i - 1]|)
  }

  lemma {:induction false} StateAtCaseIs(l: Layout, seed: UInt32, i: nat)
    requires l.Valid() && i <= |l.selected|
    ensures StateAtCase(l, seed, i) == NthState(seed, DrawnBefore(l, i))
  {
    hide NextState, Draws, StateAfter, Numbers;
    if i == 0 {
      DrawsAre(seed, 0, l.deaths);
      DrawsAre(seed, Drawn(l.deaths), |l.selected| - l.deaths);
    } else {
      StateAtCaseIs(l, seed, i - 1);
      DrawsAre(seed, DrawnBefore(l, i - 1), |l.selected[i - 1]|);
    }
  }

  /** One sequence of numbers shuffles everything: the death cases first, then
      the other cases, then the tests of one case after the other in
      registration order. */
  lemma OrdersBySeed(l: Layout, seed: UInt32, i: nat)
    requires l.Valid() && i < |l.selected|
    ensures var n, d, m := |l.selected|, l.deaths, |l.selected[i]|;
            && CaseOrder(l, Some(seed)) ==
               FisherYates(FisherYates(Identity(n), 0, d, Numbers(seed, 0, d)), d, n - d,
                           Numbers(seed, Drawn(d), n - d))
            && TestOrder(l, Some(seed), i) == FisherYates(Identity(m), 0, m, Numbers(seed, DrawnBefore(l, i), m))
  {
    hide FisherYates, NextState, Draws, StateAfter, Numbers;
    DrawsAre(seed, 0, l.deaths);
    DrawsAre(seed, Drawn(l.deaths), |l.selected| - l.deaths);
    StateAtCaseIs(l, seed, i);
    DrawsAre(seed, DrawnBefore(l, i), |l.selected[i]|);
  }

  /** So the last place of a shuffled case goes to the test whose number is
      drawn first, and so do the last places of the two groups of cases. */
  lemma LastPlaces(l: Layout, seed: UInt32, i: nat)
    requires l.Valid() && i < |l.selected|
    ensures var n, d, m := |l.selected|, l.deaths, |l.selected[i]|;
            && (m >= 2 ==> TestOrder(l, Some(seed), i)[m - 1] == NthState(seed, DrawnBefore(l, i) + 1) % m)
            && (n - d >= 2 ==>
                  CaseOrder(l, Some(seed))[n - 1] == d + NthState(seed, Drawn(d) + 1) % (n - d))
            && (d >= 2 ==> CaseOrder(l, Some(seed))[d - 1] == NthState(seed, 1) % d)
  {
    hide FisherYates, NthState, CaseOrder, TestOrder;
    var m := |l.selected[i]|;
    OrdersBySeed(l, seed, i);
    LastOfGroups(|l.selected|, l.deaths, seed);
    if m >= 2 {
      FirstChoiceIsLast(Identity(m), 0, m, Numbers(seed, DrawnBefore(l, i), m));
    }
  }

  lemma LastOfGroups(n: nat, d: nat, seed: UInt32)
    requires d <= n
    ensures var first, second := Numbers(seed, 0, d), Numbers(seed, Drawn(d), n - d);
            var order := FisherYates(FisherYates(Identity(n), 0, d, first), d, n - d, second);
            && (n - d >= 2 ==> order[n - 1] == d + NthState(seed, Drawn(d) + 1) % (n - d))
            && (d >= 2 ==> order[d - 1] == NthState(seed, 1) % d)
  {
    hide FisherYates, NthState, RangePermuted, Identity, Numbers;
    var first, second := Numbers(seed, 0, d), Numbers(seed, Drawn(d), n - d);
    var mid := FisherYates(Identity(n), 0, d, first);
    FisherYatesPermutes(Identity(n), 0, d, first);
    FisherYatesPermutes(mid, d, n - d, second);
    RestKept(Identity(n), mid, 0, d);
    RestKept(mid, FisherYates(mid, d, n - d, second), d, n - d);
    if d >= 2 {
      FirstNumber(seed, 0, d);
      FirstChoiceIsLast(Identity(n), 0, d, first);
    }
    if n - d >= 2 {
      FirstNumber(seed, Drawn(d), n - d);
      FirstChoiceIsLast(mid, d, n - d, second);
    }
  }

  lemma RestKept<T>(v: seq<T>, w: seq<T>, begin: nat, n: nat)
    requires begin + n <= |v| && RangePermuted(v, w, begin, n)
    ensures |w| == |v| && forall i | 0 <= i < begin || begin + n <= i < |v| :: w[i] == v[i]
  {
  }

  lemma FirstNumber(seed: UInt32, from: nat, n: nat)
    requires n >= 2
    ensures |Numbers(seed, from, n)| == n - 1 && Numbers(seed, from, n)[0] == NthState(seed, from + 1) % n
  {
    hide NthState;
  }

  /** Seed 2 runs three tests in the order third, first, second. */
  lemma SeedTwoRunsThree()
    ensures Iteration(Layout(0, [[true, true, true]]), Some(2)) == [(0, 2), (0, 0), (0, 1)]
  {
    var l := Layout(0, [[true, true, true]]);
    OrdersAreRunnable(l, Some(2));
    SeedTwoOrder();
    assert CaseOrder(l, Some(2)) == [0] by { assert Identity(1) == [0]; }
    assert TestOrders(l, Some(2)) == [[2, 0, 1]];
    assert [2, 0, 1][..2] == [2, 0] && [2, 0][..1] == [2] && [2][..0] == [] && [0][..0] == [];
    assert RunCase([true, true, true], 0, [2]) == [(0, 2)];
    assert RunCase([true, true, true], 0, [2, 0]) == [(0, 2), (0, 0)];
    assert RunCase([true, true, true], 0, [2, 0, 1]) == [(0, 2), (0, 0), (0, 1)];
    assert RunCases([[true, true, true]], [], [[2, 0, 1]]) == [];
  }

  lemma SeedTwoOrder()
    ensures TestOrder(Layout(0, [[true, true, true]]), Some(2), 0) == [2, 0, 1]
  {
    hide NextState, FisherYates, Draws, StateAfter;
    var l := Layout(0, [[true, true, true]]);
    var state: UInt32 := StateAtCase(l, 2, 0);
    DrawsFromTwo(state);
    ShuffleOfThree(Identity(|l.selected[0]|), Draws(state, 3));
    assert TestOrder(l, Some(2), 0) == ShuffledTests(Identity(|l.selected[0]|), state);
  }

  lemma DrawsFromTwo(state: UInt32)
    requires state == 2
    ensures Draws(state, 3) == [1, 0]
  {
    assert NextState(state) == 59559187 && NextState(59559187) == 1495354192;
    hide NextState;
    assert Draws(NextState(state), 2) == [0];
  }

  lemma ShuffleOfThree(order: seq<nat>, choices: seq<nat>)
    requires order == [0, 1, 2] && choices == [1, 0]
    ensures Legal(3, choices) && FisherYates(order, 0, 3, choices) == [2, 0, 1]
  {
    assert choices[1..] == [0];
    assert Swap(order, 1, 2) == [0, 2, 1] && Swap([0, 2, 1], 0, 1) == [2, 0, 1];
    hide Swap;
    assert FisherYates([0, 2, 1], 0, 2, [0]) == [2, 0, 1];
  }

  // ---------------------------------------------------------------------
  // Every iteration is as long as there are selected tests
  // ---------------------------------------------------------------------

  function SumOver(order: seq<nat>, weights: seq<nat>): nat
    requires forall k | 0 <= k < |order| :: order[k] < |weights|
  {
    if order == [] then 0
    else SumOver(order[..|order| - 1], weights) + weights[order[|order| - 1]]
  }

  function Total(weights: seq<nat>): nat {
    if weights == [] then 0 else Total(weights[..|weights| - 1]) + weights[|weights| - 1]
  }

  lemma {:induction false} SumAgrees(order: seq<nat>, v: seq<nat>, w: seq<nat>)
    requires Indexes(order, |v|) && v <= w
    ensures SumOver(order, v) == SumOver(order, w)
  {
    if order != [] {
      SumAgrees(order[..|order| - 1], v, w);
    }
  }

  lemma {:induction false} SumOfIdentity(weights: seq<nat>)
    ensures SumOver(Identity(|weights|), weights) == Total(weights)
  {
    if weights != [] {
      var n := |weights| - 1;
      SumOfIdentity(weights[..n]);
      assert Identity(n + 1)[..n] == Identity(n);
      SumAgrees(Identity(n), weights[..n], weights);
    }
  }

  function Without(s: seq<nat>, k: nat): seq<nat>
    requires k < |s|
  {
    s[..k] + s[k + 1..]
  }

  lemma {:induction false} SumWithout(order: seq<nat>, k: nat, weights: seq<nat>)
    requires Indexes(order, |weights|) && k < |order|
    ensures SumOver(order, weights) == SumOver(Without(order, k), weights) + weights[order[k]]
  {
    var n := |order| - 1;
    if k == n {
      assert Without(order, k) == order[..n];
    } else {
      SumWithout(order[..n], k, weights);
      assert Without(order, k)[..n - 1] == Without(order[..n], k);
    }
  }

  /** A sum does not depend on the order. */
  lemma {:induction false} SumPermuted(a: seq<nat>, b: seq<nat>, weights: seq<nat>)
    requires Indexes(a, |weights|) && Indexes(b, |weights|) && multiset(a) == multiset(b)
    ensures SumOver(a, weights) == SumOver(b, weights)
    decreases |a|
  {
    if a == [] {
      assert |multiset(b)| == 0;
    } else {
      var n := |a| - 1;
      var k := PlaceIn(a, b);
      MultisetWithout(a, b, k);
      IndexesWithout(b, k, |weights|);
      SumWithout(b, k, weights);
      hide Without;
      SumPermuted(a[..n], Without(b, k), weights);
    }
  }

  lemma IndexesWithout(b: seq<nat>, k: nat, n: nat)
    requires k < |b| && Indexes(b, n)
    ensures Indexes(Without(b, k), n)
  {
  }

  lemma MultisetWithout(a: seq<nat>, b: seq<nat>, k: nat)
    requires a != [] && k < |b| && multiset(a) == multiset(b) && b[k] == a[|a| - 1]
    ensures multiset(Without(b, k)) == multiset(a[..|a| - 1])
  {
    var n := |a| - 1;
    assert a == a[..n] + [a[n]];
    assert b == b[..k] + [b[k]] + b[k + 1..];
    assert multiset(a[..n]) == multiset(a) - multiset{a[n]};
  }

  lemma PlaceIn(a: seq<nat>, b: seq<nat>) returns (k: nat)
    requires a != [] && multiset(a) == multiset(b)
    ensures k < |b| && b[k] == a[|a| - 1]
  {
    assert a[|a| - 1] in multiset(b);
    k :| 0 <= k < |b| && b[k] == a[|a| - 1];
  }

  function Ones(row: seq<bool>): (weights: seq<nat>)
    ensures |weights| == |row|
  {
    seq(|row|, j requires 0 <= j < |row| => if row[j] then 1 else 0)
  }

  function Counts(rows: seq<seq<bool>>): (weights: seq<nat>)
    ensures |weights| == |rows|
  {
    seq(|rows|, i requires 0 <= i < |rows| => CountTrue(rows[i]))
  }

  lemma {:induction false} TotalOfOnes(row: seq<bool>)
    ensures Total(Ones(row)) == CountTrue(row)
  {
    if row != [] {
      TotalOfOnes(row[..|row| - 1]);
      assert Ones(row)[..|row| - 1] == Ones(row[..|row| - 1]);
    }
  }

  lemma {:induction false} TotalOfCounts(rows: seq<seq<bool>>)
    ensures Total(Counts(rows)) == CountRows(rows)
  {
    hide CountTrue;
    if rows != [] {
      TotalOfCounts(rows[..|rows| - 1]);
      assert Counts(rows)[..|rows| - 1] == Counts(rows[..|rows| - 1]);
    }
  }

  lemma {:induction false} RunCaseSum(selected: seq<bool>, i: nat, order: seq<nat>)
    requires Indexes(order, |selected|)
    ensures |RunCase(selected, i, order)| == SumOver(order, Ones(selected))
  {
    if order != [] {
      RunCaseSum(selected, i, order[..|order| - 1]);
    }
  }

  lemma RunCaseLength(selected: seq<bool>, i: nat, order: seq<nat>)
    requires IsPermutation(order, |selected|)
    ensures Indexes(order, |selected|) && |RunCase(selected, i, order)| == CountTrue(selected)
  {
    hide RunCase, SumOver, Total, CountTrue, Ones;
    PermutationIndexes(order, |selected|);
    RunCaseSum(selected, i, order);
    SumPermuted(order, Identity(|selected|), Ones(selected));
    SumOfIdentity(Ones(selected));
    TotalOfOnes(selected);
  }

  lemma {:induction false} RunCasesSum(selected: seq<seq<bool>>, caseOrder: seq<nat>, testOrders: seq<seq<nat>>)
    requires Runnable(selected, caseOrder, testOrders)
    requires forall i | 0 <= i < |selected| :: IsPermutation(testOrders[i], |selected[i]|)
    ensures |RunCases(selected, caseOrder, testOrders)| == SumOver(caseOrder, Counts(selected))
  {
    hide RunCase, CountTrue, IsPermutation;
    if caseOrder != [] {
      var n := |caseOrder| - 1;
      RunCasesSum(selected, caseOrder[..n], testOrders);
      RunCaseLength(selected[caseOrder[n]], caseOrder[n], testOrders[caseOrder[n]]);
    }
  }

  /** An iteration executes as many tests as are selected. */
  lemma IterationLength(l: Layout, seed: Option<UInt32>)
    requires l.Valid()
    ensures |Iteration(l, seed)| == CountRows(l.selected)
  {
    hide RunCases, SumOver, Total, CountRows, Counts, CaseOrder, TestOrder;
    OrdersAreRunnable(l, seed);
    CaseOrderPermutes(l, seed);
    PermutationIndexes(CaseOrder(l, seed), |l.selected|);
    forall i | 0 <= i < |l.selected|
      ensures IsPermutation(TestOrders(l, seed)[i], |l.selected[i]|)
    {
      TestOrderPermutes(l, seed, i);
    }
    RunCasesSum(l.selected, CaseOrder(l, seed), TestOrders(l, seed));
    PermutationIndexes(Identity(|l.selected|), |l.selected|);
    SumPermuted(CaseOrder(l, seed), Identity(|l.selected|), Counts(l.selected));
    SumOfIdentity(Counts(l.selected));
    TotalOfCounts(l.selected);
  }

  // ---------------------------------------------------------------------
  // Seeds
  // ---------------------------------------------------------------------

  const MAX_RANDOM_SEED: nat := 99999

  type Int32 = x: int | -0x8000_0000 <= x < 0x8000_0000

  predicate IsSeed(seed: int) { 1 <= seed <= MAX_RANDOM_SEED }

  /** The seed a run starts with; flag 0 takes the clock, and the unsigned
      subtraction wraps around at zero. */
  function GetRandomSeedFromFlag(flag: Int32, timeInMillis: nat): (seed: nat)
    ensures IsSeed(seed)
  {
    var rawSeed := (if flag == 0 then timeInMillis else flag) % TWO_TO_THE_32;
    (rawSeed - 1) % TWO_TO_THE_32 % MAX_RANDOM_SEED + 1
  }

  /** A positive flag counts round the range from 1, a negative one as the
      unsigned number of its bits; flag 0 stands for the clock's low 32 bits, and
      where those are 0 the seed is that of 2^32. */
  lemma SeedFromFlagExact(flag: Int32, timeInMillis: nat)
    ensures var raw := if flag > 0 then flag else if flag < 0 then flag + 0x1_0000_0000
                       else timeInMillis % 0x1_0000_0000;
            GetRandomSeedFromFlag(flag, timeInMillis) == if raw == 0 then 10246 else (raw - 1) % 99999 + 1
  {
    var raw := (if flag == 0 then timeInMillis else flag) % TWO_TO_THE_32;
    LowBits(flag);
    Predecessor(raw);
  }

  lemma LowBits(flag: Int32)
    ensures flag % 0x1_0000_0000 == if flag < 0 then flag + 0x1_0000_0000 else flag
  {
  }

  lemma Predecessor(raw: nat)
    requires raw < 0x1_0000_0000
    ensures (raw - 1) % 0x1_0000_0000 == if raw == 0 then 0xFFFF_FFFF else raw - 1
  {
  }

  function GetNextRandomSeed(seed: nat): (next: nat)
    requires IsSeed(seed)
    ensures IsSeed(next)
  {
    if seed + 1 > MAX_RANDOM_SEED then 1 else seed + 1
  }

  function SeedAt(seed: nat, iteration: nat): (s: nat)
    requires IsSeed(seed)
    ensures IsSeed(s)
  {
    if iteration == 0 then seed else GetNextRandomSeed(SeedAt(seed, iteration - 1))
  }

  /** The seeds go round the valid range one by one. */
  lemma {:induction false} SeedAtClosedForm(seed: nat, iteration: nat)
    requires IsSeed(seed)
    ensures SeedAt(seed, iteration) == (seed - 1 + iteration) % 99999 + 1
  {
    if iteration > 0 {
      SeedAtClosedForm(seed, iteration - 1);
    }
  }

  /** A seed passed as the flag is used as it is. */
  lemma SeedFlagIsIdentity(seed: nat, timeInMillis: nat)
    requires IsSeed(seed)
    ensures GetRandomSeedFromFlag(seed, timeInMillis) == seed
  {
  }

  function SeedOf(shuffle: bool, seed: UInt32): Option<UInt32> {
    if shuffle then Some(seed) else None
  }

  /** What iteration k of a run executes. */
  ghost function RunAt(l: Layout, shuffle: bool, seedFlag: Int32, timeInMillis: nat, k: nat): seq<TestIndex>
    requires l.Valid()
  {
    Iteration(l, SeedOf(shuffle, SeedAt(GetRandomSeedFromFlag(seedFlag, timeInMillis), k)))
  }

  /** What a run executes, iteration by iteration. */
  ghost function RunSpec(l: Layout, shuffle: bool, seedFlag: Int32, timeInMillis: nat, iterations: nat)
    : (runs: seq<seq<TestIndex>>)
    requires l.Valid()
    ensures |runs| == iterations
    ensures forall k | 0 <= k < iterations :: runs[k] == RunAt(l, shuffle, seedFlag, timeInMillis, k)
  {
    seq(iterations, k requires 0 <= k < iterations => RunAt(l, shuffle, seedFlag, timeInMillis, k))
  }

  lemma RunSpecNext(l: Layout, shuffle: bool, seedFlag: Int32, timeInMillis: nat, k: nat)
    requires l.Valid()
    ensures RunSpec(l, shuffle, seedFlag, timeInMillis, k + 1) ==
            RunSpec(l, shuffle, seedFlag, timeInMillis, k) + [RunAt(l, shuffle, seedFlag, timeInMillis, k)]
  {
    hide RunAt;
  }

  /** Iteration k of a run without a shuffle goes by registration order, of one
      with a shuffle by the orders that the k-th seed gives. */
  lemma RunInOrder(l: Layout, shuffle: bool, seedFlag: Int32, timeInMillis: nat, iterations: nat, k: nat,
                   a: nat, b: nat)
    requires l.Valid() && k < iterations && a < b < |RunSpec(l, shuffle, seedFlag, timeInMillis, iterations)[k]|
    ensures var run := RunSpec(l, shuffle, seedFlag, timeInMillis, iterations)[k];
            var seed := Some((GetRandomSeedFromFlag(seedFlag, timeInMillis) - 1 + k) % 99999 + 1);
            if shuffle then
              || Before(CaseOrder(l, seed), run[a].0, run[b].0)
              || (run[a].0 == run[b].0 < |l.selected| && Before(TestOrder(l, seed, run[a].0), run[a].1, run[b].1))
            else run[a].0 < run[b].0 || (run[a].0 == run[b].0 && run[a].1 < run[b].1)
  {
    hide Iteration, Before, CaseOrder, TestOrder, GetRandomSeedFromFlag;
    var seed := GetRandomSeedFromFlag(seedFlag, timeInMillis);
    SeedAtClosedForm(seed, k);
    if shuffle {
      IterationInOrder(l, Some(SeedAt(seed, k)), a, b);
    } else {
      UnshuffledInOrder(l, a, b);
    }
  }

  /** A failure in iteration k can be replayed without the k iterations before
      it: passing that iteration's seed as the flag makes the first iteration
      of a fresh run execute in exactly the same order. */
  lemma ReplayIteration(l: Layout, flag: Int32, now: nat, iterations: nat, k: nat, later: nat, again: nat)
    requires l.Valid() && k < iterations && again > 0
    ensures var seed := (GetRandomSeedFromFlag(flag, now) - 1 + k) % 99999 + 1;
            RunSpec(l, true, seed, later, again)[0] == RunSpec(l, true, flag, now, iterations)[k]
  {
    SeedAtClosedForm(GetRandomSeedFromFlag(flag, now), k);
    var seed := SeedAt(GetRandomSeedFromFlag(flag, now), k);
    SeedFlagIsIdentity(seed, later);
    assert SeedAt(GetRandomSeedFromFlag(seed, later), 0) == seed;
  }
}
