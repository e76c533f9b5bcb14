/** The random number generator and the in-place Fisher-Yates shuffle. */
module Shuffling {

  const TWO_TO_THE_32: nat := 0x1_0000_0000
  const MAX_RANGE: nat := 0x8000_0000

  type UInt32 = x: nat | x < TWO_TO_THE_32

  /** One step of the generator; the product wraps around at 32 bits. */
  function NextState(state: UInt32): (next: UInt32)
    ensures next < MAX_RANGE
  {
    (1103515245 * state + 12345) % TWO_TO_THE_32 % MAX_RANGE
  }

  /** The state after k steps from a seed. */
  function NthState(seed: UInt32, k: nat): UInt32 {
    if k == 0 then seed else NextState(NthState(seed, k - 1))
  }

  /** The generator is the linear congruence x -> 1103515245 x + 12345 modulo
      2^31, whatever the first wrap-around at 2^32 does. */
  lemma NextStateIs(seed: UInt32, k: nat)
    ensures NthState(seed, 0) == seed
    ensures NthState(seed, k + 1) == (1103515245 * NthState(seed, k) + 12345) % 0x8000_0000
  {
    StepIs(NthState(seed, k));
    hide NextState;
  }

  lemma StepIs(state: UInt32)
    ensures NextState(state) == (1103515245 * state + 12345) % 0x8000_0000
  {
    ModuloTwice(1103515245 * state + 12345);
  }

  lemma ModuloTwice(x: nat)
    ensures x % 0x1_0000_0000 % 0x8000_0000 == x % 0x8000_0000
  {
    var high := x / 0x1_0000_0000;
    assert x % 0x1_0000_0000 == x - 0x1_0000_0000 * high;
  }

  class Random {
    var state: UInt32

    constructor (seed: UInt32)
      ensures state == seed
    {
      state := seed;
    }

    method Reseed(seed: UInt32)
      modifies this
      ensures state == seed
    {
      state := seed;
    }

    /** A number in [0, range). */
    method Generate(range: UInt32) returns (r: UInt32)
      requires 0 < range <= MAX_RANGE
      modifies this
      ensures state == NextState(old(state)) == (1103515245 * old(state) + 12345) % 0x8000_0000
      ensures r == state % range
    {
      StepIs(state);
      state := (1103515245 * state + 12345) % TWO_TO_THE_32 % MAX_RANGE;
      r := state % range;
    }
  }

  // ---------------------------------------------------------------------
  // Fisher-Yates as a function of the choices made
  // ---------------------------------------------------------------------

  function Swap<T>(v: seq<T>, i: nat, j: nat): seq<T>
    requires i < |v| && j < |v|
  {
    v[i := v[j]][j := v[i]]
  }

  /** One choice below each range width, for widths n down to 2. */
  predicate Legal(n: nat, choices: seq<nat>) {
    && |choices| == (if n < 2 then 0 else n - 1)
    && forall i | 0 <= i < |choices| :: choices[i] < n - i
  }

  /** Shuffles the n elements from begin on. */
  function FisherYates<T>(v: seq<T>, begin: nat, n: nat, choices: seq<nat>): (w: seq<T>)
    requires begin + n <= |v| && Legal(n, choices)
    ensures |w| == |v|
    ensures n < 2 ==> w == v
    decreases n
  {
    if n < 2 then v
    else FisherYates(Swap(v, begin + choices[0], begin + n - 1), begin, n - 1, choices[1..])
  }

  /** w is v with the n elements from begin on rearranged. */
  ghost predicate RangePermuted<T>(v: seq<T>, w: seq<T>, begin: nat, n: nat)
    requires begin + n <= |v|
  {
    && |w| == |v|
    && (forall i | 0 <= i < begin || begin + n <= i < |v| :: w[i] == v[i])
    && multiset(w[begin..begin + n]) == multiset(v[begin..begin + n])
  }

  lemma SwapPermutes<T>(v: seq<T>, i: nat, begin: nat, n: nat)
    requires begin <= i < begin + n <= |v|
    ensures RangePermuted(v, Swap(v, i, begin + n - 1), begin, n)
  {
    SwapOfRange(v, i, begin, n);
    SwapMultiset(v[begin..begin + n], i - begin, n - 1);
    SwapKeepsRest(v, i, begin, n);
    hide Swap;
  }

  lemma SwapKeepsRest<T>(v: seq<T>, i: nat, begin: nat, n: nat)
    requires begin <= i < begin + n <= |v|
    ensures var w := Swap(v, i, begin + n - 1);
            |w| == |v| && forall k | 0 <= k < begin || begin + n <= k < |v| :: w[k] == v[k]
  {
  }

  lemma SwapOfRange<T>(v: seq<T>, i: nat, begin: nat, n: nat)
    requires begin <= i < begin + n <= |v|
    ensures Swap(v, i, begin + n - 1)[begin..begin + n] == Swap(v[begin..begin + n], i - begin, n - 1)
  {
  }

  lemma SwapMultiset<T>(v: seq<T>, i: nat, j: nat)
    requires i < |v| && j < |v|
    ensures multiset(Swap(v, i, j)) == multiset(v)
  {
  }

  // A range one longer, whose last element is in place.
  lemma RangeSplit<T>(v: seq<T>, begin: nat, n: nat)
    requires begin + n < |v|
    ensures multiset(v[begin..begin + n + 1]) == multiset(v[begin..begin + n]) + multiset{v[begin + n]}
  {
    assert v[begin..begin + n + 1] == v[begin..begin + n] + [v[begin + n]];
  }

  // Rearranging all but the last element of a range rearranges the range.
  lemma RangeWiden<T>(v: seq<T>, w: seq<T>, begin: nat, n: nat)
    requires begin + n < |v| && |w| == |v| && w[begin + n] == v[begin + n]
    requires RangePermuted(v, w, begin, n)
    ensures RangePermuted(v, w, begin, n + 1)
  {
    RangeSplit(v, begin, n);
    RangeSplit(w, begin, n);
  }

  lemma RangeNarrow<T>(v: seq<T>, w: seq<T>, begin: nat, n: nat)
    requires begin + n < |v| && |w| == |v| && w[begin + n] == v[begin + n]
    requires RangePermuted(v, w, begin, n + 1)
    ensures RangePermuted(v, w, begin, n)
  {
    RangeSplit(v, begin, n);
    RangeSplit(w, begin, n);
    var last := multiset{v[begin + n]};
    assert multiset(v[begin..begin + n]) == multiset(v[begin..begin + n]) + last - last;
    assert multiset(w[begin..begin + n]) == multiset(w[begin..begin + n]) + last - last;
  }

  /** Whatever the choices, the range keeps its elements and the rest of the
      vector is untouched. */
  lemma {:induction false} FisherYatesPermutes<T>(v: seq<T>, begin: nat, n: nat, choices: seq<nat>)
    requires begin + n <= |v| && Legal(n, choices)
    ensures RangePermuted(v, FisherYates(v, begin, n, choices), begin, n)
    decreases n
  {
    if n >= 2 {
      var v' := Swap(v, begin + choices[0], begin + n - 1);
      var w := FisherYates(v', begin, n - 1, choices[1..]);
      SwapPermutes(v, begin + choices[0], begin, n);
      FisherYatesPermutes(v', begin, n - 1, choices[1..]);
      RangeKeepsRest(v', w, begin, n - 1);
      RangeWiden(v', w, begin, n - 1);
      hide RangePermuted, Swap;
      RangePermutedChain(v, v', w, begin, n);
    }
  }

  lemma RangeKeepsRest<T>(v: seq<T>, w: seq<T>, begin: nat, n: nat)
    requires begin + n < |v| && RangePermuted(v, w, begin, n)
    ensures |w| == |v| && w[begin + n] == v[begin + n]
  {
  }

  lemma RangePermutedChain<T>(u: seq<T>, v: seq<T>, w: seq<T>, begin: nat, n: nat)
    requires begin + n <= |u| == |v| && RangePermuted(u, v, begin, n) && RangePermuted(v, w, begin, n)
    ensures RangePermuted(u, w, begin, n)
  {
  }

  // The first choice decides the last element of the range for good.
  lemma FirstChoiceIsLast<T>(v: seq<T>, begin: nat, n: nat, choices: seq<nat>)
    requires n >= 2 && begin + n <= |v| && Legal(n, choices)
    ensures FisherYates(v, begin, n, choices)[begin + n - 1] == v[begin + choices[0]]
  {
    FisherYatesPermutes(Swap(v, begin + choices[0], begin + n - 1), begin, n - 1, choices[1..]);
  }

  ghost predicate Distinct<T>(v: seq<T>) {
    forall i, j | 0 <= i < j < |v| :: v[i] != v[j]
  }

  /** Over distinct elements different choices give different orders. */
  lemma {:induction false} FisherYatesInjective<T>(v: seq<T>, begin: nat, n: nat, c: seq<nat>, d: seq<nat>)
    requires begin + n <= |v| && Legal(n, c) && Legal(n, d)
    requires Distinct(v)
    requires FisherYates(v, begin, n, c) == FisherYates(v, begin, n, d)
    ensures c == d
    decreases n
  {
    if n >= 2 {
      FirstChoiceIsLast(v, begin, n, c);
      FirstChoiceIsLast(v, begin, n, d);
      FisherYatesInjective(Swap(v, begin + c[0], begin + n - 1), begin, n - 1, c[1..], d[1..]);
      assert c == [c[0]] + c[1..] && d == [d[0]] + d[1..];
    }
  }

  lemma LastComesFrom<T>(v: seq<T>, begin: nat, n: nat, w: seq<T>) returns (j: nat)
    requires n > 0 && begin + n <= |v| && RangePermuted(v, w, begin, n)
    ensures j < n && v[begin + j] == w[begin + n - 1]
  {
    var x, from, to := w[begin + n - 1], v[begin..begin + n], w[begin..begin + n];
    assert x == to[n - 1];
    assert x in multiset(from);
    j :| 0 <= j < n && from[j] == x;
  }

  lemma RangePermutedTrans<T>(u: seq<T>, v: seq<T>, w: seq<T>, begin: nat, n: nat)
    requires begin + n <= |u| && RangePermuted(u, v, begin, n) && RangePermuted(u, w, begin, n)
    ensures RangePermuted(v, w, begin, n)
  {
  }

  lemma FirstChoice<T>(v: seq<T>, begin: nat, n: nat, j: nat, rest: seq<nat>)
    requires n >= 2 && begin + n <= |v| && j < n && Legal(n - 1, rest)
    ensures Legal(n, [j] + rest)
    ensures FisherYates(v, begin, n, [j] + rest) ==
            FisherYates(Swap(v, begin + j, begin + n - 1), begin, n - 1, rest)
  {
    assert ([j] + rest)[1..] == rest;
  }

  /** Every rearrangement of the range comes from some legal choices. */
  lemma {:induction false} FisherYatesSurjective<T>(v: seq<T>, begin: nat, n: nat, w: seq<T>)
    returns (choices: seq<nat>)
    requires begin + n <= |v| && RangePermuted(v, w, begin, n)
    ensures Legal(n, choices) && FisherYates(v, begin, n, choices) == w
    decreases n
  {
    hide FisherYates, Legal, RangePermuted, Swap;
    if n == 0 {
      choices := [];
      EmptyRange(v, begin, w);
    } else {
      var j := LastComesFrom(v, begin, n, w);
      var v' := Swap(v, begin + j, begin + n - 1);
      SwapPermutes(v, begin + j, begin, n);
      SwapEnds(v, begin + j, begin + n - 1);
      RangePermutedTrans(v, v', w, begin, n);
      RangeNarrow(v', w, begin, n - 1);
      var rest := FisherYatesSurjective(v', begin, n - 1, w);
      if n == 1 {
        choices := [];
        ShortRange(v, begin, j, w, rest);
      } else {
        choices := [j] + rest;
        FirstChoice(v, begin, n, j, rest);
      }
    }
  }

  lemma SwapEnds<T>(v: seq<T>, i: nat, j: nat)
    requires i < |v| && j < |v|
    ensures |Swap(v, i, j)| == |v| && Swap(v, i, j)[j] == v[i]
  {
  }

  lemma EmptyRange<T>(v: seq<T>, begin: nat, w: seq<T>)
    requires begin <= |v| && RangePermuted(v, w, begin, 0)
    ensures Legal(0, []) && w == v
  {
  }

  lemma ShortRange<T>(v: seq<T>, begin: nat, j: nat, w: seq<T>, rest: seq<nat>)
    requires begin < |v| && j == 0 && Legal(0, rest)
    requires FisherYates(Swap(v, begin + j, begin), begin, 0, rest) == w
    ensures Legal(1, []) && FisherYates(v, begin, 1, []) == w
  {
    assert Swap(v, begin, begin) == v;
  }

  // ---------------------------------------------------------------------
  // The choices the generator makes
  // ---------------------------------------------------------------------

  /** The draws of a shuffle of n elements started in a state. */
  function Draws(state: UInt32, n: nat): (choices: seq<nat>)
    ensures Legal(n, choices)
    decreases n
  {
    if n < 2 then []
    else [NextState(state) % n] + Draws(NextState(state), n - 1)
  }

  function StateAfter(state: UInt32, n: nat): (after: UInt32)
    ensures n < 2 ==> after == state
    decreases n
  {
    if n < 2 then state else StateAfter(NextState(state), n - 1)
  }

  /** How many numbers a shuffle of n elements draws. */
  function Drawn(n: nat): nat { if n < 2 then 0 else n - 1 }

  /** The numbers drawn by a shuffle of n elements, from a given state after the
      seed on: the k-th is taken modulo n - k. */
  function Numbers(seed: UInt32, from: nat, n: nat): (choices: seq<nat>)
    ensures Legal(n, choices)
  {
    seq(Drawn(n), k requires 0 <= k < Drawn(n) => NthState(seed, from + k + 1) % (n - k))
  }

  // The first number, and those of a range one shorter.
  lemma NumbersStep(seed: UInt32, from: nat, n: nat)
    requires n >= 2
    ensures Numbers(seed, from, n) == [NthState(seed, from + 1) % n] + Numbers(seed, from + 1, n - 1)
  {
    hide NthState;
    var choices, rest := Numbers(seed, from, n), Numbers(seed, from + 1, n - 1);
    forall k | 0 <= k < |rest| ensures rest[k] == choices[k + 1] {
      assert from + 1 + k + 1 == from + (k + 1) + 1 && n - 1 - k == n - (k + 1);
    }
  }

  /** A shuffle of n elements draws the numbers of the next n - 1 states. */
  lemma {:induction false} DrawsAre(seed: UInt32, from: nat, n: nat)
    ensures Draws(NthState(seed, from), n) == Numbers(seed, from, n)
    ensures StateAfter(NthState(seed, from), n) == NthState(seed, from + Drawn(n))
    decreases n
  {
    hide NextState, Numbers;
    if n >= 2 {
      NumbersStep(seed, from, n);
      DrawsAre(seed, from + 1, n - 1);
      assert NthState(seed, from + 1) == NextState(NthState(seed, from));
    }
  }

  // One turn of the loop.
  lemma DrawStep<T>(v: seq<T>, begin: nat, n: nat, state: UInt32)
    requires n >= 2 && begin + n <= |v|
    ensures FisherYates(v, begin, n, Draws(state, n)) ==
            FisherYates(Swap(v, begin + NextState(state) % n, begin + n - 1), begin, n - 1,
                        Draws(NextState(state), n - 1))
    ensures StateAfter(state, n) == StateAfter(NextState(state), n - 1)
  {
    assert Draws(state, n)[1..] == Draws(NextState(state), n - 1);
  }

  /** Shuffles v[begin..end] in place; v is the vector before, w after. */
  method ShuffleRange<T>(random: Random, begin: nat, end: nat, v: seq<T>) returns (w: seq<T>)
    requires begin <= end <= |v| < MAX_RANGE
    modifies random
    ensures w == FisherYates(v, begin, end - begin, Draws(old(random.state), end - begin))
    ensures random.state == StateAfter(old(random.state), end - begin)
  {
    hide FisherYates, Draws, StateAfter, NextState;
    w := v;
    var rangeWidth := end - begin;
    while rangeWidth >= 2
      invariant 0 <= rangeWidth <= end - begin && |w| == |v|
      invariant FisherYates(w, begin, rangeWidth, Draws(random.state, rangeWidth)) ==
                FisherYates(v, begin, end - begin, Draws(old(random.state), end - begin))
      invariant StateAfter(random.state, rangeWidth) == StateAfter(old(random.state), end - begin)
    {
      DrawStep(w, begin, rangeWidth, random.state);
      var lastInRange := begin + rangeWidth - 1;
      var selected := random.Generate(rangeWidth);
      selected := begin + selected;
      w := Swap(w, selected, lastInRange);
      rangeWidth := rangeWidth - 1;
    }
  }
}
