/** Which tests run: the runnable tests of a suite, numbered in order across
    all test cases, are dealt out to the shards round robin. A suite is seen
    here as one row of flags per test case. */
module Sharding {

  datatype Protocol = Ignore | Honor(totalShards: nat, shardIndex: nat)

  function CountTrue(row: seq<bool>): nat {
    if row == [] then 0
    else CountTrue(row[..|row| - 1]) + if row[|row| - 1] then 1 else 0
  }

  function CountRows(rows: seq<seq<bool>>): nat {
    if rows == [] then 0
    else CountRows(rows[..|rows| - 1]) + CountTrue(rows[|rows| - 1])
  }

  lemma CountTrueNext(row: seq<bool>, j: nat)
    requires j < |row|
    ensures CountTrue(row[..j + 1]) == CountTrue(row[..j]) + if row[j] then 1 else 0
    ensures true in row[..j + 1] <==> true in row[..j] || row[j]
  {
    assert row[..j + 1] == row[..j] + [row[j]];
  }

  lemma CountRowsNext(rows: seq<seq<bool>>, i: nat)
    requires i < |rows|
    ensures CountRows(rows[..i + 1]) == CountRows(rows[..i]) + CountTrue(rows[i])
  {
    assert rows[..i + 1] == rows[..i] + [rows[i]];
  }

  /** The runnable tests ahead of test j of case i: its number. */
  function TestId(runnable: seq<seq<bool>>, i: nat, j: nat): nat
    requires i < |runnable| && j <= |runnable[i]|
  {
    CountRows(runnable[..i]) + CountTrue(runnable[i][..j])
  }

  predicate ShouldRunTestOnShard(totalShards: nat, shardIndex: nat, testId: nat)
    requires totalShards > 0
  {
    testId % totalShards == shardIndex
  }

  predicate WellFormed(p: Protocol) {
    p.Honor? ==> p.shardIndex < p.totalShards
  }

  predicate IsSelected(runnable: seq<seq<bool>>, p: Protocol, i: nat, j: nat)
    requires i < |runnable| && j < |runnable[i]| && WellFormed(p)
  {
    && runnable[i][j]
    && (p.Ignore? || ShouldRunTestOnShard(p.totalShards, p.shardIndex, TestId(runnable, i, j)))
  }

  /** Numbers start at 0 and go up by one past each runnable test, on from one
      case to the next; a shard takes the runnable tests whose number leaves its
      index when divided by the total. */
  lemma NumberedInOrder(runnable: seq<seq<bool>>, i: nat, j: nat, t: nat, s: nat)
    requires i < |runnable| && j < |runnable[i]| && s < t
    ensures TestId(runnable, 0, 0) == 0
    ensures TestId(runnable, i, j + 1) == TestId(runnable, i, j) + if runnable[i][j] then 1 else 0
    ensures i + 1 < |runnable| ==> TestId(runnable, i + 1, 0) == TestId(runnable, i, |runnable[i]|)
    ensures IsSelected(runnable, Honor(t, s), i, j) <==> runnable[i][j] && TestId(runnable, i, j) % t == s
    ensures IsSelected(runnable, Ignore, i, j) <==> runnable[i][j]
  {
    CountTrueNext(runnable[i], j);
    CountRowsNext(runnable, i);
    assert runnable[i][..|runnable[i]|] == runnable[i];
  }

  function SelectedRows(runnable: seq<seq<bool>>, p: Protocol): (rows: seq<seq<bool>>)
    requires WellFormed(p)
    ensures |rows| == |runnable|
    ensures forall i | 0 <= i < |rows| :: |rows[i]| == |runnable[i]|
    ensures forall i, j | 0 <= i < |rows| && 0 <= j < |rows[i]| :: rows[i][j] == IsSelected(runnable, p, i, j)
  {
    seq(|runnable|, i requires 0 <= i < |runnable| =>
      seq(|runnable[i]|, j requires 0 <= j < |runnable[i]| => IsSelected(runnable, p, i, j)))
  }

  /** The only shard gets what is selected without sharding. */
  lemma OneShardIsAll(runnable: seq<seq<bool>>)
    ensures SelectedRows(runnable, Ignore) == SelectedRows(runnable, Honor(1, 0))
  {
    var all, one := SelectedRows(runnable, Ignore), SelectedRows(runnable, Honor(1, 0));
    forall i | 0 <= i < |runnable| ensures all[i] == one[i] {
      forall j | 0 <= j < |runnable[i]| ensures all[i][j] == one[i][j] {
        assert IsSelected(runnable, Ignore, i, j) == IsSelected(runnable, Honor(1, 0), i, j);
      }
    }
  }

  /** How many of the numbers 0 .. n-1 a shard is dealt. */
  function Dealt(n: nat, p: Protocol): nat
    requires WellFormed(p)
  {
    if p.Ignore? then n
    else if n == 0 then 0
    else Dealt(n - 1, p) + if ShouldRunTestOnShard(p.totalShards, p.shardIndex, n - 1) then 1 else 0
  }

  // The count over a partly visited row follows the numbers handed out so far.
  lemma {:induction false} DealtInRow(runnable: seq<seq<bool>>, p: Protocol, i: nat, j: nat)
    requires WellFormed(p) && i < |runnable| && j <= |runnable[i]|
    ensures Dealt(CountRows(runnable[..i]), p) + CountTrue(SelectedRows(runnable, p)[i][..j]) ==
            Dealt(TestId(runnable, i, j), p)
    decreases j
  {
    if j > 0 {
      DealtInRow(runnable, p, i, j - 1);
      var row, selected := runnable[i][..j], SelectedRows(runnable, p)[i][..j];
      assert row[..j - 1] == runnable[i][..j - 1];
      assert selected[..j - 1] == SelectedRows(runnable, p)[i][..j - 1];
      assert selected[j - 1] == IsSelected(runnable, p, i, j - 1);
    }
  }

  lemma {:induction false} DealtInRows(runnable: seq<seq<bool>>, p: Protocol, i: nat)
    requires WellFormed(p) && i <= |runnable|
    ensures CountRows(SelectedRows(runnable, p)[..i]) == Dealt(CountRows(runnable[..i]), p)
    decreases i
  {
    if i > 0 {
      DealtInRows(runnable, p, i - 1);
      var rows := SelectedRows(runnable, p);
      DealtInRow(runnable, p, i - 1, |runnable[i - 1]|);
      assert runnable[..i][..i - 1] == runnable[..i - 1] && rows[..i][..i - 1] == rows[..i - 1];
      assert runnable[i - 1][..|runnable[i - 1]|] == runnable[i - 1];
      assert rows[i - 1][..|runnable[i - 1]|] == rows[i - 1];
    }
  }

  lemma SelectedCount(runnable: seq<seq<bool>>, p: Protocol)
    requires WellFormed(p)
    ensures CountRows(SelectedRows(runnable, p)) == Dealt(CountRows(runnable), p)
  {
    DealtInRows(runnable, p, |runnable|);
    assert runnable[..|runnable|] == runnable;
    assert SelectedRows(runnable, p)[..|runnable|] == SelectedRows(runnable, p);
  }

  lemma DivModStep(n: nat, t: nat)
    requires t > 0
    ensures (n + 1) / t == if n % t == t - 1 then n / t + 1 else n / t
    ensures (n + 1) % t == if n % t == t - 1 then 0 else n % t + 1
  {
    var q, r := n / t, n % t;
    assert n == q * t + r;
    if r == t - 1 {
      assert n + 1 == (q + 1) * t;
      DivModUnique(n + 1, t, q + 1, 0);
    } else {
      DivModUnique(n + 1, t, q, r + 1);
    }
  }

  lemma DivModUnique(n: nat, t: nat, q: nat, r: nat)
    requires t > 0 && r < t && n == q * t + r
    ensures n / t == q && n % t == r
  {
    var q', r' := n / t, n % t;
    assert q * t + r == q' * t + r';
    if q > q' {
      MulMono(q' + 1, q, t);
    } else if q < q' {
      MulMono(q + 1, q', t);
    }
  }

  lemma MulMono(a: nat, b: nat, t: nat)
    requires a <= b
    ensures a * t <= b * t && (a + 1) * t == a * t + t
  {
  }

  // Every shard gets n / t tests, and the first n % t shards one more.
  lemma {:induction false} DealtClosedForm(n: nat, t: nat, s: nat)
    requires s < t
    ensures Dealt(n, Honor(t, s)) == n / t + if s < n % t then 1 else 0
    decreases n
  {
    if n > 0 {
      DealtClosedForm(n - 1, t, s);
      DivModStep(n - 1, t);
    }
  }

  function TotalDealt(n: nat, t: nat, shards: nat): nat
    requires shards <= t
  {
    if shards == 0 then 0 else TotalDealt(n, t, shards - 1) + Dealt(n, Honor(t, shards - 1))
  }

  // q tests for each of the shards, and one more for each of the first r.
  function SumOfShares(q: nat, r: nat, shards: nat): nat {
    if shards == 0 then 0 else SumOfShares(q, r, shards - 1) + q + if shards - 1 < r then 1 else 0
  }

  lemma {:induction false} SumOfSharesClosedForm(q: nat, r: nat, shards: nat)
    ensures SumOfShares(q, r, shards) == shards * q + if shards < r then shards else r
  {
    if shards > 0 {
      SumOfSharesClosedForm(q, r, shards - 1);
      assert shards * q == (shards - 1) * q + q;
    }
  }

  lemma {:induction false} TotalDealtIsSum(n: nat, t: nat, shards: nat)
    requires shards <= t && t > 0
    ensures TotalDealt(n, t, shards) == SumOfShares(n / t, n % t, shards)
    decreases shards
  {
    hide Dealt;
    if shards > 0 {
      TotalDealtIsSum(n, t, shards - 1);
      DealtClosedForm(n, t, shards - 1);
    }
  }

  lemma TotalDealtClosedForm(n: nat, t: nat, shards: nat)
    requires shards <= t && t > 0
    ensures TotalDealt(n, t, shards) == shards * (n / t) + if shards < n % t then shards else n % t
  {
    hide TotalDealt, SumOfShares;
    TotalDealtIsSum(n, t, shards);
    SumOfSharesClosedForm(n / t, n % t, shards);
  }

  /** The tests run by the first shards together. */
  function ShardTotal(runnable: seq<seq<bool>>, t: nat, shards: nat): nat
    requires shards <= t
  {
    if shards == 0 then 0
    else ShardTotal(runnable, t, shards - 1) + CountRows(SelectedRows(runnable, Honor(t, shards - 1)))
  }

  lemma {:induction false} ShardTotalIsDealt(runnable: seq<seq<bool>>, t: nat, shards: nat)
    requires shards <= t
    ensures ShardTotal(runnable, t, shards) == TotalDealt(CountRows(runnable), t, shards)
    decreases shards
  {
    if shards > 0 {
      ShardTotalIsDealt(runnable, t, shards - 1);
      SelectedCount(runnable, Honor(t, shards - 1));
    }
  }

  /** Shard s, and no other, selects test j of case i. */
  ghost predicate OnlyShard(runnable: seq<seq<bool>>, t: nat, i: nat, j: nat, s: nat)
    requires i < |runnable| && j < |runnable[i]|
  {
    s < t && forall s' | 0 <= s' < t :: IsSelected(runnable, Honor(t, s'), i, j) <==> s' == s
  }

  /** Running once per shard index runs each runnable test on exactly one
      shard, and no other test on any. */
  lemma EachTestOnOneShard(runnable: seq<seq<bool>>, t: nat, i: nat, j: nat)
    requires t > 0 && i < |runnable| && j < |runnable[i]|
    ensures runnable[i][j] <==> exists s :: OnlyShard(runnable, t, i, j, s)
    ensures !runnable[i][j] ==> forall s | 0 <= s < t :: !IsSelected(runnable, Honor(t, s), i, j)
  {
    if runnable[i][j] {
      assert OnlyShard(runnable, t, i, j, TestId(runnable, i, j) % t);
    }
    assert forall s | OnlyShard(runnable, t, i, j, s) :: IsSelected(runnable, Honor(t, s), i, j);
  }

  /** Shard sizes differ by at most one. */
  lemma ShardsBalanced(runnable: seq<seq<bool>>, t: nat, s: nat, s': nat)
    requires s < t && s' < t
    ensures CountRows(SelectedRows(runnable, Honor(t, s))) <= CountRows(SelectedRows(runnable, Honor(t, s'))) + 1
  {
    SelectedCount(runnable, Honor(t, s));
    SelectedCount(runnable, Honor(t, s'));
    DealtClosedForm(CountRows(runnable), t, s);
    DealtClosedForm(CountRows(runnable), t, s');
  }

  lemma DivModSum(n: nat, t: nat)
    requires t > 0
    ensures t * (n / t) + (if t < n % t then t else n % t) == n
  {
  }

  /** Shard sizes add up to the number of runnable tests. */
  lemma ShardsSumUp(runnable: seq<seq<bool>>, t: nat)
    requires t > 0
    ensures ShardTotal(runnable, t, t) == CountRows(runnable)
  {
    var n := CountRows(runnable);
    ShardTotalIsDealt(runnable, t, t);
    TotalDealtClosedForm(n, t, t);
    DivModSum(n, t);
  }

  // ---------------------------------------------------------------------
  // Whether to shard at all
  // ---------------------------------------------------------------------

  datatype Decision = Shard(yes: bool) | Exit

  /** The two environment variables, -1 when unset; inconsistent values end
      the program. */
  function ShouldShard(totalShards: int, shardIndex: int, inSubprocessForDeathTest: bool): (d: Decision)
    ensures d == Shard(true) <==> !inSubprocessForDeathTest && 0 <= shardIndex < totalShards && totalShards > 1
    ensures d.Exit? <==> !inSubprocessForDeathTest && (totalShards != -1 || shardIndex != -1) &&
                         !(0 <= shardIndex < totalShards)
  {
    if inSubprocessForDeathTest then Shard(false)
    else if totalShards == -1 && shardIndex == -1 then Shard(false)
    else if totalShards == -1 && shardIndex != -1 then Exit
    else if totalShards != -1 && shardIndex == -1 then Exit
    else if shardIndex < 0 || shardIndex >= totalShards then Exit
    else Shard(totalShards > 1)
  }
}
