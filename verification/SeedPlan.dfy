/**
 * Which seeds a generation run attempts: the defaults, the blocks of the shards, the split limits.
 */
module SeedPlan {
  import opened Common
  import opened Dataset

  const EVAL_SEED_OFFSET: nat := 1_000_000
  const SHARD_SEED_STRIDE: nat := 100_000

  datatype Split = Train | Eval

  function SplitStart(split: Split): nat {
    if split == Eval then EVAL_SEED_OFFSET else 0
  }

  /** `validate_seed_range`: false is the refusal. */
  predicate ValidRange(split: Split, seedStart: nat, maxAttempts: nat) {
    if split == Train then seedStart + maxAttempts <= EVAL_SEED_OFFSET else seedStart >= EVAL_SEED_OFFSET
  }

  function LogSeeds(rows: seq<Row>): (s: seq<nat>)
    ensures |s| == |rows| && forall i :: 0 <= i < |s| ==> s[i] == rows[i].seed
  {
    seq(|rows|, i requires 0 <= i < |rows| => rows[i].seed)
  }

  /** `next_seed`: the first seed above `fallback` and above everything logged. */
  function NextSeed(logged: seq<nat>, fallback: nat): (n: nat)
    ensures n >= fallback && forall s :: s in logged ==> s < n
    ensures n == fallback || n - 1 in logged
  {
    if logged == [] then fallback else
      var rest := NextSeed(logged[..|logged| - 1], fallback);
      var s := logged[|logged| - 1];
      assert logged == logged[..|logged| - 1] + [s];
      if s + 1 > rest then s + 1 else rest
  }

  /** A block is 100,000 seeds. */
  predicate InBlock(seed: nat, blockStart: nat) {
    blockStart <= seed < blockStart + 100_000
  }

  /** First seed of a shard: after the highest one already logged inside its block. */
  function ShardStart(logged: seq<nat>, blockStart: nat): (n: nat)
    ensures n >= blockStart && forall s :: s in logged && InBlock(s, blockStart) ==> s < n
    ensures n == blockStart || (n - 1 in logged && InBlock(n - 1, blockStart))
  {
    if logged == [] then blockStart else
      var rest := ShardStart(logged[..|logged| - 1], blockStart);
      var s := logged[|logged| - 1];
      assert logged == logged[..|logged| - 1] + [s];
      if InBlock(s, blockStart) && s + 1 > rest then s + 1 else rest
  }

  /** A shard's seeds fit its block and the split. */
  predicate ShardFits(logged: seq<nat>, blockStart: nat, attempts: nat, split: Split) {
    var start := ShardStart(logged, blockStart);
    start + attempts <= blockStart + SHARD_SEED_STRIDE && ValidRange(split, start, attempts)
  }

  function Block(seedStart: nat, index: nat): nat {
    seedStart + index * SHARD_SEED_STRIDE
  }

  predicate PlanFits(logged: seq<nat>, seedStart: nat, attempts: seq<nat>, split: Split) {
    forall i :: 0 <= i < |attempts| ==> ShardFits(logged, Block(seedStart, i), attempts[i], split)
  }

  /** `plan_shard_seeds`: None is the ValueError. */
  method PlanShardSeeds(logged: seq<nat>, seedStart: nat, attempts: seq<nat>, split: Split)
    returns (r: Option<seq<nat>>)
    ensures r.Some? <==> PlanFits(logged, seedStart, attempts, split)
    ensures (forall i :: 0 <= i < |attempts| ==> attempts[i] > 0) ==>
      (r.Some? <==>
        forall i :: 0 <= i < |attempts| ==> StaysInside(logged, seedStart + i * 100_000, attempts[i], split))
    ensures r.Some? ==> r.value == ShardStarts(logged, seedStart, |attempts|)
  {
    hide StaysInside, ShardStart, ValidRange;
    if forall i :: 0 <= i < |attempts| ==> attempts[i] > 0 {
      PlanFitsIff(logged, seedStart, attempts, split);
    }
    var starts := [];
    for index := 0 to |attempts|
      invariant starts == ShardStarts(logged, seedStart, index)
      invariant forall i :: 0 <= i < index ==> ShardFits(logged, Block(seedStart, i), attempts[i], split)
    {
      var blockStart := seedStart + index * SHARD_SEED_STRIDE;
      assert blockStart == Block(seedStart, index);
      var start := MaxUsed(logged, blockStart);
      if start + attempts[index] > blockStart + SHARD_SEED_STRIDE || !ValidRange(split, start, attempts[index]) {
        return None;
      }
      starts := starts + [start];
    }
    return Some(starts);
  }

  /** The comprehension over the logged seeds and the maximum plus one, in one pass. */
  method MaxUsed(logged: seq<nat>, blockStart: nat) returns (start: nat)
    ensures start == ShardStart(logged, blockStart)
  {
    start := blockStart;
    for i := 0 to |logged|
      invariant start == ShardStart(logged[..i], blockStart)
    {
      assert logged[..i + 1][..i] == logged[..i];
      if InBlock(logged[i], blockStart) && logged[i] + 1 > start {
        start := logged[i] + 1;
      }
    }
    assert logged[..|logged|] == logged;
  }

  function ShardStarts(logged: seq<nat>, seedStart: nat, n: nat): (s: seq<nat>)
    ensures |s| == n && forall i :: 0 <= i < n ==> s[i] == ShardStart(logged, Block(seedStart, i))
  {
    seq(n, i requires i >= 0 => ShardStart(logged, Block(seedStart, i)))
  }

  // ---- seeds of shards ----

  predicate Distinct(s: seq<nat>) {
    forall i, j :: 0 <= i < j < |s| ==> s[i] != s[j]
  }

  predicate Disjoint(a: seq<nat>, b: seq<nat>) {
    forall x :: x in a ==> x !in b
  }

  lemma DistinctAppend(a: seq<nat>, b: seq<nat>)
    requires Distinct(a) && Distinct(b) && Disjoint(a, b)
    ensures Distinct(a + b)
  {
    var s := a + b;
    forall i, j | 0 <= i < j < |s| ensures s[i] != s[j] {
      if i < |a| <= j {
        assert a[i] in a && b[j - |a|] in b;
      } else if |a| <= i {
        assert s[i] == b[i - |a|] && s[j] == b[j - |a|];
      }
    }
  }

  /** The seeds the first `|counts|` shards attempt, shard by shard. */
  function ShardSeeds(starts: seq<nat>, counts: seq<nat>): seq<nat>
    requires |counts| <= |starts|
  {
    if counts == [] then [] else
      var k := |counts| - 1;
      ShardSeeds(starts, counts[..k]) + Range(starts[k], counts[k])
  }

  /** Seeds of earlier shards lie below the next block, and above everything logged in their own. */
  lemma {:induction false} ShardSeedsAreFresh(
      logged: seq<nat>, seedStart: nat, attempts: seq<nat>, counts: seq<nat>, split: Split)
    requires PlanFits(logged, seedStart, attempts, split) && |counts| <= |attempts|
    requires forall i :: 0 <= i < |counts| ==> counts[i] <= attempts[i]
    ensures var s := ShardSeeds(ShardStarts(logged, seedStart, |attempts|), counts);
      && Distinct(s) && Disjoint(s, logged)
      && (forall x :: x in s ==> seedStart <= x < Block(seedStart, |counts|))
      && (forall x :: x in s ==> InSplit(x, split))
  {
    if counts != [] {
      var k := |counts| - 1;
      var starts := ShardStarts(logged, seedStart, |attempts|);
      ShardSeedsAreFresh(logged, seedStart, attempts, counts[..k], split);
      assert ShardFits(logged, Block(seedStart, k), attempts[k], split);
      var own := Range(starts[k], counts[k]);
      OneShardIsFresh(logged, Block(seedStart, k), counts[k], attempts[k], split);
      var before := ShardSeeds(starts, counts[..k]);
      assert Block(seedStart, k + 1) == Block(seedStart, k) + SHARD_SEED_STRIDE;
      DistinctAppend(before, own);
      forall x | x in before + own
        ensures x !in logged && seedStart <= x < Block(seedStart, k + 1) && InSplit(x, split)
      {
        assert x in before || x in own;
      }
    }
  }

  /** Train seeds lie below one million, eval seeds from there on. */
  predicate InSplit(seed: nat, split: Split) {
    split == Train <==> seed < 1_000_000
  }

  /** A range is valid exactly if every seed in it is in the split. */
  lemma ValidRangeIff(split: Split, start: nat, n: nat)
    requires n > 0
    ensures ValidRange(split, start, n) <==> forall x :: start <= x < start + n ==> InSplit(x, split)
  {
    assert InSplit(start, split) <==> (split == Train <==> start < 1_000_000);
    assert InSplit(start + n - 1, split) <==> (split == Train <==> start + n - 1 < 1_000_000);
  }

  /** Every seed that a shard may attempt is in its block and in the split. */
  ghost predicate StaysInside(logged: seq<nat>, blockStart: nat, attempts: nat, split: Split) {
    var start := ShardStart(logged, blockStart);
    forall x :: start <= x < start + attempts ==> InBlock(x, blockStart) && InSplit(x, split)
  }

  lemma ShardFitsIff(logged: seq<nat>, blockStart: nat, attempts: nat, split: Split)
    requires attempts > 0
    ensures ShardFits(logged, blockStart, attempts, split) <==> StaysInside(logged, blockStart, attempts, split)
  {
    var start := ShardStart(logged, blockStart);
    ValidRangeIff(split, start, attempts);
    assert InBlock(start + attempts - 1, blockStart) <==> start + attempts <= blockStart + SHARD_SEED_STRIDE;
  }

  /** The plan succeeds exactly if all shards stay inside. */
  lemma PlanFitsIff(logged: seq<nat>, seedStart: nat, attempts: seq<nat>, split: Split)
    requires forall i :: 0 <= i < |attempts| ==> attempts[i] > 0
    ensures PlanFits(logged, seedStart, attempts, split) <==>
      forall i :: 0 <= i < |attempts| ==> StaysInside(logged, seedStart + i * 100_000, attempts[i], split)
  {
    hide ShardFits, StaysInside;
    forall i | 0 <= i < |attempts|
      ensures ShardFits(logged, Block(seedStart, i), attempts[i], split) <==>
        StaysInside(logged, seedStart + i * 100_000, attempts[i], split)
    {
      ShardFitsIff(logged, Block(seedStart, i), attempts[i], split);
    }
  }

  lemma OneShardIsFresh(logged: seq<nat>, blockStart: nat, count: nat, attempts: nat, split: Split)
    requires ShardFits(logged, blockStart, attempts, split) && count <= attempts
    ensures var own := Range(ShardStart(logged, blockStart), count);
      && Distinct(own) && Disjoint(own, logged)
      && (forall x :: x in own ==> InBlock(x, blockStart) && InSplit(x, split))
  {
    var own := Range(ShardStart(logged, blockStart), count);
    forall x | x in own ensures x !in logged && InBlock(x, blockStart) && InSplit(x, split) {
      var i :| 0 <= i < |own| && own[i] == x;
    }
  }

  // ---- one run ----

  /** What one process appends to a dataset holding `existing` episodes: its rows and its own report. */
  function OwnRun(mapping: string, seedStart: nat, existing: nat, episodes: nat, vs: seq<Verdict>): Generated {
    var taken := vs[..Made(episodes, vs)];
    var rows := RowsOf(seedStart, existing, taken);
    var accepted := AcceptedSeeds(rows);
    Generated(rows, Report(mapping, episodes, |taken|, accepted, RejectionsOf(seedStart, taken),
                           Rate(|accepted|, |taken|), ""))
  }

  lemma {:induction false} RejectionsMatchRows(seedStart: nat, existing: nat, vs: seq<Verdict>)
    ensures SeedsOf(RejectionsOf(seedStart, vs)) == RejectedSeeds(RowsOf(seedStart, existing, vs))
  {
    if vs != [] {
      var n := |vs| - 1;
      RejectionsMatchRows(seedStart, existing, vs[..n]);
      assert vs[..|vs|] == vs;
      RowsNext(seedStart, existing, vs, n);
      LogNext(RowsOf(seedStart, existing, vs[..n]),
              Row(seedStart + n, if vs[n].Accept? then Some(existing + Accepted(vs[..n])) else None));
      if vs[n].Reject? {
        RejectionNext(RejectionsOf(seedStart, vs[..n]), Rejection(seedStart + n, vs[n].reason));
      } else {
        assert RejectionsOf(seedStart, vs) == RejectionsOf(seedStart, vs[..n]);
        assert RejectedSeeds(RowsOf(seedStart, existing, vs)) == RejectedSeeds(RowsOf(seedStart, existing, vs[..n]));
      }
    }
  }

  lemma OwnRunIsAligned(mapping: string, seedStart: nat, existing: nat, episodes: nat, vs: seq<Verdict>)
    ensures var g, n := OwnRun(mapping, seedStart, existing, episodes, vs), Made(episodes, vs);
      && Indices(g.rows) == Range(existing, |g.report.acceptedSeeds|)
      && SeedsOf(g.report.rejected) == RejectedSeeds(g.rows)
      && g.report.attempts == |g.rows| == n
      && LogSeeds(g.rows) == Range(seedStart, n)
      && (existing == 0 ==> Consistent(g))
  {
    var taken := vs[..Made(episodes, vs)];
    RowsContinue(seedStart, existing, taken);
    RejectionsMatchRows(seedStart, existing, taken);
    AcceptedMatchIndices(RowsOf(seedStart, existing, taken));
  }
}
