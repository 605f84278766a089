/**
 * The per-attempt log and the report of a generated dataset: the attempt loop that writes them, the work split and
 * the merge of shards, and the folding of reports.
 */
module Dataset {
  import opened Common

  /** The simulator's and the quality check's judgement of one attempt. */
  datatype Verdict = Accept | Reject(reason: string)

  /** One line of `generation_episodes.jsonl`; a rejected attempt has no episode index. */
  datatype Row = Row(seed: nat, episodeIndex: Option<nat>)

  datatype Rejection = Rejection(seed: nat, reason: string)

  /** The fields of `generation_report.json` that merging touches; `rest` stands for all the others. */
  datatype Report = Report(
    jointMapping: string,
    requested: nat,
    attempts: nat,
    acceptedSeeds: seq<nat>,
    rejected: seq<Rejection>,
    acceptanceRate: real,
    rest: string)

  /** A finished dataset as far as this model goes: its log and its report. */
  datatype Generated = Generated(rows: seq<Row>, report: Report)

  function Rate(accepted: nat, attempts: nat): real {
    accepted as real / (if attempts > 1 then attempts else 1) as real
  }

  function Range(from: nat, count: nat): (s: seq<nat>)
    ensures |s| == count && forall i :: 0 <= i < count ==> s[i] == from + i
  {
    seq(count, i requires i >= 0 => from + i)
  }

  /** The episode indices of a log, in order. */
  function Indices(rows: seq<Row>): seq<nat> {
    if rows == [] then []
    else (if rows[0].episodeIndex.Some? then [rows[0].episodeIndex.value] else []) + Indices(rows[1..])
  }

  /** The seeds of the accepted attempts, in order. */
  function AcceptedSeeds(rows: seq<Row>): seq<nat> {
    if rows == [] then []
    else (if rows[0].episodeIndex.Some? then [rows[0].seed] else []) + AcceptedSeeds(rows[1..])
  }

  function RejectedSeeds(rows: seq<Row>): seq<nat> {
    if rows == [] then []
    else (if rows[0].episodeIndex.None? then [rows[0].seed] else []) + RejectedSeeds(rows[1..])
  }

  function SeedsOf(rejected: seq<Rejection>): (s: seq<nat>)
    ensures |s| == |rejected|
  {
    if rejected == [] then [] else [rejected[0].seed] + SeedsOf(rejected[1..])
  }

  lemma {:induction false} IndicesAppend(a: seq<Row>, b: seq<Row>)
    ensures Indices(a + b) == Indices(a) + Indices(b)
    decreases |a|
  {
    if a == [] {
      assert a + b == b;
    } else {
      var head := if a[0].episodeIndex.Some? then [a[0].episodeIndex.value] else [];
      assert (a + b)[1..] == a[1..] + b;
      IndicesAppend(a[1..], b);
      assert head + (Indices(a[1..]) + Indices(b)) == head + Indices(a[1..]) + Indices(b);
    }
  }

  lemma {:induction false} AcceptedSeedsAppend(a: seq<Row>, b: seq<Row>)
    ensures AcceptedSeeds(a + b) == AcceptedSeeds(a) + AcceptedSeeds(b)
    decreases |a|
  {
    if a == [] {
      assert a + b == b;
    } else {
      var head := if a[0].episodeIndex.Some? then [a[0].seed] else [];
      assert (a + b)[1..] == a[1..] + b;
      AcceptedSeedsAppend(a[1..], b);
      assert head + (AcceptedSeeds(a[1..]) + AcceptedSeeds(b)) == head + AcceptedSeeds(a[1..]) + AcceptedSeeds(b);
    }
  }

  lemma {:induction false} RejectedSeedsAppend(a: seq<Row>, b: seq<Row>)
    ensures RejectedSeeds(a + b) == RejectedSeeds(a) + RejectedSeeds(b)
    decreases |a|
  {
    if a == [] {
      assert a + b == b;
    } else {
      var head := if a[0].episodeIndex.None? then [a[0].seed] else [];
      assert (a + b)[1..] == a[1..] + b;
      RejectedSeedsAppend(a[1..], b);
      assert head + (RejectedSeeds(a[1..]) + RejectedSeeds(b)) == head + RejectedSeeds(a[1..]) + RejectedSeeds(b);
    }
  }

  lemma LogAppend(a: seq<Row>, b: seq<Row>)
    ensures Indices(a + b) == Indices(a) + Indices(b)
    ensures AcceptedSeeds(a + b) == AcceptedSeeds(a) + AcceptedSeeds(b)
    ensures RejectedSeeds(a + b) == RejectedSeeds(a) + RejectedSeeds(b)
  {
    IndicesAppend(a, b);
    AcceptedSeedsAppend(a, b);
    RejectedSeedsAppend(a, b);
  }

  lemma {:induction false} SeedsOfAppend(a: seq<Rejection>, b: seq<Rejection>)
    ensures SeedsOf(a + b) == SeedsOf(a) + SeedsOf(b)
    decreases |a|
  {
    if a == [] {
      assert a + b == b;
    } else {
      assert (a + b)[1..] == a[1..] + b;
      SeedsOfAppend(a[1..], b);
    }
  }

  lemma {:induction false} AcceptedMatchIndices(rows: seq<Row>)
    ensures |AcceptedSeeds(rows)| == |Indices(rows)|
    ensures |AcceptedSeeds(rows)| + |RejectedSeeds(rows)| == |rows|
  {
    if rows != [] {
      AcceptedMatchIndices(rows[1..]);
    }
  }

  /**
   * Log and report agree: the episode indices are 0, 1, 2, ... in log order, the report lists the seeds of the
   * accepted and of the rejected rows in log order, and counts every row as one attempt.
   */
  predicate Consistent(g: Generated) {
    && Indices(g.rows) == Range(0, |g.report.acceptedSeeds|)
    && g.report.acceptedSeeds == AcceptedSeeds(g.rows)
    && SeedsOf(g.report.rejected) == RejectedSeeds(g.rows)
    && g.report.attempts == |g.rows|
    && g.report.acceptanceRate == Rate(|g.report.acceptedSeeds|, g.report.attempts)
  }

  lemma ConsistentCounts(g: Generated)
    requires Consistent(g)
    ensures |g.report.acceptedSeeds| + |g.report.rejected| == g.report.attempts
  {
    AcceptedMatchIndices(g.rows);
  }

  // ---- the attempt loop ----

  function Accepted(vs: seq<Verdict>): (n: nat)
    ensures n <= |vs|
  {
    if vs == [] then 0 else Accepted(vs[..|vs| - 1]) + if vs[|vs| - 1].Accept? then 1 else 0
  }

  /** The log of consecutive attempts from `seedStart` on, numbering accepted episodes from `existing`. */
  function RowsOf(seedStart: nat, existing: nat, vs: seq<Verdict>): (rows: seq<Row>)
    ensures |rows| == |vs| && forall i :: 0 <= i < |rows| ==> rows[i].seed == seedStart + i
  {
    if vs == [] then [] else
      var n, before := |vs| - 1, vs[..|vs| - 1];
      RowsOf(seedStart, existing, before) +
        [Row(seedStart + n, if vs[n].Accept? then Some(existing + Accepted(before)) else None)]
  }

  /** Numbering from `existing` continues a log that already holds that many episodes. */
  lemma {:induction false} RowsContinue(seedStart: nat, existing: nat, vs: seq<Verdict>)
    ensures Indices(RowsOf(seedStart, existing, vs)) == Range(existing, Accepted(vs))
  {
    if vs != [] {
      var n, before := |vs| - 1, vs[..|vs| - 1];
      var last := Row(seedStart + n, if vs[n].Accept? then Some(existing + Accepted(before)) else None);
      RowsContinue(seedStart, existing, before);
      LogAppend(RowsOf(seedStart, existing, before), [last]);
      assert [last][1..] == [];
    }
  }

  /** The attempts the loop makes before it has enough: see RunAttempts. */
  function Made(episodes: nat, vs: seq<Verdict>): (n: nat)
    ensures n <= |vs|
  {
    if vs == [] then 0
    else if Accepted(vs[..|vs| - 1]) >= episodes then Made(episodes, vs[..|vs| - 1])
    else |vs|
  }

  /** The loop's own conditions determine the number of attempts. */
  lemma {:induction false} MadeIsWhatTheLoopMakes(episodes: nat, vs: seq<Verdict>, n: nat)
    requires n <= |vs| && Accepted(vs[..n]) <= episodes && (Accepted(vs[..n]) == episodes || n == |vs|)
    requires forall m :: 0 <= m < n ==> Accepted(vs[..m]) < episodes
    ensures n == Made(episodes, vs)
  {
    if vs != [] {
      var before := vs[..|vs| - 1];
      if n < |vs| {
        AcceptedGrows(vs, n, |before|);
        assert forall m :: 0 <= m <= n ==> vs[..m] == before[..m];
        MadeIsWhatTheLoopMakes(episodes, before, n);
      }
    }
  }

  /** The attempts made accept as many as were asked for, or all that the budget allows. */
  lemma {:induction false} MadeAccepts(episodes: nat, vs: seq<Verdict>)
    ensures Accepted(vs[..Made(episodes, vs)]) == if Accepted(vs) < episodes then Accepted(vs) else episodes
  {
    if vs != [] {
      var before, n := vs[..|vs| - 1], Made(episodes, vs);
      MadeAccepts(episodes, before);
      assert vs[..|vs|] == vs;
      assert n < |vs| ==> vs[..n] == before[..n];
    }
  }

  lemma {:induction false} AcceptedGrows(vs: seq<Verdict>, m: nat, n: nat)
    requires m <= n <= |vs|
    ensures Accepted(vs[..m]) <= Accepted(vs[..n])
  {
    if m < n {
      AcceptedGrows(vs, m, n - 1);
      assert vs[..n][..n - 1] == vs[..n - 1];
    }
  }

  function RejectionsOf(seedStart: nat, vs: seq<Verdict>): seq<Rejection> {
    if vs == [] then [] else
      var n := |vs| - 1;
      RejectionsOf(seedStart, vs[..n]) + if vs[n].Accept? then [] else [Rejection(seedStart + n, vs[n].reason)]
  }

  /** Exactly the rejected attempts are listed, with their seeds and reasons. */
  lemma {:induction false} RejectionsAre(seedStart: nat, vs: seq<Verdict>, r: Rejection)
    ensures r in RejectionsOf(seedStart, vs) <==>
      exists n :: 0 <= n < |vs| && vs[n] == Reject(r.reason) && r.seed == seedStart + n
  {
    if vs != [] {
      var k, before := |vs| - 1, vs[..|vs| - 1];
      RejectionsAre(seedStart, before, r);
      if n :| 0 <= n < |before| && before[n] == Reject(r.reason) && r.seed == seedStart + n {
        assert vs[n] == before[n];
      }
      if n :| 0 <= n < |vs| && vs[n] == Reject(r.reason) && r.seed == seedStart + n {
        assert n == k || before[n] == vs[n];
      }
    }
  }

  /** What a finished single process hands back. */
  datatype Attempted = Attempted(rows: seq<Row>, acceptedSeeds: seq<nat>, rejected: seq<Rejection>, attempts: nat)

  /**
   * The loop of `main`: attempts with consecutive seeds until enough were accepted or the budget is spent.
   * `verdicts` holds the outcome of every attempt the budget allows.
   */
  method RunAttempts(episodes: nat, seedStart: nat, existing: nat, verdicts: seq<Verdict>) returns (r: Attempted)
    ensures r.attempts == Made(episodes, verdicts)
    ensures r.rejected == RejectionsOf(seedStart, verdicts[..r.attempts])
    ensures r.rows == RowsOf(seedStart, existing, verdicts[..r.attempts])
    ensures r.acceptedSeeds == AcceptedSeeds(r.rows) && SeedsOf(r.rejected) == RejectedSeeds(r.rows)
    ensures |r.acceptedSeeds| == Accepted(verdicts[..r.attempts]) <= episodes
    ensures |r.acceptedSeeds| == episodes || r.attempts == |verdicts|
    ensures forall n :: 0 <= n < r.attempts ==> Accepted(verdicts[..n]) < episodes
  {
    hide RowsOf, Accepted, AcceptedSeeds, RejectedSeeds, SeedsOf, RejectionsOf, Made;
    var accepted, attempts := 0, 0;
    var rows, seeds, rejected := [], [], [];
    NothingAttempted(seedStart, existing);
    assert verdicts[..0] == [];
    while accepted < episodes && attempts < |verdicts|
      invariant attempts <= |verdicts| && accepted <= episodes
      invariant rows == RowsOf(seedStart, existing, verdicts[..attempts])
      invariant accepted == |seeds| == Accepted(verdicts[..attempts])
      invariant seeds == AcceptedSeeds(rows) && SeedsOf(rejected) == RejectedSeeds(rows)
      invariant rejected == RejectionsOf(seedStart, verdicts[..attempts])
      invariant forall n :: 0 <= n < attempts ==> Accepted(verdicts[..n]) < episodes
    {
      var seed, v := seedStart + attempts, verdicts[attempts];
      var row := Row(seed, if v.Accept? then Some(existing + accepted) else None);
      RowsNext(seedStart, existing, verdicts, attempts);
      LogNext(rows, row);
      rows := rows + [row];
      attempts := attempts + 1;
      if v.Accept? {
        accepted := accepted + 1;
        seeds := seeds + [seed];
      } else {
        RejectionNext(rejected, Rejection(seed, v.reason));
        rejected := rejected + [Rejection(seed, v.reason)];
      }
    }
    MadeIsWhatTheLoopMakes(episodes, verdicts, attempts);
    r := Attempted(rows, seeds, rejected, attempts);
  }

  lemma NothingAttempted(seedStart: nat, existing: nat)
    ensures RejectionsOf(seedStart, []) == []
    ensures RowsOf(seedStart, existing, []) == [] && Accepted([]) == 0
    ensures AcceptedSeeds([]) == RejectedSeeds([]) == SeedsOf([]) == []
  {
  }

  lemma RowsNext(seedStart: nat, existing: nat, vs: seq<Verdict>, n: nat)
    requires n < |vs|
    ensures Accepted(vs[..n + 1]) == Accepted(vs[..n]) + if vs[n].Accept? then 1 else 0
    ensures RejectionsOf(seedStart, vs[..n + 1]) ==
      RejectionsOf(seedStart, vs[..n]) + if vs[n].Accept? then [] else [Rejection(seedStart + n, vs[n].reason)]
    ensures RowsOf(seedStart, existing, vs[..n + 1]) == RowsOf(seedStart, existing, vs[..n]) +
      [Row(seedStart + n, if vs[n].Accept? then Some(existing + Accepted(vs[..n])) else None)]
  {
    assert vs[..n + 1][..n] == vs[..n];
  }

  lemma LogNext(rows: seq<Row>, row: Row)
    ensures AcceptedSeeds(rows + [row]) ==
      AcceptedSeeds(rows) + if row.episodeIndex.Some? then [row.seed] else []
    ensures RejectedSeeds(rows + [row]) ==
      RejectedSeeds(rows) + if row.episodeIndex.None? then [row.seed] else []
  {
    LogAppend(rows, [row]);
    assert [row][1..] == [];
  }

  lemma RejectionNext(rejected: seq<Rejection>, r: Rejection)
    ensures SeedsOf(rejected + [r]) == SeedsOf(rejected) + [r.seed]
  {
    SeedsOfAppend(rejected, [r]);
    assert [r][1..] == [];
  }

  // ---- splitting and merging ----

  /** Episodes of each worker: as even as possible, the first ones taking the remainder. */
  function PerWorker(episodes: nat, workers: nat): (s: seq<nat>)
    requires workers > 0
    ensures |s| == workers
    ensures forall i :: 0 <= i < workers ==> s[i] == episodes / workers + if i < episodes % workers then 1 else 0
  {
    seq(workers, i => episodes / workers + if i < episodes % workers then 1 else 0)
  }

  function Total(s: seq<nat>): nat {
    if s == [] then 0 else Total(s[..|s| - 1]) + s[|s| - 1]
  }

  lemma {:induction false} PartialSum(s: seq<nat>, n: nat, base: nat, extra: nat)
    requires n <= |s| && forall i :: 0 <= i < |s| ==> s[i] == base + if i < extra then 1 else 0
    ensures Total(s[..n]) == n * base + if n < extra then n else extra
  {
    if n == 0 {
      assert s[..0] == [];
    } else {
      PartialSum(s, n - 1, base, extra);
      assert s[..n][..n - 1] == s[..n - 1];
    }
  }

  lemma Quotient(a: nat, n: nat) returns (q: nat, m: nat)
    requires n > 0
    ensures q == a / n && m == a % n < n && n * q + m == a && (n <= a ==> q >= 1)
  {
    q, m := a / n, a % n;
  }

  /** The split loses nothing, is even to within one episode, and leaves no worker idle. */
  lemma SplitIsFair(episodes: nat, workers: nat)
    requires 0 < workers
    ensures var s := PerWorker(episodes, workers);
      && Total(s) == episodes
      && (forall i, j :: 0 <= i < j < |s| ==> s[j] <= s[i] <= s[j] + 1)
      && (workers <= episodes ==> forall i :: 0 <= i < |s| ==> s[i] >= 1)
  {
    var s := PerWorker(episodes, workers);
    var base, extra := Quotient(episodes, workers);
    assert forall i :: 0 <= i < |s| ==> s[i] == base + if i < extra then 1 else 0;
    hide PerWorker, Total;
    PartialSum(s, workers, base, extra);
    assert s[..workers] == s;
  }

  /** Attempts each worker may make: its share of the budget rounded up, but at least its episodes. */
  function WorkerAttempts(episodes: nat, maxAttempts: nat, workers: nat): nat
    requires workers > 0
  {
    var share := (maxAttempts + workers - 1) / workers;
    if share > episodes then share else episodes
  }

  /** It is the least number that is enough for both: for the episodes, and for the budget in all workers together. */
  lemma WorkerAttemptsIsLeast(episodes: nat, maxAttempts: nat, workers: nat)
    requires workers > 0
    ensures var r := WorkerAttempts(episodes, maxAttempts, workers);
      r >= episodes && workers * r >= maxAttempts && (r == episodes || workers * (r - 1) < maxAttempts)
  {
    var q, m := Quotient(maxAttempts + workers - 1, workers);
    if q < episodes {
      Grows(workers, q, episodes);
    }
  }

  lemma Grows(n: nat, a: nat, b: nat)
    requires a <= b
    ensures n * a <= n * b
  {
  }

  function Shift(rows: seq<Row>, offset: nat): (r: seq<Row>)
    ensures |r| == |rows|
    ensures forall i :: 0 <= i < |r| ==> r[i] == ShiftRow(rows[i], offset)
  {
    if rows == [] then [] else [ShiftRow(rows[0], offset)] + Shift(rows[1..], offset)
  }

  function ShiftRow(row: Row, offset: nat): Row {
    if row.episodeIndex.Some? then row.(episodeIndex := Some(row.episodeIndex.value + offset)) else row
  }

  lemma {:induction false} ShiftKeepsSeeds(rows: seq<Row>, offset: nat)
    ensures AcceptedSeeds(Shift(rows, offset)) == AcceptedSeeds(rows)
    ensures RejectedSeeds(Shift(rows, offset)) == RejectedSeeds(rows)
  {
    if rows != [] {
      ShiftKeepsSeeds(rows[1..], offset);
      assert Shift(rows, offset)[1..] == Shift(rows[1..], offset);
    }
  }

  lemma {:induction false} ShiftMovesIndices(rows: seq<Row>, offset: nat)
    ensures |Indices(Shift(rows, offset))| == |Indices(rows)|
    ensures forall i :: 0 <= i < |Indices(rows)| ==> Indices(Shift(rows, offset))[i] == Indices(rows)[i] + offset
  {
    if rows != [] {
      ShiftMovesIndices(rows[1..], offset);
      assert Shift(rows, offset)[1..] == Shift(rows[1..], offset);
    }
  }

  function Reports(shards: seq<Generated>): (rs: seq<Report>)
    ensures |rs| == |shards| && forall i :: 0 <= i < |rs| ==> rs[i] == shards[i].report
  {
    seq(|shards|, i requires 0 <= i < |shards| => shards[i].report)
  }

  function AllAccepted(rs: seq<Report>): seq<nat> {
    if rs == [] then [] else AllAccepted(rs[..|rs| - 1]) + rs[|rs| - 1].acceptedSeeds
  }

  function AllRejected(rs: seq<Report>): seq<Rejection> {
    if rs == [] then [] else AllRejected(rs[..|rs| - 1]) + rs[|rs| - 1].rejected
  }

  function AllAttempts(rs: seq<Report>): nat {
    if rs == [] then 0 else AllAttempts(rs[..|rs| - 1]) + rs[|rs| - 1].attempts
  }

  function AllRequested(rs: seq<Report>): nat {
    if rs == [] then 0 else AllRequested(rs[..|rs| - 1]) + rs[|rs| - 1].requested
  }

  /** The merged log: existing rows, then each shard's rows with their indices moved behind everything before. */
  function MergedRows(existing: seq<Row>, offset: nat, shards: seq<Generated>): seq<Row> {
    if shards == [] then existing else
      var before := shards[..|shards| - 1];
      MergedRows(existing, offset, before) +
        Shift(shards[|shards| - 1].rows, offset + |AllAccepted(Reports(before))|)
  }

  lemma MergedNone(existing: seq<Row>, episodes: nat, shards: seq<Generated>)
    ensures MergedRows(existing, episodes, shards[..0]) == existing && AllAccepted(Reports(shards[..0])) == []
  {
  }

  lemma MergedNext(existing: seq<Row>, episodes: nat, shards: seq<Generated>, i: nat)
    requires i < |shards|
    ensures MergedRows(existing, episodes, shards[..i + 1]) ==
      MergedRows(existing, episodes, shards[..i]) +
        Shift(shards[i].rows, episodes + |AllAccepted(Reports(shards[..i]))|)
    ensures AllAccepted(Reports(shards[..i + 1])) ==
      AllAccepted(Reports(shards[..i])) + shards[i].report.acceptedSeeds
  {
    assert shards[..i + 1][..i] == shards[..i];
    ReportsNext(shards[..i + 1]);
    hide AllAccepted, Reports, Shift;
  }

  /** The merge loop of `run_sharded`; returns the log and the number of episodes it now describes. */
  method MergeLogs(existing: seq<Row>, episodes: nat, shards: seq<Generated>) returns (rows: seq<Row>, offset: nat)
    ensures rows == MergedRows(existing, episodes, shards)
    ensures offset == episodes + |AllAccepted(Reports(shards))|
  {
    rows, offset := existing, episodes;
    hide MergedRows, AllAccepted, Reports, Shift;
    MergedNone(existing, episodes, shards);
    for i := 0 to |shards|
      invariant rows == MergedRows(existing, episodes, shards[..i])
      invariant offset == episodes + |AllAccepted(Reports(shards[..i]))|
    {
      MergedNext(existing, episodes, shards, i);
      var moved := ShiftLoop(shards[i].rows, offset);
      rows := rows + moved;
      offset := offset + |shards[i].report.acceptedSeeds|;
    }
    assert shards[..|shards|] == shards;
  }

  method ShiftLoop(rows: seq<Row>, offset: nat) returns (r: seq<Row>)
    ensures r == Shift(rows, offset)
  {
    r := [];
    for i := 0 to |rows|
      invariant r == Shift(rows, offset)[..i]
    {
      var row := rows[i];
      if row.episodeIndex.Some? {
        row := row.(episodeIndex := Some(row.episodeIndex.value + offset));
      }
      r := r + [row];
    }
  }

  /** A log and the seed lists that go with it. */
  predicate Aligned(rows: seq<Row>, accepted: seq<nat>, rejected: seq<Rejection>, attempts: nat) {
    && Indices(rows) == Range(0, |accepted|)
    && accepted == AcceptedSeeds(rows)
    && SeedsOf(rejected) == RejectedSeeds(rows)
    && attempts == |rows|
  }

  /** Appending a shard, moved behind what is there, keeps log and lists aligned. */
  lemma AppendShard(rows: seq<Row>, accepted: seq<nat>, rejected: seq<Rejection>, attempts: nat, s: Generated)
    requires Aligned(rows, accepted, rejected, attempts) && Consistent(s)
    ensures Aligned(rows + Shift(s.rows, |accepted|), accepted + s.report.acceptedSeeds,
                    rejected + s.report.rejected, attempts + s.report.attempts)
  {
    hide Indices, AcceptedSeeds, RejectedSeeds, SeedsOf, Shift;
    ShiftKeepsSeeds(s.rows, |accepted|);
    ShiftMovesIndices(s.rows, |accepted|);
    LogAppend(rows, Shift(s.rows, |accepted|));
    SeedsOfAppend(rejected, s.report.rejected);
  }

  lemma ReportsNext(shards: seq<Generated>)
    requires shards != []
    ensures var rs, before := Reports(shards), Reports(shards[..|shards| - 1]);
      && rs[..|rs| - 1] == before && rs[|rs| - 1] == shards[|shards| - 1].report
      && AllAccepted(rs) == AllAccepted(before) + shards[|shards| - 1].report.acceptedSeeds
      && AllRejected(rs) == AllRejected(before) + shards[|shards| - 1].report.rejected
      && AllAttempts(rs) == AllAttempts(before) + shards[|shards| - 1].report.attempts
  {
    assert Reports(shards)[..|shards| - 1] == Reports(shards[..|shards| - 1]);
  }

  /** Merging consistent shards behind a consistent log keeps the numbering gapless and the seed lists aligned. */
  lemma {:induction false} MergeKeepsNumbering(
      rows: seq<Row>, accepted: seq<nat>, rejected: seq<Rejection>, attempts: nat, shards: seq<Generated>)
    requires Aligned(rows, accepted, rejected, attempts)
    requires forall i :: 0 <= i < |shards| ==> Consistent(shards[i])
    ensures var rs := Reports(shards);
      Aligned(MergedRows(rows, |accepted|, shards), accepted + AllAccepted(rs), rejected + AllRejected(rs),
              attempts + AllAttempts(rs))
  {
    hide Aligned, Consistent, Shift;
    if shards == [] {
      assert accepted + [] == accepted && rejected + [] == rejected;
    } else {
      var before, s := shards[..|shards| - 1], shards[|shards| - 1];
      var rs := Reports(before);
      MergeKeepsNumbering(rows, accepted, rejected, attempts, before);
      AppendShard(MergedRows(rows, |accepted|, before), accepted + AllAccepted(rs),
                  rejected + AllRejected(rs), attempts + AllAttempts(rs), s);
      ReportsNext(shards);
      assert accepted + AllAccepted(Reports(shards)) == accepted + AllAccepted(rs) + s.report.acceptedSeeds;
      assert rejected + AllRejected(Reports(shards)) == rejected + AllRejected(rs) + s.report.rejected;
    }
  }

  // ---- folding reports ----

  predicate SameMapping(rs: seq<Report>) {
    rs != [] && forall i :: 0 <= i < |rs| ==> rs[i].jointMapping == rs[0].jointMapping
  }

  /** `combine_reports`: refused unless all reports name one joint mapping. */
  function Combine(rs: seq<Report>): Option<Report> {
    if !SameMapping(rs) then None
    else
      var accepted, attempts := AllAccepted(rs), AllAttempts(rs);
      Some(Report(rs[0].jointMapping, AllRequested(rs), attempts, accepted, AllRejected(rs),
                  Rate(|accepted|, attempts), rs[|rs| - 1].rest))
  }

  lemma {:induction false} AllAcceptedAppend(a: seq<Report>, b: seq<Report>)
    ensures AllAccepted(a + b) == AllAccepted(a) + AllAccepted(b)
    decreases |b|
  {
    if b == [] {
      assert a + b == a;
    } else {
      assert (a + b)[..|a + b| - 1] == a + b[..|b| - 1];
      AllAcceptedAppend(a, b[..|b| - 1]);
    }
  }

  lemma {:induction false} AllRejectedAppend(a: seq<Report>, b: seq<Report>)
    ensures AllRejected(a + b) == AllRejected(a) + AllRejected(b)
    decreases |b|
  {
    if b == [] {
      assert a + b == a;
    } else {
      assert (a + b)[..|a + b| - 1] == a + b[..|b| - 1];
      AllRejectedAppend(a, b[..|b| - 1]);
    }
  }

  lemma {:induction false} AllAttemptsAppend(a: seq<Report>, b: seq<Report>)
    ensures AllAttempts(a + b) == AllAttempts(a) + AllAttempts(b)
    decreases |b|
  {
    if b == [] {
      assert a + b == a;
    } else {
      assert (a + b)[..|a + b| - 1] == a + b[..|b| - 1];
      AllAttemptsAppend(a, b[..|b| - 1]);
    }
  }

  lemma {:induction false} AllRequestedAppend(a: seq<Report>, b: seq<Report>)
    ensures AllRequested(a + b) == AllRequested(a) + AllRequested(b)
    decreases |b|
  {
    if b == [] {
      assert a + b == a;
    } else {
      assert (a + b)[..|a + b| - 1] == a + b[..|b| - 1];
      AllRequestedAppend(a, b[..|b| - 1]);
    }
  }

  lemma AllAppend(a: seq<Report>, b: seq<Report>)
    ensures AllAccepted(a + b) == AllAccepted(a) + AllAccepted(b)
    ensures AllRejected(a + b) == AllRejected(a) + AllRejected(b)
    ensures AllAttempts(a + b) == AllAttempts(a) + AllAttempts(b)
    ensures AllRequested(a + b) == AllRequested(a) + AllRequested(b)
  {
    AllAcceptedAppend(a, b);
    AllRejectedAppend(a, b);
    AllAttemptsAppend(a, b);
    AllRequestedAppend(a, b);
  }

  lemma AllOfTwo(a: Report, b: Report)
    ensures AllAccepted([a, b]) == a.acceptedSeeds + b.acceptedSeeds && AllRejected([a, b]) == a.rejected + b.rejected
    ensures AllAttempts([a, b]) == a.attempts + b.attempts && AllRequested([a, b]) == a.requested + b.requested
  {
    AllAppend([a], [b]);
    AllOfOne(a);
    AllOfOne(b);
    assert [a] + [b] == [a, b];
  }

  lemma AllOfOne(r: Report)
    ensures AllAccepted([r]) == r.acceptedSeeds && AllRejected([r]) == r.rejected
    ensures AllAttempts([r]) == r.attempts && AllRequested([r]) == r.requested
  {
    assert [r][..0] == [];
  }

  /**
   * Folding is associative: combining two groups and then the two results is combining everything at once, and it
   * is refused in exactly the same cases. So how shards and resumed runs are grouped for folding never matters.
   */
  lemma CombineIsAssociative(a: seq<Report>, b: seq<Report>)
    requires a != [] && b != []
    ensures Combine(a + b).Some? <==>
      Combine(a).Some? && Combine(b).Some? && Combine([Combine(a).value, Combine(b).value]).Some?
    ensures Combine(a + b).Some? ==> Combine(a + b) == Combine([Combine(a).value, Combine(b).value])
  {
    hide AllAccepted, AllRejected, AllAttempts, AllRequested;
    MappingsSplit(a, b);
    if Combine(a).Some? && Combine(b).Some? {
      var ra, rb := Combine(a).value, Combine(b).value;
      AllAppend(a, b);
      AllOfTwo(ra, rb);
      assert [ra, rb][0] == ra && [ra, rb][1] == rb;
      assert SameMapping([ra, rb]) <==> ra.jointMapping == rb.jointMapping;
    }
  }

  /** Two reports fold so; with associativity that says it for any number of them. */
  lemma CombineOfTwo(a: Report, b: Report)
    ensures Combine([a, b]).Some? <==> a.jointMapping == b.jointMapping
    ensures a.jointMapping == b.jointMapping ==>
      var r := Combine([a, b]).value;
      && r.jointMapping == a.jointMapping && r.requested == a.requested + b.requested
      && r.attempts == a.attempts + b.attempts && r.acceptedSeeds == a.acceptedSeeds + b.acceptedSeeds
      && r.rejected == a.rejected + b.rejected && r.rest == b.rest
      && r.acceptanceRate * (if r.attempts == 0 then 1 else r.attempts) as real == |r.acceptedSeeds| as real
  {
    AllOfTwo(a, b);
    RateIs(|a.acceptedSeeds + b.acceptedSeeds|, a.attempts + b.attempts);
    assert [a, b][0] == a && [a, b][1] == b;
    hide AllAccepted, AllRejected, AllAttempts, AllRequested, Rate;
  }

  lemma RateIs(accepted: nat, attempts: nat)
    ensures Rate(accepted, attempts) * (if attempts == 0 then 1 else attempts) as real == accepted as real
  {
  }

  lemma MappingsSplit(a: seq<Report>, b: seq<Report>)
    requires a != [] && b != []
    ensures SameMapping(a + b) <==> SameMapping(a) && SameMapping(b) && a[0].jointMapping == b[0].jointMapping
  {
    var all := a + b;
    if SameMapping(all) {
      forall i | 0 <= i < |a| ensures a[i].jointMapping == a[0].jointMapping {
        assert all[i] == a[i] && all[0] == a[0];
      }
      forall i | 0 <= i < |b| ensures b[i].jointMapping == b[0].jointMapping == a[0].jointMapping {
        assert all[|a| + i] == b[i] && all[|a|] == b[0];
      }
    }
  }

  predicate Balanced(r: Report) {
    |r.acceptedSeeds| + |r.rejected| == r.attempts
  }

  /** Combining reports whose attempts are all accounted for gives such a report again. */
  lemma {:induction false} CombineKeepsBalance(rs: seq<Report>)
    requires forall i :: 0 <= i < |rs| ==> Balanced(rs[i])
    ensures |AllAccepted(rs)| + |AllRejected(rs)| == AllAttempts(rs)
    ensures Combine(rs).Some? ==> Balanced(Combine(rs).value)
  {
    if rs != [] {
      CombineKeepsBalance(rs[..|rs| - 1]);
      assert Balanced(rs[|rs| - 1]);
    }
  }

  // ---- a whole sharded run ----

  /** The end of `run_sharded`: log and report of the dataset that replaces (or creates) `root`. */
  function MergeShards(previous: Option<Generated>, shards: seq<Generated>, episodes: nat): Option<Generated> {
    var merged := Combine(Reports(shards));
    if merged.None? then None
    else
      var own := merged.value.(requested := episodes);
      match previous
      case None => Some(Generated(MergedRows([], 0, shards), own))
      case Some(g) =>
        var all := Combine([g.report, own]);
        if all.None? then None
        else Some(Generated(MergedRows(g.rows, |g.report.acceptedSeeds|, shards), all.value))
  }

  /** Whenever the merge goes through, the result is again a consistent dataset holding everything there was. */
  lemma MergeShardsIsConsistent(previous: Option<Generated>, shards: seq<Generated>, episodes: nat)
    requires previous.Some? ==> Consistent(previous.value)
    requires forall i :: 0 <= i < |shards| ==> Consistent(shards[i])
    ensures var r := MergeShards(previous, shards, episodes);
      r.Some? ==>
        && Consistent(r.value)
        && (previous.Some? ==> previous.value.rows <= r.value.rows)
        && r.value.report.acceptedSeeds ==
          (if previous.Some? then previous.value.report.acceptedSeeds else []) + AllAccepted(Reports(shards))
  {
    hide AllAccepted, AllRejected, AllAttempts, AllRequested, MergedRows;
    hide Indices, AcceptedSeeds, RejectedSeeds, Reports;
    if MergeShards(previous, shards, episodes).Some? {
      var rs := Reports(shards);
      if previous.Some? {
        var g, own := previous.value, Combine(rs).value.(requested := episodes);
        MergeKeepsNumbering(g.rows, g.report.acceptedSeeds, g.report.rejected, g.report.attempts, shards);
        MergeExtends(g.rows, |g.report.acceptedSeeds|, shards);
        AllOfTwo(g.report, own);
      } else {
        EmptyLogAligned();
        MergeKeepsNumbering([], [], [], 0, shards);
        assert [] + AllAccepted(rs) == AllAccepted(rs) && [] + AllRejected(rs) == AllRejected(rs);
      }
    }
  }

  /** The report of the merged dataset: the request is that of this run and of those before. */
  lemma MergedReport(previous: Option<Generated>, shards: seq<Generated>, episodes: nat)
    requires shards != [] && MergeShards(previous, shards, episodes).Some?
    ensures var r, rs := MergeShards(previous, shards, episodes).value.report, Reports(shards);
      && r.requested == (if previous.Some? then previous.value.report.requested else 0) + episodes
      && r.attempts == (if previous.Some? then previous.value.report.attempts else 0) + AllAttempts(rs)
      && r.rejected == (if previous.Some? then previous.value.report.rejected else []) + AllRejected(rs)
      && r.rest == shards[|shards| - 1].report.rest && r.jointMapping == shards[0].report.jointMapping
  {
    var rs := Reports(shards);
    if previous.Some? {
      AllOfTwo(previous.value.report, Combine(rs).value.(requested := episodes));
    }
    hide AllAccepted, AllRejected, AllAttempts, AllRequested, MergedRows, Rate;
  }

  lemma EmptyLogAligned()
    ensures Aligned([], [], [], 0)
  {
  }

  lemma {:induction false} MergeExtends(existing: seq<Row>, offset: nat, shards: seq<Generated>)
    ensures existing <= MergedRows(existing, offset, shards)
  {
    if shards != [] {
      MergeExtends(existing, offset, shards[..|shards| - 1]);
    }
  }
}
