/** Histories of generation runs on one dataset root, from the first fresh run on. */
module GenerationHistory {
  import opened Common
  import opened Dataset
  import opened SeedPlan

  /**
   * One invocation. It is a fresh run if there is no dataset yet and a resumed one otherwise. `verdicts` are the
   * outcomes of the attempts the budget allows, for the process or for each shard.
   */
  datatype Job =
    | Single(split: Split, mapping: string, seedStart: Option<nat>, episodes: nat, verdicts: seq<Verdict>)
    | Sharded(split: Split, mapping: string, seedStart: Option<nat>, episodes: nat, maxAttempts: nat, workers: nat,
              shardVerdicts: seq<seq<Verdict>>)
  {
    /** Shards actually launched. */
    function Launched(): nat {
      if Sharded? then (if workers < episodes then workers else episodes) else 1
    }

    function ShardEpisodes(): (s: seq<nat>)
      requires Sharded? && Launched() > 0
      ensures |s| == Launched()
    {
      PerWorker(episodes, Launched())
    }

    function ShardAttempts(): (s: seq<nat>)
      requires Sharded? && Launched() > 0
      ensures |s| == Launched()
    {
      var n := ShardEpisodes();
      seq(Launched(), i requires 0 <= i < Launched() => WorkerAttempts(n[i], maxAttempts, Launched()))
    }

    /** The verdicts cover exactly the attempts that may be made. */
    predicate WellFormed() {
      Sharded? && Launched() > 0 ==>
        && |shardVerdicts| == Launched()
        && forall i :: 0 <= i < Launched() ==> |shardVerdicts[i]| == ShardAttempts()[i]
    }

    function Budget(): nat {
      if Single? then |verdicts| else maxAttempts
    }
  }

  /** The dataset after a run, and the seeds the run attempted. */
  datatype Outcome = Outcome(dataset: Option<Generated>, attempted: seq<nat>)

  function Logged(d: Option<Generated>): seq<nat> {
    if d.Some? then LogSeeds(d.value.rows) else []
  }

  /** `--seed-start`, or its default: a single process continues after the log, everything else at the split. */
  function FirstSeed(d: Option<Generated>, j: Job): nat {
    if j.seedStart.Some? then j.seedStart.value
    else if d.Some? && j.Single? then NextSeed(Logged(d), SplitStart(j.split))
    else SplitStart(j.split)
  }

  /** The checks before anything is attempted. */
  predicate Launches(d: Option<Generated>, j: Job) {
    && 0 < j.episodes <= j.Budget() && j.Launched() > 0
    && (d.Some? ==> d.value.report.jointMapping == j.mapping)
    && ValidRange(j.split, FirstSeed(d, j), j.Budget())
    && (j.Sharded? ==> PlanFits(Logged(d), FirstSeed(d, j), j.ShardAttempts(), j.split))
  }

  lemma ShardsMayAttempt(j: Job)
    requires j.Sharded? && 0 < j.Launched() && 0 < j.episodes
    ensures forall i :: 0 <= i < j.Launched() ==> j.ShardAttempts()[i] > 0
  {
    SplitIsFair(j.episodes, j.Launched());
    hide Total, PerWorker;
  }

  /** A run is launched exactly if its request is sound and every seed it may attempt is where it should be. */
  lemma LaunchesIff(d: Option<Generated>, j: Job)
    ensures Launches(d, j) <==>
      && 0 < j.episodes <= j.Budget() && (j.Sharded? ==> j.workers > 0)
      && (d.Some? ==> d.value.report.jointMapping == j.mapping)
      && (forall x :: FirstSeed(d, j) <= x < FirstSeed(d, j) + j.Budget() ==> InSplit(x, j.split))
      && (j.Sharded? && j.Launched() > 0 ==>
        forall i :: 0 <= i < j.Launched() ==>
          StaysInside(Logged(d), FirstSeed(d, j) + i * 100_000, j.ShardAttempts()[i], j.split))
  {
    hide ValidRange, PlanFits, StaysInside, Logged, FirstSeed, PerWorker;
    if 0 < j.episodes <= j.Budget() && j.Launched() > 0 {
      ValidRangeIff(j.split, FirstSeed(d, j), j.Budget());
      if j.Sharded? {
        ShardsMayAttempt(j);
        PlanFitsIff(Logged(d), FirstSeed(d, j), j.ShardAttempts(), j.split);
      }
    }
  }

  /** The fresh datasets of the first `n` shards. */
  function Shards(j: Job, starts: seq<nat>, n: nat): (s: seq<Generated>)
    requires j.Sharded? && j.Launched() > 0 && j.WellFormed() && n <= j.Launched() == |starts|
    ensures |s| == n
  {
    if n == 0 then [] else
      Shards(j, starts, n - 1) + [OwnRun(j.mapping, starts[n - 1], 0, j.ShardEpisodes()[n - 1], j.shardVerdicts[n - 1])]
  }

  /** Every worker accepted what it was asked for; otherwise the shards are kept and nothing is merged. */
  predicate AllComplete(j: Job, shards: seq<Generated>)
    requires j.Sharded? && j.Launched() > 0 && |shards| == j.Launched()
  {
    forall i :: 0 <= i < |shards| ==> |shards[i].report.acceptedSeeds| == j.ShardEpisodes()[i]
  }

  function Counts(shards: seq<Generated>): (c: seq<nat>)
    ensures |c| == |shards| && forall i :: 0 <= i < |c| ==> c[i] == |shards[i].rows|
  {
    seq(|shards|, i requires 0 <= i < |shards| => |shards[i].rows|)
  }

  function Execute(d: Option<Generated>, j: Job): Outcome
    requires j.WellFormed()
  {
    if !Launches(d, j) then Outcome(d, [])
    else
      var first := FirstSeed(d, j);
      match j
      case Single(_, mapping, _, episodes, verdicts) => (
        match d
        case None =>
          var own := OwnRun(mapping, first, 0, episodes, verdicts);
          Outcome(Some(own), LogSeeds(own.rows))
        case Some(g) =>
          var own := OwnRun(mapping, first, |g.report.acceptedSeeds|, episodes, verdicts);
          var report := Combine([g.report, own.report]);
          Outcome(if report.Some? then Some(Generated(g.rows + own.rows, report.value)) else d, LogSeeds(own.rows)))
      case Sharded(_, _, _, episodes, _, _, _) =>
        var starts := ShardStarts(Logged(d), first, j.Launched());
        var shards := Shards(j, starts, j.Launched());
        Outcome(if AllComplete(j, shards) then MergeShards(d, shards, episodes) else d,
                ShardSeeds(starts, Counts(shards)))
  }

  /**
   * As many shards as workers, but no more than episodes. Their shares add up to the request, and each may attempt
   * the least number that is enough for its share and for all together to use the budget.
   */
  lemma ShardsAreSized(j: Job, i: nat)
    requires j.Sharded? && i < j.Launched()
    ensures j.Launched() <= j.workers && j.Launched() <= j.episodes
    ensures j.Launched() == j.workers || j.Launched() == j.episodes
    ensures Total(j.ShardEpisodes()) == j.episodes
    ensures var n, a := j.ShardEpisodes()[i], j.ShardAttempts()[i];
      a >= n >= 1 && j.Launched() * a >= j.maxAttempts && (a == n || j.Launched() * (a - 1) < j.maxAttempts)
  {
    SplitIsFair(j.episodes, j.Launched());
    WorkerAttemptsIsLeast(j.ShardEpisodes()[i], j.maxAttempts, j.Launched());
    hide PerWorker, WorkerAttempts, Total;
  }

  // ---- the first run on a root ----

  /** Where the seeds of a fresh run begin by default. */
  function Base(split: Split): nat {
    if split == Train then 0 else 1_000_000
  }

  /** What a request must fulfil: in the train split the seeds end at one million; a shard has 100,000 of them. */
  predicate Sensible(j: Job) {
    && 0 < j.episodes <= j.Budget() && (j.split == Train ==> j.Budget() <= 1_000_000)
    && (j.Sharded? ==>
      && j.workers > 0
      && forall i :: 0 <= i < j.Launched() ==>
        && j.ShardAttempts()[i] <= 100_000
        && (j.split == Train ==> i * 100_000 + j.ShardAttempts()[i] <= 1_000_000))
  }

  /**
   * Without `--seed-start` seeds begin at the split's base; a single process that resumes begins behind everything
   * logged, and nowhere later than it must.
   */
  lemma DefaultStart(d: Option<Generated>, j: Job)
    requires j.seedStart.None?
    ensures var first := FirstSeed(d, j);
      && (d.None? || j.Sharded? ==> first == Base(j.split))
      && (d.Some? && j.Single? ==>
        && first >= Base(j.split) && (forall x :: x in Logged(d) ==> x < first)
        && (first == Base(j.split) || first - 1 in Logged(d)))
  {
  }

  lemma FreshShardStaysInside(base: nat, attempts: nat, split: Split)
    requires attempts > 0 && (split == Eval ==> base >= 1_000_000)
    ensures ShardStart([], base) == base
    ensures StaysInside([], base, attempts, split) <==>
      attempts <= 100_000 && (split == Train ==> base + attempts <= 1_000_000)
  {
    ShardFitsIff([], base, attempts, split);
  }

  /** A fresh run with the default start is launched exactly if its request is sensible. */
  lemma FreshRunLaunchesIff(j: Job)
    requires j.seedStart.None?
    ensures Launches(None, j) <==> Sensible(j)
  {
    LaunchesIff(None, j);
    assert FirstSeed(None, j) == Base(j.split);
    if 0 < j.episodes <= j.Budget() && j.Launched() > 0 {
      ValidRangeIff(j.split, Base(j.split), j.Budget());
      if j.Sharded? {
        ShardsMayAttempt(j);
        forall i | 0 <= i < j.Launched()
          ensures StaysInside([], Base(j.split) + i * 100_000, j.ShardAttempts()[i], j.split) <==>
            && j.ShardAttempts()[i] <= 100_000
            && (j.split == Train ==> i * 100_000 + j.ShardAttempts()[i] <= 1_000_000)
        {
          FreshShardStaysInside(Base(j.split) + i * 100_000, j.ShardAttempts()[i], j.split);
        }
      }
    }
    hide StaysInside, PlanFits, Launches;
  }

  /** A log whose numbering and report agree and in which no seed occurs twice. */
  predicate Good(d: Option<Generated>) {
    d.Some? ==> Consistent(d.value) && Distinct(LogSeeds(d.value.rows))
  }

  /** A single process that resumes uses the default seed start. */
  predicate Admissible(d: Option<Generated>, j: Job) {
    j.WellFormed() && (d.Some? && j.Single? ==> j.seedStart.None?)
  }

  /** What every run guarantees about its seeds and leaves behind. */
  predicate Sound(d: Option<Generated>, j: Job, o: Outcome) {
    && Good(o.dataset)
    && Distinct(o.attempted) && Disjoint(o.attempted, Logged(d))
    && (forall x :: x in o.attempted ==> InSplit(x, j.split))
    && (o.dataset == d || Logged(o.dataset) == Logged(d) + o.attempted)
    && (d.Some? ==> o.dataset.Some? && d.value.rows <= o.dataset.value.rows)
  }

  lemma RangeIsFresh(logged: seq<nat>, start: nat, n: nat, budget: nat, split: Split)
    requires ValidRange(split, start, budget) && n <= budget && forall s :: s in logged ==> s < start
    ensures Distinct(Range(start, n)) && Disjoint(Range(start, n), logged)
    ensures forall x :: x in Range(start, n) ==> InSplit(x, split)
  {
  }

  lemma LogSeedsAppend(a: seq<Row>, b: seq<Row>)
    ensures LogSeeds(a + b) == LogSeeds(a) + LogSeeds(b)
  {
  }

  lemma FreshIsSound(j: Job)
    requires Admissible(None, j) && j.Single? && Launches(None, j)
    ensures Sound(None, j, Execute(None, j))
  {
    var first, n := FirstSeed(None, j), Made(j.episodes, j.verdicts);
    OwnRunIsAligned(j.mapping, first, 0, j.episodes, j.verdicts);
    hide OwnRun, Consistent, ValidRange;
    RangeIsFresh(Logged(None), first, n, j.Budget(), j.split);
  }

  /** The report and the log of a run that goes on from `g`, put behind what was there, are consistent again. */
  lemma OwnRunContinues(g: Generated, own: Generated)
    requires Consistent(g) && Indices(own.rows) == Range(|g.report.acceptedSeeds|, |own.report.acceptedSeeds|)
    requires own.report.acceptedSeeds == AcceptedSeeds(own.rows)
    requires SeedsOf(own.report.rejected) == RejectedSeeds(own.rows) && own.report.attempts == |own.rows|
    ensures var report := Combine([g.report, own.report]);
      report.Some? ==> Consistent(Generated(g.rows + own.rows, report.value))
  {
    AllOfTwo(g.report, own.report);
    LogAppend(g.rows, own.rows);
    SeedsOfAppend(g.report.rejected, own.report.rejected);
    hide AllAccepted, AllRejected, AllAttempts, AllRequested, Indices, AcceptedSeeds, RejectedSeeds, SeedsOf, Rate;
  }

  lemma ResumedIsSound(g: Generated, j: Job)
    requires Good(Some(g)) && Admissible(Some(g), j) && j.Single? && Launches(Some(g), j)
    ensures Sound(Some(g), j, Execute(Some(g), j))
  {
    var d := Some(g);
    var first, n, existing := FirstSeed(d, j), Made(j.episodes, j.verdicts), |g.report.acceptedSeeds|;
    var own := OwnRun(j.mapping, first, existing, j.episodes, j.verdicts);
    OwnRunIsAligned(j.mapping, first, existing, j.episodes, j.verdicts);
    assert own.report.acceptedSeeds == AcceptedSeeds(own.rows);
    OwnRunContinues(g, own);
    hide OwnRun, Consistent, ValidRange, Combine;
    RangeIsFresh(Logged(d), first, n, j.Budget(), j.split);
    LogSeedsAppend(g.rows, own.rows);
    DistinctAppend(LogSeeds(g.rows), LogSeeds(own.rows));
  }

  lemma SingleIsSound(d: Option<Generated>, j: Job)
    requires Good(d) && Admissible(d, j) && j.Single? && Launches(d, j)
    ensures Sound(d, j, Execute(d, j))
  {
    hide *;
    match d
    case None => FreshIsSound(j);
    case Some(g) => ResumedIsSound(g, j);
  }

  predicate ShardOk(j: Job, start: nat, i: nat, s: Generated)
    requires j.Sharded? && i < j.Launched()
  {
    && Consistent(s) && s.report.jointMapping == j.mapping
    && LogSeeds(s.rows) == Range(start, |s.rows|) && |s.rows| <= j.ShardAttempts()[i]
  }

  lemma OneShardIsOk(j: Job, start: nat, i: nat)
    requires j.Sharded? && j.Launched() > 0 && j.WellFormed() && i < j.Launched()
    ensures ShardOk(j, start, i, OwnRun(j.mapping, start, 0, j.ShardEpisodes()[i], j.shardVerdicts[i]))
  {
    OwnRunIsAligned(j.mapping, start, 0, j.ShardEpisodes()[i], j.shardVerdicts[i]);
    hide Consistent, PerWorker;
  }

  lemma {:induction false} ShardsAreOk(j: Job, starts: seq<nat>, n: nat)
    requires j.Sharded? && j.Launched() > 0 && j.WellFormed() && n <= j.Launched() == |starts|
    ensures forall i :: 0 <= i < n ==> ShardOk(j, starts[i], i, Shards(j, starts, n)[i])
  {
    if n > 0 {
      ShardsAreOk(j, starts, n - 1);
      OneShardIsOk(j, starts[n - 1], n - 1);
      hide OwnRun, ShardOk;
    }
  }

  lemma LogSeedsShift(rows: seq<Row>, offset: nat)
    ensures LogSeeds(Shift(rows, offset)) == LogSeeds(rows)
  {
  }

  /** The merged log holds the old seeds, then those of the shards in order. */
  lemma {:induction false} MergedSeeds(existing: seq<Row>, offset: nat, starts: seq<nat>, shards: seq<Generated>)
    requires |shards| <= |starts|
    requires forall i :: 0 <= i < |shards| ==> LogSeeds(shards[i].rows) == Range(starts[i], |shards[i].rows|)
    ensures LogSeeds(MergedRows(existing, offset, shards)) == LogSeeds(existing) + ShardSeeds(starts, Counts(shards))
  {
    if shards != [] {
      var k := |shards| - 1;
      var before, own := shards[..k], shards[k].rows;
      MergedSeeds(existing, offset, starts, before);
      MergedRowsNext(existing, offset, shards);
      assert Counts(shards)[..k] == Counts(before);
      assert ShardSeeds(starts, Counts(shards)) == ShardSeeds(starts, Counts(before)) + Range(starts[k], |own|);
      hide *;
      Reassociate(LogSeeds(existing), ShardSeeds(starts, Counts(before)), Range(starts[k], |own|));
    }
  }

  lemma Reassociate(a: seq<nat>, b: seq<nat>, c: seq<nat>)
    ensures a + b + c == a + (b + c)
  {
  }

  lemma MergedRowsNext(existing: seq<Row>, offset: nat, shards: seq<Generated>)
    requires shards != []
    ensures var k := |shards| - 1;
      LogSeeds(MergedRows(existing, offset, shards)) ==
        LogSeeds(MergedRows(existing, offset, shards[..k])) + LogSeeds(shards[k].rows)
  {
    var k := |shards| - 1;
    var shift := offset + |AllAccepted(Reports(shards[..k]))|;
    LogSeedsShift(shards[k].rows, shift);
    LogSeedsAppend(MergedRows(existing, offset, shards[..k]), Shift(shards[k].rows, shift));
  }

  lemma CombineSucceeds(rs: seq<Report>, mapping: string)
    requires rs != [] && forall i :: 0 <= i < |rs| ==> rs[i].jointMapping == mapping
    ensures Combine(rs).Some? && Combine(rs).value.jointMapping == mapping
  {
  }

  /** With one joint mapping throughout, no merge is refused. */
  lemma MergeGoesThrough(d: Option<Generated>, shards: seq<Generated>, episodes: nat, mapping: string)
    requires shards != [] && forall i :: 0 <= i < |shards| ==> shards[i].report.jointMapping == mapping
    requires d.Some? ==> d.value.report.jointMapping == mapping
    ensures MergeShards(d, shards, episodes).Some?
  {
    hide Combine;
    CombineSucceeds(Reports(shards), mapping);
    if d.Some? {
      var own := Combine(Reports(shards)).value.(requested := episodes);
      var two := [d.value.report, own];
      assert two[0] == d.value.report && two[1] == own;
      CombineSucceeds(two, mapping);
    }
  }

  /** The log after a merge of complete shards. */
  lemma MergedLog(d: Option<Generated>, starts: seq<nat>, shards: seq<Generated>, episodes: nat)
    requires MergeShards(d, shards, episodes).Some? && |shards| <= |starts|
    requires forall i :: 0 <= i < |shards| ==> LogSeeds(shards[i].rows) == Range(starts[i], |shards[i].rows|)
    ensures Logged(MergeShards(d, shards, episodes)) == Logged(d) + ShardSeeds(starts, Counts(shards))
  {
    hide Combine, MergedRows, ShardSeeds, Counts;
    if d.Some? {
      MergedSeeds(d.value.rows, |d.value.report.acceptedSeeds|, starts, shards);
    } else {
      MergedSeeds([], 0, starts, shards);
      assert LogSeeds([]) == [];
    }
  }

  /** What is known about the shards of a launched run, and what follows for the run. */
  lemma ShardedOutcomeIsSound(d: Option<Generated>, j: Job, starts: seq<nat>, shards: seq<Generated>, o: Outcome)
    requires Good(d) && shards != [] && |shards| <= |starts| && (d.Some? ==> d.value.report.jointMapping == j.mapping)
    requires forall i :: 0 <= i < |shards| ==>
      && Consistent(shards[i]) && LogSeeds(shards[i].rows) == Range(starts[i], |shards[i].rows|)
      && shards[i].report.jointMapping == j.mapping
    requires var s := ShardSeeds(starts, Counts(shards));
      Distinct(s) && Disjoint(s, Logged(d)) && forall x :: x in s ==> InSplit(x, j.split)
    requires o.attempted == ShardSeeds(starts, Counts(shards))
    requires o.dataset == d || o.dataset == MergeShards(d, shards, j.episodes)
    ensures Sound(d, j, o)
  {
    hide MergeShards, ShardSeeds, Consistent;
    MergeShardsIsConsistent(d, shards, j.episodes);
    MergeGoesThrough(d, shards, j.episodes, j.mapping);
    MergedLog(d, starts, shards, j.episodes);
    DistinctAppend(Logged(d), ShardSeeds(starts, Counts(shards)));
  }

  lemma ShardedIsSound(d: Option<Generated>, j: Job)
    requires Good(d) && Admissible(d, j) && j.Sharded? && Launches(d, j)
    ensures Sound(d, j, Execute(d, j))
  {
    var first := FirstSeed(d, j);
    var starts := ShardStarts(Logged(d), first, j.Launched());
    var shards := Shards(j, starts, j.Launched());
    ShardsAreOk(j, starts, j.Launched());
    hide Shards, ShardStarts, Consistent, MergeShards, ShardSeeds, PlanFits, AllComplete, Sound, Good;
    ShardSeedsAreFresh(Logged(d), first, j.ShardAttempts(), Counts(shards), j.split);
    ShardedOutcomeIsSound(d, j, starts, shards, Execute(d, j));
  }

  /**
   * Every run, whatever its kind and outcome: no attempted seed is attempted twice or is one the dataset has
   * logged, all lie on the run's side of the train/eval boundary, and the dataset stays consistent and only grows.
   */
  lemma EveryRunIsSound(d: Option<Generated>, j: Job)
    requires Good(d) && Admissible(d, j)
    ensures Sound(d, j, Execute(d, j))
  {
    if Launches(d, j) {
      if j.Single? {
        SingleIsSound(d, j);
      } else {
        ShardedIsSound(d, j);
      }
    }
  }

  /** The dataset after a history of runs on an initially missing root. */
  function History(jobs: seq<Job>): Option<Generated>
    requires forall i :: 0 <= i < |jobs| ==> jobs[i].WellFormed()
  {
    if jobs == [] then None else Execute(History(jobs[..|jobs| - 1]), jobs[|jobs| - 1]).dataset
  }

  predicate AdmissibleHistory(jobs: seq<Job>) {
    && (forall i :: 0 <= i < |jobs| ==> jobs[i].WellFormed())
    && (forall i :: 0 <= i < |jobs| ==> Admissible(History(jobs[..i]), jobs[i]))
  }

  /** Over any history: the dataset is always consistent, without repeated seeds, and its log is never rewritten. */
  lemma {:induction false} HistoriesAreSound(jobs: seq<Job>)
    requires AdmissibleHistory(jobs)
    ensures Good(History(jobs))
    ensures jobs != [] ==>
      Sound(History(jobs[..|jobs| - 1]), jobs[|jobs| - 1], Execute(History(jobs[..|jobs| - 1]), jobs[|jobs| - 1]))
  {
    if jobs != [] {
      var before := jobs[..|jobs| - 1];
      forall i | 0 <= i < |before| ensures Admissible(History(before[..i]), before[i]) {
        assert before[..i] == jobs[..i];
      }
      HistoriesAreSound(before);
      EveryRunIsSound(History(before), jobs[|jobs| - 1]);
    }
  }

  /** A train run and an eval run never attempt the same seed, on whatever datasets they run. */
  lemma TrainAndEvalNeverMeet(d: Option<Generated>, d': Option<Generated>, train: Job, eval: Job)
    requires Good(d) && Admissible(d, train) && train.split == Train
    requires Good(d') && Admissible(d', eval) && eval.split == Eval
    ensures Disjoint(Execute(d, train).attempted, Execute(d', eval).attempted)
  {
    EveryRunIsSound(d, train);
    EveryRunIsSound(d', eval);
  }

  lemma {:induction false} AcceptedAddUp(shards: seq<Generated>, per: seq<nat>)
    requires |per| == |shards| && forall i :: 0 <= i < |shards| ==> |shards[i].report.acceptedSeeds| == per[i]
    ensures |AllAccepted(Reports(shards))| == Total(per)
  {
    if shards != [] {
      AcceptedAddUp(shards[..|shards| - 1], per[..|per| - 1]);
      ReportsNext(shards);
    }
  }

  lemma MergedIndices(d: Option<Generated>, shards: seq<Generated>, per: seq<nat>, episodes: nat)
    requires Good(d) && MergeShards(d, shards, episodes).Some? && |per| == |shards|
    requires forall i :: 0 <= i < |shards| ==>
      Consistent(shards[i]) && |shards[i].report.acceptedSeeds| == per[i]
    ensures Indices(MergeShards(d, shards, episodes).value.rows) ==
      Range(0, (if d.Some? then |d.value.report.acceptedSeeds| else 0) + Total(per))
  {
    hide MergeShards, AllAccepted, AcceptedSeeds, RejectedSeeds, SeedsOf, Reports, Total, Distinct, LogSeeds;
    MergeShardsIsConsistent(d, shards, episodes);
    AcceptedAddUp(shards, per);
  }

  /** The shards a launched run produces. */
  function LaunchedShards(d: Option<Generated>, j: Job): (s: seq<Generated>)
    requires j.Sharded? && j.Launched() > 0 && j.WellFormed()
    ensures |s| == j.Launched()
  {
    Shards(j, ShardStarts(Logged(d), FirstSeed(d, j), j.Launched()), j.Launched())
  }

  lemma LaunchedShardsAreOk(d: Option<Generated>, j: Job)
    requires j.Sharded? && j.Launched() > 0 && j.WellFormed()
    ensures forall i :: 0 <= i < j.Launched() ==>
      && Consistent(LaunchedShards(d, j)[i])
      && LaunchedShards(d, j)[i].report.jointMapping == j.mapping
  {
    var starts := ShardStarts(Logged(d), FirstSeed(d, j), j.Launched());
    ShardsAreOk(j, starts, j.Launched());
    hide Shards, ShardStarts, Consistent;
  }

  lemma CompleteRunMerges(d: Option<Generated>, j: Job)
    requires j.Sharded? && j.WellFormed() && Launches(d, j) && AllComplete(j, LaunchedShards(d, j))
    ensures Execute(d, j).dataset == MergeShards(d, LaunchedShards(d, j), j.episodes)
    ensures Total(j.ShardEpisodes()) == j.episodes
  {
    hide Shards, ShardStarts, MergeShards, PlanFits, AllComplete, ShardSeeds, Counts;
    SplitIsFair(j.episodes, j.Launched());
  }

  lemma CompleteShardsDeliver(
      d: Option<Generated>, shards: seq<Generated>, per: seq<nat>, episodes: nat, mapping: string)
    requires Good(d) && shards != [] && |per| == |shards| && Total(per) == episodes
    requires forall i :: 0 <= i < |shards| ==>
      && Consistent(shards[i]) && shards[i].report.jointMapping == mapping
      && |shards[i].report.acceptedSeeds| == per[i]
    requires d.Some? ==> d.value.report.jointMapping == mapping
    ensures MergeShards(d, shards, episodes).Some?
    ensures Indices(MergeShards(d, shards, episodes).value.rows) ==
      Range(0, (if d.Some? then |d.value.report.acceptedSeeds| else 0) + episodes)
  {
    hide *;
    MergeGoesThrough(d, shards, episodes, mapping);
    MergedIndices(d, shards, per, episodes);
  }

  /** A sharded run that is launched and whose workers all accept what they were asked for. */
  predicate Merges(d: Option<Generated>, j: Job) {
    && Good(d) && Admissible(d, j) && j.Sharded? && Launches(d, j)
    && AllComplete(j, LaunchedShards(d, j))
  }

  function Episodes(d: Option<Generated>): nat {
    if d.Some? then |d.value.report.acceptedSeeds| else 0
  }

  /** Such a run adds exactly the requested number of episodes, numbered 0 to the new total. */
  lemma MergedRunDeliversTheRequest(d: Option<Generated>, j: Job)
    requires Merges(d, j)
    ensures var r := Execute(d, j).dataset;
      r.Some? && Indices(r.value.rows) == Range(0, Episodes(d) + j.episodes)
  {
    LaunchedShardsAreOk(d, j);
    CompleteRunMerges(d, j);
    hide Execute, MergeShards, Good, Consistent, LaunchedShards, PlanFits, Total, Indices, PerWorker;
    CompleteShardsDeliver(d, LaunchedShards(d, j), j.ShardEpisodes(), j.episodes, j.mapping);
  }

  // ---- what a launched run attempts and keeps ----

  lemma {:induction false} ShardSeedsAre(starts: seq<nat>, counts: seq<nat>, x: nat)
    requires |counts| <= |starts|
    ensures x in ShardSeeds(starts, counts) <==>
      exists i :: 0 <= i < |counts| && starts[i] <= x < starts[i] + counts[i]
  {
    if counts != [] {
      var k := |counts| - 1;
      ShardSeedsAre(starts, counts[..k], x);
      assert x in Range(starts[k], counts[k]) <==> starts[k] <= x < starts[k] + counts[k] by {
        assert starts[k] <= x < starts[k] + counts[k] ==> Range(starts[k], counts[k])[x - starts[k]] == x;
      }
      if i :| 0 <= i < |counts[..k]| && starts[i] <= x < starts[i] + counts[..k][i] {
        assert counts[i] == counts[..k][i];
      }
      if i :| 0 <= i < |counts| && starts[i] <= x < starts[i] + counts[i] {
        assert i == k || counts[..k][i] == counts[i];
      }
    }
  }

  /** The first seed of shard `i`. */
  function StartOf(d: Option<Generated>, j: Job, i: nat): nat {
    ShardStart(Logged(d), FirstSeed(d, j) + i * 100_000)
  }

  /** Shard `i` attempts `x`: it goes on from its start until it has accepted its share or its budget is spent. */
  predicate Attempts(d: Option<Generated>, j: Job, i: nat, x: nat)
    requires j.Sharded? && j.Launched() > 0 && j.WellFormed() && i < j.Launched()
  {
    StartOf(d, j, i) <= x < StartOf(d, j, i) + Made(j.ShardEpisodes()[i], j.shardVerdicts[i])
  }

  lemma {:induction false} ShardIs(j: Job, starts: seq<nat>, n: nat, i: nat)
    requires j.Sharded? && j.Launched() > 0 && j.WellFormed() && i < n <= j.Launched() == |starts|
    ensures Shards(j, starts, n)[i] == OwnRun(j.mapping, starts[i], 0, j.ShardEpisodes()[i], j.shardVerdicts[i])
  {
    if i < n - 1 {
      ShardIs(j, starts, n - 1, i);
    }
    hide OwnRun;
  }

  /** A launched single process attempts consecutive seeds from the first one on, up to its last success or budget. */
  lemma SingleAttempts(d: Option<Generated>, j: Job)
    requires j.WellFormed() && j.Single? && Launches(d, j)
    ensures Execute(d, j).attempted == Range(FirstSeed(d, j), Made(j.episodes, j.verdicts))
  {
    OwnRunIsAligned(j.mapping, FirstSeed(d, j), Episodes(d), j.episodes, j.verdicts);
    hide OwnRun, FirstSeed, ValidRange;
  }

  /** A launched sharded run attempts exactly the seeds of its shards. */
  lemma ShardedAttempts(d: Option<Generated>, j: Job, x: nat)
    requires j.WellFormed() && j.Sharded? && Launches(d, j)
    ensures x in Execute(d, j).attempted <==> exists i: nat :: i < j.Launched() && Attempts(d, j, i, x)
  {
    var starts := ShardStarts(Logged(d), FirstSeed(d, j), j.Launched());
    var shards := Shards(j, starts, j.Launched());
    forall i | 0 <= i < j.Launched()
      ensures starts[i] == StartOf(d, j, i) && Counts(shards)[i] == Made(j.ShardEpisodes()[i], j.shardVerdicts[i])
    {
      ShardIs(j, starts, j.Launched(), i);
      OwnRunIsAligned(j.mapping, starts[i], 0, j.ShardEpisodes()[i], j.shardVerdicts[i]);
    }
    hide OwnRun, FirstSeed, ShardStart, PlanFits, MergeShards, Shards, AllComplete;
    ShardSeedsAre(starts, Counts(shards), x);
    if i :| 0 <= i < |Counts(shards)| && starts[i] <= x < starts[i] + Counts(shards)[i] {
      assert Attempts(d, j, i, x);
    }
    if i: nat :| i < j.Launched() && Attempts(d, j, i, x) {
      assert starts[i] <= x < starts[i] + Counts(shards)[i];
    }
  }

  lemma OwnRunAccepts(mapping: string, start: nat, existing: nat, episodes: nat, vs: seq<Verdict>)
    ensures |OwnRun(mapping, start, existing, episodes, vs).report.acceptedSeeds| == Accepted(vs[..Made(episodes, vs)])
  {
    RowsContinue(start, existing, vs[..Made(episodes, vs)]);
    AcceptedMatchIndices(RowsOf(start, existing, vs[..Made(episodes, vs)]));
  }

  lemma OwnRunIsNumbered(mapping: string, start: nat, existing: nat, episodes: nat, vs: seq<Verdict>)
    ensures Indices(OwnRun(mapping, start, existing, episodes, vs).rows) ==
      Range(existing, Accepted(vs[..Made(episodes, vs)]))
  {
    RowsContinue(start, existing, vs[..Made(episodes, vs)]);
  }

  function RowsIn(d: Option<Generated>): seq<Row> {
    if d.Some? then d.value.rows else []
  }

  lemma LoggedIs(d: Option<Generated>)
    ensures Logged(d) == LogSeeds(RowsIn(d))
    ensures Good(d) ==> Indices(RowsIn(d)) == Range(0, Episodes(d))
  {
  }

  /** What a single process leaves behind: its own run, or that run behind what there was. */
  lemma SingleDataset(d: Option<Generated>, j: Job)
    requires j.WellFormed() && j.Single? && Launches(d, j)
    ensures var own := OwnRun(j.mapping, FirstSeed(d, j), Episodes(d), j.episodes, j.verdicts);
      && Execute(d, j).dataset.Some? && Execute(d, j).attempted == LogSeeds(own.rows)
      && RowsIn(Execute(d, j).dataset) == RowsIn(d) + own.rows
  {
    var own := OwnRun(j.mapping, FirstSeed(d, j), Episodes(d), j.episodes, j.verdicts);
    assert own.report.jointMapping == j.mapping;
    hide OwnRun, FirstSeed, ValidRange, Combine;
    if d.Some? {
      CombineSucceeds([d.value.report, own.report], j.mapping);
    } else {
      assert [] + own.rows == own.rows;
    }
  }

  lemma IndicesContinue(a: seq<Row>, b: seq<Row>, n: nat, m: nat)
    requires Indices(a) == Range(0, n) && Indices(b) == Range(n, m)
    ensures Indices(a + b) == Range(0, n + m)
  {
    IndicesAppend(a, b);
    hide Indices;
  }

  lemma SingleRunIsLogged(d: Option<Generated>, j: Job)
    requires j.WellFormed() && j.Single? && Launches(d, j)
    ensures Execute(d, j).dataset.Some? && Logged(Execute(d, j).dataset) == Logged(d) + Execute(d, j).attempted
  {
    hide *;
    SingleDataset(d, j);
    LoggedIs(d);
    LoggedIs(Execute(d, j).dataset);
    LogSeedsAppend(RowsIn(d), OwnRun(j.mapping, FirstSeed(d, j), Episodes(d), j.episodes, j.verdicts).rows);
  }

  lemma SingleRunIsNumbered(d: Option<Generated>, j: Job)
    requires Good(d) && j.WellFormed() && j.Single? && Launches(d, j)
    ensures Indices(RowsIn(Execute(d, j).dataset)) ==
      Range(0, Episodes(d) + Accepted(j.verdicts[..Made(j.episodes, j.verdicts)]))
  {
    hide *;
    var own := OwnRun(j.mapping, FirstSeed(d, j), Episodes(d), j.episodes, j.verdicts);
    SingleDataset(d, j);
    LoggedIs(d);
    OwnRunIsNumbered(j.mapping, FirstSeed(d, j), Episodes(d), j.episodes, j.verdicts);
    IndicesContinue(RowsIn(d), own.rows, Episodes(d), Accepted(j.verdicts[..Made(j.episodes, j.verdicts)]));
  }

  /** A launched single process logs all it attempted and keeps what it accepted, numbered on. */
  lemma SingleRunDelivers(d: Option<Generated>, j: Job)
    requires Good(d) && Admissible(d, j) && j.Single? && Launches(d, j)
    ensures var o := Execute(d, j);
      && o.dataset.Some? && Logged(o.dataset) == Logged(d) + o.attempted
      && Indices(RowsIn(o.dataset)) ==
        Range(0, Episodes(d) + Accepted(j.verdicts[..Made(j.episodes, j.verdicts)]))
  {
    assert j.WellFormed();
    hide *;
    SingleRunIsLogged(d, j);
    SingleRunIsNumbered(d, j);
  }

  lemma ShardAccepts(d: Option<Generated>, j: Job, i: nat)
    requires j.Sharded? && j.Launched() > 0 && j.WellFormed() && i < j.Launched()
    ensures |LaunchedShards(d, j)[i].report.acceptedSeeds| == j.ShardEpisodes()[i] <==>
      Accepted(j.shardVerdicts[i]) >= j.ShardEpisodes()[i]
  {
    var starts := ShardStarts(Logged(d), FirstSeed(d, j), j.Launched());
    ShardIs(j, starts, j.Launched(), i);
    OwnRunAccepts(j.mapping, starts[i], 0, j.ShardEpisodes()[i], j.shardVerdicts[i]);
    MadeAccepts(j.ShardEpisodes()[i], j.shardVerdicts[i]);
    hide OwnRun, ShardStarts, Shards, FirstSeed;
  }

  /** The shards are merged exactly if each can accept its share within its budget; otherwise nothing changes. */
  lemma MergesIff(d: Option<Generated>, j: Job)
    requires j.WellFormed() && j.Sharded? && Launches(d, j)
    ensures AllComplete(j, LaunchedShards(d, j)) <==>
      forall i :: 0 <= i < j.Launched() ==> Accepted(j.shardVerdicts[i]) >= j.ShardEpisodes()[i]
    ensures !AllComplete(j, LaunchedShards(d, j)) ==> Execute(d, j).dataset == d
  {
    forall i | 0 <= i < j.Launched()
      ensures |LaunchedShards(d, j)[i].report.acceptedSeeds| == j.ShardEpisodes()[i] <==>
        Accepted(j.shardVerdicts[i]) >= j.ShardEpisodes()[i]
    {
      ShardAccepts(d, j, i);
    }
    hide Shards, ShardStarts, FirstSeed, PlanFits, MergeShards, Accepted, PerWorker;
  }
}
