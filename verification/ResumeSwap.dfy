/**
 * The directory swap at the end of a sharded resume, and its recovery. The merged dataset is built beside `root`,
 * then two renames put it in place; a crash may fall before or after any file-system step.
 */
module ResumeSwap {
  import opened Common
  import opened Dataset

  /** A directory: missing, half written or half deleted, or holding a complete dataset. */
  datatype Tree = Absent | Partial | Complete(data: Generated)

  datatype Disk = Disk(root: Tree, merged: Tree, backup: Tree)

  /** `recover_interrupted_resume`: brings the backup back if there is no root. */
  function Recover(d: Disk): Disk {
    if d.root.Absent? && !d.backup.Absent? then d.(root := d.backup, backup := Absent) else d
  }

  /** Where the process of one resume stands; Off between processes. */
  datatype Phase =
    | Off
    | Recovering
    | ClearingMerged       // rmtree(output)
    | Building             // merge_datasets, log and report into output
    | ClearingBackup       // rmtree(backup) before the swap
    | MovingRoot           // root.rename(backup)
    | MovingMerged         // output.rename(root)
    | RollingBack          // the handler: backup.rename(root)
    | DroppingBackup       // rmtree(backup) after the swap

  /** The disk, the running process and what it builds, and the history of datasets that became `root`. */
  datatype State = State(disk: Disk, phase: Phase, shards: seq<Generated>, episodes: nat, commits: seq<Generated>)

  /** How a single file-system operation may turn out. */
  datatype Turn = Works | Halfway | Fails

  datatype Event =
    | Start(shards: seq<Generated>, episodes: nat)    // a resume whose shards produced these datasets
    | Op(turn: Turn)                                  // the process's next file-system operation
    | Crash                                           // the process ends here

  /** `rmtree` with ignored errors: may stop halfway, may leave everything, and never stops the program. */
  function Removed(t: Tree, turn: Turn): Tree {
    match turn
    case Works => Absent
    case Halfway => if t.Absent? then Absent else Partial
    case Fails => t
  }

  function Target(s: State): Option<Generated> {
    if s.disk.root.Complete? then MergeShards(Some(s.disk.root.data), s.shards, s.episodes) else None
  }

  function Step(s: State, e: Event): State {
    match e
    case Crash => s.(phase := Off)
    case Start(shards, episodes) =>
      if s.phase == Off then s.(phase := Recovering, shards := shards, episodes := episodes) else s
    case Op(turn) => Operate(s, turn)
  }

  /** The next operation; a halfway removal or build is repeated, an exception ends the process. */
  function Operate(s: State, turn: Turn): State {
    var d, stop := s.disk, s.(phase := Off);
    match s.phase
    case Off => s
    case Recovering =>
      if turn == Fails then stop
      else if Recover(d).root.Absent? then stop
      else s.(disk := Recover(d), phase := ClearingMerged)
    case ClearingMerged =>
      s.(disk := d.(merged := Removed(d.merged, turn)), phase := if turn == Halfway then ClearingMerged else Building)
    case Building =>
      if turn == Halfway then s.(disk := d.(merged := Partial))
      else if turn == Fails || Target(s).None? then stop
      else s.(disk := d.(merged := Complete(Target(s).value)), phase := ClearingBackup)
    case ClearingBackup =>
      s.(disk := d.(backup := Removed(d.backup, turn)), phase := if turn == Halfway then ClearingBackup else MovingRoot)
    case MovingRoot =>
      // A rename fails on a directory that is still there, except possibly an emptied one.
      if turn != Works || d.backup.Complete? then stop
      else s.(disk := d.(backup := d.root, root := Absent), phase := MovingMerged)
    case MovingMerged =>
      if turn != Works then s.(phase := RollingBack)
      else s.(disk := d.(root := d.merged, merged := Absent), phase := DroppingBackup,
              commits := if d.merged.Complete? then s.commits + [d.merged.data] else s.commits)
    case RollingBack =>
      if turn != Works then stop else s.(disk := d.(root := d.backup, backup := Absent), phase := Off)
    case DroppingBackup =>
      s.(disk := d.(backup := Removed(d.backup, turn)), phase := if turn == Halfway then DroppingBackup else Off)
  }

  function Run(s: State, es: seq<Event>): State {
    if es == [] then s else Step(Run(s, es[..|es| - 1]), es[|es| - 1])
  }

  /** A complete, consistent dataset stands at `root` and no process runs; the other paths may hold anything. */
  predicate Initial(s: State) {
    s.phase == Off && s.disk.root.Complete? && s.commits == [s.disk.root.data] && Consistent(s.disk.root.data)
  }

  /** Shards come out of finished generation processes. */
  predicate Honest(es: seq<Event>) {
    forall i, k :: 0 <= i < |es| && es[i].Start? && 0 <= k < |es[i].shards| ==> Consistent(es[i].shards[k])
  }

  function Committed(s: State): Generated
    requires s.commits != []
  {
    s.commits[|s.commits| - 1]
  }

  /** Each committed dataset holds the rows of the one before, and all are consistent. */
  predicate Chain(commits: seq<Generated>) {
    && commits != []
    && (forall i :: 0 <= i < |commits| ==> Consistent(commits[i]))
    && (forall i :: 0 < i < |commits| ==> commits[i - 1].rows <= commits[i].rows)
  }

  predicate ShardsConsistent(s: State) {
    forall k :: 0 <= k < |s.shards| ==> Consistent(s.shards[k])
  }

  predicate Inv(s: State) {
    && Chain(s.commits)
    && (s.phase != Off ==> ShardsConsistent(s))
    && var d, last := s.disk, Complete(Committed(s));
      match s.phase
      case Off => d.root == last || (d.root.Absent? && d.backup == last)
      case Recovering => d.root == last || (d.root.Absent? && d.backup == last)
      case ClearingMerged => d.root == last
      case Building => d.root == last
      case ClearingBackup => d.root == last && Target(s).Some? && d.merged == Complete(Target(s).value)
      case MovingRoot => d.root == last && Target(s).Some? && d.merged == Complete(Target(s).value)
      case MovingMerged =>
        && d.root.Absent? && d.backup == last
        && MergeShards(Some(Committed(s)), s.shards, s.episodes).Some?
        && d.merged == Complete(MergeShards(Some(Committed(s)), s.shards, s.episodes).value)
      case RollingBack => d.root.Absent? && d.backup == last
      case DroppingBackup => d.root == last
  }

  lemma StepInv(s: State, e: Event)
    requires Inv(s) && (e.Start? ==> forall k :: 0 <= k < |e.shards| ==> Consistent(e.shards[k]))
    ensures Inv(Step(s, e))
  {
    hide Consistent, MergeShards;
    if e.Op? && s.phase == MovingMerged && e.turn == Works {
      MergeShardsIsConsistent(Some(Committed(s)), s.shards, s.episodes);
    }
  }

  lemma {:induction false} RunInv(s: State, es: seq<Event>)
    requires Initial(s) && Honest(es)
    ensures Inv(Run(s, es))
  {
    if es != [] {
      RunInv(s, es[..|es| - 1]);
      StepInv(Run(s, es[..|es| - 1]), es[|es| - 1]);
      hide Step, Inv;
    }
  }

  lemma RecoveredIsCommitted(s: State)
    requires Inv(s)
    ensures Recover(s.disk).root == Complete(Committed(s)) && Consistent(Committed(s)) && Chain(s.commits)
  {
    hide Consistent, MergeShards, ShardsConsistent;
  }

  /**
   * After any number of resumes, each ending or crashing after any step, recovery leaves the last committed
   * dataset at `root`: complete, consistent, and holding every row of every dataset committed before it.
   */
  lemma RecoveryRestoresTheLastCommit(s: State, es: seq<Event>)
    requires Initial(s) && Honest(es)
    ensures var r := Run(s, es);
      && r.commits != [] && Recover(r.disk).root == Complete(Committed(r))
      && Consistent(Committed(r))
      && forall i :: 0 <= i < |r.commits| ==> r.commits[i].rows <= Committed(r).rows
  {
    hide Run, Recover, Initial, Honest, Inv, Consistent;
    RunInv(s, es);
    var r := Run(s, es);
    RecoveredIsCommitted(r);
    forall i | 0 <= i < |r.commits| ensures r.commits[i].rows <= Committed(r).rows {
      LaterHoldsEarlier(r.commits, i, |r.commits| - 1);
    }
  }

  lemma {:induction false} LaterHoldsEarlier(commits: seq<Generated>, i: nat, j: nat)
    requires Chain(commits) && i <= j < |commits|
    ensures commits[i].rows <= commits[j].rows
    decreases j
  {
    if i < j {
      LaterHoldsEarlier(commits, i, j - 1);
      assert commits[j - 1].rows <= commits[j].rows;
    }
  }

  /** History is append-only. */
  lemma {:induction false} CommitsGrow(s: State, es: seq<Event>, more: seq<Event>)
    ensures Run(s, es).commits <= Run(s, es + more).commits
    decreases |more|
  {
    if more == [] {
      assert es + more == es;
    } else {
      CommitsGrow(s, es, more[..|more| - 1]);
      assert (es + more)[..|es + more| - 1] == es + more[..|more| - 1];
      hide Consistent, MergeShards, Recover;
    }
  }

  /** What recovery yields at `root` never goes back: later it holds every row that it would have held before. */
  lemma VersionsNeverGoBackwards(s: State, es: seq<Event>, more: seq<Event>)
    requires Initial(s) && Honest(es + more)
    ensures var earlier, later := Recover(Run(s, es).disk).root, Recover(Run(s, es + more).disk).root;
      earlier.Complete? && later.Complete? && earlier.data.rows <= later.data.rows
  {
    assert Honest(es) by {
      assert forall i :: 0 <= i < |es| ==> (es + more)[i] == es[i];
    }
    RecoveryRestoresTheLastCommit(s, es);
    RecoveryRestoresTheLastCommit(s, es + more);
    CommitsGrow(s, es, more);
    var before, after := Run(s, es).commits, Run(s, es + more).commits;
    hide Run, Recover, Initial, Honest;
    assert after[|before| - 1] == before[|before| - 1];
  }

  /** While any process runs or none, at most one of the two renames is outstanding: root is never partial. */
  lemma RootIsNeverPartial(s: State, es: seq<Event>)
    requires Initial(s) && Honest(es)
    ensures var d := Run(s, es).disk;
      !d.root.Partial? && (d.root.Absent? ==> d.backup.Complete?)
  {
    RunInv(s, es);
  }

  // ---- single operations ----

  /** Recovery loses nothing and makes nothing up: at most one directory changes its name. */
  lemma RecoveryOnlyRenames(d: Disk)
    ensures var r := Recover(d);
      && multiset{r.root, r.merged, r.backup} == multiset{d.root, d.merged, d.backup}
      && r.merged == d.merged && (r.root.Absent? ==> d.root.Absent? && d.backup.Absent?)
      && (!d.root.Absent? ==> r == d)
  {
  }

  /** A crash, and a failure where the program does not expect one, end the process and change nothing else. */
  lemma CrashesAndFailuresEnd(s: State, e: Event)
    requires s.phase != Off
    requires
      || e == Crash
      || (e == Op(Fails) && (s.phase.Recovering? || s.phase.Building? || s.phase.MovingRoot? || s.phase.RollingBack?))
      || (e.Op? && s.phase == MovingRoot && s.disk.backup.Complete?)
    ensures Step(s, e) == s.(phase := Off)
  {
  }

  /** What is removed or built when an operation stops halfway is neither there nor gone, and the operation goes on. */
  lemma HalfwayIsPartial(s: State)
    requires s.phase.ClearingMerged? || s.phase.Building? || s.phase.ClearingBackup? || s.phase.DroppingBackup?
    requires s.phase.ClearingMerged? ==> !s.disk.merged.Absent?
    requires s.phase.ClearingBackup? || s.phase.DroppingBackup? ==> !s.disk.backup.Absent?
    ensures var d := s.disk;
      Step(s, Op(Halfway)) == s.(disk :=
        if s.phase.ClearingMerged? || s.phase.Building? then Disk(d.root, Partial, d.backup)
        else Disk(d.root, d.merged, Partial))
  {
  }

  // ---- the uninterrupted program ----

  lemma RunLast(s: State, es: seq<Event>, e: Event)
    ensures Run(s, es + [e]) == Step(Run(s, es), e)
  {
    assert (es + [e])[..|es|] == es;
    hide Step;
  }

  /** Operations with these outcomes, one after the other. */
  function Ops(turns: seq<Turn>): (es: seq<Event>)
    ensures |es| == |turns|
  {
    seq(|turns|, i requires 0 <= i < |turns| => Op(turns[i]))
  }

  lemma OpsLast(s: State, turns: seq<Turn>)
    requires turns != []
    ensures Run(s, Ops(turns)) == Operate(Run(s, Ops(turns[..|turns| - 1])), turns[|turns| - 1])
  {
    var before := Ops(turns[..|turns| - 1]);
    assert Ops(turns) == before + [Op(turns[|turns| - 1])];
    RunLast(s, before, Op(turns[|turns| - 1]));
    hide Operate;
  }

  lemma ThreeOps(s: State, a: Turn, b: Turn, c: Turn)
    ensures Run(s, Ops([a, b])) == Operate(Operate(s, a), b)
    ensures Run(s, Ops([a, b, c])) == Operate(Operate(Operate(s, a), b), c)
  {
    assert Ops([]) == [] && Run(s, []) == s;
    hide Operate, Ops, Run;
    assert [a, b, c][..2] == [a, b] && [a, b][..1] == [a] && [a][..0] == [];
    OpsLast(s, [a, b, c]);
    OpsLast(s, [a, b]);
    OpsLast(s, [a]);
  }

  /** Four operations. */
  lemma FourOps(s: State, a: Turn, b: Turn, c: Turn, d: Turn)
    ensures Run(s, Ops([a, b, c, d])) == Operate(Operate(Operate(Operate(s, a), b), c), d)
  {
    hide Operate, Ops, Run;
    ThreeOps(s, a, b, c);
    assert [a, b, c, d][..3] == [a, b, c];
    OpsLast(s, [a, b, c, d]);
  }

  /** The disk after the swap: the merged dataset at root or, if its rename fails, everything as it was. */
  function Swapped(d: Disk, renameWorks: bool): Disk {
    if renameWorks then Disk(d.merged, Absent, Absent) else Disk(d.root, d.merged, Absent)
  }

  /** The swap, step by step, leaves the disk it leaves as a whole, with a backup of before in the way or not. */
  lemma SwapSteps(s: State, renameWorks: bool)
    requires s.phase == ClearingBackup && s.disk.root.Complete? && s.disk.merged.Complete?
    ensures var r := Run(s, Ops([Works, Works, if renameWorks then Works else Fails, Works]));
      && r.disk == Swapped(s.disk, renameWorks) && r.phase == Off
      && r.commits == if renameWorks then s.commits + [s.disk.merged.data] else s.commits
  {
    FourOps(s, Works, Works, if renameWorks then Works else Fails, Works);
  }

  lemma PreparingSteps(s: State)
    requires s.phase == Recovering && Recover(s.disk).root.Complete?
    requires MergeShards(Some(Recover(s.disk).root.data), s.shards, s.episodes).Some?
    ensures var cleared := Run(s, Ops([Works, Works]));
      cleared.phase == Building && cleared.disk == Recover(s.disk).(merged := Absent)
    ensures var merged := MergeShards(Some(Recover(s.disk).root.data), s.shards, s.episodes).value;
      Run(s, Ops([Works, Works, Works])) ==
        s.(disk := Recover(s.disk).(merged := Complete(merged)), phase := ClearingBackup)
  {
    ThreeOps(s, Works, Works, Works);
    hide MergeShards, Ops, Run;
  }

  lemma {:induction false} RunAppend(s: State, a: seq<Event>, b: seq<Event>)
    ensures Run(s, a + b) == Run(Run(s, a), b)
    decreases |b|
  {
    if b == [] {
      assert a + b == a;
    } else {
      assert (a + b)[..|a + b| - 1] == a + b[..|b| - 1];
      RunAppend(s, a, b[..|b| - 1]);
      hide Step;
    }
  }

  /**
   * A resume whose merge goes through and whose operations work is carried through: whatever state the last one left
   * its directories in, in seven operations root and last commit are the merged dataset and the rest is cleared away.
   * If only the second rename fails, root is again what was committed last.
   */
  lemma ResumesAreCarriedThrough(s: State, shards: seq<Generated>, episodes: nat, renameWorks: bool)
    requires Inv(s) && s.phase == Off && MergeShards(Some(Committed(s)), shards, episodes).Some?
    ensures var merged := MergeShards(Some(Committed(s)), shards, episodes).value;
      var last := if renameWorks then Works else Fails;
      var r := Run(s, [Start(shards, episodes)] + (Ops([Works, Works, Works]) + Ops([Works, Works, last, Works])));
      && r.phase == Off && r.disk.backup == Absent
      && (renameWorks ==>
        r.disk.root == Complete(merged) && r.disk.merged == Absent && r.commits == s.commits + [merged])
      && (!renameWorks ==> r.disk.root == Complete(Committed(s)) && r.commits == s.commits)
  {
    var last := if renameWorks then Works else Fails;
    var started := Step(s, Start(shards, episodes));
    assert [Start(shards, episodes)][..0] == [] && Run(s, [Start(shards, episodes)]) == started;
    assert started == s.(phase := Recovering, shards := shards, episodes := episodes);
    RecoveredIsCommitted(s);
    hide Run, Step, Inv, Ops, MergeShards;
    PreparingSteps(started);
    SwapSteps(Run(started, Ops([Works, Works, Works])), renameWorks);
    RunAppend(s, [Start(shards, episodes)], Ops([Works, Works, Works]) + Ops([Works, Works, last, Works]));
    RunAppend(started, Ops([Works, Works, Works]), Ops([Works, Works, last, Works]));
  }

  class Directories {
    var root: Tree
    var merged: Tree
    var backup: Tree

    constructor (d: Disk)
      ensures AsDisk() == d
    {
      root, merged, backup := d.root, d.merged, d.backup;
    }

    function AsDisk(): Disk
      reads this
    {
      Disk(root, merged, backup)
    }

    method RecoverInterruptedResume()
      modifies this
      ensures AsDisk() == Recover(old(AsDisk()))
    {
      if root.Absent? && !backup.Absent? {
        root, backup := backup, Absent;
      }
    }

    /**
     * The swap of `run_sharded`, left alone. `renameWorks` is whether the second rename succeeds; if it does not,
     * the handler has put the old dataset back by the time the exception leaves.
     */
    method SwapIn(renameWorks: bool) returns (swapped: bool)
      requires root.Complete? && merged.Complete?
      modifies this
      ensures swapped == renameWorks && AsDisk() == Swapped(old(AsDisk()), renameWorks)
    {
      backup := Absent;
      root, backup := Absent, root;
      if !renameWorks {
        root, backup := backup, Absent;
        return false;
      }
      root, merged := merged, Absent;
      backup := Absent;
      return true;
    }
  }
}
