/** The search for a block: when the arm goes down, where to, and whether it is there. */
module ColorSearch {
  import opened Reals
  import opened ColorStack

  // ---- What a report shows ----

  /** The block is in the middle of the picture of 320 by 240, give or take 15. */
  predicate InTheMiddle(r: Report) {
    r.Seen? && 145 <= r.cx <= 175 && 105 <= r.cy <= 135
  }

  /** It is there give or take 25. */
  predicate NearTheMiddle(r: Report) {
    r.Seen? && 135 <= r.cx <= 185 && 95 <= r.cy <= 145
  }

  /** The report moves the target: it is off the middle, and far off if the target was already centred. */
  predicate Tracks(m: Machine, at: nat, r: Report) {
    && m.phase == Search && at >= m.ignoreUntil
    && r.Seen? && !InTheMiddle(r) && (m.locked ==> !NearTheMiddle(r))
  }

  // ---- When the arm goes down ----

  /** The call polls the mailbox and what it finds counts in the search. */
  predicate Heeds(m: Machine, e: Event) {
    && m.busy && m.phase == Search && e.now - m.pollTime >= 10
    && (e.report.EmptyBox? || ((e.report.Lost? || e.report.Seen?) && e.late >= m.ignoreUntil))
  }

  /** The machine searches, and the report shows the block in the middle if it counts. */
  predicate Unshaken(s: Machine, e: Event) {
    s.busy && s.phase == Search && (Heeds(s, e) ==> InTheMiddle(e.report))
  }

  /** From call `k` on the machine searches, and every report that counts shows the block in the middle. */
  predicate Unbroken(c: Setup, m: Machine, es: seq<Event>, k: nat) {
    && k < |es| && Heeds(Run(c, m, es[..k]), es[k])
    && forall i :: k <= i < |es| ==> Unshaken(Run(c, m, es[..i]), es[i])
  }

  lemma UnbrokenPrefix(c: Setup, m: Machine, es: seq<Event>, k: nat)
    requires k < |es| - 1
    ensures Unbroken(c, m, es, k) <==>
      Unbroken(c, m, es[..|es| - 1], k) && Unshaken(Run(c, m, es[..|es| - 1]), es[|es| - 1])
  {
    hide Run, Heeds, Unshaken;
    var before := es[..|es| - 1];
    forall i | 0 <= i < |before| ensures before[..i] == es[..i] && before[i] == es[i] {
    }
    if Unbroken(c, m, es, k) {
      assert Unshaken(Run(c, m, es[..|before|]), es[|before|]);
    }
    if Unbroken(c, m, before, k) && Unshaken(Run(c, m, before), es[|es| - 1]) {
      forall i | k <= i < |es| ensures Unshaken(Run(c, m, es[..i]), es[i]) {
        if i < |before| {
          assert Unshaken(Run(c, m, before[..i]), before[i]);
        }
      }
    }
  }

  /** A searching step: what the stability timer does, and that a centred target is left where it is. */
  lemma SearchStep(c: Setup, m: Machine, e: Event)
    requires m.busy && m.phase == Search
    ensures var r := Step(c, m, e);
      && r.busy && (r.phase == Search || r.phase == Down)
      && (!Heeds(m, e) ==> r == m.(pollTime := r.pollTime))
      && (Heeds(m, e) && !InTheMiddle(e.report) ==> r.phase == Search && r.stable == 0)
      && (Heeds(m, e) && InTheMiddle(e.report) ==>
        var start := if m.stable == 0 then e.late else m.stableStart;
        && r.tx == m.tx && r.ty == m.ty
        && if e.late - start >= 3000 then r.phase == Down && r.grabX == m.tx && r.grabY == m.ty
           else r.phase == Search && r.stable == m.stable + 1 && r.stableStart == start)
  {
    hide Clamp, Advance;
  }

  /**
   * What a report that counts does besides: without the block in sight the errors are forgotten; in the middle it is
   * locked on, and the descent begins with the call; near the middle of a locked target nothing moves; otherwise the
   * target is tracked, and the arm moved if that was not done in the last 40 ms.
   */
  lemma WhatAReportDoes(c: Setup, m: Machine, e: Event)
    requires Heeds(m, e)
    ensures var r, s := Step(c, m, e), e.report;
      && r.pollTime == e.now
      && (!s.Seen? ==> r == m.(pollTime := e.now, lastEx := 0.0, lastEy := 0.0, stable := 0))
      && (InTheMiddle(s) ==> r.locked && r.lastEx == r.lastEy == 0.0 && r.orders == m.orders)
      && (r.phase == Down ==> r.stateTime == e.late && r.stable == 0)
      && (s.Seen? && !InTheMiddle(s) && m.locked && NearTheMiddle(s) ==> r == m.(pollTime := e.now, stable := 0))
      && (Tracks(m, e.late, s) ==>
        && !r.locked && r.stable == 0 && r.lastEx == s.Ex() as real && r.lastEy == s.Ey() as real
        && r.lastMove == if e.late - m.lastMove >= 40 then e.late else m.lastMove)
  {
    hide Clamp, Correction;
  }

  predicate Restless(m: Machine) {
    m.busy && m.phase == Search ==> m.stable == 0
  }

  lemma EnteringSearchIsRestless(c: Setup, m: Machine, e: Event)
    requires !(m.busy && m.phase == Search)
    ensures Restless(Step(c, m, e))
  {
    hide Clamp;
  }

  /** The stability timer of `es` was started by call `k`, and nothing since has contradicted it or moved the target. */
  predicate TimedFrom(c: Setup, m: Machine, es: seq<Event>, k: nat) {
    && Unbroken(c, m, es, k)
    && var r, s := Run(c, m, es), Run(c, m, es[..k]);
      es[k].late == r.stableStart && s.tx == r.tx && s.ty == r.ty
  }

  predicate Timing(m: Machine) {
    m.busy && m.phase == Search && m.stable > 0
  }

  lemma TimerStarts(c: Setup, m: Machine, es: seq<Event>)
    requires es != []
    requires var s := Run(c, m, es[..|es| - 1]);
      s.busy && s.phase == Search && s.stable == 0
    requires Timing(Run(c, m, es))
    ensures TimedFrom(c, m, es, |es| - 1)
  {
    SearchStep(c, Run(c, m, es[..|es| - 1]), es[|es| - 1]);
    hide Step, Heeds;
  }

  lemma TimerStep(c: Setup, m: Machine, e: Event)
    requires Timing(m) && Timing(Step(c, m, e))
    ensures m.busy && m.phase == Search && (Heeds(m, e) ==> InTheMiddle(e.report))
    ensures var r := Step(c, m, e);
      r.stableStart == m.stableStart && r.tx == m.tx && r.ty == m.ty
  {
    SearchStep(c, m, e);
    hide Step, Heeds;
  }

  lemma TimerContinues(c: Setup, m: Machine, es: seq<Event>, k: nat)
    requires es != [] && k < |es| - 1 && Timing(Run(c, m, es[..|es| - 1])) && Timing(Run(c, m, es))
    requires TimedFrom(c, m, es[..|es| - 1], k)
    ensures TimedFrom(c, m, es, k)
  {
    var before := es[..|es| - 1];
    hide Step, Heeds, Unbroken, Timing;
    TimerStep(c, Run(c, m, before), es[|es| - 1]);
    assert before[..k] == es[..k] && before[k] == es[k];
    UnbrokenPrefix(c, m, es, k);
  }

  lemma {:induction false} TimerIsHonest(c: Setup, m: Machine, es: seq<Event>) returns (k: nat)
    requires Restless(m) && Timing(Run(c, m, es))
    ensures TimedFrom(c, m, es, k)
  {
    if es == [] {
      assert false;
    } else {
      var s := Run(c, m, es[..|es| - 1]);
      if !s.busy || s.phase != Search {
        EnteringSearchIsRestless(c, s, es[|es| - 1]);
        assert false;
      } else if s.stable == 0 {
        TimerStarts(c, m, es);
        k := |es| - 1;
      } else {
        hide Step, TimedFrom;
        k := TimerIsHonest(c, m, es[..|es| - 1]);
        TimerContinues(c, m, es, k);
      }
    }
  }

  /**
   * The arm goes down only at a report that shows the block in the middle, at least 3000 ms after another such one
   * (call `k`); every report that counted in between did too, and the block is grabbed where the target was then.
   */
  lemma DownNeedsThreeSteadySeconds(c: Setup, m: Machine, es: seq<Event>) returns (k: nat)
    requires Restless(m) && es != [] && Run(c, m, es[..|es| - 1]).phase == Search && Run(c, m, es).phase == Down
    ensures Unbroken(c, m, es, k) && Heeds(Run(c, m, es[..|es| - 1]), es[|es| - 1])
    ensures es[|es| - 1].late - es[k].late >= 3000
    ensures var s, r := Run(c, m, es[..k]), Run(c, m, es); r.grabX == s.tx && r.grabY == s.ty
  {
    var before, e := es[..|es| - 1], es[|es| - 1];
    var s := Run(c, m, before);
    SearchStep(c, s, e);
    hide Step, Heeds;
    assert s.stable > 0;
    k := TimerIsHonest(c, m, before);
    assert before[..k] == es[..k];
    UnbrokenPrefix(c, m, es, k);
  }

  lemma {:induction false} TimerRuns(c: Setup, m: Machine, from: nat, es: seq<Event>, k: nat)
    requires OnPlan(c, m) && InBounds(m, from) && Timely(from, es)
    requires Unbroken(c, m, es, k) && Run(c, m, es).phase == Search
    ensures Timing(Run(c, m, es)) && Run(c, m, es).stableStart <= es[k].late
  {
    var before, e := es[..|es| - 1], es[|es| - 1];
    SearchStep(c, Run(c, m, before), e);
    if k < |es| - 1 {
      UnbrokenPrefix(c, m, es, k);
      TimerRuns(c, m, from, before, k);
    } else {
      RunKeeps(c, m, from, before);
    }
  }

  /** And conversely: three seconds of nothing but centred reports, the first and the last included, are enough. */
  lemma ThreeSteadySecondsSuffice(c: Setup, m: Machine, from: nat, es: seq<Event>, k: nat)
    requires OnPlan(c, m) && InBounds(m, from) && Timely(from, es)
    requires Unbroken(c, m, es, k) && k < |es| - 1 && Heeds(Run(c, m, es[..|es| - 1]), es[|es| - 1])
    requires es[|es| - 1].late - es[k].late >= 3000
    ensures Run(c, m, es).phase == Down
  {
    var before, e := es[..|es| - 1], es[|es| - 1];
    SearchStep(c, Run(c, m, before), e);
    UnbrokenPrefix(c, m, es, k);
    TimerRuns(c, m, from, before, k);
  }

  // ---- Tracking ----

  /**
   * As long as the derivative gain is small against the proportional one, an axis that is off centre is corrected
   * towards the block, up to the limit of the reach.
   */
  lemma CorrectionsPointAtTheBlock(c: Setup, m: Machine, ex: int, ey: int, at: nat)
    requires InBounds(m, at) && 0.0 <= c.kd && 40.0 * c.kd < 16.0 * c.kp
    ensures var r := Track(c, m, ex, ey, at);
      && (ex > 15 ==> r.ty > m.ty || r.ty == 300.0)
      && (ex < -15 ==> r.ty < m.ty || r.ty == -300.0)
      && (ey > 15 ==> r.tx > m.tx || r.tx == 320.0)
      && (ey < -15 ==> r.tx < m.tx || r.tx == 80.0)
  {
    CorrectionSign(c, ex, m.lastEx);
    CorrectionSign(c, ey, m.lastEy);
    ClampMoves(m.tx, Correction(c, ey, m.lastEy), 80.0, 320.0);
    ClampMoves(m.ty, Correction(c, ex, m.lastEx), -300.0, 300.0);
    hide Clamp, Correction;
  }

  /** Between the limits the step is kp times the error plus kd times its change, which counts up to 40. */
  lemma CorrectionIs(c: Setup, e: int, last: real)
    ensures var d := e as real - last;
      Correction(c, e, last) == c.kp * e as real + c.kd * if d > 40.0 then 40.0 else if d < -40.0 then -40.0 else d
  {
  }

  /** The picture's rows move the arm's x, its columns y, each within its reach. */
  lemma TrackMoves(c: Setup, m: Machine, cx: nat, cy: nat, at: nat)
    requires InBounds(m, at)
    ensures var r := Track(c, m, Seen(cx, cy).Ex(), Seen(cx, cy).Ey(), at);
      var x, y := m.tx + Correction(c, 120 - cy, m.lastEy), m.ty + Correction(c, 160 - cx, m.lastEx);
      && r.tx == (if x > 320.0 then 320.0 else if x < 80.0 then 80.0 else x)
      && r.ty == (if y > 300.0 then 300.0 else if y < -300.0 then -300.0 else y)
      && r.lastEx == (160 - cx) as real && r.lastEy == (120 - cy) as real && !r.locked && r.stable == 0
  {
    hide Correction;
  }

  lemma ClampMoves(v: real, delta: real, lo: real, hi: real)
    requires lo <= v <= hi
    ensures delta > 0.0 ==> Clamp(v + delta, lo, hi) > v || Clamp(v + delta, lo, hi) == hi
    ensures delta < 0.0 ==> Clamp(v + delta, lo, hi) < v || Clamp(v + delta, lo, hi) == lo
  {
  }

  lemma SignOfCorrection(p: real, d: real, kp: real, kd: real)
    requires 0.0 <= kd && 40.0 * kd < 16.0 * kp && -40.0 <= d <= 40.0
    ensures p >= 16.0 ==> p * kp + d * kd > 0.0
    ensures p <= -16.0 ==> p * kp + d * kd < 0.0
  {
    NonNegative(d + 40.0, kd);
    NonNegative(40.0 - d, kd);
    if p >= 16.0 {
      NonNegative(p - 16.0, kp);
    } else if p <= -16.0 {
      NonNegative(-16.0 - p, kp);
    }
  }

  /** A limited derivative term cannot turn the correction of an axis that is off centre. */
  lemma CorrectionSign(c: Setup, e: int, last: real)
    requires 0.0 <= c.kd && 40.0 * c.kd < 16.0 * c.kp
    ensures e > 15 ==> Correction(c, e, last) > 0.0
    ensures e < -15 ==> Correction(c, e, last) < 0.0
  {
    SignOfCorrection(e as real, Clamp(e as real - last, -40.0, 40.0), c.kp, c.kd);
  }

  /** The last command sent the arm there. */
  predicate ArmSentTo(m: Machine, x: real, y: real) {
    m.orders != [] && var o := m.orders[|m.orders| - 1]; o.x == x && o.y == y
  }

  predicate ArmOnTarget(m: Machine) {
    ArmSentTo(m, m.tx, m.ty)
  }

  /** The call moves the target less than 40 ms after the arm was last moved, so the arm is not sent there. */
  predicate Throttled(m: Machine, e: Event) {
    && m.busy && m.phase == Search && e.now - m.pollTime >= 10
    && Tracks(m, e.late, e.report) && e.late - m.lastMove < 40
  }

  /** The call moves target and arm. */
  predicate Moves(m: Machine, e: Event) {
    && m.busy && m.phase == Search && e.now - m.pollTime >= 10
    && Tracks(m, e.late, e.report) && e.late - m.lastMove >= 40
  }

  /** One call leaves the arm on the target exactly if it does not move the target unseen. */
  lemma ArmFollowsUnlessThrottled(c: Setup, m: Machine, e: Event)
    requires m.busy && m.phase == Search && ArmOnTarget(m)
    ensures var r := Step(c, m, e);
      ArmOnTarget(r) <==> !Throttled(m, e) || (r.tx == m.tx && r.ty == m.ty)
  {
    hide Clamp, Correction;
  }

  /** A call that moves the arm brings it to the target, wherever it was; every other call gives no order. */
  lemma OnlyMovesGiveOrders(c: Setup, m: Machine, e: Event)
    requires m.busy && m.phase == Search
    ensures var r := Step(c, m, e);
      && (Moves(m, e) ==> ArmOnTarget(r) && r.orders == m.orders + [Order(Search, r.tx, r.ty, 200.0, -60.0, 30)])
      && (!Moves(m, e) ==> r.orders == m.orders)
  {
    hide Clamp, Correction;
  }

  /** How many calls there were up to the last one that moved the arm; 0 if none did. */
  function LastMove(c: Setup, m: Machine, es: seq<Event>): (k: nat)
    ensures k <= |es|
  {
    if es == [] then 0
    else
      var before := es[..|es| - 1];
      if Moves(Run(c, m, before), es[|es| - 1]) then |es| else LastMove(c, m, before)
  }

  /** All the calls before the last state find the machine searching. */
  predicate Searching(c: Setup, m: Machine, es: seq<Event>) {
    m.busy && forall i :: 0 <= i < |es| ==> Run(c, m, es[..i]).phase == Search
  }

  lemma SearchingPrefix(c: Setup, m: Machine, es: seq<Event>)
    requires Searching(c, m, es) && es != []
    ensures Searching(c, m, es[..|es| - 1]) && Run(c, m, es[..|es| - 1]).phase == Search
  {
    var before := es[..|es| - 1];
    assert forall i :: 0 <= i <= |before| ==> before[..i] == es[..i];
    hide Run;
  }

  /** Since the last move nothing was ordered, and that move left the arm on the target. */
  lemma {:induction false} SinceTheLastMove(c: Setup, m: Machine, es: seq<Event>)
    requires m.phase == Search && ArmOnTarget(m) && Searching(c, m, es)
    ensures var r, s := Run(c, m, es), Run(c, m, es[..LastMove(c, m, es)]);
      r.busy && (r.phase == Search || r.phase == Down) && ArmOnTarget(s) && r.orders == s.orders
  {
    if es == [] {
      assert es[..0] == [];
    } else {
      var before, e := es[..|es| - 1], es[|es| - 1];
      var q := Run(c, m, before);
      SearchingPrefix(c, m, es);
      SinceTheLastMove(c, m, before);
      SearchStep(c, q, e);
      OnlyMovesGiveOrders(c, q, e);
      assert LastMove(c, m, es) <= |before| ==> before[..LastMove(c, m, es)] == es[..LastMove(c, m, es)];
      assert es[..|es|] == es;
      hide Moves, Heeds, Step, Searching, ArmOnTarget;
    }
  }

  /**
   * A search that starts with the arm on the target and ends in DOWN grabs where the arm was last sent exactly if
   * the target is where the last move left it: the corrections that the 40 ms throttle held back since then, and only
   * those, decide.
   */
  lemma GrabbedWhereTheArmIsIff(c: Setup, m: Machine, es: seq<Event>)
    requires m.phase == Search && ArmOnTarget(m) && Searching(c, m, es) && Run(c, m, es).phase == Down
    ensures var r, s := Run(c, m, es), Run(c, m, es[..LastMove(c, m, es)]);
      ArmSentTo(r, r.grabX, r.grabY) <==> r.tx == s.tx && r.ty == s.ty
  {
    var before := es[..|es| - 1];
    SearchingPrefix(c, m, es);
    SinceTheLastMove(c, m, before);
    SearchStep(c, Run(c, m, before), es[|es| - 1]);
    SinceTheLastMove(c, m, es);
    hide Step, Moves, Searching, Heeds;
  }

  lemma {:induction false} NoMovesSinceTheLast(c: Setup, m: Machine, es: seq<Event>)
    ensures forall i :: LastMove(c, m, es) <= i < |es| ==> !Moves(Run(c, m, es[..i]), es[i])
  {
    if es != [] {
      var before := es[..|es| - 1];
      NoMovesSinceTheLast(c, m, before);
      forall i | LastMove(c, m, es) <= i < |es| ensures !Moves(Run(c, m, es[..i]), es[i]) {
        if i < |before| {
          assert before[..i] == es[..i] && before[i] == es[i];
        }
      }
      hide Run, Moves;
    }
  }

  /** The calls from `k` on neither move the arm nor hold a correction back. */
  predicate Untouched(c: Setup, m: Machine, es: seq<Event>, k: nat) {
    forall i :: k <= i < |es| ==> !Moves(Run(c, m, es[..i]), es[i]) && !Throttled(Run(c, m, es[..i]), es[i])
  }

  lemma UntouchedPrefix(c: Setup, m: Machine, es: seq<Event>, k: nat)
    requires Untouched(c, m, es, k) && k < |es|
    ensures Untouched(c, m, es[..|es| - 1], k)
    ensures var q, e := Run(c, m, es[..|es| - 1]), es[|es| - 1]; !Moves(q, e) && !Throttled(q, e)
  {
    var before := es[..|es| - 1];
    assert forall i :: 0 <= i < |before| ==> before[..i] == es[..i] && before[i] == es[i];
    hide Run, Moves, Throttled;
    assert es[..|before|] == before;
  }

  lemma UntouchedStep(c: Setup, m: Machine, e: Event)
    requires m.busy && m.phase == Search && !Moves(m, e) && !Throttled(m, e)
    ensures var r := Step(c, m, e);
      && r.tx == m.tx && r.ty == m.ty && r.orders == m.orders
      && (ArmOnTarget(r) <==> ArmOnTarget(m))
  {
    hide Clamp, Correction;
  }

  /** Such calls leave target and arm where they were. */
  lemma {:induction false} UntouchedStays(c: Setup, m: Machine, es: seq<Event>, k: nat)
    requires m.phase == Search && ArmOnTarget(m) && Searching(c, m, es) && k <= |es| && Untouched(c, m, es, k)
    ensures ArmOnTarget(Run(c, m, es)) <==> ArmOnTarget(Run(c, m, es[..k]))
  {
    hide Moves, Throttled, Step, Searching, Untouched, ArmOnTarget;
    if k == |es| {
      assert es[..k] == es;
    } else {
      var before := es[..|es| - 1];
      SearchingPrefix(c, m, es);
      UntouchedPrefix(c, m, es, k);
      SinceTheLastMove(c, m, before);
      UntouchedStays(c, m, before, k);
      assert before[..k] == es[..k];
      UntouchedStep(c, Run(c, m, before), es[|before|]);
    }
  }

  /** In particular if no correction of the search was held back since the last move. */
  lemma UnthrottledTargetStays(c: Setup, m: Machine, es: seq<Event>)
    requires m.phase == Search && ArmOnTarget(m) && Searching(c, m, es)
    requires forall i :: LastMove(c, m, es) <= i < |es| ==> !Throttled(Run(c, m, es[..i]), es[i])
    ensures ArmOnTarget(Run(c, m, es))
  {
    SinceTheLastMove(c, m, es);
    NoMovesSinceTheLast(c, m, es);
    UntouchedStays(c, m, es, LastMove(c, m, es));
  }

  /**
   * A correction leaves the axis where it is: off centre, it is at its limit on the block's side; within the deadband
   * it may also have nothing to correct.
   */
  predicate Rests(c: Setup, v: real, e: int, last: real, lo: real, hi: real) {
    if e > 15 then v == hi
    else if e < -15 then v == lo
    else
      var delta := Correction(c, e, last);
      delta == 0.0 || (delta > 0.0 && v == hi) || (delta < 0.0 && v == lo)
  }

  lemma RestsIff(c: Setup, v: real, e: int, last: real, lo: real, hi: real)
    requires 0.0 <= c.kd && 40.0 * c.kd < 16.0 * c.kp && lo <= v <= hi
    ensures Clamp(v + Correction(c, e, last), lo, hi) == v <==> Rests(c, v, e, last, lo, hi)
  {
    CorrectionSign(c, e, last);
    hide Correction;
  }

  lemma HeldBackStep(c: Setup, m: Machine, clock: nat, e: Event)
    requires ArmOnTarget(m) && Throttled(m, e) && InBounds(m, clock)
    requires 0.0 <= c.kd && 40.0 * c.kd < 16.0 * c.kp
    ensures e.report.Seen?
    ensures ArmOnTarget(Step(c, m, e)) <==>
      && Rests(c, m.ty, e.report.Ex(), m.lastEx, -300.0, 300.0)
      && Rests(c, m.tx, e.report.Ey(), m.lastEy, 80.0, 320.0)
  {
    var ex, ey := e.report.Ex(), e.report.Ey();
    var r := Step(c, m, e);
    assert r.orders == m.orders;
    assert r.tx == Clamp(m.tx + Correction(c, ey, m.lastEy), 80.0, 320.0);
    assert r.ty == Clamp(m.ty + Correction(c, ex, m.lastEx), -300.0, 300.0);
    hide Step, Clamp, Correction, Throttled, Rests;
    RestsIff(c, m.ty, ex, m.lastEx, -300.0, 300.0);
    RestsIff(c, m.tx, ey, m.lastEy, 80.0, 320.0);
  }

  lemma SearchingUpTo(c: Setup, m: Machine, es: seq<Event>, k: nat)
    requires Searching(c, m, es) && k <= |es|
    ensures Searching(c, m, es[..k]) && (k < |es| ==> Run(c, m, es[..k]).phase == Search)
  {
    assert forall i :: 0 <= i <= k ==> es[..k][..i] == es[..i];
    hide Run;
  }

  /** Up to the first correction held back since the last move the arm is on the target. */
  lemma OnTargetUntilHeldBack(c: Setup, m: Machine, es: seq<Event>, i: nat)
    requires m.phase == Search && ArmOnTarget(m) && Searching(c, m, es) && LastMove(c, m, es) <= i <= |es|
    requires forall j :: LastMove(c, m, es) <= j < i ==> !Throttled(Run(c, m, es[..j]), es[j])
    ensures ArmOnTarget(Run(c, m, es[..i]))
  {
    hide Run, Moves, Throttled, Searching, ArmOnTarget;
    var last, before := LastMove(c, m, es), es[..i];
    SinceTheLastMove(c, m, es);
    NoMovesSinceTheLast(c, m, es);
    SearchingUpTo(c, m, es, i);
    assert forall j :: 0 <= j < i ==> before[..j] == es[..j] && before[j] == es[j];
    assert before[..last] == es[..last];
    UntouchedStays(c, m, before, last);
  }

  /**
   * If exactly one correction was held back since the last move, call `i`, the arm is on the target exactly if that
   * correction moved neither axis: an axis off centre then was at its limit already.
   */
  lemma OneHeldBackCorrection(c: Setup, m: Machine, from: nat, es: seq<Event>, i: nat)
    requires m.phase == Search && ArmOnTarget(m) && Searching(c, m, es) && LastMove(c, m, es) <= i < |es|
    requires OnPlan(c, m) && InBounds(m, from) && Timely(from, es[..i])
    requires 0.0 <= c.kd && 40.0 * c.kd < 16.0 * c.kp
    requires Throttled(Run(c, m, es[..i]), es[i])
    requires forall j :: LastMove(c, m, es) <= j < |es| && j != i ==> !Throttled(Run(c, m, es[..j]), es[j])
    ensures var q, r := Run(c, m, es[..i]), es[i].report;
      r.Seen? && (ArmOnTarget(Run(c, m, es)) <==>
        Rests(c, q.ty, r.Ex(), q.lastEx, -300.0, 300.0) && Rests(c, q.tx, r.Ey(), q.lastEy, 80.0, 320.0))
  {
    hide Run, Step, Moves, Throttled, Searching, ArmOnTarget, Rests, OnPlan, InBounds, Timely;
    OnTargetUntilHeldBack(c, m, es, i);
    NoMovesSinceTheLast(c, m, es);
    RunKeeps(c, m, from, es[..i]);
    HeldBackStep(c, Run(c, m, es[..i]), Clock(from, es[..i]), es[i]);
    assert es[..i + 1] == es[..i] + [es[i]];
    RunLast(c, m, es[..i], es[i]);
    UntouchedStays(c, m, es, i + 1);
  }

  // ---- A run in which the arm is left behind ----

  lemma TimelyLast(from: nat, es: seq<Event>, e: Event)
    requires Timely(from, es) && Clock(from, es) <= e.now <= e.late
    ensures Timely(from, es + [e]) && Clock(from, es + [e]) == e.late
  {
    assert (es + [e])[..|es|] == es;
  }

  lemma RunLast(c: Setup, m: Machine, es: seq<Event>, e: Event)
    ensures Run(c, m, es + [e]) == Step(c, Run(c, m, es), e)
  {
    assert (es + [e])[..|es|] == es;
    hide Step;
  }

  /** Four events one after the other. */
  lemma Four(c: Setup, m: Machine, from: nat, e1: Event, e2: Event, e3: Event, e4: Event)
    requires from <= e1.now <= e1.late <= e2.now <= e2.late <= e3.now <= e3.late <= e4.now <= e4.late
    ensures Timely(from, [e1, e2, e3, e4])
    ensures Run(c, m, [e1, e2, e3, e4]) == Step(c, Step(c, Step(c, Step(c, m, e1), e2), e3), e4)
  {
    assert Timely(from, []) && Clock(from, []) == from && Run(c, m, []) == m;
    hide Step, Run, Timely, Clock;
    assert [] + [e1] == [e1] && [e1] + [e2] == [e1, e2];
    assert [e1, e2] + [e3] == [e1, e2, e3] && [e1, e2, e3] + [e4] == [e1, e2, e3, e4];
    TimelyLast(from, [], e1);
    TimelyLast(from, [e1], e2);
    TimelyLast(from, [e1, e2], e3);
    TimelyLast(from, [e1, e2, e3], e4);
    RunLast(c, m, [], e1);
    RunLast(c, m, [e1], e2);
    RunLast(c, m, [e1, e2], e3);
    RunLast(c, m, [e1, e2, e3], e4);
  }

  /**
   * With the default gains, after a block 60 and then, 10 ms later, 20 columns off the middle, the arm is sent to
   * y = 5.2 only, but the grab is set to y = 6.4.
   */
  lemma ThrottledMoveIsLost(c: Setup, idle: Machine, color: Color, b: Bearing)
    requires c.kp == 0.08 && c.kd == 0.01 && !idle.busy && idle.lastMove == 0 && |idle.list| == 8
    ensures var es := [Tick(1000, 1000, Seen(100, 120), b), Tick(1010, 1010, Seen(140, 120), b),
                       Tick(1020, 1020, Seen(160, 120), b), Tick(4020, 4020, Seen(160, 120), b)];
      var r := Run(c, Start(idle, [color], 1, true, 0), es);
      && Timely(0, es) && r.phase == Down && r.grabY == 6.4
      && r.orders == [Home(Search, 1000), Order(Search, S_X, 5.2, S_Z, C_OPEN, 30)]
  {
    var far, near := Tick(1000, 1000, Seen(100, 120), b), Tick(1010, 1010, Seen(140, 120), b);
    var mid, late := Tick(1020, 1020, Seen(160, 120), b), Tick(4020, 4020, Seen(160, 120), b);
    var m := Start(idle, [color], 1, true, 0);
    var m1 := Step(c, m, far);
    assert m1 == m.(pollTime := 1000, lastEx := 60.0, ty := 5.2, lastMove := 1000,
                    orders := m.orders + [Order(Search, S_X, 5.2, S_Z, C_OPEN, 30)]);
    var m2 := Step(c, m1, near);
    assert m2 == m1.(pollTime := 1010, lastEx := 20.0, ty := 6.4);
    var m3 := Step(c, m2, mid);
    assert m3 == m2.(pollTime := 1020, lastEx := 0.0, locked := true, stable := 1, stableStart := 1020);
    var m4 := Step(c, m3, late);
    assert m4.phase == Down && m4.grabY == 6.4 && m4.orders == m1.orders;
    hide *;
    Four(c, m, 0, far, near, mid, late);
  }
}
