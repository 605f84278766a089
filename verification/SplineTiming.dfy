/** Timing of a B-spline chunk: repaired knots, the slow-down around a grasp, and the times evaluated. */
module SplineTiming {
  import opened Common
  import opened Reals

  const NUDGE := 0.000001

  // ---- Knots ----

  predicate NonDecreasing(s: seq<real>) {
    forall i, j :: 0 <= i <= j < |s| ==> s[i] <= s[j]
  }

  /** The first knots after repair: each is kept unless it is below its repaired predecessor. */
  function Safer(knots: seq<real>): (s: seq<real>)
    ensures |s| == |knots|
  {
    if knots == [] then []
    else
      var k := |knots| - 1;
      var before := Safer(knots[..k]);
      before + [if k > 0 && knots[k] < before[k - 1] then before[k - 1] + NUDGE else knots[k]]
  }

  /** Knot `i` is as given, or was raised to just past its predecessor. */
  predicate RaisedAtMost(knots: seq<real>, s: seq<real>, i: nat) {
    && i < |s| == |knots|
    && (s[i] == knots[i] || (i > 0 && knots[i] < s[i - 1] && s[i] == s[i - 1] + 0.000001))
  }

  lemma {:induction false} SaferIsOrdered(knots: seq<real>)
    ensures NonDecreasing(Safer(knots))
    ensures forall i :: 0 <= i < |knots| ==> knots[i] <= Safer(knots)[i]
  {
    if knots != [] {
      SaferIsOrdered(knots[..|knots| - 1]);
    }
  }

  lemma {:induction false} SaferRaises(knots: seq<real>, i: nat)
    requires i < |knots|
    ensures RaisedAtMost(knots, Safer(knots), i)
  {
    if i < |knots| - 1 {
      SaferRaises(knots[..|knots| - 1], i);
    }
  }

  /** In order, never lowered, and raised only to step just past a predecessor that was higher. */
  lemma SaferIsSound(knots: seq<real>)
    ensures var s := Safer(knots);
      && NonDecreasing(s)
      && forall i :: 0 <= i < |s| ==> knots[i] <= s[i] && RaisedAtMost(knots, s, i)
  {
    SaferIsOrdered(knots);
    forall i | 0 <= i < |knots| ensures RaisedAtMost(knots, Safer(knots), i) {
      SaferRaises(knots, i);
    }
  }

  /** Knots are left alone exactly if they were in order. */
  lemma {:induction false} SaferKeepsIffOrdered(knots: seq<real>)
    ensures Safer(knots) == knots <==> NonDecreasing(knots)
  {
    SaferIsSound(knots);
    if NonDecreasing(knots) && knots != [] {
      var k := |knots| - 1;
      SaferKeepsIffOrdered(knots[..k]);
      assert Safer(knots[..k]) == knots[..k];
      assert knots[..k] + [knots[k]] == knots;
    }
  }

  lemma SaferTwice(knots: seq<real>)
    ensures Safer(Safer(knots)) == Safer(knots)
  {
    SaferIsSound(knots);
    SaferKeepsIffOrdered(Safer(knots));
  }

  lemma SaferNext(knots: seq<real>, k: nat)
    requires 0 < k < |knots|
    ensures Safer(knots[..k + 1]) ==
      Safer(knots[..k]) +
      [if knots[k] < Safer(knots[..k])[k - 1] then Safer(knots[..k])[k - 1] + NUDGE else knots[k]]
  {
    assert knots[..k + 1][..k] == knots[..k];
  }

  /** `safer_knots`: repairs a copy in place, left to right. */
  method SaferKnots(given: seq<real>) returns (knots: array<real>)
    ensures fresh(knots) && knots[..] == Safer(given)
  {
    knots := new real[|given|](i requires 0 <= i < |given| => given[i]);
    if |given| == 0 {
      return;
    }
    var i := 1;
    assert given[..1] == [given[0]] && given[..1][..0] == [];
    while i < knots.Length
      invariant 1 <= i <= knots.Length == |given|
      invariant knots[..i] == Safer(given[..i])
      invariant forall k :: i <= k < |given| ==> knots[k] == given[k]
    {
      SaferNext(given, i);
      ghost var before := knots[..i];
      if knots[i] < knots[i - 1] {
        knots[i] := knots[i - 1] + NUDGE;
      }
      assert knots[..i] == before;
      i := i + 1;
      assert knots[..i] == before + [knots[i - 1]];
    }
    assert given[..i] == given;
  }

  // ---- Slow-down ----

  /** `q` of `ramp` parts. */
  function Part(q: nat, ramp: nat): real
    requires ramp > 0
  {
    q as real / ramp as real
  }

  /** The rate when `share` of the ramp is done. */
  function Ramped(speedUp: real, share: real): real {
    1.0 + share * (speedUp - 1.0)
  }

  lemma PartBounds(q: nat, ramp: nat)
    requires q <= ramp && ramp > 0
    ensures 0.0 <= Part(q, ramp) <= 1.0 && Part(ramp, ramp) == 1.0
  {
    ShareIsAtMostOne(q as real, ramp as real);
    ShareIsAtMostOne(ramp as real, ramp as real);
  }

  lemma RestOfPart(left: nat, ramp: nat)
    requires left <= ramp && ramp > 0
    ensures Part(ramp - left, ramp) == 1.0 - Part(left, ramp)
  {
    var m, l := ramp as real, left as real;
    DivideDifference(m, l, m);
    ShareIsAtMostOne(m, m);
    assert (ramp - left) as real == m - l;
  }

  lemma RampedBounds(speedUp: real, share: real)
    requires 0.0 <= share <= 1.0
    ensures speedUp >= 1.0 ==> 1.0 <= Ramped(speedUp, share) <= speedUp
    ensures Ramped(speedUp, 1.0) == speedUp
  {
    if speedUp >= 1.0 {
      NonNegative(share, speedUp - 1.0);
      NonNegative(1.0 - share, speedUp - 1.0);
    }
  }

  /** The rate `quiet` steps after a change, in a ramp of `ramp` steps. */
  function RampRate(speedUp: real, ramp: nat, quiet: nat): (r: real)
    requires quiet > 0
    ensures speedUp >= 1.0 ==> 1.0 <= r <= speedUp
  {
    if quiet >= ramp then speedUp
    else
      PartBounds(quiet, ramp);
      RampedBounds(speedUp, Part(quiet, ramp));
      Ramped(speedUp, Part(quiet, ramp))
  }

  /** Steps since the last gripper change, if there was one. */
  function QuietSteps(changes: seq<bool>): Option<nat> {
    if changes == [] then None
    else if changes[|changes| - 1] then Some(0)
    else
      match QuietSteps(changes[..|changes| - 1])
      case None => None
      case Some(k) => Some(k + 1)
  }

  /** The rate the last of a history of steps runs at: 1 at a change, then the ramp, full speed without one. */
  function Rate(speedUp: real, ramp: nat, changes: seq<bool>): real
    requires changes != []
  {
    match QuietSteps(changes)
    case None => speedUp
    case Some(k) => if k == 0 then 1.0 else RampRate(speedUp, ramp, k)
  }

  function Changes(changes: seq<bool>): nat {
    if changes == [] then 0
    else Changes(changes[..|changes| - 1]) + if changes[|changes| - 1] then 1 else 0
  }

  /** Where the gripper changed. */
  function ChangedAt(changes: seq<bool>): set<int> {
    set i | 0 <= i < |changes| && changes[i]
  }

  lemma {:induction false} ChangesAre(changes: seq<bool>)
    ensures Changes(changes) == |ChangedAt(changes)|
  {
    if changes == [] {
      assert ChangedAt(changes) == {};
    } else {
      var k := |changes| - 1;
      ChangesAre(changes[..k]);
      assert ChangedAt(changes) == ChangedAt(changes[..k]) + if changes[k] then {k} else {};
    }
  }

  class GripperSlowdown {
    const speedUp: real
    const rampSteps: nat
    var rampLeft: nat
    var slowSteps: nat
    /** Whether the gripper changed, for every call since the last reset. */
    ghost var changes: seq<bool>

    /** What is left of the ramp follows from the steps since the last change alone. */
    ghost predicate Valid()
      reads this
    {
      && slowSteps == Changes(changes)
      && match QuietSteps(changes)
        case None => rampLeft == 0
        case Some(k) => rampLeft == if k < rampSteps then rampSteps - k else 0
    }

    constructor (speedUp: real, rampSteps: nat)
      ensures Valid() && changes == [] && this.speedUp == speedUp && this.rampSteps == rampSteps
    {
      this.speedUp, this.rampSteps := speedUp, rampSteps;
      rampLeft, slowSteps, changes := 0, 0, [];
    }

    method Reset()
      modifies this
      ensures Valid() && changes == [] && slowSteps == 0
    {
      rampLeft, slowSteps, changes := 0, 0, [];
    }

    /** `rate`, given whether the planned gripper command changes within the look-ahead. */
    method NextRate(changing: bool) returns (r: real)
      requires Valid()
      modifies this
      ensures Valid() && changes == old(changes) + [changing]
      ensures r == Rate(speedUp, rampSteps, changes)
    {
      changes := changes + [changing];
      assert changes[..|changes| - 1] == old(changes);
      if changing {
        rampLeft := rampSteps;
        slowSteps := slowSteps + 1;
        return 1.0;
      }
      if rampLeft > 0 {
        rampLeft := rampLeft - 1;
        RampStep(speedUp, rampSteps, rampLeft);
        return Ramped(speedUp, 1.0 - rampLeft as real / rampSteps as real);
      }
      return speedUp;
    }
  }

  lemma RampStep(speedUp: real, ramp: nat, left: nat)
    requires left < ramp
    ensures Ramped(speedUp, 1.0 - Part(left, ramp)) == RampRate(speedUp, ramp, ramp - left)
  {
    RestOfPart(left, ramp);
    PartBounds(ramp, ramp);
    RampedBounds(speedUp, 1.0);
    hide Part, Ramped;
  }

  /** `k` steps without a gripper change. */
  function Quiet(k: nat): (s: seq<bool>)
    ensures |s| == k
  {
    if k == 0 then [] else Quiet(k - 1) + [false]
  }

  lemma {:induction false} QuietAfterChange(before: seq<bool>, k: nat)
    ensures QuietSteps(before + [true] + Quiet(k)) == Some(k)
  {
    var all := before + [true] + Quiet(k);
    if k > 0 {
      QuietAfterChange(before, k - 1);
      assert all[..|all| - 1] == before + [true] + Quiet(k - 1);
    }
  }

  /**
   * Whatever happened before, and wherever chunks end in between: `k` quiet steps after a gripper change the rate is
   * 1 + min(k, ramp) / ramp * (speedUp - 1).
   */
  lemma RampIsExact(speedUp: real, ramp: nat, before: seq<bool>, k: nat)
    requires ramp > 0
    ensures Rate(speedUp, ramp, before + [true] + Quiet(k)) ==
      1.0 + (if k < ramp then k else ramp) as real / ramp as real * (speedUp - 1.0)
  {
    RampRateIsExact(speedUp, ramp, k);
    hide RampRate;
    QuietAfterChange(before, k);
  }

  lemma RampRateIsExact(speedUp: real, ramp: nat, k: nat)
    requires ramp > 0
    ensures (if k == 0 then 1.0 else RampRate(speedUp, ramp, k)) ==
      1.0 + (if k < ramp then k else ramp) as real / ramp as real * (speedUp - 1.0)
  {
    var share := Part(if k < ramp then k else ramp, ramp);
    assert Ramped(speedUp, share) ==
      1.0 + (if k < ramp then k else ramp) as real / ramp as real * (speedUp - 1.0);
    PartBounds(ramp, ramp);
    RampedBounds(speedUp, 1.0);
    NoPart(speedUp, ramp);
    hide Part, Ramped;
  }

  lemma NoPart(speedUp: real, ramp: nat)
    requires ramp > 0
    ensures Ramped(speedUp, Part(0, ramp)) == 1.0
  {
    assert Part(0, ramp) == 0.0;
  }

  /** As long as the gripper has never changed, the rate is full speed. */
  lemma RateWithoutChange(speedUp: real, ramp: nat, k: nat)
    requires k > 0
    ensures Rate(speedUp, ramp, Quiet(k)) == speedUp
  {
    NoChangeInQuiet(k);
  }

  lemma {:induction false} NoChangeInQuiet(k: nat)
    ensures QuietSteps(Quiet(k)) == None
  {
    if k > 0 {
      NoChangeInQuiet(k - 1);
      assert Quiet(k)[..k - 1] == Quiet(k - 1);
    }
  }

  /** With no ramp it is full speed again right after a change. */
  lemma RateWithoutRamp(speedUp: real, before: seq<bool>, k: nat)
    ensures Rate(speedUp, 0, before + [true] + Quiet(k)) == if k == 0 then 1.0 else speedUp
  {
    QuietAfterChange(before, k);
  }

  lemma RateIsBetween(speedUp: real, ramp: nat, changes: seq<bool>)
    requires changes != [] && speedUp >= 1.0
    ensures 1.0 <= Rate(speedUp, ramp, changes) <= speedUp
  {
  }

  // ---- The times of a chunk ----

  /** The rates after each evaluation: always `speedUp`, or what the slow-down makes of the planned changes. */
  function Rates(speedUp: real, slow: Option<(real, nat)>, history: seq<bool>, changing: seq<bool>): (r: seq<real>)
    ensures |r| == |changing|
    ensures speedUp >= 1.0 && (slow.Some? ==> slow.value.0 >= 1.0) ==> forall i :: 0 <= i < |r| ==> r[i] >= 1.0
  {
    if changing == [] then []
    else
      var k := |changing| - 1;
      Rates(speedUp, slow, history, changing[..k]) +
      [match slow case None => speedUp case Some(s) => Rate(s.0, s.1, history + changing)]
  }

  /** The time after some steps from `t`. */
  function Elapsed(t: real, rates: seq<real>): real {
    if rates == [] then t else Elapsed(t, rates[..|rates| - 1]) + rates[|rates| - 1]
  }

  function Later(a: real, b: real): real {
    if a < b then b else a
  }

  /** `ts` are the times from 1 on, within the domain's end and held back to its start. */
  predicate Begun(ts: seq<real>, start: real, end: real, rates: seq<real>) {
    && |ts| <= |rates|
    && forall i :: 0 <= i < |ts| ==>
      Elapsed(1.0, rates[..i]) <= end && ts[i] == Later(Elapsed(1.0, rates[..i]), start)
  }

  /** They go on until `n` are made or the domain ends. */
  predicate Scheduled(ts: seq<real>, start: real, end: real, n: nat, rates: seq<real>) {
    && |ts| <= n <= |rates| && Begun(ts, start, end, rates)
    && (|ts| == n || Elapsed(1.0, rates[..|ts|]) > end)
  }

  lemma {:induction false} ElapsedGrows(t: real, rates: seq<real>, i: nat, k: nat)
    requires i <= k <= |rates| && forall j :: 0 <= j < |rates| ==> rates[j] >= 1.0
    ensures Elapsed(t, rates[..k]) - Elapsed(t, rates[..i]) >= (k - i) as real
  {
    if i < k {
      ElapsedGrows(t, rates, i, k - 1);
      assert rates[..k][..k - 1] == rates[..k - 1];
    }
  }

  /** At rates of at least 1 the schedule is non-decreasing and stays in the domain. */
  lemma ScheduleStaysInside(ts: seq<real>, start: real, end: real, n: nat, rates: seq<real>)
    requires Scheduled(ts, start, end, n, rates) && start <= end
    requires forall j :: 0 <= j < |rates| ==> rates[j] >= 1.0
    ensures NonDecreasing(ts) && forall i :: 0 <= i < |ts| ==> start <= ts[i] <= end
  {
    forall i, j | 0 <= i <= j < |ts| ensures ts[i] <= ts[j] {
      ElapsedGrows(1.0, rates, i, j);
    }
  }

  /** No evaluation is before the domain's start or before its own time, and each is at one of the two. */
  lemma ScheduleIsHeldBack(ts: seq<real>, start: real, end: real, n: nat, rates: seq<real>, i: nat)
    requires Scheduled(ts, start, end, n, rates) && i < |ts|
    ensures ts[i] >= start && ts[i] >= Elapsed(1.0, rates[..i])
    ensures ts[i] == start || ts[i] == Elapsed(1.0, rates[..i])
  {
  }

  /** The time after some steps is the start plus the rates of all of them. */
  function Sum(rates: seq<real>): real {
    if rates == [] then 0.0 else rates[0] + Sum(rates[1..])
  }

  lemma {:induction false} SumLast(rates: seq<real>)
    requires rates != []
    ensures Sum(rates) == Sum(rates[..|rates| - 1]) + rates[|rates| - 1]
  {
    if |rates| > 1 {
      SumLast(rates[1..]);
      assert rates[1..][..|rates| - 2] == rates[..|rates| - 1][1..];
    }
  }

  lemma {:induction false} ElapsedIsTheSum(t: real, rates: seq<real>)
    ensures Elapsed(t, rates) == t + Sum(rates)
  {
    if rates != [] {
      ElapsedIsTheSum(t, rates[..|rates| - 1]);
      SumLast(rates);
    }
  }

  /** With rates that are not negative, evaluation `i` is made exactly if there is a step for it inside the domain. */
  lemma {:induction false} EvaluationsAreMade(
      ts: seq<real>, start: real, end: real, n: nat, rates: seq<real>, i: nat)
    requires Scheduled(ts, start, end, n, rates) && forall j :: 0 <= j < |rates| ==> rates[j] >= 0.0
    ensures i < |ts| <==> i < n && Elapsed(1.0, rates[..i]) <= end
  {
    if |ts| <= i < n {
      ElapsedNeverFalls(1.0, rates, |ts|, i);
    }
  }

  lemma {:induction false} ElapsedNeverFalls(t: real, rates: seq<real>, i: nat, k: nat)
    requires i <= k <= |rates| && forall j :: 0 <= j < |rates| ==> rates[j] >= 0.0
    ensures Elapsed(t, rates[..i]) <= Elapsed(t, rates[..k])
  {
    if i < k {
      ElapsedNeverFalls(t, rates, i, k - 1);
      assert rates[..k][..k - 1] == rates[..k - 1];
    }
  }

  /** Rates determine the schedule. */
  lemma ScheduleIsUnique(a: seq<real>, b: seq<real>, start: real, end: real, n: nat, rates: seq<real>)
    requires Scheduled(a, start, end, n, rates) && Scheduled(b, start, end, n, rates)
    ensures a == b
  {
    if |a| != |b| {
      assert false;
    }
  }

  lemma {:induction false} SlowerElapsesLess(t: real, slow: seq<real>, fast: seq<real>, k: nat)
    requires k <= |slow| == |fast| && forall i :: 0 <= i < |slow| ==> slow[i] <= fast[i]
    ensures Elapsed(t, slow[..k]) <= Elapsed(t, fast[..k])
  {
    if k > 0 {
      SlowerElapsesLess(t, slow, fast, k - 1);
      assert slow[..k][..k - 1] == slow[..k - 1] && fast[..k][..k - 1] == fast[..k - 1];
    }
  }

  /** Slowing down never loses evaluations and never runs ahead of the full-speed schedule. */
  lemma SlowdownLagsBehind(a: seq<real>, b: seq<real>, start: real, end: real, n: nat, slow: seq<real>, fast: seq<real>)
    requires Scheduled(a, start, end, n, slow) && Scheduled(b, start, end, n, fast)
    requires |slow| == |fast| && forall i :: 0 <= i < |slow| ==> slow[i] <= fast[i]
    ensures |a| >= |b| && forall i :: 0 <= i < |b| ==> a[i] <= b[i]
  {
    if |a| < |b| {
      SlowerElapsesLess(1.0, slow, fast, |a|);
      assert false;
    }
    forall i | 0 <= i < |b| ensures a[i] <= b[i] {
      SlowerElapsesLess(1.0, slow, fast, i);
    }
  }

  lemma SlowRateIsNoFaster(speedUp: real, ramp: nat, history: seq<bool>, changing: seq<bool>, i: nat)
    requires speedUp >= 1.0 && i < |changing|
    ensures Rates(speedUp, Some((speedUp, ramp)), history, changing)[i] <= Rates(speedUp, None, history, changing)[i]
  {
    RateAt(speedUp, Some((speedUp, ramp)), history, changing, i);
    RateAt(speedUp, None, history, changing, i);
    RateIsBetween(speedUp, ramp, history + changing[..i + 1]);
  }

  /** On one chunk, the slow-down makes at least as many evaluations as full speed, none of them later. */
  lemma GraspsAreApproachedSlowly(a: seq<real>, b: seq<real>, start: real, end: real, speedUp: real, ramp: nat,
                                  history: seq<bool>, changing: seq<bool>)
    requires speedUp >= 1.0
    requires Scheduled(a, start, end, |changing|, Rates(speedUp, Some((speedUp, ramp)), history, changing))
    requires Scheduled(b, start, end, |changing|, Rates(speedUp, None, history, changing))
    ensures |a| >= |b| && forall i :: 0 <= i < |b| ==> a[i] <= b[i]
  {
    var slow, fast := Rates(speedUp, Some((speedUp, ramp)), history, changing), Rates(speedUp, None, history, changing);
    forall i | 0 <= i < |slow| ensures slow[i] <= fast[i] {
      SlowRateIsNoFaster(speedUp, ramp, history, changing, i);
    }
    SlowdownLagsBehind(a, b, start, end, |changing|, slow, fast);
  }

  lemma {:induction false} SteadyElapses(t: real, speedUp: real, rates: seq<real>)
    requires forall i :: 0 <= i < |rates| ==> rates[i] == speedUp
    ensures Elapsed(t, rates) == t + |rates| as real * speedUp
  {
    if rates != [] {
      SteadyElapses(t, speedUp, rates[..|rates| - 1]);
    }
  }

  /** Without slow-down the i-th evaluation is at 1 + i * speedUp, or at the domain's start if that is later. */
  lemma SteadySchedule(ts: seq<real>, start: real, end: real, n: nat, speedUp: real, rates: seq<real>, i: nat)
    requires Scheduled(ts, start, end, n, rates) && i < |ts|
    requires forall k :: 0 <= k < |rates| ==> rates[k] == speedUp
    ensures ts[i] == if start > 1.0 + i as real * speedUp then start else 1.0 + i as real * speedUp
  {
    SteadyElapses(1.0, speedUp, rates[..i]);
  }

  lemma {:induction false} RateAt(
      speedUp: real, slow: Option<(real, nat)>, history: seq<bool>, changing: seq<bool>, k: nat)
    requires k < |changing|
    ensures Rates(speedUp, slow, history, changing)[k] ==
      match slow case None => speedUp case Some(s) => Rate(s.0, s.1, history + changing[..k + 1])
  {
    if k == |changing| - 1 {
      assert changing[..k + 1] == changing;
    } else {
      var before := changing[..|changing| - 1];
      RateAt(speedUp, slow, history, before, k);
      assert before[..k + 1] == changing[..k + 1];
    }
  }

  ghost function Slow(s: GripperSlowdown?): Option<(real, nat)> {
    if s == null then None else Some((s.speedUp, s.rampSteps))
  }

  ghost function HistoryOf(s: GripperSlowdown?): seq<bool>
    reads s
  {
    if s == null then [] else s.changes
  }

  /** The loop of `decode_chunk`. */
  method EvaluationTimes(start: real, end: real, n: nat, speedUp: real, slowdown: GripperSlowdown?, changing: seq<bool>)
    returns (ts: seq<real>)
    requires |changing| == n && (slowdown != null ==> slowdown.Valid())
    modifies slowdown
    ensures Scheduled(ts, start, end, n, Rates(speedUp, Slow(slowdown), old(HistoryOf(slowdown)), changing))
    ensures slowdown != null ==> slowdown.Valid() && slowdown.changes == old(slowdown.changes) + changing[..|ts|]
  {
    ghost var slow, history := Slow(slowdown), HistoryOf(slowdown);
    ghost var rates := Rates(speedUp, slow, history, changing);
    ts := [];
    var t := 1.0;
    hide Rates, Rate, QuietSteps;
    while |ts| < n && t <= end
      invariant |ts| <= n && t == Elapsed(1.0, rates[..|ts|]) && Begun(ts, start, end, rates)
      invariant slowdown != null ==> slowdown.Valid() && slowdown.changes == history + changing[..|ts|]
      decreases n - |ts|
    {
      var k := |ts|;
      ts := ts + [if t < start then start else t];
      RateAt(speedUp, slow, history, changing, k);
      assert rates[..k + 1][..k] == rates[..k];
      if slowdown == null {
        t := t + speedUp;
      } else {
        var rate := slowdown.NextRate(changing[k]);
        assert history + changing[..k] + [changing[k]] == history + changing[..k + 1];
        t := t + rate;
      }
    }
  }

  datatype Decoded = TooFewKnots | Times(ts: seq<real>)

  /** The times evaluated for a chunk whose schedule is `ts`; the domain's end stands in for an empty one. */
  function Evaluated(ts: seq<real>, end: real): seq<real> {
    if ts == [] then [end] else ts
  }

  /**
   * A chunk of `n` steps is evaluated once at least, `n` times at most unless `n` is 0, at times that never go back
   * and lie in the spline's domain.
   */
  lemma ChunksAreEvaluatedInside(column: seq<real>, degree: nat, n: nat, ts: seq<real>, rates: seq<real>)
    requires |column| >= 2 * degree + 2 && forall i :: 0 <= i < |rates| ==> rates[i] >= 1.0
    requires Scheduled(ts, Safer(column)[degree], Safer(column)[|column| - (degree + 1)], n, rates)
    ensures var start, end := Safer(column)[degree], Safer(column)[|column| - (degree + 1)];
      var e := Evaluated(ts, end);
      && 1 <= |e| && (n >= 1 ==> |e| <= n) && NonDecreasing(e)
      && start <= end && forall i :: 0 <= i < |e| ==> start <= e[i] <= end
  {
    SaferIsSound(column);
    ScheduleStaysInside(ts, Safer(column)[degree], Safer(column)[|column| - (degree + 1)], n, rates);
  }

  /**
   * `decode_chunk` up to the evaluation: the times at which the spline with knots `column` is evaluated. `changing`
   * says for each step whether the planned gripper command changes.
   */
  method DecodeTimes(column: seq<real>, degree: nat, n: nat, speedUp: real, slowdown: GripperSlowdown?,
                     changing: seq<bool>) returns (d: Decoded, ghost ts: seq<real>)
    requires |changing| == n && (slowdown != null ==> slowdown.Valid())
    modifies slowdown
    ensures d.TooFewKnots? <==> |column| < 2 * degree + 2
    ensures slowdown != null ==> slowdown.Valid()
    ensures d.Times? ==>
      var start, end := Safer(column)[degree], Safer(column)[|column| - (degree + 1)];
      && Scheduled(ts, start, end, n, Rates(speedUp, Slow(slowdown), old(HistoryOf(slowdown)), changing))
      && d.ts == Evaluated(ts, end)
      && (slowdown != null ==> slowdown.changes == old(slowdown.changes) + changing[..|ts|])
  {
    ts := [];
    if |column| < 2 * degree + 2 {
      return TooFewKnots, [];
    }
    var knots := SaferKnots(column);
    var end := knots[|column| - (degree + 1)];
    hide Rates, Scheduled, Safer;
    assert knots[..][degree] == knots[degree] && knots[..][|column| - (degree + 1)] == end;
    var times := EvaluationTimes(knots[degree], end, n, speedUp, slowdown, changing);
    ts := times;
    d := Times(if times == [] then [end] else times);
  }
}
