/** Sweeping through joint waypoints in one minimum-jerk move, over real numbers. */
module FollowPath {
  import opened Reals

  /** One joint pose: the arm joints in a fixed order, in ticks. */
  type Pose = seq<real>

  const STEP_TICKS := 25.0
  const TINY := 0.000000001

  // ---- Progress ----

  function MinJerk(t: real): real {
    t * t * t * (10.0 - 15.0 * t + 6.0 * t * t)
  }

  /** Slope of the chord between `a` and `b`. */
  function Chord(a: real, b: real): real {
    10.0 * (a * a + a * b + b * b) - 15.0 * (a * a * a + a * a * b + a * b * b + b * b * b)
    + 6.0 * (a * a * a * a + a * a * a * b + a * a * b * b + a * b * b * b + b * b * b * b)
  }

  lemma ChordIsTheSlope(a: real, b: real)
    ensures MinJerk(b) - MinJerk(a) == (b - a) * Chord(a, b)
  {
  }

  /** Its slope at `t` is 30 t^2 (1 - t)^2: at rest at both ends, and 15/8 in the middle. */
  lemma SlopeIs(t: real)
    ensures Chord(t, t) == 30.0 * ((t * (1.0 - t)) * (t * (1.0 - t)))
  {
    var t2 := t * t;
    assert (t * (1.0 - t)) * (t * (1.0 - t)) == t2 - 2.0 * (t2 * t) + t2 * t2;
  }

  lemma SquareOfCentre(a: real, b: real)
    requires 0.0 <= a <= b <= 1.0
    ensures var s, d := (a + b) / 2.0 - 0.5, (b - a) / 2.0;
      s * s >= 0.0 && d * d >= 0.0 && s * s + d * d <= 0.25
  {
    NonNegative(a, 1.0 - a);
    NonNegative(b, 1.0 - b);
    var s, d := (a + b) / 2.0 - 0.5, (b - a) / 2.0;
    assert s * s + d * d == 0.25 - (a * (1.0 - a) + b * (1.0 - b)) / 2.0;
    if s >= 0.0 {
      NonNegative(s, s);
    } else {
      NonNegative(-s, -s);
    }
    NonNegative(d, d);
  }

  function UpperForm(w: real, e: real): real {
    15.0 * (w * (1.0 - 2.0 * w - 4.0 * e)) + e * (5.0 - 6.0 * e)
  }

  function LowerForm(w: real, e: real): real {
    30.0 * ((0.25 - w - e) * (0.25 - w - e)) + e * (10.0 - 24.0 * e)
  }

  /**
   * With `w` and `e` the squares of the chord's middle, measured from 1/2, and of its half length, the slope has two
   * forms, one that shows it is not negative and one that shows it is at most 15/8.
   */
  lemma ChordForms(a: real, b: real) returns (w: real, e: real)
    requires 0.0 <= a <= b <= 1.0
    ensures w >= 0.0 && e >= 0.0 && w + e <= 0.25
    ensures Chord(a, b) == 15.0 / 8.0 - UpperForm(w, e) && Chord(a, b) == LowerForm(w, e)
  {
    SquareOfCentre(a, b);
    var s, d := (a + b) / 2.0 - 0.5, (b - a) / 2.0;
    w, e := s * s, d * d;
  }

  lemma FormBounds(w: real, e: real)
    requires w >= 0.0 && e >= 0.0 && w + e <= 0.25
    ensures UpperForm(w, e) >= 0.0 && LowerForm(w, e) >= 0.0
  {
    NonNegative(w, 1.0 - 2.0 * w - 4.0 * e);
    NonNegative(e, 5.0 - 6.0 * e);
    NonNegative(0.25 - w - e, 0.25 - w - e);
    NonNegative(e, 10.0 - 24.0 * e);
  }

  lemma ChordBounds(a: real, b: real)
    requires 0.0 <= a <= b <= 1.0
    ensures 0.0 <= Chord(a, b) <= 15.0 / 8.0
  {
    hide *;
    var w, e := ChordForms(a, b);
    FormBounds(w, e);
  }

  /** Minimum-jerk progress never goes back and never runs faster than 15/8 of a uniform sweep. */
  lemma MinJerkAdvances(a: real, b: real)
    requires 0.0 <= a <= b <= 1.0
    ensures 0.0 <= MinJerk(b) - MinJerk(a) <= 15.0 / 8.0 * (b - a)
  {
    ChordIsTheSlope(a, b);
    ChordBounds(a, b);
    hide MinJerk, Chord;
    NonNegative(b - a, Chord(a, b));
    NonNegative(b - a, 15.0 / 8.0 - Chord(a, b));
  }

  /** It runs from 0 to 1, and its second half mirrors the first. */
  lemma MinJerkRange(t: real)
    requires 0.0 <= t <= 1.0
    ensures 0.0 <= MinJerk(t) <= 1.0 && MinJerk(0.0) == 0.0 && MinJerk(1.0) == 1.0
    ensures MinJerk(1.0 - t) == 1.0 - MinJerk(t)
  {
    MinJerkAdvances(0.0, t);
    MinJerkAdvances(t, 1.0);
  }

  // ---- The path ----

  function Abs(x: real): real {
    if x < 0.0 then -x else x
  }

  function Max(x: real, y: real): real {
    if x < y then y else x
  }

  function Clip(x: real, lo: real, hi: real): real {
    if x < lo then lo else if x > hi then hi else x
  }

  function Blend(a: real, b: real, t: real): real {
    a + t * (b - a)
  }

  /** Largest change of one of the first `n` joints. */
  function Gap(a: Pose, b: Pose, n: nat): (g: real)
    requires n <= |a| == |b|
    ensures g >= 0.0 && forall j :: 0 <= j < n ==> Abs(b[j] - a[j]) <= g
  {
    if n == 0 then 0.0 else Max(Gap(a, b, n - 1), Abs(b[n - 1] - a[n - 1]))
  }

  /** The current pose and the waypoints, all with the same joints. */
  predicate Waypoints(points: seq<Pose>) {
    |points| >= 1 && |points[0]| >= 1 && forall i :: 0 <= i < |points| ==> |points[i]| == |points[0]|
  }

  function Length(points: seq<Pose>, i: nat): (l: real)
    requires Waypoints(points) && i + 1 < |points|
    ensures l >= 0.0
  {
    Gap(points[i], points[i + 1], |points[0]|)
  }

  /** Path length up to waypoint `i`. */
  function Cumulative(points: seq<Pose>, i: nat): (c: real)
    requires Waypoints(points) && i < |points|
    ensures c >= 0.0
  {
    if i == 0 then 0.0 else Cumulative(points, i - 1) + Length(points, i - 1)
  }

  function Total(points: seq<Pose>): real
    requires Waypoints(points)
  {
    Cumulative(points, |points| - 1)
  }

  /** The last of the waypoints up to `k` that is not beyond distance `d`. */
  function LastPassed(points: seq<Pose>, d: real, k: nat): (i: nat)
    requires Waypoints(points) && k < |points| && d >= 0.0
    ensures i <= k && Cumulative(points, i) <= d && (i < k ==> d < Cumulative(points, i + 1))
  {
    if k == 0 || Cumulative(points, k) <= d then k else LastPassed(points, d, k - 1)
  }

  function Segment(points: seq<Pose>, d: real): (i: nat)
    requires Waypoints(points) && |points| >= 2 && d >= 0.0
    ensures i < |points| - 1
  {
    var i := LastPassed(points, d, |points| - 1);
    if i < |points| - 2 then i else |points| - 2
  }

  /** The share of segment `i` covered at distance `d`. */
  function Local(points: seq<Pose>, i: nat, d: real): real
    requires Waypoints(points) && i + 1 < |points|
  {
    Clip((d - Cumulative(points, i)) / Max(Length(points, i), TINY), 0.0, 1.0)
  }

  function At(points: seq<Pose>, d: real): (p: Pose)
    requires Waypoints(points) && |points| >= 2 && d >= 0.0
    ensures |p| == |points[0]|
  {
    var i := Segment(points, d);
    var t := Local(points, i, d);
    seq(|points[0]|, j requires 0 <= j < |points[0]| => Blend(points[i][j], points[i + 1][j], t))
  }

  /** The length of a segment so short that the division by at least 1e-9 cuts it off; nothing for any other. */
  function CutOff(points: seq<Pose>, i: nat): (l: real)
    requires Waypoints(points) && i + 1 < |points|
    ensures 0.0 <= l < 0.000000001
  {
    if Length(points, i) < 0.000000001 then Length(points, i) else 0.0
  }

  lemma {:induction false} CumulativeGrows(points: seq<Pose>, i: nat, k: nat)
    requires Waypoints(points) && i <= k < |points|
    ensures Cumulative(points, i) <= Cumulative(points, k)
  {
    if i < k {
      CumulativeGrows(points, i, k - 1);
    }
  }

  /** Between two waypoints no joint moves farther than the path is long. */
  lemma {:induction false} WaypointsAreNear(points: seq<Pose>, i: nat, k: nat, j: nat)
    requires Waypoints(points) && i <= k < |points| && j < |points[0]|
    ensures Abs(points[k][j] - points[i][j]) <= Cumulative(points, k) - Cumulative(points, i)
  {
    if i < k {
      WaypointsAreNear(points, i, k - 1, j);
      assert Abs(points[k][j] - points[k - 1][j]) <= Length(points, k - 1);
    }
  }

  lemma SegmentContains(points: seq<Pose>, d: real)
    requires Waypoints(points) && |points| >= 2 && 0.0 <= d <= Total(points)
    ensures var i := Segment(points, d); Cumulative(points, i) <= d <= Cumulative(points, i + 1)
  {
    var n := |points| - 1;
    var i := LastPassed(points, d, n);
    if i == n {
      CumulativeGrows(points, n - 1, n);
    }
  }

  /** The share `x` of `l` of a change by `delta`. */
  function Moved(x: real, l: real, delta: real): real
    requires l > 0.0
  {
    x / l * delta
  }

  lemma Fraction(x: real, l: real, delta: real)
    requires 0.0 <= x <= l && 0.0 < l && Abs(delta) <= l
    ensures Abs(Moved(x, l, delta)) <= x && Abs(delta - Moved(x, l, delta)) <= l - x
    ensures Abs(delta - Moved(x, l, delta)) <= Abs(delta)
  {
    var t := x / l;
    assert t * l == x;
    ShareIsAtMostOne(x, l);
    NonNegative(t, l - Abs(delta));
    NonNegative(1.0 - t, l - Abs(delta));
    NonNegative(t, Abs(delta));
    NonNegative(1.0 - t, Abs(delta));
    assert t * Abs(delta) == Abs(t * delta);
    assert (1.0 - t) * Abs(delta) == Abs(delta - t * delta);
  }

  lemma DifferenceOfFractions(x: real, y: real, l: real, delta: real)
    requires l > 0.0
    ensures Moved(y, l, delta) - Moved(x, l, delta) == Moved(y - x, l, delta)
  {
  }

  lemma BlendOfFraction(a: real, b: real, x: real, l: real)
    requires l > 0.0
    ensures Blend(a, b, x / l) == a + Moved(x, l, b - a)
  {
  }

  lemma LocalShare(points: seq<Pose>, i: nat, d: real)
    requires Waypoints(points) && i + 1 < |points| && Cumulative(points, i) <= d <= Cumulative(points, i + 1)
    ensures Local(points, i, d) == (d - Cumulative(points, i)) / Max(Length(points, i), TINY)
  {
    var x, w := d - Cumulative(points, i), Max(Length(points, i), TINY);
    assert x <= Length(points, i) <= w;
    hide Cumulative, Length;
    ShareIsAtMostOne(x, w);
  }

  /** Where the path is inside a segment. */
  lemma InsideSegment(points: seq<Pose>, d: real, j: nat)
    requires Waypoints(points) && |points| >= 2 && 0.0 <= d <= Total(points) && j < |points[0]|
    ensures var i := Segment(points, d);
      var x, l, delta := d - Cumulative(points, i), Length(points, i), points[i + 1][j] - points[i][j];
      && Cumulative(points, i + 1) == Cumulative(points, i) + l
      && 0.0 <= x <= l && Abs(delta) <= l
      && At(points, d)[j] == points[i][j] + Moved(x, Max(l, TINY), delta)
  {
    var i := Segment(points, d);
    var a, b, l := points[i][j], points[i + 1][j], Length(points, i);
    SegmentContains(points, d);
    assert At(points, d)[j] == Blend(a, b, Local(points, i, d));
    assert Abs(b - a) <= l;
    assert Cumulative(points, i + 1) == Cumulative(points, i) + l;
    hide Blend, Moved, Segment, At, Cumulative, Length, Total;
    LocalShare(points, i, d);
    hide Local;
    BlendOfFraction(a, b, d - Cumulative(points, i), Max(l, TINY));
  }

  /**
   * Inside its segment the path stays within the distance travelled from one end and left to the other, which a
   * segment that is cut off can miss by its length.
   */
  lemma NearBothEnds(points: seq<Pose>, d: real, j: nat)
    requires Waypoints(points) && |points| >= 2 && 0.0 <= d <= Total(points) && j < |points[0]|
    ensures var i := Segment(points, d);
      && Abs(At(points, d)[j] - points[i][j]) <= d - Cumulative(points, i)
      && Abs(points[i + 1][j] - At(points, d)[j]) <= Cumulative(points, i + 1) - d + CutOff(points, i)
  {
    var i := Segment(points, d);
    var l, x, delta := Length(points, i), d - Cumulative(points, i), points[i + 1][j] - points[i][j];
    InsideSegment(points, d, j);
    hide Segment, At, Cumulative, Length, Total, Moved;
    Fraction(x, Max(l, TINY), delta);
  }

  /**
   * In every joint the path moves at most as far as its distance advances, plus less than 1e-9 where it leaves a
   * segment shorter than that. Short segments passed whole cost nothing.
   */
  lemma PathIsLipschitz(points: seq<Pose>, d: real, e: real, j: nat)
    requires Waypoints(points) && |points| >= 2 && j < |points[0]|
    requires 0.0 <= d <= e <= Total(points)
    ensures Abs(At(points, e)[j] - At(points, d)[j]) <= e - d + CutOff(points, Segment(points, d))
    ensures Segment(points, d) == Segment(points, e) ==> Abs(At(points, e)[j] - At(points, d)[j]) <= e - d
  {
    var i, k := Segment(points, d), Segment(points, e);
    SegmentContains(points, d);
    SegmentContains(points, e);
    hide *;
    if i < k {
      LaterSegment(points, d, e, j);
    } else if i == k {
      SameSegment(points, d, e, j);
    } else {
      CumulativeGrows(points, k + 1, i);
      assert false;
    }
  }

  lemma LaterSegment(points: seq<Pose>, d: real, e: real, j: nat)
    requires Waypoints(points) && |points| >= 2 && j < |points[0]|
    requires 0.0 <= d <= e <= Total(points) && Segment(points, d) < Segment(points, e)
    ensures Abs(At(points, e)[j] - At(points, d)[j]) <= e - d + CutOff(points, Segment(points, d))
  {
    hide CutOff, At, Segment, Total, Cumulative;
    NearBothEnds(points, d, j);
    NearBothEnds(points, e, j);
    WaypointsAreNear(points, Segment(points, d) + 1, Segment(points, e), j);
  }

  lemma SameSegment(points: seq<Pose>, d: real, e: real, j: nat)
    requires Waypoints(points) && |points| >= 2 && j < |points[0]|
    requires 0.0 <= d <= e <= Total(points) && Segment(points, d) == Segment(points, e)
    ensures Abs(At(points, e)[j] - At(points, d)[j]) <= e - d
  {
    var i := Segment(points, d);
    var w, x, y := Max(Length(points, i), TINY), d - Cumulative(points, i), e - Cumulative(points, i);
    var delta := points[i + 1][j] - points[i][j];
    InsideSegment(points, d, j);
    InsideSegment(points, e, j);
    hide Segment, At, Cumulative, Length, Total, Moved;
    Fraction(y - x, w, delta);
    DifferenceOfFractions(x, y, w, delta);
  }

  // ---- The sweep ----

  function Ceil(x: real): (n: int)
    ensures n as real - 1.0 < x <= n as real
  {
    -((-x).Floor)
  }

  /** The number of sweep commands: as asked for, or more if the path is long. */
  function EffectiveSteps(points: seq<Pose>, steps: int): (n: nat)
    requires Waypoints(points) && Total(points) > 0.0
    ensures n >= 1 && n >= steps && Total(points) <= STEP_TICKS * n as real
  {
    var n := Ceil(Total(points) / STEP_TICKS);
    if steps > n then steps else n
  }

  /** It is the least number that is enough: as asked for, or a command for every 25 ticks begun. */
  lemma StepsAreLeast(points: seq<Pose>, steps: int)
    requires Waypoints(points) && Total(points) > 0.0
    ensures var n := EffectiveSteps(points, steps);
      n == steps || 25.0 * (n - 1) as real < Total(points)
  {
    hide Total;
  }

  /** `k`-th of `n` evenly spaced times from 0 to 1. */
  function Time(n: nat, k: nat): (t: real)
    requires k < n
    ensures 0.0 <= t <= 1.0
  {
    if n == 1 then 0.0 else k as real / (n - 1) as real
  }

  function Covered(progress: real, total: real): (d: real)
    ensures 0.0 <= progress <= 1.0 && total >= 0.0 ==> 0.0 <= d <= total
  {
    if 0.0 <= progress <= 1.0 && total >= 0.0 then
      NonNegative(progress, total);
      NonNegative(1.0 - progress, total);
      progress * total
    else progress * total
  }

  function Distance(points: seq<Pose>, n: nat, k: nat): (d: real)
    requires Waypoints(points) && k < n
    ensures 0.0 <= d <= Total(points)
  {
    MinJerkRange(Time(n, k));
    Covered(MinJerk(Time(n, k)), Total(points))
  }

  function Sweep(points: seq<Pose>, n: nat): (s: seq<Pose>)
    requires Waypoints(points) && |points| >= 2
    ensures |s| == n && forall k :: 0 <= k < n ==> s[k] == At(points, Distance(points, n, k))
  {
    seq(n, k requires 0 <= k < n => At(points, Distance(points, n, k)))
  }

  /** The final pose, held for some frames. */
  function Pause(points: seq<Pose>, settle: nat): (s: seq<Pose>)
    requires Waypoints(points)
    ensures |s| == settle && forall i :: 0 <= i < settle ==> s[i] == points[|points| - 1]
  {
    seq(settle, _ => points[|points| - 1])
  }

  /** All the commands of an undisturbed call. */
  function Plan(points: seq<Pose>, steps: int, settle: nat): seq<Pose>
    requires Waypoints(points)
  {
    if Total(points) <= 0.0 then []
    else
      Sweep(points, EffectiveSteps(points, steps)) + Pause(points, settle)
  }

  /** The commands given from the `k`-th on, if the simulation reports the end after those that `ended` says. */
  function Given<T>(plan: seq<T>, ended: nat -> bool, k: nat): (g: seq<T>)
    requires k <= |plan|
    ensures plan[..k] <= g <= plan
    decreases |plan| - k
  {
    if k == |plan| then plan
    else if ended(k) then plan[..k + 1]
    else Given(plan, ended, k + 1)
  }

  function Share(x: real, parts: nat): real
    requires parts > 0
  {
    x / parts as real
  }

  lemma TimesAdvance(n: nat, k: nat)
    requires k + 1 < n
    ensures Time(n, k + 1) == Time(n, k) + Share(1.0, n - 1)
    ensures Share(1.0, n - 1) > 0.0
  {
  }

  lemma ShareOfTotal(p: real, q: real, total: real, parts: nat)
    requires total >= 0.0 && parts > 0 && 0.0 <= q - p <= 15.0 / 8.0 * Share(1.0, parts)
    ensures 0.0 <= Covered(q, total) - Covered(p, total) <= 15.0 / 8.0 * Share(total, parts)
  {
    var share := Share(1.0, parts);
    NonNegative(q - p, total);
    NonNegative(15.0 / 8.0 * share - (q - p), total);
    assert share * total == Share(total, parts);
  }

  /** Distances advance by at most 15/8 of an even share of the path. */
  lemma DistancesAdvance(points: seq<Pose>, n: nat, k: nat)
    requires Waypoints(points) && k + 1 < n
    ensures 0.0 <= Distance(points, n, k + 1) - Distance(points, n, k) <= 15.0 / 8.0 * Share(Total(points), n - 1)
  {
    var p, q := MinJerk(Time(n, k)), MinJerk(Time(n, k + 1));
    TimesAdvance(n, k);
    assert Time(n, k + 1) - Time(n, k) == Share(1.0, n - 1);
    hide MinJerk, Time, Total, Share, Covered;
    MinJerkAdvances(Time(n, k), Time(n, k + 1));
    ShareOfTotal(p, q, Total(points), n - 1);
  }

  lemma LongestShare(total: real, n: nat)
    requires n >= 2 && total <= STEP_TICKS * n as real
    ensures 15.0 / 8.0 * Share(total, n - 1) <= 15.0 / 8.0 * STEP_TICKS * (n as real / (n - 1) as real)
  {
    var m := (n - 1) as real;
    NonNegative(STEP_TICKS * n as real - total, 1.0 / m);
    assert (STEP_TICKS * n as real - total) * (1.0 / m) == STEP_TICKS * (n as real / m) - total / m;
  }

  /**
   * Consecutive commands of the sweep differ in every joint by at most (15/8) * 25 * N / (N - 1) ticks, with N the
   * number of commands, plus less than 1e-9 if the first lies in a segment shorter than that.
   */
  lemma SweepIsSmooth(points: seq<Pose>, steps: int, k: nat, j: nat)
    requires Waypoints(points) && Total(points) > 0.0 && j < |points[0]|
    requires k + 1 < EffectiveSteps(points, steps)
    ensures var n := EffectiveSteps(points, steps);
      var s := Sweep(points, n);
      var slack := CutOff(points, Segment(points, Distance(points, n, k)));
      Abs(s[k + 1][j] - s[k][j]) <= 15.0 / 8.0 * 25.0 * (n as real / (n - 1) as real) + slack
  {
    var n := EffectiveSteps(points, steps);
    var d, e := Distance(points, n, k), Distance(points, n, k + 1);
    assert Sweep(points, n)[k] == At(points, d) && Sweep(points, n)[k + 1] == At(points, e);
    hide Distance, At, Total, EffectiveSteps, Share, Sweep, CutOff, Segment;
    DistancesAdvance(points, n, k);
    PathIsLipschitz(points, d, e, j);
    LongestShare(Total(points), n);
  }

  lemma {:induction false} NoDistanceNoMove(points: seq<Pose>, i: nat)
    requires Waypoints(points) && i < |points| && Cumulative(points, i) == 0.0
    ensures points[i] == points[0]
  {
    if i > 0 {
      NoDistanceNoMove(points, i - 1);
      forall j | 0 <= j < |points[0]| ensures points[i][j] == points[i - 1][j] {
        assert Abs(points[i][j] - points[i - 1][j]) <= Length(points, i - 1);
      }
      assert points[i] == points[i - 1];
    }
  }

  /** The sweep starts at the current pose, whatever the waypoints. */
  lemma SweepStartsHere(points: seq<Pose>, n: nat)
    requires Waypoints(points) && |points| >= 2 && n >= 1
    ensures Sweep(points, n)[0] == points[0]
  {
    var i := Segment(points, 0.0);
    assert Distance(points, n, 0) == 0.0;
    NoDistanceNoMove(points, LastPassed(points, 0.0, |points| - 1));
    NoDistanceNoMove(points, i);
    assert Local(points, i, 0.0) == 0.0;
    forall j | 0 <= j < |points[0]| ensures At(points, 0.0)[j] == points[0][j] {
      assert At(points, 0.0)[j] == Blend(points[i][j], points[i + 1][j], 0.0);
    }
  }

  lemma {:induction false} GapIsAttained(a: Pose, b: Pose, n: nat) returns (j: nat)
    requires n <= |a| == |b| && Gap(a, b, n) > 0.0
    ensures j < n && Abs(b[j] - a[j]) == Gap(a, b, n)
  {
    if Abs(b[n - 1] - a[n - 1]) == Gap(a, b, n) {
      j := n - 1;
    } else {
      j := GapIsAttained(a, b, n - 1);
    }
  }

  lemma WholeSegment(l: real)
    requires l >= 0.0
    ensures l >= TINY ==> Clip(l / Max(l, TINY), 0.0, 1.0) == 1.0
    ensures l < TINY ==> Clip(l / Max(l, TINY), 0.0, 1.0) == l / TINY < 1.0
  {
    if l >= TINY {
      assert l / l == 1.0;
    }
  }

  lemma BlendEnds(a: real, b: real, t: real)
    ensures Blend(a, b, 1.0) == b && (Blend(a, b, t) == b <==> a == b || t == 1.0)
  {
    assert b - Blend(a, b, t) == (1.0 - t) * (b - a);
    if Blend(a, b, t) == b {
      ZeroProduct(1.0 - t, b - a);
    }
  }

  lemma AtTheEnd(points: seq<Pose>)
    requires Waypoints(points) && |points| >= 2
    ensures var m, l := |points| - 1, Length(points, |points| - 2);
      && Segment(points, Total(points)) == m - 1
      && forall j :: 0 <= j < |points[0]| ==>
        At(points, Total(points))[j] == Blend(points[m - 1][j], points[m][j], Clip(l / Max(l, TINY), 0.0, 1.0))
  {
    var m := |points| - 1;
    assert Total(points) - Cumulative(points, m - 1) == Length(points, m - 1);
    assert Segment(points, Total(points)) == m - 1;
    hide Clip, Max, Blend, Length;
  }

  /** The path's end is the last waypoint exactly if the last segment is empty or at least 1e-9 long. */
  lemma PathEndsThere(points: seq<Pose>)
    requires Waypoints(points) && |points| >= 2
    ensures var l := Length(points, |points| - 2);
      At(points, Total(points)) == points[|points| - 1] <==> l == 0.0 || l >= 0.000000001
  {
    var m := |points| - 1;
    var a, b, l := points[m - 1], points[m], Length(points, m - 1);
    var t := Clip(l / Max(l, TINY), 0.0, 1.0);
    AtTheEnd(points);
    WholeSegment(l);
    assert forall j :: 0 <= j < |points[0]| ==> Abs(b[j] - a[j]) <= l;
    assert l == Gap(a, b, |points[0]|);
    if 0.0 < l < TINY {
      var j := GapIsAttained(a, b, |points[0]|);
      hide At, Segment, Total, Length, Clip, Gap, Blend;
      BlendEnds(a[j], b[j], t);
    } else {
      hide At, Segment, Total, Length, Clip, Gap, Blend;
      forall j | 0 <= j < |points[0]| ensures At(points, Total(points))[j] == b[j] {
        BlendEnds(a[j], b[j], t);
      }
    }
  }

  /** With at least two commands the sweep ends where the path does; with one it does not leave the current pose. */
  lemma SweepEndsThere(points: seq<Pose>, n: nat)
    requires Waypoints(points) && |points| >= 2 && n >= 1
    ensures n >= 2 ==> Sweep(points, n)[n - 1] == At(points, Total(points))
    ensures n == 1 ==> Sweep(points, n) == [points[0]]
  {
    if n == 1 {
      SweepStartsHere(points, 1);
    } else {
      assert Time(n, n - 1) == 1.0;
      assert Distance(points, n, n - 1) == Total(points);
    }
    hide At, Distance, Total;
  }

  lemma PlanStartsHere(points: seq<Pose>, steps: int, settle: nat)
    requires Waypoints(points) && Total(points) > 0.0
    ensures var p, n := Plan(points, steps, settle), EffectiveSteps(points, steps);
      |p| == n + settle && p[0] == points[0] && p[n..] == Pause(points, settle) && p[..n] == Sweep(points, n)
  {
    SweepStartsHere(points, EffectiveSteps(points, steps));
    hide Pause, Sweep, EffectiveSteps, Total;
  }

  /**
   * An undisturbed call of at least two steps pauses at the last waypoint, and its sweep ends there exactly if the
   * last segment is not cut off.
   */
  lemma PlanReachesTheLastWaypoint(points: seq<Pose>, steps: int, settle: nat)
    requires Waypoints(points) && Total(points) > 0.0 && EffectiveSteps(points, steps) >= 2
    ensures var p, n := Plan(points, steps, settle), EffectiveSteps(points, steps);
      && p[0] == points[0] && (forall i :: n <= i < |p| ==> p[i] == points[|points| - 1])
      && (p[n - 1] == points[|points| - 1] <==> CutOff(points, |points| - 2) == 0.0)
  {
    var p, n := Plan(points, steps, settle), EffectiveSteps(points, steps);
    PlanStartsHere(points, steps, settle);
    SweepEndsThere(points, n);
    PathEndsThere(points);
    var l := Length(points, |points| - 2);
    assert CutOff(points, |points| - 2) == 0.0 <==> l == 0.0 || l >= TINY;
    hide *;
    assert p[n - 1] == p[..n][n - 1];
    forall i | n <= i < |p| ensures p[i] == points[|points| - 1] {
      assert p[i] == p[n..][i - n];
    }
  }

  /** The commands stop right after the first one at which the simulation reports the end. */
  lemma {:induction false} GivenStops<T>(plan: seq<T>, ended: nat -> bool, k: nat, stop: nat)
    requires k <= stop <= |plan| && forall i :: k <= i < stop ==> !ended(i)
    ensures stop < |plan| && ended(stop) ==> Given(plan, ended, k) == plan[..stop + 1]
    ensures stop == |plan| ==> Given(plan, ended, k) == plan
    decreases stop - k
  {
    if k < stop {
      GivenStops(plan, ended, k + 1, stop);
    }
  }

  /** `_follow_path`: the commands given, when the simulation reports the end as `ended` says. */
  method Follow(points: seq<Pose>, steps: int, settle: nat, ended: nat -> bool) returns (given: seq<Pose>)
    requires Waypoints(points)
    ensures given == Given(Plan(points, steps, settle), ended, 0)
  {
    ghost var plan := Plan(points, steps, settle);
    given := [];
    if Total(points) <= 0.0 {
      return;
    }
    var n := EffectiveSteps(points, steps);
    hide At, Total, Sweep, EffectiveSteps, Given;
    for k := 0 to n
      invariant given == plan[..k] && forall i :: 0 <= i < k ==> !ended(i)
    {
      given := given + [At(points, Distance(points, n, k))];
      assert given == plan[..k + 1];
      if ended(k) {
        GivenStops(plan, ended, 0, k);
        return;
      }
    }
    for k := 0 to settle
      invariant given == plan[..n + k] && forall i :: 0 <= i < n + k ==> !ended(i)
    {
      given := given + [points[|points| - 1]];
      assert given == plan[..n + k + 1];
      if ended(n + k) {
        GivenStops(plan, ended, 0, n + k);
        return;
      }
    }
    GivenStops(plan, ended, 0, |plan|);
  }
}
