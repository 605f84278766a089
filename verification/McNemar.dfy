/** Exact paired statistics on the outcomes of the same episodes under two policies. */
module McNemar {
  import opened Common
  import opened Reals

  // ---- Binomial coefficients ----

  function Comb(n: nat, k: int): (c: nat)
    ensures (k < 0 || k > n) ==> c == 0
    ensures 0 <= k <= n ==> c > 0
  {
    if k < 0 || k > n then 0
    else if n == 0 then 1
    else Comb(n - 1, k - 1) + Comb(n - 1, k)
  }

  lemma {:induction false} CombIsSymmetric(n: nat, k: int)
    ensures Comb(n, k) == Comb(n, n - k)
  {
    if n > 0 {
      CombIsSymmetric(n - 1, k - 1);
      CombIsSymmetric(n - 1, k);
    }
  }

  /** Sum of the coefficients from `lo` up to `hi`. */
  function Sum(n: nat, lo: int, hi: int): nat
    decreases hi - lo
  {
    if hi < lo then 0 else Sum(n, lo, hi - 1) + Comb(n, hi)
  }

  lemma {:induction false} SumSplits(n: nat, lo: int, mid: int, hi: int)
    requires lo <= mid + 1 && mid <= hi
    ensures Sum(n, lo, hi) == Sum(n, lo, mid) + Sum(n, mid + 1, hi)
    decreases hi - mid
  {
    if mid < hi {
      SumSplits(n, lo, mid, hi - 1);
    }
  }

  lemma {:induction false} SumOfNext(n: nat, lo: int, hi: int)
    ensures Sum(n + 1, lo, hi) == Sum(n, lo - 1, hi - 1) + Sum(n, lo, hi)
    decreases hi - lo
  {
    if hi >= lo {
      SumOfNext(n, lo, hi - 1);
    }
  }

  lemma {:induction false} SumIsPow2(n: nat)
    ensures Sum(n, 0, n) == Pow2(n)
  {
    if n > 0 {
      SumIsPow2(n - 1);
      SumOfNext(n - 1, 0, n);
      SumSplits(n - 1, -1, -1, n - 1);
    }
  }

  lemma {:induction false} SumMirrors(n: nat, lo: int, hi: int)
    ensures Sum(n, lo, hi) == Sum(n, n - hi, n - lo)
    decreases hi - lo
  {
    if hi >= lo {
      SumMirrors(n, lo, hi - 1);
      CombIsSymmetric(n, hi);
      SumSplits(n, n - hi, n - hi, n - lo);
    }
  }

  // ---- The test ----

  /** As far from an even split of `n` as a split that differs by `d`. */
  predicate Lopsided(n: nat, k: int, d: nat) {
    2 * k - n >= d || n - 2 * k >= d
  }

  /** Sum of the coefficients of the lopsided splits, over `k` up to `hi`. */
  function Extreme(n: nat, d: nat, hi: int): (s: nat)
    decreases hi + 1
  {
    if hi < 0 then 0 else Extreme(n, d, hi - 1) + if Lopsided(n, hi, d) then Comb(n, hi) else 0
  }

  /** The exact two-sided p-value of a split of `b + c` into `b` and `c` at even odds. */
  function PValue(b: nat, c: nat): real {
    Extreme(b + c, Difference(b, c), b + c) as real / Pow2(b + c) as real
  }

  function Difference(b: nat, c: nat): nat {
    if b < c then c - b else b - c
  }

  function Smaller(b: nat, c: nat): nat {
    if b < c then b else c
  }

  /** `mcnemar_exact` */
  function McNemarExact(b: nat, c: nat): real {
    var n := b + c;
    if n == 0 then 1.0
    else
      var tail := Sum(n, 0, Smaller(b, c)) as real / Pow2(n) as real;
      if 1.0 < 2.0 * tail then 1.0 else 2.0 * tail
  }

  /** The lopsided splits are the two tails. */
  lemma {:induction false} ExtremeIsTwoTails(n: nat, m: nat, hi: int)
    requires 2 * m < n && -1 <= hi <= n
    ensures Extreme(n, n - 2 * m, hi) ==
      Sum(n, 0, if hi < m then hi else m) + Sum(n, n - m, hi)
    decreases hi + 1
  {
    if hi >= 0 {
      ExtremeIsTwoTails(n, m, hi - 1);
    }
  }

  lemma {:induction false} ExtremeOfEven(n: nat, hi: int)
    ensures Extreme(n, 0, hi) == Sum(n, 0, hi)
    decreases hi + 1
  {
    if hi >= 0 {
      ExtremeOfEven(n, hi - 1);
    }
  }

  /** Off an even split, the p-value's numerator is twice the smaller tail. */
  lemma TwiceTheTail(b: nat, c: nat)
    requires b != c
    ensures Extreme(b + c, Difference(b, c), b + c) == 2 * Sum(b + c, 0, Smaller(b, c))
  {
    var n, m := b + c, Smaller(b, c);
    assert Difference(b, c) == n - 2 * m;
    ExtremeIsTwoTails(n, m, n);
    SumMirrors(n, 0, m);
  }

  lemma {:induction false} ExtremeIsSomeOfAll(n: nat, d: nat, hi: int)
    ensures Extreme(n, d, hi) <= Sum(n, 0, hi)
    decreases hi + 1
  {
    if hi >= 0 {
      ExtremeIsSomeOfAll(n, d, hi - 1);
    }
  }

  lemma {:induction false} ExtremeGrows(n: nat, d: nat, k: int, hi: int)
    requires 0 <= k <= hi && Lopsided(n, k, d) && k <= n
    ensures Extreme(n, d, hi) >= Comb(n, k) > 0
    decreases hi
  {
    if k < hi {
      ExtremeGrows(n, d, k, hi - 1);
    }
  }

  /** The probabilities of all splits at least as lopsided as the observed one add up to a p-value in (0, 1]. */
  lemma PValueRange(b: nat, c: nat)
    ensures 0.0 < PValue(b, c) <= 1.0
  {
    var n, e := b + c, Extreme(b + c, Difference(b, c), b + c);
    ExtremeGrows(n, Difference(b, c), b, n);
    ExtremeIsSomeOfAll(n, Difference(b, c), n);
    SumIsPow2(n);
    hide *;
    ShareIsAtMostOne(e as real, Pow2(n) as real);
  }

  lemma EvenSplitIsCertain(b: nat)
    ensures PValue(b, b) == 1.0
  {
    ExtremeOfEven(b + b, b + b);
    SumIsPow2(b + b);
    ShareIsAtMostOne(Pow2(b + b) as real, Pow2(b + b) as real);
  }

  lemma TwiceAShare(x: nat, y: nat)
    requires y > 0
    ensures 2.0 * (x as real / y as real) == (2 * x) as real / y as real
  {
  }

  /** Twice the tail, without the cap of `mcnemar_exact`. */
  function Uncapped(b: nat, c: nat): real {
    2.0 * (Sum(b + c, 0, Smaller(b, c)) as real / Pow2(b + c) as real)
  }

  lemma UncappedIsThePValue(b: nat, c: nat)
    requires b != c
    ensures Uncapped(b, c) == PValue(b, c)
  {
    TwiceTheTail(b, c);
    TwiceAShare(Sum(b + c, 0, Smaller(b, c)), Pow2(b + c));
  }

  /** An even split counts the middle coefficient twice. */
  lemma UncappedOvershoots(b: nat)
    ensures Uncapped(b, b) > 1.0
  {
    var n := b + b;
    SumIsPow2(n);
    SumSplits(n, 0, b, n);
    SumMirrors(n, 0, b);
    SumSplits(n, b, b, n);
    var s, p := Sum(n, 0, b), Pow2(n);
    assert 2 * s == p + Comb(n, b);
    TwiceAShare(s, p);
    hide Sum, Pow2, Comb;
    MoreThanAll(2 * s, p);
  }

  lemma MoreThanAll(x: nat, y: nat)
    requires x > y > 0
    ensures x as real / y as real > 1.0
  {
    var q := x as real / y as real;
    assert q * y as real == x as real;
    if q <= 1.0 {
      NonNegative(1.0 - q, y as real);
      assert false;
    }
  }

  /**
   * For all counts, `mcnemar_exact` is the sum of the probabilities of all splits at least as lopsided as the
   * observed one; the cap at 1 changes its result exactly if the split is even.
   */
  lemma McNemarIsTheTwoSidedTest(b: nat, c: nat)
    ensures McNemarExact(b, c) == PValue(b, c)
    ensures McNemarExact(b, c) == Uncapped(b, c) <==> b != c
  {
    if b == c {
      EvenSplitIsCertain(b);
      UncappedOvershoots(b);
    } else {
      UncappedIsThePValue(b, c);
      PValueRange(b, c);
    }
    hide Sum, PValue, Pow2;
  }

  lemma McNemarIsSymmetric(b: nat, c: nat)
    ensures McNemarExact(b, c) == McNemarExact(c, b)
  {
  }

  // ---- What the p-value means ----

  /** All outcomes of `n` discordant episodes; true where the first policy won. */
  function Outcomes(n: nat): (o: seq<seq<bool>>)
    ensures |o| == Pow2(n) && forall i :: 0 <= i < |o| ==> |o[i]| == n
  {
    if n == 0 then [[]]
    else Extended(Outcomes(n - 1), true) + Extended(Outcomes(n - 1), false)
  }

  function Extended(o: seq<seq<bool>>, last: bool): (e: seq<seq<bool>>)
    ensures |e| == |o| && forall i :: 0 <= i < |o| ==> e[i] == o[i] + [last]
  {
    seq(|o|, i requires 0 <= i < |o| => o[i] + [last])
  }

  lemma ExtendedIn(o: seq<seq<bool>>, s: seq<bool>)
    requires s != [] && s[..|s| - 1] in o
    ensures s in Extended(o, s[|s| - 1])
  {
    var i :| 0 <= i < |o| && o[i] == s[..|s| - 1];
    assert Extended(o, s[|s| - 1])[i] == s;
  }

  predicate AllDifferent(o: seq<seq<bool>>) {
    forall i, j :: 0 <= i < j < |o| ==> o[i] != o[j]
  }

  lemma ExtendedDiffer(o: seq<seq<bool>>, last: bool)
    requires AllDifferent(o)
    ensures AllDifferent(Extended(o, last))
  {
    var e := Extended(o, last);
    forall i, j | 0 <= i < j < |e| ensures e[i] != e[j] {
      assert e[i][..|o[i]|] == o[i] && e[j][..|o[j]|] == o[j];
    }
  }

  lemma ConcatenationDiffers(a: seq<seq<bool>>, b: seq<seq<bool>>)
    requires AllDifferent(a) && AllDifferent(b) && forall i, j :: 0 <= i < |a| && 0 <= j < |b| ==> a[i] != b[j]
    ensures AllDifferent(a + b)
  {
  }

  lemma {:induction false} OutcomesDiffer(n: nat)
    ensures AllDifferent(Outcomes(n))
  {
    if n > 0 {
      var won, lost := Extended(Outcomes(n - 1), true), Extended(Outcomes(n - 1), false);
      OutcomesDiffer(n - 1);
      ExtendedDiffer(Outcomes(n - 1), true);
      ExtendedDiffer(Outcomes(n - 1), false);
      forall i, j | 0 <= i < |won| && 0 <= j < |lost| ensures won[i] != lost[j] {
        assert won[i][n - 1] && !lost[j][n - 1];
      }
      hide AllDifferent;
      ConcatenationDiffers(won, lost);
    }
  }

  lemma {:induction false} OutcomesContain(s: seq<bool>)
    ensures s in Outcomes(|s|)
  {
    if s == [] {
      assert Outcomes(0)[0] == s;
    } else {
      OutcomesContain(s[..|s| - 1]);
      ExtendedIn(Outcomes(|s| - 1), s);
    }
  }

  /** Every outcome is listed, and once only. */
  lemma OutcomesAreAll(n: nat)
    ensures AllDifferent(Outcomes(n)) && forall s: seq<bool> :: |s| == n ==> s in Outcomes(n)
  {
    OutcomesDiffer(n);
    forall s: seq<bool> | |s| == n ensures s in Outcomes(n) {
      OutcomesContain(s);
    }
  }

  function Wins(o: seq<bool>): (w: nat)
    ensures w <= |o|
  {
    if o == [] then 0 else Wins(o[..|o| - 1]) + if o[|o| - 1] then 1 else 0
  }

  /** The places of the episodes won. */
  function Won(o: seq<bool>): set<int> {
    set i | 0 <= i < |o| && o[i]
  }

  lemma {:induction false} WinsAre(o: seq<bool>)
    ensures Wins(o) == |Won(o)|
  {
    if o == [] {
      assert Won(o) == {};
    } else {
      WinsAre(o[..|o| - 1]);
      WonNext(o);
      hide Won;
    }
  }

  /** How many outcomes have exactly `k` wins. */
  function WithWins(o: seq<seq<bool>>, k: int): nat {
    if o == [] then 0 else WithWins(o[..|o| - 1], k) + if Wins(o[|o| - 1]) == k then 1 else 0
  }

  /** How many outcomes of `n` episodes are at least as lopsided as a difference of `d`. */
  function LopsidedOutcomes(o: seq<seq<bool>>, n: nat, d: nat): nat {
    if o == [] then 0
    else LopsidedOutcomes(o[..|o| - 1], n, d) + if Lopsided(n, Wins(o[|o| - 1]), d) then 1 else 0
  }

  lemma {:induction false} WithWinsAppend(a: seq<seq<bool>>, b: seq<seq<bool>>, k: int)
    ensures WithWins(a + b, k) == WithWins(a, k) + WithWins(b, k)
  {
    if b == [] {
      assert a + b == a;
    } else {
      WithWinsAppend(a, b[..|b| - 1], k);
      assert (a + b)[..|a + b| - 1] == a + b[..|b| - 1];
    }
  }

  lemma {:induction false} WithWinsExtended(o: seq<seq<bool>>, last: bool, k: int)
    ensures WithWins(Extended(o, last), k) == WithWins(o, if last then k - 1 else k)
  {
    if o != [] {
      var before := o[..|o| - 1];
      WithWinsExtended(before, last, k);
      assert Extended(o, last)[..|o| - 1] == Extended(before, last);
      assert (o[|o| - 1] + [last])[..|o[|o| - 1]|] == o[|o| - 1];
    }
  }

  lemma WithWinsNext(n: nat, k: int)
    ensures WithWins(Outcomes(n + 1), k) == WithWins(Outcomes(n), k - 1) + WithWins(Outcomes(n), k)
  {
    var o := Outcomes(n);
    hide WithWins;
    WithWinsAppend(Extended(o, true), Extended(o, false), k);
    WithWinsExtended(o, true, k);
    WithWinsExtended(o, false, k);
  }

  lemma OneOutcomeOfNothing(k: int)
    ensures WithWins(Outcomes(0), k) == if k == 0 then 1 else 0
  {
    assert Outcomes(0) == [[]] && Outcomes(0)[..0] == [];
    assert WithWins([], k) == 0;
  }

  /** The binomial coefficient counts outcomes. */
  lemma {:induction false} CombCountsOutcomes(n: nat, k: int)
    ensures WithWins(Outcomes(n), k) == Comb(n, k)
  {
    hide WithWins, Outcomes;
    if n == 0 {
      OneOutcomeOfNothing(k);
    } else {
      WithWinsNext(n - 1, k);
      CombCountsOutcomes(n - 1, k - 1);
      CombCountsOutcomes(n - 1, k);
    }
  }

  /** Counting by number of wins, over the lopsided numbers up to `hi`. */
  function ByWins(o: seq<seq<bool>>, n: nat, d: nat, hi: int): nat
    decreases hi + 1
  {
    if hi < 0 then 0 else ByWins(o, n, d, hi - 1) + if Lopsided(n, hi, d) then WithWins(o, hi) else 0
  }

  lemma {:induction false} ByWinsOfNone(n: nat, d: nat, hi: int)
    ensures ByWins([], n, d, hi) == 0
    decreases hi + 1
  {
    if hi >= 0 {
      ByWinsOfNone(n, d, hi - 1);
    }
  }

  lemma {:induction false} ByWinsNext(o: seq<seq<bool>>, n: nat, d: nat, hi: int)
    requires o != []
    ensures var w := Wins(o[|o| - 1]);
      ByWins(o, n, d, hi) == ByWins(o[..|o| - 1], n, d, hi) + if w <= hi && Lopsided(n, w, d) then 1 else 0
    decreases hi + 1
  {
    if hi >= 0 {
      ByWinsNext(o, n, d, hi - 1);
    }
  }

  lemma {:induction false} LopsidedByWins(o: seq<seq<bool>>, n: nat, d: nat)
    requires forall i :: 0 <= i < |o| ==> |o[i]| == n
    ensures LopsidedOutcomes(o, n, d) == ByWins(o, n, d, n)
  {
    if o == [] {
      ByWinsOfNone(n, d, n);
    } else {
      LopsidedByWins(o[..|o| - 1], n, d);
      ByWinsNext(o, n, d, n);
    }
  }

  lemma {:induction false} ByWinsIsExtreme(n: nat, d: nat, hi: int)
    ensures ByWins(Outcomes(n), n, d, hi) == Extreme(n, d, hi)
    decreases hi + 1
  {
    if hi >= 0 {
      ByWinsIsExtreme(n, d, hi - 1);
      CombCountsOutcomes(n, hi);
    }
  }

  /** The p-value is the share of equally likely outcomes at least as lopsided as the observed one. */
  lemma PValueIsAShareOfOutcomes(b: nat, c: nat)
    ensures var o := Outcomes(b + c);
      McNemarExact(b, c) == LopsidedOutcomes(o, b + c, Difference(b, c)) as real / |o| as real
  {
    hide McNemarExact, LopsidedOutcomes, ByWins, Extreme, Outcomes, Pow2, Comb, Difference, Lopsided;
    McNemarIsTheTwoSidedTest(b, c);
    LopsidedByWins(Outcomes(b + c), b + c, Difference(b, c));
    ByWinsIsExtreme(b + c, Difference(b, c), b + c);
  }

  // ---- Paired cells ----

  datatype Comparison =
    | Unpaired
    | NoEpisodes
    | Compared(difference: real, onlyA: nat, onlyB: nat, p: real)

  function CountOnly(a: seq<bool>, b: seq<bool>): nat
    requires |a| == |b|
  {
    if a == [] then 0
    else CountOnly(a[..|a| - 1], b[..|b| - 1]) + if a[|a| - 1] && !b[|b| - 1] then 1 else 0
  }

  lemma WonNext(a: seq<bool>)
    requires a != []
    ensures var n := |a| - 1;
      n !in Won(a[..n]) && Won(a) == Won(a[..n]) + if a[n] then {n} else {}
  {
  }

  lemma OneMore(x: set<int>, y: set<int>, n: int, p: bool, q: bool)
    requires n !in x && n !in y
    ensures |(x + if p then {n} else {}) - (y + if q then {n} else {})| == |x - y| + if p && !q then 1 else 0
  {
    assert (x + if p then {n} else {}) - (y + if q then {n} else {}) == x - y + if p && !q then {n} else {};
  }

  lemma {:induction false} CountOnlyIs(a: seq<bool>, b: seq<bool>)
    requires |a| == |b|
    ensures CountOnly(a, b) == |Won(a) - Won(b)|
  {
    if a == [] {
      assert Won(a) - Won(b) == {};
    } else {
      var n, x, y := |a| - 1, a[..|a| - 1], b[..|b| - 1];
      CountOnlyIs(x, y);
      assert CountOnly(a, b) == CountOnly(x, y) + if a[n] && !b[n] then 1 else 0;
      hide Won, CountOnly;
      WonNext(a);
      WonNext(b);
      OneMore(Won(x), Won(y), n, a[n], b[n]);
    }
  }

  /** What one policy won alone exceeds what the other won alone by the difference of their wins. */
  lemma {:induction false} DiscordantDifference(a: seq<bool>, b: seq<bool>)
    requires |a| == |b|
    ensures CountOnly(a, b) - CountOnly(b, a) == Wins(a) - Wins(b)
    ensures CountOnly(a, b) + CountOnly(b, a) <= |a|
  {
    if a != [] {
      DiscordantDifference(a[..|a| - 1], b[..|b| - 1]);
    }
  }

  datatype Counts = Mismatch | Discordants(onlyA: nat, onlyB: nat)

  /** `discordant`: the episodes solved only by `a` and only by `b`. */
  function Discordant(a: seq<bool>, b: seq<bool>): Counts {
    if |a| != |b| then Mismatch else Discordants(CountOnly(a, b), CountOnly(b, a))
  }

  function SuccessRate(a: seq<bool>): real
    requires a != []
  {
    Percent(Wins(a), |a|)
  }

  function Percent(x: int, n: nat): real
    requires n > 0
  {
    100.0 * x as real / n as real
  }

  /** `paired_difference` */
  function PairedDifference(a: seq<bool>, b: seq<bool>): Comparison {
    match Discordant(a, b)
    case Mismatch => Unpaired
    case Discordants(onlyA, onlyB) =>
      if |a| == 0 then NoEpisodes
      else Compared(Percent(onlyA - onlyB, |a|), onlyA, onlyB, McNemarExact(onlyA, onlyB))
  }

  lemma PercentTimes(x: int, n: nat)
    requires n > 0
    ensures Percent(x, n) * n as real == 100.0 * x as real
  {
  }

  lemma PercentOfDifference(x: int, y: int, n: nat)
    requires n > 0
    ensures Percent(x - y, n) == Percent(x, n) - Percent(y, n)
  {
    assert (x - y) as real == x as real - y as real;
  }

  /**
   * Two cells compare exactly if they have the same episodes, at least one. The reported difference, taken from the
   * discordant episodes only, is the difference of the success rates, and the p-value is the exact test's.
   */
  lemma ComparisonIsOfTheRates(a: seq<bool>, b: seq<bool>)
    ensures PairedDifference(a, b).Compared? <==> |a| == |b| > 0
    ensures PairedDifference(a, b).Compared? ==>
      var r := PairedDifference(a, b);
      && r.difference == SuccessRate(a) - SuccessRate(b)
      && r.onlyA - r.onlyB == Wins(a) - Wins(b) && r.onlyA + r.onlyB <= |a|
      && r.p == PValue(r.onlyA, r.onlyB) && 0.0 < r.p <= 1.0
  {
    if |a| == |b| > 0 {
      var x, y := CountOnly(a, b), CountOnly(b, a);
      DiscordantDifference(a, b);
      hide CountOnly, Wins, PValue, McNemarExact, Percent;
      McNemarIsTheTwoSidedTest(x, y);
      PValueRange(x, y);
      PercentOfDifference(Wins(a), Wins(b), |a|);
    }
  }

  /** The counts are of the episodes that one policy alone won, the difference is in percentage points. */
  lemma ComparisonCounts(a: seq<bool>, b: seq<bool>)
    requires |a| == |b| > 0
    ensures var r := PairedDifference(a, b);
      && r.Compared?
      && r.onlyA == |Won(a) - Won(b)| && r.onlyB == |Won(b) - Won(a)|
      && r.difference * |a| as real == 100.0 * (|Won(a)| - |Won(b)|) as real
  {
    hide CountOnly, Wins, Won, McNemarExact, Percent;
    var x: int, y: int := CountOnly(a, b), CountOnly(b, a);
    assert PairedDifference(a, b) == Compared(Percent(x - y, |a|), x, y, McNemarExact(x, y));
    hide PairedDifference;
    DiscordantDifference(a, b);
    CountOnlyIs(a, b);
    CountOnlyIs(b, a);
    WinsAre(a);
    WinsAre(b);
    PercentTimes(x - y, |a|);
  }

  /** Swapping the policies negates the difference and keeps the p-value. */
  lemma ComparisonIsAntisymmetric(a: seq<bool>, b: seq<bool>)
    requires |a| == |b| > 0
    ensures var r, s := PairedDifference(a, b), PairedDifference(b, a);
      s == Compared(-r.difference, r.onlyB, r.onlyA, r.p)
  {
    var x, y := CountOnly(a, b), CountOnly(b, a);
    McNemarIsSymmetric(x, y);
    hide CountOnly, McNemarExact, Percent;
    PercentOfDifference(x, y, |a|);
    PercentOfDifference(y, x, |a|);
  }
}
