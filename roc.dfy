/**
 * The ROC threshold sweep of `exportLandslideHazardMap`: the held-out events
 * and non-events are scored (their `susc` value), labelled with `is_target`
 * and merged; for each of `ROC_steps` evenly spaced cutoffs the sweep counts
 * the events scoring strictly above the cutoff (true-positive rate) and the
 * non-events scoring strictly below it (true-negative rate), and records the
 * false-positive rate and the distance to perfect classification. The best
 * cutoff is the one whose row is closest to perfect classification.
 *
 * Ratios are exact `real`s. The distance is kept squared (`dist2`): the
 * source takes its square root, and `SqrtPreservesOrder` shows that this does
 * not change which row is closest.
 */
module Roc {

  /** A held-out point after `reduceRegions`: its `susc` score and its `is_target` flag. */
  datatype ScoredPoint = ScoredPoint(score: real, isTarget: bool)

  /** One row of the ROC table. `dist2` is the square of the source's `dist`. */
  datatype RocPoint = RocPoint(cutoff: real, tpr: real, tnr: real, fpr: real, dist2: real)

  /** The sweep parameters the source uses (`ROC_min`, `ROC_max`, `ROC_steps`). */
  const ROC_MIN: real := 0.0
  const ROC_MAX: real := 1.0
  const ROC_STEPS: nat := 1000

  // ---------------------------------------------------------------------------
  // Held-out points
  // ---------------------------------------------------------------------------

  /** Sets `is_target` on every scored point of one held-out pool. */
  function Label(scores: seq<real>, isTarget: bool): (r: seq<ScoredPoint>)
    ensures |r| == |scores|
  {
    if scores == [] then [] else [ScoredPoint(scores[0], isTarget)] + Label(scores[1..], isTarget)
  }

  /** `SLIDE.merge(NSLIDE)`: the scored events (target 1) followed by the scored non-events (target 0). */
  function Combine(eventScores: seq<real>, nonEventScores: seq<real>): (r: seq<ScoredPoint>)
    ensures |r| == |eventScores| + |nonEventScores|
  {
    Label(eventScores, true) + Label(nonEventScores, false)
  }

  /** `filterMetadata('is_target', 'equals', …)`: the scores of the points of one class, in order. */
  function ScoresOf(points: seq<ScoredPoint>, target: bool): (r: seq<real>)
    ensures |r| <= |points|
    ensures forall x :: x in r <==> ScoredPoint(x, target) in points
  {
    if points == [] then []
    else if points[0].isTarget == target then [points[0].score] + ScoresOf(points[1..], target)
    else ScoresOf(points[1..], target)
  }

  lemma {:induction false} ScoresOfAppend(a: seq<ScoredPoint>, b: seq<ScoredPoint>, target: bool)
    ensures ScoresOf(a + b, target) == ScoresOf(a, target) + ScoresOf(b, target)
  {
    if a == [] {
      assert a + b == b;
    } else {
      assert (a + b)[0] == a[0];
      assert (a + b)[1..] == a[1..] + b;
      ScoresOfAppend(a[1..], b, target);
      if a[0].isTarget == target {
        var x, rest := a[0].score, ScoresOf(a[1..], target);
        assert [x] + rest + ScoresOf(b, target) == [x] + (rest + ScoresOf(b, target));
      }
    }
  }

  lemma {:induction false} ScoresOfLabel(scores: seq<real>, isTarget: bool, target: bool)
    ensures ScoresOf(Label(scores, isTarget), target) == if isTarget == target then scores else []
  {
    if scores != [] {
      ScoresOfLabel(scores[1..], isTarget, target);
      ScoresOfAppend([ScoredPoint(scores[0], isTarget)], Label(scores[1..], isTarget), target);
      assert [scores[0]] + scores[1..] == scores;
    }
  }

  /**
   * Filtering the merged collection by `is_target` gives back exactly the
   * scores of each held-out pool, in their original order.
   */
  lemma CombineSeparatesClasses(eventScores: seq<real>, nonEventScores: seq<real>)
    ensures ScoresOf(Combine(eventScores, nonEventScores), true) == eventScores
    ensures ScoresOf(Combine(eventScores, nonEventScores), false) == nonEventScores
  {
    var ev, nev := Label(eventScores, true), Label(nonEventScores, false);
    ScoresOfAppend(ev, nev, true);
    ScoresOfAppend(ev, nev, false);
    ScoresOfLabel(eventScores, true, true);
    ScoresOfLabel(eventScores, true, false);
    ScoresOfLabel(nonEventScores, false, true);
    ScoresOfLabel(nonEventScores, false, false);
  }

  /** Both held-out pools are non-empty, so both rates are defined. */
  predicate HasBothClasses(points: seq<ScoredPoint>)
  {
    |ScoresOf(points, true)| > 0 && |ScoresOf(points, false)| > 0
  }

  // ---------------------------------------------------------------------------
  // Counting against a cutoff
  // ---------------------------------------------------------------------------

  /** `filterMetadata(ROC_field, 'greater_than', cutoff).size()`. */
  function CountAbove(s: seq<real>, c: real): (n: nat)
    ensures n <= |s|
  {
    if s == [] then 0
    else (if s[0] > c then 1 else 0) + CountAbove(s[1..], c)
  }

  /** Every score is strictly above the cutoff. */
  predicate AllAbove(s: seq<real>, c: real)
  {
    forall x :: x in s ==> x > c
  }

  /** Every score is strictly below the cutoff. */
  predicate AllBelow(s: seq<real>, c: real)
  {
    forall x :: x in s ==> x < c
  }

  /** All scores are above the cutoff exactly when all are counted, none exactly when none is. */
  lemma {:induction false} CountAboveExtremes(s: seq<real>, c: real)
    ensures CountAbove(s, c) == |s| <==> AllAbove(s, c)
    ensures CountAbove(s, c) == 0 <==> forall x :: x in s ==> x <= c
  {
    if s != [] {
      CountAboveExtremes(s[1..], c);
      assert s[0] in s;
      assert forall x :: x in s <==> x == s[0] || x in s[1..];
    }
  }

  /** `filterMetadata(ROC_field, 'less_than', cutoff).size()`. */
  function CountBelow(s: seq<real>, c: real): (n: nat)
    ensures n <= |s|
  {
    if s == [] then 0
    else (if s[0] < c then 1 else 0) + CountBelow(s[1..], c)
  }

  /** All scores are below the cutoff exactly when all are counted, none exactly when none is. */
  lemma {:induction false} CountBelowExtremes(s: seq<real>, c: real)
    ensures CountBelow(s, c) == |s| <==> AllBelow(s, c)
    ensures CountBelow(s, c) == 0 <==> forall x :: x in s ==> x >= c
  {
    if s != [] {
      CountBelowExtremes(s[1..], c);
      assert s[0] in s;
      assert forall x :: x in s <==> x == s[0] || x in s[1..];
    }
  }

  /** The number of scores equal to the cutoff, which neither filter keeps. */
  function CountAt(s: seq<real>, c: real): nat
  {
    if s == [] then 0
    else (if s[0] == c then 1 else 0) + CountAt(s[1..], c)
  }

  /** Every score lies strictly below, exactly at, or strictly above the cutoff. */
  lemma {:induction false} CountsPartition(s: seq<real>, c: real)
    ensures CountBelow(s, c) + CountAt(s, c) + CountAbove(s, c) == |s|
  {
    if s != [] {
      CountsPartition(s[1..], c);
    }
  }

  /** Raising the cutoff never adds a score strictly above it. */
  lemma {:induction false} CountAboveAntitone(s: seq<real>, c1: real, c2: real)
    requires c1 <= c2
    ensures CountAbove(s, c2) <= CountAbove(s, c1)
  {
    if s != [] {
      CountAboveAntitone(s[1..], c1, c2);
    }
  }

  /** Raising the cutoff never removes a score strictly below it. */
  lemma {:induction false} CountBelowMonotone(s: seq<real>, c1: real, c2: real)
    requires c1 <= c2
    ensures CountBelow(s, c1) <= CountBelow(s, c2)
  {
    if s != [] {
      CountBelowMonotone(s[1..], c1, c2);
    }
  }

  // ---------------------------------------------------------------------------
  // Rates
  // ---------------------------------------------------------------------------

  lemma RatioBounds(a: nat, b: nat)
    requires 0 < b && a <= b
    ensures 0.0 <= (a as real) / (b as real) <= 1.0
    ensures (a as real) / (b as real) == 1.0 <==> a == b
    ensures (a as real) / (b as real) == 0.0 <==> a == 0
  {
    var q := (a as real) / (b as real);
    assert q * (b as real) == a as real;
  }

  lemma RatioOrder(a1: nat, a2: nat, b: nat)
    requires 0 < b && a1 <= a2
    ensures (a1 as real) / (b as real) <= (a2 as real) / (b as real)
  {
    var q1, q2 := (a1 as real) / (b as real), (a2 as real) / (b as real);
    assert q1 * (b as real) == a1 as real;
    assert q2 * (b as real) == a2 as real;
    assert (q2 - q1) * (b as real) == (a2 - a1) as real;
  }

  /**
   * The true-positive rate (sensitivity) at a cutoff: the share of events
   * scoring strictly above it. It is 1 exactly when every event scores above
   * the cutoff and 0 exactly when none does.
   */
  function Tpr(points: seq<ScoredPoint>, c: real): (r: real)
    requires |ScoresOf(points, true)| > 0
    ensures 0.0 <= r <= 1.0
    ensures r == 1.0 <==> AllAbove(ScoresOf(points, true), c)
    ensures r == 0.0 <==> forall x :: x in ScoresOf(points, true) ==> x <= c
  {
    var t := ScoresOf(points, true);
    var n := CountAbove(t, c);
    RatioBounds(n, |t|);
    CountAboveExtremes(t, c);
    (n as real) / (|t| as real)
  }

  /**
   * The true-negative rate (specificity) at a cutoff: the share of non-events
   * scoring strictly below it. It is 1 exactly when every non-event scores
   * below the cutoff and 0 exactly when none does.
   */
  function Tnr(points: seq<ScoredPoint>, c: real): (r: real)
    requires |ScoresOf(points, false)| > 0
    ensures 0.0 <= r <= 1.0
    ensures r == 1.0 <==> AllBelow(ScoresOf(points, false), c)
    ensures r == 0.0 <==> forall x :: x in ScoresOf(points, false) ==> x >= c
  {
    var s := ScoresOf(points, false);
    var n := CountBelow(s, c);
    RatioBounds(n, |s|);
    CountBelowExtremes(s, c);
    (n as real) / (|s| as real)
  }

  /** `.pow(2)`. */
  function Square(v: real): real
  {
    v * v
  }

  lemma SquareOfFraction(d: real)
    requires 0.0 <= d <= 1.0
    ensures 0.0 <= Square(d) <= 1.0
    ensures 0.0 < d ==> 0.0 < Square(d)
  {
    assert d * d <= d * 1.0;
    if 0.0 < d {
      calc {
        0.0;
      <  d * d;
      == Square(d);
      }
    }
  }

  /** For a rate `x`, `(x - 1)²` lies in [0, 1] and is 0 exactly when `x` is 1. */
  lemma UnitSquare(x: real)
    requires 0.0 <= x <= 1.0
    ensures 0.0 <= Square(x - 1.0) <= 1.0
    ensures Square(x - 1.0) == 0.0 <==> x == 1.0
  {
    assert Square(x - 1.0) == Square(1.0 - x);
    SquareOfFraction(1.0 - x);
  }

  /**
   * A consistent ROC row: rates in [0, 1], the false-positive rate the
   * complement of the true-negative rate, and a squared distance to perfect
   * classification (TPR 1, FPR 0) in [0, 2] that is 0 exactly at that point.
   */
  predicate ValidRow(r: RocPoint)
  {
    && 0.0 <= r.tpr <= 1.0 && 0.0 <= r.tnr <= 1.0 && 0.0 <= r.fpr <= 1.0
    && r.fpr + r.tnr == 1.0
    && 0.0 <= r.dist2 <= 2.0
    && (r.dist2 == 0.0 <==> r.tpr == 1.0 && r.fpr == 0.0)
  }

  /** Every row of a table is consistent. */
  predicate ValidRows(rows: seq<RocPoint>)
  {
    forall k :: 0 <= k < |rows| ==> ValidRow(rows[k])
  }

  /**
   * The ROC row for one cutoff: the rates measured at that cutoff,
   * consistently, and the squared Euclidean distance from the point
   * (FPR, TPR) to perfect classification (0, 1).
   */
  function Row(points: seq<ScoredPoint>, c: real): (r: RocPoint)
    requires HasBothClasses(points)
    ensures r.cutoff == c && r.tpr == Tpr(points, c) && r.tnr == Tnr(points, c)
    ensures r.dist2 == Square(r.fpr - 0.0) + Square(r.tpr - 1.0)
    ensures ValidRow(r)
  {
    var tpr := Tpr(points, c);
    var tnr := Tnr(points, c);
    UnitSquare(tpr);
    UnitSquare(tnr);
    assert Square(tnr - 1.0) == Square((tnr - 1.0) * -1.0 - 0.0);
    RocPoint(c, tpr, tnr, (tnr - 1.0) * -1.0, Square(tpr - 1.0) + Square(tnr - 1.0))
  }

  /**
   * A non-event scoring exactly the cutoff is not counted as a true negative,
   * so it shows up in the false-positive rate, whereas an event scoring
   * exactly the cutoff is not counted as a true positive: the false-positive
   * rate is the share of non-events scoring at or above the cutoff.
   */
  lemma TiesCountAsFalsePositives(points: seq<ScoredPoint>, c: real)
    requires HasBothClasses(points)
    ensures var n := ScoresOf(points, false);
            Row(points, c).fpr == ((CountAt(n, c) + CountAbove(n, c)) as real) / (|n| as real)
    ensures var t := ScoresOf(points, true);
            Row(points, c).tpr == (CountAbove(t, c) as real) / (|t| as real)
  {
    var n := ScoresOf(points, false);
    CountsPartition(n, c);
    ComplementRatio(CountAt(n, c) + CountAbove(n, c), CountBelow(n, c), |n|);
  }

  lemma ComplementRatio(a: nat, b: nat, m: nat)
    requires 0 < m && a + b == m
    ensures (a as real) / (m as real) == ((b as real) / (m as real) - 1.0) * -1.0
  {
    var mr := m as real;
    var qa, qb := (a as real) / mr, (b as real) / mr;
    assert qa * mr == a as real;
    assert qb * mr == b as real;
    var e := qa + qb - 1.0;
    assert e * mr == qa * mr + qb * mr - mr;
    assert e * mr == 0.0;
  }

  // ---------------------------------------------------------------------------
  // The sweep
  // ---------------------------------------------------------------------------

  /** Entry `k` of `steps` evenly spaced cutoffs from `lo` to `hi`. */
  function CutoffAt(lo: real, hi: real, steps: nat, k: nat): real
    requires steps >= 2
  {
    lo + (k as real) * ((hi - lo) / ((steps - 1) as real))
  }

  /** The first cutoff is `lo`, the last is `hi`, and consecutive cutoffs are one step apart. */
  lemma CutoffSpacing(lo: real, hi: real, steps: nat, k: nat)
    requires steps >= 2
    ensures CutoffAt(lo, hi, steps, 0) == lo
    ensures CutoffAt(lo, hi, steps, steps - 1) == hi
    ensures 0 < k ==> CutoffAt(lo, hi, steps, k) - CutoffAt(lo, hi, steps, k - 1) == (hi - lo) / ((steps - 1) as real)
  {
    var m := (steps - 1) as real;
    var step := (hi - lo) / m;
    calc {
      CutoffAt(lo, hi, steps, steps - 1);
    == lo + m * step;
    == hi;
    }
    if 0 < k {
      calc {
        CutoffAt(lo, hi, steps, k) - CutoffAt(lo, hi, steps, k - 1);
      == (k as real) * step - ((k - 1) as real) * step;
      == step;
      }
    }
  }

  /** Cutoffs increase with their position when `lo <= hi`, strictly when `lo < hi`. */
  lemma CutoffOrder(lo: real, hi: real, steps: nat, i: nat, j: nat)
    requires steps >= 2 && i <= j && lo <= hi
    ensures CutoffAt(lo, hi, steps, i) <= CutoffAt(lo, hi, steps, j)
    ensures lo < hi && i < j ==> CutoffAt(lo, hi, steps, i) < CutoffAt(lo, hi, steps, j)
  {
    var step := (hi - lo) / ((steps - 1) as real);
    assert 0.0 <= step;
    assert lo < hi ==> 0.0 < step;
    calc {
      CutoffAt(lo, hi, steps, j) - CutoffAt(lo, hi, steps, i);
    == (j as real) * step - (i as real) * step;
    == ((j - i) as real) * step;
    }
    assert 0.0 <= ((j - i) as real) * step;
    assert lo < hi && i < j ==> 0.0 < ((j - i) as real) * step;
  }

  /**
   * `ee.List.sequence(ROC_min, ROC_max, null, ROC_steps)`: `steps` evenly
   * spaced cutoffs from `lo` to `hi`, both included.
   */
  function Cutoffs(lo: real, hi: real, steps: nat): (r: seq<real>)
    requires steps >= 2
    ensures |r| == steps
    ensures r[0] == lo && r[steps - 1] == hi
    ensures forall k :: 0 < k < steps ==> r[k] - r[k - 1] == (hi - lo) / ((steps - 1) as real)
    ensures lo < hi ==> forall i, j :: 0 <= i < j < steps ==> r[i] < r[j]
    ensures lo <= hi ==> forall k :: 0 <= k < steps ==> lo <= r[k] <= hi
  {
    var r := seq(steps, k requires 0 <= k < steps => CutoffAt(lo, hi, steps, k));
    CutoffSpacing(lo, hi, steps, 0);
    assert forall k :: 0 < k < steps ==> r[k] - r[k - 1] == (hi - lo) / ((steps - 1) as real) by {
      forall k | 0 < k < steps ensures r[k] - r[k - 1] == (hi - lo) / ((steps - 1) as real) {
        CutoffSpacing(lo, hi, steps, k);
      }
    }
    assert lo < hi ==> forall i, j :: 0 <= i < j < steps ==> r[i] < r[j] by {
      if lo < hi {
        forall i, j | 0 <= i < j < steps ensures r[i] < r[j] {
          CutoffOrder(lo, hi, steps, i, j);
        }
      }
    }
    assert lo <= hi ==> forall k :: 0 <= k < steps ==> lo <= r[k] <= hi by {
      if lo <= hi {
        forall k | 0 <= k < steps ensures lo <= r[k] <= hi {
          CutoffOrder(lo, hi, steps, 0, k);
          CutoffOrder(lo, hi, steps, k, steps - 1);
        }
      }
    }
    r
  }

  /** The ROC table: one row per cutoff, in cutoff order (`ROC`, lines 134-154). */
  function Sweep(points: seq<ScoredPoint>, lo: real, hi: real, steps: nat): (r: seq<RocPoint>)
    requires steps >= 2 && HasBothClasses(points)
    ensures |r| == steps
    ensures r[0].cutoff == lo && r[steps - 1].cutoff == hi
    ensures forall k :: 0 <= k < steps ==> r[k].cutoff == CutoffAt(lo, hi, steps, k)
    ensures forall k :: 0 <= k < steps ==> r[k] == Row(points, r[k].cutoff)
    ensures lo < hi ==> forall i, j :: 0 <= i < j < steps ==> r[i].cutoff < r[j].cutoff
    ensures lo <= hi ==> forall k :: 0 <= k < steps ==> lo <= r[k].cutoff <= hi
  {
    var cs := Cutoffs(lo, hi, steps);
    seq(steps, k requires 0 <= k < steps => Row(points, cs[k]))
  }

  /**
   * The rows of a ROC curve in sweep order: rates in [0, 1] and a
   * false-positive rate that never increases along the sequence.
   */
  predicate IsRocCurve(rows: seq<RocPoint>)
  {
    && (forall k :: 0 <= k < |rows| ==> 0.0 <= rows[k].tpr <= 1.0 && 0.0 <= rows[k].fpr <= 1.0)
    && (forall i, j :: 0 <= i <= j < |rows| ==> rows[j].fpr <= rows[i].fpr)
  }

  /**
   * Along a sweep over `lo <= hi`, the true-positive rate never increases and
   * the true-negative rate never decreases, so the rows form a ROC curve.
   */
  lemma SweepIsMonotone(points: seq<ScoredPoint>, lo: real, hi: real, steps: nat)
    requires steps >= 2 && HasBothClasses(points) && lo <= hi
    ensures var r := Sweep(points, lo, hi, steps);
            forall i, j :: 0 <= i <= j < steps ==> r[j].tpr <= r[i].tpr && r[i].tnr <= r[j].tnr
    ensures IsRocCurve(Sweep(points, lo, hi, steps))
  {
    var r := Sweep(points, lo, hi, steps);
    var t, n := ScoresOf(points, true), ScoresOf(points, false);
    forall i, j | 0 <= i <= j < steps
      ensures r[j].tpr <= r[i].tpr && r[i].tnr <= r[j].tnr && r[j].fpr <= r[i].fpr
    {
      var ci, cj := r[i].cutoff, r[j].cutoff;
      assert ci <= cj by {
        if lo < hi && i < j { } else { assert ci == cj || i == j; }
      }
      CountAboveAntitone(t, ci, cj);
      CountBelowMonotone(n, ci, cj);
      RatioOrder(CountAbove(t, cj), CountAbove(t, ci), |t|);
      RatioOrder(CountBelow(n, ci), CountBelow(n, cj), |n|);
    }
  }

  // ---------------------------------------------------------------------------
  // Best cutoff
  // ---------------------------------------------------------------------------

  /** Row `k` is at least as close to perfect classification as every other row. */
  predicate IsClosest(rows: seq<RocPoint>, k: nat)
    requires k < |rows|
  {
    forall j :: 0 <= j < |rows| ==> rows[k].dist2 <= rows[j].dist2
  }

  /** The position of a row of minimum distance (`ROC.sort('dist').first()`). */
  function ClosestIndex(rows: seq<RocPoint>): (k: nat)
    requires |rows| > 0
    ensures k < |rows| && IsClosest(rows, k)
  {
    if |rows| == 1 then 0
    else
      var k := ClosestIndex(rows[1..]);
      if rows[0].dist2 <= rows[k + 1].dist2 then 0 else k + 1
  }

  /** The cutoff of a row closest to perfect classification (`ROC_best`). */
  function BestCutoff(rows: seq<RocPoint>): (c: real)
    requires |rows| > 0
    ensures exists k :: 0 <= k < |rows| && rows[k].cutoff == c && IsClosest(rows, k)
  {
    rows[ClosestIndex(rows)].cutoff
  }

  /** `d` is the square root of `x`. */
  ghost predicate IsSqrt(d: real, x: real)
  {
    0.0 <= d && Square(d) == x
  }

  lemma SquareMonotone(a: real, b: real)
    requires 0.0 <= a <= b
    ensures Square(a) <= Square(b)
    ensures a < b ==> Square(a) < Square(b)
  {
    calc {
      Square(b) - Square(a);
    == (b - a) * (b + a);
    }
    assert 0.0 <= (b - a) * (b + a);
    if a < b {
      assert 0.0 < b - a && 0.0 < b + a;
      assert 0.0 < (b - a) * (b + a);
    }
  }

  /**
   * Square roots keep the order of their arguments, so the row of minimum
   * squared distance is a row of minimum distance.
   */
  lemma SqrtPreservesOrder(d1: real, x1: real, d2: real, x2: real)
    requires IsSqrt(d1, x1) && IsSqrt(d2, x2)
    ensures x1 <= x2 <==> d1 <= d2
  {
    if d1 <= d2 {
      SquareMonotone(d1, d2);
    } else {
      SquareMonotone(d2, d1);
    }
  }
}
