/**
 * The evaluation half of `exportLandslideHazardMap` end to end: the held-out
 * events and non-events (the testing subsets of the inventory split) are
 * scored by the probability surface, labelled and merged, swept into a ROC
 * table, integrated into an AUC, and the best cutoff is picked.
 *
 * The score of a held-out point (`reduceRegions` with a max reducer over the
 * point's footprint) is a given function of the point.
 */
module Evaluation {
  import opened Partition
  import opened Roc
  import opened Auc

  /** What the source prints and exports from one run: the ROC table, the AUC and the best cutoff. */
  datatype RocReport = RocReport(roc: seq<RocPoint>, auc: real, bestCutoff: real)

  /** `reduceRegions(ts_…, ee.Reducer.max(), 100)`: the `susc` score of each held-out point, in order. */
  function HeldOutScores<P(==,!new)>(pool: seq<Tagged<P>>, split: real, susc: P -> real): (r: seq<real>)
    ensures |r| == |Testing(pool, split)|
    ensures forall s :: s in r <==> exists x :: x in pool && split <= x.tag && s == susc(x.point)
  {
    var held := Testing(pool, split);
    var r := seq(|held|, k requires 0 <= k < |held| => susc(held[k].point));
    ScoresOfHeldOut(pool, split, susc, held, r);
    r
  }

  /** The scores taken one per held-out point are the scores of the pool's points tagged at or above the split. */
  lemma ScoresOfHeldOut<P(!new)>(pool: seq<Tagged<P>>, split: real, susc: P -> real,
                                   held: seq<Tagged<P>>, r: seq<real>)
    requires held == Testing(pool, split)
    requires |r| == |held| && forall k :: 0 <= k < |r| ==> r[k] == susc(held[k].point)
    ensures forall s :: s in r <==> exists x :: x in pool && split <= x.tag && s == susc(x.point)
  {
    forall s | s in r
      ensures exists x :: x in pool && split <= x.tag && s == susc(x.point)
    {
      var k :| 0 <= k < |r| && r[k] == s;
      assert held[k] in held;
    }
    forall s | exists x :: x in pool && split <= x.tag && s == susc(x.point)
      ensures s in r
    {
      var x :| x in pool && split <= x.tag && s == susc(x.point);
      assert x in held;
      var k :| 0 <= k < |held| && held[k] == x;
      assert r[k] == s;
    }
  }

  /** Along a sweep over `lo <= hi` the AUC lies in [0, 1]. */
  lemma SweepAucInUnitInterval(points: seq<ScoredPoint>, lo: real, hi: real, steps: nat)
    requires steps >= 2 && HasBothClasses(points)
    ensures lo <= hi ==> 0.0 <= AreaUnderCurve(Sweep(points, lo, hi, steps)) <= 1.0
  {
    if lo <= hi {
      SweepIsMonotone(points, lo, hi, steps);
      AucInUnitInterval(Sweep(points, lo, hi, steps));
    }
  }

  /**
   * A row measured on the held-out pools: its TPR is the share of events
   * scoring strictly above its cutoff, its TNR the share of non-events
   * scoring strictly below it.
   */
  predicate MeasuredOn(r: RocPoint, eventScores: seq<real>, nonEventScores: seq<real>)
    requires |eventScores| > 0 && |nonEventScores| > 0
  {
    && r.tpr == (CountAbove(eventScores, r.cutoff) as real) / (|eventScores| as real)
    && r.tnr == (CountBelow(nonEventScores, r.cutoff) as real) / (|nonEventScores| as real)
  }

  /** Every row's `dist2` is its squared distance from (FPR, TPR) to perfect classification (0, 1). */
  predicate Distances(rows: seq<RocPoint>)
  {
    forall k :: 0 <= k < |rows| ==> rows[k].dist2 == Square(rows[k].fpr) + Square(rows[k].tpr - 1.0)
  }

  /** Every row of a sweep carries its squared distance to perfect classification. */
  lemma SweepHasDistances(points: seq<ScoredPoint>, lo: real, hi: real, steps: nat)
    requires steps >= 2 && HasBothClasses(points)
    ensures Distances(Sweep(points, lo, hi, steps))
  {
    var rows := Sweep(points, lo, hi, steps);
    forall k | 0 <= k < |rows|
      ensures rows[k].dist2 == Square(rows[k].fpr) + Square(rows[k].tpr - 1.0)
    {
      var r := Row(points, rows[k].cutoff);
      assert rows[k] == r;
      assert r.fpr - 0.0 == r.fpr;
    }
  }

  /** The cutoffs strictly rise along the table. */
  predicate Rising(rows: seq<RocPoint>)
  {
    forall i, j :: 0 <= i < j < |rows| ==> rows[i].cutoff < rows[j].cutoff
  }

  /**
   * What the ROC analysis of the held-out scores (landslide_hazard.js,
   * lines 116-175) reports:
   * `steps` rows whose cutoffs are evenly spaced from `lo` to `hi` and rise
   * along the table; in each row the share of events scoring strictly above
   * the cutoff and the share of non-events scoring strictly below it, in a
   * consistent row; the trapezoidal AUC of those rows, in [0, 1]; and the
   * cutoff of a row with the least `dist2`, within the sweep. That `dist2`
   * is the squared distance to perfect classification is `Distances`, kept
   * apart so that the worked cases below need not carry it.
   */
  predicate IsEvaluationOf(e: RocReport, eventScores: seq<real>, nonEventScores: seq<real>,
                           lo: real, hi: real, steps: nat)
    requires |eventScores| > 0 && |nonEventScores| > 0 && steps >= 2
  {
    && |e.roc| == steps
    && e.roc[0].cutoff == lo && e.roc[steps - 1].cutoff == hi
    && (forall k :: 0 <= k < steps ==> e.roc[k].cutoff == CutoffAt(lo, hi, steps, k))
    && (lo < hi ==> Rising(e.roc))
    && (forall k :: 0 <= k < steps ==> MeasuredOn(e.roc[k], eventScores, nonEventScores))
    && ValidRows(e.roc)
    && e.auc == AreaUnderCurve(e.roc)
    && (lo <= hi ==> 0.0 <= e.auc <= 1.0 && lo <= e.bestCutoff <= hi)
    && (exists k :: 0 <= k < steps && e.roc[k].cutoff == e.bestCutoff && IsClosest(e.roc, k))
  }

  /**
   * ROC analysis of the held-out scores: label and merge them, sweep the
   * cutoffs, integrate the AUC and pick the best cutoff.
   */
  function Evaluate(eventScores: seq<real>, nonEventScores: seq<real>,
                    lo: real, hi: real, steps: nat): (e: RocReport)
    requires |eventScores| > 0 && |nonEventScores| > 0 && steps >= 2
    ensures IsEvaluationOf(e, eventScores, nonEventScores, lo, hi, steps)
    ensures Distances(e.roc)
  {
    var points := Combine(eventScores, nonEventScores);
    CombineSeparatesClasses(eventScores, nonEventScores);
    var rows := Sweep(points, lo, hi, steps);
    SweepAucInUnitInterval(points, lo, hi, steps);
    SweepHasDistances(points, lo, hi, steps);
    RocReport(rows, AreaUnderCurve(rows), BestCutoff(rows))
  }

  /**
   * The whole evaluation with the source's constants: split 0.7 for both
   * pools, and 1000 cutoffs from 0 to 1.
   */
  function AssessHazard<P(==,!new)>(events: seq<Tagged<P>>, nonEvents: seq<Tagged<P>>,
                                   susc: P -> real): (e: RocReport)
    requires |Testing(events, SPLIT)| > 0 && |Testing(nonEvents, SPLIT)| > 0
    ensures |e.roc| == ROC_STEPS
    ensures e.roc[0].cutoff == 0.0 && e.roc[ROC_STEPS - 1].cutoff == 1.0
    ensures 0.0 <= e.auc <= 1.0 && 0.0 <= e.bestCutoff <= 1.0
    ensures IsEvaluationOf(e, HeldOutScores(events, SPLIT, susc), HeldOutScores(nonEvents, SPLIT, susc),
                           ROC_MIN, ROC_MAX, ROC_STEPS)
    ensures Distances(e.roc)
  {
    Evaluate(HeldOutScores(events, SPLIT, susc), HeldOutScores(nonEvents, SPLIT, susc),
             ROC_MIN, ROC_MAX, ROC_STEPS)
  }

  // ---------------------------------------------------------------------------
  // Worked cases
  // ---------------------------------------------------------------------------

  /** Rows whose false-positive rates are all equal enclose no area. */
  lemma {:induction false} FlatCurveHasNoArea(rows: seq<RocPoint>, f: real)
    requires forall k :: 0 <= k < |rows| ==> rows[k].fpr == f
    ensures TrapezoidSum(rows) == 0.0
  {
    if |rows| >= 2 {
      FlatCurveHasNoArea(rows[1..], f);
      assert rows[1].fpr - rows[0].fpr == 0.0;
    }
  }

  /** The rates at a cutoff that every score clears, or that no score clears. */
  lemma RateExtremes(s: seq<real>, c: real)
    requires |s| > 0
    ensures AllAbove(s, c) ==> (CountAbove(s, c) as real) / (|s| as real) == 1.0
    ensures (forall x :: x in s ==> x <= c) ==> (CountAbove(s, c) as real) / (|s| as real) == 0.0
    ensures AllBelow(s, c) ==> (CountBelow(s, c) as real) / (|s| as real) == 1.0
    ensures (forall x :: x in s ==> x >= c) ==> (CountBelow(s, c) as real) / (|s| as real) == 0.0
  {
    CountAboveExtremes(s, c);
    CountBelowExtremes(s, c);
    RatioBounds(CountAbove(s, c), |s|);
    RatioBounds(CountBelow(s, c), |s|);
  }

  /**
   * One consistent row measured on pools where every event scores 1 and every
   * non-event 0, at a cutoff strictly inside (0, 1): it is the perfect point
   * (TPR 1, FPR 0).
   */
  lemma PerfectRow(r: RocPoint, eventScores: seq<real>, nonEventScores: seq<real>)
    requires |eventScores| > 0 && |nonEventScores| > 0
    requires forall x :: x in eventScores ==> x == 1.0
    requires forall x :: x in nonEventScores ==> x == 0.0
    requires ValidRow(r) && 0.0 < r.cutoff < 1.0
    requires MeasuredOn(r, eventScores, nonEventScores)
    ensures r.tpr == 1.0 && r.fpr == 0.0
  {
    RateExtremes(eventScores, r.cutoff);
    RateExtremes(nonEventScores, r.cutoff);
  }

  /**
   * Rows measured at the cutoffs 0 and 1 on pools where every event scores 1
   * and every non-event 0: the first is the corner (FPR 1, TPR 1), since no
   * non-event is below 0, and the last the corner (FPR 0, TPR 0), since no
   * event is above 1.
   */
  lemma PerfectCorners(first: RocPoint, last: RocPoint, eventScores: seq<real>, nonEventScores: seq<real>)
    requires |eventScores| > 0 && |nonEventScores| > 0
    requires forall x :: x in eventScores ==> x == 1.0
    requires forall x :: x in nonEventScores ==> x == 0.0
    requires ValidRow(first) && first.cutoff == 0.0 && MeasuredOn(first, eventScores, nonEventScores)
    requires ValidRow(last) && last.cutoff == 1.0 && MeasuredOn(last, eventScores, nonEventScores)
    ensures first.tpr == 1.0 && first.fpr == 1.0
    ensures last.tpr == 0.0 && last.fpr == 0.0
  {
    RateExtremes(eventScores, 0.0);
    RateExtremes(nonEventScores, 0.0);
    RateExtremes(eventScores, 1.0);
    RateExtremes(nonEventScores, 1.0);
  }

  /**
   * When every event scores 1 and every non-event 0, rows whose cutoffs rise
   * from 0 to 1 and whose rates are measured on those pools start at the
   * corner (FPR 1, TPR 1), end at the corner (FPR 0, TPR 0), and every row in
   * between is the perfect point (FPR 0, TPR 1) at a cutoff inside (0, 1).
   */
  lemma PerfectClassifierRows(rows: seq<RocPoint>, eventScores: seq<real>, nonEventScores: seq<real>, steps: nat)
    requires |eventScores| > 0 && |nonEventScores| > 0 && steps >= 2
    requires forall x :: x in eventScores ==> x == 1.0
    requires forall x :: x in nonEventScores ==> x == 0.0
    requires |rows| == steps && ValidRows(rows)
    requires rows[0].cutoff == 0.0 && rows[steps - 1].cutoff == 1.0
    requires Rising(rows)
    requires forall k :: 0 <= k < steps ==> MeasuredOn(rows[k], eventScores, nonEventScores)
    ensures rows[0].tpr == 1.0 && rows[0].fpr == 1.0
    ensures rows[steps - 1].tpr == 0.0 && rows[steps - 1].fpr == 0.0
    ensures forall k :: 0 < k < steps - 1 ==> rows[k].tpr == 1.0 && 0.0 < rows[k].cutoff < 1.0
    ensures forall k :: 0 < k < steps ==> rows[k].fpr == 0.0
  {
    var last := steps - 1;
    PerfectCorners(rows[0], rows[last], eventScores, nonEventScores);
    forall k | 0 < k < last
      ensures rows[k].tpr == 1.0 && rows[k].fpr == 0.0 && 0.0 < rows[k].cutoff < 1.0
    {
      assert rows[0].cutoff < rows[k].cutoff < rows[last].cutoff;
      PerfectRow(rows[k], eventScores, nonEventScores);
    }
  }

  /**
   * A row at the perfect point (TPR 1, FPR 0) has squared distance 0, so a
   * row closest to perfect classification is itself at the perfect point.
   */
  lemma ClosestIsPerfect(rows: seq<RocPoint>, k: nat, j: nat)
    requires k < |rows| && j < |rows|
    requires ValidRows(rows)
    requires IsClosest(rows, k)
    requires rows[j].tpr == 1.0 && rows[j].fpr == 0.0
    ensures rows[k].tpr == 1.0 && rows[k].fpr == 0.0
  {
    assert ValidRow(rows[j]) && ValidRow(rows[k]);
    assert rows[k].dist2 <= rows[j].dist2;
  }

  /**
   * A curve that drops from (FPR 1, TPR 1) straight to (FPR 0, TPR 1) and
   * then stays at FPR 0 encloses the whole unit square.
   */
  lemma PerfectCurveArea(rows: seq<RocPoint>)
    requires |rows| >= 2
    requires rows[0].tpr == 1.0 && rows[0].fpr == 1.0 && rows[1].tpr == 1.0
    requires forall k :: 0 < k < |rows| ==> rows[k].fpr == 0.0
    ensures AreaUnderCurve(rows) == 1.0
  {
    FlatCurveHasNoArea(rows[1..], 0.0);
    assert Term(rows[0], rows[1]) == -1.0 * 2.0 * 0.5;
    assert TrapezoidSum(rows) == -1.0;
  }

  /**
   * In rows running from the corner (FPR 1) through perfect points to the
   * corner (TPR 0), a row closest to perfect classification is an inner row,
   * so its cutoff is that of an inner row.
   */
  lemma PerfectRowsBestCutoff(rows: seq<RocPoint>, k: nat)
    requires |rows| >= 3 && k < |rows| && ValidRows(rows)
    requires rows[0].fpr == 1.0 && rows[|rows| - 1].tpr == 0.0
    requires rows[1].tpr == 1.0 && rows[1].fpr == 0.0
    requires forall i :: 0 < i < |rows| - 1 ==> 0.0 < rows[i].cutoff < 1.0
    requires IsClosest(rows, k)
    ensures 0.0 < rows[k].cutoff < 1.0
  {
    ClosestIsPerfect(rows, k, 1);
    assert 0 < k < |rows| - 1;
  }

  /**
   * A perfect classifier (every held-out event scores 1, every held-out
   * non-event 0) swept from 0 to 1 with at least three cutoffs has AUC 1,
   * and its best cutoff lies strictly between 0 and 1.
   */
  lemma PerfectClassifier(e: RocReport, eventScores: seq<real>, nonEventScores: seq<real>, steps: nat)
    requires |eventScores| > 0 && |nonEventScores| > 0 && steps >= 3
    requires forall x :: x in eventScores ==> x == 1.0
    requires forall x :: x in nonEventScores ==> x == 0.0
    requires IsEvaluationOf(e, eventScores, nonEventScores, 0.0, 1.0, steps)
    ensures e.auc == 1.0
    ensures 0.0 < e.bestCutoff < 1.0
  {
    PerfectClassifierRows(e.roc, eventScores, nonEventScores, steps);
    PerfectCurveArea(e.roc);
    var k :| 0 <= k < steps && e.roc[k].cutoff == e.bestCutoff && IsClosest(e.roc, k);
    PerfectRowsBestCutoff(e.roc, k);
  }

  /** The trapezoid between the two corners (FPR 1, TPR 1) and (FPR 0, TPR 0). */
  lemma DiagonalArea(rows: seq<RocPoint>)
    requires |rows| == 2
    requires rows[0].tpr == 1.0 && rows[0].fpr == 1.0 && rows[1].tpr == 0.0 && rows[1].fpr == 0.0
    ensures AreaUnderCurve(rows) == 0.5
  {
    assert Term(rows[0], rows[1]) == -1.0 * 1.0 * 0.5;
    assert TrapezoidSum(rows[1..]) == 0.0;
    assert TrapezoidSum(rows) == -0.5;
  }

  /**
   * With only two cutoffs the same perfect classifier is seen at the two
   * corners alone, and the trapezoid between them gives AUC 1/2.
   */
  lemma TwoCutoffsHalveThePerfectArea(e: RocReport, eventScores: seq<real>, nonEventScores: seq<real>)
    requires |eventScores| > 0 && |nonEventScores| > 0
    requires forall x :: x in eventScores ==> x == 1.0
    requires forall x :: x in nonEventScores ==> x == 0.0
    requires IsEvaluationOf(e, eventScores, nonEventScores, 0.0, 1.0, 2)
    ensures e.auc == 0.5
  {
    PerfectClassifierRows(e.roc, eventScores, nonEventScores, 2);
    DiagonalArea(e.roc);
  }

  /** The rates of a pool whose scores all equal `v`: all or nothing, by the side of `c` that `v` is on. */
  lemma ConstantPoolRates(s: seq<real>, v: real, c: real)
    requires |s| > 0
    requires forall x :: x in s ==> x == v
    ensures (CountAbove(s, c) as real) / (|s| as real) == if v > c then 1.0 else 0.0
    ensures (CountBelow(s, c) as real) / (|s| as real) == if v < c then 1.0 else 0.0
  {
    RateExtremes(s, c);
  }

  /**
   * Four rows at the cutoffs 0, 1/3, 2/3 and 1 over events that all score
   * 0.9 and non-events that all score 0.1: TPR is 1, 1, 1, 0 and TNR is
   * 0, 1, 1, 1. Only the last cutoff rejects the events, only the first
   * accepts the non-events.
   */
  lemma FourCutoffRows(rows: seq<RocPoint>, eventScores: seq<real>, nonEventScores: seq<real>)
    requires |eventScores| > 0 && |nonEventScores| > 0
    requires forall x :: x in eventScores ==> x == 0.9
    requires forall x :: x in nonEventScores ==> x == 0.1
    requires |rows| == 4
    requires forall k :: 0 <= k < 4 ==> rows[k].cutoff == CutoffAt(0.0, 1.0, 4, k)
    requires forall k :: 0 <= k < 4 ==> MeasuredOn(rows[k], eventScores, nonEventScores)
    ensures rows[1].cutoff == 1.0 / 3.0 && rows[2].cutoff == 2.0 / 3.0
    ensures rows[0].tpr == 1.0 && rows[0].tnr == 0.0
    ensures rows[1].tpr == 1.0 && rows[1].tnr == 1.0
    ensures rows[2].tpr == 1.0 && rows[2].tnr == 1.0
    ensures rows[3].tpr == 0.0 && rows[3].tnr == 1.0
  {
    assert rows[0].cutoff == 0.0 && rows[3].cutoff == 1.0;
    assert rows[1].cutoff == 1.0 / 3.0 && rows[2].cutoff == 2.0 / 3.0;
    ConstantPoolRates(eventScores, 0.9, 0.0);
    ConstantPoolRates(nonEventScores, 0.1, 0.0);
    ConstantPoolRates(eventScores, 0.9, 1.0 / 3.0);
    ConstantPoolRates(nonEventScores, 0.1, 1.0 / 3.0);
    ConstantPoolRates(eventScores, 0.9, 2.0 / 3.0);
    ConstantPoolRates(nonEventScores, 0.1, 2.0 / 3.0);
    ConstantPoolRates(eventScores, 0.9, 1.0);
    ConstantPoolRates(nonEventScores, 0.1, 1.0);
  }

  /**
   * Four consistent rows with TPR 1, 1, 1, 0 and TNR 0, 1, 1, 1 enclose the
   * whole unit square, and only the two inner rows are closest to perfect.
   */
  lemma FourRowCurve(rows: seq<RocPoint>, k: nat)
    requires |rows| == 4 && k < 4 && ValidRows(rows)
    requires rows[0].tpr == 1.0 && rows[0].tnr == 0.0
    requires rows[1].tpr == 1.0 && rows[1].tnr == 1.0
    requires rows[2].tpr == 1.0 && rows[2].tnr == 1.0
    requires rows[3].tpr == 0.0 && rows[3].tnr == 1.0
    requires IsClosest(rows, k)
    ensures AreaUnderCurve(rows) == 1.0
    ensures k == 1 || k == 2
    ensures rows[k].cutoff == rows[1].cutoff || rows[k].cutoff == rows[2].cutoff
  {
    assert ValidRow(rows[0]) && ValidRow(rows[1]) && ValidRow(rows[2]) && ValidRow(rows[3]);
    PerfectCurveArea(rows);
    ClosestIsPerfect(rows, k, 1);
  }

  /**
   * Four cutoffs over held-out events that all score 0.9 and non-events that
   * all score 0.1: TPR is 1, 1, 1, 0 and TNR is 0, 1, 1, 1 along the sweep,
   * the AUC is 1 and the best cutoff is 1/3 or 2/3.
   */
  lemma FourCutoffExample(e: RocReport, eventScores: seq<real>, nonEventScores: seq<real>)
    requires |eventScores| > 0 && |nonEventScores| > 0
    requires forall x :: x in eventScores ==> x == 0.9
    requires forall x :: x in nonEventScores ==> x == 0.1
    requires IsEvaluationOf(e, eventScores, nonEventScores, 0.0, 1.0, 4)
    ensures |e.roc| == 4
    ensures && e.roc[0].tpr == 1.0 && e.roc[1].tpr == 1.0 && e.roc[2].tpr == 1.0 && e.roc[3].tpr == 0.0
            && e.roc[0].tnr == 0.0 && e.roc[1].tnr == 1.0 && e.roc[2].tnr == 1.0 && e.roc[3].tnr == 1.0
            && e.auc == 1.0
            && (e.bestCutoff == 1.0 / 3.0 || e.bestCutoff == 2.0 / 3.0)
  {
    FourCutoffRows(e.roc, eventScores, nonEventScores);
    var k :| 0 <= k < 4 && e.roc[k].cutoff == e.bestCutoff && IsClosest(e.roc, k);
    FourRowCurve(e.roc, k);
  }
}
