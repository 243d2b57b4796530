/**
 * The trapezoidal area under the ROC curve of `exportLandslideHazardMap`:
 * the FPR and TPR columns of the ROC table are taken in sweep order (cutoff
 * ascending, not re-sorted), each pair of consecutive rows contributes
 * `(FPR[k] - FPR[k-1]) * (TPR[k] + TPR[k-1]) * 0.5`, and the absolute value
 * is taken once, of the whole sum.
 */
module Auc {
  import opened Roc

  /** The signed trapezoid between two consecutive rows. */
  function Term(prev: RocPoint, cur: RocPoint): real
  {
    (cur.fpr - prev.fpr) * (cur.tpr + prev.tpr) * 0.5
  }

  /** `reduce('sum', [0])` over the trapezoids of consecutive rows. */
  function TrapezoidSum(rows: seq<RocPoint>): real
  {
    if |rows| < 2 then 0.0 else Term(rows[0], rows[1]) + TrapezoidSum(rows[1..])
  }

  function Abs(x: real): (r: real)
    ensures r >= 0.0 && (r == x || r == -x)
  {
    if x < 0.0 then -x else x
  }

  /** `.abs()` of the summed trapezoids: the AUC the source reports. */
  function AreaUnderCurve(rows: seq<RocPoint>): (r: real)
    ensures r >= 0.0
  {
    Abs(TrapezoidSum(rows))
  }

  /** The sum of the unsigned trapezoid areas, an independent reading of the AUC. */
  function UnsignedArea(rows: seq<RocPoint>): real
  {
    if |rows| < 2 then 0.0 else Abs(Term(rows[0], rows[1])) + UnsignedArea(rows[1..])
  }

  /**
   * Between two rows of a ROC curve the false-positive rate does not grow, so
   * the signed trapezoid is never positive, and its area is at most the drop
   * in false-positive rate (the trapezoid is at most one unit high).
   */
  lemma TermBounds(prev: RocPoint, cur: RocPoint)
    requires 0.0 <= prev.tpr <= 1.0 && 0.0 <= cur.tpr <= 1.0
    requires cur.fpr <= prev.fpr
    ensures Term(prev, cur) <= 0.0
    ensures -Term(prev, cur) <= prev.fpr - cur.fpr
  {
    var w := prev.fpr - cur.fpr;
    var h := (cur.tpr + prev.tpr) * 0.5;
    calc {
      Term(prev, cur);
    == (cur.fpr - prev.fpr) * (cur.tpr + prev.tpr) * 0.5;
    == -(w * h);
    }
    assert 0.0 <= h <= 1.0;
    assert 0.0 <= w * h;
    assert w * h <= w * 1.0;
  }

  lemma CurveSuffix(rows: seq<RocPoint>)
    requires IsRocCurve(rows) && |rows| > 0
    ensures IsRocCurve(rows[1..])
  {
    var t := rows[1..];
    forall i, j | 0 <= i <= j < |t| ensures t[j].fpr <= t[i].fpr {
      assert t[i] == rows[i + 1] && t[j] == rows[j + 1];
    }
  }

  /**
   * Along a ROC curve every trapezoid is non-positive, so the absolute value
   * of the sum equals the sum of the unsigned areas, and that sum is at most
   * the total drop in false-positive rate from the first row to the last.
   */
  lemma {:induction false} SignedSumIsArea(rows: seq<RocPoint>)
    requires IsRocCurve(rows)
    ensures TrapezoidSum(rows) <= 0.0
    ensures UnsignedArea(rows) == -TrapezoidSum(rows)
    ensures |rows| > 0 ==> UnsignedArea(rows) <= rows[0].fpr - rows[|rows| - 1].fpr
  {
    if |rows| >= 2 {
      CurveSuffix(rows);
      SignedSumIsArea(rows[1..]);
      TermBounds(rows[0], rows[1]);
    }
  }

  /**
   * The AUC of a ROC curve in sweep order is the sum of its unsigned
   * trapezoids and lies in [0, 1].
   */
  lemma AucInUnitInterval(rows: seq<RocPoint>)
    requires IsRocCurve(rows)
    ensures AreaUnderCurve(rows) == UnsignedArea(rows)
    ensures 0.0 <= AreaUnderCurve(rows) <= 1.0
  {
    SignedSumIsArea(rows);
  }

  /** The rows in the opposite order. */
  function Reverse(rows: seq<RocPoint>): (r: seq<RocPoint>)
    ensures |r| == |rows|
  {
    if rows == [] then [] else Reverse(rows[1..]) + [rows[0]]
  }

  lemma {:induction false} ReverseAt(rows: seq<RocPoint>, k: nat)
    requires k < |rows|
    ensures Reverse(rows)[k] == rows[|rows| - 1 - k]
  {
    if k < |rows| - 1 {
      ReverseAt(rows[1..], k);
    }
  }

  lemma {:induction false} TrapezoidSumSnoc(rows: seq<RocPoint>, last: RocPoint)
    requires |rows| > 0
    ensures TrapezoidSum(rows + [last]) == TrapezoidSum(rows) + Term(rows[|rows| - 1], last)
  {
    var s := rows + [last];
    if |rows| > 1 {
      assert s[1..] == rows[1..] + [last];
      TrapezoidSumSnoc(rows[1..], last);
    } else {
      assert s == [rows[0], last];
    }
  }

  /**
   * Reading the rows backwards negates every trapezoid: the sweep, whose
   * false-positive rate falls, and the same rows in ascending false-positive
   * order have the same AUC.
   */
  lemma {:induction false} ReverseNegatesSum(rows: seq<RocPoint>)
    ensures TrapezoidSum(Reverse(rows)) == -TrapezoidSum(rows)
    ensures AreaUnderCurve(Reverse(rows)) == AreaUnderCurve(rows)
  {
    if |rows| >= 2 {
      var tail := rows[1..];
      ReverseNegatesSum(tail);
      ReverseAt(tail, 0);
      TrapezoidSumSnoc(Reverse(tail), rows[0]);
      assert Term(rows[1], rows[0]) == -Term(rows[0], rows[1]);
    } else if |rows| == 1 {
      assert Reverse(rows) == rows;
    }
  }

  /** The reversed rows of a ROC curve are in ascending false-positive order. */
  lemma ReverseAscends(rows: seq<RocPoint>)
    requires IsRocCurve(rows)
    ensures forall i, j :: 0 <= i <= j < |rows| ==> Reverse(rows)[i].fpr <= Reverse(rows)[j].fpr
  {
    forall i, j | 0 <= i <= j < |rows| ensures Reverse(rows)[i].fpr <= Reverse(rows)[j].fpr {
      ReverseAt(rows, i);
      ReverseAt(rows, j);
    }
  }

  /**
   * Re-sorting the table by false-positive rate is not the same as reading it
   * backwards when rates tie: here the sweep gives (FPR, TPR) rows (1, 1),
   * (0.8, 0.8), (0.8, 0.4), (0, 0), with AUC 0.34, and the ascending-FPR order
   * that keeps the two tied rows in sweep order gives AUC 0.46. Only the
   * reversal (`ReverseNegatesSum`) is guaranteed to keep the AUC.
   */
  lemma ResortingByFprCanChangeArea()
    ensures var sweep := [RocPoint(0.0, 1.0, 0.0, 1.0, 1.0), RocPoint(0.2, 0.8, 0.2, 0.8, 0.68),
                          RocPoint(0.4, 0.4, 0.2, 0.8, 1.0), RocPoint(1.0, 0.0, 1.0, 0.0, 1.0)];
            var sorted := [sweep[3], sweep[1], sweep[2], sweep[0]];
            && (forall i, j :: 0 <= i <= j < 4 ==> sorted[i].fpr <= sorted[j].fpr)
            && AreaUnderCurve(sweep) == 0.34
            && AreaUnderCurve(Reverse(sweep)) == 0.34
            && AreaUnderCurve(sorted) == 0.46
  {
    var sweep := [RocPoint(0.0, 1.0, 0.0, 1.0, 1.0), RocPoint(0.2, 0.8, 0.2, 0.8, 0.68),
                  RocPoint(0.4, 0.4, 0.2, 0.8, 1.0), RocPoint(1.0, 0.0, 1.0, 0.0, 1.0)];
    var sorted := [sweep[3], sweep[1], sweep[2], sweep[0]];
    assert sweep[1..][1..][1..] == [sweep[3]];
    assert sorted[1..][1..][1..] == [sweep[0]];
    assert TrapezoidSum(sweep[1..][1..]) == -0.16;
    assert TrapezoidSum(sweep[1..]) == -0.16;
    assert TrapezoidSum(sweep) == -0.34;
    assert TrapezoidSum(sorted[1..][1..]) == 0.14;
    assert TrapezoidSum(sorted[1..]) == 0.14;
    assert TrapezoidSum(sorted) == 0.46;
    ReverseNegatesSum(sweep);
  }
}
