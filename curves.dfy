/** The precision/recall curve of one class and its area, with the tensor primitives the
    evaluator uses (`cumsum`, `cat`, `trapz`, the final mean) written out over sequences. */
module Curves {
  import opened RealArith

  function Sum(s: seq<int>): (r: int)
    ensures (forall k :: 0 <= k < |s| ==> s[k] >= 0) ==> r >= 0
    decreases |s|
  {
    if s == [] then 0 else Sum(s[..|s| - 1]) + s[|s| - 1]
  }

  /** `torch.cumsum`: the running totals of `s`. */
  function CumSum(s: seq<int>): (r: seq<int>)
    ensures |r| == |s|
    ensures (forall k :: 0 <= k < |s| ==> s[k] >= 0) ==> forall k :: 0 <= k < |r| ==> r[k] >= 0
  {
    seq(|s|, k requires 0 <= k < |s| => Sum(s[..k + 1]))
  }

  /** Every detection is flagged exactly once: a true positive (1, 0) or a false positive (0, 1). */
  predicate Flagged(tp: seq<int>, fp: seq<int>)
  {
    |tp| == |fp| && forall k :: 0 <= k < |tp| ==> (tp[k] == 1 && fp[k] == 0) || (tp[k] == 0 && fp[k] == 1)
  }

  lemma {:induction false} SumSplit(s: seq<int>, k: nat)
    requires k < |s|
    ensures Sum(s[..k + 1]) == Sum(s[..k]) + s[k]
  {
    assert s[..k + 1][..k] == s[..k];
  }

  /** Running totals of non-negative numbers never decrease and never pass the grand total. */
  lemma {:induction false} SumPrefixMonotone(s: seq<int>, j: nat, k: nat)
    requires j <= k <= |s|
    requires forall i :: 0 <= i < |s| ==> s[i] >= 0
    ensures 0 <= Sum(s[..j]) <= Sum(s[..k])
    decreases k - j
  {
    if j < k {
      SumPrefixMonotone(s, j, k - 1);
      SumSplit(s, k - 1);
    } else {
      var t := s[..j];
      assert forall i :: 0 <= i < |t| ==> t[i] >= 0;
    }
  }

  /** With every detection flagged once, TP_cumsum[k] + FP_cumsum[k] == k + 1. */
  lemma {:induction false} CumSumsCountDetections(tp: seq<int>, fp: seq<int>, k: nat)
    requires Flagged(tp, fp) && k < |tp|
    ensures CumSum(tp)[k] + CumSum(fp)[k] == k + 1
    ensures 0 <= CumSum(tp)[k] <= Sum(tp) && CumSum(fp)[k] >= 0
    decreases k
  {
    SumSplit(tp, k);
    SumSplit(fp, k);
    if k > 0 {
      CumSumsCountDetections(tp, fp, k - 1);
    } else {
      assert tp[..0] == [] && fp[..0] == [];
    }
    SumPrefixMonotone(tp, k + 1, |tp|);
    SumPrefixMonotone(fp, k + 1, |fp|);
    assert tp[..|tp|] == tp;
  }

  /** `cat([0], TP_cumsum / (total_true_bboxes + epsilon))`. */
  function Recalls(tpCum: seq<int>, total: nat): (r: seq<real>)
    ensures |r| == |tpCum| + 1
  {
    [0.0] + seq(|tpCum|, k requires 0 <= k < |tpCum| => tpCum[k] as real / (total as real + Epsilon))
  }

  /** `cat([1], TP_cumsum / (TP_cumsum + FP_cumsum + epsilon))`. */
  function Precisions(tpCum: seq<int>, fpCum: seq<int>): (r: seq<real>)
    requires |tpCum| == |fpCum|
    requires forall k :: 0 <= k < |tpCum| ==> tpCum[k] >= 0 && fpCum[k] >= 0
    ensures |r| == |tpCum| + 1
  {
    [1.0] + seq(|tpCum|, k requires 0 <= k < |tpCum| => tpCum[k] as real / ((tpCum[k] + fpCum[k]) as real + Epsilon))
  }

  /** `torch.trapz(y, x)`: the trapezoidal-rule area under the points (x[i], y[i]). */
  function Trapz(y: seq<real>, x: seq<real>): real
    requires |y| == |x|
    decreases |x|
  {
    if |x| < 2 then 0.0
    else Trapezoid(x[1] - x[0], y[0], y[1]) + Trapz(y[1..], x[1..])
  }

  /** The area of one trapezoid of width `dx` between heights `a` and `b`. */
  function Trapezoid(dx: real, a: real, b: real): real
  {
    dx * (a + b) / 2.0
  }

  ghost predicate NonDecreasing(x: seq<real>)
  {
    forall i, j :: 0 <= i < j < |x| ==> x[i] <= x[j]
  }

  ghost predicate InUnitInterval(y: seq<real>)
  {
    forall i :: 0 <= i < |y| ==> 0.0 <= y[i] <= 1.0
  }

  lemma TrapezoidBound(dx: real, a: real, b: real)
    requires dx >= 0.0 && 0.0 <= a <= 1.0 && 0.0 <= b <= 1.0
    ensures 0.0 <= Trapezoid(dx, a, b) <= dx
  {
    var t := a + b;
    MulNonNegative(dx, t);
    MulNonNegative(dx, 2.0 - t);
    assert dx * (2.0 - t) == dx * 2.0 - dx * t;
  }

  /** Over non-decreasing x and y in [0, 1], the area is non-negative and at most the width of the
      x range. */
  lemma {:induction false} TrapzBounds(y: seq<real>, x: seq<real>)
    requires |y| == |x| && |x| >= 1
    requires NonDecreasing(x) && InUnitInterval(y)
    ensures 0.0 <= Trapz(y, x) <= x[|x| - 1] - x[0]
    decreases |x|
  {
    if |x| >= 2 {
      var dx := x[1] - x[0];
      TrapezoidBound(dx, y[0], y[1]);
      assert NonDecreasing(x[1..]) by {
        forall i, j | 0 <= i < j < |x| - 1
          ensures x[1..][i] <= x[1..][j]
        {
          assert x[i + 1] <= x[j + 1];
        }
      }
      assert InUnitInterval(y[1..]) by {
        forall i | 0 <= i < |y| - 1
          ensures 0.0 <= y[1..][i] <= 1.0
        {
          assert 0.0 <= y[i + 1] <= 1.0;
        }
      }
      TrapzBounds(y[1..], x[1..]);
      assert x[1..][|x| - 2] == x[|x| - 1];
      assert x[1..][0] == x[1];
      var head := Trapezoid(dx, y[0], y[1]);
      var tail := Trapz(y[1..], x[1..]);
      assert 0.0 <= head <= x[1] - x[0];
      assert 0.0 <= tail <= x[|x| - 1] - x[1];
      assert Trapz(y, x) == head + tail;
    }
  }

  /** The class's average precision from its TP/FP flags and its number of ground truths. */
  function ApOf(tp: seq<int>, fp: seq<int>, total: nat): real
    requires Flagged(tp, fp)
  {
    var tpCum, fpCum := CumSum(tp), CumSum(fp);
    Trapz(Precisions(tpCum, fpCum), Recalls(tpCum, total))
  }

  /** `c` is a non-negative, non-decreasing sequence bounded by `bound`. */
  ghost predicate RunningTotals(c: seq<int>, bound: int)
  {
    (forall k :: 0 <= k < |c| ==> 0 <= c[k] <= bound) &&
    forall i, j :: 0 <= i < j < |c| ==> c[i] <= c[j]
  }

  /** The running totals of the TP flags never decrease and stay within the number of TPs. */
  lemma CumSumRunning(tp: seq<int>, fp: seq<int>)
    requires Flagged(tp, fp)
    ensures RunningTotals(CumSum(tp), Sum(tp))
  {
    var tpCum := CumSum(tp);
    forall k | 0 <= k < |tpCum|
      ensures 0 <= tpCum[k] <= Sum(tp)
    {
      CumSumsCountDetections(tp, fp, k);
    }
    forall i, j | 0 <= i < j < |tpCum|
      ensures tpCum[i] <= tpCum[j]
    {
      assert forall k :: 0 <= k < |tp| ==> tp[k] >= 0;
      SumPrefixMonotone(tp, i + 1, j + 1);
    }
  }

  /** Dividing running totals bounded by `total` by `total + epsilon` gives a curve that starts
      at 0, never decreases and stays below 1. */
  lemma RecallsShape(c: seq<int>, total: nat)
    requires RunningTotals(c, total)
    ensures var recalls := Recalls(c, total);
      recalls[0] == 0.0 && NonDecreasing(recalls) && forall i :: 0 <= i < |recalls| ==> 0.0 <= recalls[i] < 1.0
  {
    var recalls := Recalls(c, total);
    var d := total as real + Epsilon;
    forall i | 0 < i < |recalls|
      ensures 0.0 <= recalls[i] < 1.0
    {
      assert recalls[i] == c[i - 1] as real / d;
      DivBelowOne(c[i - 1] as real, d);
    }
    forall i, j | 0 < i < j < |recalls|
      ensures recalls[i] <= recalls[j]
    {
      assert recalls[i] == c[i - 1] as real / d && recalls[j] == c[j - 1] as real / d;
      DivMonotone(c[i - 1] as real, c[j - 1] as real, d);
    }
  }

  /** Recall starts at 0, never decreases, and stays below 1 when no more true positives than
      ground truths were counted. */
  lemma RecallShape(tp: seq<int>, fp: seq<int>, total: nat)
    requires Flagged(tp, fp) && Sum(tp) <= total
    ensures var recalls := Recalls(CumSum(tp), total);
      recalls[0] == 0.0 && NonDecreasing(recalls) && forall i :: 0 <= i < |recalls| ==> 0.0 <= recalls[i] < 1.0
  {
    CumSumRunning(tp, fp);
    RecallsShape(CumSum(tp), total);
  }

  /** Precision starts at 1 and stays in [0, 1]. */
  lemma PrecisionShape(tp: seq<int>, fp: seq<int>)
    requires Flagged(tp, fp)
    ensures var precisions := Precisions(CumSum(tp), CumSum(fp));
      precisions[0] == 1.0 && InUnitInterval(precisions)
  {
    var tpCum, fpCum := CumSum(tp), CumSum(fp);
    var precisions := Precisions(tpCum, fpCum);
    forall i | 0 <= i < |precisions|
      ensures 0.0 <= precisions[i] <= 1.0
    {
      if i > 0 {
        CumSumsCountDetections(tp, fp, i - 1);
        DivBelowOne(tpCum[i - 1] as real, (tpCum[i - 1] + fpCum[i - 1]) as real + Epsilon);
      }
    }
  }

  /** A class's average precision lies in [0, 1) when no more true positives than ground truths
      were counted. */
  lemma ApBounds(tp: seq<int>, fp: seq<int>, total: nat)
    requires Flagged(tp, fp) && Sum(tp) <= total
    ensures 0.0 <= ApOf(tp, fp, total) < 1.0
  {
    var recalls := Recalls(CumSum(tp), total);
    var precisions := Precisions(CumSum(tp), CumSum(fp));
    assert ApOf(tp, fp, total) == Trapz(precisions, recalls);
    RecallShape(tp, fp, total);
    PrecisionShape(tp, fp);
    TrapzBounds(precisions, recalls);
  }

  /** Without a true positive the recall curve stays at 0 and the average precision is 0; this
      covers a class with no detections and a class with no ground truths. */
  lemma ApWithoutTruePositives(tp: seq<int>, fp: seq<int>, total: nat)
    requires Flagged(tp, fp) && Sum(tp) == 0
    ensures ApOf(tp, fp, total) == 0.0
  {
    var recalls := Recalls(CumSum(tp), total);
    var precisions := Precisions(CumSum(tp), CumSum(fp));
    assert ApOf(tp, fp, total) == Trapz(precisions, recalls);
    RecallShape(tp, fp, total);
    PrecisionShape(tp, fp);
    var tpCum := CumSum(tp);
    forall k | 0 <= k < |tp|
      ensures tpCum[k] == 0
    {
      CumSumsCountDetections(tp, fp, k);
    }
    ZeroRecalls(tpCum, total);
    TrapzBounds(precisions, recalls);
  }

  lemma ZeroRecalls(tpCum: seq<int>, total: nat)
    requires forall k :: 0 <= k < |tpCum| ==> tpCum[k] == 0
    ensures forall i :: 0 <= i < |tpCum| + 1 ==> Recalls(tpCum, total)[i] == 0.0
  {
  }

  function SumReals(s: seq<real>): real
    decreases |s|
  {
    if s == [] then 0.0 else SumReals(s[..|s| - 1]) + s[|s| - 1]
  }

  /** The mean of the per-class average precisions. */
  function Mean(s: seq<real>): real
    requires |s| > 0
  {
    SumReals(s) / |s| as real
  }

  lemma {:induction false} SumRealsBounds(s: seq<real>)
    requires forall i :: 0 <= i < |s| ==> 0.0 <= s[i] < 1.0
    ensures 0.0 <= SumReals(s) && (s != [] ==> SumReals(s) < |s| as real)
    decreases |s|
  {
    if s != [] {
      SumRealsBounds(s[..|s| - 1]);
    }
  }

  /** The mean of values in [0, 1) lies in [0, 1). */
  lemma MeanBounds(s: seq<real>)
    requires |s| > 0 && forall i :: 0 <= i < |s| ==> 0.0 <= s[i] < 1.0
    ensures 0.0 <= Mean(s) < 1.0
  {
    SumRealsBounds(s);
    DivBelowOne(SumReals(s), |s| as real);
  }
}
