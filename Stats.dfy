/**
 * The numeric helpers train.py relies on: numpy's median of a non-empty array
 * and the binary part of calculate_metrics (labels are "above the median of
 * the true values"; accuracy, precision and recall with zero_division=0).
 * Values are exact reals: floating-point rounding is not modelled.
 */
module Stats {
  import opened Wrappers

  predicate Sorted(s: seq<real>)
  {
    forall i, j :: 0 <= i < j < |s| ==> s[i] <= s[j]
  }

  function Insert(x: real, s: seq<real>): (r: seq<real>)
    requires Sorted(s)
    ensures Sorted(r) && multiset(r) == multiset(s) + multiset{x}
  {
    if s == [] then [x]
    else if x <= s[0] then
      assert forall j :: 0 < j < |s| ==> s[0] <= s[j];
      [x] + s
    else
      var rest := Insert(x, s[1..]);
      InsertBehindHead(x, s, rest);
      [s[0]] + rest
  }

  /** Putting the head back in front of a sorted insertion into the tail keeps it sorted. */
  lemma InsertBehindHead(x: real, s: seq<real>, rest: seq<real>)
    requires Sorted(s) && s != [] && s[0] < x
    requires Sorted(rest) && multiset(rest) == multiset(s[1..]) + multiset{x}
    ensures Sorted([s[0]] + rest) && multiset([s[0]] + rest) == multiset(s) + multiset{x}
  {
    assert s == [s[0]] + s[1..];
    forall k | 0 <= k < |rest| ensures s[0] <= rest[k] {
      assert rest[k] in multiset(rest);
      if rest[k] != x {
        assert rest[k] in s[1..];
      }
    }
  }

  /** The values of s in ascending order. */
  function SortReals(s: seq<real>): (r: seq<real>)
    ensures Sorted(r) && multiset(r) == multiset(s)
  {
    if s == [] then []
    else
      assert s == [s[0]] + s[1..];
      Insert(s[0], SortReals(s[1..]))
  }

  /** Two sorted arrangements of the same values are the same sequence. */
  lemma SortedHeadIsLeast(a: seq<real>, x: real)
    requires Sorted(a) && x in a
    ensures a[0] <= x
  {
    var i :| 0 <= i < |a| && a[i] == x;
  }

  lemma {:induction false} SortedUnique(a: seq<real>, b: seq<real>)
    requires Sorted(a) && Sorted(b) && multiset(a) == multiset(b)
    ensures a == b
  {
    assert |a| == |multiset(a)| == |multiset(b)| == |b|;
    if a != [] {
      assert a[0] in multiset(b) && b[0] in multiset(a);
      SortedHeadIsLeast(b, a[0]);
      SortedHeadIsLeast(a, b[0]);
      assert a[0] == b[0];
      TailsSameMultiset(a, b);
      assert Sorted(a[1..]) && Sorted(b[1..]);
      SortedUnique(a[1..], b[1..]);
      assert a == [a[0]] + a[1..] && b == [b[0]] + b[1..];
    }
  }

  lemma TailsSameMultiset(a: seq<real>, b: seq<real>)
    requires a != [] && b != [] && a[0] == b[0] && multiset(a) == multiset(b)
    ensures multiset(a[1..]) == multiset(b[1..])
  {
    assert a == [a[0]] + a[1..] && b == [b[0]] + b[1..];
    assert multiset(a) == multiset{a[0]} + multiset(a[1..]);
    assert multiset(b) == multiset{b[0]} + multiset(b[1..]);
    assert multiset(a[1..]) == multiset(a) - multiset{a[0]};
    assert multiset(b[1..]) == multiset(b) - multiset{b[0]};
  }

  /** np.median: the middle value, or the mean of the two middle values. */
  function Median(s: seq<real>): (m: real)
    requires |s| > 0
    ensures exists i :: 0 <= i < |s| && s[i] <= m
    ensures exists j :: 0 <= j < |s| && m <= s[j]
  {
    var r := SortReals(s);
    MiddleBetween(s, r);
    Middle(r)
  }

  /** The middle of a sorted arrangement of s lies between two values of s. */
  lemma MiddleBetween(s: seq<real>, r: seq<real>)
    requires |s| > 0 && Sorted(r) && multiset(r) == multiset(s)
    ensures |r| > 0
    ensures exists i :: 0 <= i < |s| && s[i] <= Middle(r)
    ensures exists j :: 0 <= j < |s| && Middle(r) <= s[j]
  {
    assert |r| == |multiset(r)| == |multiset(s)| == |s|;
    var n := |r|;
    assert r[0] in multiset(s) && r[n - 1] in multiset(s);
    var i :| 0 <= i < |s| && s[i] == r[0];
    var j :| 0 <= j < |s| && s[j] == r[n - 1];
    assert r[0] <= r[(n - 1) / 2] <= r[n / 2] <= r[n - 1];
  }

  /** The middle value of a sorted sequence, or the mean of the two middle values. */
  function Middle(r: seq<real>): real
    requires |r| > 0
  {
    var n := |r|;
    if n % 2 == 1 then r[n / 2] else (r[n / 2 - 1] + r[n / 2]) / 2.0
  }

  /** The median depends only on the values, not on their order. */
  lemma MedianOfPermutation(s: seq<real>, t: seq<real>)
    requires |s| > 0 && multiset(s) == multiset(t)
    ensures |t| > 0 && Median(s) == Median(t)
  {
    assert |multiset(s)| == |multiset(t)|;
    var a, b := SortReals(s), SortReals(t);
    SortedUnique(a, b);
    assert Median(s) == Middle(a);
    assert Median(t) == Middle(b);
  }

  /** The median of values that all equal v is v. */
  lemma MedianOfConstant(s: seq<real>, v: real)
    requires |s| > 0 && forall i :: 0 <= i < |s| ==> s[i] == v
    ensures Median(s) == v
  {
  }

  // ---------------------------------------------------------------------------
  // calculate_metrics, binary part
  // ---------------------------------------------------------------------------

  datatype BinaryScores = BinaryScores(accuracy: real, precision: real, recall: real)

  /** y_true holds more than one distinct value (len(np.unique(y_true)) > 1). */
  predicate HasTwoValues(s: seq<real>)
  {
    exists i, j :: 0 <= i < |s| && 0 <= j < |s| && s[i] != s[j]
  }

  /** The number of positions whose (true label, predicted label) is (a, b). */
  function CountLabels(yTrue: seq<real>, yPred: seq<real>, thr: real, a: bool, b: bool): (n: nat)
    requires |yTrue| == |yPred|
    ensures n <= |yTrue|
  {
    if yTrue == [] then 0
    else
      (if (yTrue[0] > thr) == a && (yPred[0] > thr) == b then 1 else 0)
      + CountLabels(yTrue[1..], yPred[1..], thr, a, b)
  }

  lemma {:induction false} CountLabelsTotal(yTrue: seq<real>, yPred: seq<real>, thr: real)
    requires |yTrue| == |yPred|
    ensures CountLabels(yTrue, yPred, thr, true, true) + CountLabels(yTrue, yPred, thr, true, false)
          + CountLabels(yTrue, yPred, thr, false, true) + CountLabels(yTrue, yPred, thr, false, false) == |yTrue|
  {
    if yTrue != [] {
      CountLabelsTotal(yTrue[1..], yPred[1..], thr);
    }
  }

  lemma {:induction false} CountLabelsPerfect(y: seq<real>, thr: real)
    ensures CountLabels(y, y, thr, true, false) == 0 && CountLabels(y, y, thr, false, true) == 0
  {
    if y != [] {
      CountLabelsPerfect(y[1..], thr);
    }
  }

  /** Division with sklearn's zero_division=0. */
  function Ratio(num: nat, den: nat): real
  {
    if den == 0 then 0.0 else num as real / den as real
  }

  lemma RatioBounded(num: nat, den: nat)
    requires num <= den
    ensures 0.0 <= Ratio(num, den) <= 1.0
    ensures num == den && den > 0 ==> Ratio(num, den) == 1.0
  {
    if den > 0 {
      var q := num as real / den as real;
      assert q * den as real == num as real;
      assert q <= 1.0 by {
        if q > 1.0 {
          assert q * den as real > 1.0 * den as real;
        }
      }
    }
  }

  /**
   * The binary scores, or None when calculate_metrics leaves them unset: an
   * empty or single-valued y_true. The arrays must have the same length:
   * r2_score and mean_absolute_error run before the try and raise otherwise.
   */
  function BinaryMetrics(yTrue: seq<real>, yPred: seq<real>): (r: Option<BinaryScores>)
    requires |yPred| == |yTrue|
    ensures r.Some? <==> |yTrue| > 0 && HasTwoValues(yTrue)
  {
    if |yTrue| == 0 || !HasTwoValues(yTrue) then None
    else
      var thr := Median(yTrue);
      var tp := CountLabels(yTrue, yPred, thr, true, true);
      var fn := CountLabels(yTrue, yPred, thr, true, false);
      var fp := CountLabels(yTrue, yPred, thr, false, true);
      var tn := CountLabels(yTrue, yPred, thr, false, false);
      Some(BinaryScores(Ratio(tp + tn, |yTrue|), Ratio(tp, tp + fp), Ratio(tp, tp + fn)))
  }

  /** Every score lies in [0, 1]. */
  lemma BinaryMetricsBounded(yTrue: seq<real>, yPred: seq<real>)
    requires |yPred| == |yTrue|
    ensures var r := BinaryMetrics(yTrue, yPred);
      r.Some? ==> 0.0 <= r.value.accuracy <= 1.0 && 0.0 <= r.value.precision <= 1.0 && 0.0 <= r.value.recall <= 1.0
  {
    if BinaryMetrics(yTrue, yPred).Some? {
      var thr := Median(yTrue);
      CountLabelsTotal(yTrue, yPred, thr);
      var tp := CountLabels(yTrue, yPred, thr, true, true);
      var fn := CountLabels(yTrue, yPred, thr, true, false);
      var fp := CountLabels(yTrue, yPred, thr, false, true);
      var tn := CountLabels(yTrue, yPred, thr, false, false);
      RatioBounded(tp + tn, |yTrue|);
      RatioBounded(tp, tp + fp);
      RatioBounded(tp, tp + fn);
    }
  }

  /** Predicting the true values exactly scores an accuracy of 1 and no false labels. */
  lemma PerfectPrediction(y: seq<real>)
    requires |y| > 0 && HasTwoValues(y)
    ensures var r := BinaryMetrics(y, y);
      && r.Some? && r.value.accuracy == 1.0
      && (r.value.precision == 1.0 || r.value.precision == 0.0)
      && r.value.precision == r.value.recall
  {
    var thr := Median(y);
    CountLabelsTotal(y, y, thr);
    CountLabelsPerfect(y, thr);
    var tp := CountLabels(y, y, thr, true, true);
    var tn := CountLabels(y, y, thr, false, false);
    assert tp + tn == |y|;
    RatioBounded(|y|, |y|);
    RatioBounded(tp, tp);
    assert BinaryMetrics(y, y) == Some(BinaryScores(Ratio(|y|, |y|), Ratio(tp, tp), Ratio(tp, tp)));
  }
}
