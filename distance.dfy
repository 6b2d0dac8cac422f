/**
 * The distance between two patients: the Manhattan distance over the feature
 * cells, the trailing status cell excluded (parallelCode.js, getPatientDistance).
 */
module Metric {
  import opened Patients

  /** The sum of |xs[i] - ys[i]| over the first n positions. */
  function SumAbsDiff(xs: seq<int>, ys: seq<int>, n: nat): nat
    requires n <= |xs| && n <= |ys|
  {
    if n == 0 then 0 else SumAbsDiff(xs, ys, n - 1) + Abs(xs[n - 1] - ys[n - 1])
  }

  /**
   * Every training row has at least as many feature cells as the query, so
   * the loop over the query's cells never reads past the end of a row.
   */
  predicate Fits(a: Patient, b: Patient) {
    |a.features| <= |b.features|
  }

  /**
   * The distance from `a` to `b`: the loop runs over the positions of `a`
   * except its last (the status), comparing with the same positions of `b`.
   */
  function Distance(a: Patient, b: Patient): nat
    requires Fits(a, b)
  {
    SumAbsDiff(a.features, b.features, |a.features|)
  }

  /** The accumulator loop of getPatientDistance. */
  method GetPatientDistance(patientA: Patient, patientB: Patient) returns (delta: int)
    requires Fits(patientA, patientB)
    ensures delta == Distance(patientA, patientB)
    ensures delta >= 0
  {
    delta := 0;
    var i := 0;
    while i < |patientA.features|
      invariant 0 <= i <= |patientA.features|
      invariant delta == SumAbsDiff(patientA.features, patientB.features, i)
    {
      delta := delta + Abs(patientA.features[i] - patientB.features[i]);
      i := i + 1;
    }
  }

  /** Only the first n positions count: what lies beyond them is irrelevant. */
  lemma {:induction false} SumAbsDiffPrefix(xs: seq<int>, ys: seq<int>, xs': seq<int>, ys': seq<int>, n: nat)
    requires n <= |xs| && n <= |ys| && n <= |xs'| && n <= |ys'|
    requires xs[..n] == xs'[..n] && ys[..n] == ys'[..n]
    ensures SumAbsDiff(xs, ys, n) == SumAbsDiff(xs', ys', n)
  {
    if n > 0 {
      assert xs[..n - 1] == xs[..n][..n - 1] && xs'[..n - 1] == xs'[..n][..n - 1];
      assert ys[..n - 1] == ys[..n][..n - 1] && ys'[..n - 1] == ys'[..n][..n - 1];
      assert xs[n - 1] == xs[..n][n - 1] && ys[n - 1] == ys[..n][n - 1];
      SumAbsDiffPrefix(xs, ys, xs', ys', n - 1);
    }
  }

  /**
   * The distance depends on the query's feature cells and on the same number
   * of leading feature cells of the other row: neither status cell, nor any
   * extra trailing cell of the other row, contributes.
   */
  lemma DistanceIgnoresStatusAndTail(a: Patient, b: Patient, b': Patient)
    requires Fits(a, b) && Fits(a, b')
    requires b.features[..|a.features|] == b'.features[..|a.features|]
    ensures Distance(a, b) == Distance(a, b')
  {
    SumAbsDiffPrefix(a.features, b.features, a.features, b'.features, |a.features|);
  }

  lemma {:induction false} SumAbsDiffSymmetric(xs: seq<int>, ys: seq<int>, n: nat)
    requires n <= |xs| && n <= |ys|
    ensures SumAbsDiff(xs, ys, n) == SumAbsDiff(ys, xs, n)
  {
    if n > 0 {
      SumAbsDiffSymmetric(xs, ys, n - 1);
    }
  }

  /** The distance is symmetric between rows with the same number of features. */
  lemma DistanceSymmetric(a: Patient, b: Patient)
    requires |a.features| == |b.features|
    ensures Distance(a, b) == Distance(b, a)
  {
    SumAbsDiffSymmetric(a.features, b.features, |a.features|);
  }

  lemma {:induction false} SumAbsDiffZero(xs: seq<int>, ys: seq<int>, n: nat)
    requires n <= |xs| && n <= |ys|
    ensures SumAbsDiff(xs, ys, n) == 0 <==> xs[..n] == ys[..n]
  {
    if n > 0 {
      SumAbsDiffZero(xs, ys, n - 1);
      assert xs[..n] == xs[..n - 1] + [xs[n - 1]];
      assert ys[..n] == ys[..n - 1] + [ys[n - 1]];
      if xs[..n] == ys[..n] {
        assert xs[..n - 1] == xs[..n][..n - 1] && ys[..n - 1] == ys[..n][..n - 1];
        assert xs[n - 1] == xs[..n][n - 1] && ys[n - 1] == ys[..n][n - 1];
      }
    }
  }

  /**
   * The distance is zero exactly when the other row's leading feature cells
   * equal the query's feature cells (an exact match on every feature).
   */
  lemma DistanceZeroIffSameFeatures(a: Patient, b: Patient)
    requires Fits(a, b)
    ensures Distance(a, b) == 0 <==> b.features[..|a.features|] == a.features
  {
    SumAbsDiffZero(a.features, b.features, |a.features|);
    assert a.features[..|a.features|] == a.features;
  }

  lemma {:induction false} SumAbsDiffTriangle(xs: seq<int>, ys: seq<int>, zs: seq<int>, n: nat)
    requires n <= |xs| && n <= |ys| && n <= |zs|
    ensures SumAbsDiff(xs, zs, n) <= SumAbsDiff(xs, ys, n) + SumAbsDiff(ys, zs, n)
  {
    if n > 0 {
      SumAbsDiffTriangle(xs, ys, zs, n - 1);
    }
  }

  /** The distance obeys the triangle inequality. */
  lemma DistanceTriangle(a: Patient, b: Patient, c: Patient)
    requires |a.features| == |b.features| == |c.features|
    ensures Distance(a, c) <= Distance(a, b) + Distance(b, c)
  {
    SumAbsDiffTriangle(a.features, b.features, c.features, |a.features|);
  }
}
