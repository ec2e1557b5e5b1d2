/** Lossless prediction (Annex H of T.81): differences modulo 2^16, and how they are undone. */
module LosslessPrediction {
  import opened Bytes
  import opened Coefficients

  /** A row of samples of one component. */
  type Samples = seq<int>

  predicate InWord(xs: Samples) { forall i :: 0 <= i < |xs| ==> 0 <= xs[i] < 0x10000 }

  /** The predictors of Table H.1; the arithmetic shift rounds down. */
  function Predict(sel: int, ra: int, rb: int, rc: int): int {
    match sel
    case 1 => ra
    case 2 => rb
    case 3 => rc
    case 4 => ra + rb - rc
    case 5 => ra + (rb - rc) / 2
    case 6 => rb + (ra - rc) / 2
    case _ => (ra + rb) / 2
  }

  /**
   * Table H.1: a neighbour, or the neighbours a and b with the difference to c added in full or halved, or their
   * mean; halves are rounded down.
   */
  lemma PredictorsMean(sel: int, ra: int, rb: int, rc: int)
    requires 1 <= sel <= 7
    ensures sel == 1 ==> Predict(sel, ra, rb, rc) == ra
    ensures sel == 2 ==> Predict(sel, ra, rb, rc) == rb
    ensures sel == 3 ==> Predict(sel, ra, rb, rc) == rc
    ensures sel == 4 ==> Predict(sel, ra, rb, rc) - rb == ra - rc
    ensures sel == 5 ==> 0 <= (rb - rc) - 2 * (Predict(sel, ra, rb, rc) - ra) <= 1
    ensures sel == 6 ==> 0 <= (ra - rc) - 2 * (Predict(sel, ra, rb, rc) - rb) <= 1
    ensures sel == 7 ==> 0 <= (ra + rb) - 2 * Predict(sel, ra, rb, rc) <= 1
  {
  }

  /** How a row is predicted: as the first of an interval, from an initial value, or from the row above. */
  datatype Mode = FirstRow(initial: int) | FromAbove(sel: int, prev: Samples)

  predicate Predictable(m: Mode, n: nat) { m.FromAbove? ==> |m.prev| == n }

  /** The prediction of sample x from the samples before it. */
  function Prediction(m: Mode, cur: Samples, x: nat): int
    requires x <= |cur| && (m.FromAbove? ==> x < |m.prev|)
  {
    match m
    case FirstRow(initial) => if x == 0 then initial else cur[x - 1]
    case FromAbove(sel, prev) => if x == 0 then prev[0] else Predict(sel, cur[x - 1], prev[x], prev[x - 1])
  }

  function Differences(m: Mode, cur: Samples): (d: seq<int>)
    requires Predictable(m, |cur|)
    ensures |d| == |cur| && forall x {:trigger d[x]} :: 0 <= x < |cur| ==> d[x] == cur[x] - Prediction(m, cur, x)
  {
    seq(|cur|, x requires 0 <= x < |cur| => cur[x] - Prediction(m, cur, x))
  }

  /** The first n samples that the decoder gets from differences. */
  function Undifferenced(m: Mode, diffs: seq<int>, n: nat): (cur: Samples)
    requires n <= |diffs| && Predictable(m, |diffs|)
    ensures |cur| == n && InWord(cur)
    decreases n
  {
    if n == 0 then []
    else
      var cur := Undifferenced(m, diffs, n - 1);
      cur + [(diffs[n - 1] + Prediction(m, cur, n - 1)) % 0x10000]
  }

  predicate Same16(a: int, b: int) { (a - b) % 0x10000 == 0 }

  predicate AllSame16(a: seq<int>, b: seq<int>) { |a| == |b| && forall i :: 0 <= i < |a| ==> Same16(a[i], b[i]) }

  lemma Restored(d: int, p: int, cur: int)
    requires Same16(d, cur - p) && 0 <= cur < 0x10000
    ensures (d + p) % 0x10000 == cur
  {
  }

  lemma SamePrediction(m: Mode, a: Samples, b: Samples, x: nat)
    requires x <= |a| <= |b| && a == b[..|a|] && (m.FromAbove? ==> x < |m.prev|)
    ensures Prediction(m, a, x) == Prediction(m, b, x)
  {
  }

  /** Differences that are right modulo 2^16 give the samples back, for every predictor. */
  lemma {:induction false} UndifferencedRestores(m: Mode, cur: Samples, diffs: seq<int>, n: nat)
    requires Predictable(m, |cur|) && InWord(cur) && AllSame16(diffs, Differences(m, cur)) && n <= |cur|
    ensures Undifferenced(m, diffs, n) == cur[..n]
    decreases n
  {
    if n > 0 {
      UndifferencedRestores(m, cur, diffs, n - 1);
      SamePrediction(m, cur[..n - 1], cur, n - 1);
      assert Same16(diffs[n - 1], Differences(m, cur)[n - 1]);
      Restored(diffs[n - 1], Prediction(m, cur, n - 1), cur[n - 1]);
    }
  }

  lemma RowRestored(m: Mode, cur: Samples, diffs: seq<int>)
    requires Predictable(m, |cur|) && InWord(cur) && AllSame16(diffs, Differences(m, cur))
    ensures Undifferenced(m, diffs, |diffs|) == cur
  {
    UndifferencedRestores(m, cur, diffs, |cur|);
    assert cur[..|cur|] == cur;
  }

  /** The one-dimensional differencer. */
  method Difference1D(inputBuf: Samples, initial: int, ghost m: Mode) returns (diffBuf: seq<int>)
    requires inputBuf != [] && Predictable(m, |inputBuf|) && (m.FromAbove? ==> m.sel == 1)
    requires initial == Prediction(m, inputBuf, 0)
    ensures diffBuf == Differences(m, inputBuf)
  {
    var samp := inputBuf[0];
    diffBuf := [samp - initial];
    var x := 1;
    while x < |inputBuf|
      invariant 1 <= x <= |inputBuf| && samp == inputBuf[x - 1]
      invariant diffBuf == Differences(m, inputBuf)[..x]
    {
      var ra := samp;
      samp := inputBuf[x];
      diffBuf := diffBuf + [samp - ra];
      x := x + 1;
    }
  }

  /** The two-dimensional differencer; the row above is buffered as it is passed. */
  method Difference2D(sel: int, inputBuf: Samples, prevRow: Samples) returns (diffBuf: seq<int>)
    requires inputBuf != [] && |prevRow| == |inputBuf|
    ensures diffBuf == Differences(FromAbove(sel, prevRow), inputBuf)
  {
    ghost var m := FromAbove(sel, prevRow);
    var rb := prevRow[0];
    var samp := inputBuf[0];
    diffBuf := [samp - rb];
    var x := 1;
    while x < |inputBuf|
      invariant 1 <= x <= |inputBuf| && samp == inputBuf[x - 1] && rb == prevRow[x - 1]
      invariant diffBuf == Differences(m, inputBuf)[..x]
    {
      var rc := rb;
      rb := prevRow[x];
      var ra := samp;
      samp := inputBuf[x];
      diffBuf := diffBuf + [samp - Predict(sel, ra, rb, rc)];
      x := x + 1;
    }
  }

  /** The point transform of samples. */
  function Scaled(xs: Samples, al: nat): (ys: Samples)
    requires InWord(xs)
    ensures |ys| == |xs| && InWord(ys) && forall i :: 0 <= i < |xs| ==> ys[i] == Shr(xs[i], al)
  {
    seq(|xs|, i requires 0 <= i < |xs| => Shr(xs[i], al))
  }

  method SimpleDownscale(inputBuf: Samples, al: nat) returns (outputBuf: Samples)
    requires InWord(inputBuf)
    ensures outputBuf == Scaled(inputBuf, al)
  {
    outputBuf := [];
    var x := 0;
    while x < |inputBuf|
      invariant x <= |inputBuf| && outputBuf == Scaled(inputBuf, al)[..x]
    {
      outputBuf := outputBuf + [Shr(inputBuf[x], al)];
      x := x + 1;
    }
  }

  lemma UnscaledIsSame(xs: Samples)
    requires InWord(xs)
    ensures Scaled(xs, 0) == xs
  {
  }
}
