/** The trailing-window least-squares slope of src/features.py (rolling_slope).
    A position holds the slope of the last w values against the abscissa
    0..w-1 once a full window is available; earlier positions, windows that
    hold a NaN and windows whose abscissa has no spread (w < 2) are NaN. */
module Slope {
  import opened Values

  /** The abscissa 0, 1, ..., w-1 of a window of w values. */
  function Abscissa(w: nat): (x: seq<real>)
    ensures |x| == w
  {
    seq(w, k => k as real)
  }

  /** The products (xs[k] - mx) * (ys[k] - my), position by position. */
  function Deviations(xs: seq<real>, ys: seq<real>, mx: real, my: real): (p: seq<real>)
    requires |xs| == |ys|
    ensures |p| == |xs|
  {
    seq(|xs|, k requires 0 <= k < |xs| => (xs[k] - mx) * (ys[k] - my))
  }

  /** The sum over all k of (xs[k] - mx) * (ys[k] - my). */
  function CrossDeviation(xs: seq<real>, ys: seq<real>, mx: real, my: real): real
    requires |xs| == |ys|
  {
    Sum(Deviations(xs, ys, mx, my))
  }

  /** The denominator shared by every window of size w: the sum of the squared
      deviations of 0..w-1 from their mean. */
  function AbscissaVariation(w: nat): real
  {
    if w == 0 then 0.0
    else var x := Abscissa(w); CrossDeviation(x, x, Mean(x), Mean(x))
  }

  /** The numerator of the slope: the co-deviation of the window values with
      the abscissa 0..|ys|-1. */
  function Covariation(ys: seq<real>): real
    requires |ys| > 0
  {
    var x := Abscissa(|ys|);
    CrossDeviation(x, ys, Mean(x), Mean(ys))
  }

  /** The least-squares slope of ys against 0..|ys|-1, or None (NaN) when the
      denominator is zero. */
  function WindowSlope(ys: seq<real>): Option<real>
  {
    if AbscissaVariation(|ys|) == 0.0 then None
    else Some(Covariation(ys) / AbscissaVariation(|ys|))
  }

  /** The window of w values ending at position i. */
  function Window(y: seq<Option<real>>, w: nat, i: nat): seq<Option<real>>
    requires w <= i + 1 <= |y|
  {
    y[i + 1 - w .. i + 1]
  }

  /** Position i of the slope column of y for window size w. */
  function SlopeAt(y: seq<Option<real>>, w: nat, i: nat): Option<real>
    requires i < |y|
  {
    if w > |y| || i + 1 < w then None
    else if AllPresent(Window(y, w, i)) then WindowSlope(Unwrap(Window(y, w, i)))
    else None
  }

  /** rolling_slope: a NaN-filled buffer of length n whose positions w-1..n-1
      are filled window by window. */
  method RollingSlope(y: seq<Option<real>>, w: nat) returns (slopes: seq<Option<real>>)
    ensures |slopes| == |y|
    ensures w > |y| ==> forall i :: 0 <= i < |y| ==> slopes[i].None?
    ensures forall i :: 0 <= i < |y| && i + 1 < w ==> slopes[i].None?
    ensures forall i :: 0 <= i < |y| && w <= i + 1 ==>
              slopes[i] == (if AllPresent(Window(y, w, i)) then WindowSlope(Unwrap(Window(y, w, i))) else None)
    ensures forall i :: 0 <= i < |y| ==> slopes[i] == SlopeAt(y, w, i)
  {
    var n := |y|;
    if w > n || w == 0 {
      // a window longer than the series, or an empty one, leaves every position NaN
      slopes := seq(n, _ => None);
      return;
    }
    var xs := Abscissa(w);
    var xMean := Mean(xs);
    var xVar := CrossDeviation(xs, xs, xMean, xMean);
    assert xVar == AbscissaVariation(w);
    var buffer := new Option<real>[n](_ => None);
    var i := w - 1;
    while i < n
      invariant w - 1 <= i <= n
      invariant forall k :: 0 <= k < n ==> buffer[k] == if k < i then SlopeAt(y, w, k) else None
    {
      var win := y[i + 1 - w .. i + 1];
      if AllPresent(win) && xVar != 0.0 {
        var ys := Unwrap(win);
        var yMean := Mean(ys);
        var cov := CrossDeviation(xs, ys, xMean, yMean);
        assert cov == Covariation(ys);
        buffer[i] := Some(cov / xVar);
      } else {
        buffer[i] := None;
      }
      i := i + 1;
    }
    slopes := buffer[..];
  }

  lemma {:induction false} AbscissaSum(w: nat)
    ensures Sum(Abscissa(w)) == (w as real) * ((w as real) - 1.0) / 2.0
  {
    if w > 0 {
      assert Abscissa(w)[..w - 1] == Abscissa(w - 1);
      AbscissaSum(w - 1);
    }
  }

  lemma {:induction false} AbscissaMean(w: nat)
    requires w > 0
    ensures Mean(Abscissa(w)) == ((w as real) - 1.0) / 2.0
  {
    AbscissaSum(w);
    var wr := w as real;
    var a := (wr - 1.0) / 2.0;
    assert Sum(Abscissa(w)) == wr * a;
    assert wr * a / wr == a;
  }

  /** A sum of squared deviations is at least its first term. */
  lemma {:induction false} VariationAtLeastFirst(xs: seq<real>, m: real)
    requires 0 < |xs|
    ensures CrossDeviation(xs, xs, m, m) >= (xs[0] - m) * (xs[0] - m)
  {
    var p := Deviations(xs, xs, m, m);
    forall k | 0 <= k < |p| ensures p[k] >= 0.0 {
      var d := xs[k] - m;
      assert p[k] == d * d;
    }
    ElementAtMostSum(p, 0);
    assert p[0] == (xs[0] - m) * (xs[0] - m);
  }

  /** The denominator vanishes exactly for windows of fewer than two values. */
  lemma {:induction false} AbscissaVariationPositive(w: nat)
    ensures AbscissaVariation(w) != 0.0 <==> w >= 2
    ensures w >= 2 ==> AbscissaVariation(w) > 0.0
  {
    if w == 1 {
      AbscissaMean(1);
    } else if w >= 2 {
      var x := Abscissa(w);
      AbscissaMean(w);
      VariationAtLeastFirst(x, Mean(x));
      var m := Mean(x);
      assert m > 0.0;
      assert m * m > 0.0;
    }
  }

  /** A slope is defined exactly when a full window of w >= 2 values ending at
      i is available and none of them is NaN (the strict policy). */
  lemma {:induction false} SlopeDefinedIff(y: seq<Option<real>>, w: nat, i: nat)
    requires i < |y|
    ensures SlopeAt(y, w, i).Some? <==>
              2 <= w && w <= i + 1 && AllPresent(y[i + 1 - w .. i + 1])
  {
    AbscissaVariationPositive(w);
  }

  /** A series exactly as long as the window has its only slope at the last
      position (when its values are present). */
  lemma {:induction false} SlopeOfFullLengthWindow(y: seq<Option<real>>, i: nat)
    requires |y| >= 2 && AllPresent(y) && i < |y|
    ensures SlopeAt(y, |y|, i).Some? <==> i == |y| - 1
  {
    SlopeDefinedIff(y, |y|, i);
    assert y[0..|y|] == y;
  }

  lemma {:induction false} LinearSum(ys: seq<real>, m: real, c: real)
    requires forall k :: 0 <= k < |ys| ==> ys[k] == m * (k as real) + c
    ensures Sum(ys) == m * Sum(Abscissa(|ys|)) + c * (|ys| as real)
  {
    if |ys| > 0 {
      var n := |ys|;
      LinearSum(ys[..n - 1], m, c);
      assert Abscissa(n)[..n - 1] == Abscissa(n - 1);
    }
  }

  /** Each deviation of ys from my is m times the matching deviation of xs from mx. */
  predicate Proportional(xs: seq<real>, ys: seq<real>, mx: real, my: real, m: real)
    requires |xs| == |ys|
  {
    forall k :: 0 <= k < |xs| ==> ys[k] - my == m * (xs[k] - mx)
  }

  /** Deviations that are m times the abscissa deviations give m times the
      abscissa variation. */
  lemma {:induction false} ProportionalCross(xs: seq<real>, ys: seq<real>, mx: real, my: real, m: real)
    requires |xs| == |ys|
    requires Proportional(xs, ys, mx, my, m)
    ensures CrossDeviation(xs, ys, mx, my) == m * CrossDeviation(xs, xs, mx, mx)
  {
    DeviationsScale(xs, ys, mx, my, m);
    SumTimes(Deviations(xs, xs, mx, mx), Deviations(xs, ys, mx, my), m);
  }

  lemma {:induction false} DeviationsScale(xs: seq<real>, ys: seq<real>, mx: real, my: real, m: real)
    requires |xs| == |ys|
    requires Proportional(xs, ys, mx, my, m)
    ensures Scaled(Deviations(xs, xs, mx, mx), Deviations(xs, ys, mx, my), m)
  {
    var p, q := Deviations(xs, ys, mx, my), Deviations(xs, xs, mx, mx);
    forall k | 0 <= k < |q| ensures p[k] == m * q[k] {
      TermScale(m, xs[k] - mx, ys[k] - my);
    }
  }

  lemma {:induction false} TermScale(m: real, d: real, e: real)
    requires e == m * d
    ensures d * e == m * (d * d)
  {
  }

  /** The mean of values on a line m*k + c is m times the mean abscissa plus c. */
  lemma {:induction false} LinearMean(ys: seq<real>, m: real, c: real)
    requires |ys| > 0
    requires forall k :: 0 <= k < |ys| ==> ys[k] == m * (k as real) + c
    ensures Mean(ys) == m * Mean(Abscissa(|ys|)) + c
  {
    LinearSum(ys, m, c);
    var wr := |ys| as real;
    var sx := Sum(Abscissa(|ys|));
    assert Sum(ys) == m * sx + c * wr;
    assert (m * sx + c * wr) / wr == m * (sx / wr) + c;
  }

  /** On a line m*k + c the covariance with the abscissa is m times the
      abscissa variation. */
  lemma {:induction false} LinearCovariance(ys: seq<real>, m: real, c: real)
    requires |ys| >= 1
    requires forall k :: 0 <= k < |ys| ==> ys[k] == m * (k as real) + c
    ensures Covariation(ys) == m * AbscissaVariation(|ys|)
  {
    var x := Abscissa(|ys|);
    LinearDeviations(ys, m, c);
    ProportionalCross(x, ys, Mean(x), Mean(ys), m);
  }

  /** On a line m*k + c each value's deviation from the mean is m times its
      abscissa's deviation from the mean abscissa. */
  lemma {:induction false} LinearDeviations(ys: seq<real>, m: real, c: real)
    requires |ys| >= 1
    requires forall k :: 0 <= k < |ys| ==> ys[k] == m * (k as real) + c
    ensures Proportional(Abscissa(|ys|), ys, Mean(Abscissa(|ys|)), Mean(ys), m)
  {
    var x := Abscissa(|ys|);
    var mx := Mean(x);
    LinearMean(ys, m, c);
    forall k | 0 <= k < |ys|
      ensures ys[k] - Mean(ys) == m * (x[k] - mx)
    {
      LinearDeviation(m, c, k as real, mx);
    }
  }

  /** The slope of a window of values on a line m*k + c is m. */
  lemma {:induction false} LinearWindowSlope(ys: seq<real>, m: real, c: real)
    requires |ys| >= 2
    requires forall k :: 0 <= k < |ys| ==> ys[k] == m * (k as real) + c
    ensures WindowSlope(ys) == Some(m)
  {
    var xv := AbscissaVariation(|ys|);
    var cov := Covariation(ys);
    LinearCovariance(ys, m, c);
    AbscissaVariationPositive(|ys|);
    CancelDivision(m, xv);
    assert cov / xv == m;
  }

  lemma {:induction false} LinearDeviation(m: real, c: real, k: real, mx: real)
    ensures (m * k + c) - (m * mx + c) == m * (k - mx)
  {
  }

  lemma {:induction false} CancelDivision(m: real, v: real)
    requires v != 0.0
    ensures m * v / v == m
  {
  }

  /** On a series that follows a line m*j + c, every full-window position has
      slope m; for instance y[j] = j with w = 6 gives 1 from position 5 on. */
  lemma {:induction false} LinearSeriesSlope(y: seq<Option<real>>, w: nat, i: nat, m: real, c: real)
    requires forall j :: 0 <= j < |y| ==> y[j] == Some(m * (j as real) + c)
    requires 2 <= w && w <= i + 1 && i < |y|
    ensures SlopeAt(y, w, i) == Some(m)
  {
    var start := i + 1 - w;
    var win := Window(y, w, i);
    assert AllPresent(win);
    var ys := Unwrap(win);
    forall k | 0 <= k < w
      ensures ys[k] == m * (k as real) + (m * (start as real) + c)
    {
      assert win[k] == y[start + k];
    }
    LinearWindowSlope(ys, m, m * (start as real) + c);
  }

  /** A window of one repeated value has slope 0. */
  lemma {:induction false} ConstantWindowSlope(ys: seq<real>, v: real)
    requires |ys| >= 2
    requires forall k :: 0 <= k < |ys| ==> ys[k] == v
    ensures WindowSlope(ys) == Some(0.0)
  {
    LinearWindowSlope(ys, 0.0, v);
  }

  /** No look-ahead: the slope at i is fixed by the positions 0..i. */
  lemma {:induction false} SlopePrefix(y1: seq<Option<real>>, y2: seq<Option<real>>, w: nat, i: nat)
    requires i < |y1| && i < |y2| && y1[..i + 1] == y2[..i + 1]
    ensures SlopeAt(y1, w, i) == SlopeAt(y2, w, i)
  {
    if w <= i + 1 {
      assert Window(y1, w, i) == y1[..i + 1][i + 1 - w ..];
      assert Window(y2, w, i) == y2[..i + 1][i + 1 - w ..];
    }
  }
}
