/** Shared vocabulary: an optional value (a float cell that may be NaN is an
    Option<real>, NaN being None) and the real-valued sequence arithmetic the
    numeric code relies on (sums, means, extrema, the values present in a
    window). */
module Values {

  datatype Option<+T> = None | Some(value: T)

  /** The outcome of an operation that may raise an error. */
  datatype Result<+T> = Ok(value: T) | Err(message: string)

  /** Sum of a sequence, accumulated from the left. */
  function Sum(s: seq<real>): real
  {
    if |s| == 0 then 0.0 else Sum(s[..|s| - 1]) + s[|s| - 1]
  }

  function Mean(s: seq<real>): real
    requires |s| > 0
  {
    Sum(s) / (|s| as real)
  }

  function Min(s: seq<real>): real
    requires |s| > 0
  {
    if |s| == 1 then s[0]
    else var m := Min(s[..|s| - 1]); if s[|s| - 1] < m then s[|s| - 1] else m
  }

  function Max(s: seq<real>): real
    requires |s| > 0
  {
    if |s| == 1 then s[0]
    else var m := Max(s[..|s| - 1]); if s[|s| - 1] > m then s[|s| - 1] else m
  }

  /** The values that are present (not NaN), in order. */
  function Present(s: seq<Option<real>>): (p: seq<real>)
    ensures |p| <= |s|
  {
    if |s| == 0 then []
    else Present(s[..|s| - 1]) + (if s[|s| - 1].Some? then [s[|s| - 1].value] else [])
  }

  predicate AllPresent(s: seq<Option<real>>)
  {
    forall k :: 0 <= k < |s| ==> s[k].Some?
  }

  /** The values of a window known to hold no NaN. */
  function Unwrap(s: seq<Option<real>>): (r: seq<real>)
    requires AllPresent(s)
    ensures |r| == |s|
    ensures forall k :: 0 <= k < |s| ==> s[k] == Some(r[k])
  {
    seq(|s|, k requires 0 <= k < |s| => s[k].value)
  }

  /** Sum of a sequence each of whose elements is divided by d. */
  lemma {:induction false} SumScaled(s: seq<real>, t: seq<real>, d: real)
    requires d != 0.0 && |t| == |s|
    requires forall k :: 0 <= k < |s| ==> t[k] == s[k] / d
    ensures Sum(t) == Sum(s) / d
  {
    if |s| > 0 {
      SumScaled(s[..|s| - 1], t[..|t| - 1], d);
    }
  }

  /** t is s with every element multiplied by m. */
  predicate Scaled(s: seq<real>, t: seq<real>, m: real)
  {
    |t| == |s| && forall k :: 0 <= k < |s| ==> t[k] == m * s[k]
  }

  /** Sum of a sequence each of whose elements is multiplied by m. */
  lemma {:induction false} SumTimes(s: seq<real>, t: seq<real>, m: real)
    requires Scaled(s, t, m)
    ensures Sum(t) == m * Sum(s)
  {
    if |s| > 0 {
      SumTimes(s[..|s| - 1], t[..|t| - 1], m);
    }
  }

  lemma {:induction false} SumOfConstant(s: seq<real>, v: real)
    requires forall k :: 0 <= k < |s| ==> s[k] == v
    ensures Sum(s) == (|s| as real) * v
  {
    if |s| > 0 {
      SumOfConstant(s[..|s| - 1], v);
    }
  }

  lemma {:induction false} SumNonNegative(s: seq<real>)
    requires forall k :: 0 <= k < |s| ==> s[k] >= 0.0
    ensures Sum(s) >= 0.0
  {
    if |s| > 0 {
      SumNonNegative(s[..|s| - 1]);
    }
  }

  /** The minimum and the maximum are elements and bound every element. */
  lemma {:induction false} MinMaxBound(s: seq<real>)
    requires |s| > 0
    ensures Min(s) in s && Max(s) in s
    ensures forall k :: 0 <= k < |s| ==> Min(s) <= s[k] <= Max(s)
  {
    if |s| > 1 {
      MinMaxBound(s[..|s| - 1]);
      assert forall k :: 0 <= k < |s| - 1 ==> s[k] == s[..|s| - 1][k];
    }
  }

  lemma {:induction false} SumBetween(s: seq<real>, lo: real, hi: real)
    requires forall k :: 0 <= k < |s| ==> lo <= s[k] <= hi
    ensures (|s| as real) * lo <= Sum(s) <= (|s| as real) * hi
  {
    if |s| > 0 {
      SumBetween(s[..|s| - 1], lo, hi);
    }
  }

  /** The mean of a non-empty sequence lies between its minimum and its maximum. */
  lemma {:induction false} MeanBetweenMinMax(s: seq<real>)
    requires |s| > 0
    ensures Min(s) <= Mean(s) <= Max(s)
  {
    MinMaxBound(s);
    MeanBetween(s, Min(s), Max(s));
  }

  /** The mean of values within [lo, hi] lies within [lo, hi]. */
  lemma {:induction false} MeanBetween(s: seq<real>, lo: real, hi: real)
    requires |s| > 0
    requires forall k :: 0 <= k < |s| ==> lo <= s[k] <= hi
    ensures lo <= Mean(s) <= hi
  {
    SumBetween(s, lo, hi);
    DivideBounds(|s| as real, lo, Sum(s), hi);
  }

  lemma {:induction false} DivideBounds(n: real, lo: real, x: real, hi: real)
    requires n > 0.0 && n * lo <= x <= n * hi
    ensures lo <= x / n <= hi
  {
    assert x / n * n == x;
  }

  /** A window with no NaN keeps all of its values, in order. */
  lemma {:induction false} PresentOfAllPresent(s: seq<Option<real>>)
    requires AllPresent(s)
    ensures Present(s) == Unwrap(s)
  {
    if |s| > 0 {
      PresentOfAllPresent(s[..|s| - 1]);
      assert Unwrap(s) == Unwrap(s[..|s| - 1]) + [s[|s| - 1].value];
    }
  }

  lemma {:induction false} PresentEmptyIff(s: seq<Option<real>>)
    ensures |Present(s)| == 0 <==> forall k :: 0 <= k < |s| ==> s[k].None?
  {
    if |s| > 0 {
      PresentEmptyIff(s[..|s| - 1]);
      assert forall k :: 0 <= k < |s| - 1 ==> s[k] == s[..|s| - 1][k];
    }
  }

  /** Every value Present keeps comes from some position of the window. */
  lemma {:induction false} PresentElements(s: seq<Option<real>>)
    ensures forall x :: x in Present(s) ==> Some(x) in s
  {
    if |s| > 0 {
      PresentElements(s[..|s| - 1]);
      assert forall x :: Some(x) in s[..|s| - 1] ==> Some(x) in s;
    }
  }

  /** In a sequence of non-negative numbers every element is at most the sum. */
  lemma {:induction false} ElementAtMostSum(s: seq<real>, k: int)
    requires forall i :: 0 <= i < |s| ==> s[i] >= 0.0
    requires 0 <= k < |s|
    ensures s[k] <= Sum(s)
  {
    var init := s[..|s| - 1];
    if k < |s| - 1 {
      ElementAtMostSum(init, k);
    } else {
      SumNonNegative(init);
    }
  }
}
