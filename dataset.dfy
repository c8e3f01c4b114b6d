/** The leakage-free train/test splitter of src/features.py
    (build_dataset_leakage_free). A series is a sequence of observations
    (hour count, value or NaN). The raw series is put on an hourly grid, a
    336-hour history buffer is taken before the training span, history and
    training are forward-filled together, features are built twice (once on
    history + training, once on that plus the NaN-free test observations),
    and only rows whose features and target are all present are kept. */
module Dataset {
  import opened Values
  import Features

  datatype Obs = Obs(time: int, value: Option<real>)

  type Series = seq<Obs>

  /** A training or test row: its timestamp, its complete feature row and its target. */
  datatype Sample = Sample(time: int, features: map<Features.FeatureKey, real>, target: real)

  datatype Split = Split(train: seq<Sample>, test: seq<Sample>)

  /** The history buffer in front of the training span, in hours. */
  const MaxWindow: int := 336

  /** The forward fill fills at most this many consecutive NaNs. */
  const FillLimit: nat := 5000

  predicate Increasing(s: Series)
  {
    forall j, k :: 0 <= j < k < |s| ==> s[j].time < s[k].time
  }

  function Times(s: Series): (r: seq<int>)
    ensures |r| == |s| && forall k :: 0 <= k < |s| ==> r[k] == s[k].time
  {
    seq(|s|, k requires 0 <= k < |s| => s[k].time)
  }

  function Vals(s: Series): (r: seq<Option<real>>)
    ensures |r| == |s| && forall k :: 0 <= k < |s| ==> r[k] == s[k].value
  {
    seq(|s|, k requires 0 <= k < |s| => s[k].value)
  }

  // ---------------- filters ----------------

  /** The observations that `keep` accepts, in order (a boolean mask). */
  function Filter(s: Series, keep: Obs -> bool): (r: Series)
    ensures |r| <= |s|
  {
    if |s| == 0 then []
    else Filter(s[..|s| - 1], keep) + (if keep(s[|s| - 1]) then [s[|s| - 1]] else [])
  }

  /** The filter keeps exactly the accepted observations. */
  lemma {:induction false} FilterMember(s: Series, keep: Obs -> bool)
    ensures forall o :: o in Filter(s, keep) <==> o in s && keep(o)
  {
    if |s| > 0 {
      FilterMember(s[..|s| - 1], keep);
      assert s == s[..|s| - 1] + [s[|s| - 1]];
    }
  }

  function RangeMask(lo: int, hi: int): Obs -> bool
  {
    (o: Obs) => lo <= o.time < hi
  }

  function UpToMask(t: int): Obs -> bool
  {
    (o: Obs) => o.time <= t
  }

  function PresentMask(): Obs -> bool
  {
    (o: Obs) => o.value.Some?
  }

  /** The observations with lo <= time < hi. */
  function InRange(s: Series, lo: int, hi: int): Series
  {
    Filter(s, RangeMask(lo, hi))
  }

  /** The observations at or before hour t: what is known at time t. */
  function UpTo(s: Series, t: int): Series
  {
    Filter(s, UpToMask(t))
  }

  /** dropna: the observations whose value is present. */
  function DropNa(s: Series): Series
  {
    Filter(s, PresentMask())
  }

  lemma {:induction false} FilterConcat(a: Series, b: Series, keep: Obs -> bool)
    ensures Filter(a + b, keep) == Filter(a, keep) + Filter(b, keep)
    decreases |b|
  {
    if |b| > 0 {
      assert (a + b)[..|a + b| - 1] == a + b[..|b| - 1];
      FilterConcat(a, b[..|b| - 1], keep);
    } else {
      assert a + b == a;
    }
  }

  lemma {:induction false} FilterCommute(s: Series, p: Obs -> bool, q: Obs -> bool)
    ensures Filter(Filter(s, p), q) == Filter(Filter(s, q), p)
  {
    if |s| > 0 {
      var init, last := s[..|s| - 1], s[|s| - 1];
      FilterCommute(init, p, q);
      FilterConcat(Filter(init, p), if p(last) then [last] else [], q);
      FilterConcat(Filter(init, q), if q(last) then [last] else [], p);
    }
  }

  lemma {:induction false} FilterKeepsAll(s: Series, keep: Obs -> bool)
    requires forall k :: 0 <= k < |s| ==> keep(s[k])
    ensures Filter(s, keep) == s
  {
    if |s| > 0 {
      FilterKeepsAll(s[..|s| - 1], keep);
    }
  }

  lemma {:induction false} FilterIncreasing(s: Series, keep: Obs -> bool)
    requires Increasing(s)
    ensures Increasing(Filter(s, keep))
  {
    if |s| > 0 {
      var init := s[..|s| - 1];
      FilterIncreasing(init, keep);
      var r := Filter(init, keep);
      FilterMember(init, keep);
      forall k | 0 <= k < |r| ensures r[k].time < s[|s| - 1].time {
        assert r[k] in init;
      }
    }
  }

  /** The observations up to hour t form the prefix of length c when c splits
      the series there. */
  lemma {:induction false} UpToIsPrefix(s: Series, t: int, c: nat)
    requires c <= |s|
    requires forall k :: 0 <= k < c ==> s[k].time <= t
    requires forall k :: c <= k < |s| ==> s[k].time > t
    ensures UpTo(s, t) == s[..c]
  {
    if c == |s| {
      FilterKeepsAll(s, UpToMask(t));
      assert s[..c] == s;
    } else {
      UpToIsPrefix(s[..|s| - 1], t, c);
      assert s[..|s| - 1][..c] == s[..c];
    }
  }

  /** Where an increasing series crosses hour t. */
  lemma {:induction false} Cut(s: Series, t: int) returns (c: nat)
    requires Increasing(s)
    ensures c <= |s|
    ensures forall k :: 0 <= k < c ==> s[k].time <= t
    ensures forall k :: c <= k < |s| ==> s[k].time > t
  {
    if |s| == 0 || s[|s| - 1].time <= t {
      c := |s|;
    } else {
      c := Cut(s[..|s| - 1], t);
    }
  }

  // ---------------- hourly grid (asfreq) ----------------

  /** The value observed at hour t, NaN when there is no observation. */
  function ValueAt(s: Series, t: int): Option<real>
  {
    if |s| == 0 then None
    else if s[|s| - 1].time == t then s[|s| - 1].value
    else ValueAt(s[..|s| - 1], t)
  }

  /** asfreq("1h"): every hour from the first observation to the last, with
      the observed value or NaN. */
  function AsFreq(s: Series): (g: Series)
    ensures |s| == 0 ==> g == []
    ensures forall k :: 0 <= k < |g| ==> g[k] == Obs(s[0].time + k, ValueAt(s, s[0].time + k))
  {
    if |s| == 0 || s[|s| - 1].time < s[0].time then []
    else seq(s[|s| - 1].time - s[0].time + 1, k requires k >= 0 => Obs(s[0].time + k, ValueAt(s, s[0].time + k)))
  }

  // ---------------- forward fill ----------------

  /** The last position at or before i holding a present value. */
  function LastPresent(v: seq<Option<real>>, i: nat): (r: Option<nat>)
    requires i < |v|
    ensures r.Some? ==> r.value <= i && v[r.value].Some? && forall k :: r.value < k <= i ==> v[k].None?
    ensures r.None? ==> forall k :: 0 <= k <= i ==> v[k].None?
  {
    if v[i].Some? then Some(i)
    else if i == 0 then None
    else LastPresent(v, i - 1)
  }

  /** ffill(limit): a NaN takes the last present value before it, unless more
      than `limit` NaNs separate them. */
  function FFill(v: seq<Option<real>>, limit: nat): (r: seq<Option<real>>)
    ensures |r| == |v|
  {
    seq(|v|, i requires 0 <= i < |v| =>
      match LastPresent(v, i)
      case None => None
      case Some(j) => if i - j <= limit then v[j] else None)
  }

  /** The series with its values forward-filled (limit 5000). */
  function Filled(s: Series): (r: Series)
    ensures |r| == |s|
    ensures forall k :: 0 <= k < |s| ==> r[k].time == s[k].time
  {
    var f := FFill(Vals(s), FillLimit);
    seq(|s|, k requires 0 <= k < |s| => Obs(s[k].time, f[k]))
  }

  // ---------------- row selection ----------------

  type Table = Features.Table

  predicate Covers(t: Table, p: nat)
  {
    forall key :: key in t ==> p < |t[key]|
  }

  /** Row p of the table when every feature there is present. */
  function RowOf(t: Table, p: nat): (r: Option<map<Features.FeatureKey, real>>)
    requires Covers(t, p)
    ensures r.Some? ==> r.value.Keys == t.Keys && forall key :: key in t ==> t[key][p] == Some(r.value[key])
    ensures r.None? ==> exists key :: key in t && t[key][p].None?
  {
    if forall key :: key in t ==> t[key][p].Some? then Some(map key | key in t :: t[key][p].value) else None
  }

  /** The rows of the targets ys, which sit at positions off, off+1, ... of
      the table, whose features and target are all present. */
  function Select(t: Table, ys: Series, off: nat): (r: seq<Sample>)
    requires forall key :: key in t ==> off + |ys| <= |t[key]|
  {
    if |ys| == 0 then []
    else
      var last := ys[|ys| - 1];
      var row := RowOf(t, off + |ys| - 1);
      Select(t, ys[..|ys| - 1], off)
      + (if last.value.Some? && row.Some? then [Sample(last.time, row.value, last.value.value)] else [])
  }

  /** The complete rows of the positions from `off` on of series s, with the
      features built over the whole of s. */
  function Rows(s: Series, off: nat, temp: Features.TempSeries): seq<Sample>
    requires off <= |s|
  {
    Select(Features.Features(Features.DefaultSpec, Times(s), Vals(s), temp), s[off..], off)
  }

  /** The row of target y at position p of table t, when y and every
      feature at p are present. */
  function Picked(t: Table, y: Obs, p: nat): Option<Sample>
    requires Covers(t, p)
  {
    var row := RowOf(t, p);
    if y.value.Some? && row.Some? then Some(Sample(y.time, row.value, y.value.value)) else None
  }

  /** Position p of series s as a row of the features built over the whole
      of s. */
  function SampleAt(s: Series, p: nat, temp: Features.TempSeries): Option<Sample>
    requires p < |s|
  {
    Picked(Features.Features(Features.DefaultSpec, Times(s), Vals(s), temp), s[p], p)
  }

  // ---------------- the splitter ----------------

  function History(g: Series, trainStart: int): Series
  {
    InRange(g, trainStart - MaxWindow, trainStart)
  }

  function TrainSpan(g: Series, trainStart: int, testStart: int): Series
  {
    InRange(g, trainStart, testStart)
  }

  function TestSpan(g: Series, testStart: int, testEnd: int): Series
  {
    InRange(g, testStart, testEnd + 1)
  }

  /** History and training span concatenated and forward-filled. */
  function HistTrain(g: Series, trainStart: int, testStart: int): Series
  {
    Filled(History(g, trainStart) + TrainSpan(g, trainStart, testStart))
  }

  /** The series the test features are built on: the filled history and
      training span followed by the test observations that are present. */
  function TestInput(g: Series, trainStart: int, testStart: int, testEnd: int): Series
  {
    HistTrain(g, trainStart, testStart) + DropNa(TestSpan(g, testStart, testEnd))
  }

  /** build_dataset_leakage_free: the complete training rows in
      [trainStart, testStart) with forward-filled targets, and the complete
      test rows in [testStart, testEnd] with observed targets. The series is
      in time order, as the hourly resampled series of its caller is, and
      the training span starts no later than the test span. */
  function BuildDataset(s: Series, trainStart: int, testStart: int, testEnd: int, temp: Features.TempSeries): (d: Split)
    requires Increasing(s) && trainStart <= testStart
    ensures forall r :: r in d.train ==> trainStart <= r.time < testStart
    ensures forall r :: r in d.test ==> testStart <= r.time <= testEnd
  {
    var g := AsFreq(s);
    var hist := History(g, trainStart);
    var histTrain := HistTrain(g, trainStart, testStart);
    TrainRows(g, trainStart, testStart, temp);
    TestRows(g, trainStart, testStart, testEnd, temp);
    Split(Rows(histTrain, |hist|, temp),
          Rows(TestInput(g, trainStart, testStart, testEnd), |histTrain|, temp))
  }

  // ---------------- forward fill: properties ----------------

  /** A present value is kept; a NaN is filled exactly when a present value
      lies at most `limit` positions before it, and then takes the value of
      the nearest one. */
  lemma {:induction false} FFillSpec(v: seq<Option<real>>, limit: nat, i: nat)
    requires i < |v|
    ensures v[i].Some? ==> FFill(v, limit)[i] == v[i]
    ensures FFill(v, limit)[i].Some? <==> exists j :: 0 <= j <= i && i - j <= limit && v[j].Some?
    ensures FFill(v, limit)[i].Some? ==>
              exists j :: 0 <= j <= i && i - j <= limit && v[j] == FFill(v, limit)[i] &&
                          forall k :: j < k <= i ==> v[k].None?
  {
    var f := FFill(v, limit);
    match LastPresent(v, i)
    case None =>
    case Some(j) =>
      if f[i].Some? {
        assert v[j] == f[i];
      }
      forall j' | 0 <= j' <= i && i - j' <= limit && v[j'].Some? ensures f[i].Some? {
        assert j' <= j;
      }
  }

  lemma {:induction false} LastPresentPrefix(v1: seq<Option<real>>, v2: seq<Option<real>>, i: nat)
    requires i < |v1| && i < |v2| && v1[..i + 1] == v2[..i + 1]
    ensures LastPresent(v1, i) == LastPresent(v2, i)
  {
    assert v1[i] == v1[..i + 1][i] && v2[i] == v2[..i + 1][i];
    if i > 0 {
      assert v1[..i] == v1[..i + 1][..i] && v2[..i] == v2[..i + 1][..i];
      LastPresentPrefix(v1, v2, i - 1);
    }
  }

  /** The forward fill never looks ahead: its first c values depend only on
      the first c inputs. */
  lemma {:induction false} FFillPrefix(v1: seq<Option<real>>, v2: seq<Option<real>>, limit: nat, c: nat)
    requires c <= |v1| && c <= |v2| && v1[..c] == v2[..c]
    ensures FFill(v1, limit)[..c] == FFill(v2, limit)[..c]
  {
    forall i | 0 <= i < c ensures FFill(v1, limit)[i] == FFill(v2, limit)[i] {
      assert v1[..i + 1] == v1[..c][..i + 1] && v2[..i + 1] == v2[..c][..i + 1];
      LastPresentPrefix(v1, v2, i);
      match LastPresent(v1, i)
      case None =>
      case Some(j) => assert v1[j] == v1[..c][j] && v2[j] == v2[..c][j];
    }
  }

  // ---------------- the hourly grid: properties ----------------

  lemma {:induction false} ValueAtObserved(s: Series, k: nat)
    requires Increasing(s) && k < |s|
    ensures ValueAt(s, s[k].time) == s[k].value
  {
    if k < |s| - 1 {
      ValueAtObserved(s[..|s| - 1], k);
    }
  }

  lemma {:induction false} ValueAtSome(s: Series, t: int)
    requires ValueAt(s, t).Some?
    ensures Obs(t, ValueAt(s, t)) in s
  {
    if s[|s| - 1].time != t {
      ValueAtSome(s[..|s| - 1], t);
    }
  }

  /** asfreq keeps every observation, adds only NaN rows, and yields one row
      per hour from the first observation to the last. */
  lemma {:induction false} AsFreqGrid(s: Series)
    requires Increasing(s) && |s| > 0
    ensures |AsFreq(s)| == s[|s| - 1].time - s[0].time + 1
    ensures Increasing(AsFreq(s))
    ensures forall k :: 0 <= k < |s| ==> s[k] in AsFreq(s)
    ensures forall o :: o in AsFreq(s) && o.value.Some? ==> o in s
  {
    var g := AsFreq(s);
    forall k | 0 <= k < |s| ensures s[k] in g {
      ValueAtObserved(s, k);
      if k > 0 {
        assert s[0].time < s[k].time;
      }
      if k < |s| - 1 {
        assert s[k].time < s[|s| - 1].time;
      }
      assert g[s[k].time - s[0].time] == s[k];
    }
    forall o | o in g && o.value.Some? ensures o in s {
      ValueAtSome(s, o.time);
    }
  }

  /** Grid rows with a present value are observations of the raw series. */
  lemma {:induction false} GridObserved(s: Series, o: Obs)
    requires o in AsFreq(s) && o.value.Some?
    ensures o in s
  {
    ValueAtSome(s, o.time);
  }

  /** On a gap-free grid a time range is a contiguous slice. */
  lemma {:induction false} FilterSameOn(s: Series, p: Obs -> bool, q: Obs -> bool)
    requires forall k :: 0 <= k < |s| ==> p(s[k]) == q(s[k])
    ensures Filter(s, p) == Filter(s, q)
  {
    if |s| > 0 {
      FilterSameOn(s[..|s| - 1], p, q);
    }
  }

  lemma {:induction false} SliceSnoc(s: Series, a: nat)
    requires a < |s|
    ensures s[a..] == s[..|s| - 1][a..] + [s[|s| - 1]]
  {
  }

  lemma {:induction false} GridRange(g: Series, g0: int, lo: int, hi: int)
    requires forall k :: 0 <= k < |g| ==> g[k].time == g0 + k
    requires g0 <= lo <= hi <= g0 + |g|
    ensures InRange(g, lo, hi) == g[lo - g0 .. hi - g0]
    decreases |g|, 1
  {
    if lo == hi {
      FilterNone(g, RangeMask(lo, hi));
    } else if hi == g0 + |g| {
      GridRangeToEnd(g, g0, lo);
    } else {
      var init := g[..|g| - 1];
      GridRange(init, g0, lo, hi);
      assert !RangeMask(lo, hi)(g[|g| - 1]);
      assert init[lo - g0 .. hi - g0] == g[lo - g0 .. hi - g0];
    }
  }

  lemma {:induction false} GridRangeToEnd(g: Series, g0: int, lo: int)
    requires forall k :: 0 <= k < |g| ==> g[k].time == g0 + k
    requires g0 <= lo < g0 + |g|
    ensures InRange(g, lo, g0 + |g|) == g[lo - g0..]
    decreases |g|, 0
  {
    var hi := g0 + |g|;
    var init, last := g[..|g| - 1], g[|g| - 1];
    assert RangeMask(lo, hi)(last);
    assert InRange(g, lo, hi) == Filter(init, RangeMask(lo, hi)) + [last];
    FilterSameOn(init, RangeMask(lo, hi), RangeMask(lo, hi - 1));
    GridRange(init, g0, lo, hi - 1);
    assert init[lo - g0 .. hi - 1 - g0] == init[lo - g0..];
    SliceSnoc(g, lo - g0);
  }

  lemma {:induction false} FilterNone(s: Series, keep: Obs -> bool)
    requires forall k :: 0 <= k < |s| ==> !keep(s[k])
    ensures Filter(s, keep) == []
  {
    if |s| > 0 {
      FilterNone(s[..|s| - 1], keep);
    }
  }

  /** History starts exactly MaxWindow hours before the training span: when
      the series covers that stretch, the history buffer is its 336 hourly rows. */
  lemma {:induction false} HistoryWindow(s: Series, trainStart: int)
    requires Increasing(s) && |s| > 0
    requires s[0].time <= trainStart - MaxWindow && trainStart - 1 <= s[|s| - 1].time
    ensures Times(History(AsFreq(s), trainStart)) == seq(MaxWindow, k requires 0 <= k => trainStart - MaxWindow + k)
  {
    var g := AsFreq(s);
    AsFreqGrid(s);
    GridRange(g, s[0].time, trainStart - MaxWindow, trainStart);
  }

  // ---------------- the splitter: properties ----------------

  lemma {:induction false} SelectSamples(t: Table, ys: Series, off: nat)
    requires forall key :: key in t ==> off + |ys| <= |t[key]|
    ensures forall r :: r in Select(t, ys, off) ==> Obs(r.time, Some(r.target)) in ys && r.features.Keys == t.Keys
  {
    if |ys| > 0 {
      SelectSamples(t, ys[..|ys| - 1], off);
    }
  }

  lemma {:induction false} RowsSamples(s: Series, off: nat, temp: Features.TempSeries)
    requires off <= |s|
    ensures forall r :: r in Rows(s, off, temp) ==>
              Obs(r.time, Some(r.target)) in s[off..] &&
              r.features.Keys == Features.Keys(Features.DefaultSpec, temp.Some?)
  {
    SelectSamples(Features.Features(Features.DefaultSpec, Times(s), Vals(s), temp), s[off..], off);
  }

  /** The training targets sit after the history buffer, in the training span. */
  lemma {:induction false} TrainRows(g: Series, trainStart: int, testStart: int, temp: Features.TempSeries)
    ensures forall r :: r in Rows(HistTrain(g, trainStart, testStart), |History(g, trainStart)|, temp) ==>
              trainStart <= r.time < testStart &&
              r.features.Keys == Features.Keys(Features.DefaultSpec, temp.Some?)
  {
    var hist := History(g, trainStart);
    var ht := HistTrain(g, trainStart, testStart);
    RowsSamples(ht, |hist|, temp);
    TrainSpanTimes(g, trainStart, testStart);
  }

  /** After the history buffer, the filled series holds the training span's times. */
  lemma {:induction false} TrainSpanTimes(g: Series, trainStart: int, testStart: int)
    ensures |History(g, trainStart)| <= |HistTrain(g, trainStart, testStart)|
    ensures forall o :: o in HistTrain(g, trainStart, testStart)[|History(g, trainStart)|..] ==>
              trainStart <= o.time < testStart
  {
    var hist := History(g, trainStart);
    var span := TrainSpan(g, trainStart, testStart);
    var ht := HistTrain(g, trainStart, testStart);
    var both: Series := hist + span;
    FilterMember(g, RangeMask(trainStart, testStart));
    forall k | |hist| <= k < |ht| ensures trainStart <= ht[k].time < testStart {
      assert ht[k].time == both[k].time;
      assert both[k] == span[k - |hist|];
      assert span[k - |hist|] in span;
    }
    forall o | o in ht[|hist|..] ensures trainStart <= o.time < testStart {
      var j :| 0 <= j < |ht| - |hist| && ht[|hist|..][j] == o;
      assert ht[|hist| + j] == o;
    }
  }

  /** The test targets are the present observations of the test span. */
  lemma {:induction false} TestRows(g: Series, trainStart: int, testStart: int, testEnd: int, temp: Features.TempSeries)
    ensures forall r :: r in Rows(TestInput(g, trainStart, testStart, testEnd), |HistTrain(g, trainStart, testStart)|, temp) ==>
              Obs(r.time, Some(r.target)) in DropNa(TestSpan(g, testStart, testEnd)) &&
              testStart <= r.time <= testEnd &&
              r.features.Keys == Features.Keys(Features.DefaultSpec, temp.Some?)
  {
    var ht := HistTrain(g, trainStart, testStart);
    var ti := TestInput(g, trainStart, testStart, testEnd);
    RowsSamples(ti, |ht|, temp);
    assert ti[|ht|..] == DropNa(TestSpan(g, testStart, testEnd));
    FilterMember(TestSpan(g, testStart, testEnd), PresentMask());
    FilterMember(g, RangeMask(testStart, testEnd + 1));
  }

  /** Training rows lie in [trainStart, testStart), test rows in
      [testStart, testEnd], so no timestamp is both; every row holds a value
      for every feature column. */
  lemma {:induction false} SplitSpans(s: Series, trainStart: int, testStart: int, testEnd: int, temp: Features.TempSeries)
    requires Increasing(s) && trainStart <= testStart
    ensures var d := BuildDataset(s, trainStart, testStart, testEnd, temp);
      (forall r :: r in d.train ==> trainStart <= r.time < testStart) &&
      (forall r :: r in d.test ==> testStart <= r.time <= testEnd) &&
      (forall r1, r2 :: r1 in d.train && r2 in d.test ==> r1.time < r2.time) &&
      (forall r :: r in d.train + d.test ==> r.features.Keys == Features.Keys(Features.DefaultSpec, temp.Some?))
  {
    TrainRows(AsFreq(s), trainStart, testStart, temp);
    TestRows(AsFreq(s), trainStart, testStart, testEnd, temp);
  }

  /** Select keeps every position whose target and features are all
      present, with the table's row at its position. */
  lemma {:induction false} SelectKeeps(t: Table, ys: Series, off: nat)
    requires forall key :: key in t ==> off + |ys| <= |t[key]|
    ensures forall k :: 0 <= k < |ys| && Picked(t, ys[k], off + k).Some? ==>
              Picked(t, ys[k], off + k).value in Select(t, ys, off)
  {
    if |ys| > 0 {
      var n := |ys| - 1;
      var init := ys[..n];
      SelectKeeps(t, init, off);
      var prev := Select(t, init, off);
      var sel := Select(t, ys, off);
      assert sel == prev + (if Picked(t, ys[n], off + n).Some? then [Picked(t, ys[n], off + n).value] else []);
      forall k | 0 <= k < n && Picked(t, ys[k], off + k).Some?
        ensures Picked(t, ys[k], off + k).value in sel
      {
        assert init[k] == ys[k];
        assert Picked(t, ys[k], off + k).value in prev;
      }
    }
  }

  /** Select keeps nothing else: each of its rows is the row of one position. */
  lemma {:induction false} SelectOnlyPicked(t: Table, ys: Series, off: nat)
    requires forall key :: key in t ==> off + |ys| <= |t[key]|
    ensures forall r :: r in Select(t, ys, off) ==>
              exists k :: 0 <= k < |ys| && Picked(t, ys[k], off + k) == Some(r)
  {
    if |ys| > 0 {
      var n := |ys| - 1;
      var init := ys[..n];
      SelectOnlyPicked(t, init, off);
      var prev := Select(t, init, off);
      var sel := Select(t, ys, off);
      assert sel == prev + (if Picked(t, ys[n], off + n).Some? then [Picked(t, ys[n], off + n).value] else []);
      forall r | r in sel ensures exists k :: 0 <= k < |ys| && Picked(t, ys[k], off + k) == Some(r) {
        if r in prev {
          var k :| 0 <= k < |init| && Picked(t, init[k], off + k) == Some(r);
          assert init[k] == ys[k];
        } else {
          assert Picked(t, ys[n], off + n) == Some(r);
        }
      }
    }
  }

  /** The rows from position off on are exactly the positions p >= off of s
      that SampleAt keeps. */
  lemma {:induction false} RowsExact(s: Series, off: nat, temp: Features.TempSeries)
    requires off <= |s|
    ensures forall p :: off <= p < |s| && SampleAt(s, p, temp).Some? ==> SampleAt(s, p, temp).value in Rows(s, off, temp)
    ensures forall r :: r in Rows(s, off, temp) ==> exists p :: off <= p < |s| && SampleAt(s, p, temp) == Some(r)
  {
    var tab := Features.Features(Features.DefaultSpec, Times(s), Vals(s), temp);
    var ys := s[off..];
    SelectKeeps(tab, ys, off);
    SelectOnlyPicked(tab, ys, off);
    assert Rows(s, off, temp) == Select(tab, ys, off);
    forall p | off <= p < |s| && SampleAt(s, p, temp).Some? ensures SampleAt(s, p, temp).value in Rows(s, off, temp) {
      assert ys[p - off] == s[p];
      assert SampleAt(s, p, temp) == Picked(tab, ys[p - off], off + (p - off));
    }
    forall r | r in Rows(s, off, temp) ensures exists p :: off <= p < |s| && SampleAt(s, p, temp) == Some(r) {
      var k :| 0 <= k < |ys| && Picked(tab, ys[k], off + k) == Some(r);
      assert ys[k] == s[off + k];
      assert SampleAt(s, off + k, temp) == Some(r);
    }
  }

  /** The training rows are exactly the positions after the history buffer
      of the filled series whose target and features are all present; each
      carries the feature row at its position. */
  lemma {:induction false} TrainRowsExact(s: Series, trainStart: int, testStart: int, testEnd: int, temp: Features.TempSeries)
    requires Increasing(s) && trainStart <= testStart
    ensures var g := AsFreq(s);
            var ht := HistTrain(g, trainStart, testStart);
            var off := |History(g, trainStart)|;
            var train := BuildDataset(s, trainStart, testStart, testEnd, temp).train;
            (forall p :: off <= p < |ht| && SampleAt(ht, p, temp).Some? ==> SampleAt(ht, p, temp).value in train) &&
            (forall r :: r in train ==> exists p :: off <= p < |ht| && SampleAt(ht, p, temp) == Some(r))
  {
    var g := AsFreq(s);
    TrainSpanTimes(g, trainStart, testStart);
    RowsExact(HistTrain(g, trainStart, testStart), |History(g, trainStart)|, temp);
  }

  /** The test rows are exactly the positions after the filled history and
      training span of the test input whose target and features are all
      present; each carries the feature row at its position. */
  lemma {:induction false} TestRowsExact(s: Series, trainStart: int, testStart: int, testEnd: int, temp: Features.TempSeries)
    requires Increasing(s) && trainStart <= testStart
    ensures var g := AsFreq(s);
            var ti := TestInput(g, trainStart, testStart, testEnd);
            var off := |HistTrain(g, trainStart, testStart)|;
            var test := BuildDataset(s, trainStart, testStart, testEnd, temp).test;
            (forall p :: off <= p < |ti| && SampleAt(ti, p, temp).Some? ==> SampleAt(ti, p, temp).value in test) &&
            (forall r :: r in test ==> exists p :: off <= p < |ti| && SampleAt(ti, p, temp) == Some(r))
  {
    var g := AsFreq(s);
    RowsExact(TestInput(g, trainStart, testStart, testEnd), |HistTrain(g, trainStart, testStart)|, temp);
  }

  /** Test targets are raw observations: never filled, never NaN. */
  lemma {:induction false} TestTargetsObserved(s: Series, trainStart: int, testStart: int, testEnd: int, temp: Features.TempSeries)
    requires Increasing(s) && trainStart <= testStart
    ensures forall r :: r in BuildDataset(s, trainStart, testStart, testEnd, temp).test ==>
              Obs(r.time, Some(r.target)) in s
  {
    var g := AsFreq(s);
    TestRows(g, trainStart, testStart, testEnd, temp);
    FilterMember(TestSpan(g, testStart, testEnd), PresentMask());
    FilterMember(g, RangeMask(testStart, testEnd + 1));
    forall o | o in DropNa(TestSpan(g, testStart, testEnd)) && o.value.Some? ensures o in s {
      GridObserved(s, o);
    }
  }

  /** A filled value of the history and training span is a value of the
      grid observed at or before its position, inside the buffer. */
  lemma {:induction false} FilledFromGrid(g: Series, trainStart: int, testStart: int, k: nat)
    requires Increasing(g)
    requires k < |HistTrain(g, trainStart, testStart)| && HistTrain(g, trainStart, testStart)[k].value.Some?
    ensures exists o :: o in g && o.value == HistTrain(g, trainStart, testStart)[k].value &&
                        trainStart - MaxWindow <= o.time <= HistTrain(g, trainStart, testStart)[k].time
  {
    var hist := History(g, trainStart);
    var span := TrainSpan(g, trainStart, testStart);
    var raw := hist + span;
    var x := HistTrain(g, trainStart, testStart)[k].value;
    var v := Vals(raw);
    FFillSpec(v, FillLimit, k);
    var j :| 0 <= j <= k && k - j <= FillLimit && v[j] == x;
    var o := raw[j];
    FilterMember(g, RangeMask(trainStart - MaxWindow, trainStart));
    FilterMember(g, RangeMask(trainStart, testStart));
    assert o in hist || o in span;
    if j < k {
      HistTrainOrdered(g, trainStart, testStart, j, k);
    }
  }

  /** History and training span concatenated stay in time order. */
  lemma {:induction false} HistTrainOrdered(g: Series, trainStart: int, testStart: int, j: nat, k: nat)
    requires Increasing(g)
    requires j < k < |History(g, trainStart) + TrainSpan(g, trainStart, testStart)|
    ensures (History(g, trainStart) + TrainSpan(g, trainStart, testStart))[j].time <
            (History(g, trainStart) + TrainSpan(g, trainStart, testStart))[k].time
  {
    var hist := History(g, trainStart);
    var span := TrainSpan(g, trainStart, testStart);
    var raw := hist + span;
    FilterIncreasing(g, RangeMask(trainStart - MaxWindow, trainStart));
    FilterIncreasing(g, RangeMask(trainStart, testStart));
    FilterMember(g, RangeMask(trainStart - MaxWindow, trainStart));
    FilterMember(g, RangeMask(trainStart, testStart));
    if j < |hist| && |hist| <= k {
      assert raw[j] == hist[j] && raw[j] in hist;
      assert raw[k] == span[k - |hist|] && raw[k] in span;
    } else if k < |hist| {
      assert raw[j] == hist[j] && raw[k] == hist[k];
    } else if |hist| <= j {
      assert raw[j] == span[j - |hist|] && raw[k] == span[k - |hist|];
    }
  }

  /** Training targets come from the forward-filled series: each is a value
      observed at or before its own hour and no earlier than the start of
      the history buffer. */
  lemma {:induction false} TrainTargetsFilled(s: Series, trainStart: int, testStart: int, testEnd: int, temp: Features.TempSeries)
    requires Increasing(s) && trainStart <= testStart
    ensures forall r :: r in BuildDataset(s, trainStart, testStart, testEnd, temp).train ==>
              exists o :: o in s && o.value == Some(r.target) && trainStart - MaxWindow <= o.time <= r.time
  {
    var g := AsFreq(s);
    var hist := History(g, trainStart);
    var ht := HistTrain(g, trainStart, testStart);
    RowsSamples(ht, |hist|, temp);
    if |s| > 0 {
      AsFreqGrid(s);
    }
    forall r | r in BuildDataset(s, trainStart, testStart, testEnd, temp).train
      ensures exists o :: o in s && o.value == Some(r.target) && trainStart - MaxWindow <= o.time <= r.time
    {
      var k :| |hist| <= k < |ht| && ht[k] == Obs(r.time, Some(r.target));
      FilledFromGrid(g, trainStart, testStart, k);
      var o :| o in g && o.value == Some(r.target) && trainStart - MaxWindow <= o.time <= r.time;
      GridObserved(s, o);
    }
  }

  // ---------------- no leakage ----------------

  /** The rows at or before hour t. */
  function SamplesUpTo(rs: seq<Sample>, t: int): (r: seq<Sample>)
    ensures |r| <= |rs|
  {
    if |rs| == 0 then []
    else SamplesUpTo(rs[..|rs| - 1], t) + (if rs[|rs| - 1].time <= t then [rs[|rs| - 1]] else [])
  }

  lemma {:induction false} SamplesUpToConcat(a: seq<Sample>, b: seq<Sample>, t: int)
    ensures SamplesUpTo(a + b, t) == SamplesUpTo(a, t) + SamplesUpTo(b, t)
    decreases |b|
  {
    if |b| > 0 {
      assert (a + b)[..|a + b| - 1] == a + b[..|b| - 1];
      SamplesUpToConcat(a, b[..|b| - 1], t);
    } else {
      assert a + b == a;
    }
  }

  lemma {:induction false} SamplesUpToAll(rs: seq<Sample>, t: int)
    requires forall k :: 0 <= k < |rs| ==> rs[k].time <= t
    ensures SamplesUpTo(rs, t) == rs
  {
    if |rs| > 0 {
      SamplesUpToAll(rs[..|rs| - 1], t);
    }
  }

  lemma {:induction false} SamplesUpToNone(rs: seq<Sample>, t: int)
    requires forall k :: 0 <= k < |rs| ==> rs[k].time > t
    ensures SamplesUpTo(rs, t) == []
  {
    if |rs| > 0 {
      SamplesUpToNone(rs[..|rs| - 1], t);
    }
  }

  lemma {:induction false} ValueAtUpTo(s: Series, x: int, t: int)
    requires x <= t
    ensures ValueAt(s, x) == ValueAt(UpTo(s, t), x)
  {
    if |s| > 0 {
      var init, last := s[..|s| - 1], s[|s| - 1];
      ValueAtUpTo(init, x, t);
      if last.time <= t {
        assert UpToMask(t)(last);
        assert UpTo(s, t) == UpTo(init, t) + [last];
      } else {
        assert UpTo(s, t) == UpTo(init, t);
      }
    }
  }

  /** Two series that agree up to hour t and both reach t put the same grid
      rows at or before t. */
  lemma {:induction false} GridUpTo(s1: Series, s2: Series, t: int)
    requires Increasing(s1) && Increasing(s2) && |s1| > 0 && |s2| > 0
    requires t <= s1[|s1| - 1].time && t <= s2[|s2| - 1].time
    requires UpTo(s1, t) == UpTo(s2, t)
    ensures UpTo(AsFreq(s1), t) == UpTo(AsFreq(s2), t)
  {
    var c1 := Cut(s1, t);
    var c2 := Cut(s2, t);
    UpToIsPrefix(s1, t, c1);
    UpToIsPrefix(s2, t, c2);
    if c1 == 0 {
      GridAfter(s1, t);
      GridAfter(s2, t);
    } else {
      assert s1[0] == s1[..c1][0] == s2[..c2][0] == s2[0];
      GridPrefix(s1, s2, t);
    }
  }

  lemma {:induction false} GridAfter(s: Series, t: int)
    requires Increasing(s) && |s| > 0 && s[0].time > t
    ensures UpTo(AsFreq(s), t) == []
  {
    FilterNone(AsFreq(s), UpToMask(t));
  }

  lemma {:induction false} GridPrefix(s1: Series, s2: Series, t: int)
    requires Increasing(s1) && Increasing(s2) && |s1| > 0 && |s2| > 0
    requires s1[0].time == s2[0].time <= t <= s1[|s1| - 1].time && t <= s2[|s2| - 1].time
    requires UpTo(s1, t) == UpTo(s2, t)
    ensures UpTo(AsFreq(s1), t) == UpTo(AsFreq(s2), t)
  {
    var c := t - s1[0].time + 1;
    GridCut(s1, t);
    GridCut(s2, t);
    GridValuesAgree(s1, s2, t, AsFreq(s1), AsFreq(s2));
  }

  lemma {:induction false} GridValuesAgree(s1: Series, s2: Series, t: int, g1: Series, g2: Series)
    requires |s1| > 0 && |s2| > 0 && s1[0].time == s2[0].time <= t
    requires g1 == AsFreq(s1) && g2 == AsFreq(s2)
    requires t - s1[0].time + 1 <= |g1| && t - s1[0].time + 1 <= |g2|
    requires UpTo(s1, t) == UpTo(s2, t)
    ensures g1[..t - s1[0].time + 1] == g2[..t - s1[0].time + 1]
  {
    var c := t - s1[0].time + 1;
    forall k | 0 <= k < c ensures g1[k] == g2[k] {
      ValueAtUpTo(s1, s1[0].time + k, t);
      ValueAtUpTo(s2, s1[0].time + k, t);
    }
  }

  lemma {:induction false} GridCut(s: Series, t: int)
    requires Increasing(s) && |s| > 0 && s[0].time <= t <= s[|s| - 1].time
    ensures t - s[0].time + 1 <= |AsFreq(s)|
    ensures UpTo(AsFreq(s), t) == AsFreq(s)[..t - s[0].time + 1]
  {
    AsFreqGrid(s);
    UpToIsPrefix(AsFreq(s), t, t - s[0].time + 1);
  }

  /** A filter applied to two series that agree up to t yields series that
      agree up to t. */
  lemma {:induction false} FilterUpTo(a: Series, b: Series, keep: Obs -> bool, t: int)
    requires UpTo(a, t) == UpTo(b, t)
    ensures UpTo(Filter(a, keep), t) == UpTo(Filter(b, keep), t)
  {
    FilterCommute(a, keep, UpToMask(t));
    FilterCommute(b, keep, UpToMask(t));
  }

  /** The forward fill commutes with cutting an ordered series at hour t. */
  lemma {:induction false} FilledUpTo(h: Series, t: int)
    requires Increasing(h)
    ensures UpTo(Filled(h), t) == Filled(UpTo(h, t))
  {
    var c := Cut(h, t);
    UpToIsPrefix(h, t, c);
    UpToIsPrefix(Filled(h), t, c);
    assert Vals(h)[..c] == Vals(h[..c]);
    FFillPrefix(Vals(h), Vals(h[..c]), FillLimit, c);
  }

  lemma {:induction false} HistTrainIncreasing(g: Series, trainStart: int, testStart: int)
    requires Increasing(g) && trainStart <= testStart
    ensures Increasing(History(g, trainStart) + TrainSpan(g, trainStart, testStart))
    ensures Increasing(HistTrain(g, trainStart, testStart))
    ensures forall k :: 0 <= k < |HistTrain(g, trainStart, testStart)| ==> HistTrain(g, trainStart, testStart)[k].time < testStart
  {
    var hist := History(g, trainStart);
    var span := TrainSpan(g, trainStart, testStart);
    var raw := hist + span;
    forall j, k | 0 <= j < k < |raw| ensures raw[j].time < raw[k].time {
      HistTrainOrdered(g, trainStart, testStart, j, k);
    }
    FilterMember(g, RangeMask(trainStart - MaxWindow, trainStart));
    FilterMember(g, RangeMask(trainStart, testStart));
    forall k | 0 <= k < |raw| ensures raw[k].time < testStart {
      if k < |hist| {
        assert raw[k] == hist[k] && hist[k] in hist;
      } else {
        assert raw[k] == span[k - |hist|] && span[k - |hist|] in span;
      }
    }
  }

  lemma {:induction false} SelectUpTo(tab: Table, ys: Series, off: nat, t: int, c: nat)
    requires forall key :: key in tab ==> off + |ys| <= |tab[key]|
    requires c <= |ys|
    requires forall k :: 0 <= k < c ==> ys[k].time <= t
    requires forall k :: c <= k < |ys| ==> ys[k].time > t
    ensures SamplesUpTo(Select(tab, ys, off), t) == Select(tab, ys[..c], off)
  {
    if c == |ys| {
      SelectAllUpTo(tab, ys, off, t);
      assert ys[..c] == ys;
    } else {
      var init := ys[..|ys| - 1];
      SelectDropLast(tab, ys, off, t);
      SelectUpTo(tab, init, off, t, c);
      assert init[..c] == ys[..c];
    }
  }

  /** A last target after hour t contributes no row at or before t. */
  lemma {:induction false} SelectDropLast(tab: Table, ys: Series, off: nat, t: int)
    requires forall key :: key in tab ==> off + |ys| <= |tab[key]|
    requires |ys| > 0 && ys[|ys| - 1].time > t
    ensures SamplesUpTo(Select(tab, ys, off), t) == SamplesUpTo(Select(tab, ys[..|ys| - 1], off), t)
  {
    var init := ys[..|ys| - 1];
    var last := ys[|ys| - 1];
    var row := RowOf(tab, off + |ys| - 1);
    var extra := if last.value.Some? && row.Some? then [Sample(last.time, row.value, last.value.value)] else [];
    assert Select(tab, ys, off) == Select(tab, init, off) + extra;
    SamplesUpToConcat(Select(tab, init, off), extra, t);
    SamplesUpToNone(extra, t);
  }

  lemma {:induction false} SelectAllUpTo(tab: Table, ys: Series, off: nat, t: int)
    requires forall key :: key in tab ==> off + |ys| <= |tab[key]|
    requires forall k :: 0 <= k < |ys| ==> ys[k].time <= t
    ensures SamplesUpTo(Select(tab, ys, off), t) == Select(tab, ys, off)
  {
    SelectSamples(tab, ys, off);
    var sel := Select(tab, ys, off);
    forall i | 0 <= i < |sel| ensures sel[i].time <= t {
      assert sel[i] in sel;
      var k :| 0 <= k < |ys| && ys[k] == Obs(sel[i].time, Some(sel[i].target));
    }
    SamplesUpToAll(sel, t);
  }

  lemma {:induction false} SelectAgree(t1: Table, t2: Table, ys: Series, off: nat)
    requires forall key :: key in t1 ==> off + |ys| <= |t1[key]|
    requires forall key :: key in t2 ==> off + |ys| <= |t2[key]|
    requires forall p :: off <= p < off + |ys| ==> RowOf(t1, p) == RowOf(t2, p)
    ensures Select(t1, ys, off) == Select(t2, ys, off)
  {
    if |ys| > 0 {
      SelectAgree(t1, t2, ys[..|ys| - 1], off);
    }
  }

  /** Feature rows at positions where two series agree on everything before
      are equal: the table-level form of the builder's no-look-ahead property. */
  lemma {:induction false} RowAgree(s1: Series, s2: Series, temp: Features.TempSeries, p: nat)
    requires p < |s1| && p < |s2| && s1[..p + 1] == s2[..p + 1]
    ensures RowOf(Features.Features(Features.DefaultSpec, Times(s1), Vals(s1), temp), p) ==
            RowOf(Features.Features(Features.DefaultSpec, Times(s2), Vals(s2), temp), p)
  {
    PrefixViews(s1, s2, p + 1);
    Features.FeaturesNoLookAhead(Features.DefaultSpec, Times(s1), Vals(s1), Times(s2), Vals(s2), temp, p);
    RowOfAgree(Features.Features(Features.DefaultSpec, Times(s1), Vals(s1), temp),
               Features.Features(Features.DefaultSpec, Times(s2), Vals(s2), temp), p);
  }

  lemma {:induction false} PrefixViews(s1: Series, s2: Series, n: nat)
    requires n <= |s1| && n <= |s2| && s1[..n] == s2[..n]
    ensures Times(s1)[..n] == Times(s2)[..n] && Vals(s1)[..n] == Vals(s2)[..n]
  {
    forall k | 0 <= k < n ensures s1[k] == s2[k] {
      assert s1[k] == s1[..n][k];
    }
  }

  lemma {:induction false} RowOfAgree(t1: Table, t2: Table, p: nat)
    requires Covers(t1, p) && Covers(t2, p) && t1.Keys == t2.Keys
    requires forall key :: key in t1 ==> t1[key][p] == t2[key][p]
    ensures RowOf(t1, p) == RowOf(t2, p)
  {
    if RowOf(t1, p).Some? {
      assert forall key :: key in t2 ==> t2[key][p].Some?;
      var m1, m2 := RowOf(t1, p).value, RowOf(t2, p).value;
      assert m1.Keys == m2.Keys;
      assert forall key :: key in m1 ==> m1[key] == m2[key];
      assert m1 == m2;
    }
  }

  lemma {:induction false} SameSlices(s1: Series, s2: Series, c: nat)
    requires c <= |s1| && c <= |s2| && s1[..c] == s2[..c]
    ensures forall k :: 0 <= k < c ==> s1[k] == s2[k]
  {
    forall k | 0 <= k < c ensures s1[k] == s2[k] {
      assert s1[k] == s1[..c][k];
    }
  }

  /** Two ordered series that agree up to hour t share the prefix of the
      observations at or before t. */
  lemma {:induction false} CommonCut(s1: Series, s2: Series, t: int) returns (c: nat)
    requires Increasing(s1) && Increasing(s2) && UpTo(s1, t) == UpTo(s2, t)
    ensures c <= |s1| && c <= |s2|
    ensures forall k :: 0 <= k < c ==> s1[k] == s2[k] && s1[k].time <= t
    ensures forall k :: c <= k < |s1| ==> s1[k].time > t
    ensures forall k :: c <= k < |s2| ==> s2[k].time > t
  {
    var c1 := Cut(s1, t);
    var c2 := Cut(s2, t);
    UpToIsPrefix(s1, t, c1);
    UpToIsPrefix(s2, t, c2);
    c := c1;
    SameSlices(s1, s2, c);
  }

  lemma {:induction false} RowsAgreeBelow(s1: Series, s2: Series, temp: Features.TempSeries, off: nat, c: nat)
    requires c <= |s1| && c <= |s2|
    requires forall k :: 0 <= k < c ==> s1[k] == s2[k]
    ensures forall p :: off <= p < c ==>
              RowOf(Features.Features(Features.DefaultSpec, Times(s1), Vals(s1), temp), p) ==
              RowOf(Features.Features(Features.DefaultSpec, Times(s2), Vals(s2), temp), p)
  {
    forall p | off <= p < c
      ensures RowOf(Features.Features(Features.DefaultSpec, Times(s1), Vals(s1), temp), p) ==
              RowOf(Features.Features(Features.DefaultSpec, Times(s2), Vals(s2), temp), p)
    {
      assert s1[..p + 1] == s2[..p + 1];
      RowAgree(s1, s2, temp, p);
    }
  }

  /** Rows built from two ordered series that agree up to hour t (and whose
      first `off` entries precede t) agree up to t. */
  lemma {:induction false} RowsUpTo(s1: Series, s2: Series, off: nat, temp: Features.TempSeries, t: int)
    requires Increasing(s1) && Increasing(s2) && off <= |s1| && off <= |s2|
    requires UpTo(s1, t) == UpTo(s2, t)
    requires forall k :: 0 <= k < off ==> s1[k].time <= t
    ensures SamplesUpTo(Rows(s1, off, temp), t) == SamplesUpTo(Rows(s2, off, temp), t)
  {
    var c := CommonCut(s1, s2, t);
    if off > 0 {
      assert s1[off - 1].time <= t;
    }
    RowsAgreeBelow(s1, s2, temp, off, c);
    SelectsUpTo(Features.Features(Features.DefaultSpec, Times(s1), Vals(s1), temp),
                Features.Features(Features.DefaultSpec, Times(s2), Vals(s2), temp), s1, s2, off, t, c);
  }

  lemma {:induction false} SelectsUpTo(t1: Table, t2: Table, s1: Series, s2: Series, off: nat, t: int, c: nat)
    requires off <= c <= |s1| && c <= |s2|
    requires forall key :: key in t1 ==> |s1| <= |t1[key]|
    requires forall key :: key in t2 ==> |s2| <= |t2[key]|
    requires forall k :: 0 <= k < c ==> s1[k] == s2[k] && s1[k].time <= t
    requires forall k :: c <= k < |s1| ==> s1[k].time > t
    requires forall k :: c <= k < |s2| ==> s2[k].time > t
    requires forall p :: off <= p < c ==> RowOf(t1, p) == RowOf(t2, p)
    ensures SamplesUpTo(Select(t1, s1[off..], off), t) == SamplesUpTo(Select(t2, s2[off..], off), t)
  {
    RowsCut(t1, s1, off, t, c);
    RowsCut(t2, s2, off, t, c);
    assert s1[off..c] == s2[off..c];
    SelectAgree(t1, t2, s1[off..c], off);
  }


  lemma {:induction false} RowsCut(tab: Table, s: Series, off: nat, t: int, c: nat)
    requires off <= c <= |s|
    requires forall key :: key in tab ==> |s| <= |tab[key]|
    requires forall k :: 0 <= k < c ==> s[k].time <= t
    requires forall k :: c <= k < |s| ==> s[k].time > t
    ensures SamplesUpTo(Select(tab, s[off..], off), t) == Select(tab, s[off..c], off)
  {
    SelectUpTo(tab, s[off..], off, t, c - off);
    assert s[off..][..c - off] == s[off..c];
  }

  lemma {:induction false} SamplesAfter(rs: seq<Sample>, lo: int, t: int)
    requires forall r :: r in rs ==> lo <= r.time
    requires t < lo
    ensures SamplesUpTo(rs, t) == []
  {
    forall k | 0 <= k < |rs| ensures rs[k].time > t {
      assert rs[k] in rs;
    }
    SamplesUpToNone(rs, t);
  }

  /** Observations before hour `before` are all kept when cutting at t >= before. */
  lemma {:induction false} UpToKeepsEarlier(s: Series, before: int, t: int)
    requires forall k :: 0 <= k < |s| ==> s[k].time < before
    requires before <= t + 1
    ensures UpTo(s, t) == s
  {
    FilterKeepsAll(s, UpToMask(t));
  }

  lemma {:induction false} SpansUpTo(g1: Series, g2: Series, trainStart: int, testStart: int, t: int)
    requires Increasing(g1) && Increasing(g2) && trainStart <= testStart
    requires UpTo(g1, t) == UpTo(g2, t)
    ensures UpTo(History(g1, trainStart), t) == UpTo(History(g2, trainStart), t)
    ensures UpTo(HistTrain(g1, trainStart, testStart), t) == UpTo(HistTrain(g2, trainStart, testStart), t)
  {
    FilterUpTo(g1, g2, RangeMask(trainStart - MaxWindow, trainStart), t);
    FilterUpTo(g1, g2, RangeMask(trainStart, testStart), t);
    FilterConcat(History(g1, trainStart), TrainSpan(g1, trainStart, testStart), UpToMask(t));
    FilterConcat(History(g2, trainStart), TrainSpan(g2, trainStart, testStart), UpToMask(t));
    HistTrainIncreasing(g1, trainStart, testStart);
    HistTrainIncreasing(g2, trainStart, testStart);
    FilledUpTo(History(g1, trainStart) + TrainSpan(g1, trainStart, testStart), t);
    FilledUpTo(History(g2, trainStart) + TrainSpan(g2, trainStart, testStart), t);
  }

  lemma {:induction false} TrainNoLeakage(g1: Series, g2: Series, trainStart: int, testStart: int, temp: Features.TempSeries, t: int)
    requires Increasing(g1) && Increasing(g2) && trainStart <= testStart
    requires UpTo(g1, t) == UpTo(g2, t)
    ensures SamplesUpTo(Rows(HistTrain(g1, trainStart, testStart), |History(g1, trainStart)|, temp), t) ==
            SamplesUpTo(Rows(HistTrain(g2, trainStart, testStart), |History(g2, trainStart)|, temp), t)
  {
    if t < trainStart {
      TrainRows(g1, trainStart, testStart, temp);
      TrainRows(g2, trainStart, testStart, temp);
      SamplesAfter(Rows(HistTrain(g1, trainStart, testStart), |History(g1, trainStart)|, temp), trainStart, t);
      SamplesAfter(Rows(HistTrain(g2, trainStart, testStart), |History(g2, trainStart)|, temp), trainStart, t);
    } else {
      var h1, h2 := History(g1, trainStart), History(g2, trainStart);
      FilterMember(g1, RangeMask(trainStart - MaxWindow, trainStart));
      FilterMember(g2, RangeMask(trainStart - MaxWindow, trainStart));
      forall k | 0 <= k < |h1| ensures h1[k].time < trainStart { assert h1[k] in h1; }
      forall k | 0 <= k < |h2| ensures h2[k].time < trainStart { assert h2[k] in h2; }
      UpToKeepsEarlier(h1, trainStart, t);
      UpToKeepsEarlier(h2, trainStart, t);
      SpansUpTo(g1, g2, trainStart, testStart, t);
      HistTrainIncreasing(g1, trainStart, testStart);
      HistTrainIncreasing(g2, trainStart, testStart);
      var ht1 := HistTrain(g1, trainStart, testStart);
      forall k | 0 <= k < |h1| ensures ht1[k].time <= t {
        assert ht1[k].time == (h1 + TrainSpan(g1, trainStart, testStart))[k].time == h1[k].time;
      }
      RowsUpTo(ht1, HistTrain(g2, trainStart, testStart), |h1|, temp, t);
    }
  }

  lemma {:induction false} TestInputIncreasing(g: Series, trainStart: int, testStart: int, testEnd: int)
    requires Increasing(g) && trainStart <= testStart
    ensures Increasing(TestInput(g, trainStart, testStart, testEnd))
  {
    var ht := HistTrain(g, trainStart, testStart);
    var dn := DropNa(TestSpan(g, testStart, testEnd));
    HistTrainIncreasing(g, trainStart, testStart);
    FilterIncreasing(g, RangeMask(testStart, testEnd + 1));
    FilterIncreasing(TestSpan(g, testStart, testEnd), PresentMask());
    FilterMember(TestSpan(g, testStart, testEnd), PresentMask());
    FilterMember(g, RangeMask(testStart, testEnd + 1));
    forall j, k | 0 <= j < |ht| && 0 <= k < |dn| ensures ht[j].time < dn[k].time {
      assert dn[k] in dn;
    }
  }

  lemma {:induction false} TestNoLeakage(g1: Series, g2: Series, trainStart: int, testStart: int, testEnd: int,
                      temp: Features.TempSeries, t: int)
    requires Increasing(g1) && Increasing(g2) && trainStart <= testStart
    requires UpTo(g1, t) == UpTo(g2, t)
    ensures SamplesUpTo(Rows(TestInput(g1, trainStart, testStart, testEnd), |HistTrain(g1, trainStart, testStart)|, temp), t) ==
            SamplesUpTo(Rows(TestInput(g2, trainStart, testStart, testEnd), |HistTrain(g2, trainStart, testStart)|, temp), t)
  {
    var ht1, ht2 := HistTrain(g1, trainStart, testStart), HistTrain(g2, trainStart, testStart);
    var ti1, ti2 := TestInput(g1, trainStart, testStart, testEnd), TestInput(g2, trainStart, testStart, testEnd);
    if t < testStart {
      TestRows(g1, trainStart, testStart, testEnd, temp);
      TestRows(g2, trainStart, testStart, testEnd, temp);
      SamplesAfter(Rows(ti1, |ht1|, temp), testStart, t);
      SamplesAfter(Rows(ti2, |ht2|, temp), testStart, t);
    } else {
      HistTrainIncreasing(g1, trainStart, testStart);
      HistTrainIncreasing(g2, trainStart, testStart);
      UpToKeepsEarlier(ht1, testStart, t);
      UpToKeepsEarlier(ht2, testStart, t);
      SpansUpTo(g1, g2, trainStart, testStart, t);
      FilterUpTo(g1, g2, RangeMask(testStart, testEnd + 1), t);
      FilterUpTo(TestSpan(g1, testStart, testEnd), TestSpan(g2, testStart, testEnd), PresentMask(), t);
      FilterConcat(ht1, DropNa(TestSpan(g1, testStart, testEnd)), UpToMask(t));
      FilterConcat(ht2, DropNa(TestSpan(g2, testStart, testEnd)), UpToMask(t));
      TestInputIncreasing(g1, trainStart, testStart, testEnd);
      TestInputIncreasing(g2, trainStart, testStart, testEnd);
      forall k | 0 <= k < |ht1| ensures ti1[k].time <= t {
        assert ti1[k] == ht1[k];
      }
      RowsUpTo(ti1, ti2, |ht1|, temp, t);
    }
  }

  /** No leakage: two raw series that hold the same observations up to hour t
      (and both reach t) yield the same training rows and the same test rows
      at or before t, whatever they hold after t. No row sees the future. */
  lemma {:induction false} NoLeakage(s1: Series, s2: Series, trainStart: int, testStart: int, testEnd: int,
                                     temp: Features.TempSeries, t: int)
    requires Increasing(s1) && Increasing(s2) && trainStart <= testStart
    requires |s1| > 0 && |s2| > 0 && t <= s1[|s1| - 1].time && t <= s2[|s2| - 1].time
    requires UpTo(s1, t) == UpTo(s2, t)
    ensures SamplesUpTo(BuildDataset(s1, trainStart, testStart, testEnd, temp).train, t) ==
            SamplesUpTo(BuildDataset(s2, trainStart, testStart, testEnd, temp).train, t)
    ensures SamplesUpTo(BuildDataset(s1, trainStart, testStart, testEnd, temp).test, t) ==
            SamplesUpTo(BuildDataset(s2, trainStart, testStart, testEnd, temp).test, t)
  {
    GridUpTo(s1, s2, t);
    AsFreqGrid(s1);
    AsFreqGrid(s2);
    TrainNoLeakage(AsFreq(s1), AsFreq(s2), trainStart, testStart, temp, t);
    TestNoLeakage(AsFreq(s1), AsFreq(s2), trainStart, testStart, testEnd, temp, t);
  }
}
