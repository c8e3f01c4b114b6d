/** The feature matrix builder of src/features.py (make_features_no_leakage).
    Every column is aligned to the input index and is built from positions:
    a lag or a diff reads an earlier POSITION, which is an earlier hour only
    on a gap-free hourly index. Rolling statistics are relaxed (a window with
    one present value has a mean), the slope is strict (one NaN in the window
    makes it NaN). Columns are keyed by a tagged key instead of a string name. */
module Features {
  import opened Values
  import Slope
  import Calendar

  /** One column of the feature table; the source names it by kind and parameter
      (lag_24, roll_mean_6, roll_slope_6, diff_1, hour, temp_lag_24, ...). */
  datatype FeatureKey =
    | Lag(lag: nat)
    | RollMean(mean: nat)
    | RollStd(std: nat)
    | RollMin(min: nat)
    | RollMax(max: nat)
    | RollSlope(slope: nat)
    | Diff(diff: nat)
    | Hour
    | Weekday
    | Month
    | IsWeekend
    | Temp
    | TempLag24
    | TempLag168
    | TempDiff24

  /** The lag, rolling-window and diff lists, in hours. */
  datatype FeatureSpec = FeatureSpec(lags: seq<nat>, windows: seq<nat>, diffs: seq<nat>)

  const DefaultSpec: FeatureSpec :=
    FeatureSpec([24, 48, 72, 168, 336], [6, 12, 24, 72, 168, 336], [1, 24, 168])

  /** Every entry is at least one. A zero lag or diff of a non-empty series
      makes the builder raise (an empty slice assigned to a longer one), and
      so does a zero rolling window on any series (a window smaller than its
      minimum period of one). */
  predicate Positive(ps: seq<nat>)
  {
    forall k :: 0 <= k < |ps| ==> ps[k] >= 1
  }

  /** An optional exogenous series, keyed by hour count. */
  type TempSeries = Option<map<int, Option<real>>>

  type Table = map<FeatureKey, seq<Option<real>>>

  // ---------------- per-position definitions ----------------

  /** values shifted down by L positions. */
  function LagAt(v: seq<Option<real>>, L: nat, i: nat): Option<real>
    requires i < |v|
  {
    if L <= i then v[i - L] else None
  }

  function Difference(a: Option<real>, b: Option<real>): Option<real>
  {
    if a.Some? && b.Some? then Some(a.value - b.value) else None
  }

  /** values minus values shifted down by d positions. */
  function DiffAt(v: seq<Option<real>>, d: nat, i: nat): Option<real>
    requires i < |v|
  {
    if d <= i then Difference(v[i], v[i - d]) else None
  }

  /** The trailing window of a w-row rolling statistic at row i: the rows
      max(0, i-w+1) .. i. */
  function RollWindow(v: seq<Option<real>>, w: nat, i: nat): seq<Option<real>>
    requires i < |v|
  {
    v[if i + 1 >= w then i + 1 - w else 0 .. i + 1]
  }

  function RollMeanAt(v: seq<Option<real>>, w: nat, i: nat): Option<real>
    requires i < |v|
  {
    var p := Present(RollWindow(v, w, i));
    if |p| >= 1 then Some(Mean(p)) else None
  }

  function SquaredDeviations(p: seq<real>, m: real): real
  {
    if |p| == 0 then 0.0
    else SquaredDeviations(p[..|p| - 1], m) + (p[|p| - 1] - m) * (p[|p| - 1] - m)
  }

  /** The sample variance (one degree of freedom) of the present values; the
      source's rolling std is its square root. */
  function RollVarAt(v: seq<Option<real>>, w: nat, i: nat): Option<real>
    requires i < |v|
  {
    var p := Present(RollWindow(v, w, i));
    if |p| >= 2 then Some(SquaredDeviations(p, Mean(p)) / ((|p| - 1) as real)) else None
  }

  function RollMinAt(v: seq<Option<real>>, w: nat, i: nat): Option<real>
    requires i < |v|
  {
    var p := Present(RollWindow(v, w, i));
    if |p| >= 1 then Some(Min(p)) else None
  }

  function RollMaxAt(v: seq<Option<real>>, w: nat, i: nat): Option<real>
    requires i < |v|
  {
    var p := Present(RollWindow(v, w, i));
    if |p| >= 1 then Some(Max(p)) else None
  }

  /** The calendar date of an hour count (hour 0 is 1970-01-01 00:00 UTC). */
  function DateOfHour(t: int): (d: Calendar.Date)
    ensures Calendar.ValidDate(d)
    ensures Calendar.Ordinal(d) == t / 24 + Calendar.EpochOrdinal
  {
    Calendar.FromOrdinal(t / 24 + Calendar.EpochOrdinal)
  }

  function HourOf(t: int): int { t % 24 }

  function WeekdayOf(t: int): int { Calendar.Weekday(DateOfHour(t)) }

  function MonthOf(t: int): int { DateOfHour(t).month }

  function IsWeekendOf(t: int): int { if WeekdayOf(t) >= 5 then 1 else 0 }

  /** The exogenous series reindexed onto the base index: the value at the
      same timestamp, NaN where it has none (no interpolation). */
  function Aligned(idx: seq<int>, temp: map<int, Option<real>>): (a: seq<Option<real>>)
    ensures |a| == |idx|
  {
    seq(|idx|, i requires 0 <= i < |idx| => if idx[i] in temp then temp[idx[i]] else None)
  }

  /** Row i of the column `key`. */
  function ColumnAt(key: FeatureKey, idx: seq<int>, v: seq<Option<real>>, temp: TempSeries, i: nat): Option<real>
    requires |idx| == |v| && i < |v|
  {
    match key
    case Lag(L) => LagAt(v, L, i)
    case RollMean(w) => RollMeanAt(v, w, i)
    case RollStd(w) => RollVarAt(v, w, i)
    case RollMin(w) => RollMinAt(v, w, i)
    case RollMax(w) => RollMaxAt(v, w, i)
    case RollSlope(w) => Slope.SlopeAt(v, w, i)
    case Diff(d) => DiffAt(v, d, i)
    case Hour => Some(HourOf(idx[i]) as real)
    case Weekday => Some(WeekdayOf(idx[i]) as real)
    case Month => Some(MonthOf(idx[i]) as real)
    case IsWeekend => Some(IsWeekendOf(idx[i]) as real)
    case Temp => if temp.Some? then Aligned(idx, temp.value)[i] else None
    case TempLag24 => if temp.Some? then LagAt(Aligned(idx, temp.value), 24, i) else None
    case TempLag168 => if temp.Some? then LagAt(Aligned(idx, temp.value), 168, i) else None
    case TempDiff24 => if temp.Some? then DiffAt(Aligned(idx, temp.value), 24, i) else None
  }

  function Column(key: FeatureKey, idx: seq<int>, v: seq<Option<real>>, temp: TempSeries): (c: seq<Option<real>>)
    requires |idx| == |v|
    ensures |c| == |v|
  {
    seq(|v|, i requires 0 <= i < |v| => ColumnAt(key, idx, v, temp, i))
  }

  // ---------------- the columns the builder produces ----------------

  function LagKeys(lags: seq<nat>): set<FeatureKey>
  {
    set L | L in lags :: Lag(L)
  }

  function WindowKeys(w: nat): set<FeatureKey>
  {
    {RollMean(w), RollStd(w), RollMin(w), RollMax(w), RollSlope(w)}
  }

  function RollKeys(windows: seq<nat>): set<FeatureKey>
  {
    set w, key | w in windows && key in WindowKeys(w) :: key
  }

  function DiffKeys(diffs: seq<nat>): set<FeatureKey>
  {
    set d | d in diffs :: Diff(d)
  }

  const CalendarKeys: set<FeatureKey> := {Hour, Weekday, Month, IsWeekend}

  const TempKeys: set<FeatureKey> := {Temp, TempLag24, TempLag168, TempDiff24}

  function Keys(spec: FeatureSpec, withTemp: bool): set<FeatureKey>
  {
    LagKeys(spec.lags) + RollKeys(spec.windows) + DiffKeys(spec.diffs) + CalendarKeys
    + (if withTemp then TempKeys else {})
  }

  /** The table holding the columns `keys`. */
  function TableOf(keys: set<FeatureKey>, idx: seq<int>, v: seq<Option<real>>, temp: TempSeries): (t: Table)
    requires |idx| == |v|
    ensures t.Keys == keys
    ensures forall key :: key in t ==> |t[key]| == |v|
  {
    map key | key in keys :: Column(key, idx, v, temp)
  }

  /** The feature table of a series: one column per configured lag, window
      statistic and diff, the four calendar columns, and the four temperature
      columns when an exogenous series is given. */
  function Features(spec: FeatureSpec, idx: seq<int>, v: seq<Option<real>>, temp: TempSeries): (t: Table)
    requires |idx| == |v|
    ensures t.Keys == Keys(spec, temp.Some?)
    ensures forall key :: key in t ==> |t[key]| == |v|
    ensures forall key :: key in t ==> t[key] == Column(key, idx, v, temp)
  {
    TableOf(Keys(spec, temp.Some?), idx, v, temp)
  }

  /** t holds exactly the columns `keys`, each as specified. */
  predicate Tabulates(t: Table, keys: set<FeatureKey>, idx: seq<int>, v: seq<Option<real>>, temp: TempSeries)
    requires |idx| == |v|
  {
    t.Keys == keys && forall key :: key in t ==> t[key] == Column(key, idx, v, temp)
  }

  /** Storing a key's column extends a table of the columns of some keys by that key. */
  lemma {:induction false} AddColumn(t: Table, keys: set<FeatureKey>, key: FeatureKey, idx: seq<int>, v: seq<Option<real>>, temp: TempSeries)
    requires |idx| == |v| && Tabulates(t, keys, idx, v, temp)
    ensures Tabulates(t[key := Column(key, idx, v, temp)], keys + {key}, idx, v, temp)
  {
  }

  lemma {:induction false} TabulatesTableOf(t: Table, keys: set<FeatureKey>, idx: seq<int>, v: seq<Option<real>>, temp: TempSeries)
    requires |idx| == |v| && Tabulates(t, keys, idx, v, temp)
    ensures t == TableOf(keys, idx, v, temp)
  {
  }

  // ---------------- the builder ----------------

  /** One lag column: a NaN-filled buffer whose tail receives the values
      shifted down by L positions. */
  method LagColumn(values: seq<Option<real>>, L: nat) returns (c: seq<Option<real>>)
    requires |values| > 0 ==> L >= 1
    ensures |c| == |values|
    ensures forall i :: 0 <= i < |values| ==> c[i] == LagAt(values, L, i)
  {
    var n := |values|;
    var arr := new Option<real>[n](_ => None);
    if L < n {
      forall j | L <= j < n {
        arr[j] := values[j - L];
      }
    }
    c := arr[..];
  }

  /** One diff column: values minus values shifted down by d positions. */
  method DiffColumn(values: seq<Option<real>>, d: nat) returns (c: seq<Option<real>>)
    requires |values| > 0 ==> d >= 1
    ensures |c| == |values|
    ensures forall i :: 0 <= i < |values| ==> c[i] == DiffAt(values, d, i)
  {
    var n := |values|;
    var arr := new Option<real>[n](_ => None);
    if d < n {
      forall j | d <= j < n {
        arr[j] := Difference(values[j], values[j - d]);
      }
    }
    c := arr[..];
  }

  method AddLags(feats: Table, ghost done: set<FeatureKey>, lags: seq<nat>, idx: seq<int>, values: seq<Option<real>>, temp: TempSeries)
    returns (out: Table)
    requires |idx| == |values|
    requires |values| > 0 ==> Positive(lags)
    requires Tabulates(feats, done, idx, values, temp)
    ensures Tabulates(out, done + LagKeys(lags), idx, values, temp)
  {
    out := feats;
    var k := 0;
    while k < |lags|
      invariant 0 <= k <= |lags|
      invariant Tabulates(out, done + LagKeys(lags[..k]), idx, values, temp)
    {
      var L := lags[k];
      var c := LagColumn(values, L);
      assert c == Column(Lag(L), idx, values, temp);
      assert lags[..k + 1] == lags[..k] + [L];
      assert done + LagKeys(lags[..k + 1]) == done + LagKeys(lags[..k]) + {Lag(L)};
      out := out[Lag(L) := c];
      k := k + 1;
    }
    assert lags[..k] == lags;
  }

  /** The five rolling columns of one window: relaxed mean, std, min and max,
      and the strict least-squares slope. */
  method AddWindow(feats: Table, ghost done: set<FeatureKey>, w: nat, idx: seq<int>, values: seq<Option<real>>, temp: TempSeries)
    returns (out: Table)
    requires |idx| == |values|
    requires w >= 1
    requires Tabulates(feats, done, idx, values, temp)
    ensures Tabulates(out, done + WindowKeys(w), idx, values, temp)
  {
    var n := |values|;
    var mean := seq(n, i requires 0 <= i < n => RollMeanAt(values, w, i));
    var std := seq(n, i requires 0 <= i < n => RollVarAt(values, w, i));
    var lo := seq(n, i requires 0 <= i < n => RollMinAt(values, w, i));
    var hi := seq(n, i requires 0 <= i < n => RollMaxAt(values, w, i));
    assert mean == Column(RollMean(w), idx, values, temp);
    assert std == Column(RollStd(w), idx, values, temp);
    assert lo == Column(RollMin(w), idx, values, temp);
    assert hi == Column(RollMax(w), idx, values, temp);
    ghost var keys := done;
    AddColumn(feats, keys, RollMean(w), idx, values, temp);
    out := feats[RollMean(w) := mean];
    AddColumn(out, keys + {RollMean(w)}, RollStd(w), idx, values, temp);
    out := out[RollStd(w) := std];
    keys := keys + {RollMean(w)} + {RollStd(w)};
    AddColumn(out, keys, RollMin(w), idx, values, temp);
    out := out[RollMin(w) := lo];
    AddColumn(out, keys + {RollMin(w)}, RollMax(w), idx, values, temp);
    out := out[RollMax(w) := hi];
    keys := keys + {RollMin(w)} + {RollMax(w)};
    var slopes := Slope.RollingSlope(values, w);
    assert slopes == Column(RollSlope(w), idx, values, temp);
    AddColumn(out, keys, RollSlope(w), idx, values, temp);
    out := out[RollSlope(w) := slopes];
    assert keys + {RollSlope(w)} == done + WindowKeys(w);
  }

  lemma {:induction false} RollKeysStep(windows: seq<nat>, k: nat)
    requires k < |windows|
    ensures RollKeys(windows[..k + 1]) == RollKeys(windows[..k]) + WindowKeys(windows[k])
  {
    assert windows[..k + 1] == windows[..k] + [windows[k]];
  }

  method AddWindows(feats: Table, ghost done: set<FeatureKey>, windows: seq<nat>, idx: seq<int>, values: seq<Option<real>>, temp: TempSeries)
    returns (out: Table)
    requires |idx| == |values|
    requires Positive(windows)
    requires Tabulates(feats, done, idx, values, temp)
    ensures Tabulates(out, done + RollKeys(windows), idx, values, temp)
  {
    out := feats;
    var k := 0;
    while k < |windows|
      invariant 0 <= k <= |windows|
      invariant Tabulates(out, done + RollKeys(windows[..k]), idx, values, temp)
    {
      RollKeysStep(windows, k);
      assert done + RollKeys(windows[..k + 1]) == done + RollKeys(windows[..k]) + WindowKeys(windows[k]);
      out := AddWindow(out, done + RollKeys(windows[..k]), windows[k], idx, values, temp);
      k := k + 1;
    }
    assert windows[..k] == windows;
  }

  method AddDiffs(feats: Table, ghost done: set<FeatureKey>, diffs: seq<nat>, idx: seq<int>, values: seq<Option<real>>, temp: TempSeries)
    returns (out: Table)
    requires |idx| == |values|
    requires |values| > 0 ==> Positive(diffs)
    requires Tabulates(feats, done, idx, values, temp)
    ensures Tabulates(out, done + DiffKeys(diffs), idx, values, temp)
  {
    out := feats;
    var k := 0;
    while k < |diffs|
      invariant 0 <= k <= |diffs|
      invariant Tabulates(out, done + DiffKeys(diffs[..k]), idx, values, temp)
    {
      var d := diffs[k];
      var c := DiffColumn(values, d);
      assert c == Column(Diff(d), idx, values, temp);
      assert diffs[..k + 1] == diffs[..k] + [d];
      assert done + DiffKeys(diffs[..k + 1]) == done + DiffKeys(diffs[..k]) + {Diff(d)};
      out := out[Diff(d) := c];
      k := k + 1;
    }
    assert diffs[..k] == diffs;
  }

  method AddCalendar(feats: Table, ghost done: set<FeatureKey>, idx: seq<int>, values: seq<Option<real>>, temp: TempSeries)
    returns (out: Table)
    requires |idx| == |values|
    requires Tabulates(feats, done, idx, values, temp)
    ensures Tabulates(out, done + CalendarKeys, idx, values, temp)
  {
    out := feats[Hour := Column(Hour, idx, values, temp)];
    out := out[Weekday := Column(Weekday, idx, values, temp)];
    out := out[Month := Column(Month, idx, values, temp)];
    out := out[IsWeekend := Column(IsWeekend, idx, values, temp)];
    assert done + {Hour, Weekday, Month} + {IsWeekend} == done + CalendarKeys;
  }

  method AddTemperature(feats: Table, ghost done: set<FeatureKey>, idx: seq<int>, values: seq<Option<real>>, temp: map<int, Option<real>>)
    returns (out: Table)
    requires |idx| == |values|
    requires Tabulates(feats, done, idx, values, Some(temp))
    ensures Tabulates(out, done + TempKeys, idx, values, Some(temp))
  {
    var aligned := Aligned(idx, temp);
    var lag24 := LagColumn(aligned, 24);
    var lag168 := LagColumn(aligned, 168);
    var diff24 := DiffColumn(aligned, 24);
    assert aligned == Column(Temp, idx, values, Some(temp));
    assert lag24 == Column(TempLag24, idx, values, Some(temp));
    assert lag168 == Column(TempLag168, idx, values, Some(temp));
    assert diff24 == Column(TempDiff24, idx, values, Some(temp));
    AddColumn(feats, done, Temp, idx, values, Some(temp));
    out := feats[Temp := aligned];
    AddColumn(out, done + {Temp}, TempLag24, idx, values, Some(temp));
    out := out[TempLag24 := lag24];
    ghost var keys := done + {Temp} + {TempLag24};
    AddColumn(out, keys, TempLag168, idx, values, Some(temp));
    out := out[TempLag168 := lag168];
    AddColumn(out, keys + {TempLag168}, TempDiff24, idx, values, Some(temp));
    out := out[TempDiff24 := diff24];
    assert keys + {TempLag168} + {TempDiff24} == done + TempKeys;
  }

  /** make_features_no_leakage: lags, rolling windows, diffs, calendar
      columns and, when given, the temperature columns, in that order. */
  method MakeFeatures(spec: FeatureSpec, idx: seq<int>, values: seq<Option<real>>, temp: TempSeries)
    returns (feats: Table)
    requires |idx| == |values|
    requires Positive(spec.windows)
    requires |values| > 0 ==> Positive(spec.lags) && Positive(spec.diffs)
    ensures feats == Features(spec, idx, values, temp)
  {
    feats := AddLags(map[], {}, spec.lags, idx, values, temp);
    feats := AddWindows(feats, LagKeys(spec.lags), spec.windows, idx, values, temp);
    ghost var done := LagKeys(spec.lags) + RollKeys(spec.windows);
    feats := AddDiffs(feats, done, spec.diffs, idx, values, temp);
    done := done + DiffKeys(spec.diffs);
    feats := AddCalendar(feats, done, idx, values, temp);
    done := done + CalendarKeys;
    if temp.Some? {
      feats := AddTemperature(feats, done, idx, values, temp.value);
      done := done + TempKeys;
    }
    assert done == Keys(spec, temp.Some?);
    TabulatesTableOf(feats, done, idx, values, temp);
  }

  // ---------------- properties ----------------

  /** No look-ahead: row i of every column depends only on rows 0..i of the
      index and of the values, so changing or dropping anything after row i
      leaves row i unchanged. */
  lemma {:induction false} NoLookAhead(key: FeatureKey, idx1: seq<int>, v1: seq<Option<real>>, idx2: seq<int>, v2: seq<Option<real>>,
                    temp: TempSeries, i: nat)
    requires |idx1| == |v1| && |idx2| == |v2| && i < |v1| && i < |v2|
    requires idx1[..i + 1] == idx2[..i + 1] && v1[..i + 1] == v2[..i + 1]
    ensures ColumnAt(key, idx1, v1, temp, i) == ColumnAt(key, idx2, v2, temp, i)
  {
    if key.Lag? || key.Diff? {
      ShiftNoLookAhead(key, idx1, v1, idx2, v2, temp, i);
    } else if key.RollMean? || key.RollStd? || key.RollMin? || key.RollMax? || key.RollSlope? {
      RollingNoLookAhead(key, idx1, v1, idx2, v2, temp, i);
    } else if key.Hour? || key.Weekday? || key.Month? || key.IsWeekend? {
      CalendarNoLookAhead(key, idx1, v1, idx2, v2, temp, i);
    } else {
      TemperatureNoLookAhead(key, idx1, v1, idx2, v2, temp, i);
    }
  }

  lemma {:induction false} ShiftNoLookAhead(key: FeatureKey, idx1: seq<int>, v1: seq<Option<real>>, idx2: seq<int>, v2: seq<Option<real>>,
                                   temp: TempSeries, i: nat)
    requires |idx1| == |v1| && |idx2| == |v2| && i < |v1| && i < |v2|
    requires idx1[..i + 1] == idx2[..i + 1] && v1[..i + 1] == v2[..i + 1]
    requires key.Lag? || key.Diff?
    ensures ColumnAt(key, idx1, v1, temp, i) == ColumnAt(key, idx2, v2, temp, i)
  {
    PrefixAgrees(v1, v2, i);
  }

  lemma {:induction false} RollingNoLookAhead(key: FeatureKey, idx1: seq<int>, v1: seq<Option<real>>, idx2: seq<int>, v2: seq<Option<real>>,
                                   temp: TempSeries, i: nat)
    requires |idx1| == |v1| && |idx2| == |v2| && i < |v1| && i < |v2|
    requires idx1[..i + 1] == idx2[..i + 1] && v1[..i + 1] == v2[..i + 1]
    requires key.RollMean? || key.RollStd? || key.RollMin? || key.RollMax? || key.RollSlope?
    ensures ColumnAt(key, idx1, v1, temp, i) == ColumnAt(key, idx2, v2, temp, i)
  {
    if key.RollSlope? {
      Slope.SlopePrefix(v1, v2, key.slope, i);
    } else {
      var w := match key
        case RollMean(w) => w
        case RollStd(w) => w
        case RollMin(w) => w
        case RollMax(w) => w;
      WindowPrefix(v1, v2, w, i);
    }
  }

  lemma {:induction false} CalendarNoLookAhead(key: FeatureKey, idx1: seq<int>, v1: seq<Option<real>>, idx2: seq<int>, v2: seq<Option<real>>,
                                   temp: TempSeries, i: nat)
    requires |idx1| == |v1| && |idx2| == |v2| && i < |v1| && i < |v2|
    requires idx1[..i + 1] == idx2[..i + 1] && v1[..i + 1] == v2[..i + 1]
    requires key.Hour? || key.Weekday? || key.Month? || key.IsWeekend?
    ensures ColumnAt(key, idx1, v1, temp, i) == ColumnAt(key, idx2, v2, temp, i)
  {
    PrefixAgrees(idx1, idx2, i);
  }

  lemma {:induction false} TemperatureNoLookAhead(key: FeatureKey, idx1: seq<int>, v1: seq<Option<real>>, idx2: seq<int>, v2: seq<Option<real>>,
                                   temp: TempSeries, i: nat)
    requires |idx1| == |v1| && |idx2| == |v2| && i < |v1| && i < |v2|
    requires idx1[..i + 1] == idx2[..i + 1] && v1[..i + 1] == v2[..i + 1]
    requires key.Temp? || key.TempLag24? || key.TempLag168? || key.TempDiff24?
    ensures ColumnAt(key, idx1, v1, temp, i) == ColumnAt(key, idx2, v2, temp, i)
  {
    AlignedPrefix(idx1, idx2, temp, i);
  }

  lemma {:induction false} PrefixAgrees<T>(a: seq<T>, b: seq<T>, i: nat)
    requires i < |a| && i < |b| && a[..i + 1] == b[..i + 1]
    ensures forall j :: 0 <= j <= i ==> a[j] == b[j]
  {
    assert forall j :: 0 <= j <= i ==> a[j] == a[..i + 1][j] && b[j] == b[..i + 1][j];
  }

  lemma {:induction false} WindowPrefix(v1: seq<Option<real>>, v2: seq<Option<real>>, w: nat, i: nat)
    requires i < |v1| && i < |v2| && v1[..i + 1] == v2[..i + 1]
    ensures RollWindow(v1, w, i) == RollWindow(v2, w, i)
  {
    PrefixAgrees(v1, v2, i);
  }

  lemma {:induction false} AlignedPrefix(idx1: seq<int>, idx2: seq<int>, temp: TempSeries, i: nat)
    requires i < |idx1| && i < |idx2| && idx1[..i + 1] == idx2[..i + 1]
    ensures temp.Some? ==> forall j :: 0 <= j <= i ==> Aligned(idx1, temp.value)[j] == Aligned(idx2, temp.value)[j]
  {
    PrefixAgrees(idx1, idx2, i);
  }

  /** The table-level statement: two series that agree up to row i yield
      feature tables with the same columns that agree at row i. */
  lemma {:induction false} FeaturesNoLookAhead(spec: FeatureSpec, idx1: seq<int>, v1: seq<Option<real>>, idx2: seq<int>, v2: seq<Option<real>>,
                            temp: TempSeries, i: nat)
    requires |idx1| == |v1| && |idx2| == |v2| && i < |v1| && i < |v2|
    requires idx1[..i + 1] == idx2[..i + 1] && v1[..i + 1] == v2[..i + 1]
    ensures Features(spec, idx1, v1, temp).Keys == Features(spec, idx2, v2, temp).Keys
    ensures forall key :: key in Features(spec, idx1, v1, temp) ==>
              Features(spec, idx1, v1, temp)[key][i] == Features(spec, idx2, v2, temp)[key][i]
  {
    forall key | key in Features(spec, idx1, v1, temp)
      ensures Features(spec, idx1, v1, temp)[key][i] == Features(spec, idx2, v2, temp)[key][i]
    {
      NoLookAhead(key, idx1, v1, idx2, v2, temp, i);
    }
  }

  /** On a gap-free hourly index the lag-L column holds the value observed
      exactly L hours earlier. */
  lemma {:induction false} LagIsHoursEarlier(idx: seq<int>, v: seq<Option<real>>, L: nat, i: nat)
    requires |idx| == |v| && L <= i < |v|
    requires forall k :: 0 < k < |idx| ==> idx[k] == idx[k - 1] + 1
    ensures idx[i - L] == idx[i] - L
    ensures ColumnAt(Lag(L), idx, v, None, i) == v[i - L]
  {
    HourlyIndex(idx, i - L, i);
  }

  lemma {:induction false} HourlyIndex(idx: seq<int>, j: nat, i: nat)
    requires j <= i < |idx|
    requires forall k :: 0 < k < |idx| ==> idx[k] == idx[k - 1] + 1
    ensures idx[i] == idx[j] + (i - j)
    decreases i - j
  {
    if j < i {
      HourlyIndex(idx, j, i - 1);
    }
  }

  /** Lags are positional: across a gap in the index the lag-1 column holds
      a value from more than one hour earlier. */
  lemma {:induction false} LagAcrossGap()
    ensures ColumnAt(Lag(1), [0, 5], [Some(1.0), Some(2.0)], None, 1) == Some(1.0)
  {
  }

  /** A diff is the value minus its lag, NaN when either is NaN. */
  lemma {:induction false} DiffIsValueMinusLag(idx: seq<int>, v: seq<Option<real>>, d: nat, i: nat)
    requires |idx| == |v| && i < |v|
    ensures ColumnAt(Diff(d), idx, v, None, i).Some? <==>
              v[i].Some? && ColumnAt(Lag(d), idx, v, None, i).Some?
    ensures ColumnAt(Diff(d), idx, v, None, i).Some? ==>
              ColumnAt(Diff(d), idx, v, None, i).value == v[i].value - ColumnAt(Lag(d), idx, v, None, i).value
  {
  }

  /** The relaxed rolling statistics are defined as soon as one value of the
      window is present (two for the standard deviation), and then the mean
      lies between the minimum and the maximum, which are values of the window. */
  lemma {:induction false} RollingStatistics(v: seq<Option<real>>, w: nat, i: nat)
    requires i < |v|
    ensures RollMeanAt(v, w, i).Some? <==> exists j :: 0 <= j < |RollWindow(v, w, i)| && RollWindow(v, w, i)[j].Some?
    ensures RollMinAt(v, w, i).Some? == RollMeanAt(v, w, i).Some? == RollMaxAt(v, w, i).Some?
    ensures RollVarAt(v, w, i).Some? <==> |Present(RollWindow(v, w, i))| >= 2
    ensures RollVarAt(v, w, i).Some? ==> RollMeanAt(v, w, i).Some?
    ensures RollMeanAt(v, w, i).Some? ==>
              RollMinAt(v, w, i).value <= RollMeanAt(v, w, i).value <= RollMaxAt(v, w, i).value &&
              RollMinAt(v, w, i) in RollWindow(v, w, i) && RollMaxAt(v, w, i) in RollWindow(v, w, i)
    ensures RollVarAt(v, w, i).Some? ==> RollVarAt(v, w, i).value >= 0.0
  {
    var win := RollWindow(v, w, i);
    var p := Present(win);
    PresentEmptyIff(win);
    if |p| >= 1 {
      MeanBetweenMinMax(p);
      MinMaxBound(p);
      PresentElements(win);
    }
    if |p| >= 2 {
      SquaredDeviationsNonNegative(p, Mean(p));
    }
  }

  lemma {:induction false} SquaredDeviationsNonNegative(p: seq<real>, m: real)
    ensures SquaredDeviations(p, m) >= 0.0
  {
    if |p| > 0 {
      SquaredDeviationsNonNegative(p[..|p| - 1], m);
      SquareNonNegative(p[|p| - 1] - m);
    }
  }

  lemma {:induction false} SquareNonNegative(a: real)
    ensures a * a >= 0.0
  {
    if a < 0.0 {
      assert a * a == (-a) * (-a);
    }
  }

  lemma {:induction false} SquaredDeviationsOfConstant(p: seq<real>, c: real)
    requires forall k :: 0 <= k < |p| ==> p[k] == c
    ensures SquaredDeviations(p, c) == 0.0
  {
    if |p| > 0 {
      SquaredDeviationsOfConstant(p[..|p| - 1], c);
    }
  }

  /** Over a window whose present values all equal c, the mean, minimum and
      maximum are c and the variance is zero. */
  lemma {:induction false} ConstantWindow(v: seq<Option<real>>, w: nat, i: nat, c: real)
    requires i < |v|
    requires forall j :: 0 <= j < |RollWindow(v, w, i)| ==> RollWindow(v, w, i)[j] in {None, Some(c)}
    requires Some(c) in RollWindow(v, w, i)
    ensures RollMeanAt(v, w, i) == RollMinAt(v, w, i) == RollMaxAt(v, w, i) == Some(c)
    ensures RollVarAt(v, w, i).Some? ==> RollVarAt(v, w, i) == Some(0.0)
  {
    var win := RollWindow(v, w, i);
    var p := Present(win);
    PresentEmptyIff(win);
    PresentOfConstant(win, c);
    ConstantStatistics(p, c);
  }

  lemma {:induction false} PresentOfConstant(s: seq<Option<real>>, c: real)
    requires forall j :: 0 <= j < |s| ==> s[j] in {None, Some(c)}
    ensures forall k :: 0 <= k < |Present(s)| ==> Present(s)[k] == c
  {
    PresentElements(s);
    forall k | 0 <= k < |Present(s)| ensures Present(s)[k] == c {
      assert Present(s)[k] in Present(s);
    }
  }

  lemma {:induction false} ConstantStatistics(p: seq<real>, c: real)
    requires |p| > 0
    requires forall k :: 0 <= k < |p| ==> p[k] == c
    ensures Mean(p) == Min(p) == Max(p) == c
    ensures SquaredDeviations(p, Mean(p)) == 0.0
  {
    SumOfConstant(p, c);
    MinMaxBound(p);
    var n := |p| as real;
    assert Sum(p) == n * c;
    assert Mean(p) == n * c / n;
    SquaredDeviationsOfConstant(p, c);
  }

  /** The relaxed statistics and the strict slope disagree on a window that
      holds a NaN next to a present value: the mean exists, the slope is NaN. */
  lemma {:induction false} RelaxedMeanStrictSlope(v: seq<Option<real>>, w: nat, i: nat, j: nat, k: nat)
    requires 2 <= w <= i + 1 && i < |v|
    requires i + 1 - w <= j <= i && i + 1 - w <= k <= i
    requires v[j].None? && v[k].Some?
    ensures RollMeanAt(v, w, i).Some?
    ensures Slope.SlopeAt(v, w, i).None?
  {
    var win := RollWindow(v, w, i);
    assert win[k - (i + 1 - w)] == v[k];
    assert win[j - (i + 1 - w)] == v[j];
    PresentEmptyIff(win);
    Slope.SlopeDefinedIff(v, w, i);
  }

  /** The calendar columns: hour of day, weekday (Monday = 0), month and
      weekend flag, all taken from the row's timestamp, never NaN. */
  lemma {:induction false} CalendarColumns(t: int)
    ensures 0 <= HourOf(t) < 24 && t == 24 * (t / 24) + HourOf(t)
    ensures 0 <= WeekdayOf(t) < 7 && 1 <= MonthOf(t) <= 12
    ensures IsWeekendOf(t) == 1 <==> WeekdayOf(t) >= 5
  {
  }

  /** Twenty-four hours later is the next calendar day ... */
  lemma {:induction false} NextDayDate(t: int)
    ensures DateOfHour(t + 24) == Calendar.NextDay(DateOfHour(t))
  {
    var d := DateOfHour(t);
    var e := DateOfHour(t + 24);
    Calendar.NextDayOrdinal(d);
    assert (t + 24) / 24 == t / 24 + 1;
    Calendar.OrdinalInjective(e, Calendar.NextDay(d));
  }

  /** ... and one weekday on. */
  lemma {:induction false} NextDayWeekday(t: int)
    ensures WeekdayOf(t + 24) == (WeekdayOf(t) + 1) % 7
  {
    var o := Calendar.Ordinal(DateOfHour(t));
    assert (t + 24) / 24 == t / 24 + 1;
    assert Calendar.Ordinal(DateOfHour(t + 24)) == o + 1;
    assert WeekdayOf(t) == (o + 6) % 7;
    assert WeekdayOf(t + 24) == (o + 7) % 7;
    WeekdayStep(o);
  }

  lemma {:induction false} WeekdayStep(o: int)
    ensures (o + 7) % 7 == ((o + 6) % 7 + 1) % 7
  {
    var q, r := (o + 6) / 7, (o + 6) % 7;
    assert o + 7 == 7 * q + (r + 1);
    if r + 1 == 7 {
      assert o + 7 == 7 * (q + 1);
    }
  }

  /** The temperature column is the exogenous series read at the row's own
      timestamp, NaN where the series has no entry. */
  lemma {:induction false} TemperatureAligned(idx: seq<int>, v: seq<Option<real>>, temp: map<int, Option<real>>, i: nat)
    requires |idx| == |v| && i < |v|
    ensures idx[i] in temp ==> ColumnAt(Temp, idx, v, Some(temp), i) == temp[idx[i]]
    ensures idx[i] !in temp ==> ColumnAt(Temp, idx, v, Some(temp), i).None?
    ensures 24 <= i ==> ColumnAt(TempLag24, idx, v, Some(temp), i) == ColumnAt(Temp, idx, v, Some(temp), i - 24)
  {
  }
}
