/** Data preparation of src/prep.py: the federal state a metering-point
    number belongs to (through its grid-operator code), the state column added
    to the raw frames, the hourly aggregation of consumption and generation
    readings (`resample("1h").sum(min_count=1)`), the per-source hourly
    generation and the three results of the full preparation.

    Timestamps of raw readings are whole seconds since 1970-01-01 UTC; an hour
    bucket is identified by its hour count (seconds / 3600, floored). */
module Prep {
  import opened Values

  // ---------------- metering-point numbers ----------------

  /** A cell of a raw frame: a string, a number, or missing (NaN/None). */
  datatype Cell = Text(text: string) | Number(number: real) | Missing

  /** Grid-operator code (characters 2..8 of a metering-point number) to the
      operator's name and its federal state. */
  const Operators: map<string, (string, string)> := map[
    "001000" := ("Wiener Netze GmbH", "Wien"),
    "002000" := ("EVN Netz GmbH", "Niederösterreich"),
    "003000" := ("Netz Oberösterreich GmbH", "Oberösterreich"),
    "004000" := ("Energie AG Oberösterreich Netz GmbH", "Oberösterreich"),
    "005000" := ("Linz Strom Netz GmbH", "Oberösterreich"),
    "006000" := ("Salzburg Netz GmbH", "Salzburg"),
    "007000" := ("Kärnten Netz GmbH", "Kärnten"),
    "008000" := ("Vorarlberger Energienetze GmbH", "Vorarlberg"),
    "009000" := ("TIWAG Netz AG", "Tirol"),
    "010000" := ("Netz Burgenland Strom GmbH", "Burgenland"),
    "011000" := ("Energie Steiermark Netz GmbH", "Steiermark")
  ]

  /** The federal states the operator table names. */
  const States: set<string> := {
    "Wien", "Niederösterreich", "Oberösterreich", "Salzburg", "Kärnten",
    "Vorarlberg", "Tirol", "Burgenland", "Steiermark"
  }

  /** The operator code of a number long enough to carry one. */
  function OperatorCode(number: string): (code: string)
    requires |number| >= 8
    ensures |code| == 6
  {
    number[2..8]
  }

  /** The federal state of a metering point, or None for a non-string, a
      string shorter than 8 characters or an unknown operator code. */
  function FederalState(n: Cell): (r: Option<string>)
    ensures !n.Text? || |n.text| < 8 ==> r == None
    ensures n.Text? && |n.text| >= 8 ==> (r.Some? <==> OperatorCode(n.text) in Operators)
    ensures r.Some? ==> r.value in States
  {
    if !n.Text? || |n.text| < 8 then None
    else
      var code := OperatorCode(n.text);
      if code in Operators then Some(Operators[code].1) else None
  }

  /** Only characters 2..8 of a number decide its state. */
  lemma {:induction false} StateDependsOnlyOnCode(a: string, b: string)
    requires |a| >= 8 && |b| >= 8 && a[2..8] == b[2..8]
    ensures FederalState(Text(a)) == FederalState(Text(b))
  {
  }

  /** Three operators serve Upper Austria, so the state does not identify
      the operator; a code outside the table gives no state. */
  lemma {:induction false} SeveralOperatorsPerState(a: string)
    requires |a| >= 8
    ensures a[2..8] in {"003000", "004000", "005000"} ==> FederalState(Text(a)) == Some("Oberösterreich")
    ensures a[2..8] == "012000" ==> FederalState(Text(a)) == None
  {
  }

  // ---------------- the state column ----------------

  /** A raw frame: its number of rows and its columns by name. */
  datatype Frame = Frame(height: nat, columns: map<string, seq<Cell>>)

  predicate WellFormed(f: Frame)
  {
    forall name :: name in f.columns ==> |f.columns[name]| == f.height
  }

  const NumberColumn: string := "Number"
  const StateColumn: string := "FederalStateFromMeteringPoint"

  function StateCell(n: Cell): (c: Cell)
    ensures c != Missing <==> FederalState(n).Some?
    ensures c != Missing ==> c == Text(FederalState(n).value)
  {
    match FederalState(n)
    case Some(s) => Text(s)
    case None => Missing
  }

  /** A copy of the frame with the state of each row's metering point in the
      state column (replacing any earlier one); None when the frame has no
      Number column (the lookup of that column fails). */
  function WithStateColumn(f: Frame): (r: Option<Frame>)
    requires WellFormed(f)
    ensures r.Some? <==> NumberColumn in f.columns
    ensures r.Some? ==> WellFormed(r.value) && r.value.height == f.height
    ensures r.Some? ==> r.value.columns.Keys == f.columns.Keys + {StateColumn}
    ensures r.Some? ==> forall name :: name in f.columns && name != StateColumn ==>
              r.value.columns[name] == f.columns[name]
    ensures r.Some? ==> forall i :: 0 <= i < f.height ==>
              r.value.columns[StateColumn][i] == StateCell(f.columns[NumberColumn][i])
  {
    if NumberColumn !in f.columns then None
    else
      var numbers := f.columns[NumberColumn];
      Some(Frame(f.height, f.columns[StateColumn := seq(f.height, i requires 0 <= i < f.height => StateCell(numbers[i]))]))
  }

  /** Adding the state column twice gives the same frame as adding it once. */
  lemma {:induction false} WithStateColumnIdempotent(f: Frame)
    requires WellFormed(f) && NumberColumn in f.columns
    ensures WithStateColumn(WithStateColumn(f).value) == WithStateColumn(f)
  {
    var g := WithStateColumn(f).value;
    var h := WithStateColumn(g).value;
    assert h.columns[StateColumn] == g.columns[StateColumn];
    assert h.columns == g.columns;
  }

  /** Both frames with their state columns; None when either lacks a Number
      column. */
  function AddStateColumns(gen: Frame, con: Frame): (r: Option<(Frame, Frame)>)
    requires WellFormed(gen) && WellFormed(con)
    ensures r.Some? <==> NumberColumn in gen.columns && NumberColumn in con.columns
    ensures r.Some? ==> r.value.0 == WithStateColumn(gen).value && r.value.1 == WithStateColumn(con).value
  {
    var g := WithStateColumn(gen);
    var c := WithStateColumn(con);
    if g.Some? && c.Some? then Some((g.value, c.value)) else None
  }

  // ---------------- hourly aggregation ----------------

  /** The two summed columns of a raw row: Consumption and
      ConsumptionCommunity, or Generation and GenerationCommunity. */
  datatype Quantity = Total | Community

  datatype Reading = Reading(time: int, total: Option<real>, community: Option<real>)

  datatype HourRow = HourRow(hour: int, total: Option<real>, community: Option<real>)

  function Amount(r: Reading, q: Quantity): Option<real>
  {
    match q
    case Total => r.total
    case Community => r.community
  }

  function BucketAmount(b: HourRow, q: Quantity): Option<real>
  {
    match q
    case Total => b.total
    case Community => b.community
  }

  /** The hour bucket of a timestamp (bins are left-closed, so it floors). */
  function HourOf(t: int): int
  {
    t / 3600
  }

  function FirstHour(rows: seq<Reading>): (h: int)
    requires |rows| > 0
    ensures forall i :: 0 <= i < |rows| ==> h <= HourOf(rows[i].time)
    ensures exists i :: 0 <= i < |rows| && h == HourOf(rows[i].time)
  {
    if |rows| == 1 then HourOf(rows[0].time)
    else
      var h := FirstHour(rows[..|rows| - 1]);
      assert forall i :: 0 <= i < |rows| - 1 ==> rows[i] == rows[..|rows| - 1][i];
      if HourOf(rows[|rows| - 1].time) < h then HourOf(rows[|rows| - 1].time) else h
  }

  function LastHour(rows: seq<Reading>): (h: int)
    requires |rows| > 0
    ensures forall i :: 0 <= i < |rows| ==> HourOf(rows[i].time) <= h
    ensures exists i :: 0 <= i < |rows| && h == HourOf(rows[i].time)
  {
    if |rows| == 1 then HourOf(rows[0].time)
    else
      var h := LastHour(rows[..|rows| - 1]);
      assert forall i :: 0 <= i < |rows| - 1 ==> rows[i] == rows[..|rows| - 1][i];
      if HourOf(rows[|rows| - 1].time) > h then HourOf(rows[|rows| - 1].time) else h
  }

  /** The readings stamped within hour h, in order. */
  function InHour(rows: seq<Reading>, h: int): (r: seq<Reading>)
    ensures |r| <= |rows|
  {
    if |rows| == 0 then []
    else InHour(rows[..|rows| - 1], h) + (if HourOf(rows[|rows| - 1].time) == h then [rows[|rows| - 1]] else [])
  }

  function OrZero(v: Option<real>): real
  {
    if v.Some? then v.value else 0.0
  }

  /** The sum of the present amounts (NaN skipped). */
  function SumOf(rows: seq<Reading>, q: Quantity): real
  {
    if |rows| == 0 then 0.0 else SumOf(rows[..|rows| - 1], q) + OrZero(Amount(rows[|rows| - 1], q))
  }

  predicate AnyPresent(rows: seq<Reading>, q: Quantity)
  {
    exists i :: 0 <= i < |rows| && Amount(rows[i], q).Some?
  }

  /** `sum(min_count=1)`: the sum of the present amounts, NaN when none is present. */
  function BucketSum(rows: seq<Reading>, q: Quantity): Option<real>
  {
    if AnyPresent(rows, q) then Some(SumOf(rows, q)) else None
  }

  function Bucket(rows: seq<Reading>, h: int): HourRow
  {
    HourRow(h, BucketSum(InHour(rows, h), Total), BucketSum(InHour(rows, h), Community))
  }

  /** Hourly buckets from the first reading's hour to the last one's, each
      summing its readings (`resample("1h").sum(min_count=1)`); no readings
      give no buckets. */
  function Hourly(rows: seq<Reading>): (r: seq<HourRow>)
    ensures |rows| == 0 ==> r == []
    ensures |rows| > 0 ==> |r| == LastHour(rows) - FirstHour(rows) + 1
    ensures forall k :: 0 <= k < |r| ==> r[k] == Bucket(rows, FirstHour(rows) + k)
  {
    if |rows| == 0 then []
    else
      var first := FirstHour(rows);
      seq(LastHour(rows) - first + 1, k requires 0 <= k <= LastHour(rows) - first => Bucket(rows, first + k))
  }

  /** aggregate_consumption_1h: the hourly sums of Consumption and
      ConsumptionCommunity. No bucket is made without a reading, and each
      column's buckets add up to the column's present total. */
  function AggregateConsumption1h(rows: seq<Reading>): (r: seq<HourRow>)
    ensures r == [] <==> rows == []
    ensures Sum(BucketValues(r, Total)) == SumOf(rows, Total)
    ensures Sum(BucketValues(r, Community)) == SumOf(rows, Community)
  {
    HourlyConserves(rows, Total);
    HourlyConserves(rows, Community);
    Hourly(rows)
  }

  /** resample_generation_1h: the hourly sums of Generation and
      GenerationCommunity over all sources. No bucket is made without a
      reading, and each column's buckets add up to the column's present
      total. */
  function ResampleGeneration1h(rows: seq<GenRow>): (r: seq<HourRow>)
    ensures r == [] <==> rows == []
    ensures Sum(BucketValues(r, Total)) == SumOf(Readings(rows), Total)
    ensures Sum(BucketValues(r, Community)) == SumOf(Readings(rows), Community)
  {
    HourlyConserves(Readings(rows), Total);
    HourlyConserves(Readings(rows), Community);
    Hourly(Readings(rows))
  }

  lemma {:induction false} InHourMember(rows: seq<Reading>, h: int)
    ensures forall x :: x in InHour(rows, h) <==> x in rows && HourOf(x.time) == h
  {
    if |rows| > 0 {
      InHourMember(rows[..|rows| - 1], h);
      assert rows == rows[..|rows| - 1] + [rows[|rows| - 1]];
    }
  }

  /** The grid spans exactly the hours of the readings: every reading falls
      in one bucket, and the first and the last bucket each hold a reading. */
  lemma {:induction false} HourlyGrid(rows: seq<Reading>)
    requires |rows| > 0
    ensures forall i :: 0 <= i < |rows| ==>
              0 <= HourOf(rows[i].time) - FirstHour(rows) < |Hourly(rows)|
    ensures |InHour(rows, Hourly(rows)[0].hour)| > 0
    ensures |InHour(rows, Hourly(rows)[|Hourly(rows)| - 1].hour)| > 0
  {
    var r := Hourly(rows);
    var first, last := FirstHour(rows), LastHour(rows);
    assert r[0].hour == first;
    assert r[|r| - 1].hour == last;
    InHourMember(rows, first);
    InHourMember(rows, last);
    var i :| 0 <= i < |rows| && first == HourOf(rows[i].time);
    var j :| 0 <= j < |rows| && last == HourOf(rows[j].time);
    assert rows[i] in InHour(rows, first);
    assert rows[j] in InHour(rows, last);
  }

  /** A bucket is present exactly when some reading of its hour has a
      present amount (`min_count=1`). */
  lemma {:induction false} BucketPresentIff(rows: seq<Reading>, h: int, q: Quantity)
    ensures BucketSum(InHour(rows, h), q).Some? <==>
              exists i :: 0 <= i < |rows| && HourOf(rows[i].time) == h && Amount(rows[i], q).Some?
  {
    var b := InHour(rows, h);
    InHourMember(rows, h);
    if AnyPresent(b, q) {
      var k :| 0 <= k < |b| && Amount(b[k], q).Some?;
      assert b[k] in rows;
    }
    if exists i :: 0 <= i < |rows| && HourOf(rows[i].time) == h && Amount(rows[i], q).Some? {
      var i :| 0 <= i < |rows| && HourOf(rows[i].time) == h && Amount(rows[i], q).Some?;
      assert rows[i] in b;
    }
  }

  /** The hourly bucket k is present exactly when some reading of its hour
      has a present amount. */
  lemma {:induction false} HourlyPresent(rows: seq<Reading>, k: int, q: Quantity)
    requires 0 <= k < |Hourly(rows)|
    ensures BucketAmount(Hourly(rows)[k], q).Some? <==>
              exists i :: 0 <= i < |rows| && HourOf(rows[i].time) == Hourly(rows)[k].hour && Amount(rows[i], q).Some?
  {
    BucketPresentIff(rows, FirstHour(rows) + k, q);
  }

  // Conservation: the buckets add up to the total of all readings.

  /** The bucket totals (NaN as 0) of hours lo .. lo + n - 1. */
  function GridTotals(rows: seq<Reading>, lo: int, n: nat, q: Quantity): (g: seq<real>)
    ensures |g| == n && forall k :: 0 <= k < n ==> g[k] == SumOf(InHour(rows, lo + k), q)
  {
    seq(n, k requires 0 <= k < n => SumOf(InHour(rows, lo + k), q))
  }

  lemma {:induction false} SumPointwise(a: seq<real>, b: seq<real>, c: seq<real>)
    requires |a| == |b| == |c|
    requires forall k :: 0 <= k < |c| ==> c[k] == a[k] + b[k]
    ensures Sum(c) == Sum(a) + Sum(b)
  {
    if |c| > 0 {
      SumPointwise(a[..|a| - 1], b[..|b| - 1], c[..|c| - 1]);
    }
  }

  lemma {:induction false} SumSingle(b: seq<real>, j: int, v: real)
    requires 0 <= j < |b|
    requires forall k :: 0 <= k < |b| ==> b[k] == (if k == j then v else 0.0)
    ensures Sum(b) == v
  {
    var init := b[..|b| - 1];
    if j < |b| - 1 {
      SumSingle(init, j, v);
    } else {
      SumOfConstant(init, 0.0);
    }
  }

  lemma {:induction false} InHourStep(rows: seq<Reading>, h: int, q: Quantity)
    requires |rows| > 0
    ensures SumOf(InHour(rows, h), q) == SumOf(InHour(rows[..|rows| - 1], h), q) +
              (if HourOf(rows[|rows| - 1].time) == h then OrZero(Amount(rows[|rows| - 1], q)) else 0.0)
  {
    var b := InHour(rows, h);
    var init := InHour(rows[..|rows| - 1], h);
    if HourOf(rows[|rows| - 1].time) == h {
      assert b == init + [rows[|rows| - 1]];
      assert b[..|b| - 1] == init;
    } else {
      assert b == init + [];
      assert b == init;
    }
  }

  /** n zeros except for v at position j. */
  function Indicator(n: nat, j: int, v: real): (b: seq<real>)
    ensures |b| == n && forall k :: 0 <= k < n ==> b[k] == (if k == j then v else 0.0)
  {
    seq(n, k requires 0 <= k < n => if k == j then v else 0.0)
  }

  /** Adding one reading adds its amount to its own hour's total only. */
  lemma {:induction false} GridStep(rows: seq<Reading>, lo: int, n: nat, q: Quantity)
    requires |rows| > 0
    ensures forall k :: 0 <= k < n ==>
              GridTotals(rows, lo, n, q)[k] ==
              GridTotals(rows[..|rows| - 1], lo, n, q)[k] +
              Indicator(n, HourOf(rows[|rows| - 1].time) - lo, OrZero(Amount(rows[|rows| - 1], q)))[k]
  {
    var b := Indicator(n, HourOf(rows[|rows| - 1].time) - lo, OrZero(Amount(rows[|rows| - 1], q)));
    forall k | 0 <= k < n
      ensures GridTotals(rows, lo, n, q)[k] == GridTotals(rows[..|rows| - 1], lo, n, q)[k] + b[k]
    {
      InHourStep(rows, lo + k, q);
    }
  }

  lemma {:induction false} GridConserves(rows: seq<Reading>, lo: int, n: nat, q: Quantity)
    requires forall i :: 0 <= i < |rows| ==> lo <= HourOf(rows[i].time) < lo + n
    ensures Sum(GridTotals(rows, lo, n, q)) == SumOf(rows, q)
  {
    var g := GridTotals(rows, lo, n, q);
    if |rows| == 0 {
      SumOfConstant(g, 0.0);
    } else {
      var init := rows[..|rows| - 1];
      var x := rows[|rows| - 1];
      var v := OrZero(Amount(x, q));
      assert forall i :: 0 <= i < |init| ==> init[i] == rows[i];
      GridConserves(init, lo, n, q);
      var b := Indicator(n, HourOf(x.time) - lo, v);
      GridStep(rows, lo, n, q);
      SumPointwise(GridTotals(init, lo, n, q), b, g);
      SumSingle(b, HourOf(x.time) - lo, v);
    }
  }

  lemma {:induction false} AbsentSumZero(rows: seq<Reading>, q: Quantity)
    requires !AnyPresent(rows, q)
    ensures SumOf(rows, q) == 0.0
  {
    if |rows| > 0 {
      assert forall i :: 0 <= i < |rows| - 1 ==> rows[..|rows| - 1][i] == rows[i];
      AbsentSumZero(rows[..|rows| - 1], q);
    }
  }

  /** The bucket values of an hourly table, NaN counted as 0. */
  function BucketValues(r: seq<HourRow>, q: Quantity): (v: seq<real>)
    ensures |v| == |r| && forall k :: 0 <= k < |r| ==> v[k] == OrZero(BucketAmount(r[k], q))
  {
    seq(|r|, k requires 0 <= k < |r| => OrZero(BucketAmount(r[k], q)))
  }

  /** A bucket's value, NaN counted as 0, is the sum of its hour's readings. */
  lemma {:induction false} BucketTotal(rows: seq<Reading>, h: int, q: Quantity)
    ensures OrZero(BucketAmount(Bucket(rows, h), q)) == SumOf(InHour(rows, h), q)
  {
    var bucket := InHour(rows, h);
    assert BucketAmount(Bucket(rows, h), q) == BucketSum(bucket, q);
    if !AnyPresent(bucket, q) {
      AbsentSumZero(bucket, q);
    }
  }

  lemma {:induction false} BucketValuesAreTotals(rows: seq<Reading>, q: Quantity)
    requires |rows| > 0
    ensures BucketValues(Hourly(rows), q) == GridTotals(rows, FirstHour(rows), |Hourly(rows)|, q)
  {
    var r := Hourly(rows);
    var lo := FirstHour(rows);
    var g := GridTotals(rows, lo, |r|, q);
    var v := BucketValues(r, q);
    forall k | 0 <= k < |r|
      ensures v[k] == g[k]
    {
      BucketTotal(rows, lo + k, q);
    }
    assert v == g;
  }

  /** Hourly aggregation neither loses nor invents energy: the buckets (NaN
      counted as 0) add up to the sum of all present readings. */
  lemma {:induction false} HourlyConserves(rows: seq<Reading>, q: Quantity)
    ensures Sum(BucketValues(Hourly(rows), q)) == SumOf(rows, q)
  {
    if |rows| > 0 {
      BucketValuesAreTotals(rows, q);
      GridConserves(rows, FirstHour(rows), |Hourly(rows)|, q);
    }
  }

  // ---------------- generation by source ----------------

  /** A raw generation row: its energy-source code (as a string) and its reading. */
  datatype GenRow = GenRow(source: string, reading: Reading)

  /** Energy-source codes and the names they are published under, in order. */
  const Sources: seq<(string, string)> := [
    ("1", "pv_sued"), ("2", "pv_ostwest"), ("3", "water"), ("4", "wind"), ("5", "biomass"), ("G1", "pv_all")
  ]

  function OfSource(rows: seq<GenRow>, code: string): (r: seq<Reading>)
    ensures |r| <= |rows|
  {
    if |rows| == 0 then []
    else OfSource(rows[..|rows| - 1], code) +
           (if rows[|rows| - 1].source == code then [rows[|rows| - 1].reading] else [])
  }

  lemma {:induction false} OfSourceEmptyIff(rows: seq<GenRow>, code: string)
    ensures |OfSource(rows, code)| == 0 <==> forall i :: 0 <= i < |rows| ==> rows[i].source != code
  {
    if |rows| > 0 {
      OfSourceEmptyIff(rows[..|rows| - 1], code);
      assert forall i :: 0 <= i < |rows| - 1 ==> rows[..|rows| - 1][i] == rows[i];
    }
  }

  /** The published names of the sources are distinct. */
  lemma {:induction false} SourceNamesDistinct()
    ensures forall j, k :: 0 <= j < k < |Sources| ==> Sources[j].1 != Sources[k].1
  {
  }

  /** Entry k of a per-source table: present exactly when source k has rows,
      and then the hourly aggregation of those rows. */
  predicate HasSourceEntry(rows: seq<GenRow>, bySource: map<string, seq<HourRow>>, k: int)
    requires 0 <= k < |Sources|
  {
    (Sources[k].1 in bySource <==> |OfSource(rows, Sources[k].0)| > 0) &&
    (Sources[k].1 in bySource ==> bySource[Sources[k].1] == Hourly(OfSource(rows, Sources[k].0)))
  }

  /** The hourly generation of each listed source that has rows, under the
      source's name; unlisted sources and sources without rows give no entry. */
  method PrepareGenerationBySource1h(rows: seq<GenRow>) returns (bySource: map<string, seq<HourRow>>)
    ensures forall k :: 0 <= k < |Sources| ==>
              (Sources[k].1 in bySource <==> exists i :: 0 <= i < |rows| && rows[i].source == Sources[k].0)
    ensures forall k :: 0 <= k < |Sources| && Sources[k].1 in bySource ==>
              bySource[Sources[k].1] == Hourly(OfSource(rows, Sources[k].0))
    ensures forall name :: name in bySource ==> exists k :: 0 <= k < |Sources| && Sources[k].1 == name
  {
    SourceNamesDistinct();
    bySource := map[];
    var n := 0;
    while n < |Sources|
      invariant 0 <= n <= |Sources|
      invariant forall k :: 0 <= k < n ==> HasSourceEntry(rows, bySource, k)
      invariant forall k :: n <= k < |Sources| ==> Sources[k].1 !in bySource
      invariant forall name :: name in bySource ==> exists k :: 0 <= k < n && Sources[k].1 == name
    {
      var code := Sources[n].0;
      var name := Sources[n].1;
      var part := OfSource(rows, code);
      ghost var before := bySource;
      if |part| != 0 {
        bySource := bySource[name := Hourly(part)];
      }
      AddSourceEntry(rows, before, bySource, n);
      n := n + 1;
    }
    EntriesComplete(rows, bySource);
  }

  /** One step of the loop keeps the entries of the sources seen so far and
      adds the entry of source n. */
  lemma {:induction false} AddSourceEntry(rows: seq<GenRow>, before: map<string, seq<HourRow>>, after: map<string, seq<HourRow>>, n: int)
    requires 0 <= n < |Sources|
    requires forall k :: 0 <= k < n ==> HasSourceEntry(rows, before, k)
    requires forall k :: n <= k < |Sources| ==> Sources[k].1 !in before
    requires after == if |OfSource(rows, Sources[n].0)| != 0
                      then before[Sources[n].1 := Hourly(OfSource(rows, Sources[n].0))]
                      else before
    ensures forall k :: 0 <= k <= n ==> HasSourceEntry(rows, after, k)
    ensures forall k :: n < k < |Sources| ==> Sources[k].1 !in after
    ensures forall name :: name in after ==> name in before || name == Sources[n].1
  {
    SourceNamesDistinct();
    forall k | 0 <= k <= n
      ensures HasSourceEntry(rows, after, k)
    {
      if k < n {
        assert HasSourceEntry(rows, before, k);
        assert Sources[k].1 != Sources[n].1;
      }
    }
  }

  lemma {:induction false} EntriesComplete(rows: seq<GenRow>, bySource: map<string, seq<HourRow>>)
    requires forall k :: 0 <= k < |Sources| ==> HasSourceEntry(rows, bySource, k)
    ensures forall k :: 0 <= k < |Sources| ==>
              (Sources[k].1 in bySource <==> exists i :: 0 <= i < |rows| && rows[i].source == Sources[k].0)
    ensures forall k :: 0 <= k < |Sources| && Sources[k].1 in bySource ==>
              bySource[Sources[k].1] == Hourly(OfSource(rows, Sources[k].0))
  {
    forall k | 0 <= k < |Sources|
      ensures Sources[k].1 in bySource <==> exists i :: 0 <= i < |rows| && rows[i].source == Sources[k].0
      ensures Sources[k].1 in bySource ==> bySource[Sources[k].1] == Hourly(OfSource(rows, Sources[k].0))
    {
      assert HasSourceEntry(rows, bySource, k);
      OfSourceEmptyIff(rows, Sources[k].0);
    }
  }

  // ---------------- the full preparation ----------------

  /** The three results of the full preparation: hourly consumption, hourly
      total generation and hourly generation per source. */
  datatype Preparation = Preparation(
    consumption1h: seq<HourRow>,
    generation1hTotal: seq<HourRow>,
    generation1hBySource: map<string, seq<HourRow>>)

  function Readings(rows: seq<GenRow>): (r: seq<Reading>)
    ensures |r| == |rows| && forall i :: 0 <= i < |rows| ==> r[i] == rows[i].reading
  {
    seq(|rows|, i requires 0 <= i < |rows| => rows[i].reading)
  }

  /** The message of the KeyError raised when a frame has no Number column. */
  const MissingNumber: string := "'Number'"

  /** run_full_preparation. The raw tables come twice: as frames of cells
      (genFrame, conFrame), on which the federal-state step works, and as
      typed rows (gen, con), which the aggregations read. The state columns
      added by the first step reach none of the three results. */
  method RunFullPreparation(genFrame: Frame, conFrame: Frame, gen: seq<GenRow>, con: seq<Reading>)
    returns (result: Result<Preparation>)
    requires WellFormed(genFrame) && WellFormed(conFrame)
    ensures result.Err? <==> NumberColumn !in genFrame.columns || NumberColumn !in conFrame.columns
    ensures result.Err? ==> result.message == MissingNumber
    ensures result.Ok? ==> result.value.consumption1h == AggregateConsumption1h(con)
    ensures result.Ok? ==> result.value.generation1hTotal == ResampleGeneration1h(gen)
    ensures result.Ok? ==> forall k :: 0 <= k < |Sources| ==>
              (Sources[k].1 in result.value.generation1hBySource <==> exists i :: 0 <= i < |gen| && gen[i].source == Sources[k].0)
    ensures result.Ok? ==> forall k :: 0 <= k < |Sources| && Sources[k].1 in result.value.generation1hBySource ==>
              result.value.generation1hBySource[Sources[k].1] == Hourly(OfSource(gen, Sources[k].0))
    ensures result.Ok? ==> forall name :: name in result.value.generation1hBySource ==>
              exists k :: 0 <= k < |Sources| && Sources[k].1 == name
  {
    var states := AddStateColumns(genFrame, conFrame);
    if states.None? {
      return Err(MissingNumber);
    }
    var bySource := PrepareGenerationBySource1h(gen);
    result := Ok(Preparation(AggregateConsumption1h(con), ResampleGeneration1h(gen), bySource));
  }
}
