/** The forecast evaluation of src/evaluation/community_costs.py: the cost
    table of compute_costs (forecast rows left-joined with the actual
    consumption and the hourly spot price on the timestamp, the error in kWh
    and its value in EUR at the spot price in EUR/MWh), and the per-model MAE,
    capacity and nMAE of compute_forecast_metrics. The spot table is an input. */
module CommunityCosts {
  import opened Values
  import opened StringOrder

  // ---------------- left join on the timestamp ----------------

  /** The right rows whose key is t, in order. */
  function Matches<R>(right: seq<R>, key: R -> int, t: int): (m: seq<R>)
    ensures |m| <= |right|
  {
    if |right| == 0 then []
    else Matches(right[..|right| - 1], key, t) + (if key(right[|right| - 1]) == t then [right[|right| - 1]] else [])
  }

  /** The rows a left row produces: one per matching right row, or one
      without a partner when nothing matches. */
  function JoinOne<L, R, O>(l: L, m: seq<R>, combine: (L, Option<R>) -> O): (out: seq<O>)
    ensures |out| == if |m| == 0 then 1 else |m|
  {
    if |m| == 0 then [combine(l, None)]
    else seq(|m|, j requires 0 <= j < |m| => combine(l, Some(m[j])))
  }

  /** `left.merge(right, on=key, how="left")`: left order kept, each left row
      followed by its matches in right order. */
  function LeftJoin<L, R, O>(left: seq<L>, right: seq<R>, lkey: L -> int, rkey: R -> int,
                             combine: (L, Option<R>) -> O): (out: seq<O>)
    ensures |out| >= |left|
  {
    if |left| == 0 then []
    else
      var l := left[|left| - 1];
      LeftJoin(left[..|left| - 1], right, lkey, rkey, combine) + JoinOne(l, Matches(right, rkey, lkey(l)), combine)
  }

  /** Every joined row comes from a left row, with or without a partner. */
  lemma {:induction false} LeftJoinFromLeft<L, R, O>(left: seq<L>, right: seq<R>, lkey: L -> int, rkey: R -> int,
                                                   combine: (L, Option<R>) -> O)
    ensures forall o :: o in LeftJoin(left, right, lkey, rkey, combine) ==>
              exists i, x :: 0 <= i < |left| && o == combine(left[i], x)
  {
    if |left| > 0 {
      var n := |left| - 1;
      var init := left[..n];
      LeftJoinFromLeft(init, right, lkey, rkey, combine);
      var m := Matches(right, rkey, lkey(left[n]));
      var tail := JoinOne(left[n], m, combine);
      forall o | o in LeftJoin(left, right, lkey, rkey, combine)
        ensures exists i, x :: 0 <= i < |left| && o == combine(left[i], x)
      {
        if o in LeftJoin(init, right, lkey, rkey, combine) {
          var i, x :| 0 <= i < |init| && o == combine(init[i], x);
          assert init[i] == left[i];
        } else {
          assert o in tail;
          if |m| == 0 {
            assert o == combine(left[n], None);
          } else {
            var j :| 0 <= j < |m| && tail[j] == o;
            assert o == combine(left[n], Some(m[j]));
          }
        }
      }
    }
  }

  /** No right row has the key t. */
  ghost predicate Unmatched<R>(right: seq<R>, key: R -> int, t: int)
  {
    forall a :: a in right ==> key(a) != t
  }

  predicate UniqueKeys<R>(right: seq<R>, key: R -> int)
  {
    forall i, j :: 0 <= i < j < |right| ==> key(right[i]) != key(right[j])
  }

  /** The right row with key t, if any. */
  function Lookup<R>(right: seq<R>, key: R -> int, t: int): Option<R>
  {
    var m := Matches(right, key, t);
    if |m| == 0 then None else Some(m[0])
  }

  lemma {:induction false} MatchesMember<R>(right: seq<R>, key: R -> int, t: int)
    ensures forall r :: r in Matches(right, key, t) <==> r in right && key(r) == t
  {
    if |right| > 0 {
      MatchesMember(right[..|right| - 1], key, t);
      assert right == right[..|right| - 1] + [right[|right| - 1]];
    }
  }

  lemma {:induction false} NoMatches<R>(right: seq<R>, key: R -> int, t: int)
    requires forall j :: 0 <= j < |right| ==> key(right[j]) != t
    ensures Matches(right, key, t) == []
  {
    if |right| > 0 {
      NoMatches(right[..|right| - 1], key, t);
    }
  }

  lemma {:induction false} MatchesAtMostOne<R>(right: seq<R>, key: R -> int, t: int)
    requires UniqueKeys(right, key)
    ensures |Matches(right, key, t)| <= 1
  {
    if |right| > 0 {
      var init := right[..|right| - 1];
      MatchesAtMostOne(init, key, t);
      MatchesMember(init, key, t);
      if key(right[|right| - 1]) == t {
        forall j | 0 <= j < |init| ensures key(init[j]) != t {
          assert key(right[j]) != key(right[|right| - 1]);
        }
        NoMatches(init, key, t);
      }
    }
  }

  /** The row Lookup finds has the key; None means no row has it. */
  lemma {:induction false} LookupFinds<R>(right: seq<R>, key: R -> int, t: int)
    ensures Lookup(right, key, t).Some? ==> Lookup(right, key, t).value in right && key(Lookup(right, key, t).value) == t
    ensures Lookup(right, key, t).None? ==> forall i :: 0 <= i < |right| ==> key(right[i]) != t
  {
    MatchesMember(right, key, t);
    if Lookup(right, key, t).Some? {
      assert Matches(right, key, t)[0] in Matches(right, key, t);
    } else {
      forall i | 0 <= i < |right| ensures key(right[i]) != t {
        assert right[i] in right;
      }
    }
  }

  lemma {:induction false} JoinOneSingle<L, R, O>(l: L, m: seq<R>, combine: (L, Option<R>) -> O)
    requires |m| <= 1
    ensures JoinOne(l, m, combine) == [combine(l, if |m| == 0 then None else Some(m[0]))]
  {
  }

  /** With unique right keys the join keeps one row per left row, in order,
      each with its partner of the same key or none. */
  lemma {:induction false} LeftJoinUnique<L, R, O>(left: seq<L>, right: seq<R>, lkey: L -> int, rkey: R -> int,
                                                   combine: (L, Option<R>) -> O)
    requires UniqueKeys(right, rkey)
    ensures |LeftJoin(left, right, lkey, rkey, combine)| == |left|
    ensures forall i :: 0 <= i < |left| ==>
              LeftJoin(left, right, lkey, rkey, combine)[i] == combine(left[i], Lookup(right, rkey, lkey(left[i])))
  {
    if |left| > 0 {
      var init := left[..|left| - 1];
      var l := left[|left| - 1];
      LeftJoinUnique(init, right, lkey, rkey, combine);
      MatchesAtMostOne(right, rkey, lkey(l));
      JoinOneSingle(l, Matches(right, rkey, lkey(l)), combine);
      var out := LeftJoin(left, right, lkey, rkey, combine);
      assert out == LeftJoin(init, right, lkey, rkey, combine) + [combine(l, Lookup(right, rkey, lkey(l)))];
      forall i | 0 <= i < |left| ensures out[i] == combine(left[i], Lookup(right, rkey, lkey(left[i]))) {
        if i < |left| - 1 {
          assert left[i] == init[i];
        }
      }
    }
  }

  /** The joined rows of the left rows before the last come first. */
  lemma {:induction false} LeftJoinInit<L, R, O>(left: seq<L>, right: seq<R>, lkey: L -> int, rkey: R -> int,
                                               combine: (L, Option<R>) -> O, o: O)
    requires |left| > 0 && o in LeftJoin(left[..|left| - 1], right, lkey, rkey, combine)
    ensures o in LeftJoin(left, right, lkey, rkey, combine)
  {
  }

  /** Left row i appears combined with the right row a of its key. */
  lemma {:induction false} LeftJoinKeepsMatch<L, R, O>(left: seq<L>, right: seq<R>, lkey: L -> int, rkey: R -> int,
                                                     combine: (L, Option<R>) -> O, i: nat, a: R)
    requires i < |left| && a in Matches(right, rkey, lkey(left[i]))
    ensures combine(left[i], Some(a)) in LeftJoin(left, right, lkey, rkey, combine)
  {
    var n := |left| - 1;
    if i < n {
      LeftJoinKeepsMatch(left[..n], right, lkey, rkey, combine, i, a);
      LeftJoinInit(left, right, lkey, rkey, combine, combine(left[i], Some(a)));
    } else {
      var m := Matches(right, rkey, lkey(left[n]));
      var j :| 0 <= j < |m| && m[j] == a;
      var tail := JoinOne(left[n], m, combine);
      assert tail[j] == combine(left[n], Some(a));
      assert LeftJoin(left, right, lkey, rkey, combine) == LeftJoin(left[..n], right, lkey, rkey, combine) + tail;
    }
  }

  /** Left row i, whose key no right row has, appears combined with none. */
  lemma {:induction false} LeftJoinKeepsLone<L, R, O>(left: seq<L>, right: seq<R>, lkey: L -> int, rkey: R -> int,
                                                    combine: (L, Option<R>) -> O, i: nat)
    requires i < |left| && Matches(right, rkey, lkey(left[i])) == []
    ensures combine(left[i], None) in LeftJoin(left, right, lkey, rkey, combine)
  {
    var n := |left| - 1;
    if i < n {
      LeftJoinKeepsLone(left[..n], right, lkey, rkey, combine, i);
      LeftJoinInit(left, right, lkey, rkey, combine, combine(left[i], None));
    } else {
      var tail := JoinOne(left[n], Matches(right, rkey, lkey(left[n])), combine);
      assert tail == [combine(left[n], None)];
      assert LeftJoin(left, right, lkey, rkey, combine) == LeftJoin(left[..n], right, lkey, rkey, combine) + tail;
    }
  }

  /** No left row is lost: a left row appears combined with each right row
      of its key, and combined with none when no right row has its key. */
  lemma {:induction false} LeftJoinCoversLeft<L, R, O>(left: seq<L>, right: seq<R>, lkey: L -> int, rkey: R -> int,
                                                     combine: (L, Option<R>) -> O)
    ensures forall i, a :: 0 <= i < |left| && a in right && rkey(a) == lkey(left[i]) ==>
              combine(left[i], Some(a)) in LeftJoin(left, right, lkey, rkey, combine)
    ensures forall i :: 0 <= i < |left| && Unmatched(right, rkey, lkey(left[i])) ==>
              combine(left[i], None) in LeftJoin(left, right, lkey, rkey, combine)
  {
    forall i, a | 0 <= i < |left| && a in right && rkey(a) == lkey(left[i])
      ensures combine(left[i], Some(a)) in LeftJoin(left, right, lkey, rkey, combine)
    {
      MatchesMember(right, rkey, lkey(left[i]));
      LeftJoinKeepsMatch(left, right, lkey, rkey, combine, i, a);
    }
    forall i | 0 <= i < |left| && Unmatched(right, rkey, lkey(left[i]))
      ensures combine(left[i], None) in LeftJoin(left, right, lkey, rkey, combine)
    {
      forall j | 0 <= j < |right| ensures rkey(right[j]) != lkey(left[i]) {
        assert right[j] in right;
      }
      NoMatches(right, rkey, lkey(left[i]));
      LeftJoinKeepsLone(left, right, lkey, rkey, combine, i);
    }
  }

  // ---------------- the cost table ----------------

  datatype Forecast = Forecast(time: int, model: string, forecastConsumption: Option<real>)

  datatype Actual = Actual(time: int, actualConsumption: Option<real>)

  datatype SpotPrice = SpotPrice(time: int, eurPerMwh: Option<real>)

  datatype Merged = Merged(time: int, model: string, forecastConsumption: Option<real>, actualConsumption: Option<real>)

  /** The join keys: each table's timestamp. */
  function ForecastTime(f: Forecast): int
  {
    f.time
  }

  function ActualTime(a: Actual): int
  {
    a.time
  }

  function MergedTime(m: Merged): int
  {
    m.time
  }

  function SpotTime(s: SpotPrice): int
  {
    s.time
  }

  datatype CostRow = CostRow(
    time: int,
    model: string,
    forecastConsumption: Option<real>,
    actualConsumption: Option<real>,
    errorKwh: Option<real>,
    absErrorKwh: Option<real>,
    spotEurPerMwh: Option<real>,
    signedImpactEur: Option<real>,
    exposureEur: Option<real>)

  /** Column arithmetic: NaN in, NaN out. */
  function Minus(a: Option<real>, b: Option<real>): Option<real>
  {
    if a.Some? && b.Some? then Some(a.value - b.value) else None
  }

  function Abs(x: real): real
  {
    if x < 0.0 then -x else x
  }

  function AbsOf(a: Option<real>): Option<real>
  {
    if a.Some? then Some(Abs(a.value)) else None
  }

  /** The value in EUR of an energy in kWh at a price in EUR/MWh. */
  function Valued(kwh: Option<real>, eurPerMwh: Option<real>): Option<real>
  {
    if kwh.Some? && eurPerMwh.Some? then Some(kwh.value / 1000.0 * eurPerMwh.value) else None
  }

  function WithActual(f: Forecast, a: Option<Actual>): Merged
  {
    Merged(f.time, f.model, f.forecastConsumption, if a.Some? then a.value.actualConsumption else None)
  }

  function WithCosts(m: Merged, s: Option<SpotPrice>): CostRow
  {
    var error := Minus(m.forecastConsumption, m.actualConsumption);
    var absError := AbsOf(error);
    var spot := if s.Some? then s.value.eurPerMwh else None;
    CostRow(m.time, m.model, m.forecastConsumption, m.actualConsumption, error, absError, spot,
            Valued(error, spot), Valued(absError, spot))
  }

  /** The row carries the timestamp, model and forecast of the forecast row. */
  predicate Carries(r: CostRow, f: Forecast)
  {
    r.time == f.time && r.model == f.model && r.forecastConsumption == f.forecastConsumption
  }

  /** The cost table: every forecast row with its actual consumption, its
      error, the spot price of its hour and the error's value. No forecast
      row is lost: each yields a row with every actual of its timestamp, and
      one with a NaN actual when no actual has its timestamp. Every row
      carries the timestamp, model and forecast of a forecast row. */
  function ComputeCosts(forecasts: seq<Forecast>, actuals: seq<Actual>, spots: seq<SpotPrice>): (rows: seq<CostRow>)
    ensures |rows| >= |forecasts|
    ensures forall r :: r in rows ==> exists i :: 0 <= i < |forecasts| && Carries(r, forecasts[i])
    ensures forall i, a :: 0 <= i < |forecasts| && a in actuals && a.time == forecasts[i].time ==>
              exists r :: r in rows && Carries(r, forecasts[i]) && r.actualConsumption == a.actualConsumption
    ensures forall i :: 0 <= i < |forecasts| && Unmatched(actuals, ActualTime, forecasts[i].time) ==>
              exists r :: r in rows && Carries(r, forecasts[i]) && r.actualConsumption == None
  {
    var merged := LeftJoin(forecasts, actuals, ForecastTime, ActualTime, WithActual);
    var rows := LeftJoin(merged, spots, MergedTime, SpotTime, WithCosts);
    CostTableFromForecasts(forecasts, actuals, spots, rows);
    CostTableKeepsForecasts(forecasts, actuals, spots, rows);
    rows
  }

  /** Every cost row carries the timestamp, model and forecast of a forecast row. */
  lemma {:induction false} CostTableFromForecasts(forecasts: seq<Forecast>, actuals: seq<Actual>, spots: seq<SpotPrice>,
                                                  rows: seq<CostRow>)
    requires rows == LeftJoin(LeftJoin(forecasts, actuals, ForecastTime, ActualTime, WithActual),
                              spots, MergedTime, SpotTime, WithCosts)
    ensures forall r :: r in rows ==> exists i :: 0 <= i < |forecasts| && Carries(r, forecasts[i])
  {
    var merged := LeftJoin(forecasts, actuals, ForecastTime, ActualTime, WithActual);
    LeftJoinFromLeft(forecasts, actuals, ForecastTime, ActualTime, WithActual);
    LeftJoinFromLeft(merged, spots, MergedTime, SpotTime, WithCosts);
    CostsFromForecasts(forecasts, merged, rows);
  }

  /** Every forecast row yields a cost row with each actual of its timestamp,
      and one with a NaN actual when no actual has its timestamp. */
  lemma {:induction false} CostTableKeepsForecasts(forecasts: seq<Forecast>, actuals: seq<Actual>, spots: seq<SpotPrice>,
                                                   rows: seq<CostRow>)
    requires rows == LeftJoin(LeftJoin(forecasts, actuals, ForecastTime, ActualTime, WithActual),
                              spots, MergedTime, SpotTime, WithCosts)
    ensures (forall i, a :: 0 <= i < |forecasts| && a in actuals && a.time == forecasts[i].time ==>
               exists r :: r in rows && Carries(r, forecasts[i]) && r.actualConsumption == a.actualConsumption) &&
            (forall i :: 0 <= i < |forecasts| && Unmatched(actuals, ActualTime, forecasts[i].time) ==>
               exists r :: r in rows && Carries(r, forecasts[i]) && r.actualConsumption == None)
  {
    var merged := LeftJoin(forecasts, actuals, ForecastTime, ActualTime, WithActual);
    LeftJoinCoversLeft(forecasts, actuals, ForecastTime, ActualTime, WithActual);
    LeftJoinCoversLeft(merged, spots, MergedTime, SpotTime, WithCosts);
    CostsKeepForecasts(forecasts, actuals, spots, merged, rows);
  }

  /** Every merged row yields a cost row, with the price of its hour or none. */
  lemma {:induction false} CostsKeepMerged(spots: seq<SpotPrice>, merged: seq<Merged>, rows: seq<CostRow>, m: Merged)
    requires forall j, s :: 0 <= j < |merged| && s in spots && s.time == merged[j].time ==>
               WithCosts(merged[j], Some(s)) in rows
    requires forall j :: 0 <= j < |merged| && Unmatched(spots, SpotTime, merged[j].time) ==>
               WithCosts(merged[j], None) in rows
    requires m in merged
    ensures exists y :: WithCosts(m, y) in rows
  {
    var j :| 0 <= j < |merged| && merged[j] == m;
    if s :| s in spots && s.time == m.time {
      assert WithCosts(merged[j], Some(s)) in rows;
    } else {
      assert WithCosts(merged[j], None) in rows;
    }
  }

  /** The two joins lose no forecast row, and keep its actual or its NaN. */
  lemma {:induction false} CostsKeepForecasts(forecasts: seq<Forecast>, actuals: seq<Actual>, spots: seq<SpotPrice>,
                                              merged: seq<Merged>, rows: seq<CostRow>)
    requires forall i, a :: 0 <= i < |forecasts| && a in actuals && a.time == forecasts[i].time ==>
               WithActual(forecasts[i], Some(a)) in merged
    requires forall i :: 0 <= i < |forecasts| && Unmatched(actuals, ActualTime, forecasts[i].time) ==>
               WithActual(forecasts[i], None) in merged
    requires forall j, s :: 0 <= j < |merged| && s in spots && s.time == merged[j].time ==>
               WithCosts(merged[j], Some(s)) in rows
    requires forall j :: 0 <= j < |merged| && Unmatched(spots, SpotTime, merged[j].time) ==>
               WithCosts(merged[j], None) in rows
    ensures forall i, a :: 0 <= i < |forecasts| && a in actuals && a.time == forecasts[i].time ==>
              exists r :: r in rows && Carries(r, forecasts[i]) && r.actualConsumption == a.actualConsumption
    ensures forall i :: 0 <= i < |forecasts| && Unmatched(actuals, ActualTime, forecasts[i].time) ==>
              exists r :: r in rows && Carries(r, forecasts[i]) && r.actualConsumption == None
  {
    forall i, a | 0 <= i < |forecasts| && a in actuals && a.time == forecasts[i].time
      ensures exists r :: r in rows && Carries(r, forecasts[i]) && r.actualConsumption == a.actualConsumption
    {
      var m := WithActual(forecasts[i], Some(a));
      CostsKeepMerged(spots, merged, rows, m);
      var y :| WithCosts(m, y) in rows;
      assert Carries(WithCosts(m, y), forecasts[i]);
    }
    forall i | 0 <= i < |forecasts| && Unmatched(actuals, ActualTime, forecasts[i].time)
      ensures exists r :: r in rows && Carries(r, forecasts[i]) && r.actualConsumption == None
    {
      var m := WithActual(forecasts[i], None);
      CostsKeepMerged(spots, merged, rows, m);
      var y :| WithCosts(m, y) in rows;
      assert Carries(WithCosts(m, y), forecasts[i]);
    }
  }

  /** Rows made by WithActual and then WithCosts keep the timestamp, model
      and forecast of the forecast row they started from. */
  lemma {:induction false} CostsFromForecasts(forecasts: seq<Forecast>, merged: seq<Merged>, rows: seq<CostRow>)
    requires forall m :: m in merged ==> exists i, x :: 0 <= i < |forecasts| && m == WithActual(forecasts[i], x)
    requires forall r :: r in rows ==> exists j, y :: 0 <= j < |merged| && r == WithCosts(merged[j], y)
    ensures forall r :: r in rows ==> exists i :: 0 <= i < |forecasts| && Carries(r, forecasts[i])
  {
    forall r | r in rows
      ensures exists i :: 0 <= i < |forecasts| && Carries(r, forecasts[i])
    {
      var j, y :| 0 <= j < |merged| && r == WithCosts(merged[j], y);
      assert merged[j] in merged;
      var i, x :| 0 <= i < |forecasts| && merged[j] == WithActual(forecasts[i], x);
      assert r.time == forecasts[i].time;
    }
  }

  /** The per-row arithmetic: the error is present exactly when forecast and
      actual are, adding it to the actual gives the forecast back, its
      absolute value is non-negative, the EUR values are the kWh figures in
      MWh times the price, and the exposure is the size of the signed impact
      when the price is not negative. */
  lemma {:induction false} CostRowArithmetic(m: Merged, s: Option<SpotPrice>)
    ensures var r := WithCosts(m, s);
            (r.errorKwh.Some? <==> m.forecastConsumption.Some? && m.actualConsumption.Some?) &&
            (r.errorKwh.Some? ==> r.actualConsumption.value + r.errorKwh.value == r.forecastConsumption.value) &&
            (r.absErrorKwh.Some? <==> r.errorKwh.Some?) &&
            (r.absErrorKwh.Some? ==> r.absErrorKwh.value >= 0.0 &&
                                     (r.absErrorKwh.value == r.errorKwh.value || r.absErrorKwh.value == -r.errorKwh.value)) &&
            (r.signedImpactEur.Some? <==> r.errorKwh.Some? && r.spotEurPerMwh.Some?) &&
            (r.signedImpactEur.Some? ==> r.signedImpactEur.value * 1000.0 == r.errorKwh.value * r.spotEurPerMwh.value) &&
            (r.exposureEur.Some? <==> r.signedImpactEur.Some?) &&
            (r.exposureEur.Some? && r.spotEurPerMwh.value >= 0.0 ==>
               r.exposureEur.value >= 0.0 && r.exposureEur.value == Abs(r.signedImpactEur.value))
  {
    var r := WithCosts(m, s);
    if r.exposureEur.Some? {
      var e, p := r.errorKwh.value, r.spotEurPerMwh.value;
      if p >= 0.0 {
        if e < 0.0 {
          assert (-e) / 1000.0 * p == -(e / 1000.0 * p);
          assert (-e) / 1000.0 * p >= 0.0;
        } else {
          assert e / 1000.0 * p >= 0.0;
        }
      }
    }
  }

  /** With one actual and one price per timestamp, the cost table has one
      row per forecast row, in order, carrying the actual and the price of
      its timestamp. */
  lemma {:induction false} CostsPerForecast(forecasts: seq<Forecast>, actuals: seq<Actual>, spots: seq<SpotPrice>)
    requires UniqueKeys(actuals, ActualTime)
    requires UniqueKeys(spots, SpotTime)
    ensures |ComputeCosts(forecasts, actuals, spots)| == |forecasts|
    ensures forall i :: 0 <= i < |forecasts| ==>
              var r := ComputeCosts(forecasts, actuals, spots)[i];
              var a := Lookup(actuals, ActualTime, forecasts[i].time);
              var s := Lookup(spots, SpotTime, forecasts[i].time);
              r.time == forecasts[i].time && r.model == forecasts[i].model &&
              r.forecastConsumption == forecasts[i].forecastConsumption &&
              r.actualConsumption == (if a.Some? then a.value.actualConsumption else None) &&
              r.spotEurPerMwh == (if s.Some? then s.value.eurPerMwh else None)
  {
    var merged := LeftJoin(forecasts, actuals, ForecastTime, ActualTime, WithActual);
    LeftJoinUnique(forecasts, actuals, ForecastTime, ActualTime, WithActual);
    LeftJoinUnique(merged, spots, MergedTime, SpotTime, WithCosts);
  }

  // ---------------- ordering of reals and the quantile ----------------

  predicate Ascending(s: seq<real>)
  {
    forall i, j :: 0 <= i < j < |s| ==> s[i] <= s[j]
  }

  /** x inserted before the first value it does not exceed. */
  function InsertReal(s: seq<real>, x: real): (r: seq<real>)
    ensures |r| == |s| + 1
    ensures multiset(r) == multiset(s) + multiset{x}
    ensures r[0] == x || (|s| > 0 && r[0] == s[0])
  {
    if |s| == 0 then [x]
    else if x <= s[0] then [x] + s
    else
      assert s == [s[0]] + s[1..];
      [s[0]] + InsertReal(s[1..], x)
  }

  /** The values in ascending order (insertion sort). */
  function SortReals(s: seq<real>): (r: seq<real>)
    ensures |r| == |s|
    ensures multiset(r) == multiset(s)
  {
    if |s| == 0 then []
    else
      assert s == s[..|s| - 1] + [s[|s| - 1]];
      InsertReal(SortReals(s[..|s| - 1]), s[|s| - 1])
  }

  lemma {:induction false} ConsAscending(a: real, t: seq<real>)
    requires Ascending(t) && (|t| > 0 ==> a <= t[0])
    ensures Ascending([a] + t)
  {
    var u := [a] + t;
    forall i, j | 0 <= i < j < |u| ensures u[i] <= u[j] {
      if i == 0 {
        assert u[j] == t[j - 1];
        assert t[0] <= t[j - 1];
      } else {
        assert u[i] == t[i - 1] && u[j] == t[j - 1];
      }
    }
  }

  lemma {:induction false} InsertAscending(s: seq<real>, x: real)
    requires Ascending(s)
    ensures Ascending(InsertReal(s, x))
  {
    if |s| == 0 {
    } else if x <= s[0] {
      ConsAscending(x, s);
    } else {
      var t := s[1..];
      assert Ascending(t) by {
        forall i, j | 0 <= i < j < |t| ensures t[i] <= t[j] {
          assert t[i] == s[i + 1] && t[j] == s[j + 1];
        }
      }
      InsertAscending(t, x);
      var rest := InsertReal(t, x);
      assert |t| > 0 ==> s[0] <= t[0];
      ConsAscending(s[0], rest);
    }
  }

  /** Sorting gives ascending values. */
  lemma {:induction false} SortAscending(s: seq<real>)
    ensures Ascending(SortReals(s))
  {
    if |s| > 0 {
      SortAscending(s[..|s| - 1]);
      InsertAscending(SortReals(s[..|s| - 1]), s[|s| - 1]);
    }
  }

  /** The q-quantile of ascending values with linear interpolation between
      the two nearest ranks (pandas' default): the value at the fractional
      rank (n - 1) * q. */
  function Quantile(v: seq<real>, q: real): (r: real)
    requires |v| > 0 && 0.0 <= q <= 1.0
    ensures q == 0.0 ==> r == v[0]
    ensures q == 1.0 ==> r == v[|v| - 1]
  {
    TimesIsProduct(|v| - 1, q);
    AtRankLast(v);
    AtRank(v, Times(|v| - 1, q))
  }

  /** The last rank holds the last value. */
  lemma {:induction false} AtRankLast(v: seq<real>)
    requires |v| > 0
    ensures AtRank(v, (|v| - 1) as real) == v[|v| - 1]
    decreases |v|
  {
    if |v| > 1 {
      AtRankLast(v[1..]);
      assert (|v| - 1) as real - 1.0 == (|v[1..]| - 1) as real;
    }
  }

  /** n * q, written as n additions of q. */
  function Times(n: nat, q: real): (r: real)
    requires q >= 0.0
    ensures r >= 0.0
  {
    if n == 0 then 0.0 else Times(n - 1, q) + q
  }

  lemma {:induction false} TimesIsProduct(n: nat, q: real)
    requires q >= 0.0
    ensures Times(n, q) == n as real * q
  {
    if n > 0 {
      TimesIsProduct(n - 1, q);
      assert (n - 1) as real * q + q == n as real * q;
    }
  }

  /** The value at the fractional rank h >= 0: v[i] + (h - i) * (v[i + 1] - v[i])
      for i <= h < i + 1, and the last value from rank n - 1 on. */
  function AtRank(v: seq<real>, h: real): real
    requires |v| > 0 && h >= 0.0
    decreases |v|
  {
    if |v| == 1 then v[0]
    else if h < 1.0 then Lerp(v[0], v[1], h)
    else AtRank(v[1..], h - 1.0)
  }

  /** The point a fraction f of the way from a to b. */
  function Lerp(a: real, b: real, f: real): real
  {
    a + f * (b - a)
  }

  /** The interpolated value lies between the two values. */
  lemma {:induction false} Interpolate(a: real, b: real, f: real)
    requires a <= b && 0.0 <= f <= 1.0
    ensures a <= Lerp(a, b, f) <= b
  {
    var d := b - a;
    assert (1.0 - f) * d >= 0.0;
    assert f * d <= d;
  }

  /** The quantile lies between the smallest and the largest value. */
  lemma {:induction false} QuantileBounds(v: seq<real>, q: real)
    requires |v| > 0 && 0.0 <= q <= 1.0 && Ascending(v)
    ensures v[0] <= Quantile(v, q) <= v[|v| - 1]
  {
    AtRankBounds(v, Times(|v| - 1, q));
  }

  lemma {:induction false} AtRankBounds(v: seq<real>, h: real)
    requires |v| > 0 && h >= 0.0 && Ascending(v)
    ensures v[0] <= AtRank(v, h) <= v[|v| - 1]
    decreases |v|
  {
    if |v| == 1 {
    } else if h < 1.0 {
      Interpolate(v[0], v[1], h);
      assert v[1] <= v[|v| - 1];
    } else {
      var t := v[1..];
      assert Ascending(t) by {
        forall i, j | 0 <= i < j < |t| ensures t[i] <= t[j] {
          assert t[i] == v[i + 1] && t[j] == v[j + 1];
        }
      }
      AtRankBounds(t, h - 1.0);
      assert v[0] <= v[1] && t[|t| - 1] == v[|v| - 1];
    }
  }

  /** An ascending arrangement of the values starts with their minimum. */
  lemma {:induction false} AscendingFirst(r: seq<real>, s: seq<real>)
    requires |s| > 0 && Ascending(r) && multiset(r) == multiset(s)
    ensures |r| == |s| && r[0] == Min(s)
  {
    assert |r| == |multiset(r)|;
    MinMaxBound(s);
    assert r[0] in multiset(s);
    var i :| 0 <= i < |s| && s[i] == r[0];
    assert Min(s) in multiset(r);
    var a :| 0 <= a < |r| && r[a] == Min(s);
  }

  /** An ascending arrangement of the values ends with their maximum. */
  lemma {:induction false} AscendingLast(r: seq<real>, s: seq<real>)
    requires |s| > 0 && Ascending(r) && multiset(r) == multiset(s)
    ensures |r| == |s| && r[|r| - 1] == Max(s)
  {
    assert |r| == |multiset(r)|;
    MinMaxBound(s);
    assert r[|r| - 1] in multiset(s);
    var i :| 0 <= i < |s| && s[i] == r[|r| - 1];
    assert Max(s) in multiset(r);
    var b :| 0 <= b < |r| && r[b] == Max(s);
  }

  /** Sorting puts the minimum first and the maximum last. */
  lemma {:induction false} SortedEnds(s: seq<real>)
    requires |s| > 0
    ensures Ascending(SortReals(s))
    ensures SortReals(s)[0] == Min(s) && SortReals(s)[|s| - 1] == Max(s)
  {
    SortAscending(s);
    AscendingFirst(SortReals(s), s);
    AscendingLast(SortReals(s), s);
  }

  // ---------------- per-model metrics ----------------

  datatype Metrics = Metrics(model: string, maeKwh: real, capacityKwh: real, nmaePct: real)

  const DefaultCapQuantile: real := 0.995

  /** The (forecast, actual) pairs of one model's rows with both present. */
  function Complete(rows: seq<CostRow>, model: string): (p: seq<(real, real)>)
    ensures |p| <= |rows|
  {
    if |rows| == 0 then []
    else
      var r := rows[|rows| - 1];
      Complete(rows[..|rows| - 1], model) +
        (if r.model == model && r.forecastConsumption.Some? && r.actualConsumption.Some?
         then [(r.forecastConsumption.value, r.actualConsumption.value)] else [])
  }

  function AbsErrors(p: seq<(real, real)>): (e: seq<real>)
    ensures |e| == |p| && forall k :: 0 <= k < |p| ==> e[k] == Abs(p[k].0 - p[k].1)
  {
    seq(|p|, k requires 0 <= k < |p| => Abs(p[k].0 - p[k].1))
  }

  function ActualValues(p: seq<(real, real)>): (a: seq<real>)
    ensures |a| == |p| && forall k :: 0 <= k < |p| ==> a[k] == p[k].1
  {
    seq(|p|, k requires 0 <= k < |p| => p[k].1)
  }

  /** The quantile of the actuals, or their maximum when it is not
      positive: a value between the smallest and the largest actual, positive
      exactly when the largest actual is, and zero exactly when that is. */
  function Capacity(actuals: seq<real>, q: real): (cap: real)
    requires |actuals| > 0 && 0.0 <= q <= 1.0
    ensures Min(actuals) <= cap <= Max(actuals)
    ensures cap > 0.0 <==> Max(actuals) > 0.0
    ensures cap == 0.0 <==> Max(actuals) == 0.0
  {
    var c := Quantile(SortReals(actuals), q);
    SortedEnds(actuals);
    QuantileBounds(SortReals(actuals), q);
    if c <= 0.0 then Max(actuals) else c
  }

  /** MAE as a percentage of the capacity. The division is one of Python
      floats, which raises ZeroDivisionError for a zero capacity. */
  function Nmae(mae: real, cap: real): (pct: real)
    requires cap != 0.0
    ensures pct * cap == mae * 100.0
    ensures mae >= 0.0 && cap > 0.0 ==> pct >= 0.0
  {
    mae / cap * 100.0
  }

  /** The message of the ZeroDivisionError raised by the nMAE division. */
  const DivisionByZero: string := "float division by zero"

  /** The model has a complete row and the largest actual of its complete
      rows is 0: then, and only then, its capacity is 0 and its nMAE
      division raises, whatever the quantile level. */
  predicate ZeroCapacity(rows: seq<CostRow>, model: string)
  {
    |Complete(rows, model)| > 0 && Max(ActualValues(Complete(rows, model))) == 0.0
  }

  /** No listed model has a zero capacity. */
  predicate NoZeroCapacity(rows: seq<CostRow>, models: seq<string>)
  {
    forall k :: 0 <= k < |models| ==> !ZeroCapacity(rows, models[k])
  }

  /** The metrics of a model with at least one complete row and a nonzero
      capacity (the body of the loop over the groups). */
  function MetricsFor(rows: seq<CostRow>, model: string, q: real): (x: Metrics)
    requires 0.0 <= q <= 1.0 && |Complete(rows, model)| > 0 && !ZeroCapacity(rows, model)
    ensures x.model == model
  {
    var p := Complete(rows, model);
    var mae := Mean(AbsErrors(p));
    var cap := Capacity(ActualValues(p), q);
    Metrics(model, mae, cap, Nmae(mae, cap))
  }

  /** The distinct models of the rows, ascending (the groupby keys). */
  function Models(rows: seq<CostRow>): (models: seq<string>)
    ensures StrictlySorted(models)
    ensures forall m :: m in models <==> exists i :: 0 <= i < |rows| && rows[i].model == m
  {
    if |rows| == 0 then []
    else
      var init := rows[..|rows| - 1];
      var ms := Models(init);
      var r := Insert(ms, rows[|rows| - 1].model);
      assert forall m :: m in r <==> m in Elements(r);
      assert forall m :: m in ms <==> m in Elements(ms);
      assert forall i :: 0 <= i < |init| ==> init[i] == rows[i];
      r
  }

  /** The metrics of the listed models that keep at least one complete row,
      in order. */
  function MetricsOf(rows: seq<CostRow>, models: seq<string>, q: real): (t: seq<Metrics>)
    requires 0.0 <= q <= 1.0 && NoZeroCapacity(rows, models)
    ensures |t| <= |models|
  {
    if |models| == 0 then []
    else
      var m := models[|models| - 1];
      MetricsOf(rows, models[..|models| - 1], q) + (if |Complete(rows, m)| > 0 then [MetricsFor(rows, m, q)] else [])
  }

  /** The metrics table: one row per model with a complete row, in the
      ascending order of the groupby keys; each row holds the metrics of its
      own model, which has a complete row. */
  function MetricsTable(rows: seq<CostRow>, q: real): (t: seq<Metrics>)
    requires 0.0 <= q <= 1.0 && NoZeroCapacity(rows, Models(rows))
    ensures forall k :: 0 <= k < |t| ==>
              t[k].model in Models(rows) && |Complete(rows, t[k].model)| > 0 &&
              !ZeroCapacity(rows, t[k].model) && t[k] == MetricsFor(rows, t[k].model, q)
  {
    MetricsOfRows(rows, Models(rows), q);
    MetricsOf(rows, Models(rows), q)
  }

  /** Indexing an empty metrics table by "model" fails: the table has no
      columns at all. */
  const NoModelColumn: string := "None of ['model'] are in the columns"

  /** The loop over the groups: skip a model whose complete rows are none,
      fail on the nMAE division when its capacity is 0, append its metrics
      otherwise; the final `set_index("model")` fails when no row was
      appended. */
  method ComputeForecastMetrics(rows: seq<CostRow>, q: real) returns (result: Result<seq<Metrics>>)
    requires 0.0 <= q <= 1.0
    ensures !NoZeroCapacity(rows, Models(rows)) ==> result == Err(DivisionByZero)
    ensures NoZeroCapacity(rows, Models(rows)) ==>
              result == (if MetricsTable(rows, q) == [] then Err(NoModelColumn) else Ok(MetricsTable(rows, q)))
  {
    var models := Models(rows);
    var out: seq<Metrics> := [];
    var n := 0;
    while n < |models|
      invariant 0 <= n <= |models|
      invariant NoZeroCapacity(rows, models[..n])
      invariant out == MetricsOf(rows, models[..n], q)
    {
      var model := models[n];
      var g := Complete(rows, model);
      if |g| > 0 && Capacity(ActualValues(g), q) == 0.0 {
        assert ZeroCapacity(rows, models[n]);
        result := Err(DivisionByZero);
        return;
      }
      NoZeroStep(rows, models, n, q);
      MetricsOfStep(rows, models, n, q);
      if |g| > 0 {
        out := out + [MetricsFor(rows, model, q)];
      }
      n := n + 1;
    }
    assert models[..n] == models;
    assert out == MetricsTable(rows, q);
    if |out| == 0 {
      result := Err(NoModelColumn);
    } else {
      result := Ok(out);
    }
  }

  /** A prefix free of zero capacities stays so when the next model's
      capacity is not 0. */
  lemma {:induction false} NoZeroStep(rows: seq<CostRow>, models: seq<string>, n: nat, q: real)
    requires 0.0 <= q <= 1.0 && n < |models|
    requires NoZeroCapacity(rows, models[..n]) && !ZeroCapacity(rows, models[n])
    ensures NoZeroCapacity(rows, models[..n + 1])
  {
    var next := models[..n + 1];
    forall k | 0 <= k < |next| ensures !ZeroCapacity(rows, next[k]) {
      if k < n {
        assert next[k] == models[..n][k];
      }
    }
  }

  /** Listing one more model appends its row when it has a complete row. */
  lemma {:induction false} MetricsOfStep(rows: seq<CostRow>, models: seq<string>, n: nat, q: real)
    requires 0.0 <= q <= 1.0 && n < |models| && NoZeroCapacity(rows, models[..n + 1])
    ensures MetricsOf(rows, models[..n + 1], q) ==
              MetricsOf(rows, models[..n], q) +
              (if |Complete(rows, models[n])| > 0 then [MetricsFor(rows, models[n], q)] else [])
  {
    assert models[..n + 1][..n] == models[..n];
  }

  /** The model has a row with both forecast and actual present. */
  predicate HasComplete(rows: seq<CostRow>, model: string)
  {
    exists i :: 0 <= i < |rows| && rows[i].model == model &&
                rows[i].forecastConsumption.Some? && rows[i].actualConsumption.Some?
  }

  /** The metrics table has a row for the model. */
  predicate Listed(out: seq<Metrics>, model: string)
  {
    exists k :: 0 <= k < |out| && out[k].model == model
  }

  lemma {:induction false} CompleteMember(rows: seq<CostRow>, model: string)
    ensures |Complete(rows, model)| > 0 <==> HasComplete(rows, model)
  {
    if |rows| > 0 {
      var init := rows[..|rows| - 1];
      CompleteMember(init, model);
      assert forall i :: 0 <= i < |init| ==> init[i] == rows[i];
      if HasComplete(rows, model) && |Complete(init, model)| == 0 {
        var i :| 0 <= i < |rows| && rows[i].model == model &&
                 rows[i].forecastConsumption.Some? && rows[i].actualConsumption.Some?;
        assert i == |rows| - 1;
      }
    }
  }

  /** Each row of MetricsOf is the metrics of a listed model with a
      complete row. */
  lemma {:induction false} MetricsOfRows(rows: seq<CostRow>, models: seq<string>, q: real)
    requires 0.0 <= q <= 1.0 && NoZeroCapacity(rows, models)
    ensures forall k :: 0 <= k < |MetricsOf(rows, models, q)| ==>
              MetricsOf(rows, models, q)[k].model in models &&
              |Complete(rows, MetricsOf(rows, models, q)[k].model)| > 0 &&
              !ZeroCapacity(rows, MetricsOf(rows, models, q)[k].model) &&
              MetricsOf(rows, models, q)[k] == MetricsFor(rows, MetricsOf(rows, models, q)[k].model, q)
  {
    if |models| > 0 {
      var init := models[..|models| - 1];
      MetricsOfRows(rows, init, q);
      var out := MetricsOf(rows, models, q);
      var prev := MetricsOf(rows, init, q);
      forall k | 0 <= k < |out|
        ensures out[k].model in models && |Complete(rows, out[k].model)| > 0 &&
                !ZeroCapacity(rows, out[k].model) &&
                out[k] == MetricsFor(rows, out[k].model, q)
      {
        if k < |prev| {
          assert out[k] == prev[k];
          assert prev[k].model in init;
        }
      }
    }
  }

  /** Every listed model with a complete row has its row in MetricsOf. */
  lemma {:induction false} MetricsOfComplete(rows: seq<CostRow>, models: seq<string>, q: real, m: string)
    requires 0.0 <= q <= 1.0 && NoZeroCapacity(rows, models)
    requires m in models && |Complete(rows, m)| > 0
    ensures Listed(MetricsOf(rows, models, q), m)
  {
    var n := |models| - 1;
    var init := models[..n];
    var out := MetricsOf(rows, models, q);
    var prev := MetricsOf(rows, init, q);
    if m == models[n] {
      assert out[|out| - 1] == MetricsFor(rows, m, q);
    } else {
      InInit(models, m);
      MetricsOfComplete(rows, init, q, m);
      var k :| 0 <= k < |prev| && prev[k].model == m;
      assert out[k] == prev[k];
    }
  }

  /** A member other than the last one is a member of the list without its last element. */
  lemma {:induction false} InInit(models: seq<string>, m: string)
    requires m in models && m != models[|models| - 1]
    ensures m in models[..|models| - 1]
  {
    var k :| 0 <= k < |models| && models[k] == m;
    assert models[..|models| - 1][k] == m;
  }

  lemma {:induction false} MetricsOfSorted(rows: seq<CostRow>, models: seq<string>, q: real)
    requires 0.0 <= q <= 1.0 && StrictlySorted(models) && NoZeroCapacity(rows, models)
    ensures forall i, j :: 0 <= i < j < |MetricsOf(rows, models, q)| ==>
              Below(MetricsOf(rows, models, q)[i].model, MetricsOf(rows, models, q)[j].model)
  {
    if |models| > 0 {
      var init := models[..|models| - 1];
      var last := models[|models| - 1];
      assert StrictlySorted(init) by {
        forall i, j | 0 <= i < j < |init| ensures Below(init[i], init[j]) {
          assert init[i] == models[i] && init[j] == models[j];
        }
      }
      MetricsOfSorted(rows, init, q);
      MetricsOfRows(rows, init, q);
      var prev := MetricsOf(rows, init, q);
      var out := MetricsOf(rows, models, q);
      forall i, j | 0 <= i < j < |out| ensures Below(out[i].model, out[j].model) {
        assert out[i] == prev[i];
        if j < |prev| {
          assert out[j] == prev[j];
        } else {
          assert out[j].model == last;
          var k :| 0 <= k < |init| && init[k] == prev[i].model;
          assert Below(models[k], models[|models| - 1]);
        }
      }
    }
  }

  /** The metrics table lists, in ascending order, exactly the models that
      have a row with both forecast and actual present, and each row holds
      the metrics of its own model. */
  lemma {:induction false} MetricsModels(rows: seq<CostRow>, q: real)
    requires 0.0 <= q <= 1.0 && NoZeroCapacity(rows, Models(rows))
    ensures var out := MetricsTable(rows, q);
            (forall i, j :: 0 <= i < j < |out| ==> Below(out[i].model, out[j].model)) &&
            (forall m :: Listed(out, m) <==> HasComplete(rows, m)) &&
            (forall k :: 0 <= k < |out| ==> |Complete(rows, out[k].model)| > 0 &&
                                            out[k] == MetricsFor(rows, out[k].model, q))
  {
    var models := Models(rows);
    var out := MetricsTable(rows, q);
    MetricsOfSorted(rows, models, q);
    MetricsOfRows(rows, models, q);
    forall m ensures Listed(out, m) <==> HasComplete(rows, m) {
      CompleteMember(rows, m);
      if HasComplete(rows, m) {
        var i :| 0 <= i < |rows| && rows[i].model == m &&
                 rows[i].forecastConsumption.Some? && rows[i].actualConsumption.Some?;
        assert m in models;
        MetricsOfComplete(rows, models, q, m);
      }
    }
  }

  /** The metrics table is empty, and the computation fails on
      `set_index`, exactly when no row has both forecast and actual present. */
  lemma {:induction false} MetricsEmptyIff(rows: seq<CostRow>, q: real)
    requires 0.0 <= q <= 1.0 && NoZeroCapacity(rows, Models(rows))
    ensures MetricsTable(rows, q) == [] <==>
              forall i :: 0 <= i < |rows| ==> rows[i].forecastConsumption.None? || rows[i].actualConsumption.None?
  {
    var out := MetricsTable(rows, q);
    MetricsModels(rows, q);
    if out != [] {
      assert Listed(out, out[0].model);
    } else {
      forall i | 0 <= i < |rows|
        ensures rows[i].forecastConsumption.None? || rows[i].actualConsumption.None?
      {
        assert !Listed(out, rows[i].model);
      }
    }
  }

  /** The mean absolute error is not negative. */
  lemma {:induction false} MaeNonNegative(p: seq<(real, real)>)
    requires |p| > 0
    ensures Mean(AbsErrors(p)) >= 0.0
  {
    var e := AbsErrors(p);
    MinMaxBound(e);
    MeanBetweenMinMax(e);
    var k :| 0 <= k < |e| && e[k] == Min(e);
  }

  /** The capacity is the quantile when that is positive and the maximum
      otherwise, and the quantile lies between the smallest and the largest
      actual. */
  lemma {:induction false} CapacityFacts(actuals: seq<real>, q: real)
    requires |actuals| > 0 && 0.0 <= q <= 1.0
    ensures var quantile := Quantile(SortReals(actuals), q);
            Min(actuals) <= quantile <= Max(actuals) &&
            Capacity(actuals, q) == (if quantile > 0.0 then quantile else Max(actuals))
  {
    SortedEnds(actuals);
    QuantileBounds(SortReals(actuals), q);
  }

  /** The computation fails on the nMAE division exactly when some model has
      a complete row and the largest actual of its complete rows is 0 (with
      consumption never negative: all its actuals are 0). */
  lemma {:induction false} DivisionByZeroIff(rows: seq<CostRow>, q: real)
    requires 0.0 <= q <= 1.0
    ensures !NoZeroCapacity(rows, Models(rows)) <==>
              exists i :: 0 <= i < |rows| && |Complete(rows, rows[i].model)| > 0 &&
                          Max(ActualValues(Complete(rows, rows[i].model))) == 0.0
  {
    var models := Models(rows);
    if !NoZeroCapacity(rows, models) {
      var k :| 0 <= k < |models| && ZeroCapacity(rows, models[k]);
      assert models[k] in models;
      var i :| 0 <= i < |rows| && rows[i].model == models[k];
      assert Max(ActualValues(Complete(rows, rows[i].model))) == 0.0;
    }
    forall i | 0 <= i < |rows| && |Complete(rows, rows[i].model)| > 0 &&
               Max(ActualValues(Complete(rows, rows[i].model))) == 0.0
      ensures !NoZeroCapacity(rows, models)
    {
      var m := rows[i].model;
      assert m in models;
      var k :| 0 <= k < |models| && models[k] == m;
      assert ZeroCapacity(rows, models[k]);
    }
  }

  /** A model's metrics: MAE is the mean absolute error over its complete
      rows and is not negative; the capacity is that of its actuals; nMAE is
      MAE as a percentage of the capacity, not negative when the capacity is
      positive. */
  lemma {:induction false} ModelMetricsFacts(rows: seq<CostRow>, model: string, q: real)
    requires 0.0 <= q <= 1.0 && |Complete(rows, model)| > 0 && !ZeroCapacity(rows, model)
    ensures var x := MetricsFor(rows, model, q);
            var p := Complete(rows, model);
            x.maeKwh == Mean(AbsErrors(p)) && x.maeKwh >= 0.0 &&
            x.capacityKwh == Capacity(ActualValues(p), q) &&
            x.nmaePct == Nmae(x.maeKwh, x.capacityKwh) &&
            (x.capacityKwh > 0.0 ==> x.nmaePct >= 0.0)
  {
    var p := Complete(rows, model);
    MaeNonNegative(p);
  }
}
