/** The weights of the active postal codes of src/weather/plz_weights.py
    (get_active_plz): the generation readings of a look-back window before a
    reference time are summed per postal code, codes below a minimum total
    are dropped, and the remaining totals are divided by their sum. Times are
    whole seconds since 1970-01-01 UTC. */
module PlzWeights {
  import opened Values
  import opened StringOrder

  datatype GenRecord = GenRecord(time: int, postalCode: string, generation: Option<real>)

  /** Postal codes with their weights, in ascending code order. */
  type Weights = seq<(string, real)>

  const DaySeconds: int := 86400
  const DefaultLookbackDays: int := 42
  const DefaultMinGeneration: real := 1.0
  const NoActiveCodes: string := "Keine aktiven PLZ im Lookback-Fenster"

  function WindowStart(referenceTime: int, lookbackDays: int): int
  {
    referenceTime - lookbackDays * DaySeconds
  }

  /** The readings of the window [reference - lookback days, reference). */
  function InWindow(rows: seq<GenRecord>, referenceTime: int, lookbackDays: int): (r: seq<GenRecord>)
    ensures |r| <= |rows|
  {
    if |rows| == 0 then []
    else
      var x := rows[|rows| - 1];
      InWindow(rows[..|rows| - 1], referenceTime, lookbackDays) +
        (if WindowStart(referenceTime, lookbackDays) <= x.time < referenceTime then [x] else [])
  }

  lemma {:induction false} InWindowMember(rows: seq<GenRecord>, referenceTime: int, lookbackDays: int)
    ensures forall x :: x in InWindow(rows, referenceTime, lookbackDays) <==>
              x in rows && WindowStart(referenceTime, lookbackDays) <= x.time < referenceTime
  {
    if |rows| > 0 {
      InWindowMember(rows[..|rows| - 1], referenceTime, lookbackDays);
      assert rows == rows[..|rows| - 1] + [rows[|rows| - 1]];
    }
  }

  /** The set of postal codes of some readings. */
  function CodeSet(rows: seq<GenRecord>): set<string>
  {
    set i | 0 <= i < |rows| :: rows[i].postalCode
  }

  /** The distinct postal codes of the readings, ascending (the group keys). */
  function PostalCodes(rows: seq<GenRecord>): (codes: seq<string>)
    ensures StrictlySorted(codes)
    ensures Elements(codes) == CodeSet(rows)
  {
    if |rows| == 0 then []
    else
      var init := rows[..|rows| - 1];
      assert CodeSet(rows) == CodeSet(init) + {rows[|rows| - 1].postalCode} by {
        assert forall i :: 0 <= i < |init| ==> init[i] == rows[i];
      }
      Insert(PostalCodes(init), rows[|rows| - 1].postalCode)
  }

  /** The summed generation of one postal code, NaN readings skipped. */
  function GroupSum(rows: seq<GenRecord>, code: string): real
  {
    if |rows| == 0 then 0.0
    else
      var x := rows[|rows| - 1];
      GroupSum(rows[..|rows| - 1], code) + (if x.postalCode == code && x.generation.Some? then x.generation.value else 0.0)
  }

  /** Each postal code with its summed generation (`groupby(...).sum()`). */
  function Grouped(rows: seq<GenRecord>): (g: Weights)
    ensures |g| == |PostalCodes(rows)|
    ensures forall k :: 0 <= k < |g| ==> g[k] == (PostalCodes(rows)[k], GroupSum(rows, PostalCodes(rows)[k]))
  {
    var codes := PostalCodes(rows);
    seq(|codes|, k requires 0 <= k < |codes| => (codes[k], GroupSum(rows, codes[k])))
  }

  /** The entries whose total reaches the minimum, in order. */
  function AtLeast(g: Weights, minGeneration: real): (r: Weights)
    ensures |r| <= |g|
  {
    if |g| == 0 then []
    else AtLeast(g[..|g| - 1], minGeneration) + (if g[|g| - 1].1 >= minGeneration then [g[|g| - 1]] else [])
  }

  function Amounts(w: Weights): (a: seq<real>)
    ensures |a| == |w| && forall k :: 0 <= k < |w| ==> a[k] == w[k].1
  {
    seq(|w|, k requires 0 <= k < |w| => w[k].1)
  }

  predicate SortedByCode(w: Weights)
  {
    forall i, j :: 0 <= i < j < |w| ==> Below(w[i].0, w[j].0)
  }

  /** Every total divided by the sum of the totals. */
  function Normalise(g: Weights): (w: Weights)
    requires Sum(Amounts(g)) != 0.0
    ensures |w| == |g|
    ensures forall k :: 0 <= k < |g| ==> w[k].0 == g[k].0
    ensures ProportionalTo(w, g)
  {
    var total := Sum(Amounts(g));
    seq(|g|, k requires 0 <= k < |g| => (g[k].0, g[k].1 / total))
  }

  /** The active postal codes and their weights, or the error raised when no
      postal code reaches the minimum generation in the window. */
  function GetActivePlz(rows: seq<GenRecord>, referenceTime: int, lookbackDays: int, minGeneration: real): (r: Result<Weights>)
    requires minGeneration > 0.0
    ensures r.Err? ==> r.message == NoActiveCodes
    ensures r.Ok? ==> |r.value| > 0
  {
    var kept := Active(rows, referenceTime, lookbackDays, minGeneration);
    if |kept| == 0 then Err(NoActiveCodes)
    else
      ActiveSortedAndBounded(rows, referenceTime, lookbackDays, minGeneration);
      ActiveTotalPositive(kept, minGeneration);
      Ok(Normalise(kept))
  }

  /** The summed totals that reach the minimum, before normalising. */
  function Active(rows: seq<GenRecord>, referenceTime: int, lookbackDays: int, minGeneration: real): Weights
  {
    AtLeast(Grouped(InWindow(rows, referenceTime, lookbackDays)), minGeneration)
  }

  lemma {:induction false} AtLeastMember(g: Weights, minGeneration: real)
    ensures forall p :: p in AtLeast(g, minGeneration) <==> p in g && p.1 >= minGeneration
  {
    if |g| > 0 {
      AtLeastMember(g[..|g| - 1], minGeneration);
      assert g == g[..|g| - 1] + [g[|g| - 1]];
    }
  }

  lemma {:induction false} AtLeastSorted(g: Weights, minGeneration: real)
    requires SortedByCode(g)
    ensures SortedByCode(AtLeast(g, minGeneration))
  {
    if |g| > 0 {
      var init := g[..|g| - 1];
      AtLeastSorted(init, minGeneration);
      AtLeastMember(init, minGeneration);
      var f := AtLeast(init, minGeneration);
      forall i | 0 <= i < |f| ensures Below(f[i].0, g[|g| - 1].0) {
        assert f[i] in init;
      }
    }
  }

  lemma {:induction false} AtLeastBound(g: Weights, minGeneration: real)
    ensures forall k :: 0 <= k < |AtLeast(g, minGeneration)| ==> AtLeast(g, minGeneration)[k].1 >= minGeneration
  {
    AtLeastMember(g, minGeneration);
    forall k | 0 <= k < |AtLeast(g, minGeneration)| ensures AtLeast(g, minGeneration)[k].1 >= minGeneration {
      assert AtLeast(g, minGeneration)[k] in AtLeast(g, minGeneration);
    }
  }

  lemma {:induction false} ActiveTotalPositive(kept: Weights, minGeneration: real)
    requires minGeneration > 0.0 && |kept| > 0
    requires forall k :: 0 <= k < |kept| ==> kept[k].1 >= minGeneration
    ensures Sum(Amounts(kept)) > 0.0
  {
    ElementAtMostSum(Amounts(kept), 0);
  }

  lemma {:induction false} ActiveSortedAndBounded(rows: seq<GenRecord>, referenceTime: int, lookbackDays: int, minGeneration: real)
    ensures SortedByCode(Active(rows, referenceTime, lookbackDays, minGeneration))
    ensures forall k :: 0 <= k < |Active(rows, referenceTime, lookbackDays, minGeneration)| ==>
              Active(rows, referenceTime, lookbackDays, minGeneration)[k].1 >= minGeneration
  {
    var g := Grouped(InWindow(rows, referenceTime, lookbackDays));
    AtLeastSorted(g, minGeneration);
    AtLeastBound(g, minGeneration);
  }

  /** A postal code is active exactly when it has a reading in the window
      and its readings there sum to at least the minimum; its raw weight is
      that sum. */
  lemma {:induction false} ActiveIff(rows: seq<GenRecord>, referenceTime: int, lookbackDays: int, minGeneration: real, code: string, total: real)
    ensures (code, total) in Active(rows, referenceTime, lookbackDays, minGeneration) <==>
              (exists i :: 0 <= i < |rows| && rows[i].postalCode == code &&
                 WindowStart(referenceTime, lookbackDays) <= rows[i].time < referenceTime) &&
              total == GroupSum(InWindow(rows, referenceTime, lookbackDays), code) &&
              total >= minGeneration
  {
    if (code, total) in Active(rows, referenceTime, lookbackDays, minGeneration) {
      ActiveHasReading(rows, referenceTime, lookbackDays, minGeneration, code, total);
    }
    if (exists i :: 0 <= i < |rows| && rows[i].postalCode == code &&
                 WindowStart(referenceTime, lookbackDays) <= rows[i].time < referenceTime) &&
       total == GroupSum(InWindow(rows, referenceTime, lookbackDays), code) && total >= minGeneration {
      ReadingActive(rows, referenceTime, lookbackDays, minGeneration, code, total);
    }
  }

  lemma {:induction false} ActiveHasReading(rows: seq<GenRecord>, referenceTime: int, lookbackDays: int, minGeneration: real, code: string, total: real)
    requires (code, total) in Active(rows, referenceTime, lookbackDays, minGeneration)
    ensures (exists i :: 0 <= i < |rows| && rows[i].postalCode == code &&
                 WindowStart(referenceTime, lookbackDays) <= rows[i].time < referenceTime)
    ensures total == GroupSum(InWindow(rows, referenceTime, lookbackDays), code) && total >= minGeneration
  {
    var win := InWindow(rows, referenceTime, lookbackDays);
    var g := Grouped(win);
    var codes := PostalCodes(win);
    AtLeastMember(g, minGeneration);
    InWindowMember(rows, referenceTime, lookbackDays);
    var k :| 0 <= k < |g| && g[k] == (code, total);
    assert codes[k] in Elements(codes);
    var i :| 0 <= i < |win| && win[i].postalCode == code;
    assert win[i] in win;
    var j :| 0 <= j < |rows| && rows[j] == win[i];
  }

  lemma {:induction false} ReadingActive(rows: seq<GenRecord>, referenceTime: int, lookbackDays: int, minGeneration: real, code: string, total: real)
    requires (exists i :: 0 <= i < |rows| && rows[i].postalCode == code &&
                 WindowStart(referenceTime, lookbackDays) <= rows[i].time < referenceTime)
    requires total == GroupSum(InWindow(rows, referenceTime, lookbackDays), code) && total >= minGeneration
    ensures (code, total) in Active(rows, referenceTime, lookbackDays, minGeneration)
  {
    var win := InWindow(rows, referenceTime, lookbackDays);
    var g := Grouped(win);
    var codes := PostalCodes(win);
    AtLeastMember(g, minGeneration);
    InWindowMember(rows, referenceTime, lookbackDays);
    var i :| 0 <= i < |rows| && rows[i].postalCode == code &&
         WindowStart(referenceTime, lookbackDays) <= rows[i].time < referenceTime;
    assert rows[i] in win;
    var j :| 0 <= j < |win| && win[j] == rows[i];
    assert code in CodeSet(win);
    assert code in Elements(codes);
    var k :| 0 <= k < |codes| && codes[k] == code;
    assert g[k] == (code, GroupSum(win, code));
  }

  /** The error is raised exactly when no postal code reaches the minimum. */
  lemma {:induction false} ErrIff(rows: seq<GenRecord>, referenceTime: int, lookbackDays: int, minGeneration: real)
    requires minGeneration > 0.0
    ensures GetActivePlz(rows, referenceTime, lookbackDays, minGeneration).Err? <==>
              forall i :: 0 <= i < |rows| && WindowStart(referenceTime, lookbackDays) <= rows[i].time < referenceTime ==>
                GroupSum(InWindow(rows, referenceTime, lookbackDays), rows[i].postalCode) < minGeneration
  {
    var kept := Active(rows, referenceTime, lookbackDays, minGeneration);
    if |kept| > 0 {
      var code, total := kept[0].0, kept[0].1;
      assert (code, total) in kept;
      ActiveIff(rows, referenceTime, lookbackDays, minGeneration, code, total);
    } else {
      forall i | 0 <= i < |rows| && WindowStart(referenceTime, lookbackDays) <= rows[i].time < referenceTime
        ensures GroupSum(InWindow(rows, referenceTime, lookbackDays), rows[i].postalCode) < minGeneration
      {
        var code := rows[i].postalCode;
        var total := GroupSum(InWindow(rows, referenceTime, lookbackDays), code);
        ActiveIff(rows, referenceTime, lookbackDays, minGeneration, code, total);
      }
    }
  }

  /** Each weight times the sum of the raw totals is its raw total. */
  predicate ProportionalTo(w: Weights, raw: Weights)
  {
    |w| == |raw| && forall k :: 0 <= k < |w| ==> w[k].1 * Sum(Amounts(raw)) == raw[k].1
  }

  /** Normalising positive totals gives weights in (0, 1] that sum to 1
      and are proportional to the totals. */
  lemma {:induction false} NormaliseFacts(kept: Weights)
    requires |kept| > 0
    requires forall k :: 0 <= k < |kept| ==> kept[k].1 > 0.0
    ensures Sum(Amounts(kept)) > 0.0
    ensures Sum(Amounts(Normalise(kept))) == 1.0
    ensures forall k :: 0 <= k < |kept| ==> 0.0 < Normalise(kept)[k].1 <= 1.0
    ensures ProportionalTo(Normalise(kept), kept)
  {
    ElementAtMostSum(Amounts(kept), 0);
    NormaliseSum(kept);
    forall k | 0 <= k < |kept|
      ensures 0.0 < Normalise(kept)[k].1 <= 1.0
      ensures Normalise(kept)[k].1 * Sum(Amounts(kept)) == kept[k].1
    {
      NormaliseEntry(kept, k);
    }
  }

  lemma {:induction false} NormaliseSum(kept: Weights)
    requires Sum(Amounts(kept)) > 0.0
    ensures Sum(Amounts(Normalise(kept))) == 1.0
  {
    var raw := Amounts(kept);
    var total := Sum(raw);
    var scaled := Amounts(Normalise(kept));
    forall k | 0 <= k < |kept|
      ensures scaled[k] == raw[k] / total
    {
    }
    SumScaled(raw, scaled, total);
    assert total / total == 1.0;
  }

  lemma {:induction false} NormaliseEntry(kept: Weights, k: int)
    requires forall i :: 0 <= i < |kept| ==> kept[i].1 > 0.0
    requires 0 <= k < |kept|
    ensures Sum(Amounts(kept)) > 0.0
    ensures 0.0 < Normalise(kept)[k].1 <= 1.0
    ensures Normalise(kept)[k].1 * Sum(Amounts(kept)) == kept[k].1
  {
    var raw := Amounts(kept);
    ElementAtMostSum(raw, k);
    var total := Sum(raw);
    assert Normalise(kept)[k].1 == raw[k] / total;
    DivideBounds(total, 0.0, raw[k], 1.0);
    assert raw[k] / total > 0.0;
  }

  /** The weights are proportional to the raw totals, each lies in (0, 1],
      they sum to 1, and the codes ascend. */
  lemma {:induction false} WeightsNormalised(rows: seq<GenRecord>, referenceTime: int, lookbackDays: int, minGeneration: real)
    requires minGeneration > 0.0
    requires GetActivePlz(rows, referenceTime, lookbackDays, minGeneration).Ok?
    ensures var w := GetActivePlz(rows, referenceTime, lookbackDays, minGeneration).value;
            var kept := Active(rows, referenceTime, lookbackDays, minGeneration);
            Sum(Amounts(w)) == 1.0 &&
            SortedByCode(w) &&
            |w| == |kept| &&
            (forall k :: 0 <= k < |w| ==> w[k].0 == kept[k].0) &&
            (forall k :: 0 <= k < |w| ==> 0.0 < w[k].1 <= 1.0) &&
            ProportionalTo(w, kept)
  {
    var kept := Active(rows, referenceTime, lookbackDays, minGeneration);
    ActiveSortedAndBounded(rows, referenceTime, lookbackDays, minGeneration);
    NormaliseFacts(kept);
    assert GetActivePlz(rows, referenceTime, lookbackDays, minGeneration).value == Normalise(kept);
    NormaliseSorted(kept);
  }

  /** Normalising keeps the codes, hence their order. */
  lemma {:induction false} NormaliseSorted(kept: Weights)
    requires Sum(Amounts(kept)) != 0.0
    requires SortedByCode(kept)
    ensures SortedByCode(Normalise(kept))
  {
    var w := Normalise(kept);
    forall i, j | 0 <= i < j < |w| ensures Below(w[i].0, w[j].0) {
      assert w[i].0 == kept[i].0 && w[j].0 == kept[j].0;
    }
  }
}
