/** The coverage check of src/weather/era5_coverage.py
    (check_era5_coverage): which active postal codes have an ERA5 weather
    file. The directory listing is an input (the set of file names); a file
    `era5_<code>.csv` covers the code that remains of its stem once every
    `era5_` is removed. */
module Era5Coverage {
  import opened Values
  import opened StringOrder
  import PlzWeights
  import Calendar

  const Prefix: string := "era5_"
  const Suffix: string := ".csv"

  /** The file names the pattern `era5_*.csv` matches. */
  predicate MatchesPattern(name: string)
  {
    |name| >= |Prefix| + |Suffix| && name[..|Prefix|] == Prefix && name[|name| - |Suffix|..] == Suffix
  }

  /** The file name without its last suffix (`Path.stem`). */
  function Stem(name: string): (stem: string)
    requires MatchesPattern(name)
    ensures name == stem + Suffix
  {
    name[..|name| - |Suffix|]
  }

  /** `s.replace(pat, "")`: the occurrences of pat found scanning s left to
      right, without overlaps, are deleted; the result is not scanned again. */
  function RemoveAll(s: string, pat: string): (r: string)
    requires |pat| > 0
    ensures |r| <= |s|
    decreases |s|
  {
    if |s| < |pat| then s
    else if s[..|pat|] == pat then RemoveAll(s[|pat|..], pat)
    else [s[0]] + RemoveAll(s[1..], pat)
  }

  predicate OccursAt(s: string, pat: string, i: int)
  {
    0 <= i <= |s| - |pat| && s[i..i + |pat|] == pat
  }

  predicate Occurs(s: string, pat: string)
  {
    exists i :: 0 <= i <= |s| && OccursAt(s, pat, i)
  }

  /** A string without an occurrence of the pattern is left as it is. */
  lemma {:induction false} RemoveAllAbsent(s: string, pat: string)
    requires |pat| > 0 && !Occurs(s, pat)
    ensures RemoveAll(s, pat) == s
    decreases |s|
  {
    if |s| >= |pat| {
      assert s[0..|pat|] == s[..|pat|];
      assert !OccursAt(s, pat, 0);
      if Occurs(s[1..], pat) {
        var i :| 0 <= i <= |s[1..]| && OccursAt(s[1..], pat, i);
        assert s[i + 1..i + 1 + |pat|] == s[1..][i..i + |pat|];
        assert OccursAt(s, pat, i + 1);
      }
      RemoveAllAbsent(s[1..], pat);
      assert s == [s[0]] + s[1..];
    }
  }

  /** The deletion is a single pass: removing `era5_` from the middle of
      `eraera5_5_` joins the rest into a new `era5_`, which stays. */
  lemma {:induction false} SinglePass()
    ensures RemoveAll("eraera5_5_", Prefix) == Prefix
  {
    var s := "eraera5_5_";
    assert s[..5] != Prefix by { assert s[3] != Prefix[3]; }
    assert s[1..][..5] != Prefix by { assert s[1] != Prefix[0]; }
    assert s[2..][..5] != Prefix by { assert s[2] != Prefix[0]; }
    assert s[3..][..5] == Prefix;
    assert s[1..][1..] == s[2..] && s[2..][1..] == s[3..] && s[3..][5..] == "5_";
  }

  /** The postal codes that have a weather file. */
  function ExistingCodes(files: set<string>): set<string>
  {
    set f | f in files && MatchesPattern(f) :: RemoveAll(Stem(f), Prefix)
  }

  /** The file `era5_<code>.csv` covers the code, provided the code itself
      does not contain `era5_`. */
  lemma {:induction false} FileCoversCode(files: set<string>, code: string)
    requires Prefix + code + Suffix in files && !Occurs(code, Prefix)
    ensures code in ExistingCodes(files)
  {
    var f := Prefix + code + Suffix;
    assert f[..|Prefix|] == Prefix && f[|f| - |Suffix|..] == Suffix;
    assert Stem(f) == Prefix + code;
    assert (Prefix + code)[..|Prefix|] == Prefix && (Prefix + code)[|Prefix|..] == code;
    RemoveAllAbsent(code, Prefix);
  }

  // ---------------- partition of the active codes ----------------

  function Codes(w: PlzWeights.Weights): (c: seq<string>)
    ensures |c| == |w| && forall k :: 0 <= k < |w| ==> c[k] == w[k].0
  {
    seq(|w|, k requires 0 <= k < |w| => w[k].0)
  }

  /** The weighted codes that have a file (inside) or lack one (not inside),
      in order. */
  function Part(w: PlzWeights.Weights, existing: set<string>, inside: bool): (r: PlzWeights.Weights)
    ensures |r| <= |w|
  {
    if |w| == 0 then []
    else Part(w[..|w| - 1], existing, inside) +
           (if (w[|w| - 1].0 in existing) == inside then [w[|w| - 1]] else [])
  }

  lemma {:induction false} PartMember(w: PlzWeights.Weights, existing: set<string>, inside: bool)
    ensures forall p :: p in Part(w, existing, inside) <==> p in w && (p.0 in existing) == inside
  {
    if |w| > 0 {
      PartMember(w[..|w| - 1], existing, inside);
      assert w == w[..|w| - 1] + [w[|w| - 1]];
    }
  }

  lemma {:induction false} PartSorted(w: PlzWeights.Weights, existing: set<string>, inside: bool)
    requires PlzWeights.SortedByCode(w)
    ensures PlzWeights.SortedByCode(Part(w, existing, inside))
  {
    if |w| > 0 {
      var init := w[..|w| - 1];
      PartSorted(init, existing, inside);
      PartMember(init, existing, inside);
      var f := Part(init, existing, inside);
      forall i | 0 <= i < |f| ensures Below(f[i].0, w[|w| - 1].0) {
        assert f[i] in init;
      }
    }
  }

  lemma {:induction false} PartSizes(w: PlzWeights.Weights, existing: set<string>)
    ensures |Part(w, existing, true)| + |Part(w, existing, false)| == |w|
  {
    if |w| > 0 {
      PartSizes(w[..|w| - 1], existing);
    }
  }

  lemma {:induction false} AmountsSnoc(w: PlzWeights.Weights, p: (string, real))
    ensures Sum(PlzWeights.Amounts(w + [p])) == Sum(PlzWeights.Amounts(w)) + p.1
  {
    var a := PlzWeights.Amounts(w + [p]);
    assert a[..|a| - 1] == PlzWeights.Amounts(w);
  }

  /** The two parts share out the total weight. */
  lemma {:induction false} PartSums(w: PlzWeights.Weights, existing: set<string>)
    ensures Sum(PlzWeights.Amounts(Part(w, existing, true))) + Sum(PlzWeights.Amounts(Part(w, existing, false))) ==
            Sum(PlzWeights.Amounts(w))
  {
    if |w| > 0 {
      var init := w[..|w| - 1];
      var p := w[|w| - 1];
      assert w == init + [p];
      PartSums(init, existing);
      AmountsSnoc(init, p);
      if p.0 in existing {
        AmountsSnoc(Part(init, existing, true), p);
        assert Part(w, existing, true) == Part(init, existing, true) + [p];
        assert Part(w, existing, false) == Part(init, existing, false) + [];
        assert Part(w, existing, false) == Part(init, existing, false);
      } else {
        AmountsSnoc(Part(init, existing, false), p);
        assert Part(w, existing, false) == Part(init, existing, false) + [p];
        assert Part(w, existing, true) == Part(init, existing, true) + [];
        assert Part(w, existing, true) == Part(init, existing, true);
      }
    }
  }

  lemma {:induction false} SortedCodes(w: PlzWeights.Weights)
    requires PlzWeights.SortedByCode(w)
    ensures StrictlySorted(Codes(w))
  {
  }

  lemma {:induction false} CodesMember(w: PlzWeights.Weights)
    ensures forall c :: c in Codes(w) <==> exists k :: 0 <= k < |w| && w[k].0 == c
  {
    forall c | c in Codes(w) ensures exists k :: 0 <= k < |w| && w[k].0 == c {
      var k :| 0 <= k < |Codes(w)| && Codes(w)[k] == c;
    }
  }

  // ---------------- the report ----------------

  datatype Report = Report(
    referenceDay: Calendar.Date,
    nActivePlz: nat,
    nWithEra5: nat,
    nMissing: nat,
    coveragePct: real,
    missingPlz: seq<string>)

  /** Midnight UTC of the reference day, in seconds since 1970-01-01. */
  function ReferenceTime(day: Calendar.Date): int
    requires Calendar.ValidDate(day)
  {
    (Calendar.Ordinal(day) - Calendar.EpochOrdinal) * PlzWeights.DaySeconds
  }

  /** The report for the active postal codes of the look-back window before
      the reference day, or the error when there are none. */
  function CheckEra5Coverage(rows: seq<PlzWeights.GenRecord>, files: set<string>, referenceDay: Calendar.Date,
                             lookbackDays: int): (r: Result<Report>)
    requires Calendar.ValidDate(referenceDay)
    ensures r.Err? <==>
              PlzWeights.GetActivePlz(rows, ReferenceTime(referenceDay), lookbackDays, PlzWeights.DefaultMinGeneration).Err?
  {
    var weights := PlzWeights.GetActivePlz(rows, ReferenceTime(referenceDay), lookbackDays, PlzWeights.DefaultMinGeneration);
    if weights.Err? then Err(weights.message)
    else
      var w := weights.value;
      var existing := ExistingCodes(files);
      var missing := Codes(Part(w, existing, false));
      var covered := Part(w, existing, true);
      var coverage := if |covered| > 0 then Sum(PlzWeights.Amounts(covered)) else 0.0;
      Ok(Report(referenceDay, |Elements(Codes(w))|, |covered|, |missing|, coverage * 100.0, missing))
  }

  /** Missing codes are the active codes without a file, ascending and
      without repeats; the counts add up to the number of active codes. */
  lemma {:induction false} ReportPartition(rows: seq<PlzWeights.GenRecord>, files: set<string>, referenceDay: Calendar.Date, lookbackDays: int)
    requires Calendar.ValidDate(referenceDay)
    requires CheckEra5Coverage(rows, files, referenceDay, lookbackDays).Ok?
    ensures var w := PlzWeights.GetActivePlz(rows, ReferenceTime(referenceDay), lookbackDays, PlzWeights.DefaultMinGeneration).value;
            var report := CheckEra5Coverage(rows, files, referenceDay, lookbackDays).value;
            StrictlySorted(report.missingPlz) &&
            Elements(report.missingPlz) == Elements(Codes(w)) - ExistingCodes(files) &&
            report.nActivePlz == |w| &&
            report.nMissing == |report.missingPlz| &&
            report.nMissing + report.nWithEra5 == report.nActivePlz
  {
    var refTime := ReferenceTime(referenceDay);
    var min := PlzWeights.DefaultMinGeneration;
    var w := PlzWeights.GetActivePlz(rows, refTime, lookbackDays, min).value;
    PlzWeights.WeightsNormalised(rows, refTime, lookbackDays, min);
    MissingPart(w, ExistingCodes(files));
  }

  /** Of codes in ascending order, the ones without a file ascend too and
      are exactly the codes outside the existing set; the codes are
      distinct, and the two parts share them out. */
  lemma {:induction false} MissingPart(w: PlzWeights.Weights, existing: set<string>)
    requires PlzWeights.SortedByCode(w)
    ensures StrictlySorted(Codes(Part(w, existing, false)))
    ensures Elements(Codes(Part(w, existing, false))) == Elements(Codes(w)) - existing
    ensures |Elements(Codes(w))| == |w|
    ensures |Part(w, existing, true)| + |Part(w, existing, false)| == |w|
  {
    SortedCodes(w);
    SortedCardinality(Codes(w));
    PartSorted(w, existing, false);
    SortedCodes(Part(w, existing, false));
    PartSizes(w, existing);
    PartMember(w, existing, false);
    var missing := Codes(Part(w, existing, false));
    CodesMember(w);
    CodesMember(Part(w, existing, false));
    forall c ensures c in Elements(missing) <==> c in Elements(Codes(w)) - existing {
      if c in Elements(Codes(w)) - existing {
        var k :| 0 <= k < |w| && w[k].0 == c;
        assert w[k] in Part(w, existing, false);
      }
      if c in Elements(missing) {
        var k :| 0 <= k < |Part(w, existing, false)| && Part(w, existing, false)[k].0 == c;
        assert Part(w, existing, false)[k] in Part(w, existing, false);
      }
    }
  }

  /** The covered share of the weight lies in [0, 1] and is 1 exactly when
      no active code is missing. */
  lemma {:induction false} CoverageBounds(rows: seq<PlzWeights.GenRecord>, files: set<string>, referenceDay: Calendar.Date, lookbackDays: int)
    requires Calendar.ValidDate(referenceDay)
    requires CheckEra5Coverage(rows, files, referenceDay, lookbackDays).Ok?
    ensures var report := CheckEra5Coverage(rows, files, referenceDay, lookbackDays).value;
            0.0 <= report.coveragePct <= 100.0 &&
            (report.coveragePct == 100.0 <==> report.nMissing == 0)
  {
    var refTime := ReferenceTime(referenceDay);
    var min := PlzWeights.DefaultMinGeneration;
    var w := PlzWeights.GetActivePlz(rows, refTime, lookbackDays, min).value;
    var existing := ExistingCodes(files);
    PlzWeights.WeightsNormalised(rows, refTime, lookbackDays, min);
    var inside, outside := Part(w, existing, true), Part(w, existing, false);
    PartSums(w, existing);
    PartMember(w, existing, true);
    PartMember(w, existing, false);
    forall k | 0 <= k < |inside| ensures PlzWeights.Amounts(inside)[k] > 0.0 {
      assert inside[k] in w;
    }
    forall k | 0 <= k < |outside| ensures PlzWeights.Amounts(outside)[k] > 0.0 {
      assert outside[k] in w;
    }
    SumNonNegative(PlzWeights.Amounts(inside));
    SumNonNegative(PlzWeights.Amounts(outside));
    if |outside| > 0 {
      ElementAtMostSum(PlzWeights.Amounts(outside), 0);
    }
    if |inside| == 0 {
      assert PlzWeights.Amounts(inside) == [];
    }
  }
}
