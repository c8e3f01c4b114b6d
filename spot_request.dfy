/** The day-ahead price request of read_spot_price.py: the interval string
    `YYYY-MM-DDT000000/YYYY-MM-DDT000000` from a day to the next one (an
    ISO 8601 time interval written as start/end, section 4.4 of
    ISO 8601:2004, with an extended date and a basic time), the guard that
    refuses days after tomorrow (today is a parameter), and the request URL
    built from them. */
module SpotRequest {
  import opened Values
  import opened Calendar

  /** The dates Python's `date` can hold. */
  predicate PyDate(d: Date)
  {
    ValidDate(d) && 1 <= d.year <= 9999
  }

  /** The last date Python's `date` can hold; the day after it overflows. */
  const LastPyDate: Date := Date(9999, 12, 31)

  const DateOverflow: string := "date value out of range"
  const AfterTomorrow: string := "Date cannot be after tomorrow"
  const UrlPrefix: string := "https://transparency.apg.at/api/v1/EXAAD1P/Download/English/PT15M/"
  const UrlSuffix: string := "?p_exaaMode=EXAA_Full&resolution=PT15M"

  // ---------------- fixed-width decimal numbers ----------------

  function Pow10(w: nat): (p: nat)
    ensures p >= 1
  {
    if w == 0 then 1 else 10 * Pow10(w - 1)
  }

  predicate IsDigit(c: char)
  {
    '0' <= c <= '9'
  }

  /** n written in exactly w decimal digits, zero-padded on the left. */
  function Pad(n: nat, w: nat): (s: string)
    requires n < Pow10(w)
    ensures |s| == w
    ensures forall i :: 0 <= i < |s| ==> IsDigit(s[i])
  {
    if w == 0 then []
    else Pad(n / 10, w - 1) + [('0' as int + n % 10) as char]
  }

  /** The value of a string of decimal digits. */
  function DigitsValue(s: string): nat
  {
    if |s| == 0 then 0
    else
      var c := s[|s| - 1];
      DigitsValue(s[..|s| - 1]) * 10 + (if IsDigit(c) then c as int - '0' as int else 0)
  }

  lemma {:induction false} PadRoundTrip(n: nat, w: nat)
    requires n < Pow10(w)
    ensures DigitsValue(Pad(n, w)) == n
  {
    if w > 0 {
      PadRoundTrip(n / 10, w - 1);
      var s := Pad(n, w);
      assert s[..|s| - 1] == Pad(n / 10, w - 1);
    }
  }

  // ---------------- the interval string ----------------

  /** `day.strftime("%Y-%m-%dT000000")`. */
  function DayStamp(d: Date): (s: string)
    requires PyDate(d)
    ensures |s| == 17
  {
    Pad(d.year, 4) + "-" + Pad(d.month, 2) + "-" + Pad(d.day, 2) + "T000000"
  }

  /** The date written at the head of a stamp. */
  function ParseStamp(s: string): Date
    requires |s| >= 10
  {
    Date(DigitsValue(s[0..4]), DigitsValue(s[5..7]), DigitsValue(s[8..10]))
  }

  lemma {:induction false} StampParts(d: Date)
    requires PyDate(d)
    ensures DayStamp(d)[0..4] == Pad(d.year, 4)
    ensures DayStamp(d)[5..7] == Pad(d.month, 2)
    ensures DayStamp(d)[8..10] == Pad(d.day, 2)
    ensures DayStamp(d)[4] == '-' && DayStamp(d)[7] == '-' && DayStamp(d)[10..] == "T000000"
  {
    var y, m, dd := Pad(d.year, 4), Pad(d.month, 2), Pad(d.day, 2);
    var s := DayStamp(d);
    assert s == y + "-" + m + "-" + dd + "T000000";
  }

  /** Reading a stamp back gives the date it was written from. */
  lemma {:induction false} StampRoundTrip(d: Date)
    requires PyDate(d)
    ensures ParseStamp(DayStamp(d)) == d
  {
    StampParts(d);
    PadRoundTrip(d.year, 4);
    PadRoundTrip(d.month, 2);
    PadRoundTrip(d.day, 2);
  }

  /** A stamp holds no '/'. */
  lemma {:induction false} StampHasNoSlash(d: Date)
    requires PyDate(d)
    ensures forall i :: 0 <= i < 17 ==> DayStamp(d)[i] != '/'
  {
    StampParts(d);
    var s := DayStamp(d);
    forall i | 0 <= i < 17 ensures s[i] != '/' {
      if i < 4 {
        assert s[i] == Pad(d.year, 4)[i];
      } else if 5 <= i < 7 {
        assert s[i] == Pad(d.month, 2)[i - 5];
      } else if 8 <= i < 10 {
        assert s[i] == Pad(d.day, 2)[i - 8];
      } else if i >= 10 {
        assert s[i] == s[10..][i - 10];
      }
    }
  }

  /** `aggregate_string(day)`: the day's midnight, '/', the next day's
      midnight. The day after 9999-12-31 overflows Python's `date`. */
  function AggregateString(day: Date): (r: Result<string>)
    requires PyDate(day)
    ensures r.Err? <==> day == LastPyDate
    ensures r.Ok? ==> |r.value| == 35 && r.value[17] == '/' &&
                      ParseStamp(r.value[..17]) == day && ParseStamp(r.value[18..]) == NextDay(day)
  {
    if day == LastPyDate then Err(DateOverflow)
    else
      var a, b := DayStamp(day), DayStamp(NextDay(day));
      StampRoundTrip(day);
      StampRoundTrip(NextDay(day));
      assert (a + "/" + b)[..17] == a && (a + "/" + b)[18..] == b;
      Ok(a + "/" + b)
  }

  /** The interval string is 35 characters with its only '/' at index 17;
      the part before it reads back as the day and the part after it as the
      calendar day after; only 9999-12-31 has no interval. */
  lemma {:induction false} AggregateStringShape(day: Date)
    requires PyDate(day)
    ensures AggregateString(day).Err? <==> day == LastPyDate
    ensures AggregateString(day).Ok? ==>
              var s := AggregateString(day).value;
              |s| == 35 && s[17] == '/' &&
              (forall i :: 0 <= i < |s| && i != 17 ==> s[i] != '/') &&
              ParseStamp(s[..17]) == day && ParseStamp(s[18..]) == NextDay(day) &&
              s[10..17] == "T000000" && s[28..] == "T000000"
  {
    if day != LastPyDate {
      var a, b := DayStamp(day), DayStamp(NextDay(day));
      var s := AggregateString(day).value;
      assert s == a + "/" + b;
      assert s[..17] == a && s[18..] == b;
      StampRoundTrip(day);
      StampRoundTrip(NextDay(day));
      StampHasNoSlash(day);
      StampHasNoSlash(NextDay(day));
      StampParts(day);
      StampParts(NextDay(day));
      forall i | 0 <= i < |s| && i != 17 ensures s[i] != '/' {
        if i < 17 {
          assert s[i] == a[i];
        } else {
          assert s[i] == b[i - 18];
        }
      }
      assert s[10..17] == a[10..];
      assert s[28..] == b[10..];
    }
  }

  /** Different days give different interval strings. */
  lemma {:induction false} AggregateStringInjective(d1: Date, d2: Date)
    requires PyDate(d1) && PyDate(d2)
    requires AggregateString(d1).Ok? && AggregateString(d1) == AggregateString(d2)
    ensures d1 == d2
  {
    AggregateStringShape(d1);
    AggregateStringShape(d2);
  }

  // ---------------- the guarded request ----------------

  /** The request URL of `read_spot_price(day)` on the day `today`: days
      after tomorrow are refused before anything is built, and otherwise the
      only failure is the overflow of the day after 9999-12-31. */
  function RequestUrl(day: Date, today: Date): (r: Result<string>)
    requires PyDate(day) && PyDate(today)
    ensures r == Err(AfterTomorrow) <==> Before(NextDay(today), day)
    ensures r.Err? ==> r == Err(AfterTomorrow) || (r == Err(DateOverflow) && day == LastPyDate)
  {
    NextDayOrdinal(today);
    BeforeIffOrdinalLess(NextDay(today), day);
    assert AfterTomorrow != DateOverflow;
    if Ordinal(day) > Ordinal(today) + 1 then Err(AfterTomorrow)
    else
      match AggregateString(day)
      case Err(e) => Err(e)
      case Ok(interval) => Ok(UrlPrefix + interval + UrlSuffix)
  }

  /** A URL that is built asks for the interval from the day to the next
      one, at a fixed place between the URL's fixed head and tail. */
  lemma {:induction false} RequestUrlLayout(day: Date, today: Date)
    requires PyDate(day) && PyDate(today)
    ensures RequestUrl(day, today).Ok? ==>
              var u := RequestUrl(day, today).value;
              var k := |UrlPrefix|;
              |u| == k + 35 + |UrlSuffix| &&
              u[..k] == UrlPrefix && u[k + 35..] == UrlSuffix &&
              ParseStamp(u[k..k + 17]) == day && ParseStamp(u[k + 18..k + 35]) == NextDay(day)
  {
    if RequestUrl(day, today).Ok? {
      var s := AggregateString(day).value;
      var u := RequestUrl(day, today).value;
      var k := |UrlPrefix|;
      assert u == UrlPrefix + s + UrlSuffix;
      assert u[k..k + 35] == s;
      assert u[k..k + 17] == s[..17];
      assert u[k + 18..k + 35] == s[18..];
    }
  }
}
