/** The day-floor helper of src/utils/time.py: the latest timestamp of a
    column floored to midnight. Timestamps are seconds since the Unix epoch
    in UTC; a missing one (NaT) is None. */
module TimeUtils {
  import opened Values

  const DaySeconds: int := 86400
  const HourSeconds: int := 3600

  /** The timestamps that are not NaT, in order. */
  function PresentTimes(times: seq<Option<int>>): (p: seq<int>)
    ensures |p| <= |times|
  {
    if |times| == 0 then []
    else
      var last := times[|times| - 1];
      PresentTimes(times[..|times| - 1]) + (if last.Some? then [last.value] else [])
  }

  lemma {:induction false} PresentTimesMember(times: seq<Option<int>>)
    ensures forall x :: x in PresentTimes(times) <==> Some(x) in times
    ensures forall k :: 0 <= k < |times| && times[k].Some? ==> times[k].value in PresentTimes(times)
  {
    if |times| > 0 {
      var init := times[..|times| - 1];
      PresentTimesMember(init);
      assert times == init + [times[|times| - 1]];
    }
    forall k | 0 <= k < |times| && times[k].Some? ensures times[k].value in PresentTimes(times) {
      assert times[k] in times;
    }
  }

  /** The largest value (`Series.max()`). */
  function Latest(s: seq<int>): (m: int)
    requires |s| > 0
    ensures m in s
    ensures forall k :: 0 <= k < |s| ==> s[k] <= m
  {
    if |s| == 1 then s[0]
    else
      var m := Latest(s[..|s| - 1]);
      assert forall k :: 0 <= k < |s| - 1 ==> s[..|s| - 1][k] == s[k];
      if s[|s| - 1] > m then s[|s| - 1] else m
  }

  /** Midnight at or before t (`Timestamp.floor("D")`); Dafny's `%` never
      goes negative, so this rounds towards the past for times before 1970
      as well. */
  function FloorDay(t: int): int
  {
    t - t % DaySeconds
  }

  /** FloorDay(t) is the midnight of t's day. */
  lemma {:induction false} FloorFacts(t: int)
    ensures FloorDay(t) % DaySeconds == 0
    ensures FloorDay(t) <= t < FloorDay(t) + DaySeconds
  {
    assert t == (t / DaySeconds) * DaySeconds + t % DaySeconds;
    assert FloorDay(t) == (t / DaySeconds) * DaySeconds;
  }

  /** `get_last_complete_day`: the latest timestamp floored to midnight,
      NaT when the column holds no timestamp. The result is a midnight,
      every timestamp lies before the end of its day, and some timestamp
      lies within that day: it is the day of the latest timestamp. */
  function GetLastCompleteDay(times: seq<Option<int>>): (r: Option<int>)
    ensures r.None? <==> forall k :: 0 <= k < |times| ==> times[k].None?
    ensures r.Some? ==>
              r.value % DaySeconds == 0 &&
              (forall k :: 0 <= k < |times| && times[k].Some? ==> times[k].value < r.value + DaySeconds) &&
              (exists k :: 0 <= k < |times| && times[k].Some? && r.value <= times[k].value)
  {
    var p := PresentTimes(times);
    PresentTimesMember(times);
    if |p| == 0 then None
    else
      var m := Latest(p);
      FloorFacts(m);
      assert Some(m) in times;
      Some(FloorDay(m))
  }

  /** Two midnights r1 and r2 with a time at or after r2 but before the end
      of r1's day: r2 is not later than r1. */
  lemma {:induction false} MidnightOrder(r1: int, r2: int, x: int)
    requires r1 % DaySeconds == 0 && r2 % DaySeconds == 0
    requires r2 <= x < r1 + DaySeconds
    ensures r2 <= r1
  {
    assert r1 == (r1 / DaySeconds) * DaySeconds;
    assert r2 == (r2 / DaySeconds) * DaySeconds;
    assert r2 / DaySeconds <= r1 / DaySeconds;
  }

  /** The result does not depend on the order of the rows. */
  lemma {:induction false} OrderIndependent(a: seq<Option<int>>, b: seq<Option<int>>)
    requires multiset(a) == multiset(b)
    ensures GetLastCompleteDay(a) == GetLastCompleteDay(b)
  {
    forall i | 0 <= i < |b| && b[i].Some? ensures exists j :: 0 <= j < |a| && a[j].Some? {
      assert b[i] in multiset(a);
      var j :| 0 <= j < |a| && a[j] == b[i];
    }
    forall i | 0 <= i < |a| && a[i].Some? ensures exists j :: 0 <= j < |b| && b[j].Some? {
      assert a[i] in multiset(b);
      var j :| 0 <= j < |b| && b[j] == a[i];
    }
    if GetLastCompleteDay(a).Some? && GetLastCompleteDay(b).Some? {
      var r1 := GetLastCompleteDay(a).value;
      var r2 := GetLastCompleteDay(b).value;
      var k1 :| 0 <= k1 < |a| && a[k1].Some? && r1 <= a[k1].value;
      var k2 :| 0 <= k2 < |b| && b[k2].Some? && r2 <= b[k2].value;
      assert a[k1] in multiset(b) && b[k2] in multiset(a);
      var j1 :| 0 <= j1 < |b| && b[j1] == a[k1];
      var j2 :| 0 <= j2 < |a| && a[j2] == b[k2];
      MidnightOrder(r1, r2, b[k2].value);
      MidnightOrder(r2, r1, a[k1].value);
    }
  }

  /** Hourly readings up to and including 00:00 of day 1: the helper
      returns day 1, which holds one of its 24 hours. */
  lemma {:induction false} LastDayMayBeIncomplete()
    ensures GetLastCompleteDay([Some(0), Some(DaySeconds - HourSeconds), Some(DaySeconds)]) == Some(DaySeconds)
    ensures LastCompleteDay([Some(0), Some(DaySeconds - HourSeconds), Some(DaySeconds)]) == Some(0)
  {
    var t := [Some(0), Some(DaySeconds - HourSeconds), Some(DaySeconds)];
    assert t[..2][..1] == t[..1] && t[..1][..0] == [];
    assert PresentTimes(t[..1]) == [0];
    assert PresentTimes(t[..2]) == [0, DaySeconds - HourSeconds];
    assert PresentTimes(t) == [0, DaySeconds - HourSeconds, DaySeconds];
  }

  /** The last day whose final hourly reading (23:00) has been reached. */
  function LastCompleteDay(times: seq<Option<int>>): Option<int>
  {
    var p := PresentTimes(times);
    if |p| == 0 then None else Some(FloorDay(Latest(p) + HourSeconds) - DaySeconds)
  }

  /** The corrected day is a midnight whose 23:00 reading lies at or before
      the latest timestamp, and the day after it is not reached up to its
      23:00 reading: it is the latest complete day of hourly data. */
  lemma {:induction false} LastCompleteDayIsComplete(times: seq<Option<int>>)
    ensures LastCompleteDay(times).None? <==> forall k :: 0 <= k < |times| ==> times[k].None?
    ensures LastCompleteDay(times).Some? ==>
              var r := LastCompleteDay(times).value;
              r % DaySeconds == 0 &&
              (exists k :: 0 <= k < |times| && times[k].Some? && r + DaySeconds - HourSeconds <= times[k].value) &&
              (forall k :: 0 <= k < |times| && times[k].Some? ==> times[k].value < r + 2 * DaySeconds - HourSeconds)
  {
    var p := PresentTimes(times);
    PresentTimesMember(times);
    if |p| > 0 {
      var m := Latest(p);
      assert Some(m) in times;
      FloorFacts(m + HourSeconds);
      var r := FloorDay(m + HourSeconds) - DaySeconds;
      assert r % DaySeconds == 0 by {
        assert r == FloorDay(m + HourSeconds) + (-1) * DaySeconds;
      }
    }
  }
}
