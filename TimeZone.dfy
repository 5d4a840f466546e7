/** Time zones: the UTC conversions between seconds since the epoch and a
    broken-down `struct tm`, the search for the local-time type in effect
    at a moment, and the reader of the version-1 data of a TZif file
    (section 3 of RFC 8536), here over the file's bytes. */
module TimeZones {
  import opened CInt
  import opened ByteOrder
  import opened Wrappers
  import opened Dates

  const SecondsPerDay: int := 24 * 60 * 60

  // ----- UTC conversions -----

  datatype HMS = HMS(sec: int, min: int, hour: int)

  /** `fillHMS`: the seconds, minutes and hours of a second count. */
  function FillHMS(seconds: nat): (r: HMS)
    ensures 0 <= r.sec < 60 && 0 <= r.min < 60 && r.hour == seconds / 3600
    ensures seconds == r.hour * 3600 + r.min * 60 + r.sec
  {
    var minutes := seconds / 60;
    HMS(seconds % 60, minutes % 60, minutes / 60)
  }

  /** The day count and the second of the day of `toUtcTime`: C++ `%` and
      `/`, each cast to `int`, then a negative remainder moved into the
      previous day. */
  function SplitDays(t: int): (r: (int, int))
    ensures 0 <= r.1 < SecondsPerDay
    ensures Int32Min <= CDiv(t, SecondsPerDay) <= Int32Max ==> t == r.0 * SecondsPerDay + r.1
  {
    CModRange(t, SecondsPerDay);
    var seconds := CMod(t, SecondsPerDay);
    var days := WrapInt32(CDiv(t, SecondsPerDay));
    if seconds < 0 then (days - 1, seconds + SecondsPerDay) else (days, seconds)
  }

  /** `toUtcTime`; tm_yday is filled in only when yday is set. */
  function ToUtcTime(t: int, yday: bool): Tm
  {
    var split := SplitDays(t);
    var hms := FillHMS(split.1);
    var date := Date(split.0 + JulianDayOf1970_01_01);
    var ymd := date.YearMonthDay();
    Tm(hms.sec, hms.min, hms.hour, ymd.day, ymd.month - 1, ymd.year - 1900, date.WeekDay(),
       if yday then date.julianDay - DateOf(ymd.year, 1, 1).julianDay else 0)
  }

  /** `fromUtcTime(year, month, day, hour, minute, seconds)`. */
  function FromUtcTime(year: int, month: int, day: int, hour: int, minute: int, seconds: int): int
  {
    var date := DateOf(year, month, day);
    var secondsInDay := hour * 3600 + minute * 60 + seconds;
    (date.julianDay - JulianDayOf1970_01_01) * SecondsPerDay + secondsInDay
  }

  /** `fromUtcTime(const struct tm&)`. */
  function FromUtcTimeTm(utc: Tm): int
  {
    FromUtcTime(utc.year + 1900, utc.mon + 1, utc.mday, utc.hour, utc.min, utc.sec)
  }

  /** The seconds the UTC conversions are proved on: from 1 March of year
      -4800, the start of the range of the date formulae, to the last
      second of MaxJulianDay, past which `getYearMonthDay` overflows. */
  const MinUtcSeconds: int := (MinJulianDay - JulianDayOf1970_01_01) * SecondsPerDay
  const MaxUtcSeconds: int := (MaxJulianDay - JulianDayOf1970_01_01 + 1) * SecondsPerDay - 1

  /** In range, toUtcTime's day count and second of the day add back up to
      t, and the day is one the date formulae handle. */
  lemma SplitDaysInRange(t: int)
    requires MinUtcSeconds <= t <= MaxUtcSeconds
    ensures t == SplitDays(t).0 * SecondsPerDay + SplitDays(t).1
    ensures MinJulianDay <= SplitDays(t).0 + JulianDayOf1970_01_01 <= MaxJulianDay
  {
    var q := CDiv(t, SecondsPerDay);
    var r := CMod(t, SecondsPerDay);
    CModRange(t, SecondsPerDay);
    assert t == q * SecondsPerDay + r;
    assert -2472632 <= q <= MaxJulianDay - JulianDayOf1970_01_01 by {
      if q < -2472632 {
        MulMonotone(SecondsPerDay, q + 1, -2472632);
      }
      if q > MaxJulianDay - JulianDayOf1970_01_01 {
        MulMonotone(SecondsPerDay, MaxJulianDay - JulianDayOf1970_01_01 + 1, q);
      }
    }
  }

  /** The fields toUtcTime fills in, named by the parts they come from. */
  lemma ToUtcTimeParts(t: int, yday: bool, days: int, seconds: nat, ymd: YearMonthDay)
    requires SplitDays(t) == (days, seconds)
    requires ymd == GetYearMonthDay(days + JulianDayOf1970_01_01)
    ensures var tm := ToUtcTime(t, yday);
            var hms := FillHMS(seconds);
            tm.sec == hms.sec && tm.min == hms.min && tm.hour == hms.hour
            && tm.year + 1900 == ymd.year && tm.mon + 1 == ymd.month && tm.mday == ymd.day
            && tm.wday == Date(days + JulianDayOf1970_01_01).WeekDay()
            && tm.yday == if yday then days + JulianDayOf1970_01_01 - GetJulianDay(ymd.year, 1, 1) else 0
  {
  }

  /** fromUtcTime of a broken-down time whose date has Julian Day jd
      counts whole days from the epoch's Julian Day. */
  lemma FromUtcTimeOfParts(tm: Tm, ymd: YearMonthDay, jd: int)
    requires tm.year + 1900 == ymd.year && tm.mon + 1 == ymd.month && tm.mday == ymd.day
    requires GetJulianDay(ymd.year, ymd.month, ymd.day) == jd
    ensures FromUtcTimeTm(tm)
            == (jd - JulianDayOf1970_01_01) * SecondsPerDay + tm.hour * 3600 + tm.min * 60 + tm.sec
  {
    DateOfJulianDay(ymd.year, ymd.month, ymd.day);
    assert FromUtcTimeTm(tm) == FromUtcTime(ymd.year, ymd.month, ymd.day, tm.hour, tm.min, tm.sec);
  }

  /** Breaking t down and converting back gives t. */
  lemma {:induction false} UtcRoundTrip(t: int, yday: bool)
    requires MinUtcSeconds <= t <= MaxUtcSeconds
    ensures FromUtcTimeTm(ToUtcTime(t, yday)) == t
  {
    SplitDaysInRange(t);
    var (days, seconds) := SplitDays(t);
    var jd := days + JulianDayOf1970_01_01;
    var ymd := GetYearMonthDay(jd);
    JulianDayOfYearMonthDay(jd);
    ToUtcTimeParts(t, yday, days, seconds, ymd);
    var tm := ToUtcTime(t, yday);
    assert seconds == tm.hour * 3600 + tm.min * 60 + tm.sec;
    FromUtcTimeOfParts(tm, ymd, jd);
  }

  /** Every field of the broken-down time lies in its range, the day is a
      day of its month, and tm_yday counts the days since 1 January. */
  lemma {:induction false} ToUtcTimeRanges(t: int, yday: bool)
    requires MinUtcSeconds <= t <= MaxUtcSeconds
    ensures var tm := ToUtcTime(t, yday);
            0 <= tm.sec < 60 && 0 <= tm.min < 60 && 0 <= tm.hour < 24
            && 0 <= tm.mon < 12 && ValidDate(tm.year + 1900, tm.mon + 1, tm.mday)
            && (t >= (-1 - JulianDayOf1970_01_01) * SecondsPerDay ==> 0 <= tm.wday < DaysPerWeek)
            && (!yday ==> tm.yday == 0)
            && (yday && tm.year + 1900 > -4800 ==> 0 <= tm.yday < 365 + LeapDays(tm.year + 1900))
  {
    var (days, seconds) := SplitDays(t);
    var jd := days + JulianDayOf1970_01_01;
    assert t == days * SecondsPerDay + seconds && MinJulianDay <= jd <= MaxJulianDay by {
      SplitDaysInRange(t);
    }
    var ymd := GetYearMonthDay(jd);
    assert ValidDate(ymd.year, ymd.month, ymd.day) by {
      JulianDayOfYearMonthDay(jd);
    }
    ToUtcTimeParts(t, yday, days, seconds, ymd);
    if yday && ymd.year > -4800 {
      assert 0 <= jd - GetJulianDay(ymd.year, 1, 1) < 365 + LeapDays(ymd.year) by {
        DayOfYearRange(jd);
      }
    }
    if t >= (-1 - JulianDayOf1970_01_01) * SecondsPerDay {
      assert jd >= -1 by {
        DayAtLeast(t, days, seconds, -1 - JulianDayOf1970_01_01);
      }
    }
  }

  /** A second count from the start of day k on falls on day k or later. */
  lemma DayAtLeast(t: int, days: int, seconds: int, k: int)
    requires t == days * SecondsPerDay + seconds && 0 <= seconds < SecondsPerDay
    requires t >= k * SecondsPerDay
    ensures days >= k
  {
    if days < k {
      MulMonotone(SecondsPerDay, days + 1, k);
    }
  }

  // ----- The local-time type in effect -----

  datatype Transition = Transition(gmttime: int, localtime: int, localtimeIdx: int)
  datatype Localtime = Localtime(gmtOffset: int, isDst: bool, arrbIdx: int)

  /** `TimeZone::Data`. */
  datatype ZoneData = ZoneData(transitions: seq<Transition>, localtimes: seq<Localtime>,
                               abbreviation: seq<Byte>)

  /** The key `Comp` compares transitions by: UTC or local time. */
  function Key(t: Transition, byGmt: bool): int
  {
    if byGmt then t.gmttime else t.localtime
  }

  ghost predicate SortedBy(ts: seq<Transition>, byGmt: bool)
  {
    forall i, j :: 0 <= i < j < |ts| ==> Key(ts[i], byGmt) <= Key(ts[j], byGmt)
  }

  /** `std::lower_bound` on [first, first + count): halve the range, going
      right past every element whose key is below the one sought. */
  function LowerBound(ts: seq<Transition>, key: int, byGmt: bool, first: nat, count: nat): (r: nat)
    requires first + count <= |ts|
    ensures first <= r <= first + count
    ensures count > 0 && r == first ==> Key(ts[first], byGmt) >= key
    ensures SortedBy(ts, byGmt) ==> forall j :: first <= j < r ==> Key(ts[j], byGmt) < key
    ensures SortedBy(ts, byGmt) ==> forall j :: r <= j < first + count ==> Key(ts[j], byGmt) >= key
    decreases count
  {
    if count == 0 then first
    else
      var step := count / 2;
      var it := first + step;
      if Key(ts[it], byGmt) < key then LowerBound(ts, key, byGmt, it + 1, count - step - 1)
      else LowerBound(ts, key, byGmt, first, step)
  }

  /** The local-time type of a transition; an index outside the table is
      undefined behaviour in the source and gives None here. */
  function TypeOf(data: ZoneData, t: Transition): Option<Localtime>
  {
    if 0 <= t.localtimeIdx < |data.localtimes| then Some(data.localtimes[t.localtimeIdx]) else None
  }

  /** `findLocalTime`: None stands for the null result, and for the
      undefined `front()` of an empty type table. */
  function FindLocalTime(data: ZoneData, sentry: Transition, byGmt: bool): Option<Localtime>
  {
    var ts := data.transitions;
    var key := Key(sentry, byGmt);
    if |ts| == 0 || key < Key(ts[0], byGmt) then
      if |data.localtimes| == 0 then None else Some(data.localtimes[0])
    else
      var i := LowerBound(ts, key, byGmt, 0, |ts|);
      if i < |ts| then
        if key != Key(ts[i], byGmt) then
          assert i != 0;
          TypeOf(data, ts[i - 1])
        else
          TypeOf(data, ts[i])
      else
        TypeOf(data, ts[|ts| - 1])
  }

  /** On transitions sorted by the key: before the first transition (or
      with none) the first type applies; at a transition, the type of the
      first transition with that key; between two transitions or after the
      last, the type of the one before. */
  lemma FindLocalTimeCases(data: ZoneData, sentry: Transition, byGmt: bool)
    requires SortedBy(data.transitions, byGmt) && |data.localtimes| > 0
    ensures var ts := data.transitions;
            var key := Key(sentry, byGmt);
            var r := FindLocalTime(data, sentry, byGmt);
            ((|ts| == 0 || key < Key(ts[0], byGmt)) ==> r == Some(data.localtimes[0]))
            && (forall j :: (0 <= j < |ts| && Key(ts[j], byGmt) == key
                             && (j == 0 || Key(ts[j - 1], byGmt) < key)) ==> r == TypeOf(data, ts[j]))
            && (forall j :: (0 <= j < |ts| && Key(ts[j], byGmt) < key
                             && (j + 1 == |ts| || key < Key(ts[j + 1], byGmt))) ==> r == TypeOf(data, ts[j]))
  {
    var ts := data.transitions;
    var key := Key(sentry, byGmt);
    if |ts| > 0 && Key(ts[0], byGmt) <= key {
      var i := LowerBound(ts, key, byGmt, 0, |ts|);
      forall j | 0 <= j < |ts| && Key(ts[j], byGmt) == key && (j == 0 || Key(ts[j - 1], byGmt) < key)
        ensures FindLocalTime(data, sentry, byGmt) == TypeOf(data, ts[j])
      {
        assert i == j;
      }
      forall j | 0 <= j < |ts| && Key(ts[j], byGmt) < key && (j + 1 == |ts| || key < Key(ts[j + 1], byGmt))
        ensures FindLocalTime(data, sentry, byGmt) == TypeOf(data, ts[j])
      {
        assert i == j + 1;
      }
    }
  }

  /** `TimeZone(eastOfUtc, name)`: a zone with one type and no transitions. */
  function FixedOffsetZone(eastOfUtc: int, name: seq<Byte>): (data: ZoneData)
    ensures |data.transitions| == 0 && data.abbreviation == name
  {
    ZoneData([], [Localtime(eastOfUtc, false, 0)], name)
  }

  /** A fixed-offset zone applies its one offset at every moment. */
  lemma FixedOffsetEverywhere(eastOfUtc: int, name: seq<Byte>, sentry: Transition, byGmt: bool)
    ensures FindLocalTime(FixedOffsetZone(eastOfUtc, name), sentry, byGmt)
            == Some(Localtime(eastOfUtc, false, 0))
  {
  }
}
