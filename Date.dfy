/** Calendar dates as Julian Day Numbers, converted to and from the
    proleptic Gregorian year/month/day with the closed-form integer formulae
    of `getJulianDay` and `getYearMonthDay`. */
module Dates {
  import opened CInt
  import opened Decimal
  import Comparable

  const DaysPerWeek: int := 7

  datatype YearMonthDay = YearMonthDay(year: int, month: int, day: int)

  /** `getJulianDay`, with C++ truncating division. */
  function GetJulianDay(year: int, month: int, day: int): int
  {
    var a := CDiv(14 - month, 12);
    var y := year + 4800 - a;
    var m := month + 12 * a - 3;
    day + CDiv(153 * m + 2, 5) + y * 365 + CDiv(y, 4) - CDiv(y, 100) + CDiv(y, 400) - 32045
  }

  /** `getYearMonthDay`, with C++ truncating division. */
  function GetYearMonthDay(julianDay: int): YearMonthDay
  {
    var a := julianDay + 32044;
    var b := CDiv(4 * a + 3, 146097);
    var c := a - CDiv(b * 146097, 4);
    var d := CDiv(4 * c + 3, 1461);
    var e := c - CDiv(1461 * d, 4);
    var m := CDiv(5 * e + 2, 153);
    var day := e - CDiv(153 * m + 2, 5) + 1;
    var month := m + 3 - 12 * CDiv(m, 10);
    var year := b * 100 + d - 4800 + CDiv(m, 10);
    YearMonthDay(year, month, day)
  }

  const JulianDayOf1970_01_01: int := 2440588

  lemma JulianDayOfEpoch()
    ensures GetJulianDay(1970, 1, 1) == JulianDayOf1970_01_01
  {
  }

  // ----- The proleptic Gregorian calendar -----

  predicate IsLeapYear(year: int)
  {
    (year % 4 == 0 && year % 100 != 0) || year % 400 == 0
  }

  function DaysInMonth(year: int, month: int): int
    requires 1 <= month <= 12
  {
    if month == 2 then (if IsLeapYear(year) then 29 else 28)
    else if month == 4 || month == 6 || month == 9 || month == 11 then 30
    else 31
  }

  predicate ValidDate(year: int, month: int, day: int)
  {
    1 <= month <= 12 && 1 <= day <= DaysInMonth(year, month)
  }

  /** The Julian Day of 1 March of year -4800 (astronomical numbering, 4801
      BC): from that day on every intermediate value of both formulae is
      non-negative, which is the range the conversions are proved on. */
  const MinJulianDay: int := -32044

  /** The last Julian Day whose 4 * (jd + 32044) + 3 fits in a 32-bit
      `int`. Past it `getYearMonthDay` overflows, which is undefined
      behaviour, so the conversions are proved only up to it. */
  const MaxJulianDay: int := 536838867

  // ----- The computation on a calendar whose years start on 1 March -----

  /** The count of years since March of year -4800, January and February
      being the last months of the previous year. */
  function MarchYear(year: int, month: int): int
  {
    year + 4800 - (if month <= 2 then 1 else 0)
  }

  /** March is 0, February is 11. */
  function MarchMonth(month: int): int
  {
    if month <= 2 then month + 9 else month - 3
  }

  /** The day of the March-based year the month starts on. */
  function MonthStart(m: int): int
    requires m >= 0
  {
    (153 * m + 2) / 5
  }

  /** Days from 1 March of year -4800 to 1 March of March-based year y. */
  function DaysBefore(y: nat): nat
  {
    365 * y + y / 4 - y / 100 + y / 400
  }

  function LeapDays(y: int): int
  {
    if IsLeapYear(y) then 1 else 0
  }

  lemma DivFromBounds(x: int, k: int, q: int)
    requires k > 0 && k * q <= x < k * q + k
    ensures x / k == q
  {
    var t := x / k;
    assert k * t <= x < k * t + k;
    if t < q {
      MulMonotone(k, t + 1, q);
    } else if t > q {
      MulMonotone(k, q + 1, t);
    }
  }

  lemma MulMonotone(k: int, a: int, b: int)
    requires k > 0 && a <= b
    ensures k * a <= k * b
  {
    assert k * b - k * a == k * (b - a);
  }

  /** getJulianDay on a date in range: the days before its March-based year,
      plus its day of that year, minus a fixed offset. */
  lemma JulianDayDecomposed(year: int, month: int, day: int)
    requires MarchYear(year, month) >= 0 && 1 <= month <= 12
    ensures GetJulianDay(year, month, day)
            == DaysBefore(MarchYear(year, month)) + MonthStart(MarchMonth(month)) + day - 32045
  {
    var a := CDiv(14 - month, 12);
    CDivNatural(14 - month, 12);
    assert a == if month <= 2 then 1 else 0;
    var y := year + 4800 - a;
    var m := month + 12 * a - 3;
    assert m == MarchMonth(month);
    CDivNatural(153 * m + 2, 5);
    CDivNatural(y, 4);
    CDivNatural(y, 100);
    CDivNatural(y, 400);
  }

  /** Splitting a March-based year into centuries: y = 100 b + d. */
  lemma DaysBeforeByCentury(y: nat)
    ensures DaysBefore(y) == (146097 * (y / 100)) / 4 + 365 * (y % 100) + (y % 100) / 4
  {
    var b := y / 100;
    var d := y % 100;
    assert y == 100 * b + d;
    DivFromBounds(y, 4, 25 * b + d / 4);
    DivFromBounds(y, 400, b / 4);
    DivFromBounds(146097 * b, 4, 36524 * b + b / 4);
  }

  /** Within a 400-year cycle: day c of century b is recovered from the day
      count, provided c exists (day 36524 only in the century whose last
      year is a leap year, b % 4 == 3). */
  lemma CenturyOfDay(b: nat, c: int)
    requires 0 <= c <= 36523 + (if b % 4 == 3 then 1 else 0)
    ensures (4 * ((146097 * b) / 4 + c) + 3) / 146097 == b
    ensures (146097 * b) / 4 == 36524 * b + b / 4
  {
    var q := b / 4;
    var s := b % 4;
    DivFromBounds(146097 * b, 4, 36524 * b + q);
    DivFromBounds(4 * (36524 * b + q + c) + 3, 146097, b);
  }

  /** Within a century: day doy of year d is recovered from the day count,
      provided doy exists (day 365 only in a leap year, d % 4 == 3). */
  lemma YearOfDay(d: nat, doy: int)
    requires 0 <= doy <= 364 + (if d % 4 == 3 then 1 else 0)
    ensures (4 * (365 * d + d / 4 + doy) + 3) / 1461 == d
    ensures (1461 * d) / 4 == 365 * d + d / 4
  {
    DivFromBounds(1461 * d, 4, 365 * d + d / 4);
    DivFromBounds(4 * (365 * d + d / 4 + doy) + 3, 1461, d);
  }

  /** The year before a leap year ends a 4-year cycle, and, at the end of
      a century, a 400-year cycle. */
  lemma BeforeLeapYear(y: nat)
    requires IsLeapYear(y + 1)
    ensures (y % 100) % 4 == 3
    ensures y % 100 == 99 ==> (y / 100) % 4 == 3
  {
    var b := y / 100;
    var d := y % 100;
    assert y == 100 * b + d;
    assert (y + 1) % 4 == 0;
    if d == 99 {
      assert y + 1 == 100 * (b + 1);
      assert (y + 1) % 400 == 0;
    }
  }

  /** The century/year split of a day count since 1 March of year -4800
      meets the conditions of the two inverse steps. */
  lemma YearSplitInverse(y: nat, doy: int)
    requires 0 <= doy < 365 + LeapDays(y + 1)
    ensures DaysBefore(y) + doy == (146097 * (y / 100)) / 4 + (365 * (y % 100) + (y % 100) / 4 + doy)
    ensures 0 <= 365 * (y % 100) + (y % 100) / 4 + doy <= 36523 + (if (y / 100) % 4 == 3 then 1 else 0)
    ensures doy <= 364 + (if (y % 100) % 4 == 3 then 1 else 0)
  {
    DaysBeforeByCentury(y);
    if doy == 365 {
      BeforeLeapYear(y);
    }
  }

  /** The longest a March-based month can be: February (11) has 29 days at
      most. */
  function MarchMonthLength(m: int): int
  {
    if m == 11 then 29
    else if m == 1 || m == 3 || m == 6 || m == 8 then 30
    else 31
  }

  /** The month of a March-based day of the year. */
  lemma MonthOfDay(m: int, k: int)
    requires 0 <= m <= 11 && 0 <= k
    requires k < MarchMonthLength(m)
    ensures (5 * (MonthStart(m) + k) + 2) / 153 == m
  {
    DivFromBounds(5 * (MonthStart(m) + k) + 2, 153, m);
  }

  /** getYearMonthDay where every intermediate value is non-negative, so
      that truncating and Euclidean division agree. */
  lemma GetYearMonthDayOfParts(jd: int, b: int, c: int, d: int, e: int, m: int)
    requires 4 * (jd + 32044) + 3 >= 0 && b == (4 * (jd + 32044) + 3) / 146097 && b >= 0
    requires c == jd + 32044 - (b * 146097) / 4 && c >= 0
    requires d == (4 * c + 3) / 1461 && d >= 0
    requires e == c - (1461 * d) / 4 && e >= 0
    requires m == (5 * e + 2) / 153 && m >= 0
    ensures GetYearMonthDay(jd)
            == YearMonthDay(b * 100 + d - 4800 + m / 10, m + 3 - 12 * (m / 10), e - (153 * m + 2) / 5 + 1)
  {
    assert CDiv(4 * (jd + 32044) + 3, 146097) == b by { CDivNatural(4 * (jd + 32044) + 3, 146097); }
    assert CDiv(b * 146097, 4) == (b * 146097) / 4 by { CDivNatural(b * 146097, 4); }
    assert CDiv(4 * c + 3, 1461) == d by { CDivNatural(4 * c + 3, 1461); }
    assert CDiv(1461 * d, 4) == (1461 * d) / 4 by { CDivNatural(1461 * d, 4); }
    assert CDiv(5 * e + 2, 153) == m by { CDivNatural(5 * e + 2, 153); }
    assert CDiv(153 * m + 2, 5) == (153 * m + 2) / 5 by { CDivNatural(153 * m + 2, 5); }
    assert CDiv(m, 10) == m / 10 by { CDivNatural(m, 10); }
    GetYearMonthDayOfSteps(jd, b, c, d, e, m);
  }

  /** The fields of getYearMonthDay, named step by step. */
  lemma GetYearMonthDayOfSteps(jd: int, b: int, c: int, d: int, e: int, m: int)
    requires b == CDiv(4 * (jd + 32044) + 3, 146097) && c == jd + 32044 - CDiv(b * 146097, 4)
    requires d == CDiv(4 * c + 3, 1461) && e == c - CDiv(1461 * d, 4) && m == CDiv(5 * e + 2, 153)
    ensures GetYearMonthDay(jd).year == b * 100 + d - 4800 + CDiv(m, 10)
    ensures GetYearMonthDay(jd).month == m + 3 - 12 * CDiv(m, 10)
    ensures GetYearMonthDay(jd).day == e - CDiv(153 * m + 2, 5) + 1
  {
    var ymd := GetYearMonthDay(jd);
    assert ymd.year == b * 100 + d - 4800 + CDiv(m, 10);
    assert ymd.month == m + 3 - 12 * CDiv(m, 10);
  }

  /** A valid date is a day that exists in its March-based year, in the
      month the inverse formula finds. */
  lemma MarchDayOfYear(year: int, month: int, day: int)
    requires ValidDate(year, month, day)
    ensures var doy := MonthStart(MarchMonth(month)) + day - 1;
            0 <= doy < 365 + LeapDays(MarchYear(year, month) + 1)
            && (5 * doy + 2) / 153 == MarchMonth(month)
  {
    var m := MarchMonth(month);
    MonthOfDay(m, day - 1);
    if month <= 2 {
      assert MarchYear(year, month) + 1 == year + 4800;
      assert IsLeapYear(year + 4800) == IsLeapYear(year);
    } else {
      assert MonthStart(m) + day - 1 <= 305;
    }
  }

  /** Converting a valid date to its Julian Day and back gives the date. */
  lemma {:induction false} YearMonthDayOfJulianDay(year: int, month: int, day: int)
    requires MarchYear(year, month) >= 0 && ValidDate(year, month, day)
    requires GetJulianDay(year, month, day) <= MaxJulianDay
    ensures GetYearMonthDay(GetJulianDay(year, month, day)) == YearMonthDay(year, month, day)
  {
    var jd := GetJulianDay(year, month, day);
    var y := MarchYear(year, month);
    var m := MarchMonth(month);
    var doy := MonthStart(m) + day - 1;
    assert jd + 32044 == DaysBefore(y) + doy by {
      JulianDayDecomposed(year, month, day);
    }
    assert 0 <= doy < 365 + LeapDays(y + 1) && (5 * doy + 2) / 153 == m by {
      MarchDayOfYear(year, month, day);
    }
    MarchDateOfDay(jd, y, m, doy, year, month, day);
  }

  /** getYearMonthDay of the Julian Day that falls on day doy of March-based
      year y, in March-based month m, finds the date those stand for. */
  lemma MarchDateOfDay(jd: int, y: nat, m: int, doy: int, year: int, month: int, day: int)
    requires y == MarchYear(year, month) && m == MarchMonth(month) && 1 <= month <= 12
    requires doy == MonthStart(m) + day - 1 && jd + 32044 == DaysBefore(y) + doy
    requires 0 <= doy < 365 + LeapDays(y + 1) && (5 * doy + 2) / 153 == m
    ensures GetYearMonthDay(jd) == YearMonthDay(year, month, day)
  {
    var b := y / 100;
    var d := y % 100;
    var c := 365 * d + d / 4 + doy;
    assert jd + 32044 == (146097 * b) / 4 + c
           && 0 <= c <= 36523 + (if b % 4 == 3 then 1 else 0)
           && doy <= 364 + (if d % 4 == 3 then 1 else 0) by {
      YearSplitInverse(y, doy);
    }
    assert (4 * (jd + 32044) + 3) / 146097 == b && c == jd + 32044 - (b * 146097) / 4 by {
      CenturyOfDay(b, c);
      assert b * 146097 == 146097 * b;
    }
    assert (4 * c + 3) / 1461 == d && doy == c - (1461 * d) / 4 by {
      YearOfDay(d, doy);
    }
    assert b * 100 + d - 4800 + m / 10 == year
           && m + 3 - 12 * (m / 10) == month
           && doy - (153 * m + 2) / 5 + 1 == day by {
      assert y == 100 * b + d;
      assert m / 10 == if month <= 2 then 1 else 0;
    }
    GetYearMonthDayOfParts(jd, b, c, d, doy, m);
  }

  /** Splitting a day count since 1 March of year -4800 into 400-year
      cycles and the day of the century, as getYearMonthDay does. */
  lemma CenturySplit(a: nat, b: int, c: int)
    requires b == (4 * a + 3) / 146097 && c == a - (b * 146097) / 4
    ensures b >= 0 && 0 <= c <= 36523 + (if b % 4 == 3 then 1 else 0)
    ensures (b * 146097) / 4 == 36524 * b + b / 4
  {
    DivFromBounds(b * 146097, 4, 36524 * b + b / 4);
  }

  /** Splitting a day of the century into the year and the day of the year. */
  lemma YearSplit(c: int, d: int, e: int)
    requires 0 <= c <= 36524
    requires d == (4 * c + 3) / 1461 && e == c - (1461 * d) / 4
    ensures 0 <= d <= 99 && 0 <= e <= 364 + (if d % 4 == 3 then 1 else 0)
    ensures (1461 * d) / 4 == 365 * d + d / 4
  {
    DivFromBounds(1461 * d, 4, 365 * d + d / 4);
  }

  /** The month the inverse formula finds for a day of the year, and the day
      of that month. */
  lemma MonthSplit(e: int, m: int)
    requires 0 <= e <= 365 && m == (5 * e + 2) / 153
    ensures 0 <= m <= 11 && 0 <= e - MonthStart(m) < MarchMonthLength(m)
  {
    assert 153 * m <= 5 * e + 2 < 153 * m + 153;
  }

  /** The calendar date getYearMonthDay builds from a day of the March-based
      year exists. */
  lemma DateOfMarchDay(y: nat, e: int, m: int, year: int, month: int, day: int)
    requires 0 <= e < 365 + LeapDays(y + 1) && m == (5 * e + 2) / 153
    requires day == e - (153 * m + 2) / 5 + 1 && month == m + 3 - 12 * (m / 10)
    requires year == y - 4800 + m / 10
    ensures ValidDate(year, month, day) && MarchYear(year, month) == y
    ensures MarchMonth(month) == m && MonthStart(m) + day - 1 == e
  {
    MonthSplit(e, m);
    if m == 11 {
      assert year + 4800 == y + 1;
      assert IsLeapYear(year) == IsLeapYear(y + 1);
    }
  }

  /** The March-based year 100 b + d is followed by a leap year when d ends
      a 4-year cycle and, at the end of a century, b ends a 400-year one. */
  lemma LeapYearAfter(b: nat, d: nat)
    requires d <= 99 && d % 4 == 3 && (d == 99 ==> b % 4 == 3)
    ensures IsLeapYear(100 * b + d + 1)
  {
    var y1 := 100 * b + d + 1;
    assert d == 4 * (d / 4) + 3;
    MultipleMod(y1, 4, 25 * b + d / 4 + 1);
    if d == 99 {
      assert b == 4 * (b / 4) + 3;
      MultipleMod(y1, 400, b / 4 + 1);
    } else {
      DivFromBounds(y1, 100, b);
    }
  }

  /** A multiple of k leaves no remainder. */
  lemma MultipleMod(x: int, k: int, q: int)
    requires k > 0 && x == k * q
    ensures x % k == 0
  {
    DivFromBounds(x, k, q);
  }

  /** The intermediate values of getYearMonthDay split the day count since
      1 March of year -4800 into a March-based year 100 b + d and an
      existing day e of that year. */
  lemma DayCountParts(a: nat, b: int, c: int, d: int, e: int)
    requires b == (4 * a + 3) / 146097 && c == a - (b * 146097) / 4
    requires d == (4 * c + 3) / 1461 && e == c - (1461 * d) / 4
    ensures b >= 0 && c >= 0 && d >= 0
    ensures 0 <= e < 365 + LeapDays(100 * b + d + 1)
    ensures a == DaysBefore(100 * b + d) + e
  {
    CenturySplit(a, b, c);
    YearSplit(c, d, e);
    var y := 100 * b + d;
    assert y / 100 == b && y % 100 == d;
    DaysBeforeByCentury(y);
    if e == 365 {
      assert d == 99 ==> c == 36524;
      LeapYearAfter(b, d);
    }
  }

  /** Every Julian Day from MinJulianDay to MaxJulianDay names a valid
      date, and converting that date back gives the Julian Day. */
  lemma {:induction false} JulianDayOfYearMonthDay(jd: int)
    requires MinJulianDay <= jd <= MaxJulianDay
    ensures var ymd := GetYearMonthDay(jd);
            ValidDate(ymd.year, ymd.month, ymd.day) && MarchYear(ymd.year, ymd.month) >= 0
            && GetJulianDay(ymd.year, ymd.month, ymd.day) == jd
  {
    var a := jd + 32044;
    var b := (4 * a + 3) / 146097;
    var c := a - (b * 146097) / 4;
    var d := (4 * c + 3) / 1461;
    var e := c - (1461 * d) / 4;
    var m := (5 * e + 2) / 153;
    DayCountParts(a, b, c, d, e);
    var y := 100 * b + d;
    var year := b * 100 + d - 4800 + m / 10;
    var month := m + 3 - 12 * (m / 10);
    var day := e - (153 * m + 2) / 5 + 1;
    assert ValidDate(year, month, day) && MarchYear(year, month) == y
           && GetJulianDay(year, month, day) == jd by {
      DateOfMarchDay(y, e, m, year, month, day);
      JulianDayDecomposed(year, month, day);
    }
    assert GetYearMonthDay(jd) == YearMonthDay(year, month, day) by {
      GetYearMonthDayOfParts(jd, b, c, d, e, m);
    }
  }

  /** A March-based year has 365 days plus the leap day of the February it
      ends with. */
  lemma DaysBeforeNext(y: nat)
    ensures DaysBefore(y + 1) == DaysBefore(y) + 365 + LeapDays(y + 1)
  {
    NextQuotient(y, 4);
    NextQuotient(y, 100);
    NextQuotient(y, 400);
  }

  /** The quotient by k steps up exactly when y + 1 is a multiple of k. */
  lemma NextQuotient(y: nat, k: int)
    requires k > 0
    ensures (y + 1) / k == y / k + (if (y + 1) % k == 0 then 1 else 0)
  {
    var q := y / k;
    if y % k == k - 1 {
      DivFromBounds(y + 1, k, q + 1);
    } else {
      DivFromBounds(y + 1, k, q);
    }
  }

  /** The day of the year of a Julian Day (0 for 1 January) is less than the
      length of its year; the year must lie after -4800, where 1 January is
      still in range. */
  lemma DayOfYearRange(jd: int)
    requires MinJulianDay <= jd <= MaxJulianDay && GetYearMonthDay(jd).year > -4800
    ensures var ymd := GetYearMonthDay(jd);
            0 <= jd - GetJulianDay(ymd.year, 1, 1) < 365 + LeapDays(ymd.year)
  {
    var ymd := GetYearMonthDay(jd);
    JulianDayOfYearMonthDay(jd);
    DayOfYearOfDate(ymd.year, ymd.month, ymd.day, jd);
  }

  /** The same, for the Julian Day of a valid date. */
  lemma DayOfYearOfDate(year: int, month: int, day: int, jd: int)
    requires ValidDate(year, month, day) && year > -4800 && GetJulianDay(year, month, day) == jd
    ensures 0 <= jd - GetJulianDay(year, 1, 1) < 365 + LeapDays(year)
  {
    assert jd == DaysBefore(MarchYear(year, month)) + MonthStart(MarchMonth(month)) + day - 32045 by {
      JulianDayDecomposed(year, month, day);
    }
    assert GetJulianDay(year, 1, 1) == DaysBefore(year + 4799) + 306 - 32044 by {
      JulianDayDecomposed(year, 1, 1);
      assert MonthStart(10) == 306;
    }
    MarchDaySpan(year, month, day);
  }

  /** A valid date lies within the 365 or 366 days from 1 January of its
      year, counted on the March-based calendar. */
  lemma MarchDaySpan(year: int, month: int, day: int)
    requires ValidDate(year, month, day) && year > -4800
    ensures var k := DaysBefore(MarchYear(year, month)) + MonthStart(MarchMonth(month)) + day - 1
                     - DaysBefore(year + 4799) - 306;
            0 <= k < 365 + LeapDays(year)
  {
    var y0: nat := year + 4799;
    var doy := MonthStart(MarchMonth(month)) + day - 1;
    var leap := LeapDays(year);
    assert LeapDays(y0 + 1) == leap by {
      LeapDaysShift(year);
    }
    if month >= 3 {
      assert MarchYear(year, month) == y0 + 1;
      assert DaysBefore(y0 + 1) == DaysBefore(y0) + 365 + leap by {
        DaysBeforeNext(y0);
      }
      assert 0 <= doy <= 305 by {
        MarchDayOfYear(year, month, day);
      }
    } else {
      assert MarchYear(year, month) == y0;
      assert 306 <= doy < 337 + 28 + leap by {
        assert MonthStart(10) == 306 && MonthStart(11) == 337;
      }
    }
  }

  /** 4800 years are twelve 400-year cycles. */
  lemma LeapDaysShift(year: int)
    ensures LeapDays(year + 4800) == LeapDays(year)
  {
    assert (year + 4800) % 4 == year % 4 by {
      DivFromBounds(year + 4800, 4, year / 4 + 1200);
    }
    assert (year + 4800) % 100 == year % 100 by {
      DivFromBounds(year + 4800, 100, year / 100 + 48);
    }
    assert (year + 4800) % 400 == year % 400 by {
      DivFromBounds(year + 4800, 400, year / 400 + 12);
    }
  }

  // ----- The Date value type -----

  /** The fields of `struct tm` a Date is built from and that the time-zone
      conversions fill in. */
  datatype Tm = Tm(sec: int, min: int, hour: int, mday: int, mon: int, year: int,
                   wday: int, yday: int)

  datatype Date = Date(julianDay: int)
  {
    /** `operator bool`: only a positive Julian Day is a date. */
    predicate Valid()
    {
      julianDay > 0
    }

    function YearMonthDay(): YearMonthDay
    {
      GetYearMonthDay(julianDay)
    }

    function Year(): int
    {
      YearMonthDay().year
    }

    function Month(): int
    {
      YearMonthDay().month
    }

    function Day(): int
    {
      YearMonthDay().day
    }

    /** 0 is Sunday; a C++ `%`, so negative Julian Days before -1 give
        negative week days. */
    function WeekDay(): (w: int)
      ensures julianDay >= -1 ==> 0 <= w < DaysPerWeek
      ensures (julianDay + 1 - w) % DaysPerWeek == 0
    {
      CModRange(julianDay + 1, DaysPerWeek);
      CMod(julianDay + 1, DaysPerWeek)
    }

    function Plus(days: int): (r: Date)
      ensures r.julianDay - julianDay == days
    {
      Date(julianDay + days)
    }

    /** `toIsoString`. */
    function ToIsoString(): string
    {
      IsoText(YearMonthDay())
    }
  }

  /** "%4d-%02d-%02d" of the year, month and day. */
  function IsoText(ymd: YearMonthDay): string
  {
    FormatWidth(ymd.year, 4) + "-" + FormatZeroPadded(ymd.month, 2) + "-" + FormatZeroPadded(ymd.day, 2)
  }

  /** s is ten characters, digits around dashes at positions 4 and 7,
      whose three digit groups read as the year, month and day of ymd. */
  predicate ReadsBackAs(s: string, ymd: YearMonthDay)
  {
    && |s| == 10 && s[4] == '-' && s[7] == '-'
    && (forall i | 0 <= i < 10 && i != 4 && i != 7 :: IsDigit(s[i]))
    && ParseDigits(s[..4]) == ymd.year
    && ParseDigits(s[5..7]) == ymd.month
    && ParseDigits(s[8..]) == ymd.day
  }

  /** For a four-digit year the "%4d-%02d-%02d" text is ten characters,
      digits around two dashes, that read back as the year, month and day. */
  lemma IsoTextReadsBack(ymd: YearMonthDay)
    requires 1000 <= ymd.year <= 9999 && 1 <= ymd.month <= 12 && 1 <= ymd.day <= 31
    ensures ReadsBackAs(IsoText(ymd), ymd)
  {
    var y, m, d := FormatWidth(ymd.year, 4), FormatZeroPadded(ymd.month, 2), FormatZeroPadded(ymd.day, 2);
    assert Pow10(4) == 10000 && Pow10(3) == 1000 && Pow10(2) == 100;
    DigitsLength(ymd.year, 4);
    DigitsLength(ymd.month, 2);
    DigitsLength(ymd.day, 2);
    assert y == Digits(ymd.year);
    ParseDigitsOfDigits(ymd.year);
    assert |m| == 2 && |d| == 2;
    var s := IsoText(ymd);
    assert s == y + "-" + m + "-" + d;
    assert s[..4] == y && s[5..7] == m && s[8..] == d;
  }

  /** `toIsoString` of a date in a four-digit year reads back as its
      year, month and day. */
  lemma ToIsoStringReadsBack(date: Date)
    requires MinJulianDay <= date.julianDay <= MaxJulianDay
    requires 1000 <= date.Year() <= 9999
    ensures ReadsBackAs(date.ToIsoString(), date.YearMonthDay())
  {
    var ymd := date.YearMonthDay();
    assert 1 <= ymd.month <= 12 && 1 <= ymd.day <= 31 by {
      JulianDayOfYearMonthDay(date.julianDay);
    }
    IsoTextReadsBack(ymd);
  }

  /** The default-constructed Date: Julian Day 0, which converts to false. */
  const DefaultDate: Date := Date(0)

  /** `Date(year, month, day)`. */
  function DateOf(year: int, month: int, day: int): (r: Date)
    ensures MarchYear(year, month) >= 0 && ValidDate(year, month, day) && r.julianDay <= MaxJulianDay
            ==> r.YearMonthDay() == YearMonthDay(year, month, day)
  {
    if MarchYear(year, month) >= 0 && ValidDate(year, month, day)
       && GetJulianDay(year, month, day) <= MaxJulianDay then
      YearMonthDayOfJulianDay(year, month, day);
      Date(GetJulianDay(year, month, day))
    else
      Date(GetJulianDay(year, month, day))
  }

  /** Whatever the date, DateOf holds the Julian Day getJulianDay gives. */
  lemma DateOfJulianDay(year: int, month: int, day: int)
    ensures DateOf(year, month, day).julianDay == GetJulianDay(year, month, day)
  {
  }

  /** `Date(const struct tm&)`: tm_year counts from 1900 and tm_mon from 0. */
  function DateOfTm(t: Tm): (r: Date)
    ensures r == DateOf(t.year + 1900, t.mon + 1, t.mday)
  {
    Date(GetJulianDay(t.year + 1900, t.mon + 1, t.mday))
  }

  function Less(lhs: Date, rhs: Date): bool
  {
    lhs.julianDay < rhs.julianDay
  }

  function Equal(lhs: Date, rhs: Date): bool
  {
    lhs.julianDay == rhs.julianDay
  }

  /** `<` and `==` on dates form a strict total order with `==` as identity. */
  lemma DateOrder()
    ensures Comparable.StrictTotalOrder(Less, Equal)
    ensures forall a, b :: Equal(a, b) <==> a == b
  {
  }

  /** The default date is not valid, and validity is a positive Julian Day. */
  lemma DefaultDateInvalid()
    ensures !DefaultDate.Valid()
    ensures forall n :: Date(n).Valid() <==> n > 0
  {
  }

  /** Moving a date by whole weeks keeps its week day; 1 January 1970 was a
      Thursday (4). */
  lemma WeekDayPeriodic(date: Date, weeks: int)
    requires date.julianDay >= -1 && date.julianDay + 7 * weeks >= -1
    ensures date.Plus(7 * weeks).WeekDay() == date.WeekDay()
    ensures Date(JulianDayOf1970_01_01).WeekDay() == 4
  {
    ResidueUnique(date.julianDay + 1, weeks, date.WeekDay(), date.Plus(7 * weeks).WeekDay());
    assert Date(JulianDayOf1970_01_01).WeekDay() == 4 by {
      assert CDiv(JulianDayOf1970_01_01 + 1, DaysPerWeek) == 348655;
    }
  }

  /** Two week days that x and x + 7 weeks are congruent to are equal. */
  lemma ResidueUnique(x: int, weeks: int, w1: int, w2: int)
    requires 0 <= w1 < 7 && 0 <= w2 < 7
    requires (x - w1) % 7 == 0 && (x + 7 * weeks - w2) % 7 == 0
    ensures w1 == w2
  {
    var p := (x - w1) / 7;
    var q := (x + 7 * weeks - w2) / 7;
    assert x - w1 == 7 * p && x + 7 * weeks - w2 == 7 * q;
    assert w2 - w1 == 7 * (weeks + p - q);
  }

  /** Every valid date is stored as its Julian Day and reads back its own
      year, month and day; every Julian Day in range reads back as a date
      whose construction gives that Julian Day. */
  lemma DateRoundTrip(year: int, month: int, day: int, jd: int)
    requires MarchYear(year, month) >= 0 && ValidDate(year, month, day)
    requires GetJulianDay(year, month, day) <= MaxJulianDay
    requires MinJulianDay <= jd <= MaxJulianDay
    ensures var d := DateOf(year, month, day);
            d.Year() == year && d.Month() == month && d.Day() == day
    ensures var d := Date(jd);
            DateOf(d.Year(), d.Month(), d.Day()) == d
  {
    JulianDayOfYearMonthDay(jd);
  }

  lemma JulianDayScenario()
    ensures DateOf(2022, 6, 13) == Date(2459744)
  {
    assert GetJulianDay(2022, 6, 13) == 2459744;
  }

  lemma YearMonthDayScenario()
    ensures GetYearMonthDay(2459744) == YearMonthDay(2022, 6, 13)
  {
    assert GetJulianDay(2022, 6, 13) == 2459744;
    YearMonthDayOfJulianDay(2022, 6, 13);
  }

  lemma IsoTextScenario()
    ensures Date(2459744).ToIsoString() == "2022-06-13"
  {
    YearMonthDayScenario();
    FormatScenario();
  }

  lemma LaterIsoTextScenario()
    ensures Date(2461744).ToIsoString() == "2027-12-04"
  {
    assert GetYearMonthDay(2461744) == YearMonthDay(2027, 12, 4) by {
      assert GetJulianDay(2027, 12, 4) == 2461744;
      YearMonthDayOfJulianDay(2027, 12, 4);
    }
    FormatScenario();
  }

  lemma FormatScenario()
    ensures FormatWidth(2022, 4) == "2022" && FormatWidth(2027, 4) == "2027"
    ensures FormatZeroPadded(6, 2) == "06" && FormatZeroPadded(13, 2) == "13"
    ensures FormatZeroPadded(12, 2) == "12" && FormatZeroPadded(4, 2) == "04"
  {
    assert Digits(2022) == "2022";
    assert Digits(2027) == "2027";
  }

  /** `Date(2022, 6, 13)` is Julian Day 2459744 and prints "2022-06-13";
      2000 days later is "2027-12-04", a later and different date. */
  lemma DateScenario()
    ensures DateOf(2022, 6, 13) == Date(2459744)
    ensures Date(2459744).ToIsoString() == "2022-06-13"
    ensures Date(2459744).Plus(2000).ToIsoString() == "2027-12-04"
    ensures Comparable.GreaterEq(Less, Date(2459744).Plus(2000), Date(2459744))
    ensures Comparable.NotEqual(Equal, Date(2459744).Plus(2000), Date(2459744))
  {
    JulianDayScenario();
    IsoTextScenario();
    LaterIsoTextScenario();
  }
}
