/**
  Proleptic Gregorian calendar arithmetic on day numbers and millisecond time
  values, following the time-value algorithms of section 21.4.1 of ECMA-262
  (DayFromYear, YearFromTime, MonthFromTime, DateFromTime, WeekDay, MakeTime,
  MakeDay, MakeDate) with a local time-zone offset of zero.

  Day number 0 is 1970-01-01, a Thursday. Months are 0-based (January is 0).
 */
module Calendar {

  const MsPerSecond: int := 1000
  const MsPerMinute: int := 60000
  const MsPerHour: int := 3600000
  const MsPerDay: int := 86400000
  const MsPerWeek: int := 604800000

  predicate IsLeapYear(y: int) {
    y % 4 == 0 && (y % 100 != 0 || y % 400 == 0)
  }

  /** 1900 + y is a leap year exactly when y is, for y in 1..99 (1900 itself is not, 0 is). */
  lemma LeapYearTwoDigit(y: int)
    requires 1 <= y <= 99
    ensures IsLeapYear(1900 + y) == IsLeapYear(y)
  {
    assert (1900 + y) % 4 == y % 4;
    assert (1900 + y) % 100 == y % 100 == y;
  }

  function DaysInYear(y: int): int {
    if IsLeapYear(y) then 366 else 365
  }

  /** Day number of January 1 of year `y`. */
  function DayFromYear(y: int): int {
    365 * (y - 1970) + (y - 1969) / 4 - (y - 1901) / 100 + (y - 1601) / 400
  }

  /** Consecutive years are exactly one year length apart. */
  lemma DayFromYearStep(y: int)
    ensures DayFromYear(y + 1) == DayFromYear(y) + DaysInYear(y)
  {
    assert (y - 1968) / 4 - (y - 1969) / 4 == if y % 4 == 0 then 1 else 0;
    assert (y - 1900) / 100 - (y - 1901) / 100 == if y % 100 == 0 then 1 else 0;
    assert (y - 1600) / 400 - (y - 1601) / 400 == if y % 400 == 0 then 1 else 0;
  }

  /** DayFromYear stays within two days of 365.2425 days per year. */
  lemma DayFromYearBounds(y: int)
    ensures 146097 * (y - 1970) - 506 <= 400 * DayFromYear(y) <= 146097 * (y - 1970) + 589
  {
  }

  lemma DayFromYearMonotone(a: int, b: int)
    requires a <= b
    ensures DayFromYear(a) <= DayFromYear(b)
  {
    DayFromYearBounds(a);
    DayFromYearBounds(b);
  }

  /** The year containing day number `day`: the largest y with DayFromYear(y) <= day. */
  function YearFromDay(day: int): (y: int)
    ensures DayFromYear(y) <= day < DayFromYear(y + 1)
  {
    var est := 1970 + (400 * day) / 146097;
    DayFromYearBounds(est - 1);
    DayFromYearBounds(est + 2);
    if DayFromYear(est + 1) <= day then est + 1
    else if DayFromYear(est) <= day then est
    else est - 1
  }

  /** Only one year brackets a given day. */
  lemma YearFromDayUnique(day: int, y: int)
    requires DayFromYear(y) <= day < DayFromYear(y + 1)
    ensures YearFromDay(day) == y
  {
    var z := YearFromDay(day);
    if z < y {
      DayFromYearMonotone(z + 1, y);
    } else if z > y {
      DayFromYearMonotone(y + 1, z);
    }
  }

  /** Days of the year before the first day of month `m`; MonthStart(12, _) is the year length. */
  function MonthStart(m: int, leap: bool): int
    requires 0 <= m <= 12
  {
    var l := if leap then 1 else 0;
    if m == 0 then 0
    else if m == 1 then 31
    else if m == 2 then 59 + l
    else if m == 3 then 90 + l
    else if m == 4 then 120 + l
    else if m == 5 then 151 + l
    else if m == 6 then 181 + l
    else if m == 7 then 212 + l
    else if m == 8 then 243 + l
    else if m == 9 then 273 + l
    else if m == 10 then 304 + l
    else if m == 11 then 334 + l
    else 365 + l
  }

  /** Number of days of month `m` (0..11) of year `y`. */
  function DaysInMonth(y: int, m: int): (n: int)
    requires 0 <= m < 12
    ensures 28 <= n <= 31
    ensures m == 1 ==> (n == 29 <==> IsLeapYear(y))
    ensures m != 1 ==> n >= 30
  {
    MonthStart(m + 1, IsLeapYear(y)) - MonthStart(m, IsLeapYear(y))
  }

  /** The month holding day `dwy` (0-based) of a year. */
  function MonthInYear(dwy: int, leap: bool): (m: int)
    requires 0 <= dwy < MonthStart(12, leap)
    ensures 0 <= m < 12
    ensures MonthStart(m, leap) <= dwy < MonthStart(m + 1, leap)
  {
    if dwy < MonthStart(1, leap) then 0
    else if dwy < MonthStart(2, leap) then 1
    else if dwy < MonthStart(3, leap) then 2
    else if dwy < MonthStart(4, leap) then 3
    else if dwy < MonthStart(5, leap) then 4
    else if dwy < MonthStart(6, leap) then 5
    else if dwy < MonthStart(7, leap) then 6
    else if dwy < MonthStart(8, leap) then 7
    else if dwy < MonthStart(9, leap) then 8
    else if dwy < MonthStart(10, leap) then 9
    else if dwy < MonthStart(11, leap) then 10
    else 11
  }

  lemma MonthStartMonotone(a: int, b: int, leap: bool)
    requires 0 <= a <= b <= 12
    ensures MonthStart(a, leap) <= MonthStart(b, leap)
  {
  }

  lemma MonthInYearUnique(dwy: int, leap: bool, m: int)
    requires 0 <= m < 12
    requires MonthStart(m, leap) <= dwy < MonthStart(m + 1, leap)
    ensures MonthInYear(dwy, leap) == m
  {
    MonthStartMonotone(0, m, leap);
    MonthStartMonotone(m + 1, 12, leap);
    var k := MonthInYear(dwy, leap);
    if k < m {
      MonthStartMonotone(k + 1, m, leap);
    } else if k > m {
      MonthStartMonotone(m + 1, k, leap);
    }
  }

  function DayWithinYear(day: int): (n: int)
    ensures 0 <= n < DaysInYear(YearFromDay(day))
  {
    DayFromYearStep(YearFromDay(day));
    day - DayFromYear(YearFromDay(day))
  }

  function MonthFromDay(day: int): (m: int)
    ensures 0 <= m < 12
  {
    MonthInYear(DayWithinYear(day), IsLeapYear(YearFromDay(day)))
  }

  function DateFromDay(day: int): (dt: int)
    ensures 1 <= dt <= DaysInMonth(YearFromDay(day), MonthFromDay(day))
  {
    DayWithinYear(day) - MonthStart(MonthFromDay(day), IsLeapYear(YearFromDay(day))) + 1
  }

  /** Day of the week, 0 for Sunday; day 0 (1970-01-01) was a Thursday. */
  function WeekDay(day: int): (w: int)
    ensures 0 <= w < 7
  {
    (day + 4) % 7
  }

  /**
    MakeDay: the day number of date `dt` of month `m` of year `y`, where `m`
    outside 0..11 carries whole years and `dt` outside the month carries whole
    days (date 0 is the last day of the previous month).
   */
  function MakeDay(y: int, m: int, dt: int): int {
    var ym := y + m / 12;
    var mn := m % 12;
    DayFromYear(ym) + MonthStart(mn, IsLeapYear(ym)) + dt - 1
  }

  /** For a month 0..11 there is nothing to carry. */
  lemma MakeDayInYear(y: int, m: int, dt: int)
    requires 0 <= m < 12
    ensures MakeDay(y, m, dt) == DayFromYear(y) + MonthStart(m, IsLeapYear(y)) + dt - 1
  {
    assert m / 12 == 0 && m % 12 == m;
  }

  function MakeTime(h: int, mi: int, s: int, ms: int): int {
    h * MsPerHour + mi * MsPerMinute + s * MsPerSecond + ms
  }

  function MakeDate(day: int, time: int): int {
    day * MsPerDay + time
  }

  function DayOf(t: int): int {
    t / MsPerDay
  }

  function TimeWithinDay(t: int): (ms: int)
    ensures 0 <= ms < MsPerDay
  {
    t % MsPerDay
  }

  function HourFromTime(t: int): (h: int)
    ensures 0 <= h < 24
  {
    TimeWithinDay(t) / MsPerHour
  }

  function MinFromTime(t: int): (mi: int)
    ensures 0 <= mi < 60
  {
    (TimeWithinDay(t) / MsPerMinute) % 60
  }

  function SecFromTime(t: int): (s: int)
    ensures 0 <= s < 60
  {
    (TimeWithinDay(t) / MsPerSecond) % 60
  }

  function MsFromTime(t: int): (ms: int)
    ensures 0 <= ms < 1000
  {
    TimeWithinDay(t) % MsPerSecond
  }

  /** Every day number is the MakeDay of its own year, month and date. */
  lemma {:induction false} MakeDayOfCivil(day: int)
    ensures MakeDay(YearFromDay(day), MonthFromDay(day), DateFromDay(day)) == day
  {
    MakeDayInYear(YearFromDay(day), MonthFromDay(day), DateFromDay(day));
  }

  /** A date inside its month is recovered from its day number. */
  lemma {:induction false} CivilOfMakeDay(y: int, m: int, dt: int)
    requires 0 <= m < 12
    requires 1 <= dt <= DaysInMonth(y, m)
    ensures YearFromDay(MakeDay(y, m, dt)) == y
    ensures MonthFromDay(MakeDay(y, m, dt)) == m
    ensures DateFromDay(MakeDay(y, m, dt)) == dt
  {
    var day := MakeDay(y, m, dt);
    var leap := IsLeapYear(y);
    MakeDayInYear(y, m, dt);
    MonthStartMonotone(m + 1, 12, leap);
    DayFromYearStep(y);
    YearFromDayUnique(day, y);
    MonthInYearUnique(day - DayFromYear(y), leap, m);
  }

  /** Within its month, MakeDay moves one day per unit of the date, also past the month's ends. */
  lemma MakeDayShift(y: int, m: int, dt: int, k: int)
    requires 0 <= m < 12
    ensures MakeDay(y, m, dt + k) == MakeDay(y, m, dt) + k
  {
    MakeDayInYear(y, m, dt);
    MakeDayInYear(y, m, dt + k);
  }

  /** Date 0 of month m + 1 is the last day of month m, also across a year end. */
  lemma DayZeroIsLastOfPreviousMonth(y: int, m: int)
    requires 0 <= m < 12
    ensures MakeDay(y, m + 1, 0) == MakeDay(y, m, DaysInMonth(y, m))
  {
    MakeDayInYear(y, m, DaysInMonth(y, m));
    if m == 11 {
      assert MakeDay(y, 12, 0) == DayFromYear(y + 1) - 1;
      DayFromYearStep(y);
    } else {
      MakeDayInYear(y, m + 1, 0);
    }
  }

  /** A time value is recovered from its day and its time-of-day fields. */
  lemma TimeRoundTrip(t: int)
    ensures MakeDate(DayOf(t), MakeTime(HourFromTime(t), MinFromTime(t), SecFromTime(t), MsFromTime(t))) == t
  {
    var tod := TimeWithinDay(t);
    assert tod == HourFromTime(t) * MsPerHour + MinFromTime(t) * MsPerMinute + SecFromTime(t) * MsPerSecond + MsFromTime(t);
  }

  /** Fields within their ranges are recovered from the time value they build. */
  lemma FieldsOfMakeDate(day: int, h: int, mi: int, s: int, ms: int)
    requires 0 <= h < 24 && 0 <= mi < 60 && 0 <= s < 60 && 0 <= ms < 1000
    ensures DayOf(MakeDate(day, MakeTime(h, mi, s, ms))) == day
    ensures HourFromTime(MakeDate(day, MakeTime(h, mi, s, ms))) == h
    ensures MinFromTime(MakeDate(day, MakeTime(h, mi, s, ms))) == mi
    ensures SecFromTime(MakeDate(day, MakeTime(h, mi, s, ms))) == s
    ensures MsFromTime(MakeDate(day, MakeTime(h, mi, s, ms))) == ms
  {
    var time := MakeTime(h, mi, s, ms);
    var t := MakeDate(day, time);
    assert 0 <= time < MsPerDay;
    assert t / MsPerDay == day && t % MsPerDay == time;
    assert time / MsPerHour == h;
    assert time / MsPerMinute == h * 60 + mi;
    assert (h * 60 + mi) % 60 == mi;
    assert time / MsPerSecond == h * 3600 + mi * 60 + s;
    assert (h * 3600 + mi * 60 + s) % 60 == s;
    assert time % MsPerSecond == ms;
  }
}
