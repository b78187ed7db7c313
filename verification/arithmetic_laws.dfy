/**
  What the arithmetic engine guarantees: boundaries bracket the instant,
  week boundaries fall on the locale's week start, month lengths, the effect
  of set and add on the calendar fields, the inverse of add, and how diff and
  the comparisons agree with them.
 */
module ArithmeticLaws {
  import opened Maybe
  import opened Calendar
  import opened JsDate
  import opened Locales
  import opened Instant
  import opened Arithmetic

  /** A time value splits uniquely into a day number and a time of day. */
  lemma DayDecompose(day: int, tod: int)
    requires 0 <= tod < MsPerDay
    ensures DayOf(MakeDate(day, tod)) == day
    ensures TimeWithinDay(MakeDate(day, tod)) == tod
  {
    var t := MakeDate(day, tod);
    assert t / MsPerDay == day && t % MsPerDay == tod;
  }

  /** Moving by k whole days moves the day number by k and keeps the time of day. */
  lemma ShiftByDays(t: int, k: int)
    ensures DayOf(t + k * MsPerDay) == DayOf(t) + k
    ensures TimeWithinDay(t + k * MsPerDay) == TimeWithinDay(t)
  {
    assert t == MakeDate(DayOf(t), TimeWithinDay(t));
    assert t + k * MsPerDay == MakeDate(DayOf(t) + k, TimeWithinDay(t));
    DayDecompose(DayOf(t) + k, TimeWithinDay(t));
  }

  /** The last millisecond of a day, as endOf('day') builds it from its midnight. */
  lemma EndOfDay(day: int)
    ensures var e := SetTimeOfDay(TimeClip(MakeDate(day, 0)), Some(23), Some(59), Some(59), Some(999));
      e.Valid? ==> e.t == MakeDate(day, MsPerDay - 1)
  {
    DayDecompose(day, 0);
  }

  /** A boundary day is midnight of that day (start) or its last millisecond (end). */
  lemma DayAtTime(y: int, m: int, dt: int, isStart: bool)
    ensures DayAt(y, m, dt, isStart, false).Valid? ==>
      DayAt(y, m, dt, isStart, false).t == MakeDate(MakeDay(y, m, dt), Edge(isStart, 0, MsPerDay - 1))
  {
    var day := MakeDay(y, m, dt);
    assert FromFields(y, m, dt, 0, 0, 0, 0) == TimeClip(MakeDate(day, 0));
    EndOfDay(day);
  }

  /** Setting the clock fields keeps the day and replaces the time of day. */
  lemma ClockTime(t: int, h: Option<int>, mi: Option<int>, s: Option<int>, ms: Option<int>)
    ensures SetTimeOfDay(Valid(t), h, mi, s, ms).Valid? ==>
      SetTimeOfDay(Valid(t), h, mi, s, ms).t == MakeDate(DayOf(t),
        MakeTime(h.GetOr(HourFromTime(t)), mi.GetOr(MinFromTime(t)),
                 s.GetOr(SecFromTime(t)), ms.GetOr(MsFromTime(t))))
  {
  }

  /** The year's first and last days enclose every date of the year. */
  lemma YearDays(y: int, m: int, dt: int)
    requires 0 <= m < 12 && 1 <= dt <= DaysInMonth(y, m)
    ensures MakeDay(y, 0, 1) <= MakeDay(y, m, dt) <= MakeDay(y, 11, 31)
  {
    MakeDayInYear(y, 0, 1);
    MakeDayInYear(y, m, dt);
    MakeDayInYear(y, 11, 31);
    MonthStartMonotone(0, m, IsLeapYear(y));
    MonthStartMonotone(m + 1, 12, IsLeapYear(y));
  }

  /** Midnight of a day not after t's day is not after t. */
  lemma MidnightNotAfter(t: int, sd: int)
    requires sd <= DayOf(t)
    ensures MakeDate(sd, 0) <= t
  {
    assert t == MakeDate(DayOf(t), TimeWithinDay(t));
  }

  /** The last millisecond of a day not before t's day is not before t. */
  lemma LastMsNotBefore(t: int, ed: int)
    requires DayOf(t) <= ed
    ensures t <= MakeDate(ed, MsPerDay - 1)
  {
    assert t == MakeDate(DayOf(t), TimeWithinDay(t));
  }

  /** The boundary days of a year: January 1 and December 31 of the instant's year. */
  lemma YearBoundaryDays(t: int, weekStart: int)
    ensures BoundaryTime(Valid(t), Year, true, weekStart, false) == DayAt(FieldsOf(t).year, 0, 1, true, false)
    ensures BoundaryTime(Valid(t), Year, false, weekStart, false) == DayAt(FieldsOf(t).year, 11, 31, false, false)
  {
  }

  /** The boundary days of a month: its first day and date 0 of the next month. */
  lemma MonthBoundaryDays(t: int, weekStart: int)
    ensures BoundaryTime(Valid(t), Month, true, weekStart, false)
         == DayAt(FieldsOf(t).year, FieldsOf(t).month, 1, true, false)
    ensures BoundaryTime(Valid(t), Month, false, weekStart, false)
         == DayAt(FieldsOf(t).year, FieldsOf(t).month + 1, 0, false, false)
  {
  }

  /** The boundary days of a week: WeekGap days back and 6 - WeekGap days ahead, by date. */
  lemma WeekBoundaryDays(t: int, weekStart: int)
    ensures var f := FieldsOf(t);
      BoundaryTime(Valid(t), Week, true, weekStart, false)
      == DayAt(f.year, f.month, f.date - WeekGap(f.weekday, weekStart), true, false)
    ensures var f := FieldsOf(t);
      BoundaryTime(Valid(t), Week, false, weekStart, false)
      == DayAt(f.year, f.month, f.date + (6 - WeekGap(f.weekday, weekStart)), false, false)
  {
  }

  /**
    A start boundary that is midnight of a day not after the instant's day,
    and an end boundary that is the last millisecond of a day not before it,
    bracket the instant.
   */
  lemma BracketByDays(t: int, s: Time, e: Time, sd: int, ed: int)
    requires sd <= DayOf(t) <= ed
    requires s.Valid? ==> s.t == MakeDate(sd, 0)
    requires e.Valid? ==> e.t == MakeDate(ed, MsPerDay - 1)
    ensures s.Valid? ==> s.t <= t
    ensures e.Valid? ==> t <= e.t
  {
    MidnightNotAfter(t, sd);
    LastMsNotBefore(t, ed);
  }

  lemma {:induction false} BracketYear(t: int, weekStart: int)
    ensures BoundaryTime(Valid(t), Year, true, weekStart, false).Valid? ==>
      BoundaryTime(Valid(t), Year, true, weekStart, false).t <= t
    ensures BoundaryTime(Valid(t), Year, false, weekStart, false).Valid? ==>
      t <= BoundaryTime(Valid(t), Year, false, weekStart, false).t
  {
    var f := FieldsOf(t);
    FieldsOfRoundTrip(t);
    YearBoundaryDays(t, weekStart);
    YearDays(f.year, f.month, f.date);
    DayAtTime(f.year, 0, 1, true);
    DayAtTime(f.year, 11, 31, false);
    BracketByDays(t, BoundaryTime(Valid(t), Year, true, weekStart, false),
                  BoundaryTime(Valid(t), Year, false, weekStart, false),
                  MakeDay(f.year, 0, 1), MakeDay(f.year, 11, 31));
  }

  /** A month's first day and date 0 of the next month enclose every date of the month. */
  lemma MonthDays(day: int, y: int, m: int, dt: int)
    requires 0 <= m < 12 && 1 <= dt <= DaysInMonth(y, m)
    requires day == MakeDay(y, m, dt)
    ensures MakeDay(y, m, 1) <= day <= MakeDay(y, m + 1, 0)
  {
    DayZeroIsLastOfPreviousMonth(y, m);
    MakeDayShift(y, m, 1, dt - 1);
    MakeDayShift(y, m, dt, DaysInMonth(y, m) - dt);
  }

  /** startOf('month') is midnight of the month's first day. */
  lemma MonthStartTime(t: int, weekStart: int)
    ensures var f := FieldsOf(t); var s := BoundaryTime(Valid(t), Month, true, weekStart, false);
      s.Valid? ==> s.t == MakeDate(MakeDay(f.year, f.month, 1), 0)
  {
    var f := FieldsOf(t);
    MonthBoundaryDays(t, weekStart);
    DayAtTime(f.year, f.month, 1, true);
  }

  /** endOf('month') is the last millisecond of date 0 of the next month. */
  lemma MonthEndTime(t: int, weekStart: int)
    ensures var f := FieldsOf(t); var e := BoundaryTime(Valid(t), Month, false, weekStart, false);
      e.Valid? ==> e.t == MakeDate(MakeDay(f.year, f.month + 1, 0), MsPerDay - 1)
  {
    var f := FieldsOf(t);
    MonthBoundaryDays(t, weekStart);
    DayAtTime(f.year, f.month + 1, 0, false);
  }

  /** The day of a time value lies in its own month. */
  lemma {:induction false} DayInMonth(t: int)
    ensures var f := FieldsOf(t);
      MakeDay(f.year, f.month, 1) <= DayOf(t) <= MakeDay(f.year, f.month + 1, 0)
  {
    var f := FieldsOf(t);
    FieldsOfRoundTrip(t);
    MonthDays(DayOf(t), f.year, f.month, f.date);
  }

  lemma {:induction false} BracketMonth(t: int, weekStart: int)
    ensures BoundaryTime(Valid(t), Month, true, weekStart, false).Valid? ==>
      BoundaryTime(Valid(t), Month, true, weekStart, false).t <= t
    ensures BoundaryTime(Valid(t), Month, false, weekStart, false).Valid? ==>
      t <= BoundaryTime(Valid(t), Month, false, weekStart, false).t
  {
    MonthStartNotAfter(t, weekStart);
    MonthEndNotBefore(t, weekStart);
  }

  lemma {:induction false} MonthStartNotAfter(t: int, weekStart: int)
    ensures var s := BoundaryTime(Valid(t), Month, true, weekStart, false);
      s.Valid? ==> s.t <= t
  {
    var f := FieldsOf(t);
    MonthStartTime(t, weekStart);
    DayInMonth(t);
    MidnightNotAfter(t, MakeDay(f.year, f.month, 1));
  }

  lemma {:induction false} MonthEndNotBefore(t: int, weekStart: int)
    ensures var e := BoundaryTime(Valid(t), Month, false, weekStart, false);
      e.Valid? ==> t <= e.t
  {
    var f := FieldsOf(t);
    MonthEndTime(t, weekStart);
    DayInMonth(t);
    LastMsNotBefore(t, MakeDay(f.year, f.month + 1, 0));
  }

  /** The day `gap` days before a day of weekday w is on the week start, for the gap startOf('week') uses. */
  lemma WeekDayBack(day: int, weekStart: int)
    requires 0 <= weekStart < 7
    ensures var w := WeekDay(day);
      var gap := WeekGap(w, weekStart);
      0 <= gap < 7 && WeekDay(day - gap) == weekStart
  {
    var w := WeekDay(day);
    var q := (day + 4) / 7;
    assert day + 4 == 7 * q + w;
    if w < weekStart {
      assert day - (w + 7 - weekStart) + 4 == 7 * (q - 1) + weekStart;
    } else {
      assert day - (w - weekStart) + 4 == 7 * q + weekStart;
    }
  }

  /** The day numbers of the week boundaries: the day `gap` days back and 6 - gap days ahead. */
  lemma {:induction false} WeekDays(t: int, weekStart: int)
    requires 0 <= weekStart < 7
    ensures var f := FieldsOf(t);
      var gap := WeekGap(f.weekday, weekStart);
      && 0 <= gap < 7
      && MakeDay(f.year, f.month, f.date - gap) == DayOf(t) - gap
      && MakeDay(f.year, f.month, f.date + (6 - gap)) == DayOf(t) + (6 - gap)
      && WeekDay(DayOf(t) - gap) == weekStart
  {
    var f := FieldsOf(t);
    FieldsOfRoundTrip(t);
    var gap := WeekGap(f.weekday, weekStart);
    WeekDayBack(DayOf(t), weekStart);
    MakeDayShift(f.year, f.month, f.date, -gap);
    MakeDayShift(f.year, f.month, f.date, 6 - gap);
  }

  lemma {:induction false} BracketWeek(t: int, weekStart: int)
    requires 0 <= weekStart < 7
    ensures BoundaryTime(Valid(t), Week, true, weekStart, false).Valid? ==>
      BoundaryTime(Valid(t), Week, true, weekStart, false).t <= t
    ensures BoundaryTime(Valid(t), Week, false, weekStart, false).Valid? ==>
      t <= BoundaryTime(Valid(t), Week, false, weekStart, false).t
  {
    var gap := WeekGap(WeekDay(DayOf(t)), weekStart);
    WeekStartTime(t, weekStart);
    WeekEndTime(t, weekStart);
    WeekDayBack(DayOf(t), weekStart);
    BracketByDays(t, BoundaryTime(Valid(t), Week, true, weekStart, false),
                  BoundaryTime(Valid(t), Week, false, weekStart, false),
                  DayOf(t) - gap, DayOf(t) + (6 - gap));
  }

  lemma {:induction false} BracketClock(t: int, u: Unit)
    requires u in {Day, Date, Hour, Minute, Second}
    ensures BoundaryTime(Valid(t), u, true, 0, false).Valid? ==>
      BoundaryTime(Valid(t), u, true, 0, false).t <= t
    ensures BoundaryTime(Valid(t), u, false, 0, false).Valid? ==>
      t <= BoundaryTime(Valid(t), u, false, 0, false).t
  {
    TimeRoundTrip(t);
    if u in {Day, Date} {
      ClockTime(t, Some(0), Some(0), Some(0), Some(0));
      ClockTime(t, Some(23), Some(59), Some(59), Some(999));
    } else if u == Hour {
      ClockTime(t, None, Some(0), Some(0), Some(0));
      ClockTime(t, None, Some(59), Some(59), Some(999));
    } else if u == Minute {
      ClockTime(t, None, None, Some(0), Some(0));
      ClockTime(t, None, None, Some(59), Some(999));
    } else {
      ClockTime(t, None, None, None, Some(0));
      ClockTime(t, None, None, None, Some(999));
    }
  }

  /** Every boundary that is a date lies on the correct side of the instant. */
  lemma {:induction false} BoundaryBrackets(t: int, u: Unit, weekStart: int)
    requires 0 <= weekStart < 7
    ensures BoundaryTime(Valid(t), u, true, weekStart, false).Valid? ==>
      BoundaryTime(Valid(t), u, true, weekStart, false).t <= t
    ensures BoundaryTime(Valid(t), u, false, weekStart, false).Valid? ==>
      t <= BoundaryTime(Valid(t), u, false, weekStart, false).t
  {
    match u {
      case Year => BracketYear(t, weekStart);
      case Month => BracketMonth(t, weekStart);
      case Week => BracketWeek(t, weekStart);
      case Day => BracketClock(t, u);
      case Date => BracketClock(t, u);
      case Hour => BracketClock(t, u);
      case Minute => BracketClock(t, u);
      case Second => BracketClock(t, u);
      case _ =>
    }
  }

  /**
    startOf(u) <= x <= endOf(u) for every unit, whenever the boundary is
    itself a date; for a unit without boundaries both are x itself.
   */
  lemma StartOfEndOfBracket(reg: Registry, x: Dayjs, u: Unit)
    requires x.d.Valid?
    requires u == Week ==> LocaleOf(reg, x.l).Some? && WellFormed(LocaleOf(reg, x.l).value)
    ensures StartOf(reg, x, u).d.Valid? ==> StartOf(reg, x, u).d.t <= x.d.t
    ensures EndOf(reg, x, u).d.Valid? ==> x.d.t <= EndOf(reg, x, u).d.t
    ensures !(u in {Year, Month, Week, Day, Date, Hour, Minute, Second}) ==>
      StartOf(reg, x, u).d == x.d && EndOf(reg, x, u).d == x.d
  {
    BoundaryBrackets(x.d.t, u, if u == Week then WeekStartOf(reg, x) else 0);
  }

  /** The day 6 - gap days after a day, for the gap startOf('week') uses, is the last day of its week. */
  lemma WeekDayForward(day: int, weekStart: int)
    requires 0 <= weekStart < 7
    ensures var gap := WeekGap(WeekDay(day), weekStart);
      0 <= 6 - gap <= 6 && WeekDay(day + (6 - gap)) == (weekStart + 6) % 7
  {
    var gap := WeekGap(WeekDay(day), weekStart);
    WeekDayBack(day, weekStart);
    WeekDayAhead(day - gap, 6);
    assert day - gap + 6 == day + (6 - gap);
  }

  /** k days after a day the weekday has advanced by k (mod 7). */
  lemma WeekDayAhead(day: int, k: int)
    ensures WeekDay(day + k) == (WeekDay(day) + k) % 7
  {
    var q := (day + 4) / 7;
    assert day + 4 == 7 * q + WeekDay(day);
    assert day + k + 4 == 7 * q + (WeekDay(day) + k);
  }

  /** startOf('week') is midnight of the day WeekGap days back. */
  lemma {:induction false} WeekStartTime(t: int, weekStart: int)
    requires 0 <= weekStart < 7
    ensures BoundaryTime(Valid(t), Week, true, weekStart, false)
         == TimeClip(MakeDate(DayOf(t) - WeekGap(WeekDay(DayOf(t)), weekStart), 0))
  {
    var f := FieldsOf(t);
    var gap := WeekGap(f.weekday, weekStart);
    WeekBoundaryDays(t, weekStart);
    WeekDays(t, weekStart);
    DayAtTime(f.year, f.month, f.date - gap, true);
    assert MakeDay(f.year, f.month, f.date - gap) == DayOf(t) - gap;
  }

  /** endOf('week') is the last millisecond of the day 6 - WeekGap days ahead. */
  lemma {:induction false} WeekEndTime(t: int, weekStart: int)
    requires 0 <= weekStart < 7
    ensures var e := BoundaryTime(Valid(t), Week, false, weekStart, false);
      e.Valid? ==> e.t == MakeDate(DayOf(t) + (6 - WeekGap(WeekDay(DayOf(t)), weekStart)), MsPerDay - 1)
  {
    var f := FieldsOf(t);
    WeekBoundaryDays(t, weekStart);
    WeekEndDay(t, weekStart);
    DayAtTime(f.year, f.month, f.date + (6 - WeekGap(f.weekday, weekStart)), false);
  }

  /** The date endOf('week') moves to is the day 6 - WeekGap days after t's day. */
  lemma {:induction false} WeekEndDay(t: int, weekStart: int)
    requires 0 <= weekStart < 7
    ensures var f := FieldsOf(t);
      MakeDay(f.year, f.month, f.date + (6 - WeekGap(f.weekday, weekStart)))
      == DayOf(t) + (6 - WeekGap(WeekDay(DayOf(t)), weekStart))
  {
    WeekDays(t, weekStart);
  }

  /** Midnight of the day WeekGap days back is on the week start, at most six days before t. */
  lemma WeekStartFields(t: int, weekStart: int, s: Time)
    requires 0 <= weekStart < 7
    requires s == TimeClip(MakeDate(DayOf(t) - WeekGap(WeekDay(DayOf(t)), weekStart), 0))
    ensures s.Valid? ==>
      && WeekDay(DayOf(s.t)) == weekStart
      && TimeWithinDay(s.t) == 0
      && 0 <= DayOf(t) - DayOf(s.t) <= 6
  {
    WeekDayBack(DayOf(t), weekStart);
    DayDecompose(DayOf(t) - WeekGap(WeekDay(DayOf(t)), weekStart), 0);
  }

  /** The last millisecond of the day 6 - WeekGap days ahead ends the week, at most six days after t. */
  lemma WeekEndFields(t: int, weekStart: int, e: Time)
    requires 0 <= weekStart < 7
    requires e.Valid? ==> e.t == MakeDate(DayOf(t) + (6 - WeekGap(WeekDay(DayOf(t)), weekStart)), MsPerDay - 1)
    ensures e.Valid? ==>
      && WeekDay(DayOf(e.t)) == (weekStart + 6) % 7
      && TimeWithinDay(e.t) == MsPerDay - 1
      && 0 <= DayOf(e.t) - DayOf(t) <= 6
  {
    WeekDayForward(DayOf(t), weekStart);
    DayDecompose(DayOf(t) + (6 - WeekGap(WeekDay(DayOf(t)), weekStart)), MsPerDay - 1);
  }

  /**
    In a well-formed locale, startOf('week') is midnight of a day on the
    locale's week start at most six days before x, and endOf('week') is the
    last millisecond of the day before the next week start, at most six days
    after x.
   */
  lemma WeekBoundaries(reg: Registry, x: Dayjs)
    requires x.d.Valid? && LocaleOf(reg, x.l).Some? && WellFormed(LocaleOf(reg, x.l).value)
    ensures var s := StartOf(reg, x, Week).d;
      s.Valid? ==>
        && FieldsOf(s.t).weekday == WeekStartOf(reg, x)
        && TimeWithinDay(s.t) == 0
        && 0 <= DayOf(x.d.t) - DayOf(s.t) <= 6
    ensures var e := EndOf(reg, x, Week).d;
      e.Valid? ==>
        && FieldsOf(e.t).weekday == (WeekStartOf(reg, x) + 6) % 7
        && TimeWithinDay(e.t) == MsPerDay - 1
        && 0 <= DayOf(e.t) - DayOf(x.d.t) <= 6
  {
    var ws := WeekStartOf(reg, x);
    WeekStartTime(x.d.t, ws);
    WeekEndTime(x.d.t, ws);
    WeekStartFields(x.d.t, ws, StartOf(reg, x, Week).d);
    WeekEndFields(x.d.t, ws, EndOf(reg, x, Week).d);
  }

  /**
    daysInMonth() is the length of the instant's month: 28..31, and 29 for a
    February exactly in a leap year.
   */
  lemma {:induction false} DaysInMonthIsMonthLength(reg: Registry, x: Dayjs)
    requires x.d.Valid? && DaysInMonthOf(reg, x).Some?
    ensures DaysInMonthOf(reg, x).value == DaysInMonth(FieldsOf(x.d.t).year, FieldsOf(x.d.t).month)
    ensures 28 <= DaysInMonthOf(reg, x).value <= 31
    ensures FieldsOf(x.d.t).month == 1 ==> (DaysInMonthOf(reg, x).value == 29 <==> IsLeapYear(FieldsOf(x.d.t).year))
  {
    var f := FieldsOf(x.d.t);
    var n := DaysInMonth(f.year, f.month);
    DayAtTime(f.year, f.month + 1, 0, false);
    DayZeroIsLastOfPreviousMonth(f.year, f.month);
    assert MakeTime(23, 59, 59, 999) == MsPerDay - 1;
    FieldsOfBuild(f.year, f.month, n, 23, 59, 59, 999);
  }

  /** Outside the years 0..99 the source's startOf/endOf and the model's agree. */
  lemma StartOfAsWrittenAgrees(reg: Registry, x: Dayjs, u: Unit)
    requires u == Week ==> LocaleOf(reg, x.l).Some?
    requires x.d.Valid? ==> !(0 <= FieldsOf(x.d.t).year <= 99)
    ensures StartOfAsWritten(reg, x, u, true) == StartOf(reg, x, u)
    ensures StartOfAsWritten(reg, x, u, false) == EndOf(reg, x, u)
  {
  }

  /**
    As written, startOf('year') of an instant in the year 50 is January 1,
    1950: later than the instant it should precede.
   */
  lemma StartOfYearFiftyIsLater(reg: Registry, l: LocaleRef)
    ensures var x := Dayjs(FromFields(50, 5, 15, 12, 0, 0, 0), l);
      && x.d.Valid?
      && StartOfAsWritten(reg, x, Year, true).d.Valid?
      && StartOfAsWritten(reg, x, Year, true).d.t > x.d.t
  {
    YearFiftyFields();
    var t := MakeDate(MakeDay(50, 5, 15), MakeTime(12, 0, 0, 0));
    assert BoundaryTime(Valid(t), Year, true, 0, true) == NewDate(50, 0, 1, 0, 0, 0, 0);
  }

  /** The days of June 15 of the year 50 and of January 1, 1950, and the fields of the former at noon. */
  lemma YearFiftyFields()
    ensures MakeDay(50, 5, 15) == -701100
    ensures MakeDay(1950, 0, 1) == -7305
    ensures FieldsOf(MakeDate(MakeDay(50, 5, 15), MakeTime(12, 0, 0, 0))).year == 50
  {
    assert DayFromYear(50) == -701265;
    assert DayFromYear(1950) == -7305;
    FieldsOfBuild(50, 5, 15, 12, 0, 0, 0);
  }

  /**
    set('day', v) moves the date by v - $W whole days and so lands on
    weekday v (mod 7), keeping the time of day.
   */
  lemma {:induction false} SetWeekday(reg: Registry, x: Dayjs, v: int)
    requires x.d.Valid?
    ensures var r := Set(reg, x, Day, v);
      r.d.Valid? ==>
        && r.d.t == x.d.t + (v - FieldsOf(x.d.t).weekday) * MsPerDay
        && FieldsOf(r.d.t).weekday == v % 7
        && TimeWithinDay(r.d.t) == TimeWithinDay(x.d.t)
  {
    SetTime(reg, x, Day, v);
    SetWeekdayField(x.d.t, v);
  }

  lemma SetWeekdayField(t: int, v: int)
    ensures var r := SetField(Valid(t), Day, v);
      r.Valid? ==>
        && r.t == t + (v - FieldsOf(t).weekday) * MsPerDay
        && FieldsOf(r.t).weekday == v % 7
        && TimeWithinDay(r.t) == TimeWithinDay(t)
  {
    SetWeekdayTime(t, v);
    ShiftToWeekday(t, v, SetField(Valid(t), Day, v));
  }

  /** Moving t by v minus its weekday in whole days lands on weekday v mod 7 at the same time of day. */
  lemma ShiftToWeekday(t: int, v: int, r: Time)
    requires r == TimeClip(t + (v - WeekDay(DayOf(t))) * MsPerDay)
    ensures r.Valid? ==> WeekDay(DayOf(r.t)) == v % 7 && TimeWithinDay(r.t) == TimeWithinDay(t)
  {
    ShiftByDays(t, v - WeekDay(DayOf(t)));
    WeekDayShift(DayOf(t), v);
  }

  /** set changes the time value as $set does. */
  lemma SetTime(reg: Registry, x: Dayjs, u: Unit, v: int)
    ensures Set(reg, x, u, v).d == SetField(x.d, u, v)
  {
  }

  /** The setter behind set('day', v): setDate($D + (v - $W)), a shift by v - $W days. */
  lemma SetWeekdayTime(t: int, v: int)
    ensures SetField(Valid(t), Day, v) == TimeClip(t + (v - WeekDay(DayOf(t))) * MsPerDay)
  {
    var f := FieldsOf(t);
    assert f.date + (v - f.weekday) - f.date == v - WeekDay(DayOf(t));
  }

  /** Moving a day by v minus its weekday lands on weekday v mod 7. */
  lemma WeekDayShift(day: int, v: int)
    ensures WeekDay(day + (v - WeekDay(day))) == v % 7
  {
    var q := (day + 4) / 7;
    assert day + 4 == 7 * q + WeekDay(day);
    assert day + (v - WeekDay(day)) + 4 == 7 * q + v;
  }

  /** set('date', dt) with a date of the month sets that date and nothing else. */
  lemma {:induction false} SetDateField(reg: Registry, x: Dayjs, dt: int)
    requires x.d.Valid?
    requires 1 <= dt <= DaysInMonth(FieldsOf(x.d.t).year, FieldsOf(x.d.t).month)
    ensures var r := Set(reg, x, Date, dt); var f := FieldsOf(x.d.t);
      r.d.Valid? ==> FieldsOf(r.d.t) == f.(date := dt, weekday := WeekDay(MakeDay(f.year, f.month, dt)))
  {
    var t := x.d.t;
    var f := FieldsOf(t);
    FieldsOfRoundTrip(t);
    var t' := MakeDate(MakeDay(f.year, f.month, dt), MakeTime(f.hours, f.minutes, f.seconds, f.ms));
    assert Set(reg, x, Date, dt).d == TimeClip(t');
    FieldsOfBuild(f.year, f.month, dt, f.hours, f.minutes, f.seconds, f.ms);
  }

  /** set('month', m) with m in 0..11, when the date exists in month m, sets the month and nothing else. */
  lemma {:induction false} SetMonthField(reg: Registry, x: Dayjs, m: int)
    requires x.d.Valid? && 0 <= m < 12
    requires FieldsOf(x.d.t).date <= DaysInMonth(FieldsOf(x.d.t).year, m)
    ensures var r := Set(reg, x, Month, m); var f := FieldsOf(x.d.t);
      r.d.Valid? ==> FieldsOf(r.d.t) == f.(month := m, weekday := WeekDay(MakeDay(f.year, m, f.date)))
  {
    var t := x.d.t;
    var f := FieldsOf(t);
    FieldsOfRoundTrip(t);
    var t' := MakeDate(MakeDay(f.year, m, f.date), MakeTime(f.hours, f.minutes, f.seconds, f.ms));
    assert Set(reg, x, Month, m).d == TimeClip(t');
    FieldsOfBuild(f.year, m, f.date, f.hours, f.minutes, f.seconds, f.ms);
  }

  /** set('hour', h) with h in 0..23 sets the hour and nothing else. */
  lemma {:induction false} SetHourField(reg: Registry, x: Dayjs, h: int)
    requires x.d.Valid? && 0 <= h < 24
    ensures var r := Set(reg, x, Hour, h); var f := FieldsOf(x.d.t);
      r.d.Valid? ==> FieldsOf(r.d.t) == f.(hours := h)
  {
    var t := x.d.t;
    var f := FieldsOf(t);
    FieldsOfRoundTrip(t);
    TimeRoundTrip(t);
    var t' := MakeDate(MakeDay(f.year, f.month, f.date), MakeTime(h, f.minutes, f.seconds, f.ms));
    assert Set(reg, x, Hour, h).d == TimeClip(t');
    FieldsOfBuild(f.year, f.month, f.date, h, f.minutes, f.seconds, f.ms);
  }

  /** Day 0 lies in 1970. */
  lemma EpochYear()
    ensures YearFromDay(0) == 1970
  {
    assert DayFromYear(1970) == 0;
    assert DayFromYear(1971) == 365;
    YearFromDayUnique(0, 1970);
  }

  /** Day 0 is January 1. */
  lemma EpochMonthDate()
    ensures MonthFromDay(0) == 0 && DateFromDay(0) == 1
  {
    EpochYear();
    assert DayWithinYear(0) == 0;
  }

  /** Time value 0 is midnight of January 1 (1970). */
  lemma EpochFields(t: int)
    requires t == 0
    ensures DayOf(t) == 0 && TimeWithinDay(t) == 0
    ensures FieldsOf(t).month == 0 && FieldsOf(t).date == 1
  {
    EpochMonthDate();
  }

  /** setFullYear on NaN starts from time value +0: January 1 of the year, at midnight. */
  lemma SetFullYearOnInvalid(y: int)
    ensures SetFullYear(Invalid, y) == TimeClip(MakeDate(MakeDay(y, 0, 1), 0))
  {
    EpochFields(0);
  }

  /** set('year', y) on the invalid date gives January 1 of year y at midnight, a valid date. */
  lemma {:induction false} SetYearOnInvalid(reg: Registry, x: Dayjs, y: int)
    requires x.d.Invalid?
    requires InRange(MakeDate(MakeDay(y, 0, 1), 0))
    ensures var r := Set(reg, x, Year, y);
      r.d.Valid? && FieldsOf(r.d.t) == Fields(y, 0, 1, WeekDay(MakeDay(y, 0, 1)), 0, 0, 0, 0)
  {
    SetFullYearOnInvalid(y);
    assert Set(reg, x, Year, y).d == SetFullYear(Invalid, y);
    FieldsOfBuild(y, 0, 1, 0, 0, 0, 0);
  }
}
