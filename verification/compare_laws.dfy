/**
  What the comparisons guarantee: isSame, isBefore and isAfter split the
  instants that are dates into three disjoint classes around the unit
  containing the receiver, and for days and months isSame means "the same
  calendar day" and "the same calendar month".
 */
module CompareLaws {
  import opened Maybe
  import opened Calendar
  import opened JsDate
  import opened Locales
  import opened Instant
  import opened Arithmetic
  import opened ArithmeticLaws

  /**
    For a unit without boundaries (quarter, millisecond, an unknown or
    missing unit) isSame is equality of two dates, and isBefore and isAfter
    are the strict orders; all three are false when either side is invalid.
   */
  lemma {:induction false} UnboundedCompares(reg: Registry, x: Dayjs, that: Dayjs, u: Unit)
    requires u in {Quarter, Millisecond, Unknown}
    ensures IsSame(reg, x, that, u) <==> x.d.Valid? && that.d == x.d
    ensures IsBefore(reg, x, that, u) <==> x.d.Valid? && that.d.Valid? && x.d.t < that.d.t
    ensures IsAfter(reg, x, that, u) <==> x.d.Valid? && that.d.Valid? && that.d.t < x.d.t
  {
    assert StartOf(reg, x, u).d == x.d && EndOf(reg, x, u).d == x.d;
  }

  /**
    When both boundaries of the receiver's unit are dates, every date is
    exactly one of: the same, after the receiver's unit (isBefore), or
    before it (isAfter).
   */
  lemma {:induction false} Trichotomy(reg: Registry, x: Dayjs, that: Dayjs, u: Unit)
    requires x.d.Valid? && that.d.Valid?
    requires u == Week ==> LocaleOf(reg, x.l).Some? && WellFormed(LocaleOf(reg, x.l).value)
    requires StartOf(reg, x, u).d.Valid? && EndOf(reg, x, u).d.Valid?
    ensures IsSame(reg, x, that, u) || IsBefore(reg, x, that, u) || IsAfter(reg, x, that, u)
    ensures !(IsSame(reg, x, that, u) && IsBefore(reg, x, that, u))
    ensures !(IsSame(reg, x, that, u) && IsAfter(reg, x, that, u))
    ensures !(IsBefore(reg, x, that, u) && IsAfter(reg, x, that, u))
  {
    StartOfEndOfBracket(reg, x, u);
    OrderOfThree(StartOf(reg, x, u).d, EndOf(reg, x, u).d, that.d);
  }

  /** A date is inside a non-empty span, after it, or before it, and only one of these. */
  lemma OrderOfThree(s: Time, e: Time, d: Time)
    requires s.Valid? && e.Valid? && d.Valid? && s.t <= e.t
    ensures (Le(s, d) && Le(d, e)) || Lt(e, d) || Lt(d, s)
    ensures !(Le(s, d) && Le(d, e) && Lt(e, d)) && !(Le(s, d) && Le(d, e) && Lt(d, s)) && !(Lt(e, d) && Lt(d, s))
  {
  }

  /** An instant is the same as itself, and neither before nor after itself, whenever its boundaries are dates. */
  lemma {:induction false} SameAsItself(reg: Registry, x: Dayjs, u: Unit)
    requires x.d.Valid?
    requires u == Week ==> LocaleOf(reg, x.l).Some? && WellFormed(LocaleOf(reg, x.l).value)
    requires StartOf(reg, x, u).d.Valid? && EndOf(reg, x, u).d.Valid?
    ensures IsSame(reg, x, x, u) && !IsBefore(reg, x, x, u) && !IsAfter(reg, x, x, u)
  {
    StartOfEndOfBracket(reg, x, u);
  }

  /** The invalid date is never the same as, before or after anything. */
  lemma InvalidComparesFalse(reg: Registry, x: Dayjs, that: Dayjs, u: Unit)
    requires x.d.Invalid? || that.d.Invalid?
    requires u == Week ==> LocaleOf(reg, x.l).Some?
    ensures !IsSame(reg, x, that, u) && !IsBefore(reg, x, that, u) && !IsAfter(reg, x, that, u)
  {
  }

  /** startOf('day') and endOf('day') are midnight and the last millisecond of the instant's day. */
  lemma {:induction false} DayBoundaries(reg: Registry, x: Dayjs)
    requires x.d.Valid?
    ensures StartOf(reg, x, Day).d.Valid? ==> StartOf(reg, x, Day).d.t == MakeDate(DayOf(x.d.t), 0)
    ensures EndOf(reg, x, Day).d.Valid? ==> EndOf(reg, x, Day).d.t == MakeDate(DayOf(x.d.t), MsPerDay - 1)
  {
    var t := x.d.t;
    ClockTime(t, Some(0), Some(0), Some(0), Some(0));
    ClockTime(t, Some(23), Some(59), Some(59), Some(999));
    assert MakeTime(0, 0, 0, 0) == 0 && MakeTime(23, 59, 59, 999) == MsPerDay - 1;
  }

  /** A time value lies between midnight and the last millisecond of a day exactly when it is on that day. */
  lemma {:induction false} WithinDay(t: int, day: int)
    ensures MakeDate(day, 0) <= t <= MakeDate(day, MsPerDay - 1) <==> DayOf(t) == day
  {
    assert t == MakeDate(DayOf(t), TimeWithinDay(t));
    if DayOf(t) < day {
      assert t < MakeDate(day, 0);
    } else if DayOf(t) > day {
      assert t > MakeDate(day, MsPerDay - 1);
    }
  }

  /** Two time values are on the same day number exactly when they have the same year, month and date. */
  lemma {:induction false} SameDayNumber(t1: int, t2: int)
    ensures DayOf(t1) == DayOf(t2) <==>
      FieldsOf(t1).year == FieldsOf(t2).year && FieldsOf(t1).month == FieldsOf(t2).month
      && FieldsOf(t1).date == FieldsOf(t2).date
  {
    FieldsOfRoundTrip(t1);
    FieldsOfRoundTrip(t2);
  }

  /**
    isSame(that, 'day') holds exactly when that is a date with the
    receiver's year, month and date, whenever the receiver's day boundaries
    are dates.
   */
  lemma {:induction false} SameDay(reg: Registry, x: Dayjs, that: Dayjs)
    requires x.d.Valid? && StartOf(reg, x, Day).d.Valid? && EndOf(reg, x, Day).d.Valid?
    ensures IsSame(reg, x, that, Day) <==>
      that.d.Valid?
      && FieldsOf(that.d.t).year == FieldsOf(x.d.t).year && FieldsOf(that.d.t).month == FieldsOf(x.d.t).month
      && FieldsOf(that.d.t).date == FieldsOf(x.d.t).date
  {
    DayBoundaries(reg, x);
    if that.d.Valid? {
      WithinDay(that.d.t, DayOf(x.d.t));
      SameDayNumber(that.d.t, x.d.t);
    }
  }

  /** startOf('month') and endOf('month') are the first midnight and the last millisecond of the month. */
  lemma {:induction false} MonthBoundaries(reg: Registry, x: Dayjs)
    requires x.d.Valid?
    ensures var f := FieldsOf(x.d.t); var s := StartOf(reg, x, Month).d;
      s.Valid? ==> s.t == MakeDate(MakeDay(f.year, f.month, 1), 0)
    ensures var f := FieldsOf(x.d.t); var e := EndOf(reg, x, Month).d;
      e.Valid? ==> e.t == MakeDate(MakeDay(f.year, f.month + 1, 0), MsPerDay - 1)
  {
    MonthStartTime(x.d.t, 0);
    MonthEndTime(x.d.t, 0);
  }

  /** A day between the first and the last day of a month is a date of that month. */
  lemma {:induction false} DayOfMonth(day: int, y: int, m: int)
    requires 0 <= m < 12 && MakeDay(y, m, 1) <= day <= MakeDay(y, m + 1, 0)
    ensures YearFromDay(day) == y && MonthFromDay(day) == m
  {
    var dt := day - MakeDay(y, m, 1) + 1;
    assert dt <= DaysInMonth(y, m) by {
      DayZeroIsLastOfPreviousMonth(y, m);
      DateOffset(y, m, DaysInMonth(y, m));
    }
    assert MakeDay(y, m, dt) == day by {
      DateOffset(y, m, dt);
    }
    CivilOfMakeDay(y, m, dt);
  }

  /** Date dt of a month is dt - 1 days after its first. */
  lemma DateOffset(y: int, m: int, dt: int)
    requires 0 <= m < 12
    ensures MakeDay(y, m, dt) == MakeDay(y, m, 1) + dt - 1
  {
    MakeDayInYear(y, m, dt);
    MakeDayInYear(y, m, 1);
  }

  /** A day lies between a month's first and last days exactly when it is a date of that month. */
  lemma {:induction false} DayWithinMonth(day: int, y: int, m: int)
    requires 0 <= m < 12
    ensures MakeDay(y, m, 1) <= day <= MakeDay(y, m + 1, 0) <==> YearFromDay(day) == y && MonthFromDay(day) == m
  {
    if MakeDay(y, m, 1) <= day <= MakeDay(y, m + 1, 0) {
      DayOfMonth(day, y, m);
    }
    if YearFromDay(day) == y && MonthFromDay(day) == m {
      MakeDayOfCivil(day);
      MonthDays(day, y, m, DateFromDay(day));
    }
  }

  /** A time value lies between midnight of day a and the last millisecond of day b exactly when its day is in a..b. */
  lemma {:induction false} WithinDays(t: int, a: int, b: int)
    ensures MakeDate(a, 0) <= t <= MakeDate(b, MsPerDay - 1) <==> a <= DayOf(t) <= b
  {
    assert t == MakeDate(DayOf(t), TimeWithinDay(t));
    if DayOf(t) < a {
      assert t < MakeDate(a, 0);
    } else if DayOf(t) > b {
      assert t > MakeDate(b, MsPerDay - 1);
    }
  }

  /**
    isSame(that, 'month') holds exactly when that is a date with the
    receiver's year and month, whenever the receiver's month boundaries are
    dates.
   */
  lemma {:induction false} SameMonth(reg: Registry, x: Dayjs, that: Dayjs)
    requires x.d.Valid? && StartOf(reg, x, Month).d.Valid? && EndOf(reg, x, Month).d.Valid?
    ensures IsSame(reg, x, that, Month) <==>
      that.d.Valid? && FieldsOf(that.d.t).year == FieldsOf(x.d.t).year
      && FieldsOf(that.d.t).month == FieldsOf(x.d.t).month
  {
    var f := FieldsOf(x.d.t);
    var s := StartOf(reg, x, Month).d;
    var e := EndOf(reg, x, Month).d;
    assert s.t == MakeDate(MakeDay(f.year, f.month, 1), 0) && e.t == MakeDate(MakeDay(f.year, f.month + 1, 0), MsPerDay - 1) by {
      MonthBoundaries(reg, x);
    }
    assert IsSame(reg, x, that, Month) <==> that.d.Valid? && s.t <= that.d.t <= e.t;
    if that.d.Valid? {
      var day := DayOf(that.d.t);
      assert FieldsOf(that.d.t).year == YearFromDay(day) && FieldsOf(that.d.t).month == MonthFromDay(day);
      WithinDays(that.d.t, MakeDay(f.year, f.month, 1), MakeDay(f.year, f.month + 1, 0));
      DayWithinMonth(day, f.year, f.month);
    }
  }
}
