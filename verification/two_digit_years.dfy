/**
  The year, month and week boundaries as the code builds them, with
  `new Date(this.$y, m, d)`, which reads a year 0..99 as 1900..1999, set
  against the corrected boundaries the rest of the model uses. Outside the
  years 0..99 the two agree, so daysInMonth, add and the comparisons carry
  over to the code unchanged; inside them each goes wrong, and one instance
  of each is exhibited here.
 */
module TwoDigitYears {
  import opened Maybe
  import opened Calendar
  import opened JsDate
  import opened Locales
  import opened Instant
  import opened Arithmetic
  import opened ArithmeticLaws
  import opened AddLaws

  /** An instant whose year the Date constructor does not move: not a date, or a year outside 0..99. */
  predicate OutsideTwoDigitYears(x: Dayjs) {
    x.d.Valid? ==> !(0 <= FieldsOf(x.d.t).year <= 99)
  }

  /** Outside the years 0..99 the code's daysInMonth() is the corrected one. */
  lemma DaysInMonthAgrees(reg: Registry, x: Dayjs)
    requires OutsideTwoDigitYears(x)
    ensures DaysInMonthAsWritten(reg, x) == DaysInMonthOf(reg, x)
  {
    StartOfAsWrittenAgrees(reg, x, Month);
  }

  /** Outside the years 0..99 the code's isSame, isAfter and isBefore are the corrected ones. */
  lemma ComparisonsAgree(reg: Registry, x: Dayjs, that: Dayjs, u: Unit)
    requires u == Week ==> LocaleOf(reg, x.l).Some?
    requires OutsideTwoDigitYears(x)
    ensures IsSameAsWritten(reg, x, that, u) <==> IsSame(reg, x, that, u)
    ensures IsAfterAsWritten(reg, x, that, u) <==> IsAfter(reg, x, that, u)
    ensures IsBeforeAsWritten(reg, x, that, u) <==> IsBefore(reg, x, that, u)
  {
    StartOfAsWrittenAgrees(reg, x, u);
  }

  /**
    When add(n, 'month'|'year') aims at a month outside the years 0..99 (and
    date 1 of the instant's month is a date), the code's clamp reads the
    corrected month length, so the code's add is the corrected one.
   */
  lemma {:induction false} AddAgrees(reg: Registry, x: Dayjs, n: int, u: Unit)
    requires x.d.Valid? && (u == Month || u == Year) ==>
      FirstInRange(x) && !(0 <= TargetYear(FieldsOf(x.d.t).year, FieldsOf(x.d.t).month, n, u) <= 99)
    ensures AddAsWritten(reg, x, n, u) == Add(reg, x, n, u)
  {
    if x.d.Valid? && (u == Month || u == Year) {
      var f := FieldsOf(x.d.t);
      var moved := MoveFromFirst(reg, x, n, u);
      var y := TargetYear(f.year, f.month, n, u);
      var m := TargetMonth(f.month, n, u);
      assert DaysInMonthAsWritten(reg, moved) == DaysInMonthOf(reg, moved) by {
        AddCalendarMoved(reg, x, n, u);
        if moved.d.Valid? {
          FieldsAt(moved.d.t, y, m, 1, TimeWithinDay(x.d.t));
        }
        DaysInMonthAgrees(reg, moved);
      }
      AddCalendarLast(reg, x, n, u);
    }
  }

  /** The day numbers of the years 0 and 1900, and the length of their Februaries. */
  lemma YearZeroAnd1900()
    ensures DayFromYear(0) == -719528 && IsLeapYear(0) && DaysInMonth(0, 1) == 29
    ensures DayFromYear(1900) == -25567 && !IsLeapYear(1900) && DaysInMonth(1900, 1) == 28
  {
  }

  /** The day numbers of the dates of the year 0 the counterexamples use. */
  lemma YearZeroDays()
    ensures MakeDay(0, 0, 1) == -719528 && MakeDay(0, 0, 31) == -719498
    ensures MakeDay(0, 1, 1) == -719497 && MakeDay(0, 1, 28) == -719470 && MakeDay(0, 2, 0) == -719469
  {
    YearZeroAnd1900();
  }

  /** `new Date(0, 2, 0)` at 23:59:59.999 is the last millisecond of February 28, 1900. */
  lemma {:induction false} FebruaryEnd1900()
    ensures var e := DayAt(0, 2, 0, false, true);
      e.Valid? && FieldsOf(e.t).year == 1900 && FieldsOf(e.t).month == 1 && FieldsOf(e.t).date == 28
  {
    YearZeroAnd1900();
    var day := MakeDay(1900, 1, 28);
    assert MakeDay(1900, 2, 0) == day by {
      DayZeroIsLastOfPreviousMonth(1900, 1);
    }
    assert day == -25509;
    assert NewDate(0, 2, 0, 0, 0, 0, 0) == TimeClip(MakeDate(day, 0)) by {
      assert MakeTime(0, 0, 0, 0) == 0;
    }
    EndOfDay(day);
    FieldsAt(MakeDate(day, MsPerDay - 1), 1900, 1, 28, MsPerDay - 1);
  }

  /**
    As written, daysInMonth() of every date in February of the year 0 is 28:
    the end of the month is built as `new Date(0, 2, 0)`, which is February
    28, 1900, although the year 0 is a leap year whose February has 29 days.
   */
  lemma {:induction false} FebruaryYearZeroAsWritten(reg: Registry, x: Dayjs)
    requires x.d.Valid? && FieldsOf(x.d.t).year == 0 && FieldsOf(x.d.t).month == 1
    ensures DaysInMonthAsWritten(reg, x) == Some(28)
    ensures DaysInMonth(0, 1) == 29
  {
    YearZeroAnd1900();
    assert StartOfAsWritten(reg, x, Month, false).d == DayAt(0, 2, 0, false, true);
    FebruaryEnd1900();
  }

  /** January 31 of the year 0 at midnight, and its fields. */
  lemma {:induction false} JanuaryYearZero(l: LocaleRef)
    ensures var x := Dayjs(FromFields(0, 0, 31, 0, 0, 0, 0), l);
      && x.d == Valid(MakeDate(MakeDay(0, 0, 31), 0))
      && FieldsOf(x.d.t).year == 0 && FieldsOf(x.d.t).month == 0 && FieldsOf(x.d.t).date == 31
      && TimeWithinDay(x.d.t) == 0
  {
    YearZeroAnd1900();
    YearZeroDays();
    assert MakeTime(0, 0, 0, 0) == 0;
    FieldsAt(MakeDate(MakeDay(0, 0, 31), 0), 0, 0, 31, 0);
  }

  /**
    A string cannot reach January 31 of the year 0, since the Date
    constructor reads the captured year 0 as 1900; the number
    -62164627200000, that day's midnight in milliseconds, does.
   */
  lemma {:induction false} JanuaryYearZeroFromNumber(reg: Registry)
    ensures Create(reg, NumberInput(-62164627200000.0), NoPreset).x == Dayjs(FromFields(0, 0, 31, 0, 0, 0, 0), reg.current)
  {
    YearZeroDays();
    assert MakeDate(MakeDay(0, 0, 31), MakeTime(0, 0, 0, 0)) == -62164627200000;
    TimeClipIntegral(-62164627200000);
  }

  /** The months add(1, 'month') needs in range from January 31 of the year 0: January and February. */
  lemma {:induction false} JanuaryYearZeroInRange(l: LocaleRef)
    ensures var x := Dayjs(FromFields(0, 0, 31, 0, 0, 0, 0), l);
      x.d.Valid? && FirstInRange(x) && TargetInRange(x, 1, Month)
  {
    JanuaryYearZero(l);
    YearZeroDays();
    assert TargetYear(0, 0, 1, Month) == 0 && TargetMonth(0, 1, Month) == 1;
  }

  /** February 1 of the year 0 at midnight is in range, in the year 0 and in February. */
  lemma {:induction false} FebruaryFirstYearZero()
    ensures TimeClip(MakeDate(MakeDay(0, 1, 1), 0)) == Valid(MakeDate(MakeDay(0, 1, 1), 0))
    ensures FieldsOf(MakeDate(MakeDay(0, 1, 1), 0)).year == 0 && FieldsOf(MakeDate(MakeDay(0, 1, 1), 0)).month == 1
  {
    YearZeroDays();
    YearZeroAnd1900();
    FieldsAt(MakeDate(MakeDay(0, 1, 1), 0), 0, 1, 1, 0);
  }

  /** The first two steps of add(1, 'month') take January 31 of the year 0 to February 1 at midnight. */
  lemma {:induction false} MovedToFebruaryYearZero(reg: Registry, l: LocaleRef)
    ensures var moved := MoveFromFirst(reg, Dayjs(FromFields(0, 0, 31, 0, 0, 0, 0), l), 1, Month);
      && moved.d == Valid(MakeDate(MakeDay(0, 1, 1), 0))
      && FieldsOf(moved.d.t).year == 0 && FieldsOf(moved.d.t).month == 1
  {
    var x := Dayjs(FromFields(0, 0, 31, 0, 0, 0, 0), l);
    assert MoveFromFirst(reg, x, 1, Month).d == TimeClip(MakeDate(MakeDay(0, 1, 1), 0)) by {
      JanuaryYearZero(l);
      JanuaryYearZeroInRange(l);
      assert TargetYear(0, 0, 1, Month) == 0 && TargetMonth(0, 1, Month) == 1;
      AddCalendarMoved(reg, x, 1, Month);
    }
    FebruaryFirstYearZero();
  }

  /** The code's add for months and years clamps with the code's daysInMonth() of the moved instant. */
  lemma AsWrittenClamp(reg: Registry, x: Dayjs, n: int, u: Unit, dim: int)
    requires x.d.Valid? && (u == Month || u == Year)
    requires DaysInMonthAsWritten(reg, MoveFromFirst(reg, x, n, u)) == Some(dim)
    ensures AddAsWritten(reg, x, n, u) == Set(reg, MoveFromFirst(reg, x, n, u), Date, Min(FieldsOf(x.d.t).date, dim))
  {
  }

  /** The clamp of the code's add(1, 'month') from January 31 of the year 0 sets date 28. */
  lemma {:induction false} ClampsToTwentyEight(reg: Registry, l: LocaleRef)
    ensures var x := Dayjs(FromFields(0, 0, 31, 0, 0, 0, 0), l);
      AddAsWritten(reg, x, 1, Month) == Set(reg, MoveFromFirst(reg, x, 1, Month), Date, 28)
  {
    var x := Dayjs(FromFields(0, 0, 31, 0, 0, 0, 0), l);
    var moved := MoveFromFirst(reg, x, 1, Month);
    JanuaryYearZero(l);
    assert DaysInMonthAsWritten(reg, moved) == Some(28) by {
      MovedToFebruaryYearZero(reg, l);
      FebruaryYearZeroAsWritten(reg, moved);
    }
    AsWrittenClamp(reg, x, 1, Month, 28);
    assert Min(FieldsOf(x.d.t).date, 28) == 28;
  }

  /** Date 28 set on February 1 of the year 0 is February 28 at midnight. */
  lemma {:induction false} FebruaryTwentyEight(reg: Registry, l: LocaleRef)
    ensures var moved := MoveFromFirst(reg, Dayjs(FromFields(0, 0, 31, 0, 0, 0, 0), l), 1, Month);
      Set(reg, moved, Date, 28).d == Valid(MakeDate(MakeDay(0, 1, 28), 0))
  {
    var moved := MoveFromFirst(reg, Dayjs(FromFields(0, 0, 31, 0, 0, 0, 0), l), 1, Month);
    MovedToFebruaryYearZero(reg, l);
    AddCalendarClamp(reg, moved, 0, 1, 0, 28);
    YearZeroDays();
  }

  /**
    As written, `dayjs(-62164627200000).add(1, 'month')`, from January 31
    of the year 0, is February 28 of the year 0: the clamp reads the code's
    daysInMonth(), 28, although that February has 29 days.
   */
  lemma {:induction false} AddMonthYearZeroAsWritten(reg: Registry, l: LocaleRef)
    ensures var w := AddAsWritten(reg, Dayjs(FromFields(0, 0, 31, 0, 0, 0, 0), l), 1, Month);
      && w.d.Valid?
      && FieldsOf(w.d.t).year == 0 && FieldsOf(w.d.t).month == 1 && FieldsOf(w.d.t).date == 28
    ensures DaysInMonth(0, 1) == 29
  {
    ClampsToTwentyEight(reg, l);
    FebruaryTwentyEight(reg, l);
    YearZeroAnd1900();
    FieldsAt(MakeDate(MakeDay(0, 1, 28), 0), 0, 1, 28, 0);
  }

  /** The corrected add takes `dayjs(-62164627200000)`, January 31 of the year 0, one month on to February 29. */
  lemma {:induction false} AddMonthYearZero(reg: Registry, l: LocaleRef)
    ensures var c := Add(reg, Dayjs(FromFields(0, 0, 31, 0, 0, 0, 0), l), 1, Month);
      && c.d.Valid?
      && FieldsOf(c.d.t).year == 0 && FieldsOf(c.d.t).month == 1 && FieldsOf(c.d.t).date == 29
  {
    var x := Dayjs(FromFields(0, 0, 31, 0, 0, 0, 0), l);
    JanuaryYearZero(l);
    JanuaryYearZeroInRange(l);
    YearZeroAnd1900();
    assert TargetYear(0, 0, 1, Month) == 0 && TargetMonth(0, 1, Month) == 1;
    AddCalendarValid(reg, x, 1, Month);
    AddCalendarLands(reg, x, 1, Month);
  }

  /**
    As written, an instant in the year 50 is not the same year as itself,
    and is after itself by year: its startOf('year') is January 1, 1950.
   */
  lemma {:induction false} SameYearFiftyAsWritten(reg: Registry, l: LocaleRef)
    ensures var x := Dayjs(FromFields(50, 5, 15, 12, 0, 0, 0), l);
      && x.d.Valid?
      && !IsSameAsWritten(reg, x, x, Year)
      && IsAfterAsWritten(reg, x, x, Year)
  {
    StartOfYearFiftyIsLater(reg, l);
  }
}
