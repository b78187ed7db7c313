/**
  Concrete instants built from matched strings, run through add, startOf,
  daysInMonth and format: the month-end clamp in a leap and a common year,
  a Sunday week start, the length of February, the invalid date, and a
  formatted timestamp.
 */
module WorkedExamples {
  import opened Maybe
  import opened Calendar
  import opened JsDate
  import opened Locales
  import opened Instant
  import opened Arithmetic
  import opened ArithmeticLaws
  import opened AddLaws
  import opened Format
  import opened FormatLaws

  /** The groups captured from a date-only string `YYYY-MM-DD`. */
  function DateOnly(y: nat, m: nat, dt: nat): Captures {
    Captures(y, Some(m), Some(dt), None, None, None, None)
  }

  /** `dayjs('YYYY-MM-DD')` in the default locale. */
  function CreateDate(reg: Registry, y: nat, m: nat, dt: nat): Dayjs {
    Create(reg, PatternString(DateOnly(y, m, dt)), NoPreset).x
  }

  /** A date-only string is midnight of its date (month one less), built by field construction from year 100 on. */
  lemma {:induction false} DateOnlyMidnight(reg: Registry, y: nat, m: nat, dt: nat)
    requires 100 <= y && 1 <= m <= 12 && 1 <= dt <= DaysInMonth(y, m - 1)
    requires InRange(MakeDate(MakeDay(y, m - 1, dt), 0))
    ensures CreateDate(reg, y, m, dt).d == Valid(MakeDate(MakeDay(y, m - 1, dt), 0))
    ensures var t := MakeDate(MakeDay(y, m - 1, dt), 0);
      FieldsOf(t).year == y && FieldsOf(t).month == m - 1 && FieldsOf(t).date == dt && TimeWithinDay(t) == 0
  {
    var c := DateOnly(y, m, dt);
    var t := MakeDate(MakeDay(y, m - 1, dt), 0);
    assert ParseDate(PatternString(c)) == Valid(t) by {
      ParseDateTime(c);
      assert ConstructorYear(y) == y;
      assert MakeTime(0, 0, 0, 0) == 0;
    }
    FieldsAt(t, y, m - 1, dt, 0);
  }

  lemma Year2024()
    ensures DayFromYear(2024) == 19723 && IsLeapYear(2024)
    ensures MakeDay(2024, 0, 31) == 19753 && MakeDay(2024, 1, 1) == 19754 && MakeDay(2024, 2, 0) == 19782
    ensures DaysInMonth(2024, 0) == 31 && DaysInMonth(2024, 1) == 29
  {
  }

  lemma Year2023()
    ensures DayFromYear(2023) == 19358 && !IsLeapYear(2023)
    ensures MakeDay(2023, 0, 31) == 19388 && MakeDay(2023, 1, 1) == 19389 && MakeDay(2023, 2, 0) == 19416
    ensures MakeDay(2023, 1, 28) == 19416
    ensures MakeDay(2023, 5, 15) == 19523 && MakeDay(2023, 5, 11) == 19519
    ensures DaysInMonth(2023, 0) == 31 && DaysInMonth(2023, 1) == 28 && DaysInMonth(2023, 5) == 30
  {
  }

  lemma FebruaryInRange2024()
    ensures MonthInRange(2024, 1)
  {
    Year2024();
  }

  lemma FebruaryInRange2023()
    ensures MonthInRange(2023, 1)
  {
    Year2023();
  }

  /** `dayjs('2024-01-31').add(1, 'month')` is February 29, 2024: clamped, not rolled into March. */
  lemma {:induction false} LeapYearClamp(reg: Registry)
    ensures var r := Add(reg, CreateDate(reg, 2024, 1, 31), 1, Month);
      r.d.Valid? && FieldsOf(r.d.t).year == 2024 && FieldsOf(r.d.t).month == 1 && FieldsOf(r.d.t).date == 29
  {
    var x := CreateDate(reg, 2024, 1, 31);
    assert FirstInRange(x) && FieldsOf(x.d.t).year == 2024 && FieldsOf(x.d.t).month == 0 && FieldsOf(x.d.t).date == 31 by {
      Year2024();
      DateOnlyMidnight(reg, 2024, 1, 31);
    }
    assert TargetYear(2024, 0, 1, Month) == 2024 && TargetMonth(0, 1, Month) == 1;
    assert TargetInRange(x, 1, Month) by {
      FebruaryInRange2024();
    }
    assert DaysInMonth(2024, 1) == 29 by {
      Year2024();
    }
    AddCalendarValid(reg, x, 1, Month);
    AddCalendarLands(reg, x, 1, Month);
  }

  /** `dayjs('2023-01-31').add(1, 'month')` is February 28, 2023. */
  lemma {:induction false} CommonYearClamp(reg: Registry)
    ensures var r := Add(reg, CreateDate(reg, 2023, 1, 31), 1, Month);
      r.d.Valid? && FieldsOf(r.d.t).year == 2023 && FieldsOf(r.d.t).month == 1 && FieldsOf(r.d.t).date == 28
  {
    var x := CreateDate(reg, 2023, 1, 31);
    assert FirstInRange(x) && FieldsOf(x.d.t).year == 2023 && FieldsOf(x.d.t).month == 0 && FieldsOf(x.d.t).date == 31 by {
      Year2023();
      DateOnlyMidnight(reg, 2023, 1, 31);
    }
    assert TargetYear(2023, 0, 1, Month) == 2023 && TargetMonth(0, 1, Month) == 1;
    assert TargetInRange(x, 1, Month) by {
      FebruaryInRange2023();
    }
    assert DaysInMonth(2023, 1) == 28 by {
      Year2023();
    }
    AddCalendarValid(reg, x, 1, Month);
    AddCalendarLands(reg, x, 1, Month);
  }

  /**
    With the default locale starting weeks on Sunday (no `weekStart`),
    `dayjs('2023-06-15').startOf('week')` is Sunday, June 11, 2023, at midnight.
   */
  lemma {:induction false} SundayWeekStart(en: Locale)
    requires WellFormed(en) && en.weekStart.None?
    ensures var reg := Initial(en); var s := StartOf(reg, CreateDate(reg, 2023, 6, 15), Week).d;
      s.Valid? && FieldsOf(s.t).weekday == 0
      && FieldsOf(s.t).year == 2023 && FieldsOf(s.t).month == 5 && FieldsOf(s.t).date == 11
      && TimeWithinDay(s.t) == 0
  {
    var reg := Initial(en);
    var x := CreateDate(reg, 2023, 6, 15);
    Year2023();
    DateOnlyMidnight(reg, 2023, 6, 15);
    assert x.l == NameRef("en") && LocaleOf(reg, x.l) == Some(en);
    assert WeekStartOf(reg, x) == 0;
    var t := x.d.t;
    assert DayOf(t) == 19523 by {
      DayDecompose(19523, 0);
    }
    assert WeekDay(19523) == 4;
    assert WeekGap(4, 0) == 4;
    WeekStartTime(t, 0);
    var s := StartOf(reg, x, Week).d;
    assert s == Valid(MakeDate(19519, 0));
    FieldsAt(s.t, 2023, 5, 11, 0);
    WeekBoundaries(reg, x);
  }

  /** daysInMonth() of a February date (from year 100 on, February in range) is the length of that February. */
  lemma {:induction false} FebruaryDays(reg: Registry, y: nat, dt: nat)
    requires 100 <= y && 1 <= dt <= DaysInMonth(y, 1) && MonthInRange(y, 1)
    ensures DaysInMonthOf(reg, CreateDate(reg, y, 2, dt)) == Some(DaysInMonth(y, 1))
  {
    var x := CreateDate(reg, y, 2, dt);
    var t := MakeDate(MakeDay(y, 1, dt), 0);
    MonthSpan(y, 1, dt, 0);
    DateOnlyMidnight(reg, y, 2, dt);
    assert x.d == Valid(t);
    FebruaryEnd(reg, x, y);
    DaysInMonthIsMonthLength(reg, x);
  }

  /** `dayjs('2023-02-28').daysInMonth()` is 28. */
  lemma {:induction false} CommonFebruary(reg: Registry)
    ensures DaysInMonthOf(reg, CreateDate(reg, 2023, 2, 28)) == Some(28)
  {
    Year2023();
    FebruaryInRange2023();
    FebruaryDays(reg, 2023, 28);
  }

  /** `dayjs('2024-02-01').daysInMonth()` is 29. */
  lemma {:induction false} LeapFebruary(reg: Registry)
    ensures DaysInMonthOf(reg, CreateDate(reg, 2024, 2, 1)) == Some(29)
  {
    Year2024();
    FebruaryInRange2024();
    FebruaryDays(reg, 2024, 1);
  }

  /** endOf('month') of a February date in a year whose February is in range is a date. */
  lemma {:induction false} FebruaryEnd(reg: Registry, x: Dayjs, y: int)
    requires x.d.Valid? && FieldsOf(x.d.t).year == y && FieldsOf(x.d.t).month == 1
    requires InRange(MakeDate(MakeDay(y, 2, 0), 0)) && InRange(MakeDate(MakeDay(y, 2, 0), MsPerDay - 1))
    ensures DaysInMonthOf(reg, x).Some?
  {
    MonthBoundaryDays(x.d.t, 0);
    DayAtEndValid(y, 2, 0);
  }

  /**
    `dayjs('2023')`: the pattern lets the month be absent, but `d[2] - 1` is
    then NaN, so a year-only string is the invalid date although the date
    and time of day have defaults.
   */
  lemma YearOnlyIsInvalid(reg: Registry, y: nat)
    ensures !IsValid(Create(reg, PatternString(Captures(y, None, None, None, None, None, None)), NoPreset).x)
  {
  }

  /** `dayjs(null)` is invalid, stays invalid through add, and formats as "Invalid Date". */
  lemma NullIsInvalid(reg: Registry, n: int, u: Unit, pattern: seq<Piece>, zone: string)
    ensures var x := Create(reg, NullInput, NoPreset).x;
      !IsValid(x) && !IsValid(Add(reg, x, n, u)) && FormatInstant(reg, x, pattern, zone) == InvalidDateString
  {
  }

  /**
    `dayjs('2023-03-05T08:09:10.123').format('YYYY-MM-DDTHH:mm:ss.SSS')`
    is `2023-03-05T08:09:10.123` for any well-formed default locale.
   */
  lemma {:induction false} FormatParsed(reg: Registry, zone: string)
    requires LocaleOf(reg, reg.current).Some? && NamesCalendar(LocaleOf(reg, reg.current).value)
    ensures var x := Create(reg, PatternString(Captures(2023, Some(3), Some(5), Some(8), Some(9), Some(10), Some(123))), NoPreset).x;
      FormatInstant(reg, x, IsoMillisPattern, zone)
      == "2023" + "-" + "03" + "-" + "05" + "T" + "08" + ":" + "09" + ":" + "10" + "." + "123"
  {
    var c := Captures(2023, Some(3), Some(5), Some(8), Some(9), Some(10), Some(123));
    var x := Create(reg, PatternString(c), NoPreset).x;
    var tod := MakeTime(8, 9, 10, 123);
    assert MakeDay(2023, 2, 5) == 19421 by {
      Year2023();
    }
    ParseDateTime(c);
    assert x.d == Valid(MakeDate(MakeDay(2023, 2, 5), tod));
    FieldsOfBuild(2023, 2, 5, 8, 9, 10, 123);
    var f := FieldsOf(x.d.t);
    InitFields(x);
    assert x.l == reg.current;
    IsoMillisExample(f, LocaleOf(reg, x.l).value, zone);
  }
}
