/**
  What add and subtract guarantee: for the fixed-length units they move the
  time value by a multiple of the unit and subtract undoes add; for months
  and years they land on the target month with the date clamped to its
  length and the time of day kept, which is why a month round trip can lose
  days.
 */
module AddLaws {
  import opened Maybe
  import opened Calendar
  import opened JsDate
  import opened Locales
  import opened Instant
  import opened Arithmetic
  import opened ArithmeticLaws

  /** The length of one step of add for a fixed-length unit. */
  function UnitMs(u: Unit): (ms: int)
    ensures ms > 0
  {
    match u
    case Day => MsPerDay
    case Week => MsPerWeek
    case _ => StepOf(u)
  }

  /** For every unit but months and years, add moves the time value by n steps of the unit. */
  lemma AddFixed(reg: Registry, x: Dayjs, n: int, u: Unit)
    requires x.d.Valid? && u != Month && u != Year
    ensures Add(reg, x, n, u).d == TimeClip(x.d.t + n * UnitMs(u))
  {
  }

  /** For every unit but months and years, subtract moves the time value back by n steps of the unit. */
  lemma SubtractFixed(reg: Registry, x: Dayjs, n: int, u: Unit)
    requires x.d.Valid? && u != Month && u != Year
    ensures Subtract(reg, x, n, u).d == TimeClip(x.d.t - n * UnitMs(u))
  {
  }

  /** subtract(n, u) undoes add(n, u) for the fixed-length units, when add gave a date. */
  lemma {:induction false} SubtractUndoesAdd(reg: Registry, x: Dayjs, n: int, u: Unit)
    requires x.d.Valid? && InRange(x.d.t) && u != Month && u != Year
    requires Add(reg, x, n, u).d.Valid?
    ensures Subtract(reg, Add(reg, x, n, u), n, u).d == x.d
  {
    var y := Add(reg, x, n, u);
    AddFixed(reg, x, n, u);
    SubtractFixed(reg, y, n, u);
    assert y.d.t - n * UnitMs(u) == x.d.t;
  }

  /** add(n, u) undoes subtract(n, u) for the fixed-length units, when subtract gave a date. */
  lemma {:induction false} AddUndoesSubtract(reg: Registry, x: Dayjs, n: int, u: Unit)
    requires x.d.Valid? && InRange(x.d.t) && u != Month && u != Year
    requires Subtract(reg, x, n, u).d.Valid?
    ensures Add(reg, Subtract(reg, x, n, u), n, u).d == x.d
  {
    var y := Subtract(reg, x, n, u);
    SubtractFixed(reg, x, n, u);
    AddFixed(reg, y, n, u);
    assert y.d.t + n * UnitMs(u) == x.d.t;
  }

  /** Adding m steps and then n steps of a fixed-length unit is adding m + n steps. */
  lemma {:induction false} AddAdditive(reg: Registry, x: Dayjs, m: int, n: int, u: Unit)
    requires x.d.Valid? && u != Month && u != Year
    requires Add(reg, x, m, u).d.Valid?
    ensures Add(reg, Add(reg, x, m, u), n, u).d == Add(reg, x, m + n, u).d
  {
    var y := Add(reg, x, m, u);
    AddFixed(reg, x, m, u);
    AddFixed(reg, y, n, u);
    AddFixed(reg, x, m + n, u);
    StepsAdd(x.d.t, m, n, UnitMs(u));
  }

  /** m steps and then n steps of the same length are m + n steps. */
  lemma StepsAdd(t: int, m: int, n: int, step: int)
    ensures t + m * step + n * step == t + (m + n) * step
  {
  }

  /** The year add(n, u) aims at for months (carrying whole years) and years. */
  function TargetYear(y: int, m: int, n: int, u: Unit): int {
    if u == Month then y + (m + n) / 12 else y + n
  }

  /** The month add(n, u) aims at: 0..11 for a month of the instant in 0..11. */
  function TargetMonth(m: int, n: int, u: Unit): (r: int)
    ensures 0 <= m < 12 ==> 0 <= r < 12
  {
    if u == Month then (m + n) % 12 else m
  }

  /**
    MakeDay carries whole years out of the month (floor division, as in
    section 21.4.1.28 of ECMA-262): the first of month m + n of year y is the
    first of the target month.
   */
  lemma MakeDayCarry(y: int, m: int, n: int, dt: int)
    ensures MakeDay(y, MovedField(y, m, n, Month), dt) == MakeDay(TargetYear(y, m, n, Month), TargetMonth(m, n, Month), dt)
  {
    MakeDayInYear(y + (m + n) / 12, (m + n) % 12, dt);
  }

  /** The fields of a time value built from a date inside its month and a time of day. */
  lemma {:induction false} FieldsAt(t: int, y: int, m: int, dt: int, tod: int)
    requires 0 <= m < 12 && 1 <= dt <= DaysInMonth(y, m) && 0 <= tod < MsPerDay
    requires t == MakeDate(MakeDay(y, m, dt), tod)
    ensures FieldsOf(t).year == y && FieldsOf(t).month == m && FieldsOf(t).date == dt
    ensures TimeWithinDay(t) == tod
  {
    DayDecompose(MakeDay(y, m, dt), tod);
    CivilOfMakeDay(y, m, dt);
  }

  /** setDate(dt) keeps the year, the month and the time of day. */
  lemma SetDateAt(t: int, dt: int)
    ensures SetDate(Valid(t), dt) == TimeClip(MakeDate(MakeDay(FieldsOf(t).year, FieldsOf(t).month, dt), TimeWithinDay(t)))
  {
  }

  /** setMonth(m + n) on the first of month m moves to the first of the target month. */
  lemma {:induction false} SetMonthOnFirst(t: int, y: int, m: int, tod: int, n: int)
    requires 0 <= m < 12 && 0 <= tod < MsPerDay
    requires t == MakeDate(MakeDay(y, m, 1), tod)
    ensures SetMonth(Valid(t), MovedField(y, m, n, Month))
         == TimeClip(MakeDate(MakeDay(TargetYear(y, m, n, Month), TargetMonth(m, n, Month), 1), tod))
  {
    FieldsAt(t, y, m, 1, tod);
    MakeDayCarry(y, m, n, 1);
  }

  /** setFullYear(y + n) on the first of month m moves to the first of month m in the target year. */
  lemma {:induction false} SetFullYearOnFirst(t: int, y: int, m: int, tod: int, n: int)
    requires 0 <= m < 12 && 0 <= tod < MsPerDay
    requires t == MakeDate(MakeDay(y, m, 1), tod)
    ensures SetFullYear(Valid(t), MovedField(y, m, n, Year))
         == TimeClip(MakeDate(MakeDay(TargetYear(y, m, n, Year), TargetMonth(m, n, Year), 1), tod))
  {
    FieldsAt(t, y, m, 1, tod);
    YearTarget(y, m, n);
  }

  /** For years the target is year y + n, same month. */
  lemma YearTarget(y: int, m: int, n: int)
    ensures TargetYear(y, m, n, Year) == MovedField(y, m, n, Year) && TargetMonth(m, n, Year) == m
  {
  }

  /** set('date', 1) moves to the first of the instant's month, at its time of day. */
  lemma {:induction false} FirstOfMonth(reg: Registry, x: Dayjs)
    requires x.d.Valid?
    requires FirstInRange(x)
    ensures Set(reg, x, Date, 1).d
         == Valid(MakeDate(MakeDay(FieldsOf(x.d.t).year, FieldsOf(x.d.t).month, 1), TimeWithinDay(x.d.t)))
  {
    SetTime(reg, x, Date, 1);
    SetDateAt(x.d.t, 1);
  }

  /** set('month', m + n) or set('year', y + n) on the first of a month moves to the first of the target month. */
  lemma {:induction false} SetFromFirst(reg: Registry, first: Dayjs, y: int, m: int, tod: int, u: Unit, n: int)
    requires 0 <= m < 12 && 0 <= tod < MsPerDay && (u == Month || u == Year)
    requires first.d == Valid(MakeDate(MakeDay(y, m, 1), tod))
    ensures Set(reg, first, u, MovedField(y, m, n, u)).d
         == TimeClip(MakeDate(MakeDay(TargetYear(y, m, n, u), TargetMonth(m, n, u), 1), tod))
  {
    SetTime(reg, first, u, MovedField(y, m, n, u));
    if u == Month {
      SetMonthOnFirst(first.d.t, y, m, tod, n);
    } else {
      SetFullYearOnFirst(first.d.t, y, m, tod, n);
    }
  }

  /** The whole of month m of year y, from its first midnight to its last millisecond, is in range. */
  predicate MonthInRange(y: int, m: int) {
    InRange(MakeDate(MakeDay(y, m, 1), 0)) && InRange(MakeDate(MakeDay(y, m + 1, 0), MsPerDay - 1))
  }

  /** Date 1 of the instant's month, at its time of day, is in range: the first step of add gives a date. */
  predicate FirstInRange(x: Dayjs) {
    x.d.Valid? && InRange(MakeDate(MakeDay(FieldsOf(x.d.t).year, FieldsOf(x.d.t).month, 1), TimeWithinDay(x.d.t)))
  }

  /** The month that add(n, 'month') or add(n, 'year') aims at is wholly in range. */
  predicate TargetInRange(x: Dayjs, n: int, u: Unit)
    requires x.d.Valid?
  {
    var f := FieldsOf(x.d.t);
    MonthInRange(TargetYear(f.year, f.month, n, u), TargetMonth(f.month, n, u))
  }

  /**
    The first two steps of add for months and years: date 1 of the instant's
    month, then the month (or year) moved by n, land on date 1 of the target
    month at the instant's time of day.
   */
  lemma {:induction false} AddCalendarMoved(reg: Registry, x: Dayjs, n: int, u: Unit)
    requires x.d.Valid? && (u == Month || u == Year)
    requires FirstInRange(x)
    ensures var f := FieldsOf(x.d.t);
      MoveFromFirst(reg, x, n, u).d
      == TimeClip(MakeDate(MakeDay(TargetYear(f.year, f.month, n, u), TargetMonth(f.month, n, u), 1), TimeWithinDay(x.d.t)))
  {
    var f := FieldsOf(x.d.t);
    FirstOfMonth(reg, x);
    SetFromFirst(reg, Set(reg, x, Date, 1), f.year, f.month, TimeWithinDay(x.d.t), u, n);
  }

  /**
    The last step of add for months and years: on date 1 of a month, the
    month's length is read and set('date', …) moves to the given date of that
    month, keeping the time of day.
   */
  lemma {:induction false} AddCalendarClamp(reg: Registry, moved: Dayjs, y: int, m: int, tod: int, dt: int)
    requires 0 <= m < 12 && 0 <= tod < MsPerDay
    requires moved.d == Valid(MakeDate(MakeDay(y, m, 1), tod))
    ensures DaysInMonthOf(reg, moved).Some? ==> DaysInMonthOf(reg, moved).value == DaysInMonth(y, m)
    ensures Set(reg, moved, Date, dt).d == TimeClip(MakeDate(MakeDay(y, m, dt), tod))
  {
    FieldsAt(moved.d.t, y, m, 1, tod);
    SetTime(reg, moved, Date, dt);
    SetDateAt(moved.d.t, dt);
    if DaysInMonthOf(reg, moved).Some? {
      DaysInMonthIsMonthLength(reg, moved);
    }
  }

  /** add for months and years is its last step applied to the first two. */
  lemma {:induction false} AddCalendarLast(reg: Registry, x: Dayjs, n: int, u: Unit)
    requires x.d.Valid? && (u == Month || u == Year)
    ensures Add(reg, x, n, u) == ClampDate(reg, MoveFromFirst(reg, x, n, u), FieldsOf(x.d.t).date)
  {
    AddCalendarSteps(reg, x, n, u);
    if u == Month {
      assert Add(reg, x, n, Month) == AddCalendar(reg, x, n, Month);
    } else {
      assert Add(reg, x, n, Year) == AddCalendar(reg, x, n, Year);
    }
  }

  lemma AddCalendarSteps(reg: Registry, x: Dayjs, n: int, u: Unit)
    requires x.d.Valid? && (u == Month || u == Year)
    ensures AddCalendar(reg, x, n, u) == ClampDate(reg, MoveFromFirst(reg, x, n, u), FieldsOf(x.d.t).date)
  {
  }

  /**
    add(n, 'month') and add(n, 'year') land in the target month (years
    carried out of the month count), on the instant's date clamped to that
    month's length, at the instant's time of day; the first of the
    instant's month must be a date for the steps to start.
   */
  lemma {:induction false} AddCalendarLands(reg: Registry, x: Dayjs, n: int, u: Unit)
    requires x.d.Valid? && (u == Month || u == Year)
    requires FirstInRange(x)
    ensures var f := FieldsOf(x.d.t); var r := Add(reg, x, n, u);
      var y := TargetYear(f.year, f.month, n, u); var m := TargetMonth(f.month, n, u);
      r.d.Valid? ==>
        && FieldsOf(r.d.t).year == y && FieldsOf(r.d.t).month == m
        && FieldsOf(r.d.t).date == Min(f.date, DaysInMonth(y, m))
        && TimeWithinDay(r.d.t) == TimeWithinDay(x.d.t)
  {
    var f := FieldsOf(x.d.t);
    var tod := TimeWithinDay(x.d.t);
    var y := TargetYear(f.year, f.month, n, u);
    var m := TargetMonth(f.month, n, u);
    var moved := MoveFromFirst(reg, x, n, u);
    var r := Add(reg, x, n, u);
    AddCalendarLast(reg, x, n, u);
    if r.d.Valid? {
      assert moved.d == Valid(MakeDate(MakeDay(y, m, 1), tod)) by {
        AddCalendarMoved(reg, x, n, u);
      }
      ClampLands(reg, moved, y, m, tod, f.date);
    }
  }

  /** Clamping on the first of a month lands on the clamped date of that month at the same time of day. */
  lemma {:induction false} ClampLands(reg: Registry, moved: Dayjs, y: int, m: int, tod: int, date: int)
    requires 0 <= m < 12 && 0 <= tod < MsPerDay && 1 <= date
    requires moved.d == Valid(MakeDate(MakeDay(y, m, 1), tod))
    ensures var r := ClampDate(reg, moved, date);
      r.d.Valid? ==>
        && FieldsOf(r.d.t).year == y && FieldsOf(r.d.t).month == m
        && FieldsOf(r.d.t).date == Min(date, DaysInMonth(y, m))
        && TimeWithinDay(r.d.t) == tod
  {
    var r := ClampDate(reg, moved, date);
    if r.d.Valid? {
      var dt := Min(date, DaysInMonth(y, m));
      AddCalendarClamp(reg, moved, y, m, tod, dt);
      FieldsAt(r.d.t, y, m, dt, tod);
    }
  }

  /** The last millisecond of a day is a date when midnight and the last millisecond are in range. */
  lemma DayAtEndValid(y: int, m: int, dt: int)
    requires InRange(MakeDate(MakeDay(y, m, dt), 0)) && InRange(MakeDate(MakeDay(y, m, dt), MsPerDay - 1))
    ensures DayAt(y, m, dt, false, false).Valid?
  {
    var day := MakeDay(y, m, dt);
    assert MakeTime(0, 0, 0, 0) == 0 && MakeTime(23, 59, 59, 999) == MsPerDay - 1;
    assert FromFields(y, m, dt, 0, 0, 0, 0) == Valid(MakeDate(day, 0));
    DayDecompose(day, 0);
  }

  /** A date of a month, at any time of day, lies between the month's first midnight and its last millisecond. */
  lemma MonthSpan(y: int, m: int, dt: int, tod: int)
    requires 0 <= m < 12 && 1 <= dt <= DaysInMonth(y, m) && 0 <= tod < MsPerDay
    ensures MakeDate(MakeDay(y, m, 1), 0) <= MakeDate(MakeDay(y, m, dt), tod) <= MakeDate(MakeDay(y, m + 1, 0), MsPerDay - 1)
    ensures MakeDate(MakeDay(y, m, 1), 0) <= MakeDate(MakeDay(y, m + 1, 0), 0)
  {
    MonthDays(MakeDay(y, m, dt), y, m, dt);
    MonthDays(MakeDay(y, m, 1), y, m, 1);
  }

  /** daysInMonth() of the first of a month is a number when the whole month is in range. */
  lemma {:induction false} MonthLengthDefined(reg: Registry, moved: Dayjs, y: int, m: int, tod: int)
    requires 0 <= m < 12 && 0 <= tod < MsPerDay
    requires moved.d == Valid(MakeDate(MakeDay(y, m, 1), tod))
    requires MonthInRange(y, m)
    ensures DaysInMonthOf(reg, moved).Some?
  {
    FieldsAt(moved.d.t, y, m, 1, tod);
    MonthBoundaryDays(moved.d.t, 0);
    MonthSpan(y, m, 1, tod);
    DayAtEndValid(y, m + 1, 0);
    assert EndOf(reg, moved, Month).d == BoundaryTime(moved.d, Month, false, 0, false);
  }

  /** Clamping a date of at least 1 on the first of a month in range gives a date. */
  lemma {:induction false} ClampValid(reg: Registry, moved: Dayjs, y: int, m: int, tod: int, date: int)
    requires 0 <= m < 12 && 0 <= tod < MsPerDay && 1 <= date
    requires moved.d == Valid(MakeDate(MakeDay(y, m, 1), tod))
    requires MonthInRange(y, m)
    ensures ClampDate(reg, moved, date).d.Valid?
  {
    MonthLengthDefined(reg, moved, y, m, tod);
    var dt := Min(date, DaysInMonth(y, m));
    AddCalendarClamp(reg, moved, y, m, tod, dt);
    InMonthInRange(y, m, dt, tod);
    assert ClampDate(reg, moved, date) == Set(reg, moved, Date, dt);
  }

  /** A date of a month whose whole span is in range is itself in range, at any time of day. */
  lemma InMonthInRange(y: int, m: int, dt: int, tod: int)
    requires 0 <= m < 12 && 1 <= dt <= DaysInMonth(y, m) && 0 <= tod < MsPerDay
    requires MonthInRange(y, m)
    ensures InRange(MakeDate(MakeDay(y, m, dt), tod))
  {
    MonthSpan(y, m, dt, tod);
  }

  /** The first two steps of add give a date when the target month is in range. */
  lemma {:induction false} MovedValid(reg: Registry, x: Dayjs, n: int, u: Unit)
    requires x.d.Valid? && (u == Month || u == Year)
    requires FirstInRange(x)
    requires TargetInRange(x, n, u)
    ensures var f := FieldsOf(x.d.t);
      MoveFromFirst(reg, x, n, u).d
      == Valid(MakeDate(MakeDay(TargetYear(f.year, f.month, n, u), TargetMonth(f.month, n, u), 1), TimeWithinDay(x.d.t)))
  {
    var f := FieldsOf(x.d.t);
    var y := TargetYear(f.year, f.month, n, u);
    var m := TargetMonth(f.month, n, u);
    var tod := TimeWithinDay(x.d.t);
    var first := MakeDate(MakeDay(y, m, 1), tod);
    assert InRange(first) by {
      InMonthInRange(y, m, 1, tod);
    }
    assert MoveFromFirst(reg, x, n, u).d == TimeClip(first) by {
      AddCalendarMoved(reg, x, n, u);
    }
  }

  /**
    add(n, 'month') and add(n, 'year') give a date when the first of the
    instant's month and the whole target month are in range.
   */
  lemma {:induction false} AddCalendarValid(reg: Registry, x: Dayjs, n: int, u: Unit)
    requires x.d.Valid? && (u == Month || u == Year)
    requires FirstInRange(x)
    requires TargetInRange(x, n, u)
    ensures Add(reg, x, n, u).d.Valid?
  {
    AddCalendarLast(reg, x, n, u);
    MovedClampValid(reg, x, n, u);
  }

  /** The last step of add applied to the first two gives a date when the target month is in range. */
  lemma {:induction false} MovedClampValid(reg: Registry, x: Dayjs, n: int, u: Unit)
    requires x.d.Valid? && (u == Month || u == Year)
    requires FirstInRange(x)
    requires TargetInRange(x, n, u)
    ensures ClampDate(reg, MoveFromFirst(reg, x, n, u), FieldsOf(x.d.t).date).d.Valid?
  {
    var f := FieldsOf(x.d.t);
    MovedValid(reg, x, n, u);
    ClampValid(reg, MoveFromFirst(reg, x, n, u), TargetYear(f.year, f.month, n, u), TargetMonth(f.month, n, u),
               TimeWithinDay(x.d.t), f.date);
  }
}

/**
  The month and year round trip: subtract(n, u) after add(n, u) returns to the
  instant's month at its time of day, on its date clamped twice, and so gives
  the instant back exactly when its date exists in the month add aimed at.
 */
module RoundTrip {
  import opened Maybe
  import opened Calendar
  import opened JsDate
  import opened Locales
  import opened Instant
  import opened Arithmetic
  import opened ArithmeticLaws
  import opened AddLaws

  /** subtract(n, u) is add(-n, u). */
  lemma SubtractIsAdd(reg: Registry, x: Dayjs, n: int, k: int, u: Unit)
    requires k == -n
    ensures Subtract(reg, x, n, u) == Add(reg, x, k, u)
  {
    assert n * -1 == k;
  }

  /** Taking away m - 12q months leaves q years carried back. */
  lemma {:induction false} CarryBack(m: int, q: int)
    requires 0 <= m < 12
    ensures (m - 12 * q) / 12 == -q && (m - 12 * q) % 12 == m
  {
  }

  /** Aiming n months (or years) ahead and then n back aims at the month started from. */
  lemma {:induction false} TargetBack(y: int, m: int, n: int, u: Unit)
    requires 0 <= m < 12 && (u == Month || u == Year)
    ensures TargetYear(TargetYear(y, m, n, u), TargetMonth(m, n, u), -n, u) == y
    ensures TargetMonth(TargetMonth(m, n, u), -n, u) == m
  {
    if u == Month {
      var q := (m + n) / 12;
      var r := (m + n) % 12;
      assert m + n == 12 * q + r;
      assert r + -n == m - 12 * q;
      CarryBack(m, q);
    }
  }

  /** Two time values with the same year, month, date and time of day are the same. */
  lemma {:induction false} SameFieldsSameTime(t1: int, t2: int)
    requires FieldsOf(t1).year == FieldsOf(t2).year && FieldsOf(t1).month == FieldsOf(t2).month
    requires FieldsOf(t1).date == FieldsOf(t2).date && TimeWithinDay(t1) == TimeWithinDay(t2)
    ensures t1 == t2
  {
    FieldsOfRoundTrip(t1);
    FieldsOfRoundTrip(t2);
    DayDecompose(DayOf(t1), TimeWithinDay(t1));
    DayDecompose(DayOf(t2), TimeWithinDay(t2));
  }

  /**
    Where the round trip lands: the instant's year and month at its time of
    day, on its date clamped to the length of the month add aimed at.
   */
  lemma {:induction false} RoundTripLands(reg: Registry, x: Dayjs, n: int, u: Unit)
    requires x.d.Valid? && (u == Month || u == Year) && FirstInRange(x)
    requires Add(reg, x, n, u).d.Valid? ==> FirstInRange(Add(reg, x, n, u))
    ensures var f := FieldsOf(x.d.t); var back := Subtract(reg, Add(reg, x, n, u), n, u);
      back.d.Valid? ==>
        && FieldsOf(back.d.t).year == f.year && FieldsOf(back.d.t).month == f.month
        && FieldsOf(back.d.t).date == Min(f.date, DaysInMonth(TargetYear(f.year, f.month, n, u), TargetMonth(f.month, n, u)))
        && TimeWithinDay(back.d.t) == TimeWithinDay(x.d.t)
  {
    var f := FieldsOf(x.d.t);
    var y := Add(reg, x, n, u);
    var back := Subtract(reg, y, n, u);
    var k := -n;
    if back.d.Valid? {
      assert y.d.Valid?;
      assert back == Add(reg, y, k, u) by {
        SubtractIsAdd(reg, y, n, k, u);
      }
      assert Landed(f, FieldsOf(y.d.t), n, u) && TimeWithinDay(y.d.t) == TimeWithinDay(x.d.t) by {
        AddCalendarLands(reg, x, n, u);
      }
      assert Landed(FieldsOf(y.d.t), FieldsOf(back.d.t), k, u) && TimeWithinDay(back.d.t) == TimeWithinDay(y.d.t) by {
        AddCalendarLands(reg, y, k, u);
      }
      LandedBack(f, FieldsOf(y.d.t), FieldsOf(back.d.t), n, k, u);
    }
  }

  /** g holds the fields add(n, u) lands on from fields f: target month, clamped date. */
  predicate Landed(f: Fields, g: Fields, n: int, u: Unit) {
    var ty := TargetYear(f.year, f.month, n, u);
    var tm := TargetMonth(f.month, n, u);
    0 <= f.month < 12 && g.year == ty && g.month == tm && g.date == Min(f.date, DaysInMonth(ty, tm))
  }

  /** Landing n ahead and then n back returns to the month started from, on the date clamped once. */
  lemma {:induction false} LandedBack(f: Fields, g: Fields, h: Fields, n: int, k: int, u: Unit)
    requires 0 <= f.month < 12 && 1 <= f.date <= DaysInMonth(f.year, f.month) && (u == Month || u == Year)
    requires k == -n && Landed(f, g, n, u) && Landed(g, h, k, u)
    ensures h.year == f.year && h.month == f.month
    ensures h.date == Min(f.date, DaysInMonth(TargetYear(f.year, f.month, n, u), TargetMonth(f.month, n, u)))
  {
    TargetBack(f.year, f.month, n, u);
  }

  /**
    subtract(n, 'month') after add(n, 'month') (and likewise for years) gives
    back the instant exactly when the instant's date exists in the month add
    aimed at; otherwise the clamped days are lost.
   */
  lemma {:induction false} RoundTripExact(reg: Registry, x: Dayjs, n: int, u: Unit)
    requires x.d.Valid? && (u == Month || u == Year) && FirstInRange(x)
    requires Add(reg, x, n, u).d.Valid? ==> FirstInRange(Add(reg, x, n, u))
    requires Subtract(reg, Add(reg, x, n, u), n, u).d.Valid?
    ensures var f := FieldsOf(x.d.t);
      Subtract(reg, Add(reg, x, n, u), n, u).d == x.d
      <==> f.date <= DaysInMonth(TargetYear(f.year, f.month, n, u), TargetMonth(f.month, n, u))
  {
    var f := FieldsOf(x.d.t);
    var back := Subtract(reg, Add(reg, x, n, u), n, u);
    RoundTripLands(reg, x, n, u);
    if f.date <= DaysInMonth(TargetYear(f.year, f.month, n, u), TargetMonth(f.month, n, u)) {
      SameFieldsSameTime(back.d.t, x.d.t);
    }
  }

  /** When the date does not exist in the month add aimed at, the round trip loses the clamped days. */
  lemma {:induction false} RoundTripLoses(reg: Registry, x: Dayjs, n: int, u: Unit)
    requires x.d.Valid? && (u == Month || u == Year) && FirstInRange(x)
    requires Add(reg, x, n, u).d.Valid? ==> FirstInRange(Add(reg, x, n, u))
    requires var f := FieldsOf(x.d.t);
      f.date > DaysInMonth(TargetYear(f.year, f.month, n, u), TargetMonth(f.month, n, u))
    ensures Subtract(reg, Add(reg, x, n, u), n, u).d != x.d
  {
    if Subtract(reg, Add(reg, x, n, u), n, u).d.Valid? {
      RoundTripExact(reg, x, n, u);
    }
  }

  /** The days of January and February 2023 used below. */
  lemma January2023()
    ensures MakeDay(2023, 0, 1) == 19358 && MakeDay(2023, 0, 31) == 19388 && MakeDay(2023, 1, 1) == 19389
    ensures DaysInMonth(2023, 0) == 31 && DaysInMonth(2023, 1) == 28
  {
    assert DayFromYear(2023) == 19358;
  }

  /**
    2023-01-31 plus one month is 2023-02-28, and one month back from there is
    2023-01-28: the month round trip does not give back January 31.
   */
  lemma {:induction false} JanuaryThirtyFirst(reg: Registry, l: LocaleRef)
    ensures var x := Dayjs(Valid(MakeDate(MakeDay(2023, 0, 31), 0)), l);
      Subtract(reg, Add(reg, x, 1, Month), 1, Month).d != x.d
  {
    var x := Dayjs(Valid(MakeDate(MakeDay(2023, 0, 31), 0)), l);
    January2023();
    assert MakeTime(0, 0, 0, 0) == 0;
    FieldsAt(x.d.t, 2023, 0, 31, 0);
    assert FirstInRange(x);
    var y := Add(reg, x, 1, Month);
    if y.d.Valid? {
      AddCalendarLands(reg, x, 1, Month);
      assert TargetYear(2023, 0, 1, Month) == 2023 && TargetMonth(0, 1, Month) == 1;
      assert FirstInRange(y);
    }
    RoundTripLoses(reg, x, 1, Month);
  }
}
