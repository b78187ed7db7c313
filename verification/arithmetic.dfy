/**
  The arithmetic engine of an instant: startOf/endOf, set, add/subtract,
  daysInMonth, diff and the comparisons. Every operation returns a new
  instant built by `Wrap`, so the receiver never changes.
 */
module Arithmetic {
  import opened Maybe
  import opened Calendar
  import opened JsDate
  import opened Locales
  import opened Instant

  /** The units `Utils.prettyUnit` normalises a unit name to; anything unrecognised is `Unknown`. */
  datatype Unit = Year | Quarter | Month | Week | Day | Date | Hour | Minute | Second | Millisecond | Unknown

  /** `this.$locale().weekStart || 0`; reading it throws when the locale is not loaded. */
  function WeekStartOf(reg: Registry, x: Dayjs): (ws: int)
    requires LocaleOf(reg, x.l).Some?
    ensures WellFormed(LocaleOf(reg, x.l).value) ==> 0 <= ws < 7
  {
    WeekStart(LocaleOf(reg, x.l).value)
  }

  /** Days from the last week start back to a day of weekday w (both 0..6). */
  function WeekGap(w: int, weekStart: int): int {
    (if w < weekStart then w + 7 else w) - weekStart
  }

  /** The start or the end value of a field. */
  function Edge(isStart: bool, first: int, last: int): int {
    if isStart then first else last
  }

  /**
    The `instanceFactory` of startOf: midnight of date `dt` of month `m` of
    year `y`, built by the Date constructor (which reads a year 0..99 as
    1900..1999) when `twoDigitYears`, by plain field construction otherwise;
    for endOf the same day at 23:59:59.999 (`ins.endOf('day')`).
   */
  function DayAt(y: int, m: int, dt: int, isStart: bool, twoDigitYears: bool): Time {
    var midnight := if twoDigitYears then NewDate(y, m, dt, 0, 0, 0, 0) else FromFields(y, m, dt, 0, 0, 0, 0);
    if isStart then midnight else SetTimeOfDay(midnight, Some(23), Some(59), Some(59), Some(999))
  }

  /** The time value of startOf (isStart) or endOf (!isStart), for a given week start. */
  function BoundaryTime(d: Time, u: Unit, isStart: bool, weekStart: int, twoDigitYears: bool): Time {
    match d
    case Invalid => Invalid
    case Valid(t) =>
      var f := FieldsOf(t);
      match u
      case Year =>
        if isStart then DayAt(f.year, 0, 1, true, twoDigitYears) else DayAt(f.year, 11, 31, false, twoDigitYears)
      case Month =>
        if isStart then DayAt(f.year, f.month, 1, true, twoDigitYears)
        else DayAt(f.year, f.month + 1, 0, false, twoDigitYears)
      case Week =>
        var gap := WeekGap(f.weekday, weekStart);
        DayAt(f.year, f.month, if isStart then f.date - gap else f.date + (6 - gap), isStart, twoDigitYears)
      case Day =>
        SetTimeOfDay(d, Some(Edge(isStart, 0, 23)), Some(Edge(isStart, 0, 59)), Some(Edge(isStart, 0, 59)), Some(Edge(isStart, 0, 999)))
      case Date =>
        SetTimeOfDay(d, Some(Edge(isStart, 0, 23)), Some(Edge(isStart, 0, 59)), Some(Edge(isStart, 0, 59)), Some(Edge(isStart, 0, 999)))
      case Hour =>
        SetTimeOfDay(d, None, Some(Edge(isStart, 0, 59)), Some(Edge(isStart, 0, 59)), Some(Edge(isStart, 0, 999)))
      case Minute =>
        SetTimeOfDay(d, None, None, Some(Edge(isStart, 0, 59)), Some(Edge(isStart, 0, 999)))
      case Second =>
        SetTimeOfDay(d, None, None, None, Some(Edge(isStart, 0, 999)))
      case _ => d
  }

  /**
    `startOf(units, isStartOf)` exactly as written: year, month and week
    boundaries are built with `new Date(this.$y, m, d)`.
   */
  function StartOfAsWritten(reg: Registry, x: Dayjs, u: Unit, isStart: bool): Dayjs
    requires u == Week ==> LocaleOf(reg, x.l).Some?
  {
    Wrap(reg, BoundaryTime(x.d, u, isStart, if u == Week then WeekStartOf(reg, x) else 0, true), x)
  }

  /**
    `startOf(units)`, with the boundary day built in the instant's own year:
    the corrected boundary, which agrees with the code outside the years 0..99.
   */
  function StartOf(reg: Registry, x: Dayjs, u: Unit): (r: Dayjs)
    requires u == Week ==> LocaleOf(reg, x.l).Some?
    ensures x.d.Invalid? ==> r.d.Invalid?
    ensures u in {Quarter, Millisecond, Unknown} ==> r.d == x.d
  {
    Wrap(reg, BoundaryTime(x.d, u, true, if u == Week then WeekStartOf(reg, x) else 0, false), x)
  }

  /** `endOf(units)`, with the corrected boundary day (see StartOf). */
  function EndOf(reg: Registry, x: Dayjs, u: Unit): (r: Dayjs)
    requires u == Week ==> LocaleOf(reg, x.l).Some?
    ensures x.d.Invalid? ==> r.d.Invalid?
    ensures u in {Quarter, Millisecond, Unknown} ==> r.d == x.d
  {
    Wrap(reg, BoundaryTime(x.d, u, false, if u == Week then WeekStartOf(reg, x) else 0, false), x)
  }

  /** `daysInMonth()`: the date of `endOf('month')`; NaN when that end is not a date. */
  function DaysInMonthOf(reg: Registry, x: Dayjs): (n: Option<int>)
    ensures x.d.Invalid? ==> n.None?
  {
    match EndOf(reg, x, Month).d
    case Invalid => None
    case Valid(e) => Some(FieldsOf(e).date)
  }

  /** `daysInMonth()` as written: the date of the code's `endOf('month')`. */
  function DaysInMonthAsWritten(reg: Registry, x: Dayjs): (n: Option<int>)
    ensures x.d.Invalid? ==> n.None?
  {
    match StartOfAsWritten(reg, x, Month, false).d
    case Invalid => None
    case Valid(e) => Some(FieldsOf(e).date)
  }

  /**
    The effect of `$set(units, v)` on the Date: the field setter for the unit,
    where `day` sets the weekday by moving the date by `v - $W`, and a unit
    without a setter changes nothing.
   */
  function SetField(d: Time, u: Unit, v: int): Time {
    match u
    case Day =>
      (match d
       case Invalid => Invalid
       case Valid(t) => SetDate(d, FieldsOf(t).date + (v - FieldsOf(t).weekday)))
    case Date => SetDate(d, v)
    case Month => SetMonth(d, v)
    case Year => SetFullYear(d, v)
    case Hour => SetTimeOfDay(d, Some(v), None, None, None)
    case Minute => SetTimeOfDay(d, None, Some(v), None, None)
    case Second => SetTimeOfDay(d, None, None, Some(v), None)
    case Millisecond => SetTimeOfDay(d, None, None, None, Some(v))
    case _ => d
  }

  /** `set(units, v)`: `$set` applied to a clone. */
  function Set(reg: Registry, x: Dayjs, u: Unit, v: int): (r: Dayjs)
    ensures u in {Week, Quarter, Unknown} ==> r.d == x.d
    ensures u != Year && x.d.Invalid? ==> r.d.Invalid?
  {
    Wrap(reg, SetField(x.d, u, v), x)
  }

  /** `new Date(this.$d)` moved by `setDate(getDate() + k)`. */
  function ShiftDays(d: Time, k: int): (r: Time)
    ensures d.Invalid? ==> r.Invalid?
    ensures d.Valid? ==> r == TimeClip(d.t + k * MsPerDay)
  {
    match d
    case Invalid => Invalid
    case Valid(t) => SetDate(d, FieldsOf(t).date + k)
  }

  /** The fixed step of `add` for the remaining units: `{ minute, hour, second }[unit] || 1`. */
  function StepOf(u: Unit): (ms: int)
    ensures u == Hour ==> ms == 3_600_000
    ensures u == Minute ==> ms == 60_000
    ensures u == Second ==> ms == 1_000
    ensures !(u in {Hour, Minute, Second}) ==> ms == 1
  {
    var table := match u
      case Minute => Some(MsPerMinute)
      case Hour => Some(MsPerHour)
      case Second => Some(MsPerSecond)
      case _ => None;
    table.GetOr(1)
  }

  /**
    The last step of add for months and years: `set('date', Math.min(date,
    daysInMonth()))`, where `Math.min(date, NaN)` is NaN and setDate(NaN)
    gives the invalid date.
   */
  function ClampDate(reg: Registry, moved: Dayjs, date: int): (r: Dayjs)
    ensures r.d.Valid? ==>
      && DaysInMonthOf(reg, moved).Some?
      && r == Set(reg, moved, Date, Min(date, DaysInMonthOf(reg, moved).value))
  {
    match DaysInMonthOf(reg, moved)
    case None => Wrap(reg, Invalid, moved)
    case Some(dim) => Set(reg, moved, Date, Min(date, dim))
  }

  /** The value add hands to set(units, …) for months and years: the month (or the year) moved by n. */
  function MovedField(y: int, m: int, n: int, u: Unit): int {
    (if u == Month then m else y) + n
  }

  /** The first two steps of add for months and years: `this.set('date', 1).set(units, field + n)`. */
  function MoveFromFirst(reg: Registry, x: Dayjs, n: int, u: Unit): Dayjs
    requires x.d.Valid?
  {
    var f := FieldsOf(x.d.t);
    Set(reg, Set(reg, x, Date, 1), u, MovedField(f.year, f.month, n, u))
  }

  /**
    The `instanceFactory` of add for months and years: date 1, then the
    month (or year) moved by n, then the original date clamped to the length
    of the month reached.
   */
  function AddCalendar(reg: Registry, x: Dayjs, n: int, u: Unit): (r: Dayjs)
    requires u == Month || u == Year
    ensures x.d.Invalid? ==> r.d.Invalid?
  {
    match x.d
    case Invalid => Wrap(reg, Invalid, x)
    case Valid(_) => ClampDate(reg, MoveFromFirst(reg, x, n, u), FieldsOf(x.d.t).date)
  }

  /** `add(n, units)`. */
  function Add(reg: Registry, x: Dayjs, n: int, u: Unit): (r: Dayjs)
    ensures x.d.Invalid? ==> r.d.Invalid?
    ensures x.d.Valid? && u == Day ==> r.d == TimeClip(x.d.t + n * MsPerDay)
    ensures x.d.Valid? && u == Week ==> r.d == TimeClip(x.d.t + n * MsPerWeek)
    ensures x.d.Valid? && !(u in {Month, Year, Day, Week}) ==> r.d == TimeClip(x.d.t + n * StepOf(u))
  {
    match u
    case Month => AddCalendar(reg, x, n, Month)
    case Year => AddCalendar(reg, x, n, Year)
    case Day => Wrap(reg, ShiftDays(x.d, n), x)
    case Week => Wrap(reg, ShiftDays(x.d, 7 * n), x)
    case _ =>
      Wrap(reg, match x.d case Invalid => Invalid case Valid(t) => TimeClip(t + n * StepOf(u)), x)
  }

  /**
    `add(n, units)` as written: for months and years the clamping step reads
    the code's `daysInMonth()`, whose end of month lies in 1900..1999 for the
    years 0..99.
   */
  function AddAsWritten(reg: Registry, x: Dayjs, n: int, u: Unit): (r: Dayjs)
    ensures x.d.Invalid? ==> r.d.Invalid?
  {
    if (u == Month || u == Year) && x.d.Valid? then
      var moved := MoveFromFirst(reg, x, n, u);
      match DaysInMonthAsWritten(reg, moved)
      case None => Wrap(reg, Invalid, moved)
      case Some(dim) => Set(reg, moved, Date, Min(FieldsOf(x.d.t).date, dim))
    else Add(reg, x, n, u)
  }

  /** `subtract(n, units)`: `add(n * -1, units)`. */
  function Subtract(reg: Registry, x: Dayjs, n: int, u: Unit): (r: Dayjs)
    ensures x.d.Invalid? ==> r.d.Invalid?
    ensures x.d.Valid? && u == Day ==> r.d == TimeClip(x.d.t - n * MsPerDay)
    ensures x.d.Valid? && u == Week ==> r.d == TimeClip(x.d.t - n * MsPerWeek)
    ensures x.d.Valid? && !(u in {Month, Year, Day, Week}) ==> r.d == TimeClip(x.d.t - n * StepOf(u))
  {
    assert (n * -1) * MsPerDay == -(n * MsPerDay) && (n * -1) * MsPerWeek == -(n * MsPerWeek);
    assert (n * -1) * StepOf(u) == -(n * StepOf(u));
    Add(reg, x, n * -1, u)
  }

  /** `Utils.absFloor`: rounds toward zero. */
  function AbsFloor(r: real): (z: real)
    ensures z == z.Floor as real
    ensures 0.0 <= r ==> 0.0 <= z <= r < z + 1.0
    ensures r < 0.0 ==> z - 1.0 < r <= z <= 0.0
  {
    var k: int := if r < 0.0 then -((-r).Floor) else r.Floor;
    assert (k as real).Floor == k;
    k as real
  }

  /**
    `diff(that, units, float)` at a zero time-zone offset (so `zoneDelta` is
    0), in exact rationals. `monthDiff` is what `Utils.monthDiff(this, that)`
    returns; a unit without an entry, or an entry equal to 0, falls back to the
    raw millisecond difference (`|| diff`). None is NaN.
   */
  function Diff(x: Dayjs, that: Dayjs, u: Unit, float: bool, monthDiff: real): (r: Option<real>)
    ensures r.Some? <==> x.d.Valid? && that.d.Valid?
    ensures r.Some? && !float ==> r.value == r.value.Floor as real
  {
    match (x.d, that.d)
    case (Valid(a), Valid(b)) =>
      var diff := (a - b) as real;
      var table: Option<real> := match u
        case Year => Some(monthDiff / 12.0)
        case Month => Some(monthDiff)
        case Quarter => Some(monthDiff / 3.0)
        case Week => Some(diff / MsPerWeek as real)
        case Day => Some(diff / MsPerDay as real)
        case Hour => Some(diff / MsPerHour as real)
        case Minute => Some(diff / MsPerMinute as real)
        case Second => Some(diff / MsPerSecond as real)
        case _ => None;
      var result := if table.Some? && table.value != 0.0 then table.value else diff;
      Some(if float then result else AbsFloor(result))
    case _ => None
  }

  /** `a <= b` on two Dates' values: false when either is NaN. */
  predicate Le(a: Time, b: Time) {
    a.Valid? && b.Valid? && a.t <= b.t
  }

  /** `a < b` on two Dates' values: false when either is NaN. */
  predicate Lt(a: Time, b: Time) {
    a.Valid? && b.Valid? && a.t < b.t
  }

  /** `isSame(that, units)`: `that` lies between startOf and endOf of this instant (corrected boundaries). */
  predicate IsSame(reg: Registry, x: Dayjs, that: Dayjs, u: Unit)
    requires u == Week ==> LocaleOf(reg, x.l).Some?
  {
    Le(StartOf(reg, x, u).d, that.d) && Le(that.d, EndOf(reg, x, u).d)
  }

  /** `isAfter(that, units)`: `that` lies before startOf of this instant (corrected boundary). */
  predicate IsAfter(reg: Registry, x: Dayjs, that: Dayjs, u: Unit)
    requires u == Week ==> LocaleOf(reg, x.l).Some?
  {
    Lt(that.d, StartOf(reg, x, u).d)
  }

  /** `isBefore(that, units)`: `that` lies after endOf of this instant (corrected boundary). */
  predicate IsBefore(reg: Registry, x: Dayjs, that: Dayjs, u: Unit)
    requires u == Week ==> LocaleOf(reg, x.l).Some?
  {
    Lt(EndOf(reg, x, u).d, that.d)
  }

  /** `isSame(that, units)` as written, on the code's boundaries. */
  predicate IsSameAsWritten(reg: Registry, x: Dayjs, that: Dayjs, u: Unit)
    requires u == Week ==> LocaleOf(reg, x.l).Some?
  {
    Le(StartOfAsWritten(reg, x, u, true).d, that.d) && Le(that.d, StartOfAsWritten(reg, x, u, false).d)
  }

  /** `isAfter(that, units)` as written. */
  predicate IsAfterAsWritten(reg: Registry, x: Dayjs, that: Dayjs, u: Unit)
    requires u == Week ==> LocaleOf(reg, x.l).Some?
  {
    Lt(that.d, StartOfAsWritten(reg, x, u, true).d)
  }

  /** `isBefore(that, units)` as written. */
  predicate IsBeforeAsWritten(reg: Registry, x: Dayjs, that: Dayjs, u: Unit)
    requires u == Week ==> LocaleOf(reg, x.l).Some?
  {
    Lt(StartOfAsWritten(reg, x, u, false).d, that.d)
  }
}
