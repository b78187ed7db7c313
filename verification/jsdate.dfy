/**
  The platform `Date` object that backs every instant, reduced to what the
  calendar engine uses: a time value (NaN or an integral millisecond count),
  the local-field getters, the field constructor and the field setters, all
  with a local time-zone offset of zero. The algorithms are those of section
  21.4 of ECMA-262.
 */
module JsDate {
  import opened Calendar
  import opened Maybe

  /** Time values beyond 8.64e15 ms from the epoch are not dates (section 21.4.1.31 of ECMA-262). */
  const MaxTimeValue: int := 8_640_000_000_000_000

  /** A Date's time value: `Invalid` is NaN, the invalid date. */
  datatype Time = Invalid | Valid(t: int)

  predicate InRange(t: int) {
    -MaxTimeValue <= t <= MaxTimeValue
  }

  /** TimeClip: out-of-range time values become NaN. */
  function TimeClip(t: int): (r: Time)
    ensures r.Valid? <==> InRange(t)
    ensures r.Valid? ==> r.t == t
  {
    if InRange(t) then Valid(t) else Invalid
  }

  /** ToIntegerOrInfinity of a finite Number: truncation toward zero. */
  function Truncate(r: real): (i: int)
    ensures 0.0 <= r ==> i as real <= r < i as real + 1.0
    ensures r < 0.0 ==> i as real - 1.0 < r <= i as real
  {
    if 0.0 <= r then r.Floor else -((-r).Floor)
  }

  /**
    TimeClip of a finite Number (section 21.4.1.31 of ECMA-262): NaN when its
    magnitude exceeds 8.64e15, and otherwise its integer part, toward zero.
   */
  function TimeClipNumber(r: real): (d: Time)
    ensures d.Valid? <==> -(MaxTimeValue as real) <= r <= MaxTimeValue as real
    ensures d.Valid? ==> d.t == Truncate(r)
  {
    if -(MaxTimeValue as real) <= r <= MaxTimeValue as real then Valid(Truncate(r)) else Invalid
  }

  /** On an integral Number, TimeClipNumber is TimeClip. */
  lemma {:induction false} TimeClipIntegral(t: int)
    ensures TimeClipNumber(t as real) == TimeClip(t)
  {
    assert Truncate(t as real) == t by {
      if 0 <= t {
        assert (t as real).Floor == t;
      } else {
        assert (-(t as real)).Floor == -t;
      }
    }
  }

  /** The eight cached fields of an instant: $y, $M, $D, $W, $H, $m, $s, $ms. */
  datatype Fields = Fields(year: int, month: int, date: int, weekday: int,
                           hours: int, minutes: int, seconds: int, ms: int)

  /**
    The local-calendar decomposition of a time value, as the getters
    getFullYear, getMonth, getDate, getDay, getHours, getMinutes, getSeconds
    and getMilliseconds return it.
   */
  function FieldsOf(t: int): (f: Fields)
    ensures 0 <= f.month < 12 && 1 <= f.date <= DaysInMonth(f.year, f.month)
    ensures 0 <= f.weekday < 7 && f.weekday == WeekDay(DayOf(t))
    ensures 0 <= f.hours < 24 && 0 <= f.minutes < 60 && 0 <= f.seconds < 60 && 0 <= f.ms < 1000
  {
    var day := DayOf(t);
    Fields(YearFromDay(day), MonthFromDay(day), DateFromDay(day), WeekDay(day),
           HourFromTime(t), MinFromTime(t), SecFromTime(t), MsFromTime(t))
  }

  /** The fields of a time value rebuild its day, its time of day and so the time value itself. */
  lemma {:induction false} FieldsOfRoundTrip(t: int)
    ensures var f := FieldsOf(t);
      && DayOf(t) == MakeDay(f.year, f.month, f.date)
      && TimeWithinDay(t) == MakeTime(f.hours, f.minutes, f.seconds, f.ms)
      && MakeDate(MakeDay(f.year, f.month, f.date), MakeTime(f.hours, f.minutes, f.seconds, f.ms)) == t
  {
    MakeDayOfCivil(DayOf(t));
    TimeRoundTrip(t);
  }

  /** Fields that are all within their ranges describe the only time value they build. */
  predicate InCalendar(y: int, m: int, dt: int, h: int, mi: int, s: int, ms: int) {
    0 <= m < 12 && 1 <= dt <= DaysInMonth(y, m)
    && 0 <= h < 24 && 0 <= mi < 60 && 0 <= s < 60 && 0 <= ms < 1000
  }

  lemma {:induction false} FieldsOfBuild(y: int, m: int, dt: int, h: int, mi: int, s: int, ms: int)
    requires InCalendar(y, m, dt, h, mi, s, ms)
    ensures FieldsOf(MakeDate(MakeDay(y, m, dt), MakeTime(h, mi, s, ms)))
         == Fields(y, m, dt, WeekDay(MakeDay(y, m, dt)), h, mi, s, ms)
  {
    var day := MakeDay(y, m, dt);
    FieldsOfMakeDate(day, h, mi, s, ms);
    CivilOfMakeDay(y, m, dt);
  }

  /**
    The time value of local fields, each carried into the next larger one
    when out of range (MakeDate(MakeDay(y, m, dt), MakeTime(h, mi, s, ms))),
    then clipped. This is what the setters and `new Date(...)` compute.
   */
  function FromFields(y: int, m: int, dt: int, h: int, mi: int, s: int, ms: int): Time {
    TimeClip(MakeDate(MakeDay(y, m, dt), MakeTime(h, mi, s, ms)))
  }

  /** The year the Date constructor uses: a year 0..99 means 1900..1999 (section 21.4.2.1 of ECMA-262). */
  function ConstructorYear(y: int): (r: int)
    ensures 0 <= y <= 99 ==> r == 1900 + y
    ensures !(0 <= y <= 99) ==> r == y
  {
    if 0 <= y <= 99 then 1900 + y else y
  }

  /** `new Date(y, m, dt, h, mi, s, ms)`. */
  function NewDate(y: int, m: int, dt: int, h: int, mi: int, s: int, ms: int): Time {
    FromFields(ConstructorYear(y), m, dt, h, mi, s, ms)
  }

  /** `d.setDate(dt)`: moves the date by whole days, keeping the time of day. */
  function SetDate(d: Time, dt: int): (r: Time)
    ensures d.Invalid? ==> r.Invalid?
    ensures d.Valid? ==> r == TimeClip(d.t + (dt - FieldsOf(d.t).date) * MsPerDay)
  {
    match d
    case Invalid => Invalid
    case Valid(t) =>
      var f := FieldsOf(t);
      FieldsOfRoundTrip(t);
      MakeDayShift(f.year, f.month, f.date, dt - f.date);
      TimeClip(MakeDate(MakeDay(f.year, f.month, dt), TimeWithinDay(t)))
  }

  /** `d.setMonth(m)`. */
  function SetMonth(d: Time, m: int): (r: Time)
    ensures d.Invalid? ==> r.Invalid?
  {
    match d
    case Invalid => Invalid
    case Valid(t) =>
      var f := FieldsOf(t);
      TimeClip(MakeDate(MakeDay(f.year, m, f.date), TimeWithinDay(t)))
  }

  /** `d.setFullYear(y)`: on the invalid date it starts from time value +0, so the result is a valid date. */
  function SetFullYear(d: Time, y: int): Time {
    var t := if d.Valid? then d.t else 0;
    var f := FieldsOf(t);
    TimeClip(MakeDate(MakeDay(y, f.month, f.date), TimeWithinDay(t)))
  }

  /**
    `d.setHours(h, mi, s, ms)`, `d.setMinutes(mi, s, ms)`, `d.setSeconds(s, ms)`
    and `d.setMilliseconds(ms)`: an argument not passed (`None`) keeps the
    current field; the date is kept.
   */
  function SetTimeOfDay(d: Time, h: Option<int>, mi: Option<int>, s: Option<int>, ms: Option<int>): (r: Time)
    ensures d.Invalid? ==> r.Invalid?
  {
    match d
    case Invalid => Invalid
    case Valid(t) =>
      TimeClip(MakeDate(DayOf(t), MakeTime(h.GetOr(HourFromTime(t)), mi.GetOr(MinFromTime(t)),
                                           s.GetOr(SecFromTime(t)), ms.GetOr(MsFromTime(t)))))
  }
}
