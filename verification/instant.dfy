/**
  The immutable instant: a Date time value plus the locale name it is pinned
  to. Its cached fields ($y, $M, $D, $W, $H, $m, $s, $ms) are not stored but
  derived from the time value by `Init`, so they can never disagree with it.
 */
module Instant {
  import opened Maybe
  import opened Calendar
  import opened JsDate
  import opened Locales

  datatype Dayjs = Dayjs(d: Time, l: LocaleRef)

  /** `isValid()`: the time value is not NaN. */
  predicate IsValid(x: Dayjs) {
    x.d.Valid?
  }

  /**
    The groups captured when a string (not ending in `Z`) matches the parse
    pattern `YYYY[-MM[-DD[THH[:mm[:ss[.SSS]]]]]]`: the year digits, then month,
    date, hours, minutes, seconds and milliseconds, each absent (undefined or
    empty) or a digit string's value.
   */
  datatype Captures = Captures(year: nat, month: Option<nat>, date: Option<nat>, hours: Option<nat>,
                               minutes: Option<nat>, seconds: Option<nat>, ms: Option<nat>)

  /** The inputs `parseDate` is modelled for. */
  datatype Input =
    | NullInput                   // null
    | DateInput(date: Time)       // a Date object
    | NumberInput(n: real)        // a finite Number of milliseconds
    | PatternString(c: Captures)  // a string matched by the parse pattern

  /** `parseDate(date)`. */
  function ParseDate(input: Input): (d: Time)
    ensures input.NullInput? ==> d.Invalid?
    ensures input.DateInput? ==> d == input.date
    ensures input.NumberInput? ==> (d.Valid? <==> -8_640_000_000_000_000.0 <= input.n <= 8_640_000_000_000_000.0)
    ensures input.NumberInput? && d.Valid? && 0.0 <= input.n ==> d.t as real <= input.n < d.t as real + 1.0
    ensures input.NumberInput? && d.Valid? && input.n < 0.0 ==> d.t as real - 1.0 < input.n <= d.t as real
    ensures input.PatternString? && input.c.month.None? ==> d.Invalid?
  {
    match input
    case NullInput => Invalid
    case DateInput(date) => date
    case NumberInput(n) => TimeClipNumber(n)
    case PatternString(c) =>
      match c.month
      case None => Invalid
      case Some(month) =>
        NewDate(c.year, month - 1, c.date.GetOr(1), c.hours.GetOr(0),
                c.minutes.GetOr(0), c.seconds.GetOr(0), c.ms.GetOr(0))
  }

  /** Captured components that name an existing calendar date and time of day. */
  predicate CapturesInCalendar(c: Captures) {
    c.month.Some? && 1 <= c.month.value <= 12
    && InCalendar(c.year, c.month.value - 1, c.date.GetOr(1), c.hours.GetOr(0),
                  c.minutes.GetOr(0), c.seconds.GetOr(0), c.ms.GetOr(0))
  }

  /**
    `init()`: the cached fields of an instant, or None (all NaN) for the
    invalid date. They are the decomposition of the time value: within their
    ranges and rebuilding exactly the time value.
   */
  function Init(x: Dayjs): (f: Option<Fields>)
    ensures f.Some? <==> x.d.Valid?
    ensures f.Some? ==>
      && 0 <= f.value.month < 12 && 1 <= f.value.date <= DaysInMonth(f.value.year, f.value.month)
      && 0 <= f.value.hours < 24 && 0 <= f.value.minutes < 60
      && 0 <= f.value.seconds < 60 && 0 <= f.value.ms < 1000
      && f.value.weekday == WeekDay(MakeDay(f.value.year, f.value.month, f.value.date))
      && MakeDate(MakeDay(f.value.year, f.value.month, f.value.date),
                  MakeTime(f.value.hours, f.value.minutes, f.value.seconds, f.value.ms)) == x.d.t
  {
    match x.d
    case Invalid => None
    case Valid(t) =>
      FieldsOfRoundTrip(t);
      Some(FieldsOf(t))
  }

  /** The time value a matched string with a month is built to. */
  lemma ParseDateTime(c: Captures)
    requires c.month.Some?
    ensures ParseDate(PatternString(c)) == TimeClip(MakeDate(
      MakeDay(ConstructorYear(c.year), c.month.value - 1, c.date.GetOr(1)),
      MakeTime(c.hours.GetOr(0), c.minutes.GetOr(0), c.seconds.GetOr(0), c.ms.GetOr(0))))
  {
  }

  /** The cached fields of an instant are the getters' decomposition of its time value. */
  lemma InitFields(x: Dayjs)
    requires x.d.Valid?
    ensures Init(x) == Some(FieldsOf(x.d.t))
  {
  }

  /**
    A string matched by the parse pattern becomes the instant whose fields are
    the captured ones (month one less, absent parts defaulted to date 1 and
    midnight), for a date in range whose year is not 0..99.
   */
  lemma {:induction false} ParseRoundTrip(c: Captures)
    requires CapturesInCalendar(c) && !(c.year <= 99)
    requires ParseDate(PatternString(c)).Valid?
    ensures Init(Dayjs(ParseDate(PatternString(c)), NullRef)) == Some(Fields(
      c.year, c.month.value - 1, c.date.GetOr(1), WeekDay(MakeDay(c.year, c.month.value - 1, c.date.GetOr(1))),
      c.hours.GetOr(0), c.minutes.GetOr(0), c.seconds.GetOr(0), c.ms.GetOr(0)))
  {
    ParseDateTime(c);
    InitFields(Dayjs(ParseDate(PatternString(c)), NullRef));
    FieldsOfBuild(c.year, c.month.value - 1, c.date.GetOr(1), c.hours.GetOr(0),
                  c.minutes.GetOr(0), c.seconds.GetOr(0), c.ms.GetOr(0));
  }

  /** Moving a captured year 1..99 to 1901..1999 keeps the captured date inside its month. */
  lemma TwoDigitInCalendar(c: Captures)
    requires CapturesInCalendar(c) && 1 <= c.year <= 99
    ensures ConstructorYear(c.year) == 1900 + c.year
    ensures InCalendar(ConstructorYear(c.year), c.month.value - 1, c.date.GetOr(1), c.hours.GetOr(0),
                       c.minutes.GetOr(0), c.seconds.GetOr(0), c.ms.GetOr(0))
  {
    LeapYearTwoDigit(c.year);
  }

  /** A captured year 1..99 goes through the Date constructor and lands in 1901..1999. */
  lemma {:induction false} ParseTwoDigitYear(c: Captures)
    requires CapturesInCalendar(c) && 1 <= c.year <= 99
    requires ParseDate(PatternString(c)).Valid?
    ensures Init(Dayjs(ParseDate(PatternString(c)), NullRef)).value.year == 1900 + c.year
  {
    TwoDigitInCalendar(c);
    ParseDateTime(c);
    InitFields(Dayjs(ParseDate(PatternString(c)), NullRef));
    FieldsOfBuild(ConstructorYear(c.year), c.month.value - 1, c.date.GetOr(1), c.hours.GetOr(0),
                  c.minutes.GetOr(0), c.seconds.GetOr(0), c.ms.GetOr(0));
  }

  /** The registry after constructing an instant, and the instant. */
  datatype Created = Created(reg: Registry, x: Dayjs)

  /**
    `dayjs(date, { locale })` for a non-instant input: the locale is
    `parseLocale(locale, null, true) || L` (a definition object is registered
    on the way), the time value is `parseDate(date)`.
   */
  function Create(reg: Registry, input: Input, locale: Preset): (r: Created)
    ensures r.x.d == ParseDate(input)
    ensures r.reg.current == reg.current && reg.ls.Keys <= r.reg.ls.Keys
    // a loaded name is kept; an unknown or falsy one falls back to the default and registers nothing
    ensures locale.PresetName? && locale.name in reg.ls && locale.name != "" ==> r.x.l == NameRef(locale.name)
    ensures locale.PresetName? && locale.name !in reg.ls ==> r.reg == reg && r.x.l == reg.current
    ensures Falsy(locale) ==> r.reg == reg && r.x.l == reg.current
    // a definition object is registered under its name, and a non-empty name becomes the instant's locale
    ensures locale.PresetObject? ==>
      r.reg.ls == reg.ls[locale.def.name := locale.def]
      && r.x.l == (if locale.def.name != "" then NameRef(locale.def.name) else reg.current)
  {
    var p := ParseLocale(reg, locale, None, true);
    Created(p.reg, Dayjs(ParseDate(input), if Truthy(p.l) then p.l else reg.current))
  }

  /**
    `Utils.wrapper(date, instance)`: a new instant for a Date or a number,
    taking the instance's locale when it is loaded and the default otherwise.
    Every derived instance, `clone()` included, is built this way.
   */
  function Wrap(reg: Registry, d: Time, x: Dayjs): (r: Dayjs)
    ensures r.d == d
    ensures Truthy(x.l) && x.l.name in reg.ls ==> r.l == x.l
  {
    Dayjs(d, ResolveLocale(reg, x.l))
  }

  /**
    `locale(preset, object)` on an instance: a clone whose locale name is
    whatever `parseLocale(preset, object, true)` returns, with no `|| L`
    fallback, so a falsy preset leaves it null and an unknown name undefined.
   */
  function SwitchLocale(reg: Registry, x: Dayjs, preset: Preset, definition: Option<Locale>): (r: Created)
    ensures r.x.d == x.d && r.reg.current == reg.current
    ensures Falsy(preset) ==> r.reg == reg && r.x.l == NullRef
    // a given definition is what `$locale()` of the result reads
    ensures preset.PresetObject? ==> LocaleOf(r.reg, r.x.l) == Some(preset.def)
    ensures !Falsy(preset) && preset.PresetName? && definition.Some? ==> LocaleOf(r.reg, r.x.l) == definition
    // a bare name switches to a loaded locale, and to undefined otherwise
    ensures !Falsy(preset) && preset.PresetName? && definition.None? ==>
      r.reg == reg && r.x.l == (if preset.name in reg.ls then NameRef(preset.name) else UndefinedRef)
  {
    var p := ParseLocale(reg, preset, definition, true);
    Created(p.reg, Wrap(reg, x.d, x).(l := p.l))
  }

  /**
    After `locale(definition)` every instance derived from the result (by
    `wrapper`, so every clone, set, add and startOf) keeps that locale, and
    `$locale()` of it is the definition.
   */
  lemma SwitchedLocaleSticks(reg: Registry, x: Dayjs, def: Locale, d: Time)
    requires def.name != ""
    ensures var r := SwitchLocale(reg, x, PresetObject(def), None);
      Wrap(r.reg, d, r.x).l == NameRef(def.name) && LocaleOf(r.reg, Wrap(r.reg, d, r.x).l) == Some(def)
  {
  }

  /** Wrapping twice resolves the locale once: the second lookup finds what the first chose. */
  lemma WrapTwice(reg: Registry, d: Time, e: Time, x: Dayjs)
    ensures Wrap(reg, e, Wrap(reg, d, x)).l == Wrap(reg, e, x).l
  {
  }

  /** `unix()`: whole seconds since the epoch, rounded down; NaN for the invalid date. */
  function Unix(x: Dayjs): (s: Option<int>)
    ensures s.Some? <==> x.d.Valid?
    ensures s.Some? ==> s.value * 1000 <= x.d.t < s.value * 1000 + 1000
  {
    match x.d
    case Invalid => None
    case Valid(t) => Some(t / 1000)
  }

  /**
    `dayjs.unix(n)`: the instant `n` seconds after the epoch, in the default
    locale; a fractional millisecond count is cut toward zero.
   */
  function FromUnix(reg: Registry, n: real): (x: Dayjs)
    ensures x.l == reg.current
    ensures x.d.Valid? <==> -(MaxTimeValue as real) <= n * 1000.0 <= MaxTimeValue as real
    ensures x.d.Valid? && 0.0 <= n ==> x.d.t as real <= n * 1000.0 < x.d.t as real + 1.0
    ensures x.d.Valid? && n < 0.0 ==> x.d.t as real - 1.0 < n * 1000.0 <= x.d.t as real
  {
    Create(reg, NumberInput(n * 1000.0), NoPreset).x
  }

  /** `dayjs.unix(n)` of a whole number of seconds is the date n * 1000 exactly when that is in range. */
  lemma {:induction false} FromWholeSeconds(reg: Registry, n: int)
    ensures FromUnix(reg, n as real).d == TimeClip(n * 1000)
  {
    assert (n as real) * 1000.0 == (n * 1000) as real;
    TimeClipIntegral(n * 1000);
  }

  /** `unix()` undoes `dayjs.unix(n)` for every whole n in range. */
  lemma {:induction false} UnixRoundTrip(reg: Registry, n: int)
    requires InRange(n * 1000)
    ensures Unix(FromUnix(reg, n as real)) == Some(n)
  {
    FromWholeSeconds(reg, n);
  }

  /** `dayjs.unix(1.5)` is 1500 ms after the epoch, and `dayjs(1.5)` is 1 ms after it. */
  lemma FractionalNumbers(reg: Registry)
    ensures FromUnix(reg, 1.5).d == Valid(1500)
    ensures ParseDate(NumberInput(1.5)) == Valid(1)
    ensures ParseDate(NumberInput(-1.5)) == Valid(-1)
  {
  }
}
