/**
  The locale registry: the loaded locale definitions `Ls` (name to
  definition) and the global default locale name `L`, threaded explicitly
  through `parseLocale` instead of living in module-level variables.
 */
module Locales {
  import opened Maybe

  /** A locale definition: month and weekday names and the first day of the week. */
  datatype Locale = Locale(
    name: string,
    months: seq<string>,
    monthsShort: Option<seq<string>>,
    weekdays: seq<string>,
    weekdaysShort: Option<seq<string>>,
    weekdaysMin: Option<seq<string>>,
    weekStart: Option<int>)

  /** Twelve month names and seven weekday names: what `format` indexes. */
  predicate NamesCalendar(loc: Locale) {
    |loc.months| == 12 && |loc.weekdays| == 7
  }

  /** Twelve months, seven weekdays and, when given, a week start among them. */
  predicate WellFormed(loc: Locale) {
    NamesCalendar(loc) && (loc.weekStart.Some? ==> 0 <= loc.weekStart.value < 7)
  }

  /** `locale.weekStart || 0`. */
  function WeekStart(loc: Locale): (ws: int)
    ensures WellFormed(loc) ==> 0 <= ws < 7
  {
    loc.weekStart.GetOr(0)
  }

  /** A locale name as it is passed around: null, undefined or a string. */
  datatype LocaleRef = NullRef | UndefinedRef | NameRef(name: string)

  /** JavaScript truthiness of a locale name: the empty string is falsy. */
  predicate Truthy(l: LocaleRef) {
    l.NameRef? && l.name != ""
  }

  /** The property key a locale name reads `Ls` with. */
  function Key(l: LocaleRef): string {
    match l
    case NullRef => "null"
    case UndefinedRef => "undefined"
    case NameRef(s) => s
  }

  /** The loaded locales `Ls` and the global default `L`. */
  datatype Registry = Registry(ls: map<string, Locale>, current: LocaleRef)

  /** The registry at load time: only `en`, which is also the default. */
  function Initial(en: Locale): (reg: Registry)
    ensures reg.current == NameRef("en") && reg.ls.Keys == {"en"}
    ensures "en" in reg.ls && reg.ls["en"] == en
    ensures LocaleOf(reg, reg.current) == Some(en)
  {
    Registry(map["en" := en], NameRef("en"))
  }

  /** `Ls[l]`: the definition a locale name stands for, if it is loaded. */
  function LocaleOf(reg: Registry, l: LocaleRef): (r: Option<Locale>)
    ensures r.Some? <==> Key(l) in reg.ls
    ensures r.Some? ==> r.value == reg.ls[Key(l)]
  {
    if Key(l) in reg.ls then Some(reg.ls[Key(l)]) else None
  }

  /** The first argument of `parseLocale`: a falsy value, a locale name or a definition object. */
  datatype Preset = NoPreset | PresetName(name: string) | PresetObject(def: Locale)

  predicate Falsy(p: Preset) {
    p.NoPreset? || (p.PresetName? && p.name == "")
  }

  /** The registry after a `parseLocale` call, and the name the call returned. */
  datatype Parsed = Parsed(reg: Registry, l: LocaleRef)

  /**
    `parseLocale(preset, object, isLocal)`: registers a definition given as an
    object or as a name with an object, looks up a bare name, and unless
    `isLocal` makes the returned name the global default.
   */
  function ParseLocale(reg: Registry, preset: Preset, definition: Option<Locale>, isLocal: bool): (r: Parsed)
    // a falsy preset returns null and changes nothing
    ensures Falsy(preset) ==> r == Parsed(reg, NullRef)
    // a definition object is stored under its own name, which is returned
    ensures preset.PresetObject? ==>
      r.l == NameRef(preset.def.name) && r.reg.ls == reg.ls[preset.def.name := preset.def]
    // a name with an object stores the object under that name
    ensures !Falsy(preset) && preset.PresetName? && definition.Some? ==>
      r.l == NameRef(preset.name) && r.reg.ls == reg.ls[preset.name := definition.value]
    // a bare name is returned when loaded and is undefined otherwise
    ensures !Falsy(preset) && preset.PresetName? && definition.None? ==>
      r.reg.ls == reg.ls && r.l == (if preset.name in reg.ls then NameRef(preset.name) else UndefinedRef)
    // the default changes only for a non-local call, and then to the returned name
    ensures isLocal || Falsy(preset) ==> r.reg.current == reg.current
    ensures !isLocal && !Falsy(preset) ==> r.reg.current == r.l
    // definitions are never dropped
    ensures reg.ls.Keys <= r.reg.ls.Keys
  {
    if Falsy(preset) then Parsed(reg, NullRef)
    else
      var stored: Parsed := match preset
        case PresetName(s) =>
          var found := if s in reg.ls then NameRef(s) else UndefinedRef;
          if definition.Some? then Parsed(reg.(ls := reg.ls[s := definition.value]), NameRef(s))
          else Parsed(reg, found)
        case PresetObject(def) => Parsed(reg.(ls := reg.ls[def.name := def]), NameRef(def.name));
      if isLocal then stored else stored.(reg := stored.reg.(current := stored.l))
  }

  /** A locale name handed back to `parseLocale` as its first argument. */
  function AsPreset(l: LocaleRef): Preset {
    match l
    case NameRef(s) => PresetName(s)
    case _ => NoPreset
  }

  /**
    The locale of an instance built from another one (`wrapper`, hence every
    clone and every derived instance): `parseLocale(l, null, true) || L`.
   */
  function ResolveLocale(reg: Registry, l: LocaleRef): (r: LocaleRef)
    ensures Truthy(l) && l.name in reg.ls ==> r == l
    ensures !(Truthy(l) && l.name in reg.ls) ==> r == reg.current
  {
    var p := ParseLocale(reg, AsPreset(l), None, true).l;
    if Truthy(p) then p else reg.current
  }
}
