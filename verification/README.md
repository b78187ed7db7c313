# dayjs core, modelled in Dafny

This project models the core of dayjs (`src/index.js`): the immutable instant and the engine around it.

- **The instant.** A Date time value plus a locale name. Its cached fields are derived by `init()` from the time value.
- **The locale registry.** `parseLocale` works on the loaded definitions `Ls` and the global default `L`. The registry is passed around as an explicit value instead of living in module state.
- **Construction.** The construction path is `dayjs(...)`, `parseDate` and `wrapper`. It covers the `null`, Date, number and matched-string inputs.
- **The engine:**
  - `startOf`/`endOf`, including the week gap;
  - `$set`/`set`, where `day` sets the weekday;
  - `add`/`subtract`, with month-end clamping;
  - `daysInMonth`;
  - `diff`, with its `|| diff` fallback and `absFloor`;
  - `isSame`/`isBefore`/`isAfter`;
  - `unix` and `dayjs.unix`.
- **`format`.** It works over a pattern already split into literal text and matches. Covered:
  - the token table;
  - `getShort`;
  - the 12-hour clock and am/pm;
  - bracket stripping;
  - the `matches[match] || zoneStr.replace(':', '')` fallback;
  - the "Invalid Date" result.

The platform `Date` underneath is modelled by the time-value algorithms of section 21.4 of ECMA-262, with a local time-zone offset of 0:
- MakeDay, MakeDate and TimeClip;
- the local-field getters and setters;
- the rule that `new Date(y, …)` reads a year 0..99 as 1900..1999;
- `setFullYear` on NaN starting from time value +0.

Modules, in dependency order:

| module | file | what it holds |
|---|---|---|
| `Maybe` | maybe.dfy | `Option`, `GetOr`, `Min` |
| `Calendar` | calendar.dfy | day numbers, years, months, weekdays and time of day, as section 21.4.1 of ECMA-262 defines them |
| `JsDate` | jsdate.dfy | the Date time value (`Invalid` is NaN), the getters (`FieldsOf`), the constructor and the setters |
| `Locales` | locale.dfy | locale definitions, the registry, `parseLocale`, and the `parseLocale(l, null, true) \|\| L` locale of derived instances |
| `Instant` | instant.dfy | the instant, `parseDate`, `init`, `dayjs(...)`, `wrapper`, the instance `locale()`, `unix`, `dayjs.unix` |
| `Arithmetic` | arithmetic.dfy | `startOf`/`endOf`, `set`, `add`/`subtract`, `daysInMonth`, `diff`, the comparisons |
| `ArithmeticLaws` | arithmetic_laws.dfy | boundaries bracket the instant, the week boundaries, month lengths, `set` |
| `AddLaws`, `RoundTrip` | add_laws.dfy | where `add` lands, when it gives a date, fixed-step inverses, the month round trip |
| `CompareLaws` | compare_laws.dfy | trichotomy of the comparisons; `isSame` by day and by month |
| `DiffLaws` | diff_laws.dfy | `diff` per unit, antisymmetry, `diff` measures `add` |
| `Format`, `FormatLaws` | format.dfy, format_laws.dfy | `format` and its laws |
| `TwoDigitYears` | two_digit_years.dfy | the code's boundaries against the corrected ones: agreement outside the years 0..99, counterexamples inside |
| `WorkedExamples` | worked_examples.dfy | concrete instants built from date strings, through add, startOf, daysInMonth and format |

Where the code and its documented intent differ, the model follows the code, with one exception, the years 0..99:

- **Years 0..99.** `startOf` and `endOf` build the year, month and week boundaries with `new Date(this.$y, m, d)`, which reads a year 0..99 as 1900..1999.
  - `Arithmetic.StartOfAsWritten` models that boundary. `Arithmetic.DaysInMonthAsWritten`, `Arithmetic.AddAsWritten` and the `…AsWritten` comparisons build on it.
  - `Arithmetic.StartOf`, `EndOf`, `DaysInMonthOf`, `Add`, `Subtract`, `IsSame`, `IsAfter` and `IsBefore`, and the laws about them, use the corrected boundary in the instant's own year.
  - The `TwoDigitYears` lemmas prove that the two agree for every instant outside the years 0..99, and exhibit the difference inside them (see "## Findings").

- **Month round trip.** `add(n, 'month')` followed by `subtract(n, 'month')` is not an identity. The date is clamped to the length of the month reached, so 2023-01-31 comes back as 2023-01-28.
  - `RoundTrip.RoundTripExact` states exactly when the instant is given back.
  - `RoundTrip.JanuaryThirtyFirst` is the concrete case.
- **Unknown locale name.** A global `parseLocale` call with an unknown name and no definition sets the default locale to `undefined`; the previous default is not kept. Every later instance then resolves to that undefined default.
- **Year-only strings.** The parse pattern lets the month be absent, and the date and time of day have defaults, but the month does not: `d[2] - 1` is NaN, so `dayjs('2023')` is the invalid date (`WorkedExamples.YearOnlyIsInvalid`).
- **Invalid dates.** Not every operation keeps the invalid date invalid. `set('year', y)` on the invalid date gives January 1 of year `y` (`ArithmeticLaws.SetYearOnInvalid`), because `setFullYear` on NaN starts from time value +0.
- **Thrown errors.** Reading the week start or the names of a locale that is not loaded throws in the code. The model turns those paths into preconditions (see "Left out").

## Model

| member | source | states |
|---|---|---|
| Locales.ParseLocale | src/index.js:11-29 | a falsy preset returns null and changes nothing; a definition (object, or name with object) is stored under its name and that name is returned; a bare name is returned when loaded and is undefined otherwise; the default changes exactly for a non-local call with a truthy preset, to the returned value; no definition is ever dropped |
| Locales.Initial | src/index.js:5-7 | at load time only `en` is loaded, `Ls['en']` is the `en` definition, and `en` is the default |
| Locales.WeekStart | src/index.js:172 | `weekStart \|\| 0` lies in 0..6 for a well-formed locale |
| Locales.ResolveLocale | src/index.js:64 | a derived instance keeps its locale name when it is non-empty and loaded, and otherwise takes the global default |
| Instant.ParseDate | src/index.js:48-60 | `null` gives the invalid date and a Date is kept; a number is a date exactly when it lies within ±8.64e15 ms, and is then its integer part toward zero; a matched string without a month is the invalid date, since `d[2] - 1` is NaN |
| Instant.ParseRoundTrip | src/index.js:52-56 | a matched string with in-calendar components and a year outside 0..99 yields an instant whose cached fields are exactly the captured ones |
| Instant.ParseTwoDigitYear | src/index.js:55 | a captured year 1..99 yields an instant in the year 1900 + year |
| Instant.Init | src/index.js:73-83 | the cached fields exist exactly for a valid date; each is in its range; the weekday matches the date; together they rebuild the time value |
| Instant.Create | src/index.js:31-38 | `dayjs(date, { locale })` holds `parseDate(date)`; a loaded non-empty name is kept; an unknown or falsy one gives the default and registers nothing; a definition object is registered and, when its name is non-empty, becomes the locale; the default never changes |
| Instant.Wrap | src/index.js:41 | `wrapper` keeps the given time value and the instance's locale when that locale is loaded |
| Instant.SwitchLocale | src/index.js:340-344 | `locale(preset, object)` keeps the time value and the default; a falsy preset gives a null locale; a given definition is what `$locale()` then reads; a bare name switches to a loaded locale and to undefined otherwise |
| Instant.SwitchedLocaleSticks | src/index.js:340-348 | after `locale(definition)` every instance derived through `wrapper` keeps that locale |
| Instant.Unix | src/index.js:139-141 | `unix()` is the whole number of seconds s with s*1000 <= value < s*1000 + 1000; NaN exactly for the invalid date |
| Instant.FromUnix | src/index.js:405-407 | `dayjs.unix(n)` is in the default locale, is a date exactly when n * 1000 is within ±8.64e15, and is then n * 1000 cut toward zero to whole milliseconds |
| Instant.FromWholeSeconds | src/index.js:405-407 | for a whole number of seconds n, `dayjs.unix(n)` is the date n * 1000 exactly when that is in the time-value range |
| Instant.FractionalNumbers | src/index.js:405-407 | `dayjs.unix(1.5)` is 1500 ms; `dayjs(1.5)` is 1 ms and `dayjs(-1.5)` is -1 ms, cut toward zero |
| Instant.UnixRoundTrip | src/index.js:405-407 | `dayjs.unix(n).unix()` is n for every whole n whose milliseconds are in range |
| JsDate.TimeClipNumber | src/index.js:58 | `new Date(number)` is NaN beyond ±8.64e15 and otherwise the number's integer part toward zero |
| JsDate.FieldsOfRoundTrip | src/index.js:75-82 | the getters' fields rebuild the day, the time of day and the time value |
| Arithmetic.StartOf | src/index.js:148-188 | the invalid date stays invalid; for quarter, millisecond and an unknown unit the clone has the same time value |
| Arithmetic.EndOf | src/index.js:190-192 | as StartOf, for the end boundary |
| Arithmetic.DaysInMonthOf | src/index.js:332-334 | NaN for the invalid date |
| Arithmetic.DaysInMonthAsWritten | src/index.js:332-334 | as written, NaN for the invalid date |
| Arithmetic.Set | src/index.js:194-216 | week, quarter and an unknown unit (no setter) leave the time value unchanged; every unit but year keeps the invalid date invalid |
| Arithmetic.ShiftDays | src/index.js:225-229 | `setDate(getDate() + k)` moves the time value by exactly k days, clipped; invalid stays invalid |
| Arithmetic.StepOf | src/index.js:242-246 | the step of add: 3600000 ms for hour, 60000 for minute, 1000 for second, and 1 ms for every other unit |
| Arithmetic.Add | src/index.js:218-250 | invalid stays invalid; day and week move by n days and 7n days; every other unit but month and year moves by n steps; all clipped |
| Arithmetic.AddAsWritten | src/index.js:218-235 | as written, invalid stays invalid; month and year clamp with the code's daysInMonth() after the two moving steps (an undefined length gives the invalid date); every other unit is Add |
| Arithmetic.Subtract | src/index.js:252-254 | the same moves as Add, backwards |
| Arithmetic.AbsFloor | src/index.js:329 | the integer toward zero: not above \|r\| and within one of r |
| Arithmetic.Diff | src/index.js:311-330 | a number exactly when both instants are dates, and an integer unless float is asked for |
| ArithmeticLaws.DayAtTime | src/index.js:151-154 | the `instanceFactory` day is midnight for startOf and the day's last millisecond for endOf |
| ArithmeticLaws.EndOfDay | src/index.js:153 | `endOf('day')` of a midnight is that day's last millisecond |
| ArithmeticLaws.MonthStartTime | src/index.js:169 | startOf('month') is midnight of the month's first day |
| ArithmeticLaws.MonthEndTime | src/index.js:170 | endOf('month') is the last millisecond of date 0 of the next month |
| ArithmeticLaws.BracketYear | src/index.js:165-167 | the year boundaries that are dates lie on either side of the instant |
| ArithmeticLaws.BracketMonth | src/index.js:168-170 | the month boundaries that are dates lie on either side of the instant |
| ArithmeticLaws.WeekDayBack | src/index.js:173 | the gap is in 0..6 and going back by it lands on the week start |
| ArithmeticLaws.BracketWeek | src/index.js:171-174 | the week boundaries that are dates lie on either side of the instant |
| ArithmeticLaws.BracketClock | src/index.js:176-184 | the day, hour, minute and second boundaries that are dates lie on either side of the instant |
| ArithmeticLaws.BoundaryBrackets | src/index.js:148-187 | for every unit, a start boundary that is a date is not after the instant and an end boundary not before it |
| ArithmeticLaws.StartOfEndOfBracket | src/index.js:148-192 | startOf(u) <= x <= endOf(u) whenever the boundary is a date; for a unit without boundaries both are x |
| ArithmeticLaws.WeekStartTime | src/index.js:171-174 | startOf('week') is midnight of the day `gap` days back |
| ArithmeticLaws.WeekEndTime | src/index.js:171-174 | endOf('week') is the last millisecond of the day 6 - gap days ahead |
| ArithmeticLaws.WeekBoundaries | src/index.js:171-174 | startOf('week') is a midnight on the locale's week start, 0..6 days back; endOf('week') is a last millisecond on the weekday before it, 0..6 days ahead |
| ArithmeticLaws.DaysInMonthIsMonthLength | src/index.js:332-334 | daysInMonth() is the length of the instant's month, in 28..31, and 29 for February exactly in a leap year |
| ArithmeticLaws.StartOfAsWrittenAgrees | src/index.js:151-153 | outside the years 0..99 the code's boundaries and the corrected ones agree |
| ArithmeticLaws.StartOfYearFiftyIsLater | src/index.js:151-153 | as written, startOf('year') of a date in the year 50 is January 1, 1950, after the instant |
| ArithmeticLaws.SetWeekday | src/index.js:206 | set('day', v) moves by v - $W whole days, lands on weekday v mod 7, keeps the time of day |
| ArithmeticLaws.SetWeekdayField | src/index.js:206-208 | `setDate($D + (v - $W))` moves by v - $W days to weekday v mod 7 at the same time of day |
| ArithmeticLaws.SetDateField | src/index.js:197-198 | set('date', dt) with a date of the month changes the date (and weekday) and no other field |
| ArithmeticLaws.SetMonthField | src/index.js:199 | set('month', m) when the date exists in month m changes the month (and weekday) and no other field |
| ArithmeticLaws.SetHourField | src/index.js:201 | set('hour', h) with h in 0..23 changes the hour and no other field |
| ArithmeticLaws.SetFullYearOnInvalid | src/index.js:200 | `setFullYear(y)` on NaN gives January 1 of year y at midnight |
| ArithmeticLaws.SetYearOnInvalid | src/index.js:194-216 | set('year', y) on the invalid date is a valid date with fields y-01-01 00:00:00.000 |
| AddLaws.AddFixed | src/index.js:236-249 | for every unit but month and year, add moves by n unit lengths (day 86400000, week 604800000, hour, minute, second, else 1 ms) |
| AddLaws.SubtractFixed | src/index.js:252-254 | subtract moves back by n unit lengths |
| AddLaws.SubtractUndoesAdd | src/index.js:242-254 | subtract(n, u) after add(n, u) restores the time value for the fixed-length units |
| AddLaws.AddUndoesSubtract | src/index.js:242-254 | add(n, u) after subtract(n, u) restores the time value for the fixed-length units |
| AddLaws.AddAdditive | src/index.js:242-249 | add(m, u) then add(n, u) is add(m + n, u) for the fixed-length units |
| AddLaws.MakeDayCarry | src/index.js:222 | month m + n of year y is month (m + n) mod 12 of year y + floor((m + n) / 12) |
| AddLaws.FirstOfMonth | src/index.js:222 | set('date', 1) is date 1 of the instant's month at its time of day |
| AddLaws.SetFromFirst | src/index.js:222 | set('month', m + n) or set('year', y + n) on date 1 is date 1 of the target month |
| AddLaws.AddCalendarMoved | src/index.js:222 | the first two steps of add for month and year reach date 1 of the target month at the instant's time of day |
| AddLaws.AddCalendarClamp | src/index.js:223 | on date 1 of a month, daysInMonth() is that month's length and set('date', dt) reaches date dt of it |
| AddLaws.AddCalendarLands | src/index.js:221-235 | add(n, 'month'\|'year') lands in the target month with years carried, on min(date, daysInMonth(target)), at the same time of day |
| AddLaws.ClampLands | src/index.js:223 | clamping on date 1 of a month reaches the clamped date of that month |
| AddLaws.MonthLengthDefined | src/index.js:223 | daysInMonth() on date 1 of a month in range is a number |
| AddLaws.ClampValid | src/index.js:223 | the clamping step on date 1 of a month in range gives a date |
| AddLaws.MovedValid | src/index.js:222 | the moving steps give a date when the target month is in range |
| AddLaws.AddCalendarValid | src/index.js:221-235 | add(n, 'month'\|'year') gives a date when date 1 of the instant's month and the whole target month are in range |
| RoundTrip.TargetBack | src/index.js:221-222 | aiming n months (or years) ahead and then n back aims at the starting month |
| RoundTrip.RoundTripLands | src/index.js:218-254 | subtract(n, u) after add(n, u) for month and year returns to the instant's month and time of day, on its date clamped to the month add aimed at |
| RoundTrip.RoundTripExact | src/index.js:218-254 | that round trip gives back the instant exactly when its date exists in the month add aimed at |
| RoundTrip.RoundTripLoses | src/index.js:218-254 | when the date does not exist there, the round trip does not give back the instant |
| RoundTrip.JanuaryThirtyFirst | src/index.js:221-235 | 2023-01-31 plus one month minus one month is not 2023-01-31 |
| CompareLaws.UnboundedCompares | src/index.js:94-105 | for quarter, millisecond and an unknown unit, isSame is equality of two dates and isBefore/isAfter are the strict orders |
| CompareLaws.Trichotomy | src/index.js:94-105 | with boundaries that are dates, every date is exactly one of: same, after the unit (isBefore), before the unit (isAfter) |
| CompareLaws.SameAsItself | src/index.js:94-105 | an instant is the same as itself and neither before nor after itself |
| CompareLaws.InvalidComparesFalse | src/index.js:94-105 | with an invalid date on either side all three comparisons are false |
| CompareLaws.DayBoundaries | src/index.js:176-178 | startOf('day') and endOf('day') are the day's midnight and last millisecond |
| CompareLaws.SameDay | src/index.js:94-97 | isSame(that, 'day') holds exactly when that has the same year, month and date |
| CompareLaws.MonthBoundaries | src/index.js:168-170 | startOf('month') and endOf('month') are the month's first midnight and last millisecond |
| CompareLaws.SameMonth | src/index.js:94-97 | isSame(that, 'month') holds exactly when that has the same year and month |
| DiffLaws.AbsFloorNegate | src/index.js:329 | absFloor commutes with negation |
| DiffLaws.DiffFixed | src/index.js:318-329 | for week, day, hour, minute and second, diff is the millisecond difference over the unit's length, truncated unless float |
| DiffLaws.DiffRaw | src/index.js:327-329 | for date, millisecond and an unknown unit, diff is the raw millisecond difference |
| DiffLaws.DiffCalendar | src/index.js:316-329 | for year, quarter and month, diff is monthDiff over 12, 3 or 1, truncated unless float, and the raw millisecond difference when monthDiff is 0 |
| DiffLaws.DiffAntisymmetric | src/index.js:311-330 | b.diff(a, u) is -a.diff(b, u) for every unit (with monthDiff negated) |
| DiffLaws.DiffOfAdd | src/index.js:311-330 | x.add(n, u).diff(x, u) is n for week, day, hour, minute, second, date, millisecond and an unknown unit |
| Format.Hour12 | src/index.js:268-270 | `$H % 12 \|\| 12` is in 1..12 and equals the hour modulo 12 |
| Format.GetShort | src/index.js:265-267 | a truthy short name (list given, long enough, name not empty) is used; otherwise the first `length` characters of the full name, as many as it has up to `length` |
| Format.StripBrackets | src/index.js:300 | no bracket is left, nothing is added, and a string without brackets is unchanged |
| Format.RemoveFirstColon | src/index.js:301 | a string without a colon is unchanged; otherwise the result is the text before the first colon followed by the text after it |
| Format.PadNumRoundTrip | src/index.js:276 | the padded field reads back as the number, is at least the width, and exactly the width when the digits fit |
| Format.FormatInstant | src/index.js:256-259 | the invalid date formats as "Invalid Date" for every pattern |
| FormatLaws.LookupIsTokenText | src/index.js:272-297 | a match finds a table entry exactly when it is that entry's key |
| FormatLaws.RenderConcat | src/index.js:299-302 | a concatenated pattern renders as the concatenated renderings |
| FormatLaws.FormatPieces | src/index.js:299-302 | format of a concatenation of non-empty patterns is the concatenation of their formats |
| FormatLaws.LiteralsVerbatim | src/index.js:299-302 | text between matches is copied unchanged |
| FormatLaws.StripBracketsConcat | src/index.js:300 | `replace(/\[\|\]/g, '')` works character by character: stripping a concatenation is the concatenation of the stripped parts |
| FormatLaws.BracketedVerbatim | src/index.js:300 | `[text]` renders as text for text without brackets |
| FormatLaws.DoubleZone | src/index.js:301 | `ZZ` renders as the zone string without its first colon |
| FormatLaws.EmptyNameIsZone | src/index.js:278 | an empty month name falls back to the zone string too, since `\|\|` skips the empty string |
| FormatLaws.ShortMonth | src/index.js:277 | MMM is the short month name when there is one, else the first three characters of the month name, else (empty name) the zone string without its first colon |
| FormatLaws.ShortWeekday | src/index.js:282-283 | dd and ddd are the minimal and short weekday names when there are any, else the first two and three characters of the weekday name, else the zone string without its first colon |
| FormatLaws.TokenRenders | src/index.js:301 | a key whose entry is not empty renders as its entry |
| FormatLaws.TwelveHourClock | src/index.js:268-288 | h is the 12-hour hour in 1..12, equal to H modulo 12; hh is the same padded to two digits |
| FormatLaws.Meridiem | src/index.js:289-290 | a/A render am/AM exactly when H < 12, and pm/PM otherwise |
| FormatLaws.PaddedDate | src/index.js:276-280 | MM and DD are two digits reading back as month + 1 and the date |
| FormatLaws.PaddedHour | src/index.js:286 | HH is two digits reading back as the hour |
| FormatLaws.PaddedMinuteSecond | src/index.js:292-294 | mm and ss are two digits reading back as the minutes and the seconds |
| FormatLaws.PaddedMillis | src/index.js:295 | SSS is three digits reading back as the milliseconds |
| FormatLaws.FullYear | src/index.js:274 | YYYY of a year from 0 on reads back as the year |
| FormatLaws.ShortYear | src/index.js:273 | YY of a year from 10 on is two digits reading back as the year mod 100 |
| FormatLaws.DefaultFormat | src/index.js:259-302 | `format()` with no pattern is the year, `-`, month + 1 and date padded to two digits, `T`, hours and minutes padded, `:`, seconds padded, then the zone string |
| FormatLaws.DatePartRenders | src/index.js:273-280 | `YYYY-MM-DD` is the year, then month + 1 and the date padded to two digits, joined by dashes |
| FormatLaws.HourPartRenders | src/index.js:286-292 | `THH:mm` is `T`, the hours padded to two digits, `:`, the minutes padded to two digits |
| FormatLaws.ZoneRenders | src/index.js:296 | `Z` renders as the zone string itself |
| FormatLaws.SecondPartRenders | src/index.js:293-301 | `:ssZ` is `:`, the seconds padded to two digits, then the zone string |
| FormatLaws.IsoMillisExample | src/index.js:256-303 | 2023-03-05 08:09:10.123 formats under `YYYY-MM-DDTHH:mm:ss.SSS` as 2023-03-05T08:09:10.123 |
| TwoDigitYears.DaysInMonthAgrees | src/index.js:332-334 | outside the years 0..99 the code's daysInMonth() equals the corrected one |
| TwoDigitYears.ComparisonsAgree | src/index.js:94-105 | outside the years 0..99 the code's isSame, isAfter and isBefore hold exactly when the corrected ones do |
| TwoDigitYears.AddAgrees | src/index.js:218-235 | when add(n, 'month'\|'year') aims outside the years 0..99 (with date 1 of the instant's month a date), the code's add equals the corrected one; every other unit always agrees |
| TwoDigitYears.FebruaryYearZeroAsWritten | src/index.js:332-334 | as written, daysInMonth() of a February of the year 0 is 28, although that February has 29 days |
| TwoDigitYears.AddMonthYearZeroAsWritten | src/index.js:221-223 | as written, January 31 of the year 0 plus one month is 0000-02-28, although that February has 29 days |
| TwoDigitYears.AddMonthYearZero | src/index.js:221-223 | with the corrected boundary, January 31 of the year 0 plus one month is 0000-02-29 |
| TwoDigitYears.JanuaryYearZeroFromNumber | src/index.js:59 | `dayjs(-62164627200000)` is the instant January 31 of the year 0 at midnight, in the default locale, the instant the two add counterexamples start from |
| TwoDigitYears.SameYearFiftyAsWritten | src/index.js:94-101 | as written, a date in the year 50 is not isSame itself by year, and is isAfter itself |
| WorkedExamples.DateOnlyMidnight | src/index.js:52-56 | a date-only string from year 100 on is midnight of that date, month one less |
| WorkedExamples.LeapYearClamp | src/index.js:221-235 | `dayjs('2024-01-31').add(1, 'month')` is 2024-02-29 |
| WorkedExamples.CommonYearClamp | src/index.js:221-235 | `dayjs('2023-01-31').add(1, 'month')` is 2023-02-28 |
| WorkedExamples.SundayWeekStart | src/index.js:171-175 | with a locale without `weekStart`, `dayjs('2023-06-15').startOf('week')` is Sunday 2023-06-11 at midnight |
| WorkedExamples.FebruaryDays | src/index.js:332-334 | daysInMonth() of any February date in range is that February's length |
| WorkedExamples.CommonFebruary | src/index.js:332-334 | `dayjs('2023-02-28').daysInMonth()` is 28 |
| WorkedExamples.LeapFebruary | src/index.js:332-334 | `dayjs('2024-02-01').daysInMonth()` is 29 |
| WorkedExamples.YearOnlyIsInvalid | src/index.js:55 | a year-only string such as `dayjs('2023')` is the invalid date |
| WorkedExamples.NullIsInvalid | src/index.js:49 | `dayjs(null)` is invalid, stays invalid through add, and formats as "Invalid Date" |
| WorkedExamples.FormatParsed | src/index.js:256-303 | `dayjs('2023-03-05T08:09:10.123').format('YYYY-MM-DDTHH:mm:ss.SSS')` is `2023-03-05T08:09:10.123` |

## Left out

- Time zones: `getTimezoneOffset`, `utcOffset` and `zoneDelta` in `diff`. The local offset is fixed at 0, because it is platform data.
- The zone string: `Utils.padZoneStr` and the `Z` output. The zone string is an opaque parameter of `format`. `Utils.padZoneStr` is not part of this model.
- `Utils.monthDiff`: it is not part of this model. Its result is a parameter of `diff`, so `DiffLaws.DiffCalendar` states month, quarter and year `diff` in terms of it.
- Generic `new Date(string)` parsing, the `Z`-suffixed string branch and "now" for an undefined input. They depend on the platform parser and clock.
- `C.REGEX_PARSE` and `C.REGEX_FORMAT`, which are not part of this model. Their output is the input of the model:
  - `parseDate` takes the captured components;
  - `format` takes the pattern already split into literal text and matches.
- `toISOString`, `toString`, `toJSON`, `toArray` and `toObject`. They are platform serialisation and plain field copies.
- `dayjs.extend` and the `instanceof`-based `isDayjs`. They are runtime prototype changes. An instant given to `dayjs()` is cloned; `clone()` is `Instant.Wrap` of the instant's own time value, and the comparisons and `diff` take the other instant directly.
- The `en` locale data, which is external data. A locale is a record of name sequences and a week start.
- `Utils.prettyUnit` is not part of this model. Units arrive already normalised as `Arithmetic.Unit`, with `Unknown` for anything unrecognised.
- `Utils.padStart`: it is not part of this model. `Format.PadNum` models it for natural numbers only, which is every use `format` makes of it for in-range fields.
- Arithmetic.Diff: results are exact rationals rather than IEEE doubles, and the time-zone correction is 0.
- Arithmetic.StartOf and Arithmetic.EndOf: for week they require the instant's locale to be loaded. The code throws when it is not, so that path is a precondition instead of a modelled error.
- Format.FormatInstant: requires the locale of a valid instant to be loaded and to name twelve months and seven weekdays. The code throws on a missing locale, and a shorter list would read `undefined`. The week start is not read, so it is not constrained.
- Format.FormatInstant: `IntToString` writes a negative year as `-` followed by its digits. That matches `String(n)` for integers; `YYYY`'s read-back is stated for years from 0 on only.
- Instant.ParseRoundTrip: stated for years outside 0..99; years 1..99 are covered separately by `Instant.ParseTwoDigitYear`.
- ArithmeticLaws.DayAtTime: the day is built in year y itself; the code's `new Date(this.$y, m, d)` moves a year 0..99 to 1900..1999 (see "## Findings").
- ArithmeticLaws.MonthStartTime: states the corrected boundary in the instant's own year; for an instant in the years 0..99 the code differs (see "## Findings"); `ArithmeticLaws.StartOfAsWrittenAgrees` carries it to the code outside those years.
- ArithmeticLaws.MonthEndTime: states the corrected boundary in the instant's own year; for an instant in the years 0..99 the code differs (see "## Findings"); `ArithmeticLaws.StartOfAsWrittenAgrees` carries it to the code outside those years.
- ArithmeticLaws.WeekStartTime: states the corrected boundary in the instant's own year; for an instant in the years 0..99 the code differs (see "## Findings"); `ArithmeticLaws.StartOfAsWrittenAgrees` carries it to the code outside those years.
- ArithmeticLaws.WeekEndTime: states the corrected boundary in the instant's own year; for an instant in the years 0..99 the code differs (see "## Findings"); `ArithmeticLaws.StartOfAsWrittenAgrees` carries it to the code outside those years.
- ArithmeticLaws.WeekBoundaries: states the corrected boundary in the instant's own year; for an instant in the years 0..99 the code differs (see "## Findings"); `ArithmeticLaws.StartOfAsWrittenAgrees` carries it to the code outside those years.
- ArithmeticLaws.BracketYear: states the corrected boundary in the instant's own year; for an instant in the years 0..99 the code differs (see "## Findings"); as written the bracket fails there (`ArithmeticLaws.StartOfYearFiftyIsLater`).
- ArithmeticLaws.BracketMonth: states the corrected boundary in the instant's own year; for an instant in the years 0..99 the code differs (see "## Findings"); `ArithmeticLaws.StartOfAsWrittenAgrees` carries it to the code outside those years.
- ArithmeticLaws.BracketWeek: states the corrected boundary in the instant's own year; for an instant in the years 0..99 the code differs (see "## Findings"); `ArithmeticLaws.StartOfAsWrittenAgrees` carries it to the code outside those years.
- ArithmeticLaws.BoundaryBrackets: states the corrected boundary in the instant's own year; for an instant in the years 0..99 the code differs (see "## Findings"); `ArithmeticLaws.StartOfAsWrittenAgrees` carries it to the code outside those years.
- ArithmeticLaws.DaysInMonthIsMonthLength: states the corrected boundary in the instant's own year; for an instant in the years 0..99 the code differs (see "## Findings"); `TwoDigitYears.DaysInMonthAgrees` carries it to the code outside those years.
- Arithmetic.StartOf: states the corrected boundary in the instant's own year; for an instant in the years 0..99 the code differs (see "## Findings"); `Arithmetic.StartOfAsWritten` is the code, and `ArithmeticLaws.StartOfAsWrittenAgrees` shows they agree outside those years.
- Arithmetic.EndOf: states the corrected boundary in the instant's own year; for an instant in the years 0..99 the code differs (see "## Findings"); `Arithmetic.StartOfAsWritten` is the code, and `ArithmeticLaws.StartOfAsWrittenAgrees` shows they agree outside those years.
- Arithmetic.DaysInMonthOf: states the corrected boundary in the instant's own year; for an instant in the years 0..99 the code differs (see "## Findings"); `Arithmetic.DaysInMonthAsWritten` is the code, and `TwoDigitYears.DaysInMonthAgrees` shows they agree outside those years.
- Arithmetic.Add: states the corrected boundary in the instant's own year; for an instant in the years 0..99 the code differs (see "## Findings") for month and year; `Arithmetic.AddAsWritten` is the code, and `TwoDigitYears.AddAgrees` shows they agree when the target month is outside those years.
- Arithmetic.Subtract: is `Arithmetic.Add` with n negated, so it has the same corrected month-end clamp for the years 0..99.
- AddLaws.AddCalendarClamp: states the corrected boundary in the instant's own year; for an instant in the years 0..99 the code differs (see "## Findings"); `TwoDigitYears.DaysInMonthAgrees` carries it to the code outside those years.
- AddLaws.AddCalendarLands: states the corrected boundary in the instant's own year; for an instant in the years 0..99 the code differs (see "## Findings"); `TwoDigitYears.AddAgrees` carries it to the code outside those years, and `TwoDigitYears.AddMonthYearZeroAsWritten` shows the difference.
- AddLaws.ClampLands: states the corrected boundary in the instant's own year; for an instant in the years 0..99 the code differs (see "## Findings"); `TwoDigitYears.DaysInMonthAgrees` carries it to the code outside those years.
- AddLaws.MonthLengthDefined: states the corrected boundary in the instant's own year; for an instant in the years 0..99 the code differs (see "## Findings"); `TwoDigitYears.DaysInMonthAgrees` carries it to the code outside those years.
- AddLaws.ClampValid: states the corrected boundary in the instant's own year; for an instant in the years 0..99 the code differs (see "## Findings"); `TwoDigitYears.DaysInMonthAgrees` carries it to the code outside those years.
- AddLaws.AddCalendarValid: states the corrected boundary in the instant's own year; for an instant in the years 0..99 the code differs (see "## Findings"); `TwoDigitYears.AddAgrees` carries it to the code outside those years.
- RoundTrip.RoundTripLands: states the corrected boundary in the instant's own year; for an instant in the years 0..99 the code differs (see "## Findings") for both steps; `TwoDigitYears.AddAgrees` carries it to the code when both target months are outside those years.
- RoundTrip.RoundTripExact: states the corrected boundary in the instant's own year; for an instant in the years 0..99 the code differs (see "## Findings") for both steps; `TwoDigitYears.AddAgrees` carries it to the code when both target months are outside those years.
- RoundTrip.RoundTripLoses: states the corrected boundary in the instant's own year; for an instant in the years 0..99 the code differs (see "## Findings") for both steps; `TwoDigitYears.AddAgrees` carries it to the code when both target months are outside those years.
- CompareLaws.Trichotomy: states the corrected boundary in the instant's own year; for an instant in the years 0..99 the code differs (see "## Findings"); `TwoDigitYears.ComparisonsAgree` carries it to the code outside those years.
- CompareLaws.SameAsItself: states the corrected boundary in the instant's own year; for an instant in the years 0..99 the code differs (see "## Findings"); as written a date in the year 50 is not the same year as itself (`TwoDigitYears.SameYearFiftyAsWritten`).
- CompareLaws.MonthBoundaries: states the corrected boundary in the instant's own year; for an instant in the years 0..99 the code differs (see "## Findings"); `ArithmeticLaws.StartOfAsWrittenAgrees` carries it to the code outside those years.
- CompareLaws.SameMonth: states the corrected boundary in the instant's own year; for an instant in the years 0..99 the code differs (see "## Findings"); `TwoDigitYears.ComparisonsAgree` carries it to the code outside those years.
- WorkedExamples.LeapYearClamp, WorkedExamples.CommonYearClamp, WorkedExamples.SundayWeekStart, WorkedExamples.FebruaryDays, WorkedExamples.CommonFebruary and WorkedExamples.LeapFebruary: stated with the corrected members, for years from 100 on, where the `TwoDigitYears` agreement lemmas show the code gives the same results.
- Arithmetic.Add, Arithmetic.Subtract and Arithmetic.Set: the amount is an integer. The code takes any Number (`Number(number)`), so a fractional amount, NaN or Infinity is not modelled.
- Locales.ParseLocale: the registry is a map from names to definitions. In the code `Ls` is a plain object, so a name inherited from `Object.prototype` (such as `toString`) is truthy there; the model treats it as not loaded.
- Instant.ParseDate: a number input is a finite real. NaN and ±Infinity are not modelled, and neither is the IEEE double rounding of the value itself.
- Instant.FromUnix: `timestamp * 1e3` is computed exactly on reals, not with IEEE double rounding, so a product the double multiplication rounds across a whole millisecond is not modelled.
- Instant.ParseDate: a Date input is copied by value. The code keeps a reference to the caller's Date, so mutating that Date afterwards would change the instant; the model has no mutable Dates.

## Findings

| source | as written | input that shows it | evidently intended | confidence | as-written member | corrected member |
|---|---|---|---|---|---|---|
| src/index.js:151-153 | the year, month and week boundaries are built with `new Date(this.$y, m, d)`, which reads a year 0..99 as 1900..1999 | an instant on June 15 of the year 50: `startOf('year')` is January 1, 1950, after the instant | the boundary lies in the instant's own year, so startOf(u) <= x <= endOf(u) | high, not executed | Arithmetic.StartOfAsWritten, ArithmeticLaws.StartOfYearFiftyIsLater | Arithmetic.StartOf, ArithmeticLaws.StartOfEndOfBracket |
| src/index.js:332-334 | `daysInMonth()` is the date of `endOf('month')`, built with `new Date(this.$y, $M + 1, 0)` | any date in February of the year 0: the boundary falls in February 1900, so the result is 28 | the length of the instant's own month, 29 for February of the leap year 0 | high, not executed | Arithmetic.DaysInMonthAsWritten, TwoDigitYears.FebruaryYearZeroAsWritten | Arithmetic.DaysInMonthOf, ArithmeticLaws.DaysInMonthIsMonthLength |
| src/index.js:221-223 | `add` for month and year clamps the date with `daysInMonth()` of the moved instant | `dayjs(-62164627200000).add(1, 'month')`, from January 31 of the year 0, is 0000-02-28 | the last day of the target month, 0000-02-29 | high, not executed | Arithmetic.AddAsWritten, TwoDigitYears.AddMonthYearZeroAsWritten | Arithmetic.Add, TwoDigitYears.AddMonthYearZero |
| src/index.js:94-101 | `isSame` and `isAfter` compare against `startOf`/`endOf`, which lie in 1900..1999 for the years 0..99 | a date on June 15 of the year 50: `isSame(itself, 'year')` is false and `isAfter(itself, 'year')` is true | an instant is the same as itself and not after itself, for every unit | high, not executed | Arithmetic.IsSameAsWritten, TwoDigitYears.SameYearFiftyAsWritten | Arithmetic.IsSame, CompareLaws.SameAsItself |
