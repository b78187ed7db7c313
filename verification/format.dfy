/**
  `format(pattern)`: the pattern arrives already split by the format
  recogniser into literal text and matches (a bracketed span or a run of
  token letters); each match is rendered from the instant's cached fields
  and its locale's names, the rest is copied.
 */
module Format {
  import opened Maybe
  import opened Calendar
  import opened JsDate
  import opened Locales
  import opened Instant

  /** What `format` returns for the invalid date: the invalid Date's `toString()` (section 21.4.4.41 of ECMA-262). */
  const InvalidDateString: string := "Invalid Date"

  /** One piece of a recognised pattern: text between matches, or a match of the recogniser. */
  datatype Piece = Literal(text: string) | Match(text: string)

  /** The keys of the token table. */
  datatype Token =
    | Year2 | Year4
    | Month1 | Month2 | MonthShort | MonthLong
    | Date1 | Date2
    | Weekday1 | WeekdayMin | WeekdayShort | WeekdayLong
    | Hour1 | Hour2 | Hour12One | Hour12Two | MeridiemLower | MeridiemUpper
    | Minute1 | Minute2 | Second1 | Second2 | Millis3 | Zone

  /** The letters of each token, as they appear in a pattern. */
  function TokenText(tok: Token): string {
    match tok
    case Year2 => "YY"
    case Year4 => "YYYY"
    case Month1 => "M"
    case Month2 => "MM"
    case MonthShort => "MMM"
    case MonthLong => "MMMM"
    case Date1 => "D"
    case Date2 => "DD"
    case Weekday1 => "d"
    case WeekdayMin => "dd"
    case WeekdayShort => "ddd"
    case WeekdayLong => "dddd"
    case Hour1 => "H"
    case Hour2 => "HH"
    case Hour12One => "h"
    case Hour12Two => "hh"
    case MeridiemLower => "a"
    case MeridiemUpper => "A"
    case Minute1 => "m"
    case Minute2 => "mm"
    case Second1 => "s"
    case Second2 => "ss"
    case Millis3 => "SSS"
    case Zone => "Z"
  }

  /** A string of one to four copies of its first character: the shape of every key of the table. */
  predicate IsRun(m: string) {
    1 <= |m| <= 4
    && (|m| >= 2 ==> m[1] == m[0])
    && (|m| >= 3 ==> m[2] == m[0])
    && (|m| == 4 ==> m[3] == m[0])
  }

  /** The token written as n copies of the letter c, if any. */
  function RunToken(c: char, n: nat): Option<Token> {
    match c
    case 'Y' => if n == 2 then Some(Year2) else if n == 4 then Some(Year4) else None
    case 'M' =>
      if n == 1 then Some(Month1) else if n == 2 then Some(Month2)
      else if n == 3 then Some(MonthShort) else Some(MonthLong)
    case 'D' => if n == 1 then Some(Date1) else if n == 2 then Some(Date2) else None
    case 'd' =>
      if n == 1 then Some(Weekday1) else if n == 2 then Some(WeekdayMin)
      else if n == 3 then Some(WeekdayShort) else Some(WeekdayLong)
    case 'H' => if n == 1 then Some(Hour1) else if n == 2 then Some(Hour2) else None
    case 'h' => if n == 1 then Some(Hour12One) else if n == 2 then Some(Hour12Two) else None
    case 'a' => if n == 1 then Some(MeridiemLower) else None
    case 'A' => if n == 1 then Some(MeridiemUpper) else None
    case 'm' => if n == 1 then Some(Minute1) else if n == 2 then Some(Minute2) else None
    case 's' => if n == 1 then Some(Second1) else if n == 2 then Some(Second2) else None
    case 'S' => if n == 3 then Some(Millis3) else None
    case 'Z' => if n == 1 then Some(Zone) else None
    case _ => None
  }

  /** `matches[match]`: the token a match is a key for, if any (`Y`, `YYY` or `ZZ` are not). */
  function Lookup(m: string): Option<Token> {
    if IsRun(m) then RunToken(m[0], |m|) else None
  }

  // ---- numbers as text ----

  predicate IsDigit(c: char) {
    '0' <= c <= '9'
  }

  function DigitChar(d: int): (c: char)
    requires 0 <= d < 10
    ensures IsDigit(c)
  {
    ('0' as int + d) as char
  }

  function DigitValue(c: char): (d: int)
    requires IsDigit(c)
    ensures 0 <= d < 10
  {
    c as int - '0' as int
  }

  predicate AllDigits(s: string) {
    forall i :: 0 <= i < |s| ==> IsDigit(s[i])
  }

  /** The decimal digits of a natural number, without leading zeros. */
  function NatToString(n: nat): (s: string)
    ensures |s| >= 1 && AllDigits(s)
    ensures n < 10 <==> |s| == 1
    decreases n
  {
    if n < 10 then [DigitChar(n)] else NatToString(n / 10) + [DigitChar(n % 10)]
  }

  /** `String(n)` for an integer. */
  function IntToString(n: int): string {
    if n < 0 then "-" + NatToString(-n) else NatToString(n)
  }

  /** The number a string of digits denotes. */
  function ParseDigits(s: string): nat
    requires AllDigits(s)
  {
    if |s| == 0 then 0 else ParseDigits(s[..|s| - 1]) * 10 + DigitValue(s[|s| - 1])
  }

  /** Reading back the digits of n gives n. */
  lemma {:induction false} NatToStringRoundTrip(n: nat)
    ensures ParseDigits(NatToString(n)) == n
    decreases n
  {
    var s := NatToString(n);
    if n >= 10 {
      NatToStringRoundTrip(n / 10);
      assert s[..|s| - 1] == NatToString(n / 10);
    }
  }

  function Zeros(k: nat): (s: string)
    ensures |s| == k && AllDigits(s)
  {
    if k == 0 then "" else "0" + Zeros(k - 1)
  }

  /** Leading zeros do not change the number. */
  lemma {:induction false} LeadingZero(s: string)
    requires AllDigits(s)
    ensures AllDigits("0" + s) && ParseDigits("0" + s) == ParseDigits(s)
    decreases |s|
  {
    if |s| > 0 {
      var t := s[..|s| - 1];
      LeadingZero(t);
      assert ("0" + s)[..|s|] == "0" + t;
    }
  }

  lemma {:induction false} LeadingZeros(k: nat, s: string)
    requires AllDigits(s)
    ensures AllDigits(Zeros(k) + s) && ParseDigits(Zeros(k) + s) == ParseDigits(s)
    decreases k
  {
    if k > 0 {
      LeadingZeros(k - 1, s);
      assert Zeros(k) + s == "0" + (Zeros(k - 1) + s);
      LeadingZero(Zeros(k - 1) + s);
    } else {
      assert Zeros(k) + s == s;
    }
  }

  /** `Utils.padStart(n, width, '0')` for a natural number: zeros on the left up to the width. */
  function PadNum(n: nat, width: nat): (s: string)
    ensures AllDigits(s)
  {
    var digits := NatToString(n);
    if |digits| >= width then digits else Zeros(width - |digits|) + digits
  }

  /** A padded number is at least as wide as asked, exactly as wide when its digits fit, and reads back as itself. */
  lemma {:induction false} PadNumRoundTrip(n: nat, width: nat)
    ensures ParseDigits(PadNum(n, width)) == n
    ensures |PadNum(n, width)| >= width
    ensures |NatToString(n)| <= width ==> |PadNum(n, width)| == width
  {
    var digits := NatToString(n);
    NatToStringRoundTrip(n);
    if |digits| < width {
      assert PadNum(n, width) == Zeros(width - |digits|) + digits;
      LeadingZeros(width - |digits|, digits);
    } else {
      assert PadNum(n, width) == digits;
    }
  }

  /** `String(n).slice(-2)`: the last two characters, or the whole string when shorter. */
  function LastTwo(s: string): (r: string)
    ensures |r| == if |s| < 2 then |s| else 2
  {
    if |s| < 2 then s else s[|s| - 2..]
  }

  // ---- the token table ----

  /** `this.$H % 12 || 12`: the hour on a 12-hour clock. */
  function Hour12(h: int): (r: int)
    requires 0 <= h < 24
    ensures 1 <= r <= 12 && r % 12 == h % 12
  {
    if h % 12 == 0 then 12 else h % 12
  }

  /** `str.substr(0, length)`. */
  function Prefix(s: string, length: nat): (r: string)
    ensures |r| == Min(length, |s|) && r <= s
  {
    if |s| <= length then s else s[..length]
  }

  /**
    `getShort(arr, index, full, length)`: the abbreviation from the short
    list when there is one (a missing list, a short list or an empty name
    falls back), otherwise the first `length` characters of the full name.
   */
  function GetShort(arr: Option<seq<string>>, index: nat, full: seq<string>, length: nat): (r: string)
    requires index < |full|
    ensures HasShort(arr, index) ==> r == arr.value[index]
    ensures !HasShort(arr, index) ==> r <= full[index] && |r| == Min(length, |full[index]|)
  {
    if HasShort(arr, index) then arr.value[index]
    else Prefix(full[index], length)
  }

  /** `arr && arr[index]` is truthy: the list is given, long enough, and the name there is not empty. */
  predicate HasShort(arr: Option<seq<string>>, index: nat) {
    arr.Some? && index < |arr.value| && arr.value[index] != ""
  }

  /** The table entry of a token for an instant's fields, in a locale with twelve months and seven weekdays. */
  function TokenValue(f: Fields, loc: Locale, zone: string, tok: Token): string
    requires NamesCalendar(loc)
    requires 0 <= f.month < 12 && 0 <= f.weekday < 7 && 1 <= f.date
    requires 0 <= f.hours < 24 && 0 <= f.minutes && 0 <= f.seconds && 0 <= f.ms
  {
    match tok
    case Year2 => LastTwo(IntToString(f.year))
    case Year4 => IntToString(f.year)
    case Month1 => IntToString(f.month + 1)
    case Month2 => PadNum(f.month + 1, 2)
    case MonthShort => GetShort(loc.monthsShort, f.month, loc.months, 3)
    case MonthLong => loc.months[f.month]
    case Date1 => IntToString(f.date)
    case Date2 => PadNum(f.date, 2)
    case Weekday1 => IntToString(f.weekday)
    case WeekdayMin => GetShort(loc.weekdaysMin, f.weekday, loc.weekdays, 2)
    case WeekdayShort => GetShort(loc.weekdaysShort, f.weekday, loc.weekdays, 3)
    case WeekdayLong => loc.weekdays[f.weekday]
    case Hour1 => IntToString(f.hours)
    case Hour2 => PadNum(f.hours, 2)
    case Hour12One => PadNum(Hour12(f.hours), 1)
    case Hour12Two => PadNum(Hour12(f.hours), 2)
    case MeridiemLower => if f.hours < 12 then "am" else "pm"
    case MeridiemUpper => if f.hours < 12 then "AM" else "PM"
    case Minute1 => IntToString(f.minutes)
    case Minute2 => PadNum(f.minutes, 2)
    case Second1 => IntToString(f.seconds)
    case Second2 => PadNum(f.seconds, 2)
    case Millis3 => PadNum(f.ms, 3)
    case Zone => zone
  }

  // ---- rendering ----

  /** A character as it survives bracket removal. */
  function Unbracketed(c: char): string {
    if c == '[' || c == ']' then "" else [c]
  }

  /** `s.replace(/\[|\]/g, '')`: every bracket removed, every other character kept. */
  function StripBrackets(s: string): (r: string)
    ensures '[' !in r && ']' !in r
    ensures |r| <= |s|
    ensures '[' !in s && ']' !in s ==> r == s
  {
    if |s| == 0 then ""
    else
      assert s == [s[0]] + s[1..];
      Unbracketed(s[0]) + StripBrackets(s[1..])
  }

  /** The index of the first colon of a string that has one. */
  function FirstColon(s: string): (i: nat)
    requires ':' in s
    ensures i < |s| && s[i] == ':' && ':' !in s[..i]
  {
    if s[0] == ':' then 0
    else
      assert s == [s[0]] + s[1..];
      var j := FirstColon(s[1..]);
      assert s[..j + 1] == [s[0]] + s[1..][..j];
      j + 1
  }

  /** `s.replace(':', '')`: the first colon removed, and nothing else. */
  function RemoveFirstColon(s: string): (r: string)
    ensures ':' !in s ==> r == s
    ensures ':' in s ==> r == s[..FirstColon(s)] + s[FirstColon(s) + 1..]
  {
    if |s| == 0 then ""
    else if s[0] == ':' then s[1..]
    else
      assert s == [s[0]] + s[1..];
      var rest := RemoveFirstColon(s[1..]);
      assert ':' in s ==> (
        && FirstColon(s) == FirstColon(s[1..]) + 1
        && s[..FirstColon(s)] == [s[0]] + s[1..][..FirstColon(s[1..])]
        && s[FirstColon(s) + 1..] == s[1..][FirstColon(s[1..]) + 1..]);
      [s[0]] + rest
  }

  /** Fields that a locale can name: what `init` gives a valid instant. */
  predicate Renderable(f: Fields, loc: Locale) {
    NamesCalendar(loc) && 0 <= f.month < 12 && 0 <= f.weekday < 7 && 1 <= f.date
    && 0 <= f.hours < 24 && 0 <= f.minutes && 0 <= f.seconds && 0 <= f.ms
  }

  /**
    The replacement of one match: a match holding `[` loses its brackets;
    otherwise the table entry, and when there is no entry or the entry is
    the empty string (`matches[match] || …`), the zone string with its first
    colon removed.
   */
  function RenderMatch(f: Fields, loc: Locale, zone: string, m: string): string
    requires Renderable(f, loc)
  {
    if '[' in m then StripBrackets(m)
    else match Lookup(m)
      case Some(tok) =>
        var v := TokenValue(f, loc, zone, tok);
        if v != "" then v else RemoveFirstColon(zone)
      case None => RemoveFirstColon(zone)
  }

  function RenderPiece(f: Fields, loc: Locale, zone: string, p: Piece): string
    requires Renderable(f, loc)
  {
    match p
    case Literal(s) => s
    case Match(m) => RenderMatch(f, loc, zone, m)
  }

  /** The replacements of a pattern's pieces, in order. */
  function Replacements(f: Fields, loc: Locale, zone: string, pattern: seq<Piece>): (parts: seq<string>)
    requires Renderable(f, loc)
    ensures |parts| == |pattern|
    ensures forall i :: 0 <= i < |pattern| ==> parts[i] == RenderPiece(f, loc, zone, pattern[i])
  {
    seq(|pattern|, i requires 0 <= i < |pattern| => RenderPiece(f, loc, zone, pattern[i]))
  }

  /** The strings of a sequence, one after another. */
  function Join(parts: seq<string>): string
    decreases |parts|
  {
    if |parts| == 0 then "" else Join(parts[..|parts| - 1]) + parts[|parts| - 1]
  }

  /** `str.replace(REGEX_FORMAT, …)` over the recognised pieces: their replacements joined. */
  function Render(f: Fields, loc: Locale, zone: string, pattern: seq<Piece>): string
    requires Renderable(f, loc)
  {
    Join(Replacements(f, loc, zone, pattern))
  }

  /** `C.FORMAT_DEFAULT`, `YYYY-MM-DDTHH:mm:ssZ`, as the recogniser splits it. */
  const DefaultPattern: seq<Piece> := [
    Match("YYYY"), Literal("-"), Match("MM"), Literal("-"), Match("DD"), Literal("T"),
    Match("HH"), Literal(":"), Match("mm"), Literal(":"), Match("ss"), Match("Z")]

  /**
    `format(formatStr)`: the invalid-date string for the invalid date,
    otherwise the pattern (the default one when it is empty) rendered with
    the instant's fields and its locale, which must be loaded and name twelve
    months and seven weekdays.
   */
  function FormatInstant(reg: Registry, x: Dayjs, pattern: seq<Piece>, zone: string): (r: string)
    requires x.d.Valid? ==> LocaleOf(reg, x.l).Some? && NamesCalendar(LocaleOf(reg, x.l).value)
    ensures x.d.Invalid? ==> r == InvalidDateString
  {
    match Init(x)
    case None => InvalidDateString
    case Some(f) =>
      var str := if |pattern| == 0 then DefaultPattern else pattern;
      Render(f, LocaleOf(reg, x.l).value, zone, str)
  }
}
