/**
  What format guarantees: the token table is keyed by exactly the token
  letters, a pattern renders piece by piece, bracketed text comes out
  verbatim, numbers come out padded and read back as the fields, the
  12-hour clock and the meridiem follow the hour, and a match without a
  usable entry becomes the zone string without its colon.
 */
module FormatLaws {
  import opened Maybe
  import opened Calendar
  import opened JsDate
  import opened Locales
  import opened Instant
  import opened Format

  /** A match finds a token exactly when it is that token's letters. */
  lemma {:induction false} LookupIsTokenText(m: string, tok: Token)
    ensures Lookup(m) == Some(tok) <==> m == TokenText(tok)
  {
    match tok
    case Year2 =>
    case Year4 =>
    case Month1 =>
    case Month2 =>
    case MonthShort =>
    case MonthLong =>
    case Date1 =>
    case Date2 =>
    case Weekday1 =>
    case WeekdayMin =>
    case WeekdayShort =>
    case WeekdayLong =>
    case Hour1 =>
    case Hour2 =>
    case Hour12One =>
    case Hour12Two =>
    case MeridiemLower =>
    case MeridiemUpper =>
    case Minute1 =>
    case Minute2 =>
    case Second1 =>
    case Second2 =>
    case Millis3 =>
    case Zone =>
  }

  /** Joining two sequences of strings joins each and concatenates. */
  lemma {:induction false} JoinConcat(a: seq<string>, b: seq<string>)
    ensures Join(a + b) == Join(a) + Join(b)
    decreases |b|
  {
    if |b| == 0 {
      assert a + b == a;
    } else {
      var init := b[..|b| - 1];
      assert Join(a + b) == Join(a + init) + b[|b| - 1] by {
        assert (a + b)[..|a + b| - 1] == a + init;
      }
      JoinConcat(a, init);
    }
  }

  /** The replacements of a concatenation are the replacements of each part. */
  lemma ReplacementsConcat(f: Fields, loc: Locale, zone: string, p: seq<Piece>, q: seq<Piece>)
    requires Renderable(f, loc)
    ensures Replacements(f, loc, zone, p + q) == Replacements(f, loc, zone, p) + Replacements(f, loc, zone, q)
  {
    var l := Replacements(f, loc, zone, p + q);
    var r := Replacements(f, loc, zone, p) + Replacements(f, loc, zone, q);
    assert forall i :: 0 <= i < |l| ==> l[i] == r[i] by {
      forall i | 0 <= i < |l|
        ensures l[i] == r[i]
      {
        if i < |p| {
          assert (p + q)[i] == p[i];
        } else {
          assert (p + q)[i] == q[i - |p|];
        }
      }
    }
  }

  /** Rendering a concatenation of patterns concatenates their renderings. */
  lemma {:induction false} RenderConcat(f: Fields, loc: Locale, zone: string, p: seq<Piece>, q: seq<Piece>)
    requires Renderable(f, loc)
    ensures Render(f, loc, zone, p + q) == Render(f, loc, zone, p) + Render(f, loc, zone, q)
  {
    ReplacementsConcat(f, loc, zone, p, q);
    JoinConcat(Replacements(f, loc, zone, p), Replacements(f, loc, zone, q));
  }

  /** Joining one string gives that string. */
  lemma JoinOne(s: string)
    ensures Join([s]) == s
  {
    assert [s][..0] == [];
  }

  /** Rendering one more piece appends its replacement. */
  lemma {:induction false} RenderSnoc(f: Fields, loc: Locale, zone: string, p: seq<Piece>, last: Piece)
    requires Renderable(f, loc)
    ensures Render(f, loc, zone, p + [last]) == Render(f, loc, zone, p) + RenderPiece(f, loc, zone, last)
  {
    RenderConcat(f, loc, zone, p, [last]);
    assert Replacements(f, loc, zone, [last]) == [RenderPiece(f, loc, zone, last)];
    JoinOne(RenderPiece(f, loc, zone, last));
  }

  /** Literal text renders as itself. */
  lemma {:induction false} LiteralsVerbatim(f: Fields, loc: Locale, zone: string, s: string)
    requires Renderable(f, loc)
    ensures Render(f, loc, zone, [Literal(s)]) == s
  {
    RenderSnoc(f, loc, zone, [], Literal(s));
    assert [] + [Literal(s)] == [Literal(s)];
  }

  /** Removing brackets works character by character. */
  lemma {:induction false} StripBracketsConcat(a: string, b: string)
    ensures StripBrackets(a + b) == StripBrackets(a) + StripBrackets(b)
    decreases |a|
  {
    if |a| == 0 {
      assert a + b == b;
    } else {
      assert StripBrackets(a + b) == Unbracketed(a[0]) + StripBrackets(a[1..] + b) by {
        assert (a + b)[0] == a[0];
        assert (a + b)[1..] == a[1..] + b;
      }
      assert StripBrackets(a[1..] + b) == StripBrackets(a[1..]) + StripBrackets(b) by {
        StripBracketsConcat(a[1..], b);
      }
    }
  }

  /** A bracketed span is emitted with its brackets removed: text without brackets comes out verbatim. */
  lemma {:induction false} BracketedVerbatim(f: Fields, loc: Locale, zone: string, s: string)
    requires Renderable(f, loc) && '[' !in s && ']' !in s
    ensures RenderMatch(f, loc, zone, "[" + s + "]") == s
  {
    var m := "[" + s + "]";
    assert m[0] == '[';
    StripBracketsConcat("[", s + "]");
    StripBracketsConcat(s, "]");
    assert "[" + s + "]" == "[" + (s + "]");
    assert StripBrackets("[") == "" && StripBrackets("]") == "";
  }

  /**
    A match without a table entry (such as `ZZ`, `Y` or `YYY`) renders as the
    zone string with its first colon removed.
   */
  lemma UnmatchedIsZone(f: Fields, loc: Locale, zone: string, m: string)
    requires Renderable(f, loc) && '[' !in m && Lookup(m).None?
    ensures RenderMatch(f, loc, zone, m) == RemoveFirstColon(zone)
  {
  }

  /** `ZZ` has no entry of its own and so renders the zone without its colon. */
  lemma {:induction false} DoubleZone(f: Fields, loc: Locale, zone: string)
    requires Renderable(f, loc)
    ensures RenderMatch(f, loc, zone, "ZZ") == RemoveFirstColon(zone)
  {
    assert "ZZ"[0] == 'Z' && "ZZ"[1] == 'Z';
    assert '[' !in "ZZ";
    assert Lookup("ZZ") == None;
  }

  /** An empty month name also falls back to the zone string: `matches[match] || …` skips empty strings. */
  lemma {:induction false} EmptyNameIsZone(f: Fields, loc: Locale, zone: string)
    requires Renderable(f, loc) && loc.months[f.month] == ""
    ensures RenderMatch(f, loc, zone, "MMMM") == RemoveFirstColon(zone)
  {
    LookupIsTokenText("MMMM", MonthLong);
    assert '[' !in "MMMM";
  }

  /**
    MMM renders the locale's short month name when it has one, otherwise
    the first three characters of the month name, and the zone string when
    that name is empty too.
   */
  lemma {:induction false} ShortMonth(f: Fields, loc: Locale, zone: string)
    requires Renderable(f, loc)
    ensures var r := RenderMatch(f, loc, zone, "MMM"); var full := loc.months[f.month];
      if HasShort(loc.monthsShort, f.month) then r == loc.monthsShort.value[f.month]
      else if full != "" then r <= full && |r| == Min(3, |full|)
      else r == RemoveFirstColon(zone)
  {
    LookupIsTokenText("MMM", MonthShort);
    assert '[' !in "MMM";
  }

  /**
    dd and ddd render the locale's minimal and short weekday names when it
    has them, otherwise the first two and three characters of the weekday
    name, and the zone string when that name is empty too.
   */
  lemma {:induction false} ShortWeekday(f: Fields, loc: Locale, zone: string)
    requires Renderable(f, loc)
    ensures var r := RenderMatch(f, loc, zone, "dd"); var full := loc.weekdays[f.weekday];
      if HasShort(loc.weekdaysMin, f.weekday) then r == loc.weekdaysMin.value[f.weekday]
      else if full != "" then r <= full && |r| == Min(2, |full|)
      else r == RemoveFirstColon(zone)
    ensures var r := RenderMatch(f, loc, zone, "ddd"); var full := loc.weekdays[f.weekday];
      if HasShort(loc.weekdaysShort, f.weekday) then r == loc.weekdaysShort.value[f.weekday]
      else if full != "" then r <= full && |r| == Min(3, |full|)
      else r == RemoveFirstColon(zone)
  {
    assert RenderMatch(f, loc, zone, "dd") == (if TokenValue(f, loc, zone, WeekdayMin) != "" then TokenValue(f, loc, zone, WeekdayMin) else RemoveFirstColon(zone)) by {
      LookupIsTokenText("dd", WeekdayMin);
      assert '[' !in "dd";
    }
    assert RenderMatch(f, loc, zone, "ddd") == (if TokenValue(f, loc, zone, WeekdayShort) != "" then TokenValue(f, loc, zone, WeekdayShort) else RemoveFirstColon(zone)) by {
      LookupIsTokenText("ddd", WeekdayShort);
      assert '[' !in "ddd";
    }
  }

  /** The replacement of a match for a token whose table entry is not empty. */
  lemma {:induction false} TokenRenders(f: Fields, loc: Locale, zone: string, tok: Token)
    requires Renderable(f, loc) && tok != Zone
    requires TokenValue(f, loc, zone, tok) != ""
    ensures RenderMatch(f, loc, zone, TokenText(tok)) == TokenValue(f, loc, zone, tok)
  {
    LookupIsTokenText(TokenText(tok), tok);
    assert '[' !in TokenText(tok);
  }

  /** h and hh render the hour on a 12-hour clock: 1..12, and the same hour modulo 12. */
  lemma {:induction false} TwelveHourClock(f: Fields, loc: Locale, zone: string)
    requires Renderable(f, loc)
    ensures var h := RenderMatch(f, loc, zone, "h");
      AllDigits(h) && 1 <= ParseDigits(h) <= 12 && ParseDigits(h) % 12 == f.hours % 12
    ensures var hh := RenderMatch(f, loc, zone, "hh");
      AllDigits(hh) && |hh| == 2 && ParseDigits(hh) == Hour12(f.hours)
  {
    var n := Hour12(f.hours);
    PadNumRoundTrip(n, 1);
    PadNumRoundTrip(n, 2);
    TwoDigits(n);
    TokenRenders(f, loc, zone, Hour12One);
    TokenRenders(f, loc, zone, Hour12Two);
  }

  /** a and A render am/AM exactly before noon and pm/PM otherwise. */
  lemma {:induction false} Meridiem(f: Fields, loc: Locale, zone: string)
    requires Renderable(f, loc)
    ensures RenderMatch(f, loc, zone, "a") == (if f.hours < 12 then "am" else "pm")
    ensures RenderMatch(f, loc, zone, "A") == (if f.hours < 12 then "AM" else "PM")
  {
    TokenRenders(f, loc, zone, MeridiemLower);
    TokenRenders(f, loc, zone, MeridiemUpper);
  }

  /** A number below 100 has at most two digits, one below 1000 at most three. */
  lemma TwoDigits(n: nat)
    requires n < 100
    ensures |NatToString(n)| <= 2
  {
    if n >= 10 {
      assert NatToString(n) == NatToString(n / 10) + [DigitChar(n % 10)];
    }
  }

  lemma ThreeDigits(n: nat)
    requires n < 1000
    ensures |NatToString(n)| <= 3
  {
    if n >= 10 {
      TwoDigits(n / 10);
    }
  }

  /** A padded field renders at its width and reads back as its value. */
  lemma {:induction false} PaddedField(f: Fields, loc: Locale, zone: string, tok: Token, v: nat, width: nat)
    requires Renderable(f, loc) && tok != Zone && 1 <= width
    requires TokenValue(f, loc, zone, tok) == PadNum(v, width)
    requires |NatToString(v)| <= width
    ensures var r := RenderMatch(f, loc, zone, TokenText(tok));
      AllDigits(r) && |r| == width && ParseDigits(r) == v
  {
    PadNumRoundTrip(v, width);
    TokenRenders(f, loc, zone, tok);
  }

  /** MM and DD render two digits reading back as the month (counted from 1) and the date. */
  lemma {:induction false} PaddedDate(f: Fields, loc: Locale, zone: string)
    requires Renderable(f, loc) && f.date <= 31
    ensures var r := RenderMatch(f, loc, zone, "MM"); AllDigits(r) && |r| == 2 && ParseDigits(r) == f.month + 1
    ensures var r := RenderMatch(f, loc, zone, "DD"); AllDigits(r) && |r| == 2 && ParseDigits(r) == f.date
  {
    TwoDigits(f.month + 1);
    PaddedField(f, loc, zone, Month2, f.month + 1, 2);
    TwoDigits(f.date);
    PaddedField(f, loc, zone, Date2, f.date, 2);
  }

  /** HH renders two digits reading back as the hours. */
  lemma {:induction false} PaddedHour(f: Fields, loc: Locale, zone: string)
    requires Renderable(f, loc)
    ensures var r := RenderMatch(f, loc, zone, "HH"); AllDigits(r) && |r| == 2 && ParseDigits(r) == f.hours
  {
    TwoDigits(f.hours);
    PaddedField(f, loc, zone, Hour2, f.hours, 2);
  }

  /** mm and ss render two digits reading back as the minutes and the seconds. */
  lemma {:induction false} PaddedMinuteSecond(f: Fields, loc: Locale, zone: string)
    requires Renderable(f, loc) && f.minutes < 60 && f.seconds < 60
    ensures var r := RenderMatch(f, loc, zone, "mm"); AllDigits(r) && |r| == 2 && ParseDigits(r) == f.minutes
    ensures var r := RenderMatch(f, loc, zone, "ss"); AllDigits(r) && |r| == 2 && ParseDigits(r) == f.seconds
  {
    assert var r := RenderMatch(f, loc, zone, "mm"); AllDigits(r) && |r| == 2 && ParseDigits(r) == f.minutes by {
      TwoDigits(f.minutes);
      PaddedField(f, loc, zone, Minute2, f.minutes, 2);
    }
    TwoDigits(f.seconds);
    PaddedField(f, loc, zone, Second2, f.seconds, 2);
  }

  /** SSS renders three digits reading back as the milliseconds. */
  lemma {:induction false} PaddedMillis(f: Fields, loc: Locale, zone: string)
    requires Renderable(f, loc) && f.ms < 1000
    ensures var r := RenderMatch(f, loc, zone, "SSS"); AllDigits(r) && |r| == 3 && ParseDigits(r) == f.ms
  {
    ThreeDigits(f.ms);
    PaddedField(f, loc, zone, Millis3, f.ms, 3);
  }

  /** The last digit of a number's digits is its last decimal digit. */
  lemma LastDigit(n: nat)
    ensures NatToString(n)[|NatToString(n)| - 1] == DigitChar(n % 10)
  {
  }

  /** The last two characters of the digits of a number from 10 on are the digits of its remainder by 100. */
  lemma {:induction false} LastTwoDigits(n: nat)
    requires 10 <= n
    ensures var r := LastTwo(NatToString(n)); AllDigits(r) && |r| == 2 && ParseDigits(r) == n % 100
  {
    var s := NatToString(n);
    var r := LastTwo(s);
    LastDigit(n / 10);
    assert s == NatToString(n / 10) + [DigitChar(n % 10)];
    assert r == [DigitChar((n / 10) % 10), DigitChar(n % 10)];
    assert r[..1] == [DigitChar((n / 10) % 10)];
    assert ParseDigits(r[..1][..0]) == 0;
  }

  /** YYYY renders a year from 0 on as its digits. */
  lemma {:induction false} FullYear(f: Fields, loc: Locale, zone: string)
    requires Renderable(f, loc) && 0 <= f.year
    ensures var r := RenderMatch(f, loc, zone, "YYYY"); AllDigits(r) && ParseDigits(r) == f.year
  {
    NatToStringRoundTrip(f.year);
    TokenRenders(f, loc, zone, Year4);
  }

  /** YY renders the last two digits of a year from 10 on. */
  lemma {:induction false} ShortYear(f: Fields, loc: Locale, zone: string)
    requires Renderable(f, loc) && 10 <= f.year
    ensures var r := RenderMatch(f, loc, zone, "YY"); AllDigits(r) && |r| == 2 && ParseDigits(r) == f.year % 100
  {
    LastTwoDigits(f.year);
    TokenRenders(f, loc, zone, Year2);
  }

  /** A non-empty pattern formats as the concatenation of its pieces' replacements. */
  lemma {:induction false} FormatPieces(reg: Registry, x: Dayjs, p: seq<Piece>, q: seq<Piece>, zone: string)
    requires x.d.Valid? && LocaleOf(reg, x.l).Some? && NamesCalendar(LocaleOf(reg, x.l).value)
    requires |p| > 0 && |q| > 0
    ensures FormatInstant(reg, x, p + q, zone) == FormatInstant(reg, x, p, zone) + FormatInstant(reg, x, q, zone)
  {
    var f := FieldsOf(x.d.t);
    InitFields(x);
    RenderConcat(f, LocaleOf(reg, x.l).value, zone, p, q);
  }

  /** The example's year: YYYY. */
  lemma {:induction false} ExampleYearMatch(f: Fields, loc: Locale, zone: string)
    requires Renderable(f, loc) && f.year == 2023
    ensures RenderMatch(f, loc, zone, "YYYY") == "2023"
  {
    assert NatToString(20) == "20";
    assert NatToString(202) == "202";
    assert NatToString(2023) == "2023";
    TokenRenders(f, loc, zone, Year4);
  }

  /** The example's month and date: MM and DD. */
  lemma {:induction false} ExampleDayMatches(f: Fields, loc: Locale, zone: string)
    requires Renderable(f, loc) && f.month == 2 && f.date == 5
    ensures RenderMatch(f, loc, zone, "MM") == "03" && RenderMatch(f, loc, zone, "DD") == "05"
  {
    assert Zeros(1) == "0";
    assert RenderMatch(f, loc, zone, "MM") == "03" by {
      assert NatToString(3) == "3";
      TokenRenders(f, loc, zone, Month2);
    }
    assert NatToString(5) == "5";
    TokenRenders(f, loc, zone, Date2);
  }

  /** The example's hours and minutes: HH and mm. */
  lemma {:induction false} ExampleHourMatches(f: Fields, loc: Locale, zone: string)
    requires Renderable(f, loc) && f.hours == 8 && f.minutes == 9
    ensures RenderMatch(f, loc, zone, "HH") == "08" && RenderMatch(f, loc, zone, "mm") == "09"
  {
    assert Zeros(1) == "0";
    assert RenderMatch(f, loc, zone, "HH") == "08" by {
      assert NatToString(8) == "8";
      TokenRenders(f, loc, zone, Hour2);
    }
    assert NatToString(9) == "9";
    TokenRenders(f, loc, zone, Minute2);
  }

  /** The example's seconds and milliseconds: ss and SSS. */
  lemma {:induction false} ExampleSecondMatches(f: Fields, loc: Locale, zone: string)
    requires Renderable(f, loc) && f.seconds == 10 && f.ms == 123
    ensures RenderMatch(f, loc, zone, "ss") == "10" && RenderMatch(f, loc, zone, "SSS") == "123"
  {
    assert RenderMatch(f, loc, zone, "ss") == "10" by {
      assert NatToString(10) == "10";
      TokenRenders(f, loc, zone, Second2);
    }
    assert NatToString(12) == "12";
    assert NatToString(123) == "123";
    TokenRenders(f, loc, zone, Millis3);
  }

  /** The example pattern in three parts: `YYYY-MM-DD`, `THH:mm` and `:ss.SSS`. */
  const IsoDatePart: seq<Piece> := [Match("YYYY"), Literal("-"), Match("MM"), Literal("-"), Match("DD")]
  const IsoHourPart: seq<Piece> := [Literal("T"), Match("HH"), Literal(":"), Match("mm")]
  const IsoSecondPart: seq<Piece> := [Literal(":"), Match("ss"), Literal("."), Match("SSS")]

  /** The pattern `YYYY-MM-DDTHH:mm:ss.SSS` as the recogniser splits it. */
  const IsoMillisPattern: seq<Piece> := IsoDatePart + IsoHourPart + IsoSecondPart

  /** 2023-03-05 renders as `2023-03-05` under `YYYY-MM-DD`. */
  lemma {:induction false} ExampleDatePart(f: Fields, loc: Locale, zone: string)
    requires Renderable(f, loc) && f.year == 2023 && f.month == 2 && f.date == 5
    ensures Render(f, loc, zone, IsoDatePart) == "2023" + "-" + "03" + "-" + "05"
  {
    ExampleYearMatch(f, loc, zone);
    ExampleDayMatches(f, loc, zone);
    DatePartJoins(f, loc, zone, "2023", "03", "05");
  }

  /** 08:09 renders as `T08:09` under `THH:mm`. */
  lemma {:induction false} ExampleHourPart(f: Fields, loc: Locale, zone: string)
    requires Renderable(f, loc) && f.hours == 8 && f.minutes == 9
    ensures Render(f, loc, zone, IsoHourPart) == "T" + "08" + ":" + "09"
  {
    ExampleHourMatches(f, loc, zone);
    HourPartJoins(f, loc, zone, "08", "09");
  }

  /** 10.123 seconds render as `:10.123` under `:ss.SSS`. */
  lemma {:induction false} ExampleSecondPart(f: Fields, loc: Locale, zone: string)
    requires Renderable(f, loc) && f.seconds == 10 && f.ms == 123
    ensures Render(f, loc, zone, IsoSecondPart) == ":" + "10" + "." + "123"
  {
    ExampleSecondMatches(f, loc, zone);
    RenderFour(f, loc, zone, Literal(":"), Match("ss"), Literal("."), Match("SSS"));
  }

  /** 2023-03-05 08:09:10.123 formats as `2023-03-05T08:09:10.123` under `YYYY-MM-DDTHH:mm:ss.SSS`. */
  lemma {:induction false} IsoMillisExample(f: Fields, loc: Locale, zone: string)
    requires Renderable(f, loc)
    requires f.year == 2023 && f.month == 2 && f.date == 5
    requires f.hours == 8 && f.minutes == 9 && f.seconds == 10 && f.ms == 123
    ensures Render(f, loc, zone, IsoMillisPattern)
      == "2023" + "-" + "03" + "-" + "05" + "T" + "08" + ":" + "09" + ":" + "10" + "." + "123"
  {
    ExampleDatePart(f, loc, zone);
    ExampleHourPart(f, loc, zone);
    ExampleSecondPart(f, loc, zone);
    RenderConcat(f, loc, zone, IsoDatePart, IsoHourPart);
    RenderConcat(f, loc, zone, IsoDatePart + IsoHourPart, IsoSecondPart);
  }

  /** The rest of the default pattern after `THH:mm`: `:ss` and the zone. */
  const DefaultSecondPart: seq<Piece> := [Literal(":"), Match("ss"), Match("Z")]

  /** A three-piece pattern renders as its pieces' renderings in order. */
  lemma {:induction false} RenderThree(f: Fields, loc: Locale, zone: string, a: Piece, b: Piece, c: Piece)
    requires Renderable(f, loc)
    ensures Render(f, loc, zone, [a, b, c])
      == RenderPiece(f, loc, zone, a) + RenderPiece(f, loc, zone, b) + RenderPiece(f, loc, zone, c)
  {
    var e: seq<Piece> := [];
    RenderSnoc(f, loc, zone, e, a);
    assert e + [a] == [a];
    RenderSnoc(f, loc, zone, [a], b);
    assert [a] + [b] == [a, b];
    RenderSnoc(f, loc, zone, [a, b], c);
    assert [a, b] + [c] == [a, b, c];
  }

  /** A four-piece pattern renders as its pieces' renderings in order. */
  lemma {:induction false} RenderFour(f: Fields, loc: Locale, zone: string, a: Piece, b: Piece, c: Piece, d: Piece)
    requires Renderable(f, loc)
    ensures Render(f, loc, zone, [a, b, c, d])
      == RenderPiece(f, loc, zone, a) + RenderPiece(f, loc, zone, b) + RenderPiece(f, loc, zone, c)
         + RenderPiece(f, loc, zone, d)
  {
    RenderThree(f, loc, zone, a, b, c);
    RenderSnoc(f, loc, zone, [a, b, c], d);
    assert [a, b, c] + [d] == [a, b, c, d];
  }

  /** A five-piece pattern renders as its pieces' renderings in order. */
  lemma {:induction false} RenderFive(f: Fields, loc: Locale, zone: string, a: Piece, b: Piece, c: Piece, d: Piece, e: Piece)
    requires Renderable(f, loc)
    ensures Render(f, loc, zone, [a, b, c, d, e])
      == RenderPiece(f, loc, zone, a) + RenderPiece(f, loc, zone, b) + RenderPiece(f, loc, zone, c)
         + RenderPiece(f, loc, zone, d) + RenderPiece(f, loc, zone, e)
  {
    RenderFour(f, loc, zone, a, b, c, d);
    RenderSnoc(f, loc, zone, [a, b, c, d], e);
    assert [a, b, c, d] + [e] == [a, b, c, d, e];
  }

  /** A match for a padded token renders as the padded number. */
  lemma {:induction false} PaddedMatch(f: Fields, loc: Locale, zone: string, tok: Token, v: nat, width: nat)
    requires Renderable(f, loc) && tok != Zone && 1 <= width
    requires TokenValue(f, loc, zone, tok) == PadNum(v, width)
    ensures RenderMatch(f, loc, zone, TokenText(tok)) == PadNum(v, width)
  {
    PadNumRoundTrip(v, width);
    TokenRenders(f, loc, zone, tok);
  }

  /** The year and the padded month and date under `YYYY-MM-DD`. */
  lemma {:induction false} DatePartRenders(f: Fields, loc: Locale, zone: string)
    requires Renderable(f, loc)
    ensures Render(f, loc, zone, IsoDatePart)
      == IntToString(f.year) + "-" + PadNum(f.month + 1, 2) + "-" + PadNum(f.date, 2)
  {
    assert RenderMatch(f, loc, zone, "YYYY") == IntToString(f.year) by {
      TokenRenders(f, loc, zone, Year4);
    }
    PaddedMatch(f, loc, zone, Month2, f.month + 1, 2);
    PaddedMatch(f, loc, zone, Date2, f.date, 2);
    DatePartJoins(f, loc, zone, IntToString(f.year), PadNum(f.month + 1, 2), PadNum(f.date, 2));
  }

  /** `YYYY-MM-DD` joins whatever its three matches render with dashes. */
  lemma {:induction false} DatePartJoins(f: Fields, loc: Locale, zone: string, y: string, mm: string, dd: string)
    requires Renderable(f, loc)
    requires RenderMatch(f, loc, zone, "YYYY") == y
    requires RenderMatch(f, loc, zone, "MM") == mm && RenderMatch(f, loc, zone, "DD") == dd
    ensures Render(f, loc, zone, IsoDatePart) == y + "-" + mm + "-" + dd
  {
    RenderFive(f, loc, zone, Match("YYYY"), Literal("-"), Match("MM"), Literal("-"), Match("DD"));
  }

  /** The padded hours and minutes under `THH:mm`. */
  lemma {:induction false} HourPartRenders(f: Fields, loc: Locale, zone: string)
    requires Renderable(f, loc)
    ensures Render(f, loc, zone, IsoHourPart) == "T" + PadNum(f.hours, 2) + ":" + PadNum(f.minutes, 2)
  {
    PaddedMatch(f, loc, zone, Hour2, f.hours, 2);
    PaddedMatch(f, loc, zone, Minute2, f.minutes, 2);
    HourPartJoins(f, loc, zone, PadNum(f.hours, 2), PadNum(f.minutes, 2));
  }

  /** `THH:mm` puts a `T` before the hours and a colon between hours and minutes. */
  lemma {:induction false} HourPartJoins(f: Fields, loc: Locale, zone: string, hh: string, mi: string)
    requires Renderable(f, loc)
    requires RenderMatch(f, loc, zone, "HH") == hh && RenderMatch(f, loc, zone, "mm") == mi
    ensures Render(f, loc, zone, IsoHourPart) == "T" + hh + ":" + mi
  {
    RenderFour(f, loc, zone, Literal("T"), Match("HH"), Literal(":"), Match("mm"));
  }

  /** `Z` is the zone string itself: when it is empty, so is the fallback. */
  lemma {:induction false} ZoneRenders(f: Fields, loc: Locale, zone: string)
    requires Renderable(f, loc)
    ensures RenderMatch(f, loc, zone, "Z") == zone
  {
    LookupIsTokenText("Z", Zone);
    assert '[' !in "Z";
  }

  /** The padded seconds and the zone under `:ssZ`. */
  lemma {:induction false} SecondPartRenders(f: Fields, loc: Locale, zone: string)
    requires Renderable(f, loc)
    ensures Render(f, loc, zone, DefaultSecondPart) == ":" + PadNum(f.seconds, 2) + zone
  {
    PaddedMatch(f, loc, zone, Second2, f.seconds, 2);
    ZoneRenders(f, loc, zone);
    SecondPartJoins(f, loc, zone, PadNum(f.seconds, 2));
  }

  /** `:ssZ` puts a colon before the seconds and the zone after them. */
  lemma {:induction false} SecondPartJoins(f: Fields, loc: Locale, zone: string, ss: string)
    requires Renderable(f, loc)
    requires RenderMatch(f, loc, zone, "ss") == ss && RenderMatch(f, loc, zone, "Z") == zone
    ensures Render(f, loc, zone, DefaultSecondPart) == ":" + ss + zone
  {
    RenderThree(f, loc, zone, Literal(":"), Match("ss"), Match("Z"));
  }

  /** The default pattern joins the three parts' renderings. */
  lemma {:induction false} DefaultPatternJoins(f: Fields, loc: Locale, zone: string, date: string, hour: string, second: string)
    requires Renderable(f, loc)
    requires Render(f, loc, zone, IsoDatePart) == date && Render(f, loc, zone, IsoHourPart) == hour
    requires Render(f, loc, zone, DefaultSecondPart) == second
    ensures Render(f, loc, zone, DefaultPattern) == date + hour + second
  {
    assert DefaultPattern == IsoDatePart + IsoHourPart + DefaultSecondPart;
    RenderConcat(f, loc, zone, IsoDatePart, IsoHourPart);
    RenderConcat(f, loc, zone, IsoDatePart + IsoHourPart, DefaultSecondPart);
  }

  /** A valid instant with no pattern renders its fields under the default pattern. */
  lemma {:induction false} NoPatternIsDefault(reg: Registry, x: Dayjs, zone: string)
    requires x.d.Valid? && LocaleOf(reg, x.l).Some? && NamesCalendar(LocaleOf(reg, x.l).value)
    ensures FormatInstant(reg, x, [], zone) == Render(FieldsOf(x.d.t), LocaleOf(reg, x.l).value, zone, DefaultPattern)
  {
    InitFields(x);
  }

  /**
    `format()` with no pattern writes the instant as `YYYY-MM-DDTHH:mm:ss`
    followed by the zone string: the year, then the month (from 1), the date,
    the hours, the minutes and the seconds, each padded to two digits.
   */
  lemma {:induction false} DefaultFormat(reg: Registry, x: Dayjs, zone: string)
    requires x.d.Valid? && LocaleOf(reg, x.l).Some? && NamesCalendar(LocaleOf(reg, x.l).value)
    ensures var f := FieldsOf(x.d.t);
      FormatInstant(reg, x, [], zone)
      == IntToString(f.year) + "-" + PadNum(f.month + 1, 2) + "-" + PadNum(f.date, 2)
         + "T" + PadNum(f.hours, 2) + ":" + PadNum(f.minutes, 2)
         + ":" + PadNum(f.seconds, 2) + zone
  {
    var f := FieldsOf(x.d.t);
    var loc := LocaleOf(reg, x.l).value;
    NoPatternIsDefault(reg, x, zone);
    assert Renderable(f, loc) by {
      InitFields(x);
    }
    var y, mo, d := IntToString(f.year), PadNum(f.month + 1, 2), PadNum(f.date, 2);
    var h, mi, s := PadNum(f.hours, 2), PadNum(f.minutes, 2), PadNum(f.seconds, 2);
    DatePartRenders(f, loc, zone);
    HourPartRenders(f, loc, zone);
    SecondPartRenders(f, loc, zone);
    DefaultPatternJoins(f, loc, zone, y + "-" + mo + "-" + d, "T" + h + ":" + mi, ":" + s + zone);
    Regroup(y, mo, d, h, mi, s, zone);
  }

  /**
    Regrouping the three parts into one left-to-right concatenation, over
    plain strings: stated apart so that the padded fields' definitions stay
    out of the sequence reasoning.
   */
  lemma Regroup(y: string, mo: string, d: string, h: string, mi: string, s: string, zone: string)
    ensures (y + "-" + mo + "-" + d) + ("T" + h + ":" + mi) + (":" + s + zone)
      == y + "-" + mo + "-" + d + "T" + h + ":" + mi + ":" + s + zone
  {
  }
}
