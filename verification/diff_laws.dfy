/**
  What diff guarantees for the units it computes from the millisecond
  difference: the quotient by the unit's length, rounded toward zero unless
  a float is asked for; the `|| diff` fallback; antisymmetry; and that diff
  measures exactly the steps add took.
 */
module DiffLaws {
  import opened Maybe
  import opened Calendar
  import opened JsDate
  import opened Locales
  import opened Instant
  import opened Arithmetic
  import opened AddLaws

  /** The units diff divides the millisecond difference for. */
  predicate FixedUnit(u: Unit) {
    u in {Week, Day, Hour, Minute, Second}
  }

  /** The units without an entry in diff's table: the raw millisecond difference. */
  predicate RawUnit(u: Unit) {
    u in {Date, Millisecond, Unknown}
  }

  /** Rounding toward zero commutes with negation. */
  lemma {:induction false} AbsFloorNegate(r: real)
    ensures AbsFloor(-r) == -AbsFloor(r)
  {
    var a := AbsFloor(r);
    var b := AbsFloor(-r);
    assert a == a.Floor as real && b == b.Floor as real;
    if r < 0.0 {
      assert 0.0 <= b <= -r < b + 1.0;
      assert a - 1.0 < r <= a <= 0.0;
      IntegralBetween(b, -a, -r);
    } else if r > 0.0 {
      assert 0.0 <= a <= r < a + 1.0;
      assert b - 1.0 < -r <= b <= 0.0;
      IntegralBetween(a, -b, r);
    }
  }

  /** Two integral reals within one of a value, both not above it, are equal. */
  lemma IntegralBetween(a: real, b: real, r: real)
    requires a == a.Floor as real && b == b.Floor as real
    requires a <= r < a + 1.0 && b <= r < b + 1.0
    ensures a == b
  {
    var i := a.Floor;
    var j := b.Floor;
    assert i as real == a && j as real == b;
    assert i < j + 1 && j < i + 1;
  }

  /** An integral real rounds toward zero to itself. */
  lemma AbsFloorIntegral(k: int)
    ensures AbsFloor(k as real) == k as real
  {
    if k < 0 {
      assert -(k as real) == (-k) as real;
      assert ((-k) as real).Floor == -k;
    } else {
      assert (k as real).Floor == k;
    }
  }

  /** n steps of a length, divided by that length, are n. */
  lemma StepsQuotient(n: int, ms: int)
    requires ms > 0
    ensures (n * ms) as real / ms as real == n as real
  {
    assert (n * ms) as real == n as real * ms as real;
  }

  /**
    For week, day, hour, minute and second, diff is the millisecond
    difference over the unit's length, rounded toward zero unless float:
    the `|| diff` fallback only applies when the quotient is 0, and then the
    difference is 0 too.
   */
  lemma {:induction false} DiffFixed(x: Dayjs, that: Dayjs, u: Unit, float: bool, monthDiff: real)
    requires x.d.Valid? && that.d.Valid? && FixedUnit(u)
    ensures var q := (x.d.t - that.d.t) as real / UnitMs(u) as real;
      Diff(x, that, u, float, monthDiff) == Some(if float then q else AbsFloor(q))
  {
    var diff := (x.d.t - that.d.t) as real;
    var q := diff / UnitMs(u) as real;
    if q == 0.0 {
      assert diff == 0.0;
    }
  }

  /** For date, millisecond and an unknown unit, diff is the raw millisecond difference. */
  lemma {:induction false} DiffRaw(x: Dayjs, that: Dayjs, u: Unit, float: bool, monthDiff: real)
    requires x.d.Valid? && that.d.Valid? && RawUnit(u)
    ensures Diff(x, that, u, float, monthDiff) == Some((x.d.t - that.d.t) as real)
  {
    AbsFloorIntegral(x.d.t - that.d.t);
  }

  /** The factor diff divides the month difference by: 12 for years, 3 for quarters, 1 for months. */
  function MonthsPer(u: Unit): (k: real)
    requires u in {Year, Quarter, Month}
    ensures k > 0.0
  {
    match u
    case Year => 12.0
    case Quarter => 3.0
    case _ => 1.0
  }

  /**
    For years, quarters and months, diff is the month difference scaled;
    when the month difference is 0 the `|| diff` fallback returns the raw
    millisecond difference instead.
   */
  lemma {:induction false} DiffCalendar(x: Dayjs, that: Dayjs, u: Unit, float: bool, monthDiff: real)
    requires x.d.Valid? && that.d.Valid? && u in {Year, Quarter, Month}
    ensures var q := monthDiff / MonthsPer(u);
      monthDiff != 0.0 ==> Diff(x, that, u, float, monthDiff) == Some(if float then q else AbsFloor(q))
    ensures monthDiff == 0.0 ==> Diff(x, that, u, float, monthDiff) == Some((x.d.t - that.d.t) as real)
  {
    AbsFloorIntegral(x.d.t - that.d.t);
    assert Year != Quarter;
  }

  /** Swapping the two instants (and so negating the month difference) negates diff. */
  lemma {:induction false} DiffAntisymmetric(x: Dayjs, that: Dayjs, u: Unit, float: bool, monthDiff: real)
    requires x.d.Valid? && that.d.Valid?
    ensures Diff(that, x, u, float, -monthDiff).value == -Diff(x, that, u, float, monthDiff).value
  {
    if FixedUnit(u) {
      FixedAntisymmetric(x, that, u, float, monthDiff);
    } else if RawUnit(u) {
      DiffRaw(x, that, u, float, monthDiff);
      DiffRaw(that, x, u, float, -monthDiff);
    } else {
      CalendarAntisymmetric(x, that, u, float, monthDiff);
    }
  }

  lemma {:induction false} FixedAntisymmetric(x: Dayjs, that: Dayjs, u: Unit, float: bool, monthDiff: real)
    requires x.d.Valid? && that.d.Valid? && FixedUnit(u)
    ensures Diff(that, x, u, float, -monthDiff).value == -Diff(x, that, u, float, monthDiff).value
  {
    var q := (x.d.t - that.d.t) as real / UnitMs(u) as real;
    assert Diff(x, that, u, float, monthDiff) == Some(if float then q else AbsFloor(q)) by {
      DiffFixed(x, that, u, float, monthDiff);
    }
    assert Diff(that, x, u, float, -monthDiff) == Some(if float then -q else AbsFloor(-q)) by {
      DiffFixed(that, x, u, float, -monthDiff);
      NegatedQuotient(x.d.t - that.d.t, UnitMs(u) as real);
    }
    AbsFloorNegate(q);
  }

  lemma NegatedQuotient(k: int, d: real)
    requires d > 0.0
    ensures (-k) as real / d == -(k as real / d)
  {
  }

  lemma {:induction false} CalendarAntisymmetric(x: Dayjs, that: Dayjs, u: Unit, float: bool, monthDiff: real)
    requires x.d.Valid? && that.d.Valid? && u in {Year, Quarter, Month}
    ensures Diff(that, x, u, float, -monthDiff).value == -Diff(x, that, u, float, monthDiff).value
  {
    DiffCalendar(x, that, u, float, monthDiff);
    DiffCalendar(that, x, u, float, -monthDiff);
    assert -monthDiff / MonthsPer(u) == -(monthDiff / MonthsPer(u));
    AbsFloorNegate(monthDiff / MonthsPer(u));
  }

  /**
    diff measures what add did: x.add(n, u).diff(x, u) is n for week, day,
    hour, minute and second, and for the units add and diff both count in
    milliseconds (date, millisecond, an unknown unit).
   */
  lemma {:induction false} DiffOfAdd(reg: Registry, x: Dayjs, n: int, u: Unit, float: bool, monthDiff: real)
    requires x.d.Valid? && (FixedUnit(u) || RawUnit(u))
    requires Add(reg, x, n, u).d.Valid?
    ensures Diff(Add(reg, x, n, u), x, u, float, monthDiff) == Some(n as real)
  {
    AddFixed(reg, x, n, u);
    DiffOfSteps(Add(reg, x, n, u), x, n, u, float, monthDiff);
  }

  /** Two dates n unit lengths apart are n units apart for diff. */
  lemma {:induction false} DiffOfSteps(y: Dayjs, x: Dayjs, n: int, u: Unit, float: bool, monthDiff: real)
    requires x.d.Valid? && y.d.Valid? && (FixedUnit(u) || RawUnit(u))
    requires y.d.t == x.d.t + n * UnitMs(u)
    ensures Diff(y, x, u, float, monthDiff) == Some(n as real)
  {
    if FixedUnit(u) {
      DiffFixed(y, x, u, float, monthDiff);
      StepsQuotient(n, UnitMs(u));
      AbsFloorIntegral(n);
    } else {
      assert UnitMs(u) == 1;
      DiffRaw(y, x, u, float, monthDiff);
    }
  }
}
