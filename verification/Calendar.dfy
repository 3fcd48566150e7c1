/**
 `civil_from_days` (src/access_log.rs): the proleptic Gregorian date of a day
 number, day 0 being 1970-01-01.
 */
module Calendar {
  import opened Arithmetic

  datatype Date = Date(year: int, month: int, day: int)

  // -- The Gregorian calendar ---------------------------------------------------------

  predicate Leap(y: int) {
    y % 4 == 0 && (y % 100 != 0 || y % 400 == 0)
  }

  function DaysInMonth(y: int, m: int): int {
    if m == 2 then (if Leap(y) then 29 else 28)
    else if m == 4 || m == 6 || m == 9 || m == 11 then 30
    else 31
  }

  predicate IsDate(t: Date) {
    1 <= t.month <= 12 && 1 <= t.day <= DaysInMonth(t.year, t.month)
  }

  /** The next day: of the month, of the next month, or of the next year. */
  function NextDay(t: Date): Date {
    if t.day < DaysInMonth(t.year, t.month) then Date(t.year, t.month, t.day + 1)
    else if t.month < 12 then Date(t.year, t.month + 1, 1)
    else Date(t.year + 1, 1, 1)
  }

  /** Days from 1 January of year 0 to 1 January of year `y`. */
  function DaysBeforeYear(y: int): int {
    365 * y + (y + 3) / 4 - (y + 99) / 100 + (y + 399) / 400
  }

  /** Days of year `y` before its month `m`. */
  function DaysBeforeMonth(y: int, m: int): int
    decreases m
  {
    if m <= 1 then 0 else DaysBeforeMonth(y, m - 1) + DaysInMonth(y, m - 1)
  }

  const EPOCH: int := 719_528

  /** Days since 1970-01-01. */
  function DaysFromCivil(t: Date): int {
    DaysBeforeYear(t.year) + DaysBeforeMonth(t.year, t.month) + t.day - 1 - EPOCH
  }

  // -- The algorithm -------------------------------------------------------------------

  function YearOfEra(doe: int): int {
    (doe - doe / 1460 + doe / 36_524 - doe / 146_096) / 365
  }

  /** First day of a year of the era; years run from 1 March. */
  function YearStart(yoe: int): int {
    365 * yoe + yoe / 4 - yoe / 100
  }

  /** The date `doy` days after 1 March of year `y`. */
  function DateInYear(y: int, doy: int): Date {
    var mp := (5 * doy + 2) / 153;
    var d := doy - (153 * mp + 2) / 5 + 1;
    var m := if mp < 10 then mp + 3 else mp - 9;
    Date(if m <= 2 then y + 1 else y, m, d)
  }

  function CivilFromDays(days: int): Date {
    var z := days + 719_468;
    var era := z / 146_097;
    var doe := z % 146_097;
    var yoe := YearOfEra(doe);
    DateInYear(yoe + era * 400, doe - YearStart(yoe))
  }

  // -- Correctness -----------------------------------------------------------------------

  /** Rounding up moves on exactly at multiples. */
  lemma Carry(y: int, n: int)
    requires n > 1
    ensures (y + n) / n - (y + n - 1) / n == if y % n == 0 then 1 else 0
  {
    var q, r := y / n, y % n;
    assert y == n * q + r;
    assert n * (q + 1) == n * q + n;
    DivIs(y + n, n, q + 1);
    DivIs(y + n - 1, n, if r == 0 then q else q + 1);
  }

  lemma Multiples(y: int)
    ensures y % 400 == 0 ==> y % 100 == 0
    ensures y % 100 == 0 ==> y % 4 == 0
  {
    if y % 400 == 0 {
      DivIs(y, 100, 4 * (y / 400));
    }
    if y % 100 == 0 {
      DivIs(y, 4, 25 * (y / 100));
    }
  }

  lemma LeapStep(y: int)
    ensures DaysBeforeYear(y + 1) - DaysBeforeYear(y) == if Leap(y) then 366 else 365
  {
    Carry(y, 4);
    Carry(y, 100);
    Carry(y, 400);
    Multiples(y);
  }

  lemma CycleDay(s: int, y: int, e: int)
    requires 0 <= s <= 1460 && y == (if s == 1460 then 3 else s / 365)
    requires 0 <= e <= 1 && (e == 1 ==> s >= 1364) && (s == 1460 ==> e == 1)
    ensures 365 * y <= s - e < 365 * y + 365
  {
  }

  /** The quotients taken of a day of the era: century, four-year cycle, and day of the cycle. */
  lemma CycleQuotients(c: int, q: int, s: int, e: int)
    requires 0 <= c < 4 && 0 <= q <= 24 && 0 <= s <= (if q == 24 then 1459 else 1460)
    requires e == if 24 * c + q + s >= 1460 then 1 else 0
    ensures var doe := 36_524 * c + 1461 * q + s;
      doe / 1460 == 25 * c + q + e && doe / 36_524 == c && doe / 146_096 == 0
  {
    var doe := 36_524 * c + 1461 * q + s;
    DivIs(doe, 1460, 25 * c + q + e);
    DivIs(doe, 36_524, c);
    DivIs(doe, 146_096, 0);
  }

  lemma CycleYear(c: int, q: int, s: int, y: int)
    requires 0 <= c < 4 && 0 <= q <= 24 && 0 <= s <= (if q == 24 then 1459 else 1460)
    requires y == if s == 1460 then 3 else s / 365
    ensures YearOfEra(36_524 * c + 1461 * q + s) == 100 * c + 4 * q + y
  {
    var doe := 36_524 * c + 1461 * q + s;
    var e := if 24 * c + q + s >= 1460 then 1 else 0;
    CycleQuotients(c, q, s, e);
    CycleDay(s, y, e);
    DivIs(doe - (25 * c + q + e) + c, 365, 100 * c + 4 * q + y);
  }

  lemma CycleStart(c: int, q: int, y: int)
    requires 0 <= c < 4 && 0 <= q <= 24 && 0 <= y <= 3
    ensures YearStart(100 * c + 4 * q + y) == 36_524 * c + 1461 * q + 365 * y
  {
  }

  lemma CycleLeap(c: int, q: int)
    requires 0 <= c < 4 && 0 <= q < 24
    ensures Leap(100 * c + 4 * q + 4)
  {
    var y := 100 * c + 4 * q + 4;
    assert y == 100 * c + (4 * q + 4) && 0 < 4 * q + 4 < 100;
    assert y % 100 == 4 * q + 4;
  }

  /** The year found contains the day; a leap day comes at the end of its year. */
  lemma YearOfEraExact(doe: int)
    requires 0 <= doe < 146_097
    ensures 0 <= YearOfEra(doe) <= 399
    ensures 0 <= doe - YearStart(YearOfEra(doe)) <= (if Leap(YearOfEra(doe) + 1) then 365 else 364)
  {
    if doe == 146_096 {
      assert YearOfEra(doe) == 399;
    } else {
      hide YearOfEra, YearStart, Leap;
      var c := doe / 36_524;
      var r := doe - 36_524 * c;
      InCentury(doe, c, r / 1461, r % 1461);
    }
  }

  lemma InCentury(doe: int, c: int, q: int, s: int)
    requires 0 <= c < 4 && 0 <= q <= 24 && 0 <= s <= (if q == 24 then 1459 else 1460)
    requires doe == 36_524 * c + 1461 * q + s
    ensures 0 <= YearOfEra(doe) <= 399
    ensures 0 <= doe - YearStart(YearOfEra(doe)) <= (if Leap(YearOfEra(doe) + 1) then 365 else 364)
  {
    hide YearOfEra, YearStart, Leap;
    var y := if s == 1460 then 3 else s / 365;
    CycleYear(c, q, s, y);
    CycleStart(c, q, y);
    if s == 1460 {
      CycleLeap(c, q);
    }
  }

  // -- Months -----------------------------------------------------------------------------

  /** Days of a year that starts on 1 March before its `mp`-th month. */
  function MarchDays(mp: int): int {
    (153 * mp + 2) / 5
  }

  /** The month found contains the day. */
  lemma MonthExact(doy: int)
    requires 0 <= doy <= 365
    ensures var mp := (5 * doy + 2) / 153;
      0 <= mp <= 11 && MarchDays(mp) <= doy && (mp < 11 ==> doy < MarchDays(mp + 1))
  {
  }

  lemma JanuaryFebruary(y: int)
    ensures DaysBeforeMonth(y, 1) == 0 && DaysBeforeMonth(y, 2) == 31
    ensures DaysBeforeMonth(y, 3) == if Leap(y) then 60 else 59
  {
    assert DaysBeforeMonth(y, 3) == DaysBeforeMonth(y, 2) + DaysInMonth(y, 2);
  }

  /** Months from March on, and the two that follow in the next calendar year. */
  lemma {:induction false} MarchMonths(y: int, mp: int)
    requires 0 <= mp <= 9
    ensures DaysBeforeMonth(y, mp + 3) == DaysBeforeMonth(y, 3) + MarchDays(mp)
    ensures MarchDays(mp + 1) - MarchDays(mp) == DaysInMonth(y, mp + 3)
    decreases mp
  {
    if mp > 0 {
      MarchMonths(y, mp - 1);
      assert DaysBeforeMonth(y, mp + 3) == DaysBeforeMonth(y, mp + 2) + DaysInMonth(y, mp + 2);
    }
  }

  /** 1 March of year `y`, as a day number. */
  function MarchFirst(y: int): int {
    DaysBeforeYear(y) + DaysBeforeMonth(y, 3) - EPOCH
  }

  /** `DateInYear` is a date, `doy` days after 1 March. */
  lemma DateInYearExact(y: int, doy: int)
    requires 0 <= doy <= (if Leap(y + 1) then 365 else 364)
    ensures IsDate(DateInYear(y, doy))
    ensures DaysFromCivil(DateInYear(y, doy)) == MarchFirst(y) + doy
  {
    hide DaysBeforeYear, Leap, DaysInMonth;
    MonthExact(doy);
    JanuaryFebruary(y);
    JanuaryFebruary(y + 1);
    var mp := (5 * doy + 2) / 153;
    if mp <= 9 {
      MarchMonths(y, mp);
    } else {
      MarchMonths(y, 9);
      YearLength(y);
      FebruaryDays(y + 1);
    }
  }

  lemma FebruaryDays(y: int)
    ensures DaysInMonth(y, 1) == 31 && DaysInMonth(y, 2) == if Leap(y) then 29 else 28
  {
  }

  /** From 1 March to the next 1 January there are 306 days. */
  lemma YearLength(y: int)
    ensures DaysBeforeYear(y + 1) == DaysBeforeYear(y) + DaysBeforeMonth(y, 3) + 306
  {
    LeapStep(y);
    JanuaryFebruary(y);
  }

  lemma MarchFirstOfEra(era: int, yoe: int)
    requires 0 <= yoe <= 399
    ensures MarchFirst(yoe + era * 400) == era * 146_097 + YearStart(yoe) - 719_468
  {
    var y := yoe + era * 400;
    YearLength(y);
    DivIs(y + 4, 4, yoe / 4 + 100 * era + 1);
    DivIs(y + 100, 100, yoe / 100 + 4 * era + 1);
    DivIs(y + 400, 400, era + 1);
  }

  /** Every day number gets a real date, and the right one. */
  lemma CivilIsRight(days: int)
    ensures IsDate(CivilFromDays(days))
    ensures DaysFromCivil(CivilFromDays(days)) == days
  {
    hide YearOfEra, YearStart, Leap, IsDate, DaysFromCivil, DateInYear, MarchFirst;
    var z := days + 719_468;
    var era, doe := z / 146_097, z % 146_097;
    var yoe := YearOfEra(doe);
    YearOfEraExact(doe);
    LeapPeriod(yoe + 1, era);
    DateInYearExact(yoe + era * 400, doe - YearStart(yoe));
    MarchFirstOfEra(era, yoe);
  }

  lemma LeapPeriod(y: int, era: int)
    ensures Leap(y + era * 400) == Leap(y)
  {
    hide Leap;
    Period(y, era, 4);
    Period(y, era, 100);
    Period(y, era, 400);
    LeapByRemainders(y, y + era * 400);
  }

  lemma LeapByRemainders(y: int, x: int)
    requires x % 4 == y % 4 && x % 100 == y % 100 && x % 400 == y % 400
    ensures Leap(x) == Leap(y)
  {
  }

  lemma Period(y: int, era: int, n: int)
    requires n == 4 || n == 100 || n == 400
    ensures (y + era * 400) % n == y % n
  {
    var k := 400 / n;
    assert n * k == 400;
    assert y == n * (y / n) + y % n;
    assert n * (y / n + k * era) == n * (y / n) + 400 * era;
    DivIs(y + era * 400, n, y / n + k * era);
  }

  // -- Dates are counted without gaps or repetitions ------------------------------------------

  lemma {:induction false} MonthFits(y: int, m: int)
    requires 1 <= m <= 12
    ensures 0 <= DaysBeforeMonth(y, m)
    ensures DaysBeforeMonth(y, m) + DaysInMonth(y, m) <= (if Leap(y) then 366 else 365)
    ensures m == 12 ==> DaysBeforeMonth(y, m) + DaysInMonth(y, m) == if Leap(y) then 366 else 365
  {
    hide Leap;
    JanuaryFebruary(y);
    if m >= 3 {
      MarchMonths(y, m - 3);
      assert MarchDays(m - 2) <= 306;
    }
  }

  /** One day later is one more. */
  lemma NextDayCounts(t: Date)
    requires IsDate(t)
    ensures IsDate(NextDay(t)) && DaysFromCivil(NextDay(t)) == DaysFromCivil(t) + 1
  {
    hide DaysBeforeYear, Leap;
    if t.day < DaysInMonth(t.year, t.month) {
    } else if t.month < 12 {
      assert DaysBeforeMonth(t.year, t.month + 1) == DaysBeforeMonth(t.year, t.month) + DaysInMonth(t.year, t.month);
    } else {
      MonthFits(t.year, 12);
      LeapStep(t.year);
      JanuaryFebruary(t.year + 1);
    }
  }

  lemma {:induction false} YearsApart(y1: int, y2: int)
    requires y1 < y2
    ensures DaysBeforeYear(y1) + (if Leap(y1) then 366 else 365) <= DaysBeforeYear(y2)
    decreases y2 - y1
  {
    hide Leap, DaysBeforeYear;
    LeapStep(y1);
    if y1 + 1 < y2 {
      YearsApart(y1 + 1, y2);
    }
  }

  lemma {:induction false} MonthsApart(y: int, m1: int, m2: int)
    requires 1 <= m1 < m2 <= 12
    ensures DaysBeforeMonth(y, m1) + DaysInMonth(y, m1) <= DaysBeforeMonth(y, m2)
    decreases m2 - m1
  {
    hide Leap;
    if m1 + 1 < m2 {
      MonthsApart(y, m1 + 1, m2);
    }
    assert DaysBeforeMonth(y, m1 + 1) == DaysBeforeMonth(y, m1) + DaysInMonth(y, m1);
  }

  ghost predicate Before(a: Date, b: Date) {
    a.year < b.year || (a.year == b.year && (a.month < b.month || (a.month == b.month && a.day < b.day)))
  }

  /** Earlier dates have smaller numbers. */
  lemma BeforeCounts(a: Date, b: Date)
    requires IsDate(a) && IsDate(b) && Before(a, b)
    ensures DaysFromCivil(a) < DaysFromCivil(b)
  {
    hide Leap, DaysBeforeYear, DaysBeforeMonth;
    if a.year < b.year {
      YearsApart(a.year, b.year);
      MonthFits(a.year, a.month);
      MonthFits(b.year, b.month);
    } else if a.month < b.month {
      MonthsApart(a.year, a.month, b.month);
    }
  }

  lemma DatesDistinct(a: Date, b: Date)
    requires IsDate(a) && IsDate(b) && DaysFromCivil(a) == DaysFromCivil(b)
    ensures a == b
  {
    hide DaysFromCivil, IsDate;
    if a != b {
      if Before(a, b) {
        BeforeCounts(a, b);
      } else {
        BeforeCounts(b, a);
      }
    }
  }

  /** The two directions are inverse on every real date. */
  lemma CivilInverse(t: Date)
    requires IsDate(t)
    ensures CivilFromDays(DaysFromCivil(t)) == t
  {
    hide DaysFromCivil, IsDate, CivilFromDays;
    CivilIsRight(DaysFromCivil(t));
    DatesDistinct(CivilFromDays(DaysFromCivil(t)), t);
  }

  /** Day 0 is 1970-01-01. */
  lemma CivilEpoch()
    ensures CivilFromDays(0) == Date(1970, 1, 1)
  {
    hide CivilFromDays;
    var epoch := Date(1970, 1, 1);
    assert IsDate(epoch) && DaysFromCivil(epoch) == 0 by { JanuaryFebruary(1970); }
    CivilInverse(epoch);
  }

  /** Each day's date is the Gregorian successor of the previous day's, for every integer day. */
  lemma CivilSuccessor(days: int)
    ensures CivilFromDays(days + 1) == NextDay(CivilFromDays(days))
  {
    hide DaysFromCivil, IsDate, CivilFromDays, NextDay;
    CivilIsRight(days);
    NextDayCounts(CivilFromDays(days));
    CivilInverse(NextDay(CivilFromDays(days)));
  }

  /** Dates keep the order of days. */
  lemma CivilOrdered(a: int, b: int)
    requires a < b
    ensures Before(CivilFromDays(a), CivilFromDays(b))
  {
    hide DaysFromCivil, IsDate, CivilFromDays;
    CivilIsRight(a);
    CivilIsRight(b);
    var x, y := CivilFromDays(a), CivilFromDays(b);
    if x != y && !Before(x, y) {
      BeforeCounts(y, x);
    }
  }
}
