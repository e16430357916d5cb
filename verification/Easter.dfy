/**
  The date computed in time_iseasterday (src/base/system.cpp), the "anonymous Gregorian algorithm", against
  the Gregorian calendar and the rule Easter is defined by: the first Sunday after the paschal full moon.
  */
module Easter {

  // ---------------------------------------------------------------- the formula

  datatype Computus = Computus(
    a: int, b: int, c: int, d: int, e: int, f: int, g: int, h: int, i: int, k: int, l: int, m: int, month: int, day: int
  )

  function Compute(year: nat): Computus {
    var a := year % 19;
    var b := year / 100;
    var c := year % 100;
    var d := b / 4;
    var e := b % 4;
    var f := (b + 8) / 25;
    var g := (b - f + 1) / 3;
    var h := (19 * a + b - d - g + 15) % 30;
    var i := c / 4;
    var k := c % 4;
    var l := (32 + 2 * e + 2 * i - h - k) % 7;
    var m := (a + 11 * h + 22 * l) / 451;
    var month := (h + l - 7 * m + 114) / 31;
    var day := (h + l - 7 * m + 114) % 31 + 1;
    Computus(a, b, c, d, e, f, g, h, i, k, l, m, month, day)
  }

  /** No division or remainder has a negative operand, so it does not matter that C++ rounds towards zero. */
  lemma OperandsAreNatural(year: nat)
    ensures var t := Compute(year);
            && t.b - t.f + 1 >= 0 && 19 * t.a + t.b - t.d - t.g + 15 >= 0
            && 32 + 2 * t.e + 2 * t.i - t.h - t.k >= 0 && t.a + 11 * t.h + 22 * t.l >= 0
            && t.h + t.l - 7 * t.m + 114 >= 0
  {
    var t := Compute(year);
    CenturyTerms(t.b);
    CorrectionTerm(t.a, t.h, t.l);
  }

  lemma CenturyTerms(b: nat)
    ensures b - (b + 8) / 25 + 1 >= 0
    ensures b - b / 4 - (b - (b + 8) / 25 + 1) / 3 + 15 >= 0
  {
  }

  /** m subtracts the week that the formula is too late when the moon correction applies on a Saturday. */
  lemma CorrectionTerm(a: nat, h: nat, l: nat)
    requires a < 19 && h < 30 && l < 7
    ensures (a + 11 * h + 22 * l) / 451 == if l == 6 && (h == 29 || (h == 28 && a > 10)) then 1 else 0
  {
  }

  // ---------------------------------------------------------------- the Gregorian calendar

  predicate IsLeap(year: nat) {
    year % 4 == 0 && (year % 100 != 0 || year % 400 == 0)
  }

  function DaysIn(year: nat, month: int): nat
    requires 1 <= month <= 12
  {
    if month == 2 then (if IsLeap(year) then 29 else 28)
    else if month in {4, 6, 9, 11} then 30
    else 31
  }

  function DaysBeforeMonth(year: nat, month: int): nat
    requires 1 <= month <= 12
  {
    if month == 1 then 0 else DaysBeforeMonth(year, month - 1) + DaysIn(year, month - 1)
  }

  function DaysBeforeYear(year: nat): nat {
    if year == 0 then 0 else DaysBeforeYear(year - 1) + if IsLeap(year - 1) then 366 else 365
  }

  /** Days since 1 January of year 0. */
  function DayNumber(year: nat, month: int, day: int): int
    requires 1 <= month <= 12
  {
    DaysBeforeYear(year) + DaysBeforeMonth(year, month) + day - 1
  }

  /** 0 is Sunday. */
  function Weekday(year: nat, month: int, day: int): int
    requires 1 <= month <= 12
  {
    (DayNumber(year, month, day) + 6) % 7
  }

  /** Leap years among 0, ..., year - 1. */
  function LeapsBefore(year: nat): int {
    (year + 3) / 4 - (year + 99) / 100 + (year + 399) / 400
  }

  lemma QuotientStep(year: nat, n: int)
    requires n > 0
    ensures (year + n) / n == (year + n - 1) / n + if year % n == 0 then 1 else 0
  {
    var q, r := year / n, year % n;
    assert year + n == n * (q + 1) + r;
    QuotientIs(year + n, n, q + 1, r);
    if r == 0 {
      assert year + n - 1 == n * q + (n - 1);
      QuotientIs(year + n - 1, n, q, n - 1);
    } else {
      assert year + n - 1 == n * (q + 1) + (r - 1);
      QuotientIs(year + n - 1, n, q + 1, r - 1);
    }
  }

  lemma QuotientIs(x: int, n: int, q: int, r: int)
    requires n > 0 && x == n * q + r && 0 <= r < n
    ensures x / n == q && x % n == r
  {
    var q', r' := x / n, x % n;
    assert n * (q - q') == r' - r;
    if q > q' {
      Grows(n, q - q');
    } else if q < q' {
      Grows(n, q' - q);
    }
  }

  lemma Grows(n: int, k: int)
    requires n > 0 && k > 0
    ensures n * k >= n
  {
  }

  lemma {:induction false} DaysBeforeYearIs(year: nat)
    ensures DaysBeforeYear(year) == 365 * year + LeapsBefore(year)
  {
    if year > 0 {
      DaysBeforeYearIs(year - 1);
      LeapsStep(year - 1);
    }
  }

  lemma LeapsStep(year: nat)
    ensures LeapsBefore(year + 1) == LeapsBefore(year) + if IsLeap(year) then 1 else 0
  {
    QuotientStep(year, 4);
    QuotientStep(year, 100);
    QuotientStep(year, 400);
    LeapByQuotients(year);
  }

  lemma LeapByQuotients(year: nat)
    ensures (if IsLeap(year) then 1 else 0) ==
            (if year % 4 == 0 then 1 else 0) - (if year % 100 == 0 then 1 else 0) + (if year % 400 == 0 then 1 else 0)
  {
    MultipleOfHundred(year);
    MultipleOfFour(year);
  }

  lemma MultipleOfHundred(year: nat)
    ensures year % 400 == 0 ==> year % 100 == 0
  {
    if year % 400 == 0 {
      var q := year / 400;
      HundredTimes(4 * q);
      assert year == 100 * (4 * q);
    }
  }

  lemma HundredTimes(q: nat)
    ensures (100 * q) % 100 == 0
  {
  }

  lemma MultipleOfFour(year: nat)
    ensures year % 100 == 0 ==> year % 4 == 0
  {
    if year % 100 == 0 {
      var q := year / 100;
      FourTimes(25 * q);
      assert year == 4 * (25 * q);
    }
  }

  lemma FourTimes(q: nat)
    ensures (4 * q) % 4 == 0
  {
  }

  /** Leap years among 0, ..., year. */
  lemma LeapsUpTo(year: nat)
    ensures LeapsBefore(year) + (if IsLeap(year) then 1 else 0) == year / 4 - year / 100 + year / 400 + 1
  {
    QuotientStep(year, 4);
    QuotientStep(year, 100);
    QuotientStep(year, 400);
    LeapByQuotients(year);
    Next(year, 4);
    Next(year, 100);
    Next(year, 400);
  }

  lemma Next(year: nat, n: int)
    requires n > 0
    ensures (year + n) / n == year / n + 1
  {
    QuotientIs(year + n, n, year / n + 1, year % n);
  }

  /** The weekdays are fixed by one known date: 1 January 2000 was a Saturday. */
  lemma KnownWeekday(year: nat)
    requires year == 2000
    ensures Weekday(year, 1, 1) == 6
  {
    DaysBeforeYearIs(year);
  }

  // ---------------------------------------------------------------- days of spring

  /** The date as a day of March: 31 + d stands for d April. */
  function DayOfMarch(t: Computus): int {
    22 + t.h + t.l - 7 * t.m
  }

  lemma MonthAndDay(year: nat)
    ensures var t := Compute(year);
            && 22 <= DayOfMarch(t) <= 56
            && (if DayOfMarch(t) <= 31 then t.month == 3 && t.day == DayOfMarch(t)
                else t.month == 4 && t.day == DayOfMarch(t) - 31)
  {
    var t := Compute(year);
    CorrectionTerm(t.a, t.h, t.l);
    var x := t.h + t.l - 7 * t.m;
    assert 0 <= x <= 34;
  }

  /** Easter lies between 22 March and 25 April. */
  lemma EasterInRange(year: nat)
    ensures var t := Compute(year);
            || (t.month == 3 && 22 <= t.day <= 31)
            || (t.month == 4 && 1 <= t.day <= 25)
  {
    MonthAndDay(year);
  }

  /** The number of day p of March of some year. */
  function SpringDay(year: nat, p: int): int {
    if p <= 31 then DayNumber(year, 3, p) else DayNumber(year, 4, p - 31)
  }

  lemma SpringDayIs(year: nat, p: int)
    ensures SpringDay(year, p) == 365 * year + year / 4 - year / 100 + year / 400 + 59 + p
  {
    DaysBeforeYearIs(year);
    LeapsUpTo(year);
    assert DaysBeforeMonth(year, 3) == 59 + if IsLeap(year) then 1 else 0 by {
      assert DaysBeforeMonth(year, 2) == 31;
    }
    assert DaysBeforeMonth(year, 4) == DaysBeforeMonth(year, 3) + 31;
  }

  /** year / 4 and year / 400 in the terms of the formula. */
  lemma YearTerms(year: nat)
    ensures var t := Compute(year);
            && year == 400 * t.d + 100 * t.e + 4 * t.i + t.k
            && year / 4 == 100 * t.d + 25 * t.e + t.i
            && year / 100 == 4 * t.d + t.e
            && year / 400 == t.d
  {
    var t := Compute(year);
    assert year == 4 * (100 * t.d + 25 * t.e + t.i) + t.k;
    QuotientIs(year, 4, 100 * t.d + 25 * t.e + t.i, t.k);
    QuotientIs(year, 400, t.d, 100 * t.e + 4 * t.i + t.k);
  }

  /** l, with the multiple of seven that the remainder drops. */
  lemma WeekTerm(year: nat) returns (q: int)
    ensures var t := Compute(year); 32 + 2 * t.e + 2 * t.i - t.h - t.k == 7 * q + t.l
  {
    var t := Compute(year);
    var x := 32 + 2 * t.e + 2 * t.i - t.h - t.k;
    assert t.l == x % 7;
    q := x / 7;
    Division(x);
  }

  lemma Division(x: int)
    ensures x == 7 * (x / 7) + x % 7
  {
  }

  lemma SundayOfSpring(year: nat)
    ensures (SpringDay(year, DayOfMarch(Compute(year))) + 6) % 7 == 0
  {
    var t := Compute(year);
    YearTerms(year);
    SpringDayIs(year, DayOfMarch(t));
    var q := WeekTerm(year);
    SundayByQuotients(t.d, t.e, t.i, t.k, t.h, t.l, t.m, q, SpringDay(year, DayOfMarch(t)));
  }

  lemma SundayByQuotients(d: int, e: int, i: int, k: int, h: int, l: int, m: int, q: int, n: int)
    requires 32 + 2 * e + 2 * i - h - k == 7 * q + l
    requires n == 365 * (400 * d + 100 * e + 4 * i + k) + (100 * d + 25 * e + i) - (4 * d + e) + d
                  + 59 + (22 + h + l - 7 * m)
    ensures (n + 6) % 7 == 0
  {
    var z := 20871 * d + 5218 * e + 209 * i + 52 * k - m - q + 17;
    assert n + 6 == 7 * z;
    QuotientIs(n + 6, 7, z, 0);
  }

  /**
    For every year the computed date is a Sunday of the Gregorian calendar: it lies a number of weeks and one
    day from 1 January 2000, which was a Saturday.
    */
  lemma EasterIsSunday(year: nat, known: nat)
    requires known == 2000
    ensures var t := Compute(year);
            && 1 <= t.month <= 12 && Weekday(year, t.month, t.day) == 0
            && Weekday(known, 1, 1) == 6
            && (DayNumber(year, t.month, t.day) - DayNumber(known, 1, 1)) % 7 == 1
  {
    var t := Compute(year);
    DayOfEaster(year);
    SundayOfSpring(year);
    KnownWeekday(known);
    WeekdaysApart(DayNumber(year, t.month, t.day), DayNumber(known, 1, 1));
  }

  lemma DayOfEaster(year: nat)
    ensures var t := Compute(year);
            1 <= t.month <= 12 && DayNumber(year, t.month, t.day) == SpringDay(year, DayOfMarch(t))
  {
    MonthAndDay(year);
  }

  lemma WeekdaysApart(n: int, m: int)
    requires (n + 6) % 7 == 0 && (m + 6) % 7 == 6
    ensures (n - m) % 7 == 1
  {
    var p, q := (n + 6) / 7, (m + 6) / 7;
    QuotientIs(n - m, 7, p - q - 1, 1);
  }

  // ---------------------------------------------------------------- the paschal full moon

  /**
    The epact of Clavius' calendar reform, in the form of exercise 1.3.2-14 of The Art of Computer Programming:
    golden number, solar and lunar correction of the century, and the exceptions that keep full moons apart.
    */
  function Epact(year: nat): int {
    var golden := year % 19 + 1;
    var century := year / 100 + 1;
    var x := 3 * century / 4 - 12;
    var z := (8 * century + 5) / 25 - 5;
    var e := (11 * golden + 20 + z - x) % 30;
    if e == 24 || (e == 25 && golden > 11) then e + 1 else e
  }

  /** The paschal full moon as a day of March, not before 21 March. */
  function PaschalMoon(year: nat): int {
    var n := 44 - Epact(year);
    if n < 21 then n + 30 else n
  }

  lemma SolarTerm(b: nat)
    ensures 3 * (b + 1) / 4 == b - b / 4
  {
    var q, r := b / 4, b % 4;
    assert 3 * (b + 1) == 12 * q + 3 * r + 3;
  }

  lemma LunarTerm(b: nat)
    ensures (b - (b + 8) / 25 + 1) / 3 == (8 * b + 13) / 25
  {
    var q, r := (b + 8) / 25, (b + 8) % 25;
    assert b == 25 * q + r - 8;
    assert b - q + 1 == 3 * (8 * q) + (r - 7);
    assert 8 * b + 13 == 25 * (8 * q) + (8 * r - 51);
    LunarRemainder(r);
    var w := (r - 7) / 3;
    QuotientIs(b - q + 1, 3, 8 * q + w, (r - 7) % 3);
    QuotientIs(8 * b + 13, 25, 8 * q + w, (8 * r - 51) % 25);
  }

  lemma LunarRemainder(r: int)
    requires 0 <= r < 25
    ensures (r - 7) / 3 == (8 * r - 51) / 25
  {
  }

  /** h counts the days from 21 March to the full moon, before the exceptions. */
  lemma MoonByEpact(year: nat)
    ensures var t := Compute(year);
            PaschalMoon(year) == 21 + t.h - if t.h == 29 || (t.h == 28 && t.a > 10) then 1 else 0
  {
    var t := Compute(year);
    SolarTerm(t.b);
    LunarTerm(t.b);
    var moon := 19 * t.a + t.b - t.d - t.g + 15;
    var epact := 11 * (t.a + 1) + 20 + (t.g - 5) - (t.b - t.d - 12);
    assert epact == 11 * (year % 19 + 1) + 20 + ((8 * (year / 100 + 1) + 5) / 25 - 5)
                    - (3 * (year / 100 + 1) / 4 - 12);
    assert moon + epact == 30 * (t.a + 1) + 23;
    Complement(moon, epact, t.a + 1);
  }

  lemma Complement(x: int, y: int, n: int)
    requires x + y == 30 * n + 23
    ensures x % 30 == if y % 30 <= 23 then 23 - y % 30 else 53 - y % 30
  {
    var q, r := y / 30, y % 30;
    if r <= 23 {
      QuotientIs(x, 30, n - q, 23 - r);
    } else {
      QuotientIs(x, 30, n - q - 1, 53 - r);
    }
  }

  lemma MoonIsWithinAWeek(year: nat)
    ensures DayOfMarch(Compute(year)) - 7 <= PaschalMoon(year) < DayOfMarch(Compute(year))
  {
    var t := Compute(year);
    MoonByEpact(year);
    CorrectionTerm(t.a, t.h, t.l);
  }

  lemma NoOtherSunday(n: int, k: int)
    requires n % 7 == 0 && 0 < k < 7
    ensures (n - k) % 7 != 0
  {
  }

  /** For every year the computed date is the first Sunday strictly after the paschal full moon. */
  lemma EasterIsFirstSundayAfterMoon(year: nat)
    ensures var easter := DayOfMarch(Compute(year));
            && 21 <= PaschalMoon(year) < easter
            && (SpringDay(year, easter) + 6) % 7 == 0
            && forall p {:trigger SpringDay(year, p)} ::
                 PaschalMoon(year) < p < easter ==> (SpringDay(year, p) + 6) % 7 != 0
  {
    var easter := DayOfMarch(Compute(year));
    MoonIsWithinAWeek(year);
    SundayOfSpring(year);
    MoonNotBefore(year);
    forall p {:trigger SpringDay(year, p)} | PaschalMoon(year) < p < easter
      ensures (SpringDay(year, p) + 6) % 7 != 0
    {
      DaysApart(year, p, easter);
      NoOtherSunday(SpringDay(year, easter) + 6, easter - p);
    }
  }

  lemma MoonNotBefore(year: nat)
    ensures 21 <= PaschalMoon(year) <= 49
  {
    MoonByEpact(year);
  }

  lemma DaysApart(year: nat, p: int, q: int)
    ensures SpringDay(year, q) - SpringDay(year, p) == q - p
  {
    SpringDayIs(year, p);
    SpringDayIs(year, q);
  }
}
