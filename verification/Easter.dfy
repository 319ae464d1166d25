/** The date of Easter Sunday, against the Gregorian calendar and against Clavius' algorithm. */
module Easter {

  // ----- The computation -----

  /** The intermediate results, in the names of the computation. */
  datatype Computus = Computus(a: int, b: int, c: int, d: int, e: int, f: int, g: int, h: int, i: int, k: int,
                               L: int, m: int, month: int, day: int)

  function WeekOffset(e: int, i: int, h: int, k: int): int {
    (32 + 2 * e + 2 * i - h - k) % 7
  }

  function Compute(Y: int): Computus
    requires Y >= 0
  {
    var a := Y % 19;
    var b := Y / 100;
    var c := Y % 100;
    var d := b / 4;
    var e := b % 4;
    var f := (b + 8) / 25;
    var g := (b - f + 1) / 3;
    var h := (19 * a + b - d - g + 15) % 30;
    var i := c / 4;
    var k := c % 4;
    var L := WeekOffset(e, i, h, k);
    var m := (a + 11 * h + 22 * L) / 451;
    Computus(a, b, c, d, e, f, g, h, i, k, L, m, (h + L - 7 * m + 114) / 31, (h + L - 7 * m + 114) % 31 + 1)
  }

  /** Every dividend is nonnegative, so truncating and flooring division agree. */
  lemma DividendsAreNonnegative(Y: int)
    requires Y >= 0
    ensures var r := Compute(Y);
      && r.b - r.f + 1 >= 0
      && 19 * r.a + r.b - r.d - r.g + 15 >= 0
      && 32 + 2 * r.e + 2 * r.i - r.h - r.k >= 0
      && r.a + 11 * r.h + 22 * r.L >= 0
      && r.h + r.L - 7 * r.m + 114 >= 0
  {
    Correction(Y);
  }

  /** The correction by a week happens only for the latest full moons. */
  lemma Correction(Y: int)
    requires Y >= 0
    ensures var r := Compute(Y);
      && 0 <= r.a < 19 && 0 <= r.h < 30 && 0 <= r.L < 7
      && r.m == if r.L == 6 && (r.h == 29 || (r.h == 28 && r.a > 10)) then 1 else 0
  {
    var r := Compute(Y);
    var x := r.a + 11 * r.h + 22 * r.L;
    assert x < 902;
  }

  // ----- The calendar -----

  predicate Leap(y: int) {
    y % 4 == 0 && (y % 100 != 0 || y % 400 == 0)
  }

  /** Days since the day before Monday, 1 January of the year 1, of day `n` counted from the start of March. */
  function DayNumber(y: int, n: int): int {
    365 * (y - 1) + (y - 1) / 4 - (y - 1) / 100 + (y - 1) / 400
    + 31 + 28 + (if Leap(y) then 1 else 0) + n
  }

  predicate Sunday(y: int, n: int) {
    DayNumber(y, n) % 7 == 0
  }

  /** The day of the year's Easter, counted from the start of March. */
  function MarchDay(month: int, day: int): int {
    if month == 3 then day else day + 31
  }

  lemma LeapDays(y: int)
    ensures (y - 1) / 4 - (y - 1) / 100 + (y - 1) / 400 + (if Leap(y) then 1 else 0) == y / 4 - y / 100 + y / 400
  {
    Previous(y, 4);
    Previous(y, 100);
    Previous(y, 400);
    assert y % 400 == 0 ==> y % 100 == 0 by { Divisible(y, 4, 100); }
    assert y % 100 == 0 ==> y % 4 == 0 by { Divisible(y, 25, 4); }
  }

  lemma Previous(y: int, q: int)
    requires q == 4 || q == 100 || q == 400
    ensures (y - 1) / q == if y % q == 0 then y / q - 1 else y / q
  {
    if q == 4 {
    } else if q == 100 {
    } else {
    }
  }

  lemma Divisible(y: int, p: int, q: int)
    requires (p == 4 && q == 100) || (p == 25 && q == 4)
    ensures y % (p * q) == 0 ==> y % q == 0
  {
  }

  /** Easter lies between 22 March and 25 April, and the month and day name that day. */
  lemma DateInRange(Y: int)
    requires Y >= 0
    ensures var r := Compute(Y); var n := MarchDay(r.month, r.day);
      && ((r.month == 3 && 22 <= r.day <= 31) || (r.month == 4 && 1 <= r.day <= 25))
      && n == 22 + r.h + r.L - 7 * r.m
  {
    Correction(Y);
  }

  /** A year in terms of the parts the computation splits it into. */
  lemma YearParts(Y: int)
    requires Y >= 0
    ensures var r := Compute(Y);
      && Y == 400 * r.d + 100 * r.e + 4 * r.i + r.k
      && Y / 100 == 4 * r.d + r.e && Y / 4 == 100 * r.d + 25 * r.e + r.i && Y / 400 == r.d
      && 0 <= r.e < 4 && 0 <= r.i < 25 && 0 <= r.k < 4
  {
    var r := Compute(Y);
    assert Y == 100 * r.b + r.c && r.b == 4 * r.d + r.e && r.c == 4 * r.i + r.k;
    assert Y == 4 * (25 * r.b + r.i) + r.k;
    assert Y == 400 * r.d + (100 * r.e + r.c);
  }

  /** Easter is a Sunday. */
  lemma DateIsSunday(Y: int)
    requires Y >= 0
    ensures var r := Compute(Y); Sunday(Y, MarchDay(r.month, r.day))
  {
    DateInRange(Y);
    YearParts(Y);
    WeekdayPart(Y);
    hide Compute, MarchDay, DayNumber, Sunday;
    var r := Compute(Y);
    var q := (32 + 2 * r.e + 2 * r.i - r.h - r.k) / 7;
    var n := MarchDay(r.month, r.day);
    DayNumberFromParts(Y, r.d, r.e, r.i, r.k, n);
    WholeWeeks(Y, n, r.d, r.e, r.i, r.k, r.h, r.L, r.m, q);
  }

  lemma WeekdayPart(Y: int)
    requires Y >= 0
    ensures var r := Compute(Y); var x := 32 + 2 * r.e + 2 * r.i - r.h - r.k; x == 7 * (x / 7) + r.L
  {
    WeekdayIs(Y);
    hide Compute;
    var r := Compute(Y);
    WeekOffsetIs(r.e, r.i, r.h, r.k);
  }

  lemma WeekdayIs(Y: int)
    requires Y >= 0
    ensures var r := Compute(Y); r.L == WeekOffset(r.e, r.i, r.h, r.k)
  {
    hide WeekOffset;
  }

  lemma WeekOffsetIs(e: int, i: int, h: int, k: int)
    ensures var x := 32 + 2 * e + 2 * i - h - k; x == 7 * (x / 7) + WeekOffset(e, i, h, k)
  {
  }

  lemma WholeWeeks(Y: int, n: int, d: int, e: int, i: int, k: int, h: int, L: int, m: int, q: int)
    requires DayNumber(Y, n) == 146097 * d + 36524 * e + 1461 * i + 365 * k - 306 + n
    requires n == 22 + h + L - 7 * m && 32 + 2 * e + 2 * i - h - k == 7 * q + L
    ensures Sunday(Y, n)
  {
    hide DayNumber, Sunday;
    SevensAreSundays(20871 * d + 5218 * e + 209 * i + 52 * k - 36 - q - m, Y, n);
  }

  lemma SevensAreSundays(z: int, y: int, n: int)
    requires DayNumber(y, n) == 7 * z
    ensures Sunday(y, n)
  {
    hide DayNumber;
    Sevens(z, DayNumber(y, n));
  }

  lemma Sevens(z: int, x: int)
    requires x == 7 * z
    ensures x % 7 == 0
  {
  }

  lemma DayNumberFromParts(Y: int, d: int, e: int, i: int, k: int, n: int)
    requires Y == 400 * d + 100 * e + 4 * i + k
    requires Y / 100 == 4 * d + e && Y / 4 == 100 * d + 25 * e + i && Y / 400 == d
    ensures DayNumber(Y, n) == 146097 * d + 36524 * e + 1461 * i + 365 * k - 306 + n
  {
    LeapDays(Y);
  }

  // ----- The full moon -----

  /** The full moon, counted from the start of March: 21 + h, one day earlier for the two latest values. */
  function FullMoon(Y: int): int
    requires Y >= 0
  {
    var r := Compute(Y);
    if r.h == 29 || (r.h == 28 && r.a > 10) then 21 + r.h - 1 else 21 + r.h
  }

  /** Easter is the first Sunday strictly after the full moon. */
  lemma FirstSundayAfterFullMoon(Y: int)
    requires Y >= 0
    ensures var r := Compute(Y); var n := MarchDay(r.month, r.day);
      && FullMoon(Y) < n && Sunday(Y, n)
      && forall k | FullMoon(Y) < k < n :: !Sunday(Y, k)
  {
    var r := Compute(Y);
    var n := MarchDay(r.month, r.day);
    DateInRange(Y);
    Correction(Y);
    DateIsSunday(Y);
    forall k | FullMoon(Y) < k < n ensures !Sunday(Y, k) {
      SundaysAreWeeksApart(Y, k, n);
    }
  }

  lemma SundaysAreWeeksApart(y: int, k: int, n: int)
    requires Sunday(y, n) && n - 7 < k < n
    ensures !Sunday(y, k)
  {
    hide DayNumber;
    assert DayNumber(y, k) == DayNumber(y, n) - (n - k) by { Shifted(y, k, n); }
  }

  lemma Shifted(y: int, k: int, n: int)
    ensures DayNumber(y, k) == DayNumber(y, n) - (n - k)
  {
  }

  // ----- Clavius' algorithm -----

  /** The epact, with the corrections for the solar and lunar years of the century. */
  function Epact(Y: int): int
    requires Y >= 0
  {
    var golden := Y % 19 + 1;
    var century := Y / 100 + 1;
    var x := 3 * century / 4 - 12;
    var z := (8 * century + 5) / 25 - 5;
    var e := (11 * golden + 20 + z - x) % 30;
    if (e == 25 && golden > 11) || e == 24 then e + 1 else e
  }

  /** The full moon of the epact, counted from the start of March, on or after 21 March. */
  function ClaviusFullMoon(Y: int): int
    requires Y >= 0
  {
    var n := 44 - Epact(Y);
    if n < 21 then n + 30 else n
  }

  /** The day of March on which a Sunday falls is congruent to minus this number. */
  function ClaviusSundays(Y: int): int {
    5 * Y / 4 - (3 * (Y / 100 + 1) / 4 - 12) - 10
  }

  function NextSunday(d: int, n: int): (k: int)
    ensures n < k <= n + 7
  {
    n + 7 - (d + n) % 7
  }

  function ClaviusEaster(Y: int): int
    requires Y >= 0
  {
    NextSunday(ClaviusSundays(Y), ClaviusFullMoon(Y))
  }

  /** The century terms of the two algorithms. */
  lemma CenturyTerms(b: int)
    requires b >= 0
    ensures 3 * (b + 1) / 4 == b - b / 4
    ensures (8 * (b + 1) + 5) / 25 == (b - (b + 8) / 25 + 1) / 3
  {
    var u, v := b / 25, b % 25;
    assert b == 25 * u + v;
    assert (b + 8) / 25 == u + (v + 8) / 25;
    assert (8 * (b + 1) + 5) / 25 == 8 * u + (8 * v + 13) / 25;
    assert (b - (b + 8) / 25 + 1) / 3 == 8 * u + (v - (v + 8) / 25 + 1) / 3;
  }

  /** The two algorithms agree on the full moon in every year. */
  lemma FullMoonsAgree(Y: int)
    requires Y >= 0
    ensures FullMoon(Y) == ClaviusFullMoon(Y)
  {
    var r := Compute(Y);
    var century := Y / 100 + 1;
    var x, z := 3 * century / 4 - 12, (8 * century + 5) / 25 - 5;
    CenturyTerms(r.b);
    assert x == r.b - r.d - 12 && z == r.g - 5;
    var s := 19 * r.a + r.b - r.d - r.g + 15;
    var t := 11 * (r.a + 1) + 20 + z - x;
    assert r.h == s % 30;
    EpactIs(Y, t);
    Residues(s, t, r.a);
    MoonCases(r.a, r.h, t % 30);
    MoonIs(Y);
  }

  lemma EpactIs(Y: int, t: int)
    requires Y >= 0
    requires t == 11 * (Y % 19 + 1) + 20 + ((8 * (Y / 100 + 1) + 5) / 25 - 5) - (3 * (Y / 100 + 1) / 4 - 12)
    ensures Epact(Y) == CorrectedEpact(Y % 19, t % 30)
  {
  }

  function CorrectedEpact(a: int, e: int): int {
    if (e == 25 && a + 1 > 11) || e == 24 then e + 1 else e
  }

  lemma MoonIs(Y: int)
    requires Y >= 0
    ensures FullMoon(Y) == Moon(Y % 19, Compute(Y).h)
  {
  }

  function Moon(a: int, h: int): int {
    if h == 29 || (h == 28 && a > 10) then 21 + h - 1 else 21 + h
  }

  lemma MoonCases(a: int, h: int, e: int)
    requires 0 <= h < 30 && e == (23 - h) % 30
    ensures var n := 44 - CorrectedEpact(a, e); Moon(a, h) == if n < 21 then n + 30 else n
  {
    assert e == if h <= 23 then 23 - h else 53 - h;
  }

  lemma Residues(s: int, t: int, a: int)
    requires s + t == 30 * a + 53
    ensures t % 30 == (23 - s % 30) % 30
  {
    var p := s / 30;
    assert t == 30 * (a - p) + 53 - s % 30;
  }

  /** The day number in the terms of Clavius' algorithm, up to whole weeks. */
  lemma ClaviusDayNumber(Y: int, n: int)
    requires Y >= 0
    ensures DayNumber(Y, n) == ClaviusSundays(Y) + n + 7 * (52 * Y - 44)
  {
    LeapDays(Y);
    YearParts(Y);
    CenturyTerms(Y / 100);
    FiveQuarters(Y);
    ClaviusSum(Y, n, Y / 4, Y / 100, Y / 400);
  }

  lemma FiveQuarters(Y: int)
    ensures 5 * Y / 4 == Y + Y / 4
  {
  }

  lemma ClaviusSum(Y: int, n: int, y4: int, y100: int, y400: int)
    requires DayNumber(Y, n) == 365 * (Y - 1) + 59 + n + y4 - y100 + y400
    ensures DayNumber(Y, n) == (Y + y4) - (y100 - y400 - 12) - 10 + n + 7 * (52 * Y - 44)
  {
    hide DayNumber;
  }

  lemma NextMultiple(d: int, n: int, z: int, y: int)
    requires y == d + NextSunday(d, n) + 7 * z
    ensures y % 7 == 0
  {
    var x := d + n;
    assert y == 7 * (x / 7 + 1 + z);
  }

  lemma ClaviusIsNextSunday(Y: int)
    requires Y >= 0
    ensures Sunday(Y, ClaviusEaster(Y)) && FullMoon(Y) < ClaviusEaster(Y) <= FullMoon(Y) + 7
  {
    FullMoonsAgree(Y);
    hide FullMoon, ClaviusFullMoon, ClaviusSundays, NextSunday, DayNumber;
    ClaviusDayNumber(Y, ClaviusEaster(Y));
    NextMultiple(ClaviusSundays(Y), ClaviusFullMoon(Y), 52 * Y - 44, DayNumber(Y, ClaviusEaster(Y)));
  }

  /** And so they agree on the date. */
  lemma EqualsClavius(Y: int)
    requires Y >= 0
    ensures var r := Compute(Y); MarchDay(r.month, r.day) == ClaviusEaster(Y)
  {
    FirstSundayAfterFullMoon(Y);
    ClaviusIsNextSunday(Y);
    hide FullMoon, ClaviusEaster, Compute, Sunday;
    var r := Compute(Y);
    var n, c := MarchDay(r.month, r.day), ClaviusEaster(Y);
    if c > n {
      SundaysAreWeeksApart(Y, n, c);
    }
  }
}
