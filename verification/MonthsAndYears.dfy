/** Months, years and anniversaries: how long the ones a series visits are, and how they are spaced. */
module MonthsAndYears {
  import Civil
  import opened RecurrenceMeaning

  // ---------------------------------------------------------------- day numbers in closed form

  /** The leap years before year y. */
  function LeapsBefore(y: int): int {
    (y - 1) / 4 - (y - 1) / 100 + (y - 1) / 400
  }

  /** The day number of a date, counted by years, months and days. */
  function DayNumber(d: Civil.Date): int {
    365 * (d.y - 1) + LeapsBefore(d.y) + DaysBefore(d.y, d.m) + d.d - 1
  }

  lemma OneMoreYear(y: nat)
    requires y >= 1
    ensures LeapsBefore(y + 1) == LeapsBefore(y) + if Civil.Leap(y) then 1 else 0
  {
    Multiples(y, 4);
    Multiples(y, 100);
    Multiples(y, 400);
    hide Civil.Leap;
    LeapMultiples(y);
  }

  /** Years divisible by 4, less those divisible by 100, plus those divisible by 400. */
  lemma LeapMultiples(y: nat)
    ensures (if y % 4 == 0 then 1 else 0) - (if y % 100 == 0 then 1 else 0) + (if y % 400 == 0 then 1 else 0)
            == if Civil.Leap(y) then 1 else 0
  {
    if y % 100 == 0 {
      assert y == 4 * (25 * (y / 100));
      UniqueRemainder(y, 4, 25 * (y / 100), 0);
    }
    if y % 400 == 0 {
      assert y == 100 * (4 * (y / 400));
      UniqueRemainder(y, 100, 4 * (y / 400), 0);
    }
  }

  /** One more multiple of n up to y exactly if y is one. */
  lemma Multiples(y: nat, n: nat)
    requires y >= 1 && n in {4, 100, 400}
    ensures y / n - (y - 1) / n == if y % n == 0 then 1 else 0
  {
  }

  lemma MonthsOfYear(y: nat)
    ensures DaysBefore(y, 12) == if Civil.Leap(y) then 335 else 334
  {
    assert DaysBefore(y, 2) == 31;
    assert DaysBefore(y, 4) == DaysBefore(y, 3) + 31;
    assert DaysBefore(y, 6) == DaysBefore(y, 5) + 31 == DaysBefore(y, 4) + 61;
    assert DaysBefore(y, 8) == DaysBefore(y, 7) + 31 == DaysBefore(y, 6) + 61;
    assert DaysBefore(y, 10) == DaysBefore(y, 9) + 30 == DaysBefore(y, 8) + 61;
    assert DaysBefore(y, 12) == DaysBefore(y, 11) + 30 == DaysBefore(y, 10) + 61;
  }

  lemma NextDayNumber(d: Civil.Date)
    requires Civil.Valid(d)
    ensures DayNumber(Civil.NextDate(d)) == DayNumber(d) + 1
  {
    if d.d == Civil.DaysInMonth(d.y, d.m) && d.m == 12 {
      MonthsOfYear(d.y);
      OneMoreYear(d.y);
      assert DaysBefore(d.y + 1, 1) == 0;
      hide DaysBefore, LeapsBefore, Civil.Leap;
    }
  }

  /** The day-by-day calendar agrees with the closed form. */
  lemma {:induction false} DayNumberOf(n: nat)
    ensures DayNumber(Civil.DateOf(n)) == n
  {
    if n > 0 {
      DayNumberOf(n - 1);
      NextDayNumber(Civil.DateOf(n - 1));
    }
  }

  // ---------------------------------------------------------------- months

  /** Day n lies in a month the series visits, and that month is too short for the day. */
  predicate ShortMonth(day: int, interval: nat, start: nat, n: nat)
    requires interval >= 1
  {
    var s, d := Civil.DateOf(start), Civil.DateOf(n);
    n >= start && (MonthNumber(d) - MonthNumber(s)) % interval == 0 && MonthLength(d) < day
  }

  /** Day numbers and weekdays fit the calendar in use: 1 January 2024 was a Monday. */
  lemma FirstOf2024(n: nat)
    requires Civil.DateOf(n) == Civil.Date(2024, 1, 1)
    ensures n == 738885 && Civil.Weekday(n) == 0
  {
    DayNumberOf(n);
    hide Civil.DateOf;
  }

  /** The length of a month by its number. */
  function LengthOf(month: nat): nat
    requires month >= 1
  {
    Civil.DaysInMonth((month - 1) / 12, (month - 1) % 12 + 1)
  }

  lemma LengthOfMonth(d: Civil.Date)
    requires Civil.Valid(d)
    ensures MonthNumber(d) >= 1 && LengthOf(MonthNumber(d)) == MonthLength(d)
  {
    assert (MonthNumber(d) - 1) / 12 == d.y;
  }

  lemma LeapPeriod(y: nat, t: nat)
    ensures Civil.Leap(y + 400 * t) == Civil.Leap(y)
  {
    assert y + 400 * t == 100 * (4 * t) + y == 4 * (100 * t) + y;
    Shifted(y, 4 * t, 100);
    Shifted(y, 100 * t, 4);
    Shifted(y, t, 400);
  }

  lemma Shifted(a: int, q: int, n: nat)
    requires n >= 1
    ensures (n * q + a) % n == a % n
  {
    var r := a % n;
    assert n * q + a == n * (q + a / n) + r;
    UniqueRemainder(n * q + a, n, q + a / n, r);
  }

  lemma UniqueRemainder(a: int, n: nat, q: int, r: int)
    requires n >= 1 && 0 <= r < n && a == n * q + r
    ensures a % n == r
  {
    var x := a / n - q;
    assert n * x == r - a % n;
    assert x >= 1 ==> n * x >= n;
    assert x <= -1 ==> n * x <= n * -1;
  }

  /** The calendar repeats after 400 years. */
  lemma LengthPeriod(month: nat, t: nat)
    requires month >= 1
    ensures LengthOf(month + 4800 * t) == LengthOf(month)
  {
    LeapPeriod((month - 1) / 12, t);
    assert (month + 4800 * t - 1) == 12 * (400 * t) + (month - 1);
    assert (month + 4800 * t - 1) / 12 == 400 * t + (month - 1) / 12;
    assert (month + 4800 * t - 1) % 12 == (month - 1) % 12;
  }

  /** The months visited within 400 years are long enough; they can be checked before the call. */
  predicate LongMonths(day: int, interval: nat, start: nat) {
    forall i: nat | i < 4800 :: day <= LengthOf(VisitedMonth(interval, start, i))
  }

  function Product(a: nat, b: nat): nat {
    a * b
  }

  function VisitedMonth(interval: nat, start: nat, i: nat): (month: nat)
    ensures month >= 1
  {
    MonthNumber(Civil.DateOf(start)) + Product(interval, i)
  }

  /** Some day of the month with number `month`, if that month begins after start. */
  lemma DayInMonth(start: nat, month: nat) returns (n: nat)
    requires month > MonthNumber(Civil.DateOf(start))
    ensures n > start && MonthNumber(Civil.DateOf(n)) == month && Civil.DateOf(n).d == 1
  {
    var s := Civil.DateOf(start);
    var first := Civil.Date((month - 1) / 12, (month - 1) % 12 + 1, 1);
    n := Civil.DayOf(first);
    Civil.DayOrder(start, n);
    hide Civil.DateOf;
  }

  lemma LaterMonths(start: nat, n: nat)
    requires n >= start
    ensures MonthNumber(Civil.DateOf(n)) >= MonthNumber(Civil.DateOf(start))
  {
    Civil.DayOrder(start, n);
    hide Civil.DateOf;
  }

  lemma MultipleOf(interval: nat, q: int)
    requires interval >= 1
    ensures (interval * q) % interval == 0
  {
    Shifted(0, q, interval);
  }

  lemma Quotient(a: nat, interval: nat) returns (q: nat)
    requires interval >= 1 && a % interval == 0
    ensures a == interval * q
  {
    q := a / interval;
  }

  lemma VisitedAgain(interval: nat, start: nat, q: nat)
    ensures LengthOf(VisitedMonth(interval, start, q)) == LengthOf(VisitedMonth(interval, start, q % 4800))
  {
    var t := q / 4800;
    assert q == 4800 * t + q % 4800;
    assert interval * q == 4800 * (interval * t) + interval * (q % 4800) by {
      assert interval * (4800 * t + q % 4800) == interval * (4800 * t) + interval * (q % 4800);
      assert interval * (4800 * t) == 4800 * (interval * t);
    }
    LengthPeriod(VisitedMonth(interval, start, q % 4800), interval * t);
    hide LengthOf;
  }

  lemma ShortMeansShort(day: int, interval: nat, start: nat, n: nat)
    requires interval >= 1 && ShortMonth(day, interval, start, n)
    ensures !LongMonths(day, interval, start)
  {
    var s, d := Civil.DateOf(start), Civil.DateOf(n);
    LaterMonths(start, n);
    LengthOfMonth(d);
    var q := Quotient(MonthNumber(d) - MonthNumber(s), interval);
    assert VisitedMonth(interval, start, q) == MonthNumber(d);
    VisitedAgain(interval, start, q);
    var i: nat := q % 4800;
    hide LengthOf, VisitedMonth, MonthNumber, Civil.DateOf;
    assert i < 4800 && LengthOf(VisitedMonth(interval, start, i)) < day;
  }

  lemma LaterVisit(interval: nat, start: nat, i: nat)
    requires interval >= 1
    ensures (VisitedMonth(interval, start, i) - MonthNumber(Civil.DateOf(start))) % interval == 0
    ensures i > 0 ==> VisitedMonth(interval, start, i) > MonthNumber(Civil.DateOf(start))
  {
    MultipleOf(interval, i);
    assert i > 0 ==> interval * i >= 1;
  }

  lemma VisitedIsMet(day: int, interval: nat, start: nat, i: nat) returns (n: nat)
    requires interval >= 1 && LengthOf(VisitedMonth(interval, start, i)) < day
    ensures ShortMonth(day, interval, start, n)
  {
    var month := VisitedMonth(interval, start, i);
    LaterVisit(interval, start, i);
    assert i == 0 ==> month == MonthNumber(Civil.DateOf(start));
    hide LengthOf, VisitedMonth, MonthLength, MonthNumber, Civil.DateOf;
    if i == 0 {
      n := start;
    } else {
      n := DayInMonth(start, month);
    }
    LengthOfMonth(Civil.DateOf(n));
  }

  /** No visited month is too short exactly if the months visited within 400 years are not. */
  lemma LongMonthsIff(day: int, interval: nat, start: nat)
    requires interval >= 1
    ensures LongMonths(day, interval, start) <==> forall n: nat :: !ShortMonth(day, interval, start, n)
  {
    hide ShortMonth, LengthOf, VisitedMonth;
    if n: nat :| ShortMonth(day, interval, start, n) {
      ShortMeansShort(day, interval, start, n);
    }
    if i: nat :| i < 4800 && LengthOf(VisitedMonth(interval, start, i)) < day {
      var n := VisitedIsMet(day, interval, start, i);
    }
  }

  /** The last day of a month. */
  lemma LastDay(n: nat) returns (last: nat)
    ensures last >= n
    ensures var d := Civil.DateOf(n); Civil.DateOf(last) == Civil.Date(d.y, d.m, MonthLength(d))
  {
    var d := Civil.DateOf(n);
    last := Civil.DayOf(Civil.Date(d.y, d.m, MonthLength(d)));
    Civil.DayOrder(n, last);
    hide Civil.DateOf;
  }

  /**
   The month lengths of one common year do not decide: every 400 months from 29 February 2004 only leap
   Februaries, Junes and Octobers are visited.
   */
  lemma LeapFebruariesOnly(start: nat)
    requires Civil.DateOf(start) == Civil.Date(2004, 2, 29)
    ensures LongMonths(29, 400, start)
  {
    forall i: nat | i < 4800
      ensures 29 <= LengthOf(VisitedMonth(400, start, i))
    {
      LeapVisit(start, i / 3, i % 3);
    }
  }

  lemma LeapVisit(start: nat, t: nat, r: nat)
    requires Civil.DateOf(start) == Civil.Date(2004, 2, 29) && r < 3
    ensures 29 <= LengthOf(VisitedMonth(400, start, 3 * t + r))
  {
    var y := 2004 + 100 * t + (if r == 0 then 0 else if r == 1 then 33 else 66);
    var m := if r == 0 then 2 else if r == 1 then 6 else 10;
    LeapVisitNumber(start, t, r, y, m);
    LengthOfNumber(y, m);
    LongHere(t, m, y);
    hide VisitedMonth, LengthOf, Civil.DateOf, Civil.DaysInMonth;
  }

  lemma LeapVisitNumber(start: nat, t: nat, r: nat, y: nat, m: nat)
    requires Civil.DateOf(start) == Civil.Date(2004, 2, 29)
    requires (r, m, y) in {(0, 2, 2004 + 100 * t), (1, 6, 2037 + 100 * t), (2, 10, 2070 + 100 * t)}
    ensures VisitedMonth(400, start, 3 * t + r) == 12 * y + m
  {
    hide Civil.DateOf;
  }

  lemma LengthOfNumber(y: nat, m: nat)
    requires 1 <= m <= 12
    ensures LengthOf(12 * y + m) == Civil.DaysInMonth(y, m)
  {
    hide Civil.DaysInMonth;
    assert (12 * y + m - 1) / 12 == y;
  }

  lemma LongHere(t: nat, m: nat, y: nat)
    requires m in {6, 10} || (m == 2 && y == 2004 + 100 * t)
    ensures 29 <= Civil.DaysInMonth(y, m)
  {
    if m == 2 {
      assert y == 4 * (501 + 25 * t) && y == 100 * (20 + t) + 4;
      UniqueRemainder(y, 4, 501 + 25 * t, 0);
      UniqueRemainder(y, 100, 20 + t, 4);
    }
  }

  // ---------------------------------------------------------------- years

  /** Day n lies in the given month of a year the series visits, and that month is too short for the day. */
  predicate ShortYear(month: int, day: int, interval: nat, start: nat, n: nat)
    requires interval >= 1
  {
    var s, d := Civil.DateOf(start), Civil.DateOf(n);
    n >= start && (d.y - s.y) % interval == 0 && d.m == month && MonthLength(d) < day
  }

  /** The month is long enough in the years visited within 400 years. */
  predicate LongYears(month: nat, day: int, interval: nat, start: nat) {
    forall i: nat | 1 <= i <= 400 :: day <= Civil.DaysInMonth(VisitedYear(interval, start, i), month)
  }

  function VisitedYear(interval: nat, start: nat, i: nat): nat {
    Civil.DateOf(start).y + Product(interval, i)
  }

  lemma VisitedYearAgain(interval: nat, start: nat, q: nat, month: nat)
    ensures var i := if q % 400 == 0 then 400 else q % 400;
            Civil.DaysInMonth(VisitedYear(interval, start, q), month) == Civil.DaysInMonth(VisitedYear(interval, start, i), month)
  {
    var y := Civil.DateOf(start).y;
    var t := q / 400;
    assert q == 400 * t + q % 400;
    assert interval * q == 400 * (interval * t) + interval * (q % 400) by {
      assert interval * (400 * t + q % 400) == interval * (400 * t) + interval * (q % 400);
      assert interval * (400 * t) == 400 * (interval * t);
    }
    LeapPeriod(y + interval * (q % 400), interval * t);
    LeapPeriod(y, interval);
    assert interval * 400 == 400 * interval;
    hide Civil.Leap;
  }

  lemma ShortYearMeansShort(month: nat, day: int, interval: nat, start: nat, n: nat)
    requires interval >= 1 && ShortYear(month, day, interval, start, n)
    ensures !LongYears(month, day, interval, start)
  {
    var s, d := Civil.DateOf(start), Civil.DateOf(n);
    Civil.DayOrder(start, n);
    var q := Quotient(d.y - s.y, interval);
    assert VisitedYear(interval, start, q) == d.y;
    VisitedYearAgain(interval, start, q, month);
    var i: nat := if q % 400 == 0 then 400 else q % 400;
    hide VisitedYear, Civil.DateOf, Civil.DaysInMonth;
    assert 1 <= i <= 400 && Civil.DaysInMonth(VisitedYear(interval, start, i), month) < day;
  }

  lemma VisitedYearIsMet(month: nat, day: int, interval: nat, start: nat, i: nat) returns (n: nat)
    requires interval >= 1 && 1 <= month <= 12 && i >= 1
    requires Civil.DaysInMonth(VisitedYear(interval, start, i), month) < day
    ensures ShortYear(month, day, interval, start, n)
  {
    hide Civil.DateOf, Civil.Leap, Product, ShortYear;
    ProductStep(interval, i);
    n := Civil.DayOf(Civil.Date(VisitedYear(interval, start, i), month, 1));
    Civil.DayOrder(start, n);
    InVisitedYear(month, day, interval, start, i, n);
  }

  lemma InVisitedYear(month: nat, day: int, interval: nat, start: nat, i: nat, n: nat)
    requires interval >= 1 && i >= 1 && n >= start
    requires Civil.DateOf(n) == Civil.Date(VisitedYear(interval, start, i), month, 1)
    requires Civil.DaysInMonth(VisitedYear(interval, start, i), month) < day
    ensures ShortYear(month, day, interval, start, n)
  {
    hide Civil.DateOf, Civil.DaysInMonth, Product;
    ProductStep(interval, i);
    assert VisitedYear(interval, start, i) - Civil.DateOf(start).y == Product(interval, i);
  }

  lemma ProductStep(interval: nat, i: nat)
    requires interval >= 1 && i >= 1
    ensures Product(interval, i) >= 1 && Product(interval, i) % interval == 0
  {
    MultipleOf(interval, i);
    assert interval * i >= interval * 1;
  }

  lemma LongYearsIff(month: nat, day: int, interval: nat, start: nat)
    requires interval >= 1 && 1 <= month <= 12
    ensures LongYears(month, day, interval, start) <==> forall n: nat :: !ShortYear(month, day, interval, start, n)
  {
    hide ShortYear, VisitedYear, Civil.DaysInMonth;
    if n: nat :| ShortYear(month, day, interval, start, n) {
      ShortYearMeansShort(month, day, interval, start, n);
    }
    if i: nat :| 1 <= i <= 400 && Civil.DaysInMonth(VisitedYear(interval, start, i), month) < day {
      var n := VisitedYearIsMet(month, day, interval, start, i);
    }
  }

  // ---------------------------------------------------------------- anniversaries

  lemma {:induction false} DaysBeforeIn(y: nat, m: nat)
    ensures DaysBefore(y, m) == DaysBefore(1, m) + if m > 2 && Civil.Leap(y) then 1 else 0
  {
    if m > 1 {
      DaysBeforeIn(y, m - 1);
    }
  }

  /** The anniversary of a date in year y, on the last day of the month if the day does not exist. */
  function Anniversary(d: Civil.Date, y: nat): Civil.Date {
    Civil.Date(y, d.m, if d.d <= Civil.DaysInMonth(y, d.m) then d.d else Civil.DaysInMonth(y, d.m))
  }

  lemma TwoYears(y: nat)
    ensures !(Civil.Leap(y) && Civil.Leap(y + 1))
  {
  }

  lemma AnniversaryGap(d: Civil.Date, y: nat)
    requires Civil.Valid(d) && y >= 1
    ensures DayNumber(Anniversary(d, y + 1)) - DayNumber(Anniversary(d, y)) in {365, 366}
  {
    DaysBeforeIn(y, d.m);
    DaysBeforeIn(y + 1, d.m);
    OneMoreYear(y);
    TwoYears(y);
    hide DaysBefore, LeapsBefore, Civil.Leap;
  }

  lemma FourYears(y: nat)
    requires y >= 4 && y % 400 == 4
    ensures !Civil.Leap(y - 1) && Civil.Leap(y) && !Civil.Leap(y + 1) && !Civil.Leap(y + 2)
  {
  }

  /** From the year before a leap year to the second after it there is exactly one leap day. */
  lemma ThreeGaps(d: Civil.Date, y: nat)
    requires Civil.Valid(d) && y >= 4 && y % 400 == 4
    ensures DayNumber(Anniversary(d, y + 2)) - DayNumber(Anniversary(d, y - 1)) == 1096
  {
    DaysBeforeIn(y - 1, d.m);
    DaysBeforeIn(y + 2, d.m);
    FourYears(y);
    OneMoreYear(y - 1);
    OneMoreYear(y);
    OneMoreYear(y + 1);
    hide DaysBefore, LeapsBefore, Civil.Leap;
  }

  /** The day of an anniversary. */
  lemma DayOfAnniversary(start: nat, y: nat) returns (n: nat)
    requires y >= Civil.DateOf(start).y
    ensures n >= start && Civil.DateOf(n) == Anniversary(Civil.DateOf(start), y) && n == DayNumber(Anniversary(Civil.DateOf(start), y))
    ensures SeriesHit(YearDay(1, Civil.DateOf(start).m, Civil.DateOf(start).d), start, n)
  {
    var s := Civil.DateOf(start);
    n := Civil.DayOf(Anniversary(s, y));
    Civil.DayOrder(start, n);
    DayNumberOf(n);
    hide Civil.DateOf, DayNumber;
  }

  lemma Difference(a: int, b: int, k: nat)
    requires k >= 1 && a % k == 0 && b % k == 0
    ensures (a - b) % k == 0
  {
    assert a == k * (a / k) && b == k * (b / k);
    assert a - b == k * (a / k - b / k);
    MultipleOf(k, a / k - b / k);
  }

  lemma NotBothGaps(g1: int, g2: int, g3: int, k: nat)
    requires k >= 2 && g1 in {365, 366} && g2 in {365, 366} && g3 in {365, 366} && g1 + g2 + g3 == 1096
    ensures !(g1 % k == 0 && g2 % k == 0 && g3 % k == 0)
  {
    if g1 % k == 0 && g2 % k == 0 && g3 % k == 0 {
      var long, short := if g1 == 366 then g1 else if g2 == 366 then g2 else g3, if g1 == 365 then g1 else g2;
      Difference(long, short, k);
    }
  }

  /** No interval of two days or more meets all anniversaries. */
  lemma MissedAnniversary(start: nat, k: nat) returns (n: nat)
    requires k >= 2
    ensures n >= start && (n - start) % k != 0
    ensures SeriesHit(YearDay(1, Civil.DateOf(start).m, Civil.DateOf(start).d), start, n)
  {
    hide DayNumber, Anniversary, SeriesHit, Civil.DateOf;
    var y := 400 * Civil.DateOf(start).y + 4;
    var n0 := DayOfAnniversary(start, y - 1);
    var n1 := DayOfAnniversary(start, y);
    var n2 := DayOfAnniversary(start, y + 1);
    var n3 := DayOfAnniversary(start, y + 2);
    GapsOf(start, y, k, n0, n1, n2, n3);
    n := OneMisses(start, k, n0, n1, n2, n3);
  }

  lemma GapsOf(start: nat, y: nat, k: nat, n0: nat, n1: nat, n2: nat, n3: nat)
    requires k >= 2 && y == 400 * Civil.DateOf(start).y + 4
    requires n0 == DayNumber(Anniversary(Civil.DateOf(start), y - 1)) && n1 == DayNumber(Anniversary(Civil.DateOf(start), y))
    requires n2 == DayNumber(Anniversary(Civil.DateOf(start), y + 1)) && n3 == DayNumber(Anniversary(Civil.DateOf(start), y + 2))
    ensures !((n1 - n0) % k == 0 && (n2 - n1) % k == 0 && (n3 - n2) % k == 0)
  {
    var s := Civil.DateOf(start);
    hide DayNumber, Anniversary, Civil.DateOf, Civil.Valid;
    AnniversaryGap(s, y - 1);
    AnniversaryGap(s, y);
    AnniversaryGap(s, y + 1);
    ThreeGaps(s, y);
    NotBothGaps(n1 - n0, n2 - n1, n3 - n2, k);
  }

  lemma OneMisses(start: nat, k: nat, n0: nat, n1: nat, n2: nat, n3: nat) returns (n: nat)
    requires k >= 1 && !((n1 - n0) % k == 0 && (n2 - n1) % k == 0 && (n3 - n2) % k == 0)
    ensures n in {n0, n1, n2, n3} && (n - start) % k != 0
  {
    n := if (n0 - start) % k != 0 then n0 else if (n1 - start) % k != 0 then n1 else if (n2 - start) % k != 0 then n2 else n3;
    if (n - start) % k == 0 {
      Difference(n1 - start, n0 - start, k);
      Difference(n2 - start, n1 - start, k);
      Difference(n3 - start, n2 - start, k);
    }
  }

  // ---------------------------------------------------------------- weekdays in a month

  lemma {:induction false} WithinMonth(n: nat, i: nat)
    requires Civil.DateOf(n).d == 1 && i < 28
    ensures Civil.DateOf(n + i) == Civil.DateOf(n).(d := 1 + i)
  {
    if i > 0 {
      WithinMonth(n, i - 1);
    }
  }

  /** A later month holds any weekday twice, a week apart. */
  lemma TwiceInMonth(start: nat, month: nat, w: nat) returns (n: nat)
    requires month > MonthNumber(Civil.DateOf(start)) && w < 7
    ensures n > start && Civil.Weekday(n) == w && Civil.Weekday(n + 7) == w
    ensures MonthNumber(Civil.DateOf(n)) == month && Civil.DateOf(n + 7) == Civil.DateOf(n).(d := Civil.DateOf(n).d + 7)
  {
    var first := DayInMonth(start, month);
    var i := WeekdayAhead(first, w);
    n := first + i;
    hide Civil.DateOf, Civil.Weekday, MonthNumber, Civil.Valid, Civil.DaysInMonth;
    WithinMonth(first, i);
    WithinMonth(first, i + 7);
    SameMonthNumber(Civil.DateOf(first), 1 + i);
  }

  lemma SameMonthNumber(date: Civil.Date, d: nat)
    ensures MonthNumber(date.(d := d)) == MonthNumber(date)
  {
  }

  lemma WeekdayAhead(first: nat, w: nat) returns (i: nat)
    requires w < 7
    ensures i < 7 && Civil.Weekday(first + i) == w && Civil.Weekday(first + i + 7) == w
  {
    i := (w + 7 - first % 7) % 7;
  }
}
