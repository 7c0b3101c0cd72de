/** The proleptic Gregorian calendar: day numbers, dates, weekdays and their ISO texts. */
module Civil {
  import Text

  datatype Date = Date(y: nat, m: nat, d: nat)

  predicate Leap(y: nat) {
    y % 4 == 0 && (y % 100 != 0 || y % 400 == 0)
  }

  function DaysInMonth(y: nat, m: nat): nat {
    if m == 2 then if Leap(y) then 29 else 28
    else if m == 4 || m == 6 || m == 9 || m == 11 then 30 else 31
  }

  predicate Valid(date: Date) {
    1 <= date.y && 1 <= date.m <= 12 && 1 <= date.d <= DaysInMonth(date.y, date.m)
  }

  predicate Before(a: Date, b: Date) {
    a.y < b.y || (a.y == b.y && (a.m < b.m || (a.m == b.m && a.d < b.d)))
  }

  function NextDate(date: Date): (next: Date)
    requires Valid(date)
    ensures Valid(next) && Before(date, next)
  {
    if date.d < DaysInMonth(date.y, date.m) then date.(d := date.d + 1)
    else if date.m < 12 then Date(date.y, date.m + 1, 1)
    else Date(date.y + 1, 1, 1)
  }

  /** The date of day number n; day 0 is 1 January of year 1, a Monday. */
  function DateOf(n: nat): (date: Date)
    ensures Valid(date)
  {
    if n == 0 then Date(1, 1, 1) else NextDate(DateOf(n - 1))
  }

  /** Monday is 0. */
  function Weekday(n: nat): nat {
    n % 7
  }

  lemma {:induction false} LaterDaysLaterDates(a: nat, b: nat)
    requires a < b
    ensures Before(DateOf(a), DateOf(b))
    decreases b
  {
    if a < b - 1 {
      LaterDaysLaterDates(a, b - 1);
    }
  }

  lemma DayOrder(a: nat, b: nat)
    ensures a < b <==> Before(DateOf(a), DateOf(b))
    ensures a == b <==> DateOf(a) == DateOf(b)
  {
    if a < b {
      LaterDaysLaterDates(a, b);
    } else if b < a {
      LaterDaysLaterDates(b, a);
    }
  }

  /** Every valid date has a day number. */
  lemma {:induction false} DayOf(date: Date) returns (n: nat)
    requires Valid(date)
    ensures DateOf(n) == date
    decreases date.y, date.m, date.d
  {
    if date == Date(1, 1, 1) {
      n := 0;
    } else {
      var before := if date.d > 1 then date.(d := date.d - 1)
                    else if date.m > 1 then Date(date.y, date.m - 1, DaysInMonth(date.y, date.m - 1))
                    else Date(date.y - 1, 12, 31);
      assert NextDate(before) == date;
      n := DayOf(before);
      n := n + 1;
    }
  }

  // ---------------------------------------------------------------- ISO texts

  function DateText(date: Date): string {
    Text.Pad(date.y, 4) + "-" + Text.Pad(date.m, 2) + "-" + Text.Pad(date.d, 2)
  }

  /** Dates of four-digit years compare as ISO text exactly as they compare in time. */
  lemma DateTextOrder(a: Date, b: Date)
    requires Valid(a) && Valid(b) && a.y <= 9999 && b.y <= 9999
    ensures Text.TextLess(DateText(a), DateText(b)) <==> Before(a, b)
    ensures DateText(a) == DateText(b) <==> a == b
  {
    hide Text.TextLess, Text.Pad;
    FewDigits();
    Text.PadOrder(a.y, b.y, 4);
    Text.PadOrder(a.m, b.m, 2);
    Text.PadOrder(a.d, b.d, 2);
    ThreePartOrder(Text.Pad(a.y, 4), Text.Pad(b.y, 4), "-", Text.Pad(a.m, 2), Text.Pad(b.m, 2), Text.Pad(a.d, 2), Text.Pad(b.d, 2));
  }

  lemma FewDigits()
    ensures Text.Pow10(4) == 10000 && Text.Pow10(2) == 100
  {
  }

  lemma ThreePartOrder(ya: string, yb: string, mid: string, ma: string, mb: string, da: string, db: string)
    requires |ya| == |yb| && |ma| == |mb| && |da| == |db|
    ensures Text.TextLess(ya + mid + ma + mid + da, yb + mid + mb + mid + db)
            <==> Text.TextLess(ya, yb) || (ya == yb && (Text.TextLess(ma, mb) || (ma == mb && Text.TextLess(da, db))))
    ensures ya + mid + ma + mid + da == yb + mid + mb + mid + db <==> ya == yb && ma == mb && da == db
  {
    hide Text.TextLess;
    Text.JoinedOrder(ya + mid + ma, yb + mid + mb, mid, da, db);
    Text.JoinedOrder(ya, yb, mid, ma, mb);
    Text.JoinedSame(ya + mid + ma, yb + mid + mb, mid, da, db);
    Text.JoinedSame(ya, yb, mid, ma, mb);
  }
}
