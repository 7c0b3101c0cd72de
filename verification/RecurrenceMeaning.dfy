/**
 The days a recurrence denotes: once as the rule text is read under section 3.3.10 of RFC 5545, and
 once as Exchange reads its own patterns. Days are day numbers; times of day play no part.
 */
module RecurrenceMeaning {
  import opened Basics
  import Civil
  import opened RuleText
  import opened Text

  // ---------------------------------------------------------------- how a series ends

  datatype Limit = Forever | Until(last: Civil.Date) | Times(n: int)

  /** The number of days from lo to hi that are hit. */
  ghost function Hits(hit: nat -> bool, lo: nat, hi: nat): nat
    decreases hi
  {
    if hi < lo then 0 else (if hit(hi) then 1 else 0) + if hi == 0 then 0 else Hits(hit, lo, hi - 1)
  }

  ghost predicate Within(limit: Limit, hit: nat -> bool, start: nat, n: nat) {
    match limit
    case Forever => true
    case Until(last) => !Civil.Before(last, Civil.DateOf(n))
    case Times(k) => Hits(hit, start, n) <= k
  }

  /** The days of a series: those it hits from its start on, while it lasts. */
  ghost predicate OnDay(hit: nat -> bool, limit: Limit, start: nat, n: nat) {
    n >= start && hit(n) && Within(limit, hit, start, n)
  }

  lemma {:induction false} SameHits(a: nat -> bool, b: nat -> bool, lo: nat, hi: nat)
    requires forall n | n >= lo :: a(n) == b(n)
    ensures Hits(a, lo, hi) == Hits(b, lo, hi)
    decreases hi
  {
    if hi >= lo && hi > 0 {
      SameHits(a, b, lo, hi - 1);
    }
  }

  lemma SameDays(a: nat -> bool, b: nat -> bool, limit: Limit, start: nat)
    requires forall n | n >= start :: a(n) == b(n)
    ensures forall n :: OnDay(a, limit, start, n) <==> OnDay(b, limit, start, n)
  {
    forall n: nat
      ensures OnDay(a, limit, start, n) <==> OnDay(b, limit, start, n)
    {
      SameHits(a, b, start, n);
    }
  }

  // ---------------------------------------------------------------- rules of RFC 5545

  datatype Freq = Daily | Weekly | Monthly | Yearly

  /** An ordinal of 0 means every such weekday; an empty list means the part is absent. */
  datatype Rule = Rule(freq: Freq, interval: nat, bymonth: seq<int>, bymonthday: seq<int>, byday: seq<(int, nat)>, limit: Limit)

  function CodeNumber(code: string): Option<nat> {
    if code == "MO" then Some(0)
    else if code == "TU" then Some(1)
    else if code == "WE" then Some(2)
    else if code == "TH" then Some(3)
    else if code == "FR" then Some(4)
    else if code == "SA" then Some(5)
    else if code == "SU" then Some(6)
    else None
  }

  function ReadFreq(name: Option<string>): Option<Freq> {
    if name == Some("DAILY") then Some(Daily)
    else if name == Some("WEEKLY") then Some(Weekly)
    else if name == Some("MONTHLY") then Some(Monthly)
    else if name == Some("YEARLY") then Some(Yearly)
    else None
  }

  /** [[+/-] number] weekday */
  function ReadWeekday(part: string): Option<(int, nat)> {
    if |part| < 2 then None else
    var ordinal := if |part| == 2 then Ok(0) else ParseInt(part[..|part| - 2]);
    var wd := CodeNumber(part[|part| - 2..]);
    if ordinal.Ok? && wd.Some? then Some((ordinal.value, wd.value)) else None
  }

  function ReadWeekdays(parts: seq<string>): Option<seq<(int, nat)>> {
    if parts == [] then Some([]) else
    var first, rest := ReadWeekday(parts[0]), ReadWeekdays(parts[1..]);
    if first.Some? && rest.Some? then Some([first.value] + rest.value) else None
  }

  function ReadNumbers(parts: seq<string>): Option<seq<int>> {
    if parts == [] then Some([]) else
    var first, rest := ParseInt(parts[0]), ReadNumbers(parts[1..]);
    if first.Ok? && rest.Some? then Some([first.value] + rest.value) else None
  }

  function NumbersOf(value: Option<string>): Option<seq<int>> {
    if value.Some? then ReadNumbers(Split(value.value, ',')) else Some([])
  }

  function WeekdaysOf(value: Option<string>): Option<seq<(int, nat)>> {
    if value.Some? then ReadWeekdays(Split(value.value, ',')) else Some([])
  }

  /** A date, or the date of a date with time. */
  function ReadDate(value: string): Option<Civil.Date> {
    if |value| >= 8 && AllDigits(value[..8]) && (|value| == 8 || value[8] == 'T') then
      Some(Civil.Date(Value(value[..4]), Value(value[4..6]), Value(value[6..8])))
    else None
  }

  /** UNTIL and COUNT must not occur together. */
  function ReadLimit(f: Fields): Option<Limit> {
    if f.until.Some? && f.count.Some? then None
    else if f.until.Some? then
      var last := ReadDate(f.until.value);
      if last.Some? then Some(Until(last.value)) else None
    else if f.count.Some? then
      var n := ParseInt(f.count.value);
      if n.Ok? then Some(Times(n.value)) else None
    else Some(Forever)
  }

  function ReadInterval(value: Option<string>): Option<nat> {
    if value.None? then Some(1) else
    var k := ParseInt(value.value);
    if k.Ok? && k.value >= 1 then Some(k.value) else None
  }

  function RuleOf(f: Fields): Option<Rule> {
    var freq, interval, limit := ReadFreq(f.freq), ReadInterval(f.interval), ReadLimit(f);
    var months, days, weekdays := NumbersOf(f.bymonth), NumbersOf(f.bymonthday), WeekdaysOf(f.byday);
    if freq.Some? && interval.Some? && limit.Some? && months.Some? && days.Some? && weekdays.Some? then
      Some(Rule(freq.value, interval.value, months.value, days.value, weekdays.value, limit.value))
    else None
  }

  function ReadRule(text: string): Option<Rule> {
    RuleOf(FieldsOf(Props(text)))
  }

  // ---------------------------------------------------------------- the days of a rule

  function MonthNumber(d: Civil.Date): nat {
    d.y * 12 + d.m
  }

  function MonthLength(d: Civil.Date): nat {
    Civil.DaysInMonth(d.y, d.m)
  }

  /** How many days of the same weekday the first d days hold, counting back from day d. */
  function Upto(d: nat): nat {
    if d <= 7 then 1 else 1 + Upto(d - 7)
  }

  /** How many days of the same weekday there are from day d to the last one. */
  function Onwards(d: nat, last: nat): nat
    decreases last - d
  {
    if d + 7 > last then 1 else 1 + Onwards(d + 7, last)
  }

  /** Weekday w, and the k-th or last-but-k-th of its kind among days 1..last, of which n is day d. */
  predicate IsOrdinal(n: nat, d: nat, last: nat, entry: (int, nat)) {
    && Civil.Weekday(n) == entry.1
    && (entry.0 == 0 || entry.0 == Upto(d) || entry.0 + Onwards(d, last) == 0)
  }

  function DaysBefore(y: nat, m: nat): nat {
    if m <= 1 then 0 else DaysBefore(y, m - 1) + Civil.DaysInMonth(y, m - 1)
  }

  predicate MonthHit(rule: Rule, d: Civil.Date) {
    rule.bymonth == [] || d.m in rule.bymonth
  }

  predicate MonthDayHit(rule: Rule, d: Civil.Date) {
    d.d in rule.bymonthday || d.d - MonthLength(d) - 1 in rule.bymonthday
  }

  predicate WeekdayHit(rule: Rule, n: nat) {
    (0, Civil.Weekday(n)) in rule.byday
  }

  predicate MonthOrdinalHit(rule: Rule, n: nat, d: Civil.Date) {
    exists i | 0 <= i < |rule.byday| :: IsOrdinal(n, d.d, MonthLength(d), rule.byday[i])
  }

  predicate YearOrdinalHit(rule: Rule, n: nat, d: Civil.Date) {
    exists i | 0 <= i < |rule.byday| ::
      IsOrdinal(n, DaysBefore(d.y, d.m) + d.d, if Civil.Leap(d.y) then 366 else 365, rule.byday[i])
  }

  /** The interval counts days, weeks beginning on Monday, months or years from the start. */
  predicate IntervalHit(rule: Rule, start: nat, n: nat)
    requires rule.interval >= 1
  {
    var s, d := Civil.DateOf(start), Civil.DateOf(n);
    match rule.freq
    case Daily => (n - start) % rule.interval == 0
    case Weekly => (n / 7 - start / 7) % rule.interval == 0
    case Monthly => (MonthNumber(d) - MonthNumber(s)) % rule.interval == 0
    case Yearly => (d.y - s.y) % rule.interval == 0
  }

  /** Which days of a period the BY parts keep or expand to; without any, those of the start. */
  predicate PartsHit(rule: Rule, start: nat, n: nat) {
    var s, d := Civil.DateOf(start), Civil.DateOf(n);
    match rule.freq
    case Daily =>
      MonthHit(rule, d) && (rule.bymonthday == [] || MonthDayHit(rule, d)) && (rule.byday == [] || WeekdayHit(rule, n))
    case Weekly =>
      MonthHit(rule, d) && if rule.byday == [] then Civil.Weekday(n) == Civil.Weekday(start) else WeekdayHit(rule, n)
    case Monthly =>
      MonthHit(rule, d)
      && if rule.bymonthday == [] && rule.byday == [] then d.d == s.d
         else (rule.bymonthday == [] || MonthDayHit(rule, d)) && (rule.byday == [] || MonthOrdinalHit(rule, n, d))
    case Yearly =>
      if rule.bymonthday == [] && rule.byday == [] then
        d.d == s.d && if rule.bymonth == [] then d.m == s.m else MonthHit(rule, d)
      else if rule.bymonthday != [] then
        MonthHit(rule, d) && MonthDayHit(rule, d) && (rule.byday == [] || WeekdayHit(rule, n))
      else if rule.bymonth != [] then MonthHit(rule, d) && MonthOrdinalHit(rule, n, d)
      else YearOrdinalHit(rule, n, d)
  }

  predicate RuleHit(rule: Rule, start: nat, n: nat) {
    rule.interval >= 1 && IntervalHit(rule, start, n) && PartsHit(rule, start, n)
  }

  ghost function RuleHits(rule: Rule, start: nat): nat -> bool {
    (m: nat) => RuleHit(rule, start, m)
  }

  ghost predicate RuleDay(rule: Rule, start: nat, n: nat) {
    OnDay(RuleHits(rule, start), rule.limit, start, n)
  }

  // ---------------------------------------------------------------- the days of an Exchange series

  datatype Series =
    | EveryDays(interval: nat)
    | EveryWeeks(interval: nat, weekdays: seq<nat>, firstDay: nat)
    | MonthDay(interval: nat, day: int)
    | YearDay(interval: nat, month: int, day: int)
    | MonthWeekday(interval: nat, index: int, weekday: nat)
    | YearWeekday(interval: nat, month: int, index: int, weekday: nat)

  /** Weeks begin on the first day of the week the pattern names. */
  function WeekOf(n: nat, firstDay: nat): nat
    requires firstDay < 7
  {
    (n + 7 - firstDay) / 7
  }

  /** A day beyond the end of a month means its last day. */
  function Clamped(day: int, d: Civil.Date): int {
    if day <= MonthLength(d) then day else MonthLength(d)
  }

  /** The first to fourth week of days of a month, or its last one for -1. */
  predicate InIndex(index: int, d: Civil.Date) {
    if index == -1 then d.d + 7 > MonthLength(d) else (index - 1) * 7 < d.d <= index * 7
  }

  predicate SeriesHit(series: Series, start: nat, n: nat) {
    var s, d := Civil.DateOf(start), Civil.DateOf(n);
    && series.interval >= 1
    && match series
       case EveryDays(k) => (n - start) % k == 0
       case EveryWeeks(k, weekdays, first) =>
         first < 7 && (WeekOf(n, first) - WeekOf(start, first)) % k == 0 && Civil.Weekday(n) in weekdays
       case MonthDay(k, day) => (MonthNumber(d) - MonthNumber(s)) % k == 0 && d.d == Clamped(day, d)
       case YearDay(k, month, day) => (d.y - s.y) % k == 0 && d.m == month && d.d == Clamped(day, d)
       case MonthWeekday(k, index, weekday) =>
         (MonthNumber(d) - MonthNumber(s)) % k == 0 && Civil.Weekday(n) == weekday && InIndex(index, d)
       case YearWeekday(k, month, index, weekday) =>
         (d.y - s.y) % k == 0 && d.m == month && Civil.Weekday(n) == weekday && InIndex(index, d)
  }

  ghost function SeriesHits(series: Series, start: nat): nat -> bool {
    (m: nat) => SeriesHit(series, start, m)
  }

  ghost predicate SeriesDay(series: Series, limit: Limit, start: nat, n: nat) {
    OnDay(SeriesHits(series, start), limit, start, n)
  }

  /** The text and the series denote the same days. */
  ghost predicate SameSeries(text: string, series: Series, limit: Limit, start: nat) {
    var rule := ReadRule(text);
    rule.Some? && forall n :: RuleDay(rule.value, start, n) <==> SeriesDay(series, limit, start, n)
  }

  /** Equal hits and equal limits make equal series. */
  lemma SameHitsSameSeries(text: string, series: Series, limit: Limit, start: nat)
    requires ReadRule(text).Some? && ReadRule(text).value.limit == limit
    requires forall n: nat | n >= start :: RuleHit(ReadRule(text).value, start, n) <==> SeriesHit(series, start, n)
    ensures SameSeries(text, series, limit, start)
  {
    hide ReadRule, RuleHit, SeriesHit;
    var rule := ReadRule(text).value;
    SameDays(RuleHits(rule, start), SeriesHits(series, start), limit, start);
  }

  /** One day of difference separates two endless series. */
  lemma DifferentSeries(text: string, series: Series, start: nat, n: nat)
    requires ReadRule(text).Some? && ReadRule(text).value.limit == Forever && n >= start
    requires RuleHit(ReadRule(text).value, start, n) != SeriesHit(series, start, n)
    ensures !SameSeries(text, series, Forever, start)
  {
    hide ReadRule, RuleHit, SeriesHit;
    var rule := ReadRule(text).value;
    assert RuleDay(rule, start, n) != SeriesDay(series, Forever, start, n);
  }

  /** Which days a rule hits does not depend on where it ends. */
  lemma LimitIrrelevant(rule: Rule, start: nat, n: nat)
    ensures RuleHit(rule.(limit := Forever), start, n) == RuleHit(rule, start, n)
  {
    hide Civil.DateOf, IsOrdinal;
    var d := Civil.DateOf(n);
    assert MonthOrdinalHit(rule.(limit := Forever), n, d) == MonthOrdinalHit(rule, n, d);
    assert YearOrdinalHit(rule.(limit := Forever), n, d) == YearOrdinalHit(rule, n, d);
  }

  // ---------------------------------------------------------------- ordinals

  lemma {:induction false} UptoIsWeek(d: nat)
    requires d >= 1
    ensures (Upto(d) - 1) * 7 < d <= Upto(d) * 7
  {
    if d > 7 {
      UptoIsWeek(d - 7);
    }
  }

  lemma {:induction false} OnwardsPositive(d: nat, last: nat)
    ensures Onwards(d, last) >= 1 && (Onwards(d, last) == 1 <==> d + 7 > last)
    decreases last - d
  {
    if d + 7 <= last {
      OnwardsPositive(d + 7, last);
    }
  }

  /** The index of an Exchange pattern names the same day as the ordinal of the rule. */
  lemma IndexIsOrdinal(n: nat, index: int, weekday: nat)
    requires 1 <= index <= 4 || index == -1
    ensures var d := Civil.DateOf(n);
            IsOrdinal(n, d.d, MonthLength(d), (index, weekday)) <==> Civil.Weekday(n) == weekday && InIndex(index, d)
  {
    var d := Civil.DateOf(n);
    UptoIsWeek(d.d);
    OnwardsPositive(d.d, MonthLength(d));
  }

  // ---------------------------------------------------------------- reading printed values

  /** The date a printed UNTIL names is the date that was printed. */
  lemma UntilReads(s: string)
    requires DateShape(s)
    ensures ReadDate(Without(s, '-') + "T235959Z") == Some(Civil.Date(Value(s[..4]), Value(s[5..7]), Value(s[8..])))
  {
    WithoutDashes(s);
    var text := DateDigits(s) + "T235959Z";
    assert text[..4] == s[..4] && text[4..6] == s[5..7] && text[6..8] == s[8..] && text[..8] == DateDigits(s);
  }

  lemma {:induction false} WeekdaysAre(parts: seq<string>, entries: seq<(int, nat)>)
    requires |parts| == |entries| && forall i | 0 <= i < |parts| :: ReadWeekday(parts[i]) == Some(entries[i])
    ensures ReadWeekdays(parts) == Some(entries)
  {
    hide ReadWeekday;
    if parts != [] {
      WeekdaysAre(parts[1..], entries[1..]);
      assert entries == [entries[0]] + entries[1..];
    }
  }

  // ---------------------------------------------------------------- weekdays and weeks

  /** Weekdays without ordinals. */
  function Plainly(numbers: seq<nat>): seq<(int, nat)> {
    seq(|numbers|, i requires 0 <= i < |numbers| => (0, numbers[i]))
  }

  lemma InWeekdays(numbers: seq<nat>, w: nat)
    ensures (0, w) in Plainly(numbers) <==> w in numbers
  {
    if w in numbers {
      var i :| 0 <= i < |numbers| && numbers[i] == w;
      assert Plainly(numbers)[i] == (0, w);
    }
  }

  /** Counted from another day, the week of a day from that day on is one further. */
  lemma WeekIs(n: nat, firstDay: nat)
    requires firstDay < 7
    ensures WeekOf(n, firstDay) == n / 7 + if Civil.Weekday(n) >= firstDay then 1 else 0
  {
  }

  /** Every weekday lies on the start's side of the first day of the week. */
  predicate OneSided(weekdays: seq<nat>, start: nat, firstDay: nat) {
    forall w | w in weekdays :: w >= firstDay <==> Civil.Weekday(start) >= firstDay
  }

  /** Week by week, or on the start's side of the first day of the week, the choice of that day is irrelevant. */
  lemma SameWeeks(start: nat, n: nat, interval: nat, firstDay: nat)
    requires interval >= 1 && firstDay < 7
    requires interval == 1 || (Civil.Weekday(n) >= firstDay <==> Civil.Weekday(start) >= firstDay)
    ensures (WeekOf(n, firstDay) - WeekOf(start, firstDay)) % interval == 0 <==> (n / 7 - start / 7) % interval == 0
  {
    WeekIs(n, firstDay);
    WeekIs(start, firstDay);
    hide WeekOf;
  }

  /** A weekly rule and a weekly series on the same weekdays hit the same days. */
  lemma WeeklyHitsAgree(numbers: seq<nat>, interval: nat, start: nat, firstDay: nat, n: nat)
    requires numbers != [] && interval >= 1 && firstDay < 7 && (interval == 1 || OneSided(numbers, start, firstDay))
    ensures RuleHit(Rule(Weekly, interval, [], [], Plainly(numbers), Forever), start, n)
            <==> SeriesHit(EveryWeeks(interval, numbers, firstDay), start, n)
  {
    InWeekdays(numbers, Civil.Weekday(n));
    assert |Plainly(numbers)| == |numbers|;
    hide Plainly, WeekOf;
    if Civil.Weekday(n) in numbers {
      SameWeeks(start, n, interval, firstDay);
    }
  }

  /** In the next week visited, a weekday on the other side is hit by the rule only. */
  lemma WeeklyHitsDiffer(numbers: seq<nat>, interval: nat, start: nat, firstDay: nat) returns (n: nat)
    requires interval > 1 && firstDay < 7 && !OneSided(numbers, start, firstDay)
    requires forall w | w in numbers :: w < 7
    ensures n >= start && RuleHit(Rule(Weekly, interval, [], [], Plainly(numbers), Forever), start, n)
    ensures !SeriesHit(EveryWeeks(interval, numbers, firstDay), start, n)
  {
    var w :| w in numbers && !(w >= firstDay <==> Civil.Weekday(start) >= firstDay);
    n := (start / 7 + interval) * 7 + w;
    assert n / 7 == start / 7 + interval && Civil.Weekday(n) == w;
    InWeekdays(numbers, w);
    assert |Plainly(numbers)| == |numbers|;
    hide Plainly;
    OtherSide(start, n, interval, firstDay);
    hide WeekOf;
  }

  lemma OtherSide(start: nat, n: nat, interval: nat, firstDay: nat)
    requires interval > 1 && firstDay < 7 && n / 7 == start / 7 + interval
    requires !(Civil.Weekday(n) >= firstDay <==> Civil.Weekday(start) >= firstDay)
    ensures (n / 7 - start / 7) % interval == 0 && (WeekOf(n, firstDay) - WeekOf(start, firstDay)) % interval != 0
  {
    WeekIs(n, firstDay);
    WeekIs(start, firstDay);
    OneOff(interval);
    hide WeekOf;
    var d := WeekOf(n, firstDay) - WeekOf(start, firstDay);
    assert n / 7 - start / 7 == interval && d in {interval + 1, interval - 1};
  }

  lemma OneOff(k: nat)
    requires k > 1
    ensures k % k == 0 && (k - 1) % k != 0 && (k + 1) % k != 0
  {
    assert (k + 1) / k == 1;
  }
}
