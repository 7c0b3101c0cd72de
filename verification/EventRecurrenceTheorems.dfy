/** When the stored rule text and the Exchange recurrence of one new series denote the same days. */
module EventRecurrenceTheorems {
  import opened Basics
  import Civil
  import opened EventRecurrence
  import opened MonthsAndYears
  import opened RecurrenceMeaning
  import opened RuleText
  import opened Text

  // ---------------------------------------------------------------- reading the stored rule

  predicate IsCode(day: string) {
    CodeNumber(Upper(day)).Some?
  }

  predicate KnownDays(days: seq<string>) {
    forall i | 0 <= i < |days| :: IsCode(days[i])
  }

  function DayNumber(day: string): nat {
    CodeNumber(Upper(day)).GetOr(0)
  }

  function DayNumbers(days: seq<string>): seq<nat> {
    seq(|days|, i requires 0 <= i < |days| => DayNumber(days[i]))
  }

  function StoredFields(rec: Config): Fields {
    var dated := rec.endType == "by_date" && rec.endDate.GetOr("") != "";
    Fields(Some(FrequencyName(rec.frequency)),
           if rec.interval > 1 then Some(Dec(rec.interval)) else None,
           None, None,
           if rec.days.GetOr([]) != [] then Some(Join(Uppers(rec.days.value), ",")) else None,
           if dated then Some(Without(rec.endDate.value, '-') + "T235959Z") else None,
           if !dated && rec.endType == "by_count" && rec.count.GetOr(0) != 0 then Some(Dec(rec.count.value)) else None)
  }

  lemma StoredText(rec: Config)
    ensures StoredRule(rec) == TextOf(PairsOf(StoredFields(rec)))
  {
    hide Dec, Without, Uppers, Join, FrequencyName, PairsOf, PropTexts;
    var f := StoredFields(rec);
    TextsOf(f);
    assert RuleParts(rec) == PropTexts(PairsOf(f)) by {
      assert OptText("BYMONTH=", f.bymonth) == [] && OptText("BYMONTHDAY=", f.bymonthday) == [];
    }
  }

  lemma CodeReads(day: string)
    requires IsCode(day)
    ensures Plain(Upper(day)) && ',' !in Upper(day) && Upper(day) != ""
    ensures ReadWeekday(Upper(day)) == Some((0, DayNumber(day)))
    ensures NameNumber(DayMap(day)) == Some(DayNumber(day))
  {
    hide Upper;
    var code := Upper(day);
    assert code[|code| - 2..] == code;
  }

  lemma {:induction false} NamesAre(names: seq<string>, numbers: seq<nat>)
    requires |names| == |numbers| && forall i | 0 <= i < |names| :: NameNumber(names[i]) == Some(numbers[i])
    ensures NameNumbers(names) == Some(numbers)
  {
    hide NameNumber;
    if names != [] {
      NamesAre(names[1..], numbers[1..]);
      assert numbers == [numbers[0]] + numbers[1..];
    }
  }

  lemma NamesRead(days: seq<string>)
    requires KnownDays(days)
    ensures NameNumbers(DayMaps(days)) == Some(DayNumbers(days))
  {
    forall i | 0 <= i < |days|
      ensures NameNumber(DayMaps(days)[i]) == Some(DayNumbers(days)[i])
    {
      CodeReads(days[i]);
    }
    NamesAre(DayMaps(days), DayNumbers(days));
  }

  lemma CodesPlain(days: seq<string>)
    requires KnownDays(days)
    ensures Plain(Join(Uppers(days), ","))
  {
    forall i | 0 <= i < |days|
      ensures Plain(Uppers(days)[i])
    {
      CodeReads(days[i]);
    }
    JoinPlain(Uppers(days));
  }

  lemma WeekdaysRead(days: seq<string>)
    requires KnownDays(days) && days != []
    ensures WeekdaysOf(Some(Join(Uppers(days), ","))) == Some(Plainly(DayNumbers(days)))
  {
    forall i | 0 <= i < |days|
      ensures ',' !in Uppers(days)[i] && ReadWeekday(Uppers(days)[i]) == Some(Plainly(DayNumbers(days))[i])
    {
      CodeReads(days[i]);
    }
    SplitJoined(Uppers(days), ',');
    WeekdaysAre(Uppers(days), Plainly(DayNumbers(days)));
  }

  lemma StoredPlain(rec: Config)
    requires KnownDays(rec.days.GetOr([])) && EwsRangeOf(rec).Ok?
    ensures PlainFields(StoredFields(rec))
  {
    hide Plain, Dec, Without, KnownDays, DateShape, Uppers, Join;
    FrequenciesPlain();
    DecPlain(rec.interval);
    DecPlain(rec.count.GetOr(0));
    CodesPlain(rec.days.GetOr([]));
    if rec.endType == "by_date" && rec.endDate.GetOr("") != "" {
      UntilPlain(rec.endDate.value);
    }
  }

  function FreqOf(frequency: string): Freq {
    if frequency == "weekly" then Weekly
    else if frequency == "monthly" then Monthly
    else if frequency == "yearly" then Yearly
    else Daily
  }

  /** The rule the stored text says. */
  lemma StoredReads(rec: Config)
    requires KnownDays(rec.days.GetOr([])) && EwsRangeOf(rec).Ok?
    ensures ReadRule(StoredRule(rec))
         == Some(Rule(FreqOf(rec.frequency), if rec.interval > 1 then rec.interval else 1, [], [],
                      Plainly(DayNumbers(rec.days.GetOr([]))), EwsLimit(EwsRangeOf(rec).value)))
  {
    hide Plain, Dec, Without, KnownDays, DateShape, Uppers, Join, ParseInt, ReadDate, WeekdaysOf, PairsOf, TextOf, Props,
         FieldsOf, StoredRule;
    StoredText(rec);
    StoredPlain(rec);
    ReadBack(StoredFields(rec));
    if rec.days.GetOr([]) != [] {
      WeekdaysRead(rec.days.value);
    }
    NoWeekdays();
    ParsePrinted(rec.interval);
    ParsePrinted(rec.count.GetOr(0));
    if rec.endType == "by_date" && rec.endDate.GetOr("") != "" {
      UntilReads(rec.endDate.value);
    }
  }

  lemma NoWeekdays()
    ensures WeekdaysOf(None) == Some([]) && Plainly(DayNumbers([])) == []
  {
  }

  // ---------------------------------------------------------------- inputs outside the documented ones

  /** Weekday codes are read in any letter case; anything else is handed to Exchange as it is. */
  lemma DayMapIs(day: string)
    ensures var code := Upper(day);
            DayMap(day) == if code == "MO" then "Monday" else if code == "TU" then "Tuesday" else if code == "WE" then "Wednesday"
                           else if code == "TH" then "Thursday" else if code == "FR" then "Friday" else if code == "SA" then "Saturday"
                           else if code == "SU" then "Sunday" else day
  {
    hide Upper;
  }

  /** A weekly series with a weekday that is neither a code nor an English name has no recurrence in Exchange. */
  lemma UnknownWeekdayIsRefused(rec: Config, start: nat, firstDay: nat, i: nat)
    requires rec.frequency == "weekly" && i < |rec.days.GetOr([])| && !IsCode(rec.days.value[i])
    requires rec.days.value[i] !in ["Monday", "Tuesday", "Wednesday", "Thursday", "Friday", "Saturday", "Sunday"]
    ensures EwsSeries(EwsPatternOf(rec, start), firstDay) == None
  {
    var names := DayMaps(rec.days.value);
    DayMapIs(rec.days.value[i]);
    hide Upper, IsCode, DayMap;
    assert names[i] == rec.days.value[i] by {
      NotACode(rec.days.value[i]);
    }
    NoNumber(names, i);
  }

  lemma NotACode(day: string)
    requires !IsCode(day)
    ensures DayMap(day) == day
  {
    hide Upper;
  }

  lemma {:induction false} NoNumber(names: seq<string>, i: nat)
    requires i < |names| && NameNumber(names[i]) == None
    ensures NameNumbers(names) == None
  {
    hide NameNumber;
    if i > 0 {
      NoNumber(names[1..], i - 1);
    }
  }

  /** An end date counts exactly if it is written YYYY-MM-DD and exists in the calendar; anything else is a ValueError. */
  lemma EndDateIs(rec: Config, y: nat, m: nat, d: nat)
    requires rec.endType == "by_date" && rec.endDate.GetOr("") != ""
    ensures EwsRangeOf(rec) == Ok(EndDateRange(Civil.Date(y, m, d)))
            <==> && DateShape(rec.endDate.value) && Value(rec.endDate.value[..4]) == y && Value(rec.endDate.value[5..7]) == m
                 && Value(rec.endDate.value[8..]) == d
                 && 1 <= y && 1 <= m <= 12 && 1 <= d <= Civil.DaysInMonth(y, m)
    ensures EwsRangeOf(rec).Ok? ==> EwsRangeOf(rec).value.EndDateRange?
  {
    hide Value, Civil.DaysInMonth;
  }

  // ---------------------------------------------------------------- the two series

  /** A text denotes the same days as the recurrence that is sent. */
  ghost predicate DenotesSent(text: string, rec: Config, start: nat, firstDay: nat) {
    var series := EwsSeries(EwsPatternOf(rec, start), firstDay);
    && EwsRangeOf(rec).Ok? && series.Some?
    && SameSeries(text, series.value, EwsLimit(EwsRangeOf(rec).value), start)
  }

  /** The stored text does. */
  ghost predicate Consistent(rec: Config, start: nat, firstDay: nat) {
    DenotesSent(StoredRule(rec), rec, start, firstDay)
  }

  predicate FebruaryEnd(d: Civil.Date) {
    d.m == 2 && d.d == 29
  }

  /** The documented inputs: four frequencies, intervals from 1, weekday codes, a readable end. */
  predicate Documented(rec: Config) {
    && rec.frequency in ["daily", "weekly", "monthly", "yearly"]
    && rec.interval >= 1
    && KnownDays(rec.days.GetOr([]))
    && EwsRangeOf(rec).Ok?
  }

  /** The weekdays sent to Exchange: those asked for, or that of the start. */
  function SentDays(rec: Config, start: nat): seq<nat> {
    if rec.days.GetOr([]) == [] then [Civil.Weekday(start)] else DayNumbers(rec.days.value)
  }

  /** The starts, intervals and weekdays for which the two readings do not differ; EndlessIff shows that there are no others. */
  predicate Safe(rec: Config, start: nat, firstDay: nat)
    requires rec.interval >= 1
  {
    var date, days := Civil.DateOf(start), rec.days.GetOr([]);
    && firstDay < 7
    && (rec.frequency == "daily" ==> days == [] || AllVisitedNamed(DayNumbers(days), rec.interval, start))
    && (rec.frequency == "weekly" ==> rec.interval == 1 || OneSided(SentDays(rec, start), start, firstDay))
    && (rec.frequency == "monthly" ==> days == [] && LongMonths(date.d, rec.interval, start))
    && (rec.frequency == "yearly" ==> days == [] && rec.interval == 1 && !FebruaryEnd(date))
  }

  lemma WeekdayName(w: nat)
    requires w < 7
    ensures NameNumbers([WEEKDAY_NAMES[w]]) == Some([w])
  {
    NamesAre([WEEKDAY_NAMES[w]], [w]);
  }

  lemma SentSeries(rec: Config, start: nat, firstDay: nat)
    requires Documented(rec)
    ensures var date := Civil.DateOf(start);
            EwsSeries(EwsPatternOf(rec, start), firstDay)
            == Some(if rec.frequency == "daily" then EveryDays(rec.interval)
                    else if rec.frequency == "weekly" then EveryWeeks(rec.interval, SentDays(rec, start), firstDay)
                    else if rec.frequency == "monthly" then MonthDay(rec.interval, date.d)
                    else YearDay(1, date.m, date.d))
  {
    hide NameNumbers, DayNumbers;
    WeekdayName(Civil.Weekday(start));
    NamesRead(rec.days.GetOr([]));
    if rec.days.GetOr([]) != [] {
      assert DayMaps(rec.days.value) != [];
    } else {
      assert DayMaps(rec.days.GetOr([])) == [];
    }
  }

  /**
   The stored rule text, read under RFC 5545, denotes the same days as the recurrence sent to Exchange,
   end date and count included.
   */
  lemma StoredRuleIsSentSeries(rec: Config, start: nat, firstDay: nat)
    requires Documented(rec) && Safe(rec, start, firstDay)
    ensures Consistent(rec, start, firstDay)
  {
    StoredReads(rec);
    SentSeries(rec, start, firstDay);
    hide ReadRule, StoredRule, EwsSeries, EwsPatternOf, KnownDays, EwsRangeOf, SameSeries, DayNumbers;
    var rule := ReadRule(StoredRule(rec)).value;
    var series := EwsSeries(EwsPatternOf(rec, start), firstDay).value;
    forall n: nat | n >= start
      ensures RuleHit(rule, start, n) <==> SeriesHit(series, start, n)
    {
      HitsAgree(rec, rule, series, start, firstDay, n);
    }
    SameHitsSameSeries(StoredRule(rec), series, EwsLimit(EwsRangeOf(rec).value), start);
  }

  lemma HitsAgree(rec: Config, rule: Rule, series: Series, start: nat, firstDay: nat, n: nat)
    requires Documented(rec) && Safe(rec, start, firstDay) && n >= start
    requires rule == Rule(FreqOf(rec.frequency), rec.interval, [], [], Plainly(DayNumbers(rec.days.GetOr([]))),
                          EwsLimit(EwsRangeOf(rec).value))
    requires EwsSeries(EwsPatternOf(rec, start), firstDay) == Some(series)
    ensures RuleHit(rule, start, n) <==> SeriesHit(series, start, n)
  {
    hide EwsSeries, EwsPatternOf, EwsRangeOf, KnownDays, RuleHit, SeriesHit, DayNumbers, Plainly, LongMonths, ShortMonth, AllVisitedNamed;
    SentSeries(rec, start, firstDay);
    FirstIsWeekday(rec.days.GetOr([]));
    NoWeekdays();
    var plain := rule.(limit := Forever);
    LimitIrrelevant(rule, start, n);
    if rec.frequency == "weekly" {
      WeeksAgree(DayNumbers(rec.days.GetOr([])), rec.interval, start, firstDay, n);
    } else if rec.frequency == "monthly" {
      LongMonthsIff(Civil.DateOf(start).d, rec.interval, start);
      LongMonthAgrees(rec.interval, start, n);
    } else if rec.frequency == "yearly" {
      YearsAgree(start, n);
    } else if rec.days.GetOr([]) != [] {
      VisitedNamedAgree(DayNumbers(rec.days.value), rec.interval, start, n);
    } else {
      DaysAgree(rec.interval, start, n);
    }
  }

  lemma WeeksAgree(numbers: seq<nat>, interval: nat, start: nat, firstDay: nat, n: nat)
    requires interval >= 1 && firstDay < 7 && n >= start
    requires interval == 1 || OneSided(if numbers == [] then [Civil.Weekday(start)] else numbers, start, firstDay)
    ensures RuleHit(Rule(Weekly, interval, [], [], Plainly(numbers), Forever), start, n)
            <==> SeriesHit(EveryWeeks(interval, if numbers == [] then [Civil.Weekday(start)] else numbers, firstDay), start, n)
  {
    if numbers == [] {
      StartWeekday(interval, start, n);
      WeeklyHitsAgree([Civil.Weekday(start)], interval, start, firstDay, n);
    } else {
      WeeklyHitsAgree(numbers, interval, start, firstDay, n);
    }
    hide RuleHit, SeriesHit, Plainly;
  }

  /** A weekly rule without weekdays means that of the start. */
  lemma StartWeekday(interval: nat, start: nat, n: nat)
    requires interval >= 1
    ensures RuleHit(Rule(Weekly, interval, [], [], Plainly([]), Forever), start, n)
            <==> RuleHit(Rule(Weekly, interval, [], [], Plainly([Civil.Weekday(start)]), Forever), start, n)
  {
    assert Plainly([]) == [] && Plainly([Civil.Weekday(start)]) == [(0, Civil.Weekday(start))];
  }

  lemma YearsAgree(start: nat, n: nat)
    requires n >= start && !FebruaryEnd(Civil.DateOf(start))
    ensures RuleHit(Rule(Yearly, 1, [], [], [], Forever), start, n)
            <==> SeriesHit(YearDay(1, Civil.DateOf(start).m, Civil.DateOf(start).d), start, n)
  {
  }

  lemma DaysAgree(interval: nat, start: nat, n: nat)
    requires interval >= 1 && n >= start
    ensures RuleHit(Rule(Daily, interval, [], [], [], Forever), start, n) <==> SeriesHit(EveryDays(interval), start, n)
  {
  }

  /** Writes the text part by part; on safe series it denotes what is sent. */
  method WriteRule(rec: Config) returns (text: string)
    ensures Documented(rec) ==> forall start: nat, firstDay: nat | Safe(rec, start, firstDay) :: DenotesSent(text, rec, start, firstDay)
  {
    hide DenotesSent, KnownDays, EwsRangeOf, Safe, Dec, Without, Uppers, Join, FrequencyName;
    var parts := ["FREQ=" + FrequencyName(rec.frequency)];
    if rec.interval > 1 {
      parts := parts + ["INTERVAL=" + Dec(rec.interval)];
    }
    if rec.days.GetOr([]) != [] {
      parts := parts + ["BYDAY=" + Join(Uppers(rec.days.value), ",")];
    }
    if rec.endType == "by_date" && rec.endDate.GetOr("") != "" {
      parts := parts + ["UNTIL=" + (Without(rec.endDate.value, '-') + "T235959Z")];
    } else if rec.endType == "by_count" && rec.count.GetOr(0) != 0 {
      parts := parts + ["COUNT=" + Dec(rec.count.value)];
    }
    assert parts == RuleParts(rec);
    text := "RRULE:" + Join(parts, ";");
    if Documented(rec) {
      forall start: nat, firstDay: nat | Safe(rec, start, firstDay)
        ensures DenotesSent(text, rec, start, firstDay)
      {
        StoredRuleIsSentSeries(rec, start, firstDay);
      }
    }
  }

  // ---------------------------------------------------------------- the exact conditions

  /** A day on which an endless stored rule and its recurrence differ. */
  lemma DifferOn(rec: Config, start: nat, firstDay: nat, n: nat)
    requires KnownDays(rec.days.GetOr([])) && EwsRangeOf(rec) == Ok(NoEndRange) && n >= start
    requires EwsSeries(EwsPatternOf(rec, start), firstDay).Some?
    requires RuleHit(ReadRule(StoredRule(rec)).GetOr(NO_RULE), start, n)
             != SeriesHit(EwsSeries(EwsPatternOf(rec, start), firstDay).value, start, n)
    ensures !Consistent(rec, start, firstDay)
  {
    StoredReads(rec);
    hide ReadRule, StoredRule, EwsSeries, EwsPatternOf, KnownDays, EwsRangeOf, SameSeries, RuleHit, SeriesHit;
    DifferentSeries(StoredRule(rec), EwsSeries(EwsPatternOf(rec, start), firstDay).value, start, n);
  }

  const NO_RULE := Rule(Daily, 0, [], [], [], Forever)

  /** Yearly series agree exactly for interval 1 and a start other than 29 February. */
  lemma YearlyIff(rec: Config, start: nat, firstDay: nat)
    requires Documented(rec) && EwsRangeOf(rec) == Ok(NoEndRange) && firstDay < 7
    requires rec.frequency == "yearly" && rec.days.GetOr([]) == []
    ensures Consistent(rec, start, firstDay) <==> rec.interval == 1 && !FebruaryEnd(Civil.DateOf(start))
  {
    var s := Civil.DateOf(start);
    if rec.interval == 1 && !FebruaryEnd(s) {
      StoredRuleIsSentSeries(rec, start, firstDay);
    } else {
      StoredReads(rec);
      SentSeries(rec, start, firstDay);
      NoWeekdays();
      hide ReadRule, StoredRule, EwsSeries, EwsPatternOf, KnownDays, EwsRangeOf, Consistent, RuleHit, SeriesHit, Plainly, DayNumbers;
      var n := NextYearDiffers(rec.interval, start);
      DifferOn(rec, start, firstDay, n);
    }
  }

  lemma NextYearDiffers(interval: nat, start: nat) returns (n: nat)
    requires interval >= 1 && (interval > 1 || FebruaryEnd(Civil.DateOf(start)))
    ensures n >= start && !RuleHit(Rule(Yearly, interval, [], [], [], Forever), start, n)
    ensures SeriesHit(YearDay(1, Civil.DateOf(start).m, Civil.DateOf(start).d), start, n)
  {
    var s := Civil.DateOf(start);
    var next := Civil.Date(s.y + 1, s.m, if FebruaryEnd(s) then 28 else s.d);
    n := Civil.DayOf(next);
    Civil.DayOrder(start, n);
    hide Civil.DateOf;
    assert (next.y - s.y) % interval == 0 ==> interval == 1;
  }

  /** In a short month the sent series falls on the last day, the stored rule on none. */
  lemma ShortMonthDiffers(interval: nat, start: nat, n: nat) returns (last: nat)
    requires interval >= 1 && ShortMonth(Civil.DateOf(start).d, interval, start, n)
    ensures last >= start && !RuleHit(Rule(Monthly, interval, [], [], [], Forever), start, last)
    ensures SeriesHit(MonthDay(interval, Civil.DateOf(start).d), start, last)
  {
    last := LastDay(n);
    hide Civil.DateOf;
  }

  lemma LongMonthAgrees(interval: nat, start: nat, n: nat)
    requires interval >= 1 && n >= start && !ShortMonth(Civil.DateOf(start).d, interval, start, n)
    ensures RuleHit(Rule(Monthly, interval, [], [], [], Forever), start, n)
            <==> SeriesHit(MonthDay(interval, Civil.DateOf(start).d), start, n)
  {
  }

  /** Monthly series of any interval agree exactly if no month they visit, within the 400 years of the calendar, is too short. */
  lemma MonthlyIffLongMonths(rec: Config, start: nat, firstDay: nat)
    requires Documented(rec) && EwsRangeOf(rec) == Ok(NoEndRange) && firstDay < 7
    requires rec.frequency == "monthly" && rec.days.GetOr([]) == []
    ensures Consistent(rec, start, firstDay) <==> LongMonths(Civil.DateOf(start).d, rec.interval, start)
  {
    StoredReads(rec);
    SentSeries(rec, start, firstDay);
    NoWeekdays();
    var day := Civil.DateOf(start).d;
    LongMonthsIff(day, rec.interval, start);
    hide ReadRule, StoredRule, EwsSeries, EwsPatternOf, KnownDays, EwsRangeOf, RuleHit, SeriesHit, Plainly, DayNumbers, ShortMonth,
         LongMonths, SameSeries;
    if n: nat :| ShortMonth(day, rec.interval, start, n) {
      var last := ShortMonthDiffers(rec.interval, start, n);
      DifferOn(rec, start, firstDay, last);
    } else {
      forall n: nat | n >= start
        ensures RuleHit(ReadRule(StoredRule(rec)).value, start, n) <==> SeriesHit(MonthDay(rec.interval, day), start, n)
      {
        LongMonthAgrees(rec.interval, start, n);
      }
      SameHitsSameSeries(StoredRule(rec), MonthDay(rec.interval, day), Forever, start);
    }
  }

  /** Every-month series agree exactly for starts up to the 28th. */
  lemma MonthlyIff(rec: Config, start: nat, firstDay: nat)
    requires Documented(rec) && EwsRangeOf(rec) == Ok(NoEndRange) && firstDay < 7
    requires rec.frequency == "monthly" && rec.days.GetOr([]) == [] && rec.interval == 1
    ensures Consistent(rec, start, firstDay) <==> Civil.DateOf(start).d <= 28
  {
    hide Consistent, Documented, EwsRangeOf, LongMonths, ShortMonth;
    MonthlyIffLongMonths(rec, start, firstDay);
    if Civil.DateOf(start).d > 28 {
      var n := FebruaryAhead(start);
      LongMonthsIff(Civil.DateOf(start).d, 1, start);
    } else {
      EveryMonthIsLong(Civil.DateOf(start).d, 1, start);
    }
  }

  lemma EveryMonthIsLong(day: int, interval: nat, start: nat)
    requires day <= 28
    ensures LongMonths(day, interval, start)
  {
  }

  /** A common year's February lies ahead of every day. */
  lemma FebruaryAhead(start: nat) returns (n: nat)
    requires Civil.DateOf(start).d > 28
    ensures ShortMonth(Civil.DateOf(start).d, 1, start, n)
  {
    var s := Civil.DateOf(start);
    n := Civil.DayOf(Civil.Date(if Civil.Leap(s.y + 1) then s.y + 2 else s.y + 1, 2, 28));
    Civil.DayOrder(start, n);
    hide Civil.DateOf;
  }

  /** A weekly series agrees exactly week by week, or if its weekdays lie on the start's side of the week's first day. */
  lemma WeeklyIff(rec: Config, start: nat, firstDay: nat)
    requires Documented(rec) && EwsRangeOf(rec) == Ok(NoEndRange) && firstDay < 7 && rec.frequency == "weekly"
    ensures Consistent(rec, start, firstDay) <==> rec.interval == 1 || OneSided(SentDays(rec, start), start, firstDay)
  {
    if rec.interval == 1 || OneSided(SentDays(rec, start), start, firstDay) {
      StoredRuleIsSentSeries(rec, start, firstDay);
    } else {
      hide ReadRule, StoredRule, EwsSeries, EwsPatternOf, KnownDays, EwsRangeOf, Consistent, RuleHit, SeriesHit, Plainly, DayNumbers;
      StoredReads(rec);
      SentSeries(rec, start, firstDay);
      AreWeekdays(rec.days.GetOr([]));
      var n := WeeklyHitsDiffer(SentDays(rec, start), rec.interval, start, firstDay);
      DifferOn(rec, start, firstDay, n);
    }
  }

  lemma AreWeekdays(days: seq<string>)
    ensures forall w | w in DayNumbers(days) :: w < 7
  {
  }

  /** A weekday the series falls on: intervals of seven days repeat it. */
  predicate AllVisitedNamed(numbers: seq<nat>, interval: nat, start: nat) {
    forall i: nat | i < 7 :: Civil.Weekday(start + interval * i) in numbers
  }

  /** A daily rule with weekdays keeps the named ones of its days only; the sent series keeps every one of them. */
  lemma NamedDaysOnly(numbers: seq<nat>, interval: nat, start: nat, n: nat)
    requires numbers != [] && n >= start && interval >= 1
    ensures RuleHit(Rule(Daily, interval, [], [], Plainly(numbers), Forever), start, n)
            <==> (n - start) % interval == 0 && Civil.Weekday(n) in numbers
    ensures SeriesHit(EveryDays(interval), start, n) <==> (n - start) % interval == 0
  {
    InWeekdays(numbers, Civil.Weekday(n));
    assert |Plainly(numbers)| == |numbers|;
    hide Plainly, Civil.DateOf;
  }

  lemma VisitedWeekday(interval: nat, start: nat, q: nat)
    ensures Civil.Weekday(start + interval * q) == Civil.Weekday(start + interval * (q % 7))
  {
    var t := q / 7;
    assert interval * q == 7 * (interval * t) + interval * (q % 7) by {
      assert interval * (7 * t + q % 7) == interval * (7 * t) + interval * (q % 7);
      assert interval * (7 * t) == 7 * (interval * t);
    }
    Shifted(start + interval * (q % 7), interval * t, 7);
  }

  lemma VisitedNamedAgree(numbers: seq<nat>, interval: nat, start: nat, n: nat)
    requires numbers != [] && interval >= 1 && n >= start && AllVisitedNamed(numbers, interval, start)
    ensures RuleHit(Rule(Daily, interval, [], [], Plainly(numbers), Forever), start, n) <==> SeriesHit(EveryDays(interval), start, n)
  {
    hide RuleHit, SeriesHit, Plainly;
    NamedDaysOnly(numbers, interval, start, n);
    if (n - start) % interval == 0 {
      var q := Quotient(n - start, interval);
      VisitedWeekday(interval, start, q);
      assert q % 7 < 7;
    }
  }

  lemma VisitedUnnamedDiffer(numbers: seq<nat>, interval: nat, start: nat, i: nat) returns (n: nat)
    requires numbers != [] && interval >= 1 && Civil.Weekday(start + interval * i) !in numbers
    ensures n >= start
    ensures !RuleHit(Rule(Daily, interval, [], [], Plainly(numbers), Forever), start, n) && SeriesHit(EveryDays(interval), start, n)
  {
    hide RuleHit, SeriesHit, Plainly;
    MultipleOf(interval, i);
    n := start + interval * i;
    NamedDaysOnly(numbers, interval, start, n);
  }

  /** Weekdays on a daily series go into the text only: the two agree exactly if every weekday visited is named. */
  lemma DailyWithDaysIff(rec: Config, start: nat, firstDay: nat)
    requires Documented(rec) && EwsRangeOf(rec) == Ok(NoEndRange)
    requires rec.frequency == "daily" && rec.days.GetOr([]) != []
    ensures Consistent(rec, start, firstDay) <==> AllVisitedNamed(DayNumbers(rec.days.value), rec.interval, start)
  {
    hide ReadRule, StoredRule, EwsSeries, EwsPatternOf, KnownDays, DayNumbers, EwsRangeOf, SameSeries, RuleHit, SeriesHit, Plainly;
    StoredReads(rec);
    SentSeries(rec, start, firstDay);
    FirstIsWeekday(rec.days.value);
    var numbers := DayNumbers(rec.days.value);
    if i: nat :| i < 7 && Civil.Weekday(start + rec.interval * i) !in numbers {
      var n := VisitedUnnamedDiffer(numbers, rec.interval, start, i);
      DifferOn(rec, start, firstDay, n);
    } else {
      forall n: nat | n >= start
        ensures RuleHit(ReadRule(StoredRule(rec)).value, start, n) <==> SeriesHit(EveryDays(rec.interval), start, n)
      {
        VisitedNamedAgree(numbers, rec.interval, start, n);
      }
      SameHitsSameSeries(StoredRule(rec), EveryDays(rec.interval), Forever, start);
    }
  }

  // ---------------------------------------------------------------- weekdays on monthly and yearly series

  /** A day that falls on weekday w satisfies a rule part that names w without an ordinal. */
  lemma NamedWeekday(numbers: seq<nat>, w: nat, n: nat, d: nat, last: nat) returns (i: nat)
    requires w in numbers && Civil.Weekday(n) == w
    ensures i < |Plainly(numbers)| && IsOrdinal(n, d, last, Plainly(numbers)[i])
  {
    i :| i < |numbers| && numbers[i] == w;
  }

  lemma MonthlyNamedHit(numbers: seq<nat>, w: nat, interval: nat, start: nat, n: nat)
    requires interval >= 1 && w in numbers && Civil.Weekday(n) == w
    requires (MonthNumber(Civil.DateOf(n)) - MonthNumber(Civil.DateOf(start))) % interval == 0
    ensures RuleHit(Rule(Monthly, interval, [], [], Plainly(numbers), Forever), start, n)
  {
    var d := Civil.DateOf(n);
    var i := NamedWeekday(numbers, w, n, d.d, MonthLength(d));
    var rule := Rule(Monthly, interval, [], [], Plainly(numbers), Forever);
    assert IsOrdinal(n, d.d, MonthLength(d), rule.byday[i]);
    assert MonthOrdinalHit(rule, n, d);
    hide IsOrdinal, Plainly, Civil.DateOf;
  }

  lemma YearlyNamedHit(numbers: seq<nat>, w: nat, interval: nat, start: nat, n: nat)
    requires interval >= 1 && w in numbers && Civil.Weekday(n) == w
    requires (Civil.DateOf(n).y - Civil.DateOf(start).y) % interval == 0
    ensures RuleHit(Rule(Yearly, interval, [], [], Plainly(numbers), Forever), start, n)
  {
    var d := Civil.DateOf(n);
    var day, last := DaysBefore(d.y, d.m) + d.d, if Civil.Leap(d.y) then 366 else 365;
    var i := NamedWeekday(numbers, w, n, day, last);
    var rule := Rule(Yearly, interval, [], [], Plainly(numbers), Forever);
    assert IsOrdinal(n, day, last, rule.byday[i]);
    assert YearOrdinalHit(rule, n, d);
    hide IsOrdinal, Plainly, Civil.DateOf, DaysBefore, Civil.Leap;
  }

  /** A series with one day a month does not hit two days of one month. */
  lemma OneDayAMonth(interval: nat, day: int, start: nat, a: nat, b: nat)
    requires MonthNumber(Civil.DateOf(a)) == MonthNumber(Civil.DateOf(b)) && Civil.DateOf(a).d != Civil.DateOf(b).d
    ensures !(SeriesHit(MonthDay(interval, day), start, a) && SeriesHit(MonthDay(interval, day), start, b))
  {
    SameMonth(Civil.DateOf(a), Civil.DateOf(b));
    hide Civil.DateOf;
  }

  lemma SameMonth(a: Civil.Date, b: Civil.Date)
    requires Civil.Valid(a) && Civil.Valid(b) && MonthNumber(a) == MonthNumber(b)
    ensures a.y == b.y && a.m == b.m
  {
  }

  lemma OneDayAYear(month: int, day: int, start: nat, a: nat, b: nat)
    requires MonthNumber(Civil.DateOf(a)) == MonthNumber(Civil.DateOf(b)) && Civil.DateOf(a).d != Civil.DateOf(b).d
    ensures !(SeriesHit(YearDay(1, month, day), start, a) && SeriesHit(YearDay(1, month, day), start, b))
  {
    SameMonth(Civil.DateOf(a), Civil.DateOf(b));
    hide Civil.DateOf;
  }

  /** In the next month visited a named weekday is hit twice, and at most one of the two by the sent series. */
  lemma MonthlyTwice(numbers: seq<nat>, w: nat, interval: nat, start: nat) returns (n: nat)
    requires interval >= 1 && w in numbers && w < 7
    ensures n >= start && RuleHit(Rule(Monthly, interval, [], [], Plainly(numbers), Forever), start, n)
    ensures !SeriesHit(MonthDay(interval, Civil.DateOf(start).d), start, n)
  {
    hide RuleHit, SeriesHit, Civil.DateOf, Plainly;
    var month := MonthNumber(Civil.DateOf(start)) + interval;
    var a := TwiceInMonth(start, month, w);
    MultipleOf(interval, 1);
    MonthlyNamedHit(numbers, w, interval, start, a);
    MonthlyNamedHit(numbers, w, interval, start, a + 7);
    OneDayAMonth(interval, Civil.DateOf(start).d, start, a, a + 7);
    n := if SeriesHit(MonthDay(interval, Civil.DateOf(start).d), start, a) then a + 7 else a;
  }

  lemma YearlyTwice(numbers: seq<nat>, w: nat, interval: nat, start: nat) returns (n: nat)
    requires interval >= 1 && w in numbers && w < 7
    ensures n >= start && RuleHit(Rule(Yearly, interval, [], [], Plainly(numbers), Forever), start, n)
    ensures !SeriesHit(YearDay(1, Civil.DateOf(start).m, Civil.DateOf(start).d), start, n)
  {
    hide RuleHit, SeriesHit, Civil.DateOf, Plainly;
    var s := Civil.DateOf(start);
    var january := Civil.Date(s.y + interval, 1, 1);
    var a := TwiceInMonth(start, MonthNumber(january), w);
    SameMonth(Civil.DateOf(a), january);
    MultipleOf(interval, 1);
    YearlyNamedHit(numbers, w, interval, start, a);
    YearlyNamedHit(numbers, w, interval, start, a + 7);
    OneDayAYear(s.m, s.d, start, a, a + 7);
    n := if SeriesHit(YearDay(1, s.m, s.d), start, a) then a + 7 else a;
  }

  /** Weekdays on a monthly or a yearly series make the stored rule fall on every such weekday: the two always differ. */
  lemma WeekdaysElsewhereDiffer(rec: Config, start: nat, firstDay: nat)
    requires Documented(rec) && EwsRangeOf(rec) == Ok(NoEndRange)
    requires rec.frequency in ["monthly", "yearly"] && rec.days.GetOr([]) != []
    ensures !Consistent(rec, start, firstDay)
  {
    hide ReadRule, StoredRule, EwsSeries, EwsPatternOf, KnownDays, DayNumbers, EwsRangeOf, Consistent, RuleHit, SeriesHit, Plainly,
         Civil.DateOf, MonthNumber;
    StoredReads(rec);
    SentSeries(rec, start, firstDay);
    FirstIsWeekday(rec.days.value);
    var numbers := DayNumbers(rec.days.value);
    var w := numbers[0];
    var n: nat;
    if rec.frequency == "monthly" {
      n := MonthlyTwice(numbers, w, rec.interval, start);
    } else {
      n := YearlyTwice(numbers, w, rec.interval, start);
    }
    DifferOn(rec, start, firstDay, n);
  }

  lemma FirstIsWeekday(days: seq<string>)
    ensures |DayNumbers(days)| == |days| && (days != [] ==> DayNumbers(days)[0] < 7)
  {
  }

  /** An endless documented series agrees exactly if it is safe. */
  lemma EndlessIff(rec: Config, start: nat, firstDay: nat)
    requires Documented(rec) && EwsRangeOf(rec) == Ok(NoEndRange) && firstDay < 7
    ensures Consistent(rec, start, firstDay) <==> Safe(rec, start, firstDay)
  {
    hide Consistent, KnownDays, EwsRangeOf, LongMonths, AllVisitedNamed, OneSided, DayNumbers, SentDays, FebruaryEnd;
    if rec.frequency == "weekly" {
      WeeklyIff(rec, start, firstDay);
    } else if rec.frequency == "daily" && rec.days.GetOr([]) != [] {
      DailyWithDaysIff(rec, start, firstDay);
    } else if rec.frequency == "daily" {
      StoredRuleIsSentSeries(rec, start, firstDay);
    } else if rec.days.GetOr([]) != [] {
      WeekdaysElsewhereDiffer(rec, start, firstDay);
    } else if rec.frequency == "monthly" {
      MonthlyIffLongMonths(rec, start, firstDay);
    } else {
      YearlyIff(rec, start, firstDay);
    }
  }

  // ---------------------------------------------------------------- frequencies outside the four

  /** Such a frequency is stored as daily and sent as yearly: the two differ for every interval and every list of weekdays. */
  lemma UnknownFrequencyDiffers(rec: Config, start: nat, firstDay: nat)
    requires rec.frequency !in ["daily", "weekly", "monthly", "yearly"]
    requires KnownDays(rec.days.GetOr([])) && EwsRangeOf(rec) == Ok(NoEndRange)
    ensures !Consistent(rec, start, firstDay)
  {
    hide ReadRule, StoredRule, EwsSeries, EwsPatternOf, KnownDays, DayNumbers, EwsRangeOf, Consistent, RuleHit, SeriesHit, Plainly,
         Civil.DateOf;
    StoredReads(rec);
    SentYearly(rec, start, firstDay);
    FirstIsWeekday(rec.days.GetOr([]));
    var numbers := DayNumbers(rec.days.GetOr([]));
    var n := NotYearly(numbers, if rec.interval > 1 then rec.interval else 1, start);
    DifferOn(rec, start, firstDay, n);
  }

  lemma SentYearly(rec: Config, start: nat, firstDay: nat)
    requires rec.frequency !in ["daily", "weekly", "monthly"]
    ensures EwsSeries(EwsPatternOf(rec, start), firstDay) == Some(YearDay(1, Civil.DateOf(start).m, Civil.DateOf(start).d))
  {
  }

  /** No daily rule falls on exactly the anniversaries of its start. */
  lemma NotYearly(numbers: seq<nat>, interval: nat, start: nat) returns (n: nat)
    requires interval >= 1 && (numbers != [] ==> numbers[0] < 7)
    ensures var s := Civil.DateOf(start);
            n >= start && RuleHit(Rule(Daily, interval, [], [], Plainly(numbers), Forever), start, n) != SeriesHit(YearDay(1, s.m, s.d), start, n)
  {
    hide SeriesHit, Civil.DateOf, Plainly;
    var s := Civil.DateOf(start);
    if interval >= 2 {
      n := MissedAnniversary(start, interval);
    } else if numbers == [] {
      TomorrowDiffers(start);
      n := start + 1;
    } else {
      var a := TwiceInMonth(start, MonthNumber(s) + 1, numbers[0]);
      NamedDaysOnly(numbers, 1, start, a);
      NamedDaysOnly(numbers, 1, start, a + 7);
      OneDayAYear(s.m, s.d, start, a, a + 7);
      hide RuleHit;
      n := if SeriesHit(YearDay(1, s.m, s.d), start, a) then a + 7 else a;
    }
  }

  lemma TomorrowDiffers(start: nat)
    ensures var s := Civil.DateOf(start);
            RuleHit(Rule(Daily, 1, [], [], Plainly([]), Forever), start, start + 1) && !SeriesHit(YearDay(1, s.m, s.d), start, start + 1)
  {
    assert Plainly([]) == [];
    assert Civil.DateOf(start + 1) == Civil.NextDate(Civil.DateOf(start));
  }
}
