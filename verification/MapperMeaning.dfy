/** Printing a Graph recurrence as a rule keeps the days it denotes. */
module MapperMeaning {
  import opened Basics
  import Civil
  import opened MapperRoundTrip
  import opened MonthsAndYears
  import opened RecurrenceMapper
  import opened RecurrenceMeaning
  import opened RuleText
  import opened Text

  // ---------------------------------------------------------------- the days of a Graph recurrence

  function DayNumber(name: string): nat {
    if name == "tuesday" then 1
    else if name == "wednesday" then 2
    else if name == "thursday" then 3
    else if name == "friday" then 4
    else if name == "saturday" then 5
    else if name == "sunday" then 6
    else 0
  }

  function DayNumbers(days: seq<string>): seq<nat> {
    seq(|days|, i requires 0 <= i < |days| => DayNumber(Lower(days[i])))
  }

  function Interval(p: Pattern): nat {
    if p.interval.GetOr(1) >= 1 then p.interval.GetOr(1) else 0
  }

  /** Weeks begin on Sunday unless the pattern says otherwise. */
  function FirstDay(p: Pattern): nat {
    DayNumber(Lower(p.firstDay.GetOr("sunday")))
  }

  function GraphSeries(p: Pattern): Series {
    var ptype := Lower(p.ptype.GetOr(""));
    var days := DayNumbers(p.days.GetOr([]));
    var day, month := p.dayOfMonth.GetOr(1), p.month.GetOr(1);
    if ptype == "weekly" then EveryWeeks(Interval(p), days, FirstDay(p))
    else if ptype == "absolutemonthly" then MonthDay(Interval(p), day)
    else if ptype == "absoluteyearly" then YearDay(Interval(p), month, day)
    else if ptype == "relativemonthly" && |days| == 1 then MonthWeekday(Interval(p), WeekNumber(p), days[0])
    else if ptype == "relativeyearly" && |days| == 1 then YearWeekday(Interval(p), month, WeekNumber(p), days[0])
    else EveryDays(Interval(p))
  }

  function GraphLimit(r: Range): Limit {
    var rtype := Lower(r.rtype.GetOr("noEnd"));
    if rtype == "enddate" && DateShape(r.endDate.GetOr("")) then
      var s := r.endDate.value;
      Until(Civil.Date(Value(s[..4]), Value(s[5..7]), Value(s[8..])))
    else if rtype == "numbered" then Times(r.times.GetOr(1))
    else Forever
  }

  /** What Graph itself asks for: the six types, an interval from 1, the seven day names, one weekday for relative patterns. */
  predicate Readable(p: Pattern) {
    var ptype := Lower(p.ptype.GetOr(""));
    && p.interval.GetOr(1) >= 1
    && KnownDays(p.days.GetOr([]))
    && ptype in ["daily", "weekly", "absolutemonthly", "absoluteyearly", "relativemonthly", "relativeyearly"]
    && (ptype in ["relativemonthly", "relativeyearly"] ==> |p.days.GetOr([])| == 1)
  }

  /** The same, with the days and months that the absolute and weekly types need. */
  predicate Complete(p: Pattern) {
    var ptype := Lower(p.ptype.GetOr(""));
    && Readable(p)
    && (ptype == "weekly" ==> p.days.GetOr([]) != [])
    && (ptype in ["absolutemonthly", "absoluteyearly"] ==> p.dayOfMonth.GetOr(1) >= 1)
    && (ptype == "absoluteyearly" ==> 1 <= p.month.GetOr(1) <= 12)
  }

  /** Weekly week by week or on the start's side of the week's first day; absolute days that every month, or year, visited has. */
  predicate Safe(p: Pattern, start: nat) {
    var ptype := Lower(p.ptype.GetOr(""));
    && (ptype == "weekly" ==> Interval(p) == 1 || OneSided(DayNumbers(p.days.GetOr([])), start, FirstDay(p)))
    && (ptype == "absolutemonthly" ==> LongMonths(p.dayOfMonth.GetOr(1), Interval(p), start))
    && (ptype == "absoluteyearly" && p.month.GetOr(1) >= 0 ==>
          LongYears(p.month.GetOr(1), p.dayOfMonth.GetOr(1), Interval(p), start))
  }

  predicate Ending(r: Range) {
    && (r.endDate.GetOr("") == "" || DateShape(r.endDate.value))
    && (Lower(r.rtype.GetOr("noEnd")) == "enddate" ==> r.endDate.GetOr("") != "")
  }

  // ---------------------------------------------------------------- the rule that was printed

  lemma CodeMeans(day: string)
    requires KnownDay(day)
    ensures |ListCode(day)| == 2 && CodeNumber(ListCode(day)) == Some(DayNumber(Lower(day)))
    ensures ',' !in ListCode(day)
  {
    hide Lower;
  }

  lemma ListMeans(days: seq<string>)
    requires KnownDays(days) && days != []
    ensures GraphDaysToRrule(days) != ""
    ensures WeekdaysOf(Some(GraphDaysToRrule(days))) == Some(Plainly(DayNumbers(days)))
  {
    var codes := ListCodes(days);
    forall i | 0 <= i < |codes|
      ensures ',' !in codes[i] && ReadWeekday(codes[i]) == Some(Plainly(DayNumbers(days))[i])
    {
      CodeMeans(days[i]);
      assert codes[i][|codes[i]| - 2..] == codes[i];
    }
    DaysBack(days);
    SplitJoined(codes, ',');
    WeekdaysAre(codes, Plainly(DayNumbers(days)));
  }

  lemma PrefixMeans(n: int)
    ensures ParseInt(Prefix(n)) == Ok(n) && Prefix(n) != "" && ',' !in Prefix(n)
  {
    DecPlain(n);
    ParsePrinted(n);
    hide ParseInt, AllDigits;
    if n > 0 {
      ValueOfDecNat(n);
      PlusDigits(DecNat(n));
    } else {
      hide Dec;
    }
  }

  lemma PlusDigits(digits: string)
    requires digits != "" && AllDigits(digits)
    ensures ParseInt("+" + digits) == Ok(Value(digits))
  {
    hide Value, AllDigits;
    assert ("+" + digits)[1..] == digits;
  }

  lemma {:induction false} OnePart(s: string)
    requires ',' !in s
    ensures Split(s, ',') == [s]
  {
    SplitAtFirst(s, ',', "");
  }

  lemma OrdinalMeans(p: Pattern)
    requires KnownDays(p.days.GetOr([])) && |p.days.GetOr([])| == 1
    ensures WeekdaysOf(Some(OrdinalText(p))) == Some([(WeekNumber(p), DayNumbers(p.days.value)[0])])
  {
    var day := p.days.value[0];
    assert KnownDay(day);
    CodeMeans(day);
    PrefixMeans(WeekNumber(p));
    var prefix, code := Prefix(WeekNumber(p)), FirstCode(p.days.value);
    assert code == ListCode(day) by {
      hide Lower;
    }
    hide Prefix, WeekNumber, Lower, FirstCode, ListCode, ParseInt, CodeNumber, KnownDay, KnownDays;
    var text := prefix + code;
    assert text[..|text| - 2] == prefix && text[|text| - 2..] == code;
    OnePart(text);
    WeekdaysAre([text], [(WeekNumber(p), DayNumber(Lower(day)))]);
  }

  lemma NumberMeans(n: int)
    ensures NumbersOf(Some(Dec(n))) == Some([n])
  {
    DecPlain(n);
    ParsePrinted(n);
    hide Dec, ParseInt;
    OnePart(Dec(n));
    assert [Dec(n)][1..] == [] && ReadNumbers([]) == Some([]) && [n] + [] == [n];
    assert ReadNumbers([Dec(n)]) == Some([n]);
  }

  lemma NothingMeans()
    ensures NumbersOf(None) == Some([]) && WeekdaysOf(None) == Some([]) && Plainly(DayNumbers([])) == []
  {
  }

  function PrintedRule(p: Pattern, limit: Limit): Rule {
    var ptype := Lower(p.ptype.GetOr(""));
    var days := DayNumbers(p.days.GetOr([]));
    var rule := RecurrenceMeaning.Rule(Daily, Interval(p), [], [], [], limit);
    if ptype == "weekly" then rule.(freq := Weekly, byday := Plainly(days))
    else if ptype == "absolutemonthly" then rule.(freq := Monthly, bymonthday := [p.dayOfMonth.GetOr(1)])
    else if ptype == "absoluteyearly" then
      rule.(freq := Yearly, bymonth := [p.month.GetOr(1)], bymonthday := [p.dayOfMonth.GetOr(1)])
    else if ptype == "relativemonthly" && |days| == 1 then rule.(freq := Monthly, byday := [(WeekNumber(p), days[0])])
    else if ptype == "relativeyearly" && |days| == 1 then
      rule.(freq := Yearly, bymonth := [p.month.GetOr(1)], byday := [(WeekNumber(p), days[0])])
    else rule
  }

  lemma LimitMeans(f: Fields, r: Range)
    requires Ending(r) && f.until.None? && f.count.None?
    ensures ReadLimit(RangeFields(f, r)) == Some(GraphLimit(r))
  {
    hide Lower, Dec, Without, ParseInt, ReadDate, Value, DateShape;
    ParsePrinted(r.times.GetOr(1));
    if r.endDate.GetOr("") != "" {
      UntilReads(r.endDate.value);
    }
  }

  lemma HeadMeans(p: Pattern, limit: Limit)
    requires Readable(p)
    ensures ReadFreq(PatternFields(p).freq) == Some(PrintedRule(p, limit).freq)
    ensures ReadInterval(PatternFields(p).interval) == Some(Interval(p))
  {
    hide Lower, Dec, ParseInt, WeekNumber, GraphDaysToRrule, OrdinalText, KnownDays, Plainly, DayNumbers;
    ParsePrinted(p.interval.GetOr(1));
    SameLength(p.days.GetOr([]));
  }

  lemma NumbersMean(p: Pattern, limit: Limit)
    requires Readable(p)
    ensures NumbersOf(PatternFields(p).bymonth) == Some(PrintedRule(p, limit).bymonth)
    ensures NumbersOf(PatternFields(p).bymonthday) == Some(PrintedRule(p, limit).bymonthday)
  {
    hide Lower, Dec, ParseInt, NumbersOf, WeekNumber, GraphDaysToRrule, OrdinalText, KnownDays, Plainly, DayNumbers;
    NumberMeans(p.month.GetOr(1));
    NumberMeans(p.dayOfMonth.GetOr(1));
    NothingMeans();
    SameLength(p.days.GetOr([]));
  }

  lemma WeekdaysMean(p: Pattern, limit: Limit)
    requires Readable(p)
    ensures WeekdaysOf(PatternFields(p).byday) == Some(PrintedRule(p, limit).byday)
  {
    hide Lower, Dec, WeekdaysOf, WeekNumber, GraphDaysToRrule, OrdinalText, KnownDays, Plainly, DayNumbers;
    NothingMeans();
    NoDays();
    SameLength(p.days.GetOr([]));
    if p.days.GetOr([]) != [] {
      ListMeans(p.days.value);
      if |p.days.value| == 1 {
        OrdinalMeans(p);
      }
    }
  }

  lemma PrintedReads(rec: Recurrence)
    requires Readable(rec.pattern) && Ending(rec.range)
    ensures ReadRule(ToRule(rec)) == Some(PrintedRule(rec.pattern, GraphLimit(rec.range)))
  {
    var p, r := rec.pattern, rec.range;
    NotEmpty(p);
    PrintsItsFields(rec);
    FieldsPlain(rec);
    FrequencySet(rec);
    hide PatternFields, PlainFields, PairsOf, TextOf, KnownDays, DateShape, Props, FieldsOf, ToRule, PrintedRule,
         GraphLimit, ReadFreq, ReadInterval, NumbersOf, WeekdaysOf, ReadLimit;
    ReadBack(RuleFields(rec));
    LimitMeans(PatternFields(p), r);
    HeadMeans(p, GraphLimit(r));
    NumbersMean(p, GraphLimit(r));
    WeekdaysMean(p, GraphLimit(r));
    RangeOnly(PatternFields(p), r);
    SameRule(p, GraphLimit(r));
  }

  lemma RangeOnly(f: Fields, r: Range)
    ensures RangeFields(f, r).(until := f.until, count := f.count) == f
  {
    hide Lower, Dec, Without;
  }

  lemma SameRule(p: Pattern, limit: Limit)
    ensures PrintedRule(p, limit).interval == Interval(p) && PrintedRule(p, limit).limit == limit
  {
    hide Lower, DayNumbers, WeekNumber, Interval;
  }

  // ---------------------------------------------------------------- the same days

  lemma HitsAgree(p: Pattern, limit: Limit, start: nat, n: nat)
    requires Complete(p) && Safe(p, start) && n >= start
    ensures RuleHit(PrintedRule(p, limit), start, n) <==> SeriesHit(GraphSeries(p), start, n)
  {
    hide Lower, DayNumbers, KnownDays, WeekNumber, Plainly, RuleHit, SeriesHit, PrintedRule, GraphSeries, LongMonths, LongYears;
    var ptype := Lower(p.ptype.GetOr(""));
    if ptype == "weekly" {
      WeeksAgree(p, limit, start, n);
    } else if ptype in ["relativemonthly", "relativeyearly"] {
      OrdinalsAgree(p, limit, start, n);
    } else if ptype == "absolutemonthly" {
      LongMonthsIff(p.dayOfMonth.GetOr(1), Interval(p), start);
      MonthsAgree(p, limit, start, n);
    } else if ptype == "absoluteyearly" {
      LongYearsIff(p.month.GetOr(1), p.dayOfMonth.GetOr(1), Interval(p), start);
      YearsAgree(p, limit, start, n);
    } else {
      DaysAgree(p, limit, start, n);
    }
  }

  lemma DaysAgree(p: Pattern, limit: Limit, start: nat, n: nat)
    requires Complete(p) && n >= start && Lower(p.ptype.GetOr("")) == "daily"
    ensures RuleHit(PrintedRule(p, limit), start, n) <==> SeriesHit(GraphSeries(p), start, n)
  {
    hide Lower, DayNumbers, KnownDays, WeekNumber;
  }

  lemma MonthsAgree(p: Pattern, limit: Limit, start: nat, n: nat)
    requires Complete(p) && n >= start && Lower(p.ptype.GetOr("")) == "absolutemonthly"
    requires !ShortMonth(p.dayOfMonth.GetOr(1), Interval(p), start, n)
    ensures RuleHit(PrintedRule(p, limit), start, n) <==> SeriesHit(GraphSeries(p), start, n)
  {
    hide Lower, DayNumbers, KnownDays, WeekNumber;
  }

  lemma YearsAgree(p: Pattern, limit: Limit, start: nat, n: nat)
    requires Complete(p) && n >= start && Lower(p.ptype.GetOr("")) == "absoluteyearly"
    requires !ShortYear(p.month.GetOr(1), p.dayOfMonth.GetOr(1), Interval(p), start, n)
    ensures RuleHit(PrintedRule(p, limit), start, n) <==> SeriesHit(GraphSeries(p), start, n)
  {
    hide Lower, DayNumbers, KnownDays, WeekNumber;
  }

  lemma WeeksAgree(p: Pattern, limit: Limit, start: nat, n: nat)
    requires Complete(p) && n >= start && Lower(p.ptype.GetOr("")) == "weekly"
    requires Interval(p) == 1 || OneSided(DayNumbers(p.days.GetOr([])), start, FirstDay(p))
    ensures RuleHit(PrintedRule(p, limit), start, n) <==> SeriesHit(GraphSeries(p), start, n)
  {
    hide Lower, DayNumbers, KnownDays, RuleHit, SeriesHit, OneSided;
    SameLength(p.days.GetOr([]));
    WeeklyHitsAgree(DayNumbers(p.days.GetOr([])), Interval(p), start, FirstDay(p), n);
    LimitIrrelevant(PrintedRule(p, limit), start, n);
  }

  lemma SameLength(days: seq<string>)
    ensures |DayNumbers(days)| == |days|
  {
  }

  lemma OrdinalsAgree(p: Pattern, limit: Limit, start: nat, n: nat)
    requires Complete(p) && n >= start && Lower(p.ptype.GetOr("")) in ["relativemonthly", "relativeyearly"]
    ensures RuleHit(PrintedRule(p, limit), start, n) <==> SeriesHit(GraphSeries(p), start, n)
  {
    hide Lower, DayNumbers, KnownDays, IsOrdinal, InIndex;
    SameLength(p.days.value);
    WeekNumberRange(p);
    var rule := PrintedRule(p, limit);
    var entry := (WeekNumber(p), DayNumbers(p.days.value)[0]);
    IndexIsOrdinal(n, entry.0, entry.1);
    assert rule.byday == [entry];
    assert MonthOrdinalHit(rule, n, Civil.DateOf(n)) <==> IsOrdinal(n, Civil.DateOf(n).d, MonthLength(Civil.DateOf(n)), entry) by {
      assert rule.byday[0] == entry;
    }
  }

  lemma WeekNumberRange(p: Pattern)
    ensures 1 <= WeekNumber(p) <= 4 || WeekNumber(p) == -1
  {
    hide Lower;
  }

  /** The printed rule denotes the same days as the Graph recurrence, for every type and range, on safe patterns. */
  lemma PrintingKeepsDays(rec: Recurrence, start: nat)
    requires Complete(rec.pattern) && Safe(rec.pattern, start) && Ending(rec.range)
    ensures SameSeries(ToRule(rec), GraphSeries(rec.pattern), GraphLimit(rec.range), start)
  {
    hide ReadRule, ToRule, GraphSeries, GraphLimit, SameSeries, RuleHit, SeriesHit, Safe, Ending, PrintedRule, KnownDays, Lower;
    PrintedReads(rec);
    var rule := ReadRule(ToRule(rec)).value;
    SameRule(rec.pattern, GraphLimit(rec.range));
    forall n: nat | n >= start
      ensures RuleHit(rule, start, n) <==> SeriesHit(GraphSeries(rec.pattern), start, n)
    {
      HitsAgree(rec.pattern, GraphLimit(rec.range), start, n);
    }
    SameHitsSameSeries(ToRule(rec), GraphSeries(rec.pattern), GraphLimit(rec.range), start);
  }

  // ---------------------------------------------------------------- the exact conditions

  /** A day on which an endless printed rule and its recurrence differ. */
  lemma PrintingDiffers(rec: Recurrence, start: nat, n: nat)
    requires Readable(rec.pattern) && Ending(rec.range) && GraphLimit(rec.range) == Forever && n >= start
    requires RuleHit(PrintedRule(rec.pattern, Forever), start, n) != SeriesHit(GraphSeries(rec.pattern), start, n)
    ensures !SameSeries(ToRule(rec), GraphSeries(rec.pattern), Forever, start)
  {
    hide ReadRule, ToRule, GraphSeries, SameSeries, RuleHit, SeriesHit, Readable, Ending, PrintedRule;
    PrintedReads(rec);
    SameRule(rec.pattern, Forever);
    DifferentSeries(ToRule(rec), GraphSeries(rec.pattern), start, n);
  }

  /** In a short month or year the recurrence falls on the last day, the printed rule on none. */
  lemma ShortMonthDiffers(p: Pattern, start: nat, n: nat) returns (last: nat)
    requires Complete(p) && Lower(p.ptype.GetOr("")) == "absolutemonthly"
    requires ShortMonth(p.dayOfMonth.GetOr(1), Interval(p), start, n)
    ensures last >= start && !RuleHit(PrintedRule(p, Forever), start, last) && SeriesHit(GraphSeries(p), start, last)
  {
    last := LastDay(n);
    hide Civil.DateOf, Lower, DayNumbers, KnownDays, WeekNumber;
  }

  lemma ShortYearDiffers(p: Pattern, start: nat, n: nat) returns (last: nat)
    requires Complete(p) && Lower(p.ptype.GetOr("")) == "absoluteyearly"
    requires ShortYear(p.month.GetOr(1), p.dayOfMonth.GetOr(1), Interval(p), start, n)
    ensures last >= start && !RuleHit(PrintedRule(p, Forever), start, last) && SeriesHit(GraphSeries(p), start, last)
  {
    last := LastDay(n);
    hide Civil.DateOf, Lower, DayNumbers, KnownDays, WeekNumber;
  }

  /** Printing an endless absolute monthly pattern keeps its days exactly if every month visited has the day. */
  lemma MonthlyPrintingIff(rec: Recurrence, start: nat)
    requires Complete(rec.pattern) && Ending(rec.range) && GraphLimit(rec.range) == Forever
    requires Lower(rec.pattern.ptype.GetOr("")) == "absolutemonthly"
    ensures SameSeries(ToRule(rec), GraphSeries(rec.pattern), Forever, start)
            <==> LongMonths(rec.pattern.dayOfMonth.GetOr(1), Interval(rec.pattern), start)
  {
    var p := rec.pattern;
    hide ToRule, GraphSeries, SameSeries, RuleHit, SeriesHit, PrintedRule, GraphLimit, Ending, KnownDays, Lower, LongMonths, ShortMonth;
    LongMonthsIff(p.dayOfMonth.GetOr(1), Interval(p), start);
    if n: nat :| ShortMonth(p.dayOfMonth.GetOr(1), Interval(p), start, n) {
      var last := ShortMonthDiffers(p, start, n);
      PrintingDiffers(rec, start, last);
    } else {
      PrintingKeepsDays(rec, start);
    }
  }

  /** Printing an endless absolute yearly pattern keeps its days exactly if its month has the day in every year visited. */
  lemma YearlyPrintingIff(rec: Recurrence, start: nat)
    requires Complete(rec.pattern) && Ending(rec.range) && GraphLimit(rec.range) == Forever
    requires Lower(rec.pattern.ptype.GetOr("")) == "absoluteyearly"
    ensures SameSeries(ToRule(rec), GraphSeries(rec.pattern), Forever, start)
            <==> LongYears(rec.pattern.month.GetOr(1), rec.pattern.dayOfMonth.GetOr(1), Interval(rec.pattern), start)
  {
    var p := rec.pattern;
    hide ToRule, GraphSeries, SameSeries, RuleHit, SeriesHit, PrintedRule, GraphLimit, Ending, KnownDays, Lower, LongYears, ShortYear;
    LongYearsIff(p.month.GetOr(1), p.dayOfMonth.GetOr(1), Interval(p), start);
    if n: nat :| ShortYear(p.month.GetOr(1), p.dayOfMonth.GetOr(1), Interval(p), start, n) {
      var last := ShortYearDiffers(p, start, n);
      PrintingDiffers(rec, start, last);
    } else {
      PrintingKeepsDays(rec, start);
    }
  }

  /** Printing an endless weekly pattern keeps its days exactly week by week, or on the start's side of the week's first day. */
  lemma WeeklyPrintingIff(rec: Recurrence, start: nat)
    requires Complete(rec.pattern) && Ending(rec.range) && GraphLimit(rec.range) == Forever
    requires Lower(rec.pattern.ptype.GetOr("")) == "weekly"
    ensures SameSeries(ToRule(rec), GraphSeries(rec.pattern), Forever, start)
            <==> Interval(rec.pattern) == 1 || OneSided(DayNumbers(rec.pattern.days.GetOr([])), start, FirstDay(rec.pattern))
  {
    var p := rec.pattern;
    hide ToRule, SameSeries, RuleHit, SeriesHit, GraphLimit, Ending, KnownDays, Lower, LongMonths, LongYears, OneSided, DayNumbers,
         Plainly;
    if Interval(p) == 1 || OneSided(DayNumbers(p.days.GetOr([])), start, FirstDay(p)) {
      PrintingKeepsDays(rec, start);
    } else {
      AreWeekdays(p.days.GetOr([]));
      var n := WeeklyHitsDiffer(DayNumbers(p.days.GetOr([])), Interval(p), start, FirstDay(p));
      PrintingDiffers(rec, start, n);
    }
  }

  lemma AreWeekdays(days: seq<string>)
    ensures forall w | w in DayNumbers(days) :: w < 7
  {
    hide Lower;
  }

  /** Printing an endless pattern keeps its days exactly if it is safe. */
  lemma EndlessPrintingIff(rec: Recurrence, start: nat)
    requires Complete(rec.pattern) && Ending(rec.range) && GraphLimit(rec.range) == Forever
    ensures SameSeries(ToRule(rec), GraphSeries(rec.pattern), Forever, start) <==> Safe(rec.pattern, start)
  {
    hide ToRule, GraphSeries, SameSeries, GraphLimit, Ending, KnownDays, Lower, LongMonths, LongYears, OneSided, DayNumbers;
    var ptype := Lower(rec.pattern.ptype.GetOr(""));
    if ptype == "weekly" {
      WeeklyPrintingIff(rec, start);
    } else if ptype == "absolutemonthly" {
      MonthlyPrintingIff(rec, start);
    } else if ptype == "absoluteyearly" {
      YearlyPrintingIff(rec, start);
    } else {
      PrintingKeepsDays(rec, start);
    }
  }

  // ---------------------------------------------------------------- the writer

  /** What the printed text is good for: it is read back, and it denotes the days of the recurrence. */
  ghost predicate Faithful(text: string, rec: Recurrence) {
    && (Known(rec) ==> forall dtstart :: FromRule(text, dtstart) == Ok(Canonical(rec, dtstart)))
    && (Complete(rec.pattern) && Ending(rec.range) ==>
          forall start: nat | Safe(rec.pattern, start) :: SameSeries(text, GraphSeries(rec.pattern), GraphLimit(rec.range), start))
  }

  lemma WrittenText(rec: Recurrence)
    ensures Faithful(ToRule(rec), rec)
  {
    hide ToRule, FromRule, Canonical, SameSeries, GraphSeries, GraphLimit, Known, Complete, Safe, Ending;
    if Known(rec) {
      forall dtstart
        ensures FromRule(ToRule(rec), dtstart) == Ok(Canonical(rec, dtstart))
      {
        RoundTrip(rec, dtstart);
      }
    }
    if Complete(rec.pattern) && Ending(rec.range) {
      forall start: nat | Safe(rec.pattern, start)
        ensures SameSeries(ToRule(rec), GraphSeries(rec.pattern), GraphLimit(rec.range), start)
      {
        PrintingKeepsDays(rec, start);
      }
    }
  }

  /** Writes the rule part by part. */
  method GraphToRrule(rec: Recurrence) returns (text: string)
    ensures Known(rec) ==> forall dtstart :: FromRule(text, dtstart) == Ok(Canonical(rec, dtstart))
    ensures Complete(rec.pattern) && Ending(rec.range) ==>
              forall start: nat | Safe(rec.pattern, start) :: SameSeries(text, GraphSeries(rec.pattern), GraphLimit(rec.range), start)
  {
    hide Lower, Dec, GraphDaysToRrule, Prefix, WeekNumber, FirstCode, Without, Join, FromRule, Canonical, SameSeries,
         GraphSeries, GraphLimit, Known, Complete, Safe, Ending;
    var p, r := rec.pattern, rec.range;
    var ptype := Lower(p.ptype.GetOr(""));
    var interval := Dec(p.interval.GetOr(1));
    var parts: seq<string> := [];
    if ptype == "daily" {
      parts := parts + ["FREQ=DAILY;INTERVAL=" + interval];
    } else if ptype == "weekly" {
      var days := GraphDaysToRrule(p.days.GetOr([]));
      parts := parts + ["FREQ=WEEKLY;INTERVAL=" + interval];
      if days != "" {
        parts := parts + ["BYDAY=" + days];
      }
    } else if ptype == "absolutemonthly" {
      parts := parts + ["FREQ=MONTHLY;INTERVAL=" + interval + ";BYMONTHDAY=" + Dec(p.dayOfMonth.GetOr(1))];
    } else if ptype == "relativemonthly" {
      var days := p.days.GetOr([]);
      if days != [] {
        parts := parts + ["FREQ=MONTHLY;INTERVAL=" + interval + ";BYDAY=" + Prefix(WeekNumber(p)) + FirstCode(days)];
      } else {
        parts := parts + ["FREQ=MONTHLY;INTERVAL=" + interval];
      }
    } else if ptype == "absoluteyearly" {
      parts := parts + ["FREQ=YEARLY;INTERVAL=" + interval + ";BYMONTH=" + Dec(p.month.GetOr(1))
                        + ";BYMONTHDAY=" + Dec(p.dayOfMonth.GetOr(1))];
    } else if ptype == "relativeyearly" {
      var days := p.days.GetOr([]);
      if days != [] {
        parts := parts + ["FREQ=YEARLY;INTERVAL=" + interval + ";BYMONTH=" + Dec(p.month.GetOr(1))
                          + ";BYDAY=" + Prefix(WeekNumber(p)) + FirstCode(days)];
      } else {
        parts := parts + ["FREQ=YEARLY;INTERVAL=" + interval + ";BYMONTH=" + Dec(p.month.GetOr(1))];
      }
    } else {
      parts := parts + ["FREQ=DAILY;INTERVAL=" + interval];
    }
    var rtype := Lower(r.rtype.GetOr("noEnd"));
    if rtype == "enddate" {
      var endDate := r.endDate.GetOr("");
      if endDate != "" {
        parts := parts + ["UNTIL=" + (Without(endDate, '-') + "T235959Z")];
      }
    } else if rtype == "numbered" {
      parts := parts + ["COUNT=" + Dec(r.times.GetOr(1))];
    }
    assert parts == PatternParts(p) + RangeParts(r);
    text := "RRULE:" + Join(parts, ";");
    assert text == ToRule(rec);
    WrittenText(rec);
  }
}
