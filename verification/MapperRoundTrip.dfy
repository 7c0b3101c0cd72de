/** Graph to RRULE to Graph: what survives the round trip. */
module MapperRoundTrip {
  import opened Basics
  import Civil
  import opened RecurrenceMapper
  import opened RuleText
  import opened Text

  // ---------------------------------------------------------------- the domain of the tables

  predicate KnownDay(day: string) {
    CodeOfDay(Lower(day)).Some?
  }

  predicate KnownDays(days: seq<string>) {
    forall i | 0 <= i < |days| :: KnownDay(days[i])
  }

  /** Day names of the table and end dates that look like dates; everything else is free. */
  predicate Known(rec: Recurrence) {
    && KnownDays(rec.pattern.days.GetOr([]))
    && (rec.range.endDate.GetOr("") == "" || DateShape(rec.range.endDate.value))
  }

  predicate Relative(p: Pattern) {
    Lower(p.ptype.GetOr("")) in ["relativemonthly", "relativeyearly"]
  }

  /** A relative pattern that does not say which weekday. */
  predicate Dayless(p: Pattern) {
    Relative(p) && p.days.GetOr([]) == []
  }

  // ---------------------------------------------------------------- what the printed text says

  function OrdinalText(p: Pattern): string
    requires p.days.GetOr([]) != []
  {
    Prefix(WeekNumber(p)) + FirstCode(p.days.value)
  }

  function RangeFields(f: Fields, r: Range): Fields {
    var rtype := Lower(r.rtype.GetOr("noEnd"));
    if rtype == "enddate" && r.endDate.GetOr("") != "" then f.(until := Some(Without(r.endDate.value, '-') + "T235959Z"))
    else if rtype == "numbered" then f.(count := Some(Dec(r.times.GetOr(1))))
    else f
  }

  function PatternFields(p: Pattern): Fields {
    var ptype := Lower(p.ptype.GetOr(""));
    var f := Fields(Some("DAILY"), Some(Dec(p.interval.GetOr(1))), None, None, None, None, None);
    var days := p.days.GetOr([]);
    if ptype == "weekly" then
      f.(freq := Some("WEEKLY"), byday := if GraphDaysToRrule(days) != "" then Some(GraphDaysToRrule(days)) else None)
    else if ptype == "absolutemonthly" then
      f.(freq := Some("MONTHLY"), bymonthday := Some(Dec(p.dayOfMonth.GetOr(1))))
    else if ptype == "relativemonthly" then
      f.(freq := Some("MONTHLY"), byday := if days != [] then Some(OrdinalText(p)) else None)
    else if ptype == "absoluteyearly" then
      f.(freq := Some("YEARLY"), bymonth := Some(Dec(p.month.GetOr(1))), bymonthday := Some(Dec(p.dayOfMonth.GetOr(1))))
    else if ptype == "relativeyearly" then
      f.(freq := Some("YEARLY"), bymonth := Some(Dec(p.month.GetOr(1))), byday := if days != [] then Some(OrdinalText(p)) else None)
    else f
  }

  function RuleFields(rec: Recurrence): Fields {
    RangeFields(PatternFields(rec.pattern), rec.range)
  }

  lemma SameHead(a: seq<string>, b: seq<string>, rest: seq<string>)
    requires a != [] && b != [] && Join(a, ";") == Join(b, ";")
    ensures Join(a + rest, ";") == Join(b + rest, ";")
  {
    if rest == [] {
      assert a + rest == a && b + rest == b;
    } else {
      JoinConcat(a, rest, ";");
      JoinConcat(b, rest, ";");
    }
  }

  lemma Join2(a: string, b: string)
    ensures Join([a, b], ";") == a + ";" + b
  {
    assert [a, b][1..] == [b];
  }

  function Extended(text: string, key: string, value: Option<string>): string {
    if value.Some? then text + key + value.value else text
  }

  lemma AddText(parts: seq<string>, key: string, value: Option<string>, joined: string)
    requires parts != [] && Join(parts, ";") == joined
    ensures Join(parts + OptText(key, value), ";") == Extended(joined, ";" + key, value)
  {
    if value.Some? {
      JoinConcat(parts, [key + value.value], ";");
      assert joined + ";" + (key + value.value) == joined + (";" + key) + value.value;
    } else {
      assert parts + [] == parts;
    }
  }

  /** The properties of a pattern, joined, are the text the code formats at once. */
  lemma JoinedFields(f: Fields, head: string)
    requires f.freq.Some? && f.interval.Some? && f.until.None? && f.count.None?
    requires head == "FREQ=" + f.freq.value + ";" + ("INTERVAL=" + f.interval.value)
    ensures Join(PropTexts(PairsOf(f)), ";")
         == Extended(Extended(Extended(head, ";BYMONTH=", f.bymonth), ";BYMONTHDAY=", f.bymonthday), ";BYDAY=", f.byday)
  {
    TextsOf(f);
    hide PairsOf, PropTexts;
    var first := ["FREQ=" + f.freq.value, "INTERVAL=" + f.interval.value];
    Join2(first[0], first[1]);
    var m := first + OptText("BYMONTH=", f.bymonth);
    var d := m + OptText("BYMONTHDAY=", f.bymonthday);
    var w := d + OptText("BYDAY=", f.byday);
    assert PropTexts(PairsOf(f)) == w by {
      assert OptText("FREQ=", f.freq) + OptText("INTERVAL=", f.interval) == first;
      assert OptText("UNTIL=", f.until) == [] && OptText("COUNT=", f.count) == [];
      assert w + [] + [] == w;
    }
    hide Join;
    AddText(first, "BYMONTH=", f.bymonth, head);
    AddText(m, "BYMONTHDAY=", f.bymonthday, Extended(head, ";" + "BYMONTH=", f.bymonth));
    AddText(d, "BYDAY=", f.byday, Extended(Extended(head, ";" + "BYMONTH=", f.bymonth), ";" + "BYMONTHDAY=", f.bymonthday));
    assert ";" + "BYMONTH=" == ";BYMONTH=" && ";" + "BYMONTHDAY=" == ";BYMONTHDAY=" && ";" + "BYDAY=" == ";BYDAY=";
  }

  lemma Head(freq: string, interval: string)
    ensures freq == "DAILY" ==> "FREQ=" + freq + ";" + ("INTERVAL=" + interval) == "FREQ=DAILY;INTERVAL=" + interval
    ensures freq == "WEEKLY" ==> "FREQ=" + freq + ";" + ("INTERVAL=" + interval) == "FREQ=WEEKLY;INTERVAL=" + interval
    ensures freq == "MONTHLY" ==> "FREQ=" + freq + ";" + ("INTERVAL=" + interval) == "FREQ=MONTHLY;INTERVAL=" + interval
    ensures freq == "YEARLY" ==> "FREQ=" + freq + ";" + ("INTERVAL=" + interval) == "FREQ=YEARLY;INTERVAL=" + interval
  {
    assert "FREQ=" + "DAILY" + ";" + "INTERVAL=" == "FREQ=DAILY;INTERVAL=";
    assert "FREQ=" + "WEEKLY" + ";" + "INTERVAL=" == "FREQ=WEEKLY;INTERVAL=";
    assert "FREQ=" + "MONTHLY" + ";" + "INTERVAL=" == "FREQ=MONTHLY;INTERVAL=";
    assert "FREQ=" + "YEARLY" + ";" + "INTERVAL=" == "FREQ=YEARLY;INTERVAL=";
    assert "FREQ=" + freq + ";" + ("INTERVAL=" + interval) == "FREQ=" + freq + ";" + "INTERVAL=" + interval;
  }

  lemma PatternText(p: Pattern)
    ensures Join(PatternParts(p), ";") == Join(PropTexts(PairsOf(PatternFields(p))), ";")
  {
    hide Lower, GraphDaysToRrule, WeekNumber, Prefix, FirstCode, Dec, PairsOf, PropTexts;
    if Lower(p.ptype.GetOr("")) == "weekly" {
      WeeklyText(p);
    } else {
      OnePartText(p);
    }
  }

  lemma WeeklyText(p: Pattern)
    requires Lower(p.ptype.GetOr("")) == "weekly"
    ensures Join(PatternParts(p), ";") == Join(PropTexts(PairsOf(PatternFields(p))), ";")
  {
    hide Lower, GraphDaysToRrule, Dec, PairsOf, PropTexts;
    var f := PatternFields(p);
    var interval := f.interval.value;
    Head(f.freq.value, interval);
    JoinedFields(f, "FREQ=" + f.freq.value + ";" + ("INTERVAL=" + interval));
    AddText(["FREQ=WEEKLY;INTERVAL=" + interval], "BYDAY=", f.byday, "FREQ=WEEKLY;INTERVAL=" + interval);
    assert ";" + "BYDAY=" == ";BYDAY=";
  }

  /** Patterns other than weekly are one formatted part. */
  lemma OnePartText(p: Pattern)
    requires Lower(p.ptype.GetOr("")) != "weekly"
    ensures Join(PatternParts(p), ";") == Join(PropTexts(PairsOf(PatternFields(p))), ";")
  {
    hide Lower, WeekNumber, Prefix, FirstCode, Dec, PairsOf, PropTexts, PatternParts, Extended, Join;
    var f := PatternFields(p);
    Head(f.freq.value, f.interval.value);
    JoinedFields(f, "FREQ=" + f.freq.value + ";" + ("INTERVAL=" + f.interval.value));
    OnePart(p);
  }

  lemma OnePart(p: Pattern)
    requires Lower(p.ptype.GetOr("")) != "weekly"
    ensures var f := PatternFields(p);
            && f.freq.Some? && f.interval.Some?
            && Join(PatternParts(p), ";")
               == Extended(Extended(Extended("FREQ=" + f.freq.value + ";" + ("INTERVAL=" + f.interval.value), ";BYMONTH=", f.bymonth),
                                    ";BYMONTHDAY=", f.bymonthday), ";BYDAY=", f.byday)
  {
    hide Lower, WeekNumber, Prefix, FirstCode, Dec;
    var f := PatternFields(p);
    Head(f.freq.value, f.interval.value);
    if f.byday.Some? {
      OrdinalAppended(Extended("FREQ=" + f.freq.value + ";" + ("INTERVAL=" + f.interval.value), ";BYMONTH=", f.bymonth),
                      Prefix(WeekNumber(p)), FirstCode(p.days.value));
    }
  }

  lemma OrdinalAppended(before: string, prefix: string, code: string)
    ensures before + ";BYDAY=" + (prefix + code) == before + ";BYDAY=" + prefix + code
  {
  }

  lemma RangeText(f: Fields, r: Range)
    requires f.until.None? && f.count.None?
    ensures PropTexts(PairsOf(RangeFields(f, r))) == PropTexts(PairsOf(f)) + RangeParts(r)
  {
    hide Lower, Dec, Without, PairsOf, PropTexts, OptText;
    TextsOf(f);
    TextsOf(RangeFields(f, r));
    OptionalTexts(f.until, f.count);
    RangeOptions(f, r);
  }

  lemma OptionalTexts(until: Option<string>, count: Option<string>)
    requires until.None? && count.None?
    ensures OptText("UNTIL=", until) == [] && OptText("COUNT=", count) == []
  {
  }

  /** The end of a range as optional properties, of which at most one is there. */
  lemma RangeOptions(f: Fields, r: Range)
    requires f.until.None? && f.count.None?
    ensures OptText("UNTIL=", RangeFields(f, r).until) + OptText("COUNT=", RangeFields(f, r).count) == RangeParts(r)
  {
    hide Lower, Dec, Without;
  }

  lemma NotEmpty(p: Pattern)
    ensures PatternParts(p) != [] && PropTexts(PairsOf(PatternFields(p))) != []
    ensures PatternFields(p).until.None? && PatternFields(p).count.None?
  {
    hide Lower, GraphDaysToRrule, Dec, OrdinalText;
    TextsOf(PatternFields(p));
  }

  /** The printed text is exactly the properties of RuleFields. */
  lemma PrintsItsFields(rec: Recurrence)
    ensures ToRule(rec) == TextOf(PairsOf(RuleFields(rec)))
  {
    var f := PatternFields(rec.pattern);
    NotEmpty(rec.pattern);
    PatternText(rec.pattern);
    RangeText(f, rec.range);
    hide PatternFields, PatternParts, RangeParts, RangeFields, Join, PairsOf, PropTexts;
    SameHead(PatternParts(rec.pattern), PropTexts(PairsOf(f)), RangeParts(rec.range));
  }

  // ---------------------------------------------------------------- the printed values are plain

  predicate IsCode(s: string) {
    DayOfCode(s).Some?
  }

  lemma CodePlain(code: string)
    requires IsCode(code)
    ensures Plain(code) && |code| == 2
  {
  }

  lemma CodesPlain(codes: seq<string>)
    requires forall i | 0 <= i < |codes| :: IsCode(codes[i])
    ensures Plain(Join(codes, ",")) && (codes != [] ==> Join(codes, ",") != "")
  {
    forall i | 0 <= i < |codes|
      ensures Plain(codes[i]) && |codes[i]| == 2
    {
      CodePlain(codes[i]);
    }
    JoinPlain(codes);
  }

  lemma OrdinalPlain(p: Pattern)
    requires p.days.GetOr([]) != []
    ensures Plain(OrdinalText(p)) && OrdinalText(p) != ""
  {
    DecPlain(WeekNumber(p));
    hide Dec, WeekNumber;
  }

  lemma PatternPlain(p: Pattern)
    requires KnownDays(p.days.GetOr([]))
    ensures PlainFields(PatternFields(p))
  {
    hide Plain, Lower, Dec, OrdinalText, KnownDays, GraphDaysToRrule;
    FrequenciesPlain();
    DecPlain(p.interval.GetOr(1));
    DecPlain(p.dayOfMonth.GetOr(1));
    DecPlain(p.month.GetOr(1));
    DaysPlain(p.days.GetOr([]));
    if p.days.GetOr([]) != [] {
      OrdinalPlain(p);
    }
  }

  lemma DaysPlain(days: seq<string>)
    requires KnownDays(days)
    ensures Plain(GraphDaysToRrule(days))
  {
    ListCodesAreCodes(days);
    CodesPlain(ListCodes(days));
  }

  lemma ListCodesAreCodes(days: seq<string>)
    requires KnownDays(days)
    ensures |ListCodes(days)| == |days| && forall i | 0 <= i < |days| :: IsCode(ListCodes(days)[i])
  {
    hide Lower;
  }

  lemma RangePlain(f: Fields, r: Range)
    requires PlainFields(f) && (r.endDate.GetOr("") == "" || DateShape(r.endDate.value))
    ensures PlainFields(RangeFields(f, r))
  {
    hide Plain, Lower, Dec, Without, DateShape;
    DecPlain(r.times.GetOr(1));
    if r.endDate.GetOr("") != "" {
      UntilPlain(r.endDate.value);
    }
  }

  lemma FieldsPlain(rec: Recurrence)
    requires Known(rec)
    ensures PlainFields(RuleFields(rec))
  {
    hide PlainFields, PatternFields, RangeFields, KnownDays, DateShape;
    PatternPlain(rec.pattern);
    RangePlain(PatternFields(rec.pattern), rec.range);
  }

  // ---------------------------------------------------------------- reading the fields

  function DayName(day: string): string {
    DayOfCode(ListCode(day)).GetOr("monday")
  }

  function DayNames(days: seq<string>): seq<string> {
    seq(|days|, i requires 0 <= i < |days| => DayName(days[i]))
  }

  function IndexName(p: Pattern): string {
    WeekName(WeekNumber(p)).GetOr("first")
  }

  /** What the round trip makes of a pattern. */
  function CanonicalPattern(p: Pattern, dtstart: Civil.Date): Pattern {
    var ptype := Lower(p.ptype.GetOr(""));
    var days := p.days.GetOr([]);
    var c := NOTHING.(interval := Some(p.interval.GetOr(1)));
    if ptype == "weekly" then
      c.(ptype := Some("weekly"), days := if days != [] then Some(DayNames(days)) else None, firstDay := Some("monday"))
    else if ptype == "absolutemonthly" then
      c.(ptype := Some("absoluteMonthly"), dayOfMonth := Some(p.dayOfMonth.GetOr(1)))
    else if ptype == "relativemonthly" then
      if days != [] then c.(ptype := Some("relativeMonthly"), index := Some(IndexName(p)), days := Some([DayName(days[0])]))
      else c.(ptype := Some("absoluteMonthly"), dayOfMonth := Some(dtstart.d))
    else if ptype == "absoluteyearly" then
      c.(ptype := Some("absoluteYearly"), month := Some(p.month.GetOr(1)), dayOfMonth := Some(p.dayOfMonth.GetOr(1)))
    else if ptype == "relativeyearly" then
      if days != [] then
        c.(ptype := Some("relativeYearly"), month := Some(p.month.GetOr(1)), index := Some(IndexName(p)), days := Some([DayName(days[0])]))
      else c.(ptype := Some("absoluteYearly"), month := Some(p.month.GetOr(1)))
    else c.(ptype := Some("daily"))
  }

  function CanonicalRange(r: Range, dtstart: Civil.Date): Range {
    var rtype := Lower(r.rtype.GetOr("noEnd"));
    var c := Range(Some("noEnd"), Some(Civil.DateText(dtstart)), None, None);
    if rtype == "enddate" && r.endDate.GetOr("") != "" then c.(rtype := Some("endDate"), endDate := r.endDate)
    else if rtype == "numbered" then c.(rtype := Some("numbered"), times := Some(r.times.GetOr(1)))
    else c
  }

  function Canonical(rec: Recurrence, dtstart: Civil.Date): Recurrence {
    Recurrence(CanonicalPattern(rec.pattern, dtstart), CanonicalRange(rec.range, dtstart))
  }

  /** Weekday lists survive printing and splitting. */
  lemma DaysBack(days: seq<string>)
    requires KnownDays(days) && days != []
    ensures GraphDaysToRrule(days) != "" && RruleDaysToGraph(GraphDaysToRrule(days)) == DayNames(days)
  {
    ListCodesAreCodes(days);
    var codes := ListCodes(days);
    forall i | 0 <= i < |codes|
      ensures ',' !in codes[i] && ListDay(codes[i]) == DayName(days[i])
    {
      CodeBack(codes[i]);
    }
    CodesPlain(codes);
    SplitJoined(codes, ',');
  }

  lemma CodeBack(code: string)
    requires IsCode(code)
    ensures ',' !in code && ListDay(code) == DayOfCode(code).value
    ensures IsUpper(code[0]) && IsUpper(code[1])
  {
  }

  lemma {:induction false} RunOfDigits(digits: string, rest: string)
    requires AllDigits(digits) && (rest == "" || !IsDigit(rest[0]))
    ensures DigitRun(digits + rest) == |digits|
  {
    if digits == "" {
      assert digits + rest == rest;
    } else {
      RunOfDigits(digits[1..], rest);
      assert (digits + rest)[1..] == digits[1..] + rest;
    }
  }

  lemma UnsignedBack(digits: string, code: string)
    requires AllDigits(digits) && digits != "" && IsCode(code)
    ensures MatchUnsigned(digits + code) == Some((Value(digits), code))
  {
    CodeBack(code);
    CodePlain(code);
    RunOfDigits(digits, code);
    hide Value, DigitRun, IsCode;
    var s := digits + code;
    assert s[..|digits|] == digits && s[|digits|..|digits| + 2] == code;
  }

  /** How a sign in front of digits is seen. */
  lemma SignSplits(sign: string, rest: string)
    requires sign in ["", "+", "-"] && rest != "" && IsDigit(rest[0])
    ensures var text := sign + rest;
            && text != "" && (text[0] in "+-" <==> sign != "") && (text[0] in "+-" || IsDigit(text[0]))
            && (if text[0] in "+-" then text[1..] else text) == rest
            && (text[0] in "+-" ==> (text[0] == '-' <==> sign == "-"))
  {
    if sign == "" {
      assert sign + rest == rest;
    } else {
      assert (sign + rest)[1..] == rest;
    }
  }

  lemma SignedBack(sign: string, digits: string, code: string)
    requires sign in ["", "+", "-"] && AllDigits(digits) && digits != "" && IsCode(code)
    ensures MatchOrdinal(sign + (digits + code)) == Some((Value(digits) * (if sign == "-" then -1 else 1), code))
  {
    UnsignedBack(digits, code);
    SignSplits(sign, digits + code);
    hide Value, IsCode, MatchUnsigned, AllDigits, IsDigit;
  }

  lemma SignedHas(sign: string, digits: string, code: string)
    requires sign in ["", "+", "-"] && AllDigits(digits) && digits != "" && |code| == 2
    ensures HasOrdinal(sign + (digits + code))
  {
    SignSplits(sign, digits + code);
    hide AllDigits;
    var text := sign + (digits + code);
    assert IsDigit(text[0]) || text[0] in "+-";
  }

  /** The printed ordinal is matched with its number and its weekday. */
  lemma OrdinalBack(n: int, code: string)
    requires IsCode(code)
    ensures MatchOrdinal(Prefix(n) + code) == Some((n, code)) && HasOrdinal(Prefix(n) + code)
  {
    var digits := DecNat(if n < 0 then -n else n);
    var sign := if n > 0 then "+" else if n < 0 then "-" else "";
    CodePlain(code);
    ValueOfDecNat(if n < 0 then -n else n);
    PrefixText(n, code);
    SignedBack(sign, digits, code);
    SignedHas(sign, digits, code);
    hide DecNat, Value, AllDigits, MatchOrdinal, HasOrdinal, IsCode, Prefix;
  }

  lemma PrefixText(n: int, code: string)
    ensures Prefix(n) + code
         == (if n > 0 then "+" else if n < 0 then "-" else "") + (DecNat(if n < 0 then -n else n) + code)
  {
    hide DecNat;
  }

  /** A printed end date is read back. */
  lemma UntilBack(s: string)
    requires DateShape(s)
    ensures var clean := Split(Without(Without(s, '-') + "T235959Z", 'Z'), 'T')[0];
            Slice(clean, 0, 4) + "-" + Slice(clean, 4, 6) + "-" + Slice(clean, 6, 8) == s
  {
    WithoutDashes(s);
    CleanUntil(DateDigits(s));
    hide Without, Split, AllDigits;
  }

  lemma CleanUntil(digits: string)
    requires AllDigits(digits)
    ensures Split(Without(digits + "T235959Z", 'Z'), 'T')[0] == digits
  {
    WithoutConcat(digits, "T235959Z", 'Z');
    WithoutDigits(digits, 'Z');
    EndOfDay();
    hide Without;
    SplitAtFirst(digits, 'T', "235959");
    assert digits + "T235959" == digits + ['T'] + "235959";
  }

  lemma EndOfDay()
    ensures Without("T235959Z", 'Z') == "T235959"
  {
    WithoutConcat("T235959", "Z", 'Z');
    WithoutAbsent("T235959", 'Z');
    assert "T235959" + "Z" == "T235959Z";
  }

  lemma FirstCodeBack(days: seq<string>)
    requires KnownDays(days) && days != []
    ensures IsCode(FirstCode(days)) && DayOfCode(FirstCode(days)).GetOr("monday") == DayName(days[0])
  {
    assert KnownDay(days[0]);
    hide Lower;
  }

  /** The ordinal weekday of a relative pattern is read back into the pattern. */
  lemma WithOrdinalBack(p: Pattern, q: Pattern)
    requires KnownDays(p.days.GetOr([])) && p.days.GetOr([]) != []
    ensures OrdinalText(p) != "" && HasOrdinal(OrdinalText(p))
    ensures WithOrdinal(q, OrdinalText(p)) == q.(index := Some(IndexName(p)), days := Some([DayName(p.days.value[0])]))
  {
    FirstCodeBack(p.days.value);
    OrdinalPlain(p);
    OrdinalBack(WeekNumber(p), FirstCode(p.days.value));
  }

  /** Reading the properties of a printed pattern gives its canonical form. */
  lemma PatternBack(p: Pattern, dtstart: Civil.Date)
    requires KnownDays(p.days.GetOr([]))
    ensures PatternOf(PatternFields(p), dtstart) == Ok(CanonicalPattern(p, dtstart))
  {
    hide Lower, KnownDays, PatternOf, PatternFields, CanonicalPattern;
    var ptype := Lower(p.ptype.GetOr(""));
    if ptype == "weekly" {
      WeeklyBack(p, dtstart);
    } else if ptype in ["relativemonthly", "relativeyearly"] {
      RelativeBack(p, dtstart);
    } else {
      AbsoluteBack(p, dtstart);
    }
  }

  lemma WeeklyBack(p: Pattern, dtstart: Civil.Date)
    requires KnownDays(p.days.GetOr([])) && Lower(p.ptype.GetOr("")) == "weekly"
    ensures PatternOf(PatternFields(p), dtstart) == Ok(CanonicalPattern(p, dtstart))
  {
    hide Lower, Dec, ParseInt, GraphDaysToRrule, RruleDaysToGraph, HasOrdinal, OrdinalText, WithOrdinal, KnownDays, DayNames, IndexName;
    ParsePrinted(p.interval.GetOr(1));
    NoDays();
    if p.days.GetOr([]) != [] {
      DaysBack(p.days.value);
    }
  }

  lemma AbsoluteBack(p: Pattern, dtstart: Civil.Date)
    requires Lower(p.ptype.GetOr("")) !in ["weekly", "relativemonthly", "relativeyearly"]
    ensures PatternOf(PatternFields(p), dtstart) == Ok(CanonicalPattern(p, dtstart))
  {
    hide Lower, Dec, ParseInt, GraphDaysToRrule, RruleDaysToGraph, HasOrdinal, OrdinalText, WithOrdinal, DayNames, IndexName, Plain, IsDigit;
    ParsePrinted(p.interval.GetOr(1));
    ParsePrinted(p.dayOfMonth.GetOr(1));
    ParsePrinted(p.month.GetOr(1));
    DecPlain(p.dayOfMonth.GetOr(1));
    DecPlain(p.month.GetOr(1));
  }

  lemma RelativeBack(p: Pattern, dtstart: Civil.Date)
    requires KnownDays(p.days.GetOr([])) && Lower(p.ptype.GetOr("")) in ["relativemonthly", "relativeyearly"]
    ensures PatternOf(PatternFields(p), dtstart) == Ok(CanonicalPattern(p, dtstart))
  {
    hide Lower, Dec, ParseInt, GraphDaysToRrule, RruleDaysToGraph, HasOrdinal, OrdinalText, WithOrdinal, KnownDays, DayNames, DayName,
         Plain, IsDigit, IndexName;
    ParsePrinted(p.interval.GetOr(1));
    ParsePrinted(p.month.GetOr(1));
    DecPlain(p.month.GetOr(1));
    if p.days.GetOr([]) != [] {
      var q := NOTHING.(interval := Some(p.interval.GetOr(1)));
      WithOrdinalBack(p, q.(ptype := Some("relativeMonthly")));
      WithOrdinalBack(p, q.(ptype := Some("relativeYearly"), month := Some(p.month.GetOr(1))));
    }
  }

  lemma NoDays()
    ensures GraphDaysToRrule([]) == ""
  {
  }

  lemma RangeLeavesPattern(f: Fields, r: Range, dtstart: Civil.Date)
    ensures PatternOf(RangeFields(f, r), dtstart) == PatternOf(f, dtstart)
  {
    hide ParseInt, RruleDaysToGraph, HasOrdinal, WithOrdinal, Lower, Dec, Without;
  }

  lemma RangeBack(f: Fields, r: Range, dtstart: Civil.Date)
    requires f.until.None? && f.count.None?
    requires r.endDate.GetOr("") == "" || DateShape(r.endDate.value)
    ensures RangeOf(RangeFields(f, r), dtstart) == Ok(CanonicalRange(r, dtstart))
  {
    hide Lower, Dec, ParseInt, Split, Without, DateShape, Slice, Plain;
    ParsePrinted(r.times.GetOr(1));
    DecPlain(r.times.GetOr(1));
    if r.endDate.GetOr("") != "" {
      UntilBack(r.endDate.value);
    }
  }

  // ---------------------------------------------------------------- the round trip

  /** Graph to RRULE to Graph gives the canonical form, for every recurrence the tables cover. */
  lemma RoundTrip(rec: Recurrence, dtstart: Civil.Date)
    requires Known(rec)
    ensures FromRule(ToRule(rec), dtstart) == Ok(Canonical(rec, dtstart))
  {
    hide PatternFields, RangeFields, PatternOf, RangeOf, PlainFields, PairsOf, TextOf, KnownDays, DateShape,
         CanonicalPattern, CanonicalRange;
    NotEmpty(rec.pattern);
    PrintsItsFields(rec);
    FieldsPlain(rec);
    FrequencySet(rec);
    ReadBack(RuleFields(rec));
    PatternBack(rec.pattern, dtstart);
    RangeLeavesPattern(PatternFields(rec.pattern), rec.range, dtstart);
    RangeBack(PatternFields(rec.pattern), rec.range, dtstart);
  }

  lemma FrequencySet(rec: Recurrence)
    ensures RuleFields(rec).freq.Some?
  {
    hide Lower, Dec, GraphDaysToRrule, OrdinalText, Without;
  }

  /** The canonical spellings: what the reader itself produces, with nothing missing. */
  predicate WellFormed(rec: Recurrence, dtstart: Civil.Date) {
    var p, r := rec.pattern, rec.range;
    && p.interval.Some?
    && (|| p == NOTHING.(ptype := Some("daily"), interval := p.interval)
        || (p == NOTHING.(ptype := Some("weekly"), interval := p.interval, days := p.days, firstDay := Some("monday"))
            && (p.days.Some? ==> p.days.value != [] && forall i | 0 <= i < |p.days.value| :: CodeOfDay(p.days.value[i]).Some?))
        || (p == NOTHING.(ptype := Some("absoluteMonthly"), interval := p.interval, dayOfMonth := p.dayOfMonth) && p.dayOfMonth.Some?)
        || (p == NOTHING.(ptype := Some("absoluteYearly"), interval := p.interval, month := p.month, dayOfMonth := p.dayOfMonth)
            && p.month.Some? && p.dayOfMonth.Some?)
        || (p == NOTHING.(ptype := Some("relativeMonthly"), interval := p.interval, days := p.days, index := p.index) && OneDay(p))
        || (p == NOTHING.(ptype := Some("relativeYearly"), interval := p.interval, month := p.month, days := p.days, index := p.index)
            && p.month.Some? && OneDay(p)))
    && r.startDate == Some(Civil.DateText(dtstart))
    && (|| r == Range(Some("noEnd"), r.startDate, None, None)
        || (r == Range(Some("numbered"), r.startDate, None, r.times) && r.times.Some?)
        || (r == Range(Some("endDate"), r.startDate, r.endDate, None) && r.endDate.Some? && DateShape(r.endDate.value)))
  }

  predicate OneDay(p: Pattern) {
    && p.days.Some? && |p.days.value| == 1 && CodeOfDay(p.days.value[0]).Some?
    && p.index.Some? && WeekIndex(p.index.value).Some?
  }

  lemma LowerTypes()
    ensures Lower("daily") == "daily" && Lower("weekly") == "weekly" && Lower("absoluteMonthly") == "absolutemonthly"
         && Lower("relativeMonthly") == "relativemonthly" && Lower("absoluteYearly") == "absoluteyearly"
         && Lower("relativeYearly") == "relativeyearly" && Lower("noEnd") == "noend" && Lower("numbered") == "numbered"
         && Lower("endDate") == "enddate"
  {
  }

  lemma LowerDay(day: string)
    requires CodeOfDay(day).Some?
    ensures Lower(day) == day && DayName(day) == day
  {
    AlreadyLower(day);
    hide Lower;
  }

  lemma AlreadyLower(s: string)
    requires forall c | c in s :: !('A' <= c <= 'Z')
    ensures Lower(s) == s
  {
    forall i | 0 <= i < |s|
      ensures Lower(s)[i] == s[i]
    {
      assert s[i] in s;
    }
  }

  lemma LowerIndex(name: string)
    requires WeekIndex(name).Some?
    ensures Lower(name) == name && WeekName(WeekIndex(name).value) == Some(name)
  {
  }

  lemma CanonicalDays(days: seq<string>)
    requires forall i | 0 <= i < |days| :: CodeOfDay(days[i]).Some?
    ensures DayNames(days) == days && KnownDays(days) && (|days| == 1 ==> [DayName(days[0])] == days)
  {
    forall i | 0 <= i < |days|
      ensures DayName(days[i]) == days[i] && KnownDay(days[i])
    {
      LowerDay(days[i]);
    }
    hide Lower, DayName, KnownDay, CodeOfDay;
  }

  lemma CanonicalIsIdentity(rec: Recurrence, dtstart: Civil.Date)
    requires WellFormed(rec, dtstart)
    ensures Known(rec) && Canonical(rec, dtstart) == rec
  {
    CanonicalPatternIsIdentity(rec, dtstart);
    LowerTypes();
    hide Lower, KnownDays, DateShape, CanonicalPattern;
  }

  lemma CanonicalPatternIsIdentity(rec: Recurrence, dtstart: Civil.Date)
    requires WellFormed(rec, dtstart)
    ensures KnownDays(rec.pattern.days.GetOr([])) && CanonicalPattern(rec.pattern, dtstart) == rec.pattern
  {
    hide Lower, DayName, DayNames, CodeOfDay, KnownDays, DateShape, IndexName, WeekIndex;
    LowerTypes();
    var p := rec.pattern;
    CanonicalDays(p.days.GetOr([]));
    if p.index.Some? && OneDay(p) {
      CanonicalIndex(p);
    }
  }

  lemma CanonicalIndex(p: Pattern)
    requires p.index.Some? && WeekIndex(p.index.value).Some?
    ensures IndexName(p) == p.index.value
  {
    LowerIndex(p.index.value);
  }

  /** All six pattern types with all three ranges come back unchanged. */
  lemma RoundTripIsIdentity(rec: Recurrence, dtstart: Civil.Date)
    requires WellFormed(rec, dtstart)
    ensures FromRule(ToRule(rec), dtstart) == Ok(rec)
  {
    CanonicalIsIdentity(rec, dtstart);
    RoundTrip(rec, dtstart);
  }

  lemma DayNameStable(day: string)
    requires KnownDay(day)
    ensures KnownDay(DayName(day)) && ListCode(DayName(day)) == ListCode(day)
  {
    assert IsCode(ListCode(day)) by {
      hide Lower;
    }
    hide ListCode;
    LowerDay(DayName(day));
    CodeOfName(ListCode(day));
  }

  lemma CodeOfName(code: string)
    requires IsCode(code)
    ensures ListCode(DayOfCode(code).value) == code && CodeOfDay(DayOfCode(code).value) == Some(code)
  {
    hide Lower, Upper, DayName;
    LowerDay(DayOfCode(code).value);
  }

  lemma DaysStable(days: seq<string>)
    requires KnownDays(days) && days != []
    ensures KnownDays(DayNames(days)) && ListCodes(DayNames(days)) == ListCodes(days)
    ensures KnownDays([DayName(days[0])]) && FirstCode([DayName(days[0])]) == FirstCode(days)
  {
    forall i | 0 <= i < |days|
      ensures KnownDay(DayName(days[i])) && ListCode(DayName(days[i])) == ListCode(days[i])
    {
      DayNameStable(days[i]);
    }
    assert KnownDay(days[0]);
    hide Lower, DayName, DayOfCode;
  }

  lemma WeekNumberStable(p: Pattern, q: Pattern)
    requires q.index == Some(IndexName(p))
    ensures WeekNumber(q) == WeekNumber(p)
  {
    var n := WeekNumber(p);
    assert WeekName(n).Some? && WeekIndex(WeekName(n).value) == Some(n) by {
      hide Lower;
    }
    LowerIndex(WeekName(n).value);
  }

  /** The canonical form has the same properties, if the weekday of a relative pattern is there. */
  lemma PatternStable(p: Pattern, dtstart: Civil.Date)
    requires KnownDays(p.days.GetOr([]))
    ensures var c := CanonicalPattern(p, dtstart);
            && KnownDays(c.days.GetOr([]))
            && (!Dayless(p) ==> PatternFields(c) == PatternFields(p))
            && (Dayless(p) ==> PatternFields(c).bymonthday.Some? && PatternFields(p).bymonthday.None?)
  {
    LowerTypes();
    var days := p.days.GetOr([]);
    var c := CanonicalPattern(p, dtstart);
    if days != [] {
      DaysStable(days);
      if c.index.Some? {
        assert c.index == Some(IndexName(p)) by {
          hide Lower, DayName, IndexName;
        }
        WeekNumberStable(p, c);
      }
    } else {
      NoDays();
    }
    hide Lower, Dec, DayName, DayNames, ListCodes, WeekNumber, FirstCode, KnownDays, Prefix, IndexName, Join;
  }

  lemma RangeStable(f: Fields, r: Range, dtstart: Civil.Date)
    ensures RangeFields(f, CanonicalRange(r, dtstart)) == RangeFields(f, r)
    ensures CanonicalRange(r, dtstart).endDate in [None, r.endDate]
  {
    LowerTypes();
    hide Lower, Dec, Without;
  }

  lemma RangeKeepsMonthDay(f: Fields, r: Range)
    ensures RangeFields(f, r).bymonthday == f.bymonthday
  {
    hide Lower, Dec, Without;
  }

  /** Printing what was read from a printed text gives the text back exactly unless a relative pattern lacked its weekday. */
  lemma PrintAfterReadIff(rec: Recurrence, dtstart: Civil.Date)
    requires Known(rec)
    ensures FromRule(ToRule(rec), dtstart).Ok?
    ensures ToRule(FromRule(ToRule(rec), dtstart).value) == ToRule(rec) <==> !Dayless(rec.pattern)
  {
    var again := Canonical(rec, dtstart);
    RoundTrip(rec, dtstart);
    PatternStable(rec.pattern, dtstart);
    RangeStable(PatternFields(rec.pattern), rec.range, dtstart);
    RangeStable(PatternFields(again.pattern), rec.range, dtstart);
    RangeKeepsMonthDay(PatternFields(rec.pattern), rec.range);
    RangeKeepsMonthDay(PatternFields(again.pattern), again.range);
    PrintsItsFields(rec);
    PrintsItsFields(again);
    FieldsPlain(rec);
    FrequencySet(rec);
    FrequencySet(again);
    hide PatternFields, RangeFields, CanonicalPattern, CanonicalRange, ToRule, TextOf, PairsOf, FromRule, PlainFields, Props, FieldsOf,
         KnownDays, DateShape;
    FieldsPlain(again);
    ReadBack(RuleFields(rec));
    ReadBack(RuleFields(again));
  }
}
