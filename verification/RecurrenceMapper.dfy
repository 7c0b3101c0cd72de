/** Translating Graph recurrences into RRULE text and back. */
module RecurrenceMapper {
  import opened Basics
  import Civil
  import opened RuleText
  import opened Text

  /** A missing key of the JSON object is None. */
  datatype Pattern = Pattern(ptype: Option<string>, interval: Option<int>, days: Option<seq<string>>,
                             dayOfMonth: Option<int>, month: Option<int>, index: Option<string>, firstDay: Option<string>)

  datatype Range = Range(rtype: Option<string>, startDate: Option<string>, endDate: Option<string>, times: Option<int>)

  datatype Recurrence = Recurrence(pattern: Pattern, range: Range)

  // ---------------------------------------------------------------- tables

  function CodeOfDay(name: string): Option<string> {
    if name == "sunday" then Some("SU")
    else if name == "monday" then Some("MO")
    else if name == "tuesday" then Some("TU")
    else if name == "wednesday" then Some("WE")
    else if name == "thursday" then Some("TH")
    else if name == "friday" then Some("FR")
    else if name == "saturday" then Some("SA")
    else None
  }

  function DayOfCode(code: string): Option<string> {
    if code == "SU" then Some("sunday")
    else if code == "MO" then Some("monday")
    else if code == "TU" then Some("tuesday")
    else if code == "WE" then Some("wednesday")
    else if code == "TH" then Some("thursday")
    else if code == "FR" then Some("friday")
    else if code == "SA" then Some("saturday")
    else None
  }

  function WeekIndex(name: string): Option<int> {
    if name == "first" then Some(1)
    else if name == "second" then Some(2)
    else if name == "third" then Some(3)
    else if name == "fourth" then Some(4)
    else if name == "last" then Some(-1)
    else None
  }

  function WeekName(n: int): Option<string> {
    if n == 1 then Some("first")
    else if n == 2 then Some("second")
    else if n == 3 then Some("third")
    else if n == 4 then Some("fourth")
    else if n == -1 then Some("last")
    else None
  }

  // ---------------------------------------------------------------- weekday lists

  function ListCode(day: string): string {
    CodeOfDay(Lower(day)).GetOr(if |day| <= 2 then Upper(day) else Upper(day)[..2])
  }

  function ListCodes(days: seq<string>): seq<string> {
    seq(|days|, i requires 0 <= i < |days| => ListCode(days[i]))
  }

  function GraphDaysToRrule(days: seq<string>): string {
    Join(ListCodes(days), ",")
  }

  function ListDay(part: string): string {
    var code := StripLeft(Strip(part), "+-0123456789");
    DayOfCode(code).GetOr(Lower(code))
  }

  function ListDays(parts: seq<string>): seq<string> {
    seq(|parts|, i requires 0 <= i < |parts| => ListDay(parts[i]))
  }

  function RruleDaysToGraph(byday: string): seq<string> {
    ListDays(Split(byday, ','))
  }

  method ReadDays(byday: string) returns (days: seq<string>)
    ensures days == RruleDaysToGraph(byday)
  {
    var parts := Split(byday, ',');
    days := [];
    for i := 0 to |parts|
      invariant days == ListDays(parts[..i])
    {
      var code := StripLeft(Strip(parts[i]), "+-0123456789");
      days := days + [DayOfCode(code).GetOr(Lower(code))];
    }
    assert parts[..|parts|] == parts;
  }

  // ---------------------------------------------------------------- Graph to RRULE

  function Prefix(n: int): string {
    if n > 0 then "+" + Dec(n) else Dec(n)
  }

  function WeekNumber(p: Pattern): int {
    WeekIndex(Lower(p.index.GetOr("first"))).GetOr(1)
  }

  function FirstCode(days: seq<string>): string
    requires days != []
  {
    CodeOfDay(Lower(days[0])).GetOr("MO")
  }

  function PatternParts(p: Pattern): seq<string> {
    var ptype := Lower(p.ptype.GetOr(""));
    var interval := Dec(p.interval.GetOr(1));
    var days := p.days.GetOr([]);
    if ptype == "daily" then ["FREQ=DAILY;INTERVAL=" + interval]
    else if ptype == "weekly" then
      ["FREQ=WEEKLY;INTERVAL=" + interval] + if GraphDaysToRrule(days) != "" then ["BYDAY=" + GraphDaysToRrule(days)] else []
    else if ptype == "absolutemonthly" then
      ["FREQ=MONTHLY;INTERVAL=" + interval + ";BYMONTHDAY=" + Dec(p.dayOfMonth.GetOr(1))]
    else if ptype == "relativemonthly" then
      if days != [] then ["FREQ=MONTHLY;INTERVAL=" + interval + ";BYDAY=" + Prefix(WeekNumber(p)) + FirstCode(days)]
      else ["FREQ=MONTHLY;INTERVAL=" + interval]
    else if ptype == "absoluteyearly" then
      ["FREQ=YEARLY;INTERVAL=" + interval + ";BYMONTH=" + Dec(p.month.GetOr(1)) + ";BYMONTHDAY=" + Dec(p.dayOfMonth.GetOr(1))]
    else if ptype == "relativeyearly" then
      if days != [] then
        ["FREQ=YEARLY;INTERVAL=" + interval + ";BYMONTH=" + Dec(p.month.GetOr(1)) + ";BYDAY=" + Prefix(WeekNumber(p)) + FirstCode(days)]
      else ["FREQ=YEARLY;INTERVAL=" + interval + ";BYMONTH=" + Dec(p.month.GetOr(1))]
    else ["FREQ=DAILY;INTERVAL=" + interval]
  }

  function RangeParts(r: Range): seq<string> {
    var rtype := Lower(r.rtype.GetOr("noEnd"));
    if rtype == "enddate" then
      if r.endDate.GetOr("") != "" then ["UNTIL=" + (Without(r.endDate.value, '-') + "T235959Z")] else []
    else if rtype == "numbered" then ["COUNT=" + Dec(r.times.GetOr(1))]
    else []
  }

  function ToRule(rec: Recurrence): string {
    "RRULE:" + Join(PatternParts(rec.pattern) + RangeParts(rec.range), ";")
  }

  // ---------------------------------------------------------------- RRULE to Graph

  function DigitRun(s: string): (n: nat)
    ensures n <= |s| && AllDigits(s[..n])
  {
    if s != "" && IsDigit(s[0]) then 1 + DigitRun(s[1..]) else 0
  }

  predicate IsUpper(c: char) {
    'A' <= c <= 'Z'
  }

  /** Digits and two capitals at the start of the text, as number and code. */
  function MatchUnsigned(s: string): Option<(nat, string)> {
    var n := DigitRun(s);
    if n > 0 && n + 2 <= |s| && IsUpper(s[n]) && IsUpper(s[n + 1]) then Some((Value(s[..n]), s[n..n + 2])) else None
  }

  /** The same after an optional sign. */
  function MatchOrdinal(s: string): Option<(int, string)> {
    var signed := s != "" && s[0] in "+-";
    match MatchUnsigned(if signed then s[1..] else s)
    case None => None
    case Some(m) => Some((m.0 * (if signed && s[0] == '-' then -1 else 1), m.1))
  }

  predicate HasOrdinal(byday: string) {
    exists i | 0 <= i < |byday| - 2 :: IsDigit(byday[i]) || byday[i] in "+-"
  }

  const NOTHING := Pattern(None, None, None, None, None, None, None)

  function WithOrdinal(p: Pattern, byday: string): Pattern {
    match MatchOrdinal(byday)
    case None => p
    case Some(m) => p.(index := Some(WeekName(m.0).GetOr("first")), days := Some([DayOfCode(m.1).GetOr("monday")]))
  }

  function PatternOf(f: Fields, dtstart: Civil.Date): Result<Pattern> {
    var interval := if f.interval.Some? then ParseInt(f.interval.value) else Ok(1);
    if interval.ValueError? then ValueError else
    var p := NOTHING.(interval := Some(interval.value));
    var freq := f.freq.GetOr("DAILY");
    var byday := f.byday.GetOr("");
    var bymonthday := f.bymonthday.GetOr("");
    var bymonth := f.bymonth.GetOr("");
    if freq == "DAILY" then Ok(p.(ptype := Some("daily")))
    else if freq == "WEEKLY" then
      Ok(p.(ptype := Some("weekly"), days := if byday != "" then Some(RruleDaysToGraph(byday)) else None, firstDay := Some("monday")))
    else if freq == "MONTHLY" then
      if byday != "" && HasOrdinal(byday) then Ok(WithOrdinal(p.(ptype := Some("relativeMonthly")), byday))
      else if bymonthday != "" then
        match ParseInt(bymonthday)
        case ValueError => ValueError
        case Ok(d) => Ok(p.(ptype := Some("absoluteMonthly"), dayOfMonth := Some(d)))
      else Ok(p.(ptype := Some("absoluteMonthly"), dayOfMonth := Some(dtstart.d)))
    else if freq == "YEARLY" then
      if byday != "" && bymonth != "" then
        match ParseInt(bymonth)
        case ValueError => ValueError
        case Ok(m) => Ok(WithOrdinal(p.(ptype := Some("relativeYearly"), month := Some(m)), byday))
      else
        var day := if bymonthday != "" then ParseInt(bymonthday) else Ok(0);
        var month := if bymonth != "" then ParseInt(bymonth) else Ok(0);
        if day.ValueError? || month.ValueError? then ValueError
        else Ok(p.(ptype := Some("absoluteYearly"),
                   dayOfMonth := if bymonthday != "" then Some(day.value) else None,
                   month := if bymonth != "" then Some(month.value) else None))
    else Ok(p)
  }

  /** s[i..j] as Python slices it, cut at the end of the text. */
  function Slice(s: string, i: nat, j: nat): string
    requires i <= j
  {
    if |s| <= i then "" else if |s| <= j then s[i..] else s[i..j]
  }

  function RangeOf(f: Fields, dtstart: Civil.Date): Result<Range> {
    var r := Range(Some("noEnd"), Some(Civil.DateText(dtstart)), None, None);
    if f.count.GetOr("") != "" then
      match ParseInt(f.count.value)
      case ValueError => ValueError
      case Ok(n) => Ok(r.(rtype := Some("numbered"), times := Some(n)))
    else if f.until.GetOr("") != "" then
      var clean := Split(Without(f.until.value, 'Z'), 'T')[0];
      Ok(r.(rtype := Some("endDate"), endDate := Some(Slice(clean, 0, 4) + "-" + Slice(clean, 4, 6) + "-" + Slice(clean, 6, 8))))
    else Ok(r)
  }

  function FromFields(f: Fields, dtstart: Civil.Date): Result<Recurrence> {
    match (PatternOf(f, dtstart), RangeOf(f, dtstart))
    case (Ok(p), Ok(r)) => Ok(Recurrence(p, r))
    case _ => ValueError
  }

  function FromRule(text: string, dtstart: Civil.Date): Result<Recurrence> {
    FromFields(FieldsOf(Props(text)), dtstart)
  }

  method RruleToGraph(text: string, dtstart: Civil.Date) returns (rec: Result<Recurrence>)
    ensures rec == FromRule(text, dtstart)
  {
    var props := ReadProps(text);
    var f := FieldsOf(props);
    var freq := f.freq.GetOr("DAILY");
    var interval := if f.interval.Some? then ParseInt(f.interval.value) else Ok(1);
    if interval.ValueError? {
      return ValueError;
    }
    var byday, bymonthday, bymonth := f.byday.GetOr(""), f.bymonthday.GetOr(""), f.bymonth.GetOr("");
    var pattern := NOTHING.(interval := Some(interval.value));
    var range := Range(Some("noEnd"), Some(Civil.DateText(dtstart)), None, None);
    if freq == "DAILY" {
      pattern := pattern.(ptype := Some("daily"));
    } else if freq == "WEEKLY" {
      pattern := pattern.(ptype := Some("weekly"));
      if byday != "" {
        var days := ReadDays(byday);
        pattern := pattern.(days := Some(days));
      }
      pattern := pattern.(firstDay := Some("monday"));
    } else if freq == "MONTHLY" {
      if byday != "" && HasOrdinal(byday) {
        pattern := WithOrdinal(pattern.(ptype := Some("relativeMonthly")), byday);
      } else if bymonthday != "" {
        var d := ParseInt(bymonthday);
        if d.ValueError? {
          return ValueError;
        }
        pattern := pattern.(ptype := Some("absoluteMonthly"), dayOfMonth := Some(d.value));
      } else {
        pattern := pattern.(ptype := Some("absoluteMonthly"), dayOfMonth := Some(dtstart.d));
      }
    } else if freq == "YEARLY" {
      if byday != "" && bymonth != "" {
        pattern := WithOrdinal(pattern.(ptype := Some("relativeYearly")), byday);
        var m := ParseInt(bymonth);
        if m.ValueError? {
          return ValueError;
        }
        pattern := pattern.(month := Some(m.value));
      } else {
        pattern := pattern.(ptype := Some("absoluteYearly"));
        if bymonthday != "" {
          var d := ParseInt(bymonthday);
          if d.ValueError? {
            return ValueError;
          }
          pattern := pattern.(dayOfMonth := Some(d.value));
        }
        if bymonth != "" {
          var m := ParseInt(bymonth);
          if m.ValueError? {
            return ValueError;
          }
          pattern := pattern.(month := Some(m.value));
        }
      }
    }
    if f.count.GetOr("") != "" {
      var n := ParseInt(f.count.value);
      if n.ValueError? {
        return ValueError;
      }
      range := range.(rtype := Some("numbered"), times := Some(n.value));
    } else if f.until.GetOr("") != "" {
      var clean := Split(Without(f.until.value, 'Z'), 'T')[0];
      range := range.(rtype := Some("endDate"),
        endDate := Some(Slice(clean, 0, 4) + "-" + Slice(clean, 4, 6) + "-" + Slice(clean, 6, 8)));
    }
    rec := Ok(Recurrence(pattern, range));
  }
}
