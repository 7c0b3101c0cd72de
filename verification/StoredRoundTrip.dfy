/** What the mapper reads out of the rule text that creation stores: the stored text needs no INTERVAL, and names no month day. */
module StoredRoundTrip {
  import opened Basics
  import Civil
  import opened EventRecurrence
  import opened EventRecurrenceTheorems
  import opened RecurrenceMapper
  import MapperRoundTrip
  import opened RuleText
  import opened Text

  /** The Graph name of a weekday number. */
  function GraphName(n: nat): string {
    if n == 0 then "monday"
    else if n == 1 then "tuesday"
    else if n == 2 then "wednesday"
    else if n == 3 then "thursday"
    else if n == 4 then "friday"
    else if n == 5 then "saturday"
    else "sunday"
  }

  function GraphNames(numbers: seq<nat>): seq<string> {
    seq(|numbers|, i requires 0 <= i < |numbers| => GraphName(numbers[i]))
  }

  /** The Graph pattern of a stored rule. */
  function ReadPattern(rec: Config, dtstart: Civil.Date): Pattern {
    var p := Pattern(Some("daily"), Some(rec.interval), None, None, None, None, None);
    var days := rec.days.GetOr([]);
    if rec.frequency == "weekly" then
      p.(ptype := Some("weekly"), days := if days != [] then Some(GraphNames(DayNumbers(days))) else None, firstDay := Some("monday"))
    else if rec.frequency == "monthly" then p.(ptype := Some("absoluteMonthly"), dayOfMonth := Some(dtstart.d))
    else if rec.frequency == "yearly" then p.(ptype := Some("absoluteYearly"))
    else p
  }

  /** Its Graph range. */
  function ReadRange(rec: Config, dtstart: Civil.Date): Range {
    var r := Range(Some("noEnd"), Some(Civil.DateText(dtstart)), None, None);
    if rec.endType == "by_date" && rec.endDate.GetOr("") != "" then r.(rtype := Some("endDate"), endDate := rec.endDate)
    else if rec.endType == "by_count" && rec.count.GetOr(0) != 0 then r.(rtype := Some("numbered"), times := rec.count)
    else r
  }

  lemma CodeName(day: string)
    requires IsCode(day)
    ensures ',' !in Upper(day) && ListDay(Upper(day)) == GraphName(DayNumber(day)) && |Upper(day)| == 2
    ensures forall c | c in Upper(day) :: 'A' <= c <= 'Z'
  {
    MapperRoundTrip.CodeBack(Upper(day));
    hide Upper, ListDay;
  }

  lemma NamesBack(days: seq<string>)
    requires KnownDays(days) && days != []
    ensures Join(Uppers(days), ",") != "" && RruleDaysToGraph(Join(Uppers(days), ",")) == GraphNames(DayNumbers(days))
  {
    forall i | 0 <= i < |days|
      ensures ',' !in Uppers(days)[i] && ListDay(Uppers(days)[i]) == GraphNames(DayNumbers(days))[i]
    {
      CodeName(days[i]);
    }
    SplitJoined(Uppers(days), ',');
    CodeName(days[0]);
  }

  /** A list of bare weekday codes is not taken for an ordinal. */
  lemma {:induction false} BareCodes(codes: seq<string>)
    requires forall i | 0 <= i < |codes| :: forall c | c in codes[i] :: 'A' <= c <= 'Z'
    ensures forall c | c in Join(codes, ",") :: c == ',' || 'A' <= c <= 'Z'
  {
    if |codes| > 1 {
      BareCodes(codes[1..]);
    }
  }

  lemma NoOrdinal(days: seq<string>)
    requires KnownDays(days)
    ensures !HasOrdinal(Join(Uppers(days), ","))
  {
    forall i | 0 <= i < |Uppers(days)|
      ensures forall c | c in Uppers(days)[i] :: 'A' <= c <= 'Z'
    {
      CodeName(days[i]);
    }
    BareCodes(Uppers(days));
    var text := Join(Uppers(days), ",");
    assert forall i | 0 <= i < |text| :: text[i] in text;
  }

  lemma FieldsRead(rec: Config)
    requires KnownDays(rec.days.GetOr([])) && EwsRangeOf(rec).Ok?
    ensures FieldsOf(Props(StoredRule(rec))) == StoredFields(rec)
  {
    StoredText(rec);
    StoredPlain(rec);
    ReadBack(StoredFields(rec));
  }

  lemma PatternRead(rec: Config, dtstart: Civil.Date)
    requires Documented(rec)
    ensures PatternOf(StoredFields(rec), dtstart) == Ok(ReadPattern(rec, dtstart))
  {
    hide Dec, Without, Uppers, Join, DayNumbers, KnownDays, RruleDaysToGraph, HasOrdinal, EwsRangeOf, ParseInt;
    ParsePrinted(rec.interval);
    if rec.days.GetOr([]) != [] {
      NamesBack(rec.days.value);
      NoOrdinal(rec.days.value);
    }
  }

  lemma RangeRead(rec: Config, dtstart: Civil.Date)
    requires Documented(rec)
    ensures RangeOf(StoredFields(rec), dtstart) == Ok(ReadRange(rec, dtstart))
  {
    hide Uppers, Join, KnownDays, Civil.DateText;
    ParsePrinted(rec.count.GetOr(0));
    DecPlain(rec.count.GetOr(0));
    if rec.endType == "by_date" && rec.endDate.GetOr("") != "" {
      MapperRoundTrip.UntilBack(rec.endDate.value);
    }
    hide Dec, Without, ParseInt, DateShape;
  }

  /** Reading a stored rule gives its frequency, interval, weekdays and end, with the month day of the start it is read for. */
  lemma StoredRuleIsRead(rec: Config, dtstart: Civil.Date)
    requires Documented(rec)
    ensures FromRule(StoredRule(rec), dtstart) == Ok(Recurrence(ReadPattern(rec, dtstart), ReadRange(rec, dtstart)))
  {
    FieldsRead(rec);
    PatternRead(rec, dtstart);
    RangeRead(rec, dtstart);
    hide PatternOf, RangeOf, ReadPattern, ReadRange, StoredFields, StoredRule, Props, FieldsOf;
  }

  /** Both writers let a dated series run to the last second of its end date. */
  lemma UntilIsEndOfDay(rec: Config, graph: Recurrence)
    ensures Documented(rec) && rec.endType == "by_date" && rec.endDate.GetOr("") != "" ==>
              Get(Props(StoredRule(rec)), "UNTIL") == Some(Without(rec.endDate.value, '-') + "T235959Z")
    ensures MapperRoundTrip.Known(graph) && Lower(graph.range.rtype.GetOr("noEnd")) == "enddate" && graph.range.endDate.GetOr("") != "" ==>
              Get(Props(ToRule(graph)), "UNTIL") == Some(Without(graph.range.endDate.value, '-') + "T235959Z")
  {
    if Documented(rec) {
      FieldsRead(rec);
    }
    if MapperRoundTrip.Known(graph) {
      MapperRoundTrip.PrintsItsFields(graph);
      MapperRoundTrip.FieldsPlain(graph);
      MapperRoundTrip.FrequencySet(graph);
      ReadBack(MapperRoundTrip.RuleFields(graph));
    }
    hide Props, StoredRule, ToRule, Without, Lower, KnownDays, EwsRangeOf, MapperRoundTrip.Known, MapperRoundTrip.PatternFields, Dec, Uppers, Join;
  }
}
