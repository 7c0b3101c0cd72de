/** The rule text create_event stores beside the Exchange recurrence it sends. */
module EventRecurrence {
  import opened Basics
  import Civil
  import opened RecurrenceMeaning
  import opened RuleText
  import opened Text

  datatype Config = Config(frequency: string, interval: int, days: Option<seq<string>>, endType: string,
                           endDate: Option<string>, count: Option<int>)

  datatype EwsPattern =
    | DailyPattern(interval: int)
    | WeeklyPattern(interval: int, weekdays: seq<string>)
    | AbsoluteMonthlyPattern(interval: int, dayOfMonth: nat)
    | AbsoluteYearlyPattern(dayOfMonth: nat, month: nat)

  datatype EwsRange = EndDateRange(end: Civil.Date) | NumberedRange(number: int) | NoEndRange

  // ---------------------------------------------------------------- what is sent to Exchange

  const WEEKDAY_NAMES := ["Monday", "Tuesday", "Wednesday", "Thursday", "Friday", "Saturday", "Sunday"]

  function DayMap(day: string): string {
    var code := Upper(day);
    if code == "MO" then "Monday"
    else if code == "TU" then "Tuesday"
    else if code == "WE" then "Wednesday"
    else if code == "TH" then "Thursday"
    else if code == "FR" then "Friday"
    else if code == "SA" then "Saturday"
    else if code == "SU" then "Sunday"
    else day
  }

  function DayMaps(days: seq<string>): seq<string> {
    seq(|days|, i requires 0 <= i < |days| => DayMap(days[i]))
  }

  /** YYYY-MM-DD of an existing day. */
  function ParseIsoDate(s: string): Result<Civil.Date> {
    if DateShape(s) then
      var date := Civil.Date(Value(s[..4]), Value(s[5..7]), Value(s[8..]));
      if Civil.Valid(date) then Ok(date) else ValueError
    else ValueError
  }

  function EwsPatternOf(rec: Config, start: nat): EwsPattern {
    var date := Civil.DateOf(start);
    if rec.frequency == "daily" then DailyPattern(rec.interval)
    else if rec.frequency == "weekly" then
      var days := DayMaps(rec.days.GetOr([]));
      WeeklyPattern(rec.interval, if days == [] then [WEEKDAY_NAMES[Civil.Weekday(start)]] else days)
    else if rec.frequency == "monthly" then AbsoluteMonthlyPattern(rec.interval, date.d)
    else AbsoluteYearlyPattern(date.d, date.m)
  }

  function EwsRangeOf(rec: Config): Result<EwsRange> {
    if rec.endType == "by_date" && rec.endDate.GetOr("") != "" then
      match ParseIsoDate(rec.endDate.value)
      case Ok(date) => Ok(EndDateRange(date))
      case ValueError => ValueError
    else if rec.endType == "by_count" && rec.count.GetOr(0) != 0 then Ok(NumberedRange(rec.count.value))
    else Ok(NoEndRange)
  }

  // ---------------------------------------------------------------- what is stored

  function FrequencyName(frequency: string): string {
    if frequency == "daily" then "DAILY"
    else if frequency == "weekly" then "WEEKLY"
    else if frequency == "monthly" then "MONTHLY"
    else if frequency == "yearly" then "YEARLY"
    else "DAILY"
  }

  function Uppers(days: seq<string>): seq<string> {
    seq(|days|, i requires 0 <= i < |days| => Upper(days[i]))
  }

  function RuleParts(rec: Config): seq<string> {
    ["FREQ=" + FrequencyName(rec.frequency)]
    + (if rec.interval > 1 then ["INTERVAL=" + Dec(rec.interval)] else [])
    + (if rec.days.GetOr([]) != [] then ["BYDAY=" + Join(Uppers(rec.days.value), ",")] else [])
    + (if rec.endType == "by_date" && rec.endDate.GetOr("") != "" then
         ["UNTIL=" + (Without(rec.endDate.value, '-') + "T235959Z")]
       else if rec.endType == "by_count" && rec.count.GetOr(0) != 0 then ["COUNT=" + Dec(rec.count.value)]
       else [])
  }

  function StoredRule(rec: Config): string {
    "RRULE:" + Join(RuleParts(rec), ";")
  }

  // ---------------------------------------------------------------- what the Exchange recurrence means

  function NameNumber(name: string): Option<nat> {
    if name == "Monday" then Some(0)
    else if name == "Tuesday" then Some(1)
    else if name == "Wednesday" then Some(2)
    else if name == "Thursday" then Some(3)
    else if name == "Friday" then Some(4)
    else if name == "Saturday" then Some(5)
    else if name == "Sunday" then Some(6)
    else None
  }

  function NameNumbers(names: seq<string>): Option<seq<nat>> {
    if names == [] then Some([]) else
    var first, rest := NameNumber(names[0]), NameNumbers(names[1..]);
    if first.Some? && rest.Some? then Some([first.value] + rest.value) else None
  }

  /** Exchange takes intervals from 1 and known weekdays; its yearly pattern has no interval. */
  function EwsSeries(pattern: EwsPattern, firstDay: nat): Option<Series> {
    match pattern
    case DailyPattern(k) => if k >= 1 then Some(EveryDays(k)) else None
    case WeeklyPattern(k, names) =>
      var numbers := NameNumbers(names);
      if k >= 1 && numbers.Some? then Some(EveryWeeks(k, numbers.value, firstDay)) else None
    case AbsoluteMonthlyPattern(k, day) => if k >= 1 then Some(MonthDay(k, day)) else None
    case AbsoluteYearlyPattern(day, month) => Some(YearDay(1, month, day))
  }

  function EwsLimit(range: EwsRange): Limit {
    match range
    case EndDateRange(end) => Until(end)
    case NumberedRange(number) => Times(number)
    case NoEndRange => Forever
  }
}
