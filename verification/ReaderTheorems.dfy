/** What the reader of rule texts makes of any text: which property counts, and what each combination of properties means. */
module ReaderTheorems {
  import opened Basics
  import Civil
  import opened RecurrenceMapper
  import opened RuleText
  import opened Text

  // ---------------------------------------------------------------- properties of a text

  /** The part reads key=value, up to white space around the two; the first equals sign divides it. */
  ghost predicate Sets(part: string, key: string, value: string) {
    exists k: string, v: string :: '=' !in k && part == k + ['='] + v && Strip(k) == key && Strip(v) == value
  }

  ghost predicate SetsKey(part: string, key: string) {
    exists value: string :: Sets(part, key, value)
  }

  /** Part i gives key its value, and no later part mentions the key. */
  ghost predicate LastSetAt(parts: seq<string>, key: string, value: string, i: nat) {
    i < |parts| && Sets(parts[i], key, value) && forall j | i < j < |parts| :: !SetsKey(parts[j], key)
  }

  lemma DividesOnce(part: string)
    requires '=' in part
    ensures var (k, v) := SplitOnce(part, '='); '=' !in k && part == k + ['='] + v
  {
    if part[0] != '=' {
      DividesOnce(part[1..]);
      assert part == [part[0]] + part[1..];
    } else {
      assert part == [] + ['='] + part[1..];
    }
  }

  lemma SetsIs(part: string, key: string, value: string)
    ensures Sets(part, key, value)
            <==> '=' in part && Strip(SplitOnce(part, '=').0) == key && Strip(SplitOnce(part, '=').1) == value
  {
    hide Strip;
    if k: string, v: string :| '=' !in k && part == k + ['='] + v && Strip(k) == key && Strip(v) == value {
      SplitOnceBack(k, '=', v);
      assert part[|k|] == '=';
    }
    if '=' in part {
      DividesOnce(part);
    }
    hide SplitOnce;
  }

  lemma SetsKeyIs(part: string, key: string)
    ensures SetsKey(part, key) <==> '=' in part && Strip(SplitOnce(part, '=').0) == key
  {
    hide Strip, SplitOnce, Sets;
    if '=' in part {
      SetsIs(part, key, Strip(SplitOnce(part, '=').1));
    }
    if value: string :| Sets(part, key, value) {
      SetsIs(part, key, value);
    }
  }

  lemma PartCounts(props: map<string, string>, part: string, key: string, value: string)
    ensures Get(WithProp(props, part), key) == Some(value)
            <==> Sets(part, key, value) || (!SetsKey(part, key) && Get(props, key) == Some(value))
  {
    SetsIs(part, key, value);
    SetsKeyIs(part, key);
    hide Strip, SplitOnce, Sets, SetsKey;
  }

  /** A property has a value exactly if some part gives it that value and no later part mentions it. */
  lemma {:induction false} LastSetting(parts: seq<string>, key: string, value: string)
    ensures Get(PropsOf(parts), key) == Some(value) <==> exists i: nat :: LastSetAt(parts, key, value, i)
  {
    hide Strip, SplitOnce, Sets, SetsKey, WithProp;
    if parts != [] {
      var n := |parts| - 1;
      var before, last := parts[..n], parts[n];
      LastSetting(before, key, value);
      PartCounts(PropsOf(before), last, key, value);
      SettingNext(parts, key, value);
      assert PropsOf(parts) == WithProp(PropsOf(before), last);
    }
  }

  lemma SettingNext(parts: seq<string>, key: string, value: string)
    requires parts != []
    ensures var n := |parts| - 1;
            (exists i: nat :: LastSetAt(parts, key, value, i))
            <==> Sets(parts[n], key, value) || (!SetsKey(parts[n], key) && exists i: nat :: LastSetAt(parts[..n], key, value, i))
  {
    var n := |parts| - 1;
    if Sets(parts[n], key, value) {
      assert LastSetAt(parts, key, value, n);
    }
    if i: nat :| LastSetAt(parts, key, value, i) {
      if i < n {
        assert LastSetAt(parts[..n], key, value, i) && !SetsKey(parts[n], key);
      }
    }
    if i: nat :| LastSetAt(parts[..n], key, value, i) && !SetsKey(parts[n], key) {
      assert LastSetAt(parts, key, value, i);
    }
    hide Sets, SetsKey;
  }

  /** A text is its parts between semicolons, with or without RRULE: in front. */
  lemma TextParts(parts: seq<string>)
    requires parts != [] && forall i | 0 <= i < |parts| :: ';' !in parts[i]
    ensures Props("RRULE:" + Join(parts, ";")) == PropsOf(parts)
    ensures !StartsWith(Join(parts, ";"), "RRULE:") ==> Props(Join(parts, ";")) == PropsOf(parts)
  {
    SplitJoined(parts, ';');
    var text := Join(parts, ";");
    assert ("RRULE:" + text)[6..] == text && ("RRULE:" + text)[..6] == "RRULE:";
    hide PropsOf, Split, Join;
  }

  /** s is t with white space before and after it. */
  ghost predicate Padded(s: string, t: string) {
    exists a: string, b: string :: (forall c | c in a :: IsSpace(c)) && (forall c | c in b :: IsSpace(c)) && s == a + t + b
  }

  lemma PaddedLeft(c: char, s: string, t: string)
    requires IsSpace(c) && Padded(s, t)
    ensures Padded([c] + s, t)
  {
    var a: string, b: string :| (forall d | d in a :: IsSpace(d)) && (forall d | d in b :: IsSpace(d)) && s == a + t + b;
    hide IsSpace;
    assert [c] + s == ([c] + a) + t + b;
  }

  lemma PaddedRight(c: char, s: string, t: string)
    requires IsSpace(c) && Padded(s, t)
    ensures Padded(s + [c], t)
  {
    var a: string, b: string :| (forall d | d in a :: IsSpace(d)) && (forall d | d in b :: IsSpace(d)) && s == a + t + b;
    hide IsSpace;
    assert s + [c] == a + t + (b + [c]);
  }

  lemma PaddedByNothing(s: string)
    ensures Padded(s, s)
  {
    assert s == "" + s + "";
  }

  /** Trimming takes white space off both ends and nothing else. */
  lemma {:induction false} StripIs(s: string)
    ensures Padded(s, Strip(s)) && (Strip(s) == "" || (!IsSpace(Strip(s)[0]) && !IsSpace(Strip(s)[|Strip(s)| - 1])))
    decreases |s|
  {
    hide IsSpace, Padded;
    if s != "" && IsSpace(s[0]) {
      StripIs(s[1..]);
      PaddedLeft(s[0], s[1..], Strip(s));
      assert s == [s[0]] + s[1..];
    } else if s != "" && IsSpace(s[|s| - 1]) {
      StripIs(s[..|s| - 1]);
      PaddedRight(s[|s| - 1], s[..|s| - 1], Strip(s));
      assert s == s[..|s| - 1] + [s[|s| - 1]];
    } else {
      PaddedByNothing(s);
    }
  }

  // ---------------------------------------------------------------- the pattern

  predicate Given(value: Option<string>) {
    value.Some? && value.value != ""
  }

  /** Read with interval k; a missing INTERVAL is 1. */
  predicate IntervalIs(f: Fields, k: int) {
    if f.interval.Some? then ParseInt(f.interval.value) == Ok(k) else k == 1
  }

  /** Daily and weekly rules, rules without a frequency, which are daily, and unknown frequencies, which have no type. */
  lemma SimplePatternIs(f: Fields, dtstart: Civil.Date, k: int)
    requires IntervalIs(f, k)
    ensures f.freq == None || f.freq == Some("DAILY") ==>
              PatternOf(f, dtstart) == Ok(Pattern(Some("daily"), Some(k), None, None, None, None, None))
    ensures f.freq == Some("WEEKLY") ==>
              PatternOf(f, dtstart)
              == Ok(Pattern(Some("weekly"), Some(k), if Given(f.byday) then Some(RruleDaysToGraph(f.byday.value)) else None,
                            None, None, None, Some("monday")))
    ensures f.freq.Some? && f.freq.value !in ["DAILY", "WEEKLY", "MONTHLY", "YEARLY"] ==>
              PatternOf(f, dtstart) == Ok(Pattern(None, Some(k), None, None, None, None, None))
  {
    hide RruleDaysToGraph, ParseInt, HasOrdinal, WithOrdinal;
  }

  /** A BYDAY with a number or a sign makes a month or year relative: index and weekday if they can be matched. */
  lemma OrdinalIs(p: Pattern, byday: string)
    ensures match MatchOrdinal(byday)
            case None => WithOrdinal(p, byday) == p
            case Some(m) =>
              WithOrdinal(p, byday)
              == p.(index := Some(if m.0 == -1 then "last" else if m.0 == 2 then "second" else if m.0 == 3 then "third"
                                  else if m.0 == 4 then "fourth" else "first"),
                    days := Some([if m.1 == "TU" then "tuesday" else if m.1 == "WE" then "wednesday" else if m.1 == "TH" then "thursday"
                                  else if m.1 == "FR" then "friday" else if m.1 == "SA" then "saturday" else if m.1 == "SU" then "sunday"
                                  else "monday"]))
  {
    hide MatchOrdinal;
  }

  /** A digit or a sign stands before the last two characters. */
  predicate Numbered(byday: string) {
    exists i | 0 <= i < |byday| - 2 :: byday[i] in "0123456789+-"
  }

  lemma NumberedIs(byday: string)
    ensures HasOrdinal(byday) == Numbered(byday)
  {
    forall c: char
      ensures c in "0123456789+-" <==> IsDigit(c) || c in "+-"
    {
    }
  }

  lemma MonthlyPatternIs(f: Fields, dtstart: Civil.Date, k: int)
    requires IntervalIs(f, k) && f.freq == Some("MONTHLY")
    ensures var absolute := Pattern(Some("absoluteMonthly"), Some(k), None, None, None, None, None);
            PatternOf(f, dtstart)
            == if Given(f.byday) && Numbered(f.byday.value) then
                 Ok(WithOrdinal(absolute.(ptype := Some("relativeMonthly")), f.byday.value))
               else if Given(f.bymonthday) then
                 match ParseInt(f.bymonthday.value) case Ok(d) => Ok(absolute.(dayOfMonth := Some(d))) case ValueError => ValueError
               else Ok(absolute.(dayOfMonth := Some(dtstart.d)))
  {
    NumberedIs(f.byday.GetOr(""));
    hide Numbered;
    hide RruleDaysToGraph, ParseInt, HasOrdinal, WithOrdinal;
  }

  /** The number in a property that may be missing; a missing one is no number and no error. */
  function Number(value: Option<string>): Result<Option<int>> {
    if !Given(value) then Ok(None)
    else match ParseInt(value.value) case Ok(n) => Ok(Some(n)) case ValueError => ValueError
  }

  lemma YearlyPatternIs(f: Fields, dtstart: Civil.Date, k: int)
    requires IntervalIs(f, k) && f.freq == Some("YEARLY")
    ensures PatternOf(f, dtstart)
            == match (Number(f.bymonthday), Number(f.bymonth))
               case (_, ValueError) => ValueError
               case (day, Ok(month)) =>
                 if Given(f.byday) && Given(f.bymonth) then
                   Ok(WithOrdinal(Pattern(Some("relativeYearly"), Some(k), None, None, month, None, None), f.byday.value))
                 else match day
                   case ValueError => ValueError
                   case Ok(d) => Ok(Pattern(Some("absoluteYearly"), Some(k), None, d, month, None, None))
  {
    hide RruleDaysToGraph, ParseInt, HasOrdinal, WithOrdinal;
  }

  lemma BadIntervalIsError(f: Fields, dtstart: Civil.Date)
    requires f.interval.Some? && ParseInt(f.interval.value).ValueError?
    ensures PatternOf(f, dtstart).ValueError?
  {
  }

  /** A number is an optional sign and digits, at least one; everything else is an error. */
  lemma NumbersAre(s: string)
    ensures ParseInt(s).Ok?
            <==> exists sign: string, digits: string :: sign in ["", "+", "-"] && digits != "" && AllDigits(digits) && s == sign + digits
  {
    if ParseInt(s).Ok? {
      var sign := if s[0] in "+-" then [s[0]] else "";
      var digits := if s[0] in "+-" then s[1..] else s;
      assert sign in ["", "+", "-"] && s == sign + digits;
    }
    if sign: string, digits: string :| sign in ["", "+", "-"] && digits != "" && AllDigits(digits) && s == sign + digits {
      if sign == "" {
        assert s == digits && IsDigit(s[0]);
      } else {
        assert s[1..] == digits;
      }
    }
    hide Value;
  }

  // ---------------------------------------------------------------- the range

  /** The characters from i to j that there are. */
  function Cut(s: string, i: nat, j: nat): string
    requires i <= j
  {
    s[(if i <= |s| then i else |s|)..if j <= |s| then j else |s|]
  }

  lemma CutIs(s: string, i: nat, j: nat)
    requires i <= j
    ensures Slice(s, i, j) == Cut(s, i, j)
  {
  }

  /** COUNT goes before UNTIL, of which the first eight characters before the time and its zone letter are the date. */
  lemma RangeIs(f: Fields, dtstart: Civil.Date)
    ensures var start := Some(Civil.DateText(dtstart));
            RangeOf(f, dtstart)
            == if Given(f.count) then
                 match ParseInt(f.count.value) case Ok(n) => Ok(Range(Some("numbered"), start, None, Some(n))) case ValueError => ValueError
               else if Given(f.until) then
                 var clean := Split(Without(f.until.value, 'Z'), 'T')[0];
                 Ok(Range(Some("endDate"), start, Some(Cut(clean, 0, 4) + "-" + Cut(clean, 4, 6) + "-" + Cut(clean, 6, 8)), None))
               else Ok(Range(Some("noEnd"), start, None, None))
  {
    hide ParseInt, Split, Without, Slice, Cut, Civil.DateText;
    var clean := Split(Without(f.until.GetOr(""), 'Z'), 'T')[0];
    CutIs(clean, 0, 4);
    CutIs(clean, 4, 6);
    CutIs(clean, 6, 8);
  }

  // ---------------------------------------------------------------- weekday lists

  /** The day a BYDAY entry names: white space, signs and digits before the code do not count. */
  lemma ListDayIs(part: string, front: string, code: string)
    requires Strip(part) == front + code && (forall c | c in front :: c in "+-0123456789") && (code == "" || code[0] !in "+-0123456789")
    ensures ListDay(part)
         == if code == "MO" then "monday" else if code == "TU" then "tuesday" else if code == "WE" then "wednesday"
            else if code == "TH" then "thursday" else if code == "FR" then "friday" else if code == "SA" then "saturday"
            else if code == "SU" then "sunday" else Lower(code)
  {
    LeftStripped(front, code, "+-0123456789");
    hide Strip, StripLeft, Lower;
  }

  lemma {:induction false} LeftStripped(front: string, code: string, chars: string)
    requires (forall c | c in front :: c in chars) && (code == "" || code[0] !in chars)
    ensures StripLeft(front + code, chars) == code
  {
    if front == "" {
      assert front + code == code;
    } else {
      LeftStripped(front[1..], code, chars);
      assert (front + code)[1..] == front[1..] + code;
    }
  }

  /** A list names the days of its entries between commas, in order. */
  lemma ListIs(parts: seq<string>)
    requires parts != [] && forall i | 0 <= i < |parts| :: ',' !in parts[i]
    ensures var days := RruleDaysToGraph(Join(parts, ",")); |days| == |parts| && forall i | 0 <= i < |parts| :: days[i] == ListDay(parts[i])
  {
    SplitJoined(parts, ',');
    hide ListDay, Join, Split;
  }

  // ---------------------------------------------------------------- names outside the tables

  /** Letter case does not matter for indexes and weekdays; an unknown or missing index counts as the first week. */
  lemma IndexIs(p: Pattern)
    ensures var name := Lower(p.index.GetOr("first"));
            WeekNumber(p) == if name == "second" then 2 else if name == "third" then 3 else if name == "fourth" then 4
                             else if name == "last" then -1 else 1
  {
    hide Lower;
  }

  /** A weekday outside the seven is cut to two capital letters in a list, and is Monday in a relative pattern. */
  lemma UnknownDayIs(day: string)
    requires Lower(day) !in ["monday", "tuesday", "wednesday", "thursday", "friday", "saturday", "sunday"]
    ensures ListCode(day) == Upper(if |day| <= 2 then day else day[..2]) && FirstCode([day]) == "MO"
  {
    assert |day| > 2 ==> Upper(day)[..2] == Upper(day[..2]);
    hide Lower;
  }
}
