/** The text of a recurrence rule as properties: printing `RRULE:KEY=value;…` and reading it back. */
module RuleText {
  import opened Basics
  import opened Text

  /** The properties the two writers use, in the order both keep. */
  datatype Fields = Fields(freq: Option<string>, interval: Option<string>, bymonth: Option<string>,
                           bymonthday: Option<string>, byday: Option<string>, until: Option<string>, count: Option<string>)

  type Pairs = seq<(string, string)>

  // ---------------------------------------------------------------- reading

  function SplitOnce(s: string, c: char): (string, string)
    requires c in s
  {
    if s[0] == c then ("", s[1..]) else
      var (k, v) := SplitOnce(s[1..], c);
      ([s[0]] + k, v)
  }

  function WithProp(props: map<string, string>, part: string): map<string, string> {
    if '=' in part then
      var (k, v) := SplitOnce(part, '=');
      props[Strip(k) := Strip(v)]
    else props
  }

  function PropsOf(parts: seq<string>): map<string, string> {
    if parts == [] then map[] else WithProp(PropsOf(parts[..|parts| - 1]), parts[|parts| - 1])
  }

  function Body(text: string): string {
    if StartsWith(text, "RRULE:") then text[6..] else text
  }

  function Props(text: string): map<string, string> {
    PropsOf(Split(Body(text), ';'))
  }

  /** The loop that fills the property dictionary; a later property of the same name wins. */
  method ReadProps(text: string) returns (props: map<string, string>)
    ensures props == Props(text)
  {
    var parts := Split(Body(text), ';');
    props := map[];
    for i := 0 to |parts|
      invariant props == PropsOf(parts[..i])
    {
      assert parts[..i + 1][..i] == parts[..i];
      if '=' in parts[i] {
        var (k, v) := SplitOnce(parts[i], '=');
        props := props[Strip(k) := Strip(v)];
      }
    }
    assert parts[..|parts|] == parts;
  }

  function Get(props: map<string, string>, key: string): Option<string> {
    if key in props then Some(props[key]) else None
  }

  function FieldsOf(props: map<string, string>): Fields {
    Fields(Get(props, "FREQ"), Get(props, "INTERVAL"), Get(props, "BYMONTH"), Get(props, "BYMONTHDAY"),
           Get(props, "BYDAY"), Get(props, "UNTIL"), Get(props, "COUNT"))
  }

  // ---------------------------------------------------------------- writing

  function PropText(kv: (string, string)): string {
    kv.0 + "=" + kv.1
  }

  function PropTexts(kvs: Pairs): seq<string> {
    seq(|kvs|, i requires 0 <= i < |kvs| => PropText(kvs[i]))
  }

  function TextOf(kvs: Pairs): string {
    "RRULE:" + Join(PropTexts(kvs), ";")
  }

  function Opt(key: string, value: Option<string>): Pairs {
    if value.Some? then [(key, value.value)] else []
  }

  function PairsOf(f: Fields): Pairs {
    Opt("FREQ", f.freq) + Opt("INTERVAL", f.interval) + Opt("BYMONTH", f.bymonth) + Opt("BYMONTHDAY", f.bymonthday)
    + Opt("BYDAY", f.byday) + Opt("UNTIL", f.until) + Opt("COUNT", f.count)
  }

  // ---------------------------------------------------------------- reading back what was written

  /** Free of separators and of white space. */
  predicate Plain(s: string) {
    forall c | c in s :: c != ';' && c != '=' && !IsSpace(c)
  }

  predicate PlainValue(value: Option<string>) {
    value.Some? ==> Plain(value.value)
  }

  predicate PlainFields(f: Fields) {
    PlainValue(f.freq) && PlainValue(f.interval) && PlainValue(f.bymonth) && PlainValue(f.bymonthday)
    && PlainValue(f.byday) && PlainValue(f.until) && PlainValue(f.count)
  }

  predicate AllPlain(kvs: Pairs) {
    forall i | 0 <= i < |kvs| :: Plain(kvs[i].0) && Plain(kvs[i].1)
  }

  lemma {:induction false} SplitOnceBack(k: string, c: char, v: string)
    requires c !in k
    ensures SplitOnce(k + [c] + v, c) == (k, v)
  {
    if k == "" {
      assert (k + [c] + v)[1..] == v;
    } else {
      SplitOnceBack(k[1..], c, v);
      assert (k + [c] + v)[1..] == k[1..] + [c] + v;
      assert (k[1..] + [c] + v)[|k| - 1] == c;
      assert [k[0]] + k[1..] == k;
    }
  }

  function MapOf(kvs: Pairs): map<string, string> {
    if kvs == [] then map[] else MapOf(kvs[..|kvs| - 1])[kvs[|kvs| - 1].0 := kvs[|kvs| - 1].1]
  }

  lemma {:induction false} PropsOfTexts(kvs: Pairs)
    requires AllPlain(kvs)
    ensures PropsOf(PropTexts(kvs)) == MapOf(kvs)
  {
    if kvs != [] {
      var before, last := kvs[..|kvs| - 1], kvs[|kvs| - 1];
      PropsOfTexts(before);
      assert PropTexts(kvs)[..|kvs| - 1] == PropTexts(before);
      assert PropText(last) == last.0 + ['='] + last.1;
      SplitOnceBack(last.0, '=', last.1);
      assert '=' in PropText(last);
    }
  }

  lemma TextReadBack(kvs: Pairs)
    requires AllPlain(kvs) && kvs != []
    ensures Props(TextOf(kvs)) == MapOf(kvs)
  {
    var parts := PropTexts(kvs);
    assert TextOf(kvs)[6..] == Join(parts, ";");
    forall i | 0 <= i < |parts|
      ensures ';' !in parts[i]
    {
      assert parts[i] == PropText(kvs[i]);
    }
    SplitJoined(parts, ';');
    PropsOfTexts(kvs);
  }

  lemma {:induction false} MapOfConcat(a: Pairs, b: Pairs, key: string)
    ensures Get(MapOf(a + b), key) == if Get(MapOf(b), key).Some? then Get(MapOf(b), key) else Get(MapOf(a), key)
  {
    if b == [] {
      assert a + b == a;
    } else {
      MapOfConcat(a, b[..|b| - 1], key);
      assert (a + b)[..|a + b| - 1] == a + b[..|b| - 1];
    }
  }

  lemma MapOfOpt(key: string, value: Option<string>, other: string)
    ensures Get(MapOf(Opt(key, value)), other) == if key == other then value else None
  {
    if value.Some? {
      assert Opt(key, value)[..0] == [];
    }
  }

  lemma GetOfFields(f: Fields, key: string)
    ensures Get(MapOf(PairsOf(f)), key)
         == if key == "COUNT" then f.count
            else if key == "UNTIL" then f.until
            else if key == "BYDAY" then f.byday
            else if key == "BYMONTHDAY" then f.bymonthday
            else if key == "BYMONTH" then f.bymonth
            else if key == "INTERVAL" then f.interval
            else if key == "FREQ" then f.freq
            else None
  {
    var p1 := Opt("FREQ", f.freq);
    var p2 := p1 + Opt("INTERVAL", f.interval);
    var p3 := p2 + Opt("BYMONTH", f.bymonth);
    var p4 := p3 + Opt("BYMONTHDAY", f.bymonthday);
    var p5 := p4 + Opt("BYDAY", f.byday);
    var p6 := p5 + Opt("UNTIL", f.until);
    MapOfConcat(p6, Opt("COUNT", f.count), key);
    MapOfConcat(p5, Opt("UNTIL", f.until), key);
    MapOfConcat(p4, Opt("BYDAY", f.byday), key);
    MapOfConcat(p3, Opt("BYMONTHDAY", f.bymonthday), key);
    MapOfConcat(p2, Opt("BYMONTH", f.bymonth), key);
    MapOfConcat(p1, Opt("INTERVAL", f.interval), key);
    MapOfOpt("COUNT", f.count, key);
    MapOfOpt("UNTIL", f.until, key);
    MapOfOpt("BYDAY", f.byday, key);
    MapOfOpt("BYMONTHDAY", f.bymonthday, key);
    MapOfOpt("BYMONTH", f.bymonth, key);
    MapOfOpt("INTERVAL", f.interval, key);
    MapOfOpt("FREQ", f.freq, key);
    hide MapOf, Opt;
    assert PairsOf(f) == p6 + Opt("COUNT", f.count);
  }

  /** Every written rule is read back as the same properties. */
  lemma ReadBack(f: Fields)
    requires PlainFields(f) && f.freq.Some?
    ensures FieldsOf(Props(TextOf(PairsOf(f)))) == f
  {
    PlainPairs(f);
    TextReadBack(PairsOf(f));
    GetOfFields(f, "FREQ");
    GetOfFields(f, "INTERVAL");
    GetOfFields(f, "BYMONTH");
    GetOfFields(f, "BYMONTHDAY");
    GetOfFields(f, "BYDAY");
    GetOfFields(f, "UNTIL");
    GetOfFields(f, "COUNT");
  }

  lemma PlainPairs(f: Fields)
    requires PlainFields(f)
    ensures AllPlain(PairsOf(f))
  {
    KeysPlain();
    hide Plain;
  }

  lemma KeysPlain()
    ensures Plain("FREQ") && Plain("INTERVAL") && Plain("BYMONTH") && Plain("BYMONTHDAY") && Plain("BYDAY") && Plain("UNTIL")
         && Plain("COUNT")
  {
  }

  // ---------------------------------------------------------------- the written parts

  function OptText(key: string, value: Option<string>): seq<string> {
    if value.Some? then [key + value.value] else []
  }

  lemma TextsConcat(a: Pairs, b: Pairs)
    ensures PropTexts(a + b) == PropTexts(a) + PropTexts(b)
  {
  }

  lemma TextsOf(f: Fields)
    ensures PropTexts(PairsOf(f))
         == OptText("FREQ=", f.freq) + OptText("INTERVAL=", f.interval) + OptText("BYMONTH=", f.bymonth)
            + OptText("BYMONTHDAY=", f.bymonthday) + OptText("BYDAY=", f.byday) + OptText("UNTIL=", f.until)
            + OptText("COUNT=", f.count)
  {
    var p2 := Opt("FREQ", f.freq) + Opt("INTERVAL", f.interval);
    var p4 := p2 + Opt("BYMONTH", f.bymonth) + Opt("BYMONTHDAY", f.bymonthday);
    var p6 := p4 + Opt("BYDAY", f.byday) + Opt("UNTIL", f.until);
    TextsConcat(p6, Opt("COUNT", f.count));
    TextsConcat(p4 + Opt("BYDAY", f.byday), Opt("UNTIL", f.until));
    TextsConcat(p4, Opt("BYDAY", f.byday));
    TextsConcat(p2 + Opt("BYMONTH", f.bymonth), Opt("BYMONTHDAY", f.bymonthday));
    TextsConcat(p2, Opt("BYMONTH", f.bymonth));
    TextsConcat(Opt("FREQ", f.freq), Opt("INTERVAL", f.interval));
    OneText("FREQ", f.freq);
    OneText("INTERVAL", f.interval);
    OneText("BYMONTH", f.bymonth);
    OneText("BYMONTHDAY", f.bymonthday);
    OneText("BYDAY", f.byday);
    OneText("UNTIL", f.until);
    OneText("COUNT", f.count);
    assert "FREQ" + "=" == "FREQ=" && "INTERVAL" + "=" == "INTERVAL=" && "BYMONTH" + "=" == "BYMONTH="
        && "BYMONTHDAY" + "=" == "BYMONTHDAY=" && "BYDAY" + "=" == "BYDAY=" && "UNTIL" + "=" == "UNTIL="
        && "COUNT" + "=" == "COUNT=";
    hide Opt, PropTexts, OptText;
  }

  lemma OneText(key: string, value: Option<string>)
    ensures PropTexts(Opt(key, value)) == OptText(key + "=", value)
  {
  }

  // ---------------------------------------------------------------- plain values

  lemma PlainConcat(a: string, b: string)
    requires Plain(a) && Plain(b)
    ensures Plain(a + b)
  {
  }

  lemma CommaPlain()
    ensures Plain(",")
  {
  }

  lemma {:induction false} JoinPlain(parts: seq<string>)
    requires forall i | 0 <= i < |parts| :: Plain(parts[i])
    ensures Plain(Join(parts, ","))
  {
    if |parts| > 1 {
      JoinPlain(parts[1..]);
      CommaPlain();
      PlainConcat(parts[0], ",");
      PlainConcat(parts[0] + ",", Join(parts[1..], ","));
    }
  }

  lemma DecPlain(n: int)
    ensures Plain(Dec(n)) && Dec(n) != "" && forall c | c in Dec(n) :: IsDigit(c) || c == '-'
  {
    var digits := DecNat(if n < 0 then -n else n);
    assert forall i | 0 <= i < |digits| :: IsDigit(digits[i]);
  }

  lemma FrequenciesPlain()
    ensures Plain("DAILY") && Plain("WEEKLY") && Plain("MONTHLY") && Plain("YEARLY")
  {
  }

  /** YYYY-MM-DD. */
  predicate DateShape(s: string) {
    |s| == 10 && s[4] == '-' && s[7] == '-' && AllDigits(s[..4]) && AllDigits(s[5..7]) && AllDigits(s[8..])
  }

  lemma {:induction false} WithoutDigits(s: string, c: char)
    requires AllDigits(s) && !IsDigit(c)
    ensures Without(s, c) == s
  {
    WithoutAbsent(s, c);
  }

  function DateDigits(s: string): string
    requires DateShape(s)
  {
    s[..4] + s[5..7] + s[8..]
  }

  /** The dashes go when a date is printed. */
  lemma WithoutDashes(s: string)
    requires DateShape(s)
    ensures Without(s, '-') == DateDigits(s)
  {
    assert s == s[..4] + ("-" + (s[5..7] + ("-" + s[8..])));
    WithoutConcat(s[..4], "-" + (s[5..7] + ("-" + s[8..])), '-');
    WithoutConcat("-", s[5..7] + ("-" + s[8..]), '-');
    WithoutConcat(s[5..7], "-" + s[8..], '-');
    WithoutConcat("-", s[8..], '-');
    WithoutDigits(s[..4], '-');
    WithoutDigits(s[5..7], '-');
    WithoutDigits(s[8..], '-');
    assert Without("-", '-') == "";
  }

  lemma UntilPlain(s: string)
    requires DateShape(s)
    ensures Plain(Without(s, '-') + "T235959Z")
  {
    WithoutDashes(s);
  }
}
