/** The string operations the services rely on: decimal numbers, splitting, joining, trimming, ordering. */
module Text {
  import opened Basics

  // ---------------------------------------------------------------- decimal numbers

  const DIGITS := "0123456789"

  predicate IsDigit(c: char) {
    '0' <= c <= '9'
  }

  predicate AllDigits(s: string) {
    forall i | 0 <= i < |s| :: IsDigit(s[i])
  }

  function Digit(d: nat): (c: char)
    requires d < 10
    ensures IsDigit(c) && DigitValue(c) == d
  {
    DIGITS[d]
  }

  function DigitValue(c: char): nat
    requires IsDigit(c)
  {
    c as int - '0' as int
  }

  /** The number a digit string denotes. */
  function Value(s: string): nat
    requires AllDigits(s)
  {
    if s == "" then 0 else 10 * Value(s[..|s| - 1]) + DigitValue(s[|s| - 1])
  }

  function DecNat(n: nat): (s: string)
    ensures s != "" && AllDigits(s)
  {
    if n < 10 then [Digit(n)] else DecNat(n / 10) + [Digit(n % 10)]
  }

  function Dec(n: int): string {
    if n < 0 then "-" + DecNat(-n) else DecNat(n)
  }

  /** The last w decimal digits of n, zero-padded. */
  function Pad(n: nat, w: nat): (s: string)
    ensures |s| == w && AllDigits(s)
  {
    if w == 0 then "" else Pad(n / 10, w - 1) + [Digit(n % 10)]
  }

  /** An optional sign and at least one digit; anything else is a ValueError. */
  function ParseInt(s: string): Result<int> {
    if s != "" && s[0] in "+-" then
      if |s| > 1 && AllDigits(s[1..]) then Ok(Value(s[1..]) * if s[0] == '-' then -1 else 1) else ValueError
    else if s != "" && AllDigits(s) then Ok(Value(s))
    else ValueError
  }

  lemma {:induction false} ValueOfDecNat(n: nat)
    ensures Value(DecNat(n)) == n
  {
    if n >= 10 {
      ValueOfDecNat(n / 10);
      var s := DecNat(n);
      assert s[..|s| - 1] == DecNat(n / 10);
    } else {
      assert DecNat(n)[..0] == "";
    }
  }

  /** Reading back a printed integer. */
  lemma ParsePrinted(n: int)
    ensures ParseInt(Dec(n)) == Ok(n)
  {
    var digits := DecNat(if n < 0 then -n else n);
    ValueOfDecNat(if n < 0 then -n else n);
    hide DecNat, Value;
    if n < 0 {
      assert ("-" + digits)[1..] == digits;
    } else {
      assert IsDigit(digits[0]);
    }
  }

  function Pow10(w: nat): (p: nat)
    ensures p > 0
  {
    if w == 0 then 1 else 10 * Pow10(w - 1)
  }

  lemma Tenth(n: nat, p: nat)
    requires n < 10 * p
    ensures n / 10 < p
  {
  }

  lemma {:induction false} ValueOfPad(n: nat, w: nat)
    requires n < Pow10(w)
    ensures Value(Pad(n, w)) == n
  {
    if w > 0 {
      Tenth(n, Pow10(w - 1));
      ValueOfPad(n / 10, w - 1);
      hide Pow10;
      var s := Pad(n, w);
      assert s[..|s| - 1] == Pad(n / 10, w - 1);
    }
  }

  // ---------------------------------------------------------------- joining and splitting

  function Join(parts: seq<string>, sep: string): string {
    if parts == [] then ""
    else if |parts| == 1 then parts[0]
    else parts[0] + sep + Join(parts[1..], sep)
  }

  function Split(s: string, c: char): (parts: seq<string>)
    ensures parts != []
  {
    if s == "" then [""] else
      var rest := Split(s[1..], c);
      if s[0] == c then [""] + rest else [[s[0]] + rest[0]] + rest[1..]
  }

  lemma {:induction false} SplitAtFirst(a: string, c: char, b: string)
    requires c !in a
    ensures Split(a, c) == [a] && Split(a + [c] + b, c) == [a] + Split(b, c)
  {
    if a == "" {
      assert (a + [c] + b)[1..] == b;
    } else {
      SplitAtFirst(a[1..], c, b);
      assert [a[0]] + a[1..] == a;
      assert (a + [c] + b)[1..] == a[1..] + [c] + b;
    }
  }

  /** Splitting undoes joining when no part contains the separator. */
  lemma {:induction false} SplitJoined(parts: seq<string>, c: char)
    requires parts != [] && forall i | 0 <= i < |parts| :: c !in parts[i]
    ensures Split(Join(parts, [c]), c) == parts
  {
    SplitAtFirst(parts[0], c, "");
    if |parts| > 1 {
      SplitJoined(parts[1..], c);
      SplitAtFirst(parts[0], c, Join(parts[1..], [c]));
    }
  }

  lemma {:induction false} JoinConcat(a: seq<string>, b: seq<string>, sep: string)
    requires a != [] && b != []
    ensures Join(a + b, sep) == Join(a, sep) + sep + Join(b, sep)
  {
    if |a| == 1 {
      assert (a + b)[1..] == b;
    } else {
      JoinConcat(a[1..], b, sep);
      assert (a + b)[1..] == a[1..] + b;
    }
  }

  // ---------------------------------------------------------------- trimming and letter case

  predicate IsSpace(c: char) {
    c == ' ' || '\t' <= c <= '\r'
  }

  function Strip(s: string): string {
    if s != "" && IsSpace(s[0]) then Strip(s[1..])
    else if s != "" && IsSpace(s[|s| - 1]) then Strip(s[..|s| - 1])
    else s
  }

  /** s without the characters of `chars` at its left end. */
  function StripLeft(s: string, chars: string): string {
    if s != "" && s[0] in chars then StripLeft(s[1..], chars) else s
  }

  function LowerChar(c: char): char {
    if 'A' <= c <= 'Z' then (c as int + 32) as char else c
  }

  function UpperChar(c: char): char {
    if 'a' <= c <= 'z' then (c as int - 32) as char else c
  }

  function Lower(s: string): string {
    seq(|s|, i requires 0 <= i < |s| => LowerChar(s[i]))
  }

  function Upper(s: string): string {
    seq(|s|, i requires 0 <= i < |s| => UpperChar(s[i]))
  }

  /** s without any occurrence of c. */
  function Without(s: string, c: char): string {
    if s == "" then "" else if s[0] == c then Without(s[1..], c) else [s[0]] + Without(s[1..], c)
  }

  lemma {:induction false} WithoutAbsent(s: string, c: char)
    requires c !in s
    ensures Without(s, c) == s
  {
    if s != "" {
      WithoutAbsent(s[1..], c);
    }
  }

  lemma {:induction false} WithoutConcat(a: string, b: string, c: char)
    ensures Without(a + b, c) == Without(a, c) + Without(b, c)
  {
    if a == "" {
      assert a + b == b;
    } else {
      WithoutConcat(a[1..], b, c);
      assert (a + b)[1..] == a[1..] + b && (a + b)[0] == a[0];
      assert [a[0]] + (Without(a[1..], c) + Without(b, c)) == [a[0]] + Without(a[1..], c) + Without(b, c);
    }
  }

  predicate StartsWith(s: string, prefix: string) {
    |prefix| <= |s| && s[..|prefix|] == prefix
  }

  // ---------------------------------------------------------------- ordering

  /** Character-by-character order of strings. */
  predicate TextLess(a: string, b: string) {
    if b == "" then false
    else if a == "" then true
    else a[0] < b[0] || (a[0] == b[0] && TextLess(a[1..], b[1..]))
  }

  lemma {:induction false} TextLessConcat(a: string, b: string, x: string, y: string)
    requires |a| == |b|
    ensures TextLess(a + x, b + y) <==> TextLess(a, b) || (a == b && TextLess(x, y))
  {
    if a != "" {
      TextLessConcat(a[1..], b[1..], x, y);
      assert (a + x)[1..] == a[1..] + x && (b + y)[1..] == b[1..] + y;
      assert a == [a[0]] + a[1..] && b == [b[0]] + b[1..];
    } else {
      assert a + x == x && b + y == y;
    }
  }

  lemma {:induction false} Irreflexive(s: string)
    ensures !TextLess(s, s)
  {
    if s != "" {
      Irreflexive(s[1..]);
    }
  }

  /** Parts of equal lengths joined by the same text compare part by part. */
  lemma JoinedOrder(a: string, b: string, mid: string, x: string, y: string)
    requires |a| == |b| && |x| == |y|
    ensures TextLess(a + mid + x, b + mid + y) <==> TextLess(a, b) || (a == b && TextLess(x, y))
  {
    hide TextLess;
    TextLessConcat(a + mid, b + mid, x, y);
    TextLessConcat(a, b, mid, mid);
    Irreflexive(mid);
    if a + mid == b + mid {
      assert a == (a + mid)[..|a|] && b == (b + mid)[..|a|];
    }
  }

  lemma JoinedSame(a: string, b: string, mid: string, x: string, y: string)
    requires |a| == |b| && |x| == |y|
    ensures a + mid + x == b + mid + y <==> a == b && x == y
  {
    var s, t, n := a + mid + x, b + mid + y, |a| + |mid|;
    assert a == s[..|a|] && b == t[..|a|] && x == s[n..] && y == t[n..];
  }

  /** Zero-padded numbers of one width compare as text exactly as they compare as numbers. */
  lemma {:induction false} PadOrder(a: nat, b: nat, w: nat)
    requires a < Pow10(w) && b < Pow10(w)
    ensures TextLess(Pad(a, w), Pad(b, w)) <==> a < b
    ensures Pad(a, w) == Pad(b, w) <==> a == b
  {
    ValueOfPad(a, w);
    ValueOfPad(b, w);
    if w > 0 {
      PadOrder(a / 10, b / 10, w - 1);
      TextLessConcat(Pad(a / 10, w - 1), Pad(b / 10, w - 1), [Digit(a % 10)], [Digit(b % 10)]);
      DigitOrder(a % 10, b % 10);
      hide Value, TextLess, Digit;
    }
  }

  lemma DigitOrder(a: nat, b: nat)
    requires a < 10 && b < 10
    ensures TextLess([Digit(a)], [Digit(b)]) <==> a < b
  {
    assert !TextLess([], []);
  }
}
