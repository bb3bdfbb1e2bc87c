/** Text search and number formats as the C and C++ libraries define them for the C locale. */
module Text {
  import opened Bytes

  predicate IsSpace(c: char) {
    c == ' ' || '\t' <= c <= '\r'  // tab, newline, vertical tab, form feed, carriage return
  }

  predicate IsDigit(c: char) {
    '0' <= c <= '9'
  }

  /** The characters a C function sees: those before the first NUL. */
  function CString(s: string): string {
    if s == "" || s[0] == '\0' then "" else [s[0]] + CString(s[1..])
  }

  lemma {:induction false} CStringWhole(s: string)
    requires '\0' !in s
    ensures CString(s) == s
  {
    if s != "" { CStringWhole(s[1..]); }
  }

  function ToLower(c: char): char {
    if 'A' <= c <= 'Z' then c + 32 as char else c
  }

  function Lower(s: string): (r: string)
    ensures |r| == |s|
  {
    seq(|s|, i requires 0 <= i < |s| => ToLower(s[i]))
  }

  function Spaces(n: nat): (s: string)
    ensures |s| == n && forall c :: c in s ==> c == ' '
  {
    seq(n, _ => ' ')
  }

  // Texts as bytes.

  function ToBytes(s: string): (b: bytes)
    ensures |b| == |s|
  {
    seq(|s|, i requires 0 <= i < |s| => Byte(s[i] as int))
  }

  function ToText(b: bytes): (s: string)
    ensures |s| == |b|
  {
    seq(|b|, i requires 0 <= i < |b| => b[i] as int as char)
  }

  predicate ByteText(s: string) {
    forall c :: c in s ==> c < 256 as char
  }

  lemma BytesRoundTrip(s: string)
    requires ByteText(s)
    ensures ToText(ToBytes(s)) == s
  {
    forall i | 0 <= i < |s|
      ensures ToText(ToBytes(s))[i] == s[i]
    {
      assert s[i] in s;
      ByteValue(s[i] as int);
    }
  }

  lemma BytesBack(b: bytes)
    ensures ToBytes(ToText(b)) == b
  {
    forall i | 0 <= i < |b|
      ensures ToBytes(ToText(b))[i] == b[i]
    {
      ByteBack(b[i]);
    }
  }

  lemma ByteBack(x: byte)
    ensures Byte(x as int as char as int) == x
  {
    var n: nat := x as int;
    assert n as char as int == n;
    ByteValue(n);
    hide Byte;
    SameByte(Byte(n), x);
  }

  lemma SameByte(x: byte, y: byte)
    requires x as int == y as int
    ensures x == y
  {
  }

  // Substring search.

  predicate MatchesAt(s: string, pat: string, i: nat) {
    i + |pat| <= |s| && s[i..i + |pat|] == pat
  }

  lemma SliceOfMatch(s: string, pat: string, i: nat, a: nat, b: nat)
    requires MatchesAt(s, pat, i) && a <= b <= |pat|
    ensures s[i + a..i + b] == pat[a..b]
  {
    forall k | a <= k < b
      ensures s[i + k] == pat[k]
    {
      assert s[i..i + |pat|][k] == s[i + k];
    }
  }

  /** One different character rules a match out. */
  lemma Differs(s: string, pat: string, k: nat, j: nat)
    requires j < |pat| && (k + j < |s| ==> s[k + j] != pat[j])
    ensures !MatchesAt(s, pat, k)
  {
    if k + |pat| <= |s| { assert s[k..k + |pat|][j] == s[k + j]; }
  }

  /** std::string::find: the first match at or after i. */
  function Find(s: string, pat: string, i: nat): (r: Option<nat>)
    ensures r.Some? ==> i <= r.value && MatchesAt(s, pat, r.value)
    ensures r.Some? ==> forall k :: i <= k < r.value ==> !MatchesAt(s, pat, k)
    ensures r.None? ==> forall k :: i <= k ==> !MatchesAt(s, pat, k)
    decreases |s| - i
  {
    if i + |pat| > |s| then None
    else if s[i..i + |pat|] == pat then Some(i)
    else Find(s, pat, i + 1)
  }

  ghost predicate Contains(s: string, pat: string) {
    exists i: nat :: MatchesAt(s, pat, i)
  }

  /** The match a search returns is determined by being the first. */
  lemma FindIs(s: string, pat: string, at: nat)
    requires MatchesAt(s, pat, at)
    requires forall k :: 0 <= k < at ==> !MatchesAt(s, pat, k)
    ensures Find(s, pat, 0) == Some(at)
  {
  }

  lemma FindNothing(s: string, pat: string)
    ensures !Contains(s, pat) <==> Find(s, pat, 0).None?
  {
  }

  /** A text without one of the pattern's characters does not contain the pattern. */
  lemma MissingChar(s: string, pat: string, c: char)
    requires c in pat && c !in s
    ensures !Contains(s, pat)
  {
  }

  // Decimal numbers.

  function DigitChar(d: nat): (c: char)
    requires d < 10
    ensures IsDigit(c)
  {
    d as char + '0'
  }

  function DigitValue(c: char): (d: nat)
    requires IsDigit(c)
    ensures d < 10
  {
    c as int - '0' as int
  }

  predicate AllDigits(s: string) {
    forall c :: c in s ==> IsDigit(c)
  }

  /** %u, %llu: no leading zeros. */
  function Decimal(n: nat): (s: string)
    ensures |s| > 0
  {
    if n < 10 then [DigitChar(n)] else Decimal(n / 10) + [DigitChar(n % 10)]
  }

  /** The k low digits of n. */
  function Padded(n: nat, k: nat): (s: string)
    ensures |s| == k
  {
    if k == 0 then [] else Padded(n / 10, k - 1) + [DigitChar(n % 10)]
  }

  function DecimalValue(s: string): nat
    requires AllDigits(s)
  {
    if s == [] then 0 else 10 * DecimalValue(s[..|s| - 1]) + DigitValue(s[|s| - 1])
  }

  lemma AllDigitsAppend(a: string, b: string)
    requires AllDigits(a) && AllDigits(b)
    ensures AllDigits(a + b)
  {
  }

  lemma {:induction false} DecimalRoundTrip(n: nat)
    ensures AllDigits(Decimal(n)) && DecimalValue(Decimal(n)) == n
  {
    if n >= 10 {
      DecimalRoundTrip(n / 10);
      var s := Decimal(n);
      assert s[..|s| - 1] == Decimal(n / 10);
    }
  }

  lemma {:induction false} DecimalLength(n: nat, k: nat)
    requires n < Pow10(k) && k > 0
    ensures |Decimal(n)| <= k
  {
    if n >= 10 { DecimalLength(n / 10, k - 1); }
  }

  lemma {:induction false} DecimalLengthAtLeast(n: nat, k: nat)
    requires n >= Pow10(k)
    ensures |Decimal(n)| > k
  {
    if k > 0 {
      assert n >= 10;
      DecimalLengthAtLeast(n / 10, k - 1);
    }
  }

  function Pow10(k: nat): (p: nat)
    ensures p > 0
  {
    if k == 0 then 1 else 10 * Pow10(k - 1)
  }

  lemma ShiftIn(v: nat, p: nat, n: nat)
    ensures 10 * (v * p + n / 10) + n % 10 == v * (10 * p) + n
  {
    assert v * (10 * p) == 10 * (v * p);
  }

  lemma {:induction false} PaddedValue(a: string, n: nat, k: nat)
    requires AllDigits(a) && n < Pow10(k)
    ensures AllDigits(a + Padded(n, k))
    ensures DecimalValue(a + Padded(n, k)) == DecimalValue(a) * Pow10(k) + n
  {
    if k == 0 {
      assert a + Padded(n, 0) == a;
    } else {
      PaddedValue(a, n / 10, k - 1);
      var s := a + Padded(n, k);
      assert s[..|s| - 1] == a + Padded(n / 10, k - 1);
      ShiftIn(DecimalValue(a), Pow10(k - 1), n);
    }
  }

  /** The end of the run of digits that starts at i. */
  function DigitsEnd(s: string, i: nat): (e: nat)
    requires i <= |s|
    ensures i <= e <= |s| && AllDigits(s[i..e])
    ensures e < |s| ==> !IsDigit(s[e])
    decreases |s| - i
  {
    if i < |s| && IsDigit(s[i]) then
      var e := DigitsEnd(s, i + 1);
      assert s[i..e] == [s[i]] + s[i + 1..e];
      e
    else i
  }

  lemma DigitsEndIs(s: string, i: nat, e: nat)
    requires i <= e <= |s| && AllDigits(s[i..e]) && (e < |s| ==> !IsDigit(s[e]))
    ensures DigitsEnd(s, i) == e
    decreases e - i
  {
    if i < e {
      assert s[i] in s[i..e];
      assert AllDigits(s[i + 1..e]) by {
        forall c | c in s[i + 1..e] ensures IsDigit(c) { assert c in s[i..e]; }
      }
      DigitsEndIs(s, i + 1, e);
    }
  }

  function SkipSpaces(s: string, i: nat): (j: nat)
    requires i <= |s|
    ensures i <= j <= |s|
    decreases |s| - i
  {
    if i < |s| && IsSpace(s[i]) then SkipSpaces(s, i + 1) else i
  }

  predicate SignAt(s: string, i: nat) {
    i < |s| && (s[i] == '-' || s[i] == '+')
  }

  datatype Parsed<+T> = NoNumber | OutOfRange | Number(value: T, end: nat)

  /** strtoull(s + i, &end, 10). A minus sign negates modulo 2^64. */
  function Strtoull(s: string, i: nat): (r: Parsed<nat>)
    requires i <= |s|
    ensures r.Number? ==> i < r.end <= |s| && r.value < UINT64_MODULUS
  {
    var j := SkipSpaces(s, i);
    var k := if SignAt(s, j) then j + 1 else j;
    var e := DigitsEnd(s, k);
    if e == k then NoNumber else
      var v := DecimalValue(s[k..e]);
      if v >= UINT64_MODULUS then OutOfRange
      else Number(if s[j] == '-' then (UINT64_MODULUS - v) % UINT64_MODULUS else v, e)
  }

  function Signed(negative: bool, n: nat): int {
    if negative then 0 - n else n
  }

  function Scaled(mantissa: int, exponent: int): real {
    if exponent >= 0 then (mantissa * Pow10(exponent)) as real else mantissa as real / Pow10(-exponent) as real
  }

  /** The exponent part of a decimal number that ends at i: its value, and where it ends. */
  function ExponentAt(s: string, i: nat): (r: (int, nat))
    requires i <= |s|
    ensures i <= r.1 <= |s|
  {
    if i < |s| && (s[i] == 'e' || s[i] == 'E') then
      var k := if SignAt(s, i + 1) then i + 2 else i + 1;
      var e := DigitsEnd(s, k);
      if e == k then (0, i)
      else (Signed(s[i + 1] == '-', DecimalValue(s[k..e])), e)
    else (0, i)
  }

  datatype NumberText = NumberText(negative: bool, digits: string, fraction: nat, exponent: int)

  /** The decimal number at i: sign, all its digits, how many follow the point, and the exponent. */
  function NumberAt(s: string, i: nat): (r: Parsed<NumberText>)
    requires i <= |s|
    ensures r.Number? ==> i < r.end <= |s| && AllDigits(r.value.digits)
  {
    var j := SkipSpaces(s, i);
    var k := if SignAt(s, j) then j + 1 else j;
    var e := DigitsEnd(s, k);
    var f := if e < |s| && s[e] == '.' then DigitsEnd(s, e + 1) else e;
    var fraction := if f > e then s[e + 1..f] else [];
    if e == k && fraction == [] then NoNumber else
      var (exponent, end) := ExponentAt(s, f);
      Number(NumberText(s[j] == '-', s[k..e] + fraction, |fraction|, exponent), end)
  }

  function NumberValue(n: NumberText): real
    requires AllDigits(n.digits)
  {
    Scaled(Signed(n.negative, DecimalValue(n.digits)), n.exponent - n.fraction)
  }

  /** strtod(s + i, &end) on decimal text, with the exact value of the text. */
  function Strtod(s: string, i: nat): (r: Parsed<real>)
    requires i <= |s|
    ensures r.Number? ==> i < r.end <= |s|
  {
    match NumberAt(s, i)
    case Number(n, end) => Number(NumberValue(n), end)
    case _ => NoNumber
  }

  // Six-decimal output.

  const MICRO: nat := 1_000_000

  /** A non-negative number to the nearest integer, halves to even, as printf rounds. */
  function Nearest(x: real): (n: nat)
    requires x >= 0.0
  {
    var f := x.Floor;
    var rest := x - f as real;
    if rest < 0.5 then f else if rest > 0.5 then f + 1 else if f % 2 == 0 then f else f + 1
  }

  function Magnitude(x: real): real {
    if x < 0.0 then -x else x
  }

  /** x in millionths, rounded, without its sign. */
  function Micros(x: real): nat {
    Nearest(Magnitude(x) * MICRO as real)
  }

  /** The value that six decimals keep of x. */
  function Rounded(x: real): real {
    Signed(x < 0.0, Micros(x)) as real / MICRO as real
  }

  /** %.6f */
  function Fixed6(x: real): string {
    (if x < 0.0 then "-" else "") + Decimal(Micros(x) / MICRO) + "." + Padded(Micros(x) % MICRO, 6)
  }

  lemma RoundedExact(n: int)
    ensures Rounded(n as real / MICRO as real) == n as real / MICRO as real
  {
    var x := n as real / MICRO as real;
    assert x * MICRO as real == n as real;
    var m := if n < 0 then -n else n;
    assert Magnitude(x) * MICRO as real == m as real;
    assert (m as real).Floor == m;
  }

  /** Rounding moves a number by at most half a millionth. */
  lemma RoundedClose(x: real)
    ensures Magnitude(Rounded(x) - x) * (2 * MICRO) as real <= 1.0
  {
    var y := Magnitude(x) * MICRO as real;
    assert Magnitude(y - Micros(x) as real) <= 0.5;
  }

  /** Text that starts a number field: what follows is neither a digit nor an exponent mark. */
  predicate FieldEnds(s: string, e: nat) {
    e < |s| ==> !IsDigit(s[e]) && s[e] != '.' && s[e] != 'e' && s[e] != 'E'
  }

  /** Printing then parsing an unsigned number gives it back, wherever it stands in a text. */
  lemma StrtoullReadsDecimal(s: string, i: nat, n: nat)
    requires n < UINT64_MODULUS && MatchesAt(s, Decimal(n), i) && FieldEnds(s, i + |Decimal(n)|)
    ensures Strtoull(s, i) == Number(n, i + |Decimal(n)|)
  {
    hide Decimal, DecimalValue, DigitsEnd;
    var d := Decimal(n);
    DecimalRoundTrip(n);
    assert s[i..i + |d|] == d;
    assert s[i] == d[0] && d[0] in d;
    DigitsEndIs(s, i, i + |d|);
  }

  lemma Pow10Six()
    ensures Pow10(6) == MICRO
  {
    assert Pow10(3) == 1000;
  }

  lemma JoinedParts(sign: string, whole: string, fraction: string)
    requires |sign| <= 1 && whole != [] && |fraction| == 6
    ensures var text := sign + whole + "." + fraction;
            var n, e := |sign|, |text| - 7;
            && e == n + |whole| && text[n..e] == whole && text[e] == '.' && text[e + 1..] == fraction
            && text[0] == (if n == 0 then whole[0] else sign[0])
  {
  }

  /** The number printed by Fixed6 read as sign, whole part and six decimals. */
  lemma Fixed6Parts(x: real)
    ensures var text, n := Fixed6(x), if x < 0.0 then 1 else 0;
            var e := |text| - 7;
            && n < e && AllDigits(text[n..e]) && text[e] == '.' && AllDigits(text[e + 1..])
            && !IsSpace(text[0]) && text[0] != '+' && (text[0] == '-' <==> x < 0.0)
            && DecimalValue(text[n..e] + text[e + 1..]) == Micros(x)
  {
    hide Micros, Decimal, Padded, DecimalValue, Pow10;
    var m := Micros(x);
    var whole, fraction := Decimal(m / MICRO), Padded(m % MICRO, 6);
    JoinedParts(if x < 0.0 then "-" else "", whole, fraction);
    DecimalRoundTrip(m / MICRO);
    Pow10Six();
    PaddedValue(whole, m % MICRO, 6);
    assert forall c :: c in fraction ==> c in whole + fraction;
    assert whole[0] in whole;
  }

  lemma NumberAtIs(s: string, i: nat, k: nat, e: nat, f: nat)
    requires i <= k < e < f <= |s| && !IsSpace(s[i]) && s[i] != '+' && k == (if s[i] == '-' then i + 1 else i)
    requires DigitsEnd(s, k) == e && s[e] == '.' && DigitsEnd(s, e + 1) == f && FieldEnds(s, f)
    ensures AllDigits(s[k..e] + s[e + 1..f])
    ensures NumberAt(s, i) == Number(NumberText(s[i] == '-', s[k..e] + s[e + 1..f], f - e - 1, 0), f)
  {
    AllDigitsAppend(s[k..e], s[e + 1..f]);
  }

  lemma NumberAtFixed6(s: string, i: nat, x: real)
    requires MatchesAt(s, Fixed6(x), i) && FieldEnds(s, i + |Fixed6(x)|)
    ensures var text, n := Fixed6(x), if x < 0.0 then 1 else 0;
            && |text| > n + 7
            && NumberAt(s, i)
            == Number(NumberText(x < 0.0, text[n..|text| - 7] + text[|text| - 6..], 6, 0), i + |text|)
  {
    hide Fixed6, DecimalValue, Micros, NumberAt, DigitsEnd;
    var text := Fixed6(x);
    var k := if x < 0.0 then i + 1 else i;
    var e, f := i + |text| - 7, i + |text|;
    Fixed6Parts(x);
    SliceOfMatch(s, text, i, k - i, e - i);
    SliceOfMatch(s, text, i, e - i, e - i + 1);
    SliceOfMatch(s, text, i, e - i + 1, |text|);
    SliceOfMatch(s, text, i, 0, 1);
    assert s[i] == s[i..i + 1][0] && s[e] == s[e..e + 1][0];
    assert s[k] in s[k..e];
    DigitsEndIs(s, k, e);
    DigitsEndIs(s, e + 1, f);
    NumberAtIs(s, i, k, e, f);
  }

  /** Printing then parsing a real gives its six-decimal rounding. */
  lemma StrtodReadsFixed6(s: string, i: nat, x: real)
    requires MatchesAt(s, Fixed6(x), i) && FieldEnds(s, i + |Fixed6(x)|)
    ensures Strtod(s, i) == Number(Rounded(x), i + |Fixed6(x)|)
  {
    hide Fixed6, DecimalValue, Micros, NumberAt;
    NumberAtFixed6(s, i, x);
    Fixed6Parts(x);
    Pow10Six();
  }
}
