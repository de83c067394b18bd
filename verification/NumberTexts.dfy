/** Texts of numbers: what `parseFloat` reads of them, the number formats, and the number a formatted text denotes. */
module NumberTexts {
  import opened Wrappers
  import opened Decimal
  import opened Texts

  // ----- parseFloat -----

  /** What `parseFloat` gives. A comparison with NaN is false. */
  datatype Parsed = NaN | Finite(value: real) | Infinite(negative: bool) {
    predicate LessThan(bound: real) {
      match this
      case NaN => false
      case Finite(value) => value < bound
      case Infinite(negative) => negative
    }

    predicate MoreThan(bound: real) {
      match this
      case NaN => false
      case Finite(value) => value > bound
      case Infinite(negative) => !negative
    }

    function Negated(): Parsed {
      match this
      case NaN => NaN
      case Finite(value) => Finite(-value)
      case Infinite(negative) => Infinite(!negative)
    }
  }

  const INFINITY := "Infinity"

  /** The value of digits behind a decimal point. */
  function Fraction(digits: string): (x: real)
    requires AllDigits(digits)
    ensures x >= 0.0
  {
    Value(digits) as real / PowTen(|digits|) as real
  }

  /** The digits that follow a decimal point at position `at`, if there is one. */
  function AfterPoint(s: string, at: nat): (digits: string)
    ensures AllDigits(digits) && |digits| <= |s|
  {
    if at < |s| && s[at] == '.' then s[at + 1..][..DigitRun(s[at + 1..])] else ""
  }

  /** `e`, an optional sign and digits; without digits there is no exponent. */
  function Exponent(s: string): int {
    if s == "" || (s[0] != 'e' && s[0] != 'E') then 0
    else
      var negative := |s| > 1 && s[1] == '-';
      var digits := if negative || (|s| > 1 && s[1] == '+') then s[2..] else s[1..];
      var value: int := Value(digits[..DigitRun(digits)]);
      if negative then -value else value
  }

  function Scaled(x: real, exponent: int): real {
    if exponent >= 0 then x * PowTen(exponent) as real else x / PowTen(-exponent) as real
  }

  /** Digits, an optional point and more digits, from the start of the text on; at least one digit in all. */
  function Plain(s: string): (r: Parsed)
    ensures r == NaN || (r.Finite? && r.value >= 0.0)
  {
    var a := DigitRun(s);
    var fraction := AfterPoint(s, a);
    if a == 0 && fraction == "" then NaN else Finite(Value(s[..a]) as real + Fraction(fraction))
  }

  /** Where the digits, the point and the further digits end. */
  function PlainEnd(s: string): (end: nat)
    ensures end <= |s|
  {
    var a := DigitRun(s);
    if a < |s| && s[a] == '.' then a + 1 + |AfterPoint(s, a)| else a
  }

  function Unsigned(s: string): Parsed {
    if INFINITY <= s then Infinite(false)
    else match Plain(s)
         case Finite(value) => Finite(Scaled(value, Exponent(s[PlainEnd(s)..])))
         case _ => NaN
  }

  /** `parseFloat` without rounding: the longest prefix that is a decimal literal, after leading whitespace. */
  function ParseFloat(text: string): Parsed {
    var s := TrimStart(text);
    if s != "" && s[0] == '-' then Unsigned(s[1..]).Negated()
    else Unsigned(if s != "" && s[0] == '+' then s[1..] else s)
  }

  // ----- number texts -----

  predicate IsNumberChar(c: char) {
    IsDigit(c) || c == ',' || c == '.'
  }

  predicate AllNumberChars(s: string) {
    forall i :: 0 <= i < |s| ==> IsNumberChar(s[i])
  }

  /** `^[0-9,.]+$` */
  predicate IsNumberText(s: string) {
    s != "" && AllNumberChars(s)
  }

  lemma {:induction false} TrimEndKeeps(s: string)
    ensures TrimEnd(s) <= s && forall i :: |TrimEnd(s)| <= i < |s| ==> IsSpace(s[i])
  {
    if s != "" && IsSpace(s[|s| - 1]) {
      TrimEndKeeps(s[..|s| - 1]);
    }
  }

  lemma NotInfinity(s: string)
    requires s == "" || s[0] != 'I'
    ensures !(INFINITY <= s)
  {
    assert INFINITY[0] == 'I';
  }

  /** Without letters there is neither an exponent nor an infinity. */
  lemma UnsignedIsPlain(s: string)
    requires forall i :: 0 <= i < |s| ==> IsNumberChar(s[i]) || IsSpace(s[i])
    ensures Unsigned(s) == Plain(s)
  {
    NotInfinity(s);
    var end := PlainEnd(s);
    assert end < |s| ==> s[end..][0] == s[end];
    NoExponent(s[end..]);
  }

  lemma NoExponent(s: string)
    requires s == "" || (s[0] != 'e' && s[0] != 'E')
    ensures Exponent(s) == 0 && forall x: real :: Scaled(x, Exponent(s)) == x
  {
  }

  /** Of a text that is a number text apart from whitespace around it, only digits and the first point matter. */
  lemma ParseOfNumberText(text: string)
    requires AllNumberChars(Trim(text))
    ensures ParseFloat(text) == Plain(TrimStart(text))
  {
    var s := TrimStart(text);
    TrimEndKeeps(s);
    forall i | 0 <= i < |s|
      ensures IsNumberChar(s[i]) || IsSpace(s[i])
    {
      assert i < |TrimEnd(s)| ==> s[i] == TrimEnd(s)[i];
    }
    UnsignedIsPlain(s);
  }

  /** No number is read exactly when the text starts neither with a digit nor with a point and a digit. */
  lemma NothingRead(text: string)
    requires IsNumberText(Trim(text))
    ensures var s := TrimStart(text);
            && s != ""
            && (ParseFloat(text) == NaN <==> !IsDigit(s[0]) && !(s[0] == '.' && |s| > 1 && IsDigit(s[1])))
  {
    ParseOfNumberText(text);
    TrimEndKeeps(TrimStart(text));
    var s := TrimStart(text);
    assert s[0] == '.' && |s| > 1 ==> s[1..][0] == s[1];
  }

  /** Without whitespace around it, a number text is read as it is. */
  lemma ParseOfUntrimmed(text: string)
    requires AllNumberChars(text)
    ensures Trim(text) == TrimStart(text) == text && ParseFloat(text) == Plain(text)
  {
    assert TrimStart(text) == text;
    assert TrimEnd(text) == text;
    ParseOfNumberText(text);
  }

  // ----- formats -----

  /** The formats of the table, by their labels' separators. In the last one the comma groups once, as in its label. */
  datatype NumberFormat = CommaPoint | PointComma | LastComma {
    function Group(): char {
      if PointComma? then '.' else ','
    }

    function Point(): char {
      if PointComma? then ',' else '.'
    }
  }

  function FormatOf(name: string): Option<NumberFormat> {
    if name == "123,456,789.00" then Some(CommaPoint)
    else if name == "123.456.789,00" then Some(PointComma)
    else if name == "123456,789.00" then Some(LastComma)
    else None
  }

  /** `\d{1,3}(?:g\d{3})*` */
  predicate Grouped(s: string, g: char) {
    if |s| <= 3 then s != "" && AllDigits(s)
    else AllDigits(s[|s| - 3..]) && s[|s| - 4] == g && Grouped(s[..|s| - 4], g)
  }

  /** `(?:d\d{1,2})?` */
  predicate IsCents(s: string, d: char) {
    s == "" || (2 <= |s| <= 3 && s[0] == d && AllDigits(s[1..]))
  }

  /** `\d+(?:,\d{1,3})?`, the second part being there if anything follows. */
  predicate HasLastGroup(s: string, whole: bool) {
    exists n :: 0 < n <= |s| && AllDigits(s[..n]) &&
                ((n == |s| && whole) || (n + 2 <= |s| <= n + 4 && s[n] == ',' && AllDigits(s[n + 1..])))
  }

  /** The first `n` characters are the whole part, and the rest the cents. */
  predicate FitsAt(format: NumberFormat, s: string, n: nat)
    requires n <= |s|
  {
    && IsCents(s[n..], format.Point())
    && if format.LastComma? then HasLastGroup(s[..n], n == |s|)
       else (n > 0 && AllDigits(s[..n])) || Grouped(s[..n], format.Group())
  }

  /** The format's pattern matches the text. */
  predicate Fits(format: NumberFormat, s: string) {
    exists n :: 0 <= n <= |s| && FitsAt(format, s, n)
  }

  // ----- the number a formatted text denotes -----

  /** The text without group separators, and with the format's decimal separator written as a point. */
  function Cleaned(format: NumberFormat, s: string): string {
    if s == "" then ""
    else if s[0] == format.Group() then Cleaned(format, s[1..])
    else [if s[0] == format.Point() then '.' else s[0]] + Cleaned(format, s[1..])
  }

  function Denoted(format: NumberFormat, s: string): Parsed {
    Plain(Cleaned(format, s))
  }

  /** What all formats have in common: digits with single separators between them, then the cents. */
  ghost predicate IsWhole(format: NumberFormat, w: string) {
    && w != "" && IsDigit(w[0])
    && (forall i :: 0 <= i < |w| ==> IsDigit(w[i]) || w[i] == format.Group())
    && (forall i :: 0 <= i < |w| && w[i] == format.Group() ==> i + 1 < |w| && IsDigit(w[i + 1]))
  }

  lemma {:induction false} GroupedIsWhole(format: NumberFormat, w: string)
    requires Grouped(w, format.Group())
    ensures IsWhole(format, w)
  {
    if |w| > 3 {
      var n := |w| - 4;
      GroupedIsWhole(format, w[..n]);
      assert forall i :: n < i < |w| ==> w[i] == w[n + 1..][i - n - 1];
      assert forall i :: 0 <= i < n ==> w[i] == w[..n][i];
    }
  }

  lemma LastGroupIsWhole(w: string, whole: bool)
    requires HasLastGroup(w, whole)
    ensures IsWhole(LastComma, w)
  {
    var n :| 0 < n <= |w| && AllDigits(w[..n]) &&
             ((n == |w| && whole) || (n + 2 <= |w| <= n + 4 && w[n] == ',' && AllDigits(w[n + 1..])));
    assert forall i :: 0 <= i < n ==> w[i] == w[..n][i];
    assert forall i :: n < i < |w| ==> w[i] == w[n + 1..][i - n - 1];
  }

  lemma FitsHasWhole(format: NumberFormat, s: string, n: nat)
    requires n <= |s| && FitsAt(format, s, n)
    ensures IsWhole(format, s[..n])
  {
    if format.LastComma? {
      LastGroupIsWhole(s[..n], n == |s|);
    } else if Grouped(s[..n], format.Group()) {
      GroupedIsWhole(format, s[..n]);
    }
  }

  lemma ConsConcat(c: char, x: string, y: string)
    ensures [c] + (x + y) == ([c] + x) + y
  {
  }

  lemma {:induction false} CleanedConcat(format: NumberFormat, a: string, b: string)
    ensures Cleaned(format, a + b) == Cleaned(format, a) + Cleaned(format, b)
  {
    if a == "" {
      assert a + b == b;
    } else {
      CleanedConcat(format, a[1..], b);
      assert (a + b)[1..] == a[1..] + b;
      ConsConcat(if a[0] == format.Point() then '.' else a[0], Cleaned(format, a[1..]), Cleaned(format, b));
    }
  }

  /** Digits stay as they are. */
  lemma {:induction false} CleanedAfterDigits(format: NumberFormat, digits: string, rest: string)
    requires AllDigits(digits)
    ensures Cleaned(format, digits + rest) == digits + Cleaned(format, rest)
  {
    if digits == "" {
      assert digits + rest == rest;
    } else {
      CleanedAfterDigits(format, digits[1..], rest);
      assert (digits + rest)[1..] == digits[1..] + rest;
      assert digits == [digits[0]] + digits[1..];
    }
  }

  lemma CleanedDigits(format: NumberFormat, digits: string)
    requires AllDigits(digits)
    ensures Cleaned(format, digits) == digits
  {
    CleanedAfterDigits(format, digits, "");
    assert digits + "" == digits;
  }

  /** The separators of the whole part go, and its digits stay. */
  lemma {:induction false} CleanedWhole(format: NumberFormat, w: string)
    requires forall i :: 0 <= i < |w| ==> IsDigit(w[i]) || w[i] == format.Group()
    ensures AllDigits(Cleaned(format, w))
    ensures NoneButZeros(Cleaned(format, w)) <==> NoneButZeros(w)
    ensures forall i :: 0 <= i < |w| && IsDigit(w[i]) ==> Cleaned(format, w) != ""
  {
    if w != "" {
      CleanedWhole(format, w[1..]);
      assert forall i :: 0 < i < |w| ==> w[i] == w[1..][i - 1];
      if w[0] != format.Group() {
        ZerosCons(w[0], Cleaned(format, w[1..]));
      }
      ZerosCons(w[0], w[1..]);
      assert w == [w[0]] + w[1..];
    }
  }

  lemma ZerosCons(c: char, s: string)
    ensures NoneButZeros([c] + s) <==> !('1' <= c <= '9') && NoneButZeros(s)
  {
    var t := [c] + s;
    assert t[0] == c;
    assert forall i :: 0 <= i < |s| ==> t[i + 1] == s[i];
    assert forall i :: 0 < i < |t| ==> t[i] == s[i - 1];
  }

  /** Digits that something else follows, which is not a point. */
  lemma PlainWhole(s: string, n: nat)
    requires 0 < n <= |s| && AllDigits(s[..n])
    requires n == |s| || (!IsDigit(s[n]) && s[n] != '.')
    ensures Plain(s) == Finite(Value(s[..n]) as real)
  {
    DigitRunOf(s[..n], s[n..]);
    assert s == s[..n] + s[n..];
    assert Fraction("") == 0.0;
  }

  /** Digits, a point and digits that something else follows. */
  lemma PlainPoint(s: string, n: nat, m: nat)
    requires 0 < n < m <= |s| && AllDigits(s[..n]) && s[n] == '.' && AllDigits(s[n + 1..m])
    requires m == |s| || !IsDigit(s[m])
    ensures Plain(s) == Finite(Value(s[..n]) as real + Fraction(s[n + 1..m]))
  {
    DigitRunOf(s[..n], s[n..]);
    assert s == s[..n] + s[n..];
    DigitRunOf(s[n + 1..m], s[m..]);
    assert s[n + 1..] == s[n + 1..m] + s[m..];
  }

  /** The digits of the cents. */
  function CentDigits(cents: string): string {
    if cents == "" then "" else cents[1..]
  }

  lemma CleanedCents(format: NumberFormat, cents: string)
    requires IsCents(cents, format.Point())
    ensures AllDigits(CentDigits(cents))
    ensures Cleaned(format, cents) == if cents == "" then "" else "." + CentDigits(cents)
  {
    CleanedDigits(format, CentDigits(cents));
  }

  lemma PlainOfDigits(digits: string)
    requires digits != "" && AllDigits(digits)
    ensures Plain(digits) == Finite(Value(digits) as real)
  {
    assert digits[..|digits|] == digits;
    PlainWhole(digits, |digits|);
  }

  lemma PlainOfParts(digits: string, more: string)
    requires digits != "" && AllDigits(digits) && AllDigits(more)
    ensures Plain(digits + ("." + more)) == Finite(Value(digits) as real + Fraction(more))
  {
    var s := digits + ("." + more);
    assert s[..|digits|] == digits && s[|digits| + 1..|s|] == more;
    PlainPoint(s, |digits|, |s|);
  }

  /** The denoted number is made of the digits of the whole part and those of the cents. */
  lemma DenotedByParts(format: NumberFormat, w: string, cents: string)
    requires IsWhole(format, w) && IsCents(cents, format.Point())
    ensures var digits := Cleaned(format, w);
            && digits != "" && AllDigits(digits) && AllDigits(CentDigits(cents))
            && Denoted(format, w + cents) == Finite(Value(digits) as real + Fraction(CentDigits(cents)))
  {
    var digits, more := Cleaned(format, w), CentDigits(cents);
    CleanedConcat(format, w, cents);
    CleanedWhole(format, w);
    CleanedCents(format, cents);
    if cents == "" {
      assert digits + "" == digits;
      PlainOfDigits(digits);
      assert Fraction("") == 0.0;
    } else {
      PlainOfParts(digits, more);
    }
  }

  // ----- parseFloat reads the denoted number only sometimes, and never more -----

  lemma FractionZero(digits: string)
    requires AllDigits(digits)
    ensures Fraction(digits) == 0.0 <==> NoneButZeros(digits)
  {
    ValueZero(digits);
    var p := PowTen(|digits|) as real;
    assert Fraction(digits) * p == Value(digits) as real;
  }

  lemma FractionIsSmaller(digits: string)
    requires AllDigits(digits) && digits != ""
    ensures Fraction(digits) <= Value(digits) as real / 10.0
  {
    var v, p := Value(digits) as real, PowTen(|digits|) as real;
    assert PowTen(|digits|) == 10 * PowTen(|digits| - 1);
    SmallerQuotient(v, p);
  }

  lemma SmallerQuotient(v: real, p: real)
    requires v >= 0.0 && p >= 10.0
    ensures v / p <= v / 10.0
  {
    var q := v / p;
    assert q * p == v;
    ProductNotNegative(q, p - 10.0);
    assert q * (p - 10.0) == q * p - q * 10.0;
  }

  lemma ProductNotNegative(x: real, y: real)
    requires x >= 0.0 && y >= 0.0
    ensures x * y >= 0.0
  {
  }

  /** Digits in front of others stand for at least ten times as much as by themselves. */
  lemma ShiftedIsLarger(a: string, t: string)
    requires AllDigits(a) && AllDigits(t) && t != ""
    ensures AllDigits(a + t) && Value(a + t) >= 10 * Value(a) + Value(t)
    ensures Value(a + t) == 0 <==> Value(a) == 0 && Value(t) == 0
  {
    ValueConcat(a, t);
    assert PowTen(|t|) == 10 * PowTen(|t| - 1);
    AtLeastTens(Value(a), PowTen(|t| - 1));
  }

  lemma AtLeastTens(v: nat, p: nat)
    requires p >= 1
    ensures v * (10 * p) >= 10 * v
  {
  }

  /** When `parseFloat` reads the number that a text in this format denotes. */
  predicate ReadAsDenoted(format: NumberFormat, s: string) {
    || NoneButZeros(s)
    || (format.Group() !in s && (format.Point() != '.' ==> NoneButZeros(s[DigitRun(s)..])))
  }

  /** Without group separators only a decimal comma is lost, with what follows it. */
  lemma ReadsUngrouped(format: NumberFormat, w: string, cents: string)
    requires w != "" && AllDigits(w) && IsCents(cents, format.Point())
    ensures DigitRun(w + cents) == |w| && AllDigits(CentDigits(cents))
    ensures Plain(w + cents) ==
            Finite(Value(w) as real + if format.Point() == '.' then Fraction(CentDigits(cents)) else 0.0)
  {
    DigitRunOf(w, cents);
    if cents != "" && format.Point() == '.' {
      assert cents == "." + CentDigits(cents);
      PlainOfParts(w, CentDigits(cents));
    } else {
      assert (w + cents)[..|w|] == w;
      PlainWhole(w + cents, |w|);
      assert Fraction("") == 0.0;
    }
  }

  /** Where the first group ends, and where the second. */
  lemma FirstGroups(format: NumberFormat, w: string) returns (a: nat, m: nat)
    requires IsWhole(format, w) && format.Group() in w
    ensures 0 < a && a + 1 < m <= |w| && AllDigits(w[..a]) && w[a] == format.Group() && AllDigits(w[a + 1..m])
    ensures m == |w| || w[m] == format.Group()
  {
    a := DigitRun(w);
    assert forall i :: 0 <= i < a ==> w[i] == w[..a][i];
    var rest := w[a + 1..];
    m := a + 1 + DigitRun(rest);
    assert w[a + 1..m] == rest[..m - a - 1];
    assert m < |w| ==> w[m] == rest[m - a - 1];
    assert rest[0] == w[a + 1];
  }

  /** With group separators, only the first group is read, and after a point the second as a fraction. */
  lemma ReadsGrouped(format: NumberFormat, w: string, cents: string, a: nat, m: nat)
    requires IsCents(cents, format.Point())
    requires 0 < a && a + 1 < m <= |w| && AllDigits(w[..a]) && w[a] == format.Group() && AllDigits(w[a + 1..m])
    requires m == |w| || w[m] == format.Group()
    ensures Plain(w + cents) ==
            Finite(Value(w[..a]) as real + if format.Group() == '.' then Fraction(w[a + 1..m]) else 0.0)
  {
    var s := w + cents;
    assert s[..a] == w[..a] && s[a] == w[a];
    if format.Group() == '.' {
      assert s[a + 1..m] == w[a + 1..m];
      assert m < |s| ==> s[m] == if m < |w| then w[m] else cents[0];
      PlainPoint(s, a, m);
    } else {
      PlainWhole(s, a);
    }
  }

  lemma NotSmaller(v: nat, p: nat)
    requires p >= 1
    ensures v * p >= v
  {
  }

  lemma PrefixIsSmaller(b: string, rest: string)
    requires AllDigits(b) && AllDigits(rest)
    ensures AllDigits(b + rest) && Value(b) <= Value(b + rest)
  {
    ValueConcat(b, rest);
    NotSmaller(Value(b), PowTen(|rest|));
  }

  /** `digits` are those of the whole part, of which those of `a` are read and maybe those of `b` as a fraction. */
  lemma ReadsLess(digits: string, a: string, b: string, rest: string)
    requires AllDigits(a) && AllDigits(b) && AllDigits(rest) && b != "" && digits == a + (b + rest)
    ensures AllDigits(digits)
    ensures Value(a) as real + Fraction(b) <= Value(digits) as real
    ensures Value(a) as real == Value(digits) as real <==> Value(digits) == 0
    ensures Value(a) as real + Fraction(b) == Value(digits) as real <==> Value(digits) == 0
  {
    PrefixIsSmaller(b, rest);
    ShiftedIsLarger(a, b + rest);
    FractionIsSmaller(b);
  }

  lemma ZerosConcat(a: string, b: string)
    ensures NoneButZeros(a + b) <==> NoneButZeros(a) && NoneButZeros(b)
  {
    var t := a + b;
    assert forall i :: 0 <= i < |a| ==> t[i] == a[i];
    assert forall i :: 0 <= i < |b| ==> t[|a| + i] == b[i];
    assert forall i :: |a| <= i < |t| ==> t[i] == b[i - |a|];
  }

  lemma CentZeros(cents: string, d: char)
    requires IsCents(cents, d) && !IsDigit(d)
    ensures NoneButZeros(cents) <==> NoneButZeros(CentDigits(cents))
  {
    if cents != "" {
      ZerosCons(d, CentDigits(cents));
      assert cents == [d] + CentDigits(cents);
    }
  }

  /** The digits of the whole part, cut where reading it stops. */
  lemma CleanedAround(format: NumberFormat, w: string, a: nat, m: nat)
    requires IsWhole(format, w) && a < m <= |w| && AllDigits(w[..a]) && w[a] == format.Group() && AllDigits(w[a + 1..m])
    ensures AllDigits(Cleaned(format, w[m..]))
    ensures Cleaned(format, w) == w[..a] + (w[a + 1..m] + Cleaned(format, w[m..]))
  {
    var first, second, rest := w[..a], w[a + 1..m], w[m..];
    CleanedWhole(format, rest);
    CleanedAfterDigits(format, second, rest);
    SeparatorGoes(format, second + rest);
    CleanedAfterDigits(format, first, [w[a]] + (second + rest));
    CutAround(w, a, m);
  }

  lemma CutAround(w: string, a: nat, m: nat)
    requires a < m <= |w|
    ensures w == w[..a] + ([w[a]] + (w[a + 1..m] + w[m..]))
  {
  }

  lemma SeparatorGoes(format: NumberFormat, s: string)
    ensures Cleaned(format, [format.Group()] + s) == Cleaned(format, s)
  {
    assert ([format.Group()] + s)[1..] == s;
  }

  lemma ReadsGroupedLess(format: NumberFormat, w: string, cents: string)
    requires IsWhole(format, w) && format.Group() in w && IsCents(cents, format.Point())
    ensures var read, denoted := Plain(w + cents), Denoted(format, w + cents);
            && read.Finite? && denoted.Finite? && read.value <= denoted.value
            && (read.value == denoted.value <==> NoneButZeros(w) && NoneButZeros(cents))
  {
    var a, m := FirstGroups(format, w);
    ReadsGrouped(format, w, cents, a, m);
    CleanedAround(format, w, a, m);
    CleanedWhole(format, w);
    var digits, more := Cleaned(format, w), CentDigits(cents);
    ReadsLess(digits, w[..a], w[a + 1..m], Cleaned(format, w[m..]));
    DenotedByParts(format, w, cents);
    ValueZero(digits);
    FractionZero(more);
    CentZeros(cents, format.Point());
  }

  lemma ReadsUngroupedLess(format: NumberFormat, w: string, cents: string)
    requires w != "" && AllDigits(w) && IsCents(cents, format.Point())
    ensures var read, denoted := Plain(w + cents), Denoted(format, w + cents);
            && read.Finite? && denoted.Finite? && read.value <= denoted.value
            && (read.value == denoted.value <==> format.Point() == '.' || NoneButZeros(cents))
  {
    ReadsUngrouped(format, w, cents);
    CleanedDigits(format, w);
    DenotedByParts(format, w, cents);
    FractionZero(CentDigits(cents));
    CentZeros(cents, format.Point());
  }

  /**
   * Of a text in a format of the table, `parseFloat` reads a number that is never more than the one the text
   * denotes. It is that number exactly when the text has no group separators and no cents behind a comma, or only
   * zeros where it does.
   */
  lemma ReadsWhatItDenotes(format: NumberFormat, s: string)
    requires Fits(format, s)
    ensures IsNumberText(s) && Trim(s) == s
    ensures var read, denoted := ParseFloat(s), Denoted(format, s);
            && read.Finite? && denoted.Finite? && 0.0 <= read.value <= denoted.value
            && (read == denoted <==> ReadAsDenoted(format, s))
  {
    var n :| 0 <= n <= |s| && FitsAt(format, s, n);
    var w, cents := s[..n], s[n..];
    assert s == w + cents;
    FitsHasWhole(format, s, n);
    FittingChars(format, w, cents);
    ParseOfUntrimmed(s);
    ZerosConcat(w, cents);
    if format.Group() in w {
      ReadsGroupedLess(format, w, cents);
    } else {
      ReadsUngrouped(format, w, cents);
      ReadsUngroupedLess(format, w, cents);
      assert s[|w|..] == cents;
    }
  }

  lemma FittingChars(format: NumberFormat, w: string, cents: string)
    requires IsWhole(format, w) && IsCents(cents, format.Point())
    ensures IsNumberText(w + cents)
    ensures format.Group() in w + cents <==> format.Group() in w
  {
    var s := w + cents;
    assert forall i :: 0 < i < |cents| ==> cents[i] == cents[1..][i - 1];
    assert format.Group() !in cents;
    assert forall i :: 0 <= i < |s| ==> s[i] == if i < |w| then w[i] else cents[i - |w|];
  }

  /** A few thousands, as the first format groups them. */
  function Thousands(n: nat): string {
    Render(n) + ("," + "000")
  }

  lemma Parts(first: string, c: char, more: string)
    ensures var s := first + ([c] + more);
            s[..|first|] == first && s[|first|] == c && s[|first| + 1..] == more && s[..|s|] == s && s[|s|..] == ""
  {
  }

  /** A first group of at most three digits and one more. */
  lemma TwoGroupsFit(format: NumberFormat, first: string, more: string)
    requires !format.LastComma? && AllDigits(first) && AllDigits(more) && 1 <= |first| <= 3 && |more| == 3
    ensures Fits(format, first + ([format.Group()] + more))
  {
    var s := first + ([format.Group()] + more);
    Parts(first, format.Group(), more);
    assert |s| - 4 == |first|;
    assert Grouped(first, format.Group());
    assert Grouped(s, format.Group());
    assert FitsAt(format, s, |s|);
  }

  lemma TwoGroupsDenote(first: string, second: string)
    requires first != "" && AllDigits(first) && AllDigits(second)
    ensures Denoted(CommaPoint, first + ("," + second)) == Finite(Value(first + second) as real)
  {
    CleanedDigits(CommaPoint, second);
    SeparatorGoes(CommaPoint, second);
    CleanedAfterDigits(CommaPoint, first, "," + second);
    PlainOfDigits(first + second);
  }

  lemma ThousandsDenoted(n: nat)
    ensures Denoted(CommaPoint, Thousands(n)) == Finite((1000 * n) as real)
  {
    ValueOfRender(n);
    TwoGroupsDenote(Render(n), "000");
    ValueConcat(Render(n), "000");
    ValueZero("000");
    assert PowTen(3) == 1000;
  }

  /** So `1,000` is read as 1, and likewise all numbers of thousands that have one group before their comma. */
  lemma ThousandsAreReadAsOnes(n: nat)
    requires |Render(n)| <= 3
    ensures Fits(CommaPoint, Thousands(n)) && Denoted(CommaPoint, Thousands(n)) == Finite((1000 * n) as real)
    ensures ParseFloat(Thousands(n)) == Finite(n as real)
  {
    var s := Thousands(n);
    ValueOfRender(n);
    TwoGroupsFit(CommaPoint, Render(n), "000");
    ThousandsDenoted(n);
    ReadsWhatItDenotes(CommaPoint, s);
    ParseOfUntrimmed(s);
    assert s[..|Render(n)|] == Render(n);
    PlainWhole(s, |Render(n)|);
  }
}
