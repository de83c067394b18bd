/** The number formats from the other side: the texts they stand for, and printing numbers in them. */
module NumberPrinting {
  import opened Wrappers
  import opened Decimal
  import opened Texts
  import opened NumberTexts
  import opened NumberGrids

  // ----- the shape of a text that fits -----

  /** Each group is three digits behind a separator. */
  function Groups(groups: seq<string>, g: char): string {
    if groups == [] then "" else Groups(groups[..|groups| - 1], g) + ([g] + groups[|groups| - 1])
  }

  ghost predicate AreGroups(groups: seq<string>) {
    forall i :: 0 <= i < |groups| ==> |groups[i]| == 3 && AllDigits(groups[i])
  }

  /** One to three digits, then any number of groups. */
  ghost predicate IsGroupedAs(w: string, g: char, first: string, groups: seq<string>) {
    1 <= |first| <= 3 && AllDigits(first) && AreGroups(groups) && w == first + Groups(groups, g)
  }

  lemma GroupsSnoc(groups: seq<string>, g: char, last: string)
    ensures Groups(groups + [last], g) == Groups(groups, g) + ([g] + last)
  {
    assert (groups + [last])[..|groups|] == groups;
  }

  lemma OneMoreGroup(w: string, g: char, first: string, init: seq<string>)
    requires |w| > 4 && w[|w| - 4] == g && AllDigits(w[|w| - 3..])
    requires IsGroupedAs(w[..|w| - 4], g, first, init)
    ensures IsGroupedAs(w, g, first, init + [w[|w| - 3..]])
  {
    var last := w[|w| - 3..];
    GroupsSnoc(init, g, last);
    Reassociate(first, Groups(init, g), [g] + last);
    assert w == w[..|w| - 4] + ([g] + last);
  }

  lemma Reassociate(x: string, y: string, z: string)
    ensures x + (y + z) == (x + y) + z
  {
  }

  lemma {:induction false} GroupsOf(w: string, g: char) returns (first: string, groups: seq<string>)
    requires Grouped(w, g)
    ensures IsGroupedAs(w, g, first, groups)
  {
    if |w| <= 3 {
      first, groups := w, [];
      assert first + "" == w;
    } else {
      var n := |w| - 4;
      var init: seq<string>;
      first, init := GroupsOf(w[..n], g);
      groups := init + [w[n + 1..]];
      OneMoreGroup(w, g, first, init);
    }
  }

  lemma AddGroup(w: string, g: char, last: string)
    requires Grouped(w, g) && |last| == 3 && AllDigits(last)
    ensures Grouped(w + ([g] + last), g)
  {
    var s := w + ([g] + last);
    assert s[|s| - 3..] == last && s[|s| - 4] == g && s[..|s| - 4] == w;
    assert w != "";
  }

  lemma {:induction false} GroupedFrom(g: char, first: string, groups: seq<string>)
    requires 1 <= |first| <= 3 && AllDigits(first) && AreGroups(groups)
    ensures Grouped(first + Groups(groups, g), g)
    decreases |groups|
  {
    if groups == [] {
      assert first + "" == first;
    } else {
      var init, last := groups[..|groups| - 1], groups[|groups| - 1];
      GroupedFrom(g, first, init);
      AddGroup(first + Groups(init, g), g, last);
      Reassociate(first, Groups(init, g), [g] + last);
    }
  }

  /** The pattern of grouped whole numbers stands for one to three digits and any number of groups of three. */
  lemma GroupedExactly(w: string, g: char)
    ensures Grouped(w, g) <==> exists first, groups :: IsGroupedAs(w, g, first, groups)
  {
    if Grouped(w, g) {
      var first, groups := GroupsOf(w, g);
    }
    if first, groups :| IsGroupedAs(w, g, first, groups) {
      GroupedFrom(g, first, groups);
    }
  }

  /** Nothing, or a separator and one or two digits. */
  function CentsText(digits: string, d: char): string {
    if digits == "" then "" else [d] + digits
  }

  ghost predicate AreCents(digits: string) {
    |digits| <= 2 && AllDigits(digits)
  }

  lemma CentsExactly(s: string, d: char)
    ensures IsCents(s, d) <==> exists digits :: AreCents(digits) && s == CentsText(digits, d)
  {
    if IsCents(s, d) {
      var digits := if s == "" then "" else s[1..];
      assert AreCents(digits) && s == CentsText(digits, d);
    }
  }

  /** Digits, grouped or not, and the cents. */
  ghost predicate IsWholeAndCents(s: string, g: char, d: char, whole: string, digits: string) {
    && AreCents(digits) && s == whole + CentsText(digits, d)
    && ((whole != "" && AllDigits(whole)) || exists first, groups :: IsGroupedAs(whole, g, first, groups))
  }

  lemma FitsGroupedExactly(format: NumberFormat, s: string)
    requires !format.LastComma?
    ensures Fits(format, s) <==>
            exists whole, digits :: IsWholeAndCents(s, format.Group(), format.Point(), whole, digits)
  {
    if n :| 0 <= n <= |s| && FitsAt(format, s, n) {
      GroupedExactly(s[..n], format.Group());
      CentsExactly(s[n..], format.Point());
      var digits :| AreCents(digits) && s[n..] == CentsText(digits, format.Point());
      assert s == s[..n] + s[n..];
      assert IsWholeAndCents(s, format.Group(), format.Point(), s[..n], digits);
    }
    if whole, digits :| IsWholeAndCents(s, format.Group(), format.Point(), whole, digits) {
      WholeAndCentsFit(format, whole, digits);
    }
  }

  lemma WholeAndCentsFit(format: NumberFormat, whole: string, digits: string)
    requires !format.LastComma? && AreCents(digits)
    requires IsWholeAndCents(whole + CentsText(digits, format.Point()), format.Group(), format.Point(), whole, digits)
    ensures Fits(format, whole + CentsText(digits, format.Point()))
  {
    var s := whole + CentsText(digits, format.Point());
    GroupedExactly(whole, format.Group());
    assert s[..|whole|] == whole && s[|whole|..] == CentsText(digits, format.Point());
    CentsExactly(s[|whole|..], format.Point());
    assert FitsAt(format, s, |whole|);
  }

  /** Digits, then maybe one to three more behind a comma, and behind these maybe cents. */
  ghost predicate IsLastComma(s: string, whole: string, last: string, digits: string) {
    && whole != "" && AllDigits(whole) && AllDigits(last) && |last| <= 3 && AreCents(digits)
    && if last == "" then digits == "" && s == whole
       else s == whole + ("," + last) + CentsText(digits, '.')
  }

  lemma FitsLastCommaExactly(s: string)
    ensures Fits(LastComma, s) <==> exists whole, last, digits :: IsLastComma(s, whole, last, digits)
  {
    if n :| 0 <= n <= |s| && FitsAt(LastComma, s, n) {
      var whole, last, digits := LastCommaParts(s, n);
    }
    if whole, last, digits :| IsLastComma(s, whole, last, digits) {
      LastCommaFits(s, whole, last, digits);
    }
  }

  lemma LastCommaParts(s: string, n: nat) returns (whole: string, last: string, digits: string)
    requires n <= |s| && FitsAt(LastComma, s, n)
    ensures IsLastComma(s, whole, last, digits)
  {
    var w := s[..n];
    var m :| 0 < m <= |w| && AllDigits(w[..m]) &&
             ((m == |w| && n == |s|) || (m + 2 <= |w| <= m + 4 && w[m] == ',' && AllDigits(w[m + 1..])));
    whole := w[..m];
    if m == |w| {
      last, digits := "", "";
      assert s == whole;
    } else {
      CentsExactly(s[n..], '.');
      last := w[m + 1..];
      digits :| AreCents(digits) && s[n..] == CentsText(digits, '.');
      CutAtComma(s, m, n);
    }
  }

  lemma CutAtComma(s: string, m: nat, n: nat)
    requires m < n <= |s| && s[m] == ','
    ensures s == s[..n][..m] + ("," + s[..n][m + 1..]) + s[n..]
  {
  }

  lemma LastCommaFits(s: string, whole: string, last: string, digits: string)
    requires IsLastComma(s, whole, last, digits)
    ensures Fits(LastComma, s)
  {
    var w := if last == "" then whole else whole + ("," + last);
    var cents := CentsText(digits, '.');
    assert s == w + cents && s[..|w|] == w && s[|w|..] == cents;
    assert w[..|whole|] == whole && (last != "" ==> w[|whole| + 1..] == last);
    CentsExactly(cents, '.');
    assert HasLastGroup(w, |w| == |s|);
    assert FitsAt(LastComma, s, |w|);
  }

  // ----- printing -----

  /** A number in groups of three digits. */
  function PrintGrouped(n: nat, g: char): string {
    if n < 1000 then Render(n) else PrintGrouped(n / 1000, g) + ([g] + ThreeDigits(n % 1000))
  }

  lemma {:induction false} PrintedIsGrouped(n: nat, g: char)
    ensures Grouped(PrintGrouped(n, g), g)
  {
    if n < 1000 {
      ValueOfRender(n);
      RenderLength(n);
    } else {
      PrintedIsGrouped(n / 1000, g);
      AddGroup(PrintGrouped(n / 1000, g), g, ThreeDigits(n % 1000));
    }
  }

  lemma CleanedGroup(format: NumberFormat, w: string, more: string)
    requires AllDigits(more)
    ensures Cleaned(format, w + ([format.Group()] + more)) == Cleaned(format, w) + more
  {
    CleanedConcat(format, w, [format.Group()] + more);
    SeparatorGoes(format, more);
    CleanedDigits(format, more);
  }

  lemma {:induction false} PrintedDigits(format: NumberFormat, n: nat)
    ensures var digits := Cleaned(format, PrintGrouped(n, format.Group()));
            AllDigits(digits) && Value(digits) == n
  {
    if n < 1000 {
      ValueOfRender(n);
      CleanedDigits(format, Render(n));
    } else {
      var more := ThreeDigits(n % 1000);
      PrintedDigits(format, n / 1000);
      CleanedGroup(format, PrintGrouped(n / 1000, format.Group()), more);
      ThreeDigitsValue(n % 1000);
      ValueConcat(Cleaned(format, PrintGrouped(n / 1000, format.Group())), more);
      assert PowTen(3) == 1000;
    }
  }

  lemma CentDigitsOfText(digits: string, d: char)
    requires AreCents(digits)
    ensures IsCents(CentsText(digits, d), d) && CentDigits(CentsText(digits, d)) == digits
  {
    CentsExactly(CentsText(digits, d), d);
  }

  /**
   * Every number, printed in groups of three with a comma or a point between them and with none, one or two digits
   * of cents behind the other sign, fits the first or the second format and denotes that number.
   */
  lemma PrintedNumbersFit(n: nat, digits: string)
    requires AreCents(digits)
    ensures var s := PrintGrouped(n, ',') + CentsText(digits, '.');
            FormatOf("123,456,789.00") == Some(CommaPoint) && Fits(CommaPoint, s) &&
            Denoted(CommaPoint, s) == Finite(n as real + Fraction(digits))
    ensures var s := PrintGrouped(n, '.') + CentsText(digits, ',');
            FormatOf("123.456.789,00") == Some(PointComma) && Fits(PointComma, s) &&
            Denoted(PointComma, s) == Finite(n as real + Fraction(digits))
  {
    PrintedFits(CommaPoint, n, digits);
    PrintedFits(PointComma, n, digits);
  }

  lemma PrintedFits(format: NumberFormat, n: nat, digits: string)
    requires !format.LastComma? && AreCents(digits)
    ensures var s := PrintGrouped(n, format.Group()) + CentsText(digits, format.Point());
            Fits(format, s) && Denoted(format, s) == Finite(n as real + Fraction(digits))
  {
    var w := PrintGrouped(n, format.Group());
    PrintedIsGrouped(n, format.Group());
    GroupedIsWhole(format, w);
    PrintedDigits(format, n);
    CentDigitsOfText(digits, format.Point());
    DenotedByParts(format, w, CentsText(digits, format.Point()));
    GroupedExactly(w, format.Group());
    WholeAndCentsFit(format, w, digits);
  }

  /** A number printed without groups fits every format and denotes itself, with cents in the first two. */
  lemma UngroupedNumbersFit(format: NumberFormat, n: nat, digits: string)
    requires AreCents(digits) && (format.LastComma? ==> digits == "")
    ensures var s := Render(n) + CentsText(digits, format.Point());
            Fits(format, s) && Denoted(format, s) == Finite(n as real + Fraction(digits))
  {
    var w := Render(n);
    ValueOfRender(n);
    CleanedDigits(format, w);
    CentDigitsOfText(digits, format.Point());
    DenotedByParts(format, w, CentsText(digits, format.Point()));
    if format.LastComma? {
      assert w + "" == w;
      LastCommaFits(w, w, "", "");
    } else {
      WholeAndCentsFit(format, w, digits);
    }
  }

  lemma LastCommaIsWhole(a: string, last: string)
    requires a != "" && AllDigits(a) && 1 <= |last| <= 3 && AllDigits(last)
    ensures IsWhole(LastComma, a + ("," + last))
  {
    var w := a + ("," + last);
    assert w[..|a|] == a && w[|a| + 1..] == last;
    assert HasLastGroup(w, false);
    LastGroupIsWhole(w, false);
  }

  lemma LastCommaDenotesDigits(a: string, last: string, digits: string)
    requires a != "" && AllDigits(a) && 1 <= |last| <= 3 && AllDigits(last) && AreCents(digits)
    ensures AllDigits(a + last)
    ensures Denoted(LastComma, a + ("," + last) + CentsText(digits, '.')) ==
            Finite(Value(a + last) as real + Fraction(digits))
  {
    LastCommaIsWhole(a, last);
    CleanedGroup(LastComma, a, last);
    CleanedDigits(LastComma, a);
    CentDigitsOfText(digits, '.');
    DenotedByParts(LastComma, a + ("," + last), CentsText(digits, '.'));
  }

  /** In the last format, the number before the comma is followed by one to three more digits, and maybe cents. */
  lemma LastCommaDenotes(n: nat, last: string, digits: string)
    requires 1 <= |last| <= 3 && AllDigits(last) && AreCents(digits)
    ensures var s := Render(n) + ("," + last) + CentsText(digits, '.');
            FormatOf("123456,789.00") == Some(LastComma) && Fits(LastComma, s) &&
            Denoted(LastComma, s) == Finite((n * PowTen(|last|) + Value(last)) as real + Fraction(digits))
  {
    ValueOfRender(n);
    LastCommaFits(Render(n) + ("," + last) + CentsText(digits, '.'), Render(n), last, digits);
    LastCommaDenotesDigits(Render(n), last, digits);
    ValueConcat(Render(n), last);
  }

  // ----- signs, exponents and infinities -----

  /** Digits up to `n`, a point there, and more digits up to `m`, where something else begins. */
  predicate IsLiteral(s: string, n: nat, m: nat) {
    0 < n < m < |s| && AllDigits(s[..n]) && s[n] == '.' && AllDigits(s[n + 1..m]) && !IsDigit(s[m])
  }

  lemma PlainEndIs(s: string, n: nat, m: nat)
    requires IsLiteral(s, n, m)
    ensures PlainEnd(s) == m
  {
    assert s == s[..n] + s[n..];
    DigitRunOf(s[..n], s[n..]);
    assert s[n + 1..] == s[n + 1..m] + s[m..];
    DigitRunOf(s[n + 1..m], s[m..]);
  }

  lemma UnsignedIs(s: string, n: nat, m: nat)
    requires IsLiteral(s, n, m)
    ensures Unsigned(s) == Finite(Scaled(Value(s[..n]) as real + Fraction(s[n + 1..m]), Exponent(s[m..])))
  {
    PlainPoint(s, n, m);
    assert s[0] == s[..n][0];
    NotInfinity(s);
    PlainEndIs(s, n, m);
  }

  lemma DigitsAlone(digits: string)
    requires AllDigits(digits)
    ensures digits[..DigitRun(digits)] == digits
  {
    DigitRunOf(digits, "");
    assert digits + "" == digits;
  }

  /** An exponent is a letter, maybe a sign, and digits. */
  lemma ExponentIs(s: string)
    requires |s| > 1 && (s[0] == 'e' || s[0] == 'E')
    ensures AllDigits(s[1..]) ==> Exponent(s) == Value(s[1..])
    ensures s[1] == '+' && AllDigits(s[2..]) ==> Exponent(s) == Value(s[2..])
    ensures s[1] == '-' && AllDigits(s[2..]) ==> Exponent(s) + Value(s[2..]) == 0
  {
    if AllDigits(s[1..]) {
      assert s[1] == s[1..][0];
      DigitsAlone(s[1..]);
    } else if AllDigits(s[2..]) {
      DigitsAlone(s[2..]);
    }
  }

  lemma SignIsRead(s: string)
    requires s != "" && IsDigit(s[0])
    ensures ParseFloat(s) == Unsigned(s) == ParseFloat("+" + s) && ParseFloat("-" + s) == Unsigned(s).Negated()
  {
    assert TrimStart(s) == s && TrimStart("-" + s) == "-" + s && TrimStart("+" + s) == "+" + s;
    assert ("-" + s)[1..] == s && ("+" + s)[1..] == s;
  }

  /** It says by which power of ten the number is multiplied or divided. */
  lemma ScaledExactly(x: real, k: nat)
    ensures Scaled(x, k) == x * PowTen(k) as real
    ensures Scaled(x, 0 - k) == x / PowTen(k) as real
  {
    if k == 0 {
      assert PowTen(0) == 1;
      assert x / 1.0 == x;
    }
  }

  /** `parseFloat` reads a decimal literal as it is written, with its sign; what follows it may be an exponent. */
  lemma LiteralIsRead(s: string, n: nat, m: nat)
    requires IsLiteral(s, n, m)
    ensures ParseFloat("-" + s).Negated() == ParseFloat("+" + s) == ParseFloat(s)
    ensures ParseFloat(s) == Finite(Scaled(Value(s[..n]) as real + Fraction(s[n + 1..m]), Exponent(s[m..])))
  {
    UnsignedIs(s, n, m);
    assert s[0] == s[..n][0];
    SignIsRead(s);
  }

  lemma InfinityIsRead(rest: string)
    ensures ParseFloat("Infinity" + rest) == Infinite(false) && ParseFloat("-" + ("Infinity" + rest)) == Infinite(true)
  {
    assert ("-" + ("Infinity" + rest))[1..] == "Infinity" + rest;
    assert "Infinity" <= "Infinity" + rest;
  }
}
