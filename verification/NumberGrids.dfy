/** The numbers that can be read of the texts of a number format, and whether one lies between two bounds. */
module NumberGrids {
  import opened Wrappers
  import opened Decimal
  import opened Texts
  import opened NumberTexts

  predicate IsInteger(x: real) {
    x.Floor as real == x
  }

  /**
   * Hundredths, when the point comes before the cents; whole numbers, when reading stops at the comma; and
   * whole numbers and thousandths below a thousand, when a group separator is taken for a decimal point.
   */
  predicate OnGrid(format: NumberFormat, x: real) {
    x >= 0.0 &&
    match format
    case CommaPoint => IsInteger(100.0 * x)
    case PointComma => IsInteger(x) || (x < 1000.0 && IsInteger(1000.0 * x))
    case LastComma => IsInteger(x)
  }

  lemma IntegerIs(x: real, k: int)
    requires x == k as real
    ensures IsInteger(x) && x.Floor == k
  {
  }

  // ----- what is read lies on the grid -----

  lemma {:induction false} ValueBound(digits: string)
    requires AllDigits(digits)
    ensures Value(digits) < PowTen(|digits|)
  {
    if digits != "" {
      ValueBound(digits[..|digits| - 1]);
    }
  }

  lemma ShortValue(digits: string)
    requires AllDigits(digits) && 1 <= |digits| <= 3
    ensures |digits| == 1 ==> Fraction(digits) == Value(digits) as real / 10.0
    ensures |digits| == 2 ==> Fraction(digits) == Value(digits) as real / 100.0
    ensures |digits| == 3 ==> Fraction(digits) == Value(digits) as real / 1000.0
    ensures Value(digits) < 1000
  {
    assert PowTen(1) == 10 && PowTen(2) == 100 && PowTen(3) == 1000;
    ValueBound(digits);
  }

  lemma HundredthsOfCents(whole: nat, more: string)
    requires AllDigits(more) && |more| <= 2
    ensures IsInteger(100.0 * (whole as real + Fraction(more)))
  {
    if more == "" {
      assert Fraction(more) == 0.0;
      IntegerIs(100.0 * whole as real, 100 * whole);
    } else {
      ShortValue(more);
      IntegerIs(100.0 * (whole as real + Fraction(more)),
                100 * whole + if |more| == 1 then 10 * Value(more) else Value(more));
    }
  }

  /** The first group has at most three digits, and exactly three follow its separator. */
  lemma {:induction false} GroupedStart(w: string, g: char) returns (a: nat)
    requires Grouped(w, g) && |w| > 3 && !IsDigit(g)
    ensures 1 <= a <= 3 && a + 4 <= |w| && AllDigits(w[..a]) && w[a] == g && AllDigits(w[a + 1..a + 4])
    ensures a + 4 == |w| || w[a + 4] == g
  {
    var init := w[..|w| - 4];
    if |init| <= 3 {
      a := |init|;
      assert w[a + 1..a + 4] == w[|w| - 3..];
    } else {
      a := GroupedStart(init, g);
      assert w[..a] == init[..a] && w[a + 1..a + 4] == init[a + 1..a + 4];
      assert init[a] == w[a] && (a + 4 < |init| ==> init[a + 4] == w[a + 4]);
    }
  }

  lemma Thousandths(whole: nat, more: nat)
    requires whole < 1000 && more < 1000
    ensures OnGrid(PointComma, whole as real + more as real / 1000.0)
  {
    var x := whole as real + more as real / 1000.0;
    assert x < whole as real + 1.0;
    IntegerIs(1000.0 * x, 1000 * whole + more);
  }

  lemma ThreeAfterPoint(s: string, a: nat)
    requires 1 <= a <= 3 && a + 4 <= |s| && AllDigits(s[..a]) && s[a] == '.' && AllDigits(s[a + 1..a + 4])
    requires a + 4 == |s| || !IsDigit(s[a + 4])
    ensures Plain(s).Finite? && OnGrid(PointComma, Plain(s).value)
  {
    PlainPoint(s, a, a + 4);
    ShortValue(s[..a]);
    ShortValue(s[a + 1..a + 4]);
    Thousandths(Value(s[..a]), Value(s[a + 1..a + 4]));
  }

  /** In the second format a grouped text is read as thousandths. */
  lemma GroupedIsReadAsThousandths(w: string, cents: string)
    requires Grouped(w, '.') && |w| > 3 && IsCents(cents, ',')
    ensures Plain(w + cents).Finite? && OnGrid(PointComma, Plain(w + cents).value)
  {
    var a := GroupedStart(w, '.');
    var s := w + cents;
    assert s[..a] == w[..a];
    assert s[a + 1..a + 4] == w[a + 1..a + 4];
    assert a + 4 < |s| ==> s[a + 4] == if a + 4 < |w| then w[a + 4] else cents[0];
    ThreeAfterPoint(s, a);
  }

  lemma GroupedOnGrid(format: NumberFormat, w: string, cents: string)
    requires IsWhole(format, w) && format.Group() in w && IsCents(cents, format.Point())
    requires format.PointComma? ==> Grouped(w, '.')
    ensures Plain(w + cents).Finite? && OnGrid(format, Plain(w + cents).value)
  {
    if format.PointComma? {
      GroupedIsReadAsThousandths(w, cents);
    } else {
      var a, m := FirstGroups(format, w);
      ReadsGrouped(format, w, cents, a, m);
      WholeIsOnGrid(format, Value(w[..a]));
    }
  }

  lemma UngroupedOnGrid(format: NumberFormat, w: string, cents: string)
    requires w != "" && AllDigits(w) && IsCents(cents, format.Point()) && (format.LastComma? ==> cents == "")
    ensures Plain(w + cents).Finite? && OnGrid(format, Plain(w + cents).value)
  {
    ReadsUngrouped(format, w, cents);
    if format.CommaPoint? {
      HundredthsOfCents(Value(w), CentDigits(cents));
    } else {
      assert CentDigits("") == "" && Fraction("") == 0.0;
      WholeIsOnGrid(format, Value(w));
    }
  }

  lemma OnlyDigits(format: NumberFormat, w: string)
    requires IsWhole(format, w) && format.Group() !in w
    ensures AllDigits(w)
  {
  }

  lemma SomeGroup(format: NumberFormat, s: string, n: nat)
    requires n <= |s| && FitsAt(format, s, n) && format.Group() in s[..n] && format.PointComma?
    ensures Grouped(s[..n], '.')
  {
  }

  lemma FittingOnGrid(format: NumberFormat, s: string, n: nat)
    requires n <= |s| && FitsAt(format, s, n)
    ensures Plain(s).Finite? && OnGrid(format, Plain(s).value)
  {
    var w, cents := s[..n], s[n..];
    FitsHasWhole(format, s, n);
    assert s == w + cents;
    if format.Group() in w {
      if format.PointComma? {
        SomeGroup(format, s, n);
      }
      GroupedOnGrid(format, w, cents);
    } else {
      OnlyDigits(format, w);
      if format.LastComma? {
        WithoutLastGroup(w, n == |s|);
      }
      UngroupedOnGrid(format, w, cents);
    }
  }

  /** What is read of a text that fits lies on the format's grid. */
  lemma ReadIsOnGrid(format: NumberFormat, s: string)
    requires Fits(format, s)
    ensures ParseFloat(s).Finite? && OnGrid(format, ParseFloat(s).value)
  {
    ReadsWhatItDenotes(format, s);
    ParseOfUntrimmed(s);
    var n :| 0 <= n <= |s| && FitsAt(format, s, n);
    FittingOnGrid(format, s, n);
  }

  lemma WithoutLastGroup(w: string, whole: bool)
    requires HasLastGroup(w, whole) && ',' !in w
    ensures whole && AllDigits(w)
  {
    var n :| 0 < n <= |w| && AllDigits(w[..n]) &&
             ((n == |w| && whole) || (n + 2 <= |w| <= n + 4 && w[n] == ',' && AllDigits(w[n + 1..])));
    assert w[..|w|] == w;
  }

  lemma WholeIsOnGrid(format: NumberFormat, whole: nat)
    ensures OnGrid(format, whole as real)
  {
    IntegerIs(whole as real, whole);
    IntegerIs(100.0 * whole as real, 100 * whole);
  }

  // ----- every number on the grid is read of some text -----

  function TwoDigits(n: nat): (s: string)
    requires n < 100
    ensures |s| == 2 && AllDigits(s)
  {
    [DigitChar(n / 10), DigitChar(n % 10)]
  }

  function ThreeDigits(n: nat): (s: string)
    requires n < 1000
    ensures |s| == 3 && AllDigits(s)
  {
    [DigitChar(n / 100)] + TwoDigits(n % 100)
  }

  lemma OneDigitValue(d: nat)
    requires d < 10
    ensures Value([DigitChar(d)]) == d
  {
    assert [DigitChar(d)][..0] == "";
  }

  lemma TwoDigitsValue(n: nat)
    requires n < 100
    ensures Value(TwoDigits(n)) == n && Fraction(TwoDigits(n)) == n as real / 100.0
  {
    var s := TwoDigits(n);
    ShortValue(s);
    assert s[..1][..0] == "";
    assert Value(s[..1]) == n / 10;
  }

  lemma ThreeDigitsValue(n: nat)
    requires n < 1000
    ensures Value(ThreeDigits(n)) == n && Fraction(ThreeDigits(n)) == n as real / 1000.0
  {
    var s := ThreeDigits(n);
    ShortValue(s);
    TwoDigitsValue(n % 100);
    OneDigitValue(n / 100);
    ValueConcat([DigitChar(n / 100)], TwoDigits(n % 100));
    assert PowTen(2) == 100;
  }

  lemma {:induction false} RenderLength(n: nat)
    requires n < 1000
    ensures |Render(n)| <= 3
  {
    if n >= 10 {
      assert |Render(n / 10)| <= 2 by {
        if n >= 100 {
          assert Render(n / 100) == [DigitChar(n / 100)];
          assert n / 10 / 10 == n / 100;
        }
      }
    }
  }

  /** A whole number is read of its numeral, which fits all formats. */
  lemma WholeIsRead(format: NumberFormat, n: nat)
    ensures Fits(format, Render(n)) && ParseFloat(Render(n)) == Finite(n as real)
  {
    var s := Render(n);
    ValueOfRender(n);
    assert s[..|s|] == s && s[|s|..] == "";
    assert FitsAt(format, s, |s|);
    ParseOfUntrimmed(s);
    PlainOfDigits(s);
  }

  lemma PointIsRead(whole: nat, more: string)
    requires AllDigits(more)
    ensures var s := Render(whole) + ("." + more); ParseFloat(s) == Finite(whole as real + Fraction(more))
  {
    ValueOfRender(whole);
    ParseOfUntrimmed(Render(whole) + ("." + more));
    PlainOfParts(Render(whole), more);
  }

  lemma HundredthsAreRead(k: nat) returns (s: string)
    ensures Fits(CommaPoint, s) && ParseFloat(s) == Finite(k as real / 100.0)
  {
    var more := TwoDigits(k % 100);
    s := Render(k / 100) + ("." + more);
    var n := |Render(k / 100)|;
    ValueOfRender(k / 100);
    TwoDigitsValue(k % 100);
    PointIsRead(k / 100, more);
    assert s[..n] == Render(k / 100) && s[n..] == "." + more;
    assert FitsAt(CommaPoint, s, n);
    assert k as real == 100.0 * (k / 100) as real + (k % 100) as real;
  }

  lemma ThousandthsAreRead(k: nat) returns (s: string)
    requires k < 1000000
    ensures Fits(PointComma, s) && ParseFloat(s) == Finite(k as real / 1000.0)
  {
    var first, more := Render(k / 1000), ThreeDigits(k % 1000);
    s := first + ("." + more);
    ValueOfRender(k / 1000);
    RenderLength(k / 1000);
    TwoGroupsFit(PointComma, first, more);
    ThreeDigitsValue(k % 1000);
    PointIsRead(k / 1000, more);
    assert k as real == 1000.0 * (k / 1000) as real + (k % 1000) as real;
  }

  /** Every number on the grid is read of some text that fits. */
  lemma GridIsRead(format: NumberFormat, x: real) returns (s: string)
    requires OnGrid(format, x)
    ensures Fits(format, s) && ParseFloat(s) == Finite(x)
  {
    if IsInteger(x) {
      s := Render(x.Floor);
      WholeIsRead(format, x.Floor);
    } else if format.CommaPoint? {
      s := HundredthsAreRead((100.0 * x).Floor);
    } else {
      s := ThousandthsAreRead((1000.0 * x).Floor);
    }
  }

  // ----- between two bounds -----

  /** The largest number on the grid that is not above `x`. */
  function GridFloor(format: NumberFormat, x: real): real {
    match format
    case CommaPoint => (100.0 * x).Floor as real / 100.0
    case PointComma => if x < 1000.0 then (1000.0 * x).Floor as real / 1000.0 else x.Floor as real
    case LastComma => x.Floor as real
  }

  lemma FloorIsGreatest(x: real, y: real)
    requires IsInteger(y) && y <= x
    ensures y <= x.Floor as real
  {
  }

  lemma GridFloorOnGrid(format: NumberFormat, x: real)
    requires x >= 0.0
    ensures OnGrid(format, GridFloor(format, x)) && GridFloor(format, x) <= x
  {
    match format
    case CommaPoint => IntegerIs(100.0 * GridFloor(format, x), (100.0 * x).Floor);
    case PointComma =>
      if x < 1000.0 {
        IntegerIs(1000.0 * GridFloor(format, x), (1000.0 * x).Floor);
      } else {
        IntegerIs(GridFloor(format, x), x.Floor);
      }
    case LastComma => IntegerIs(GridFloor(format, x), x.Floor);
  }

  lemma GridFloorIsGreatest(format: NumberFormat, x: real, y: real)
    requires OnGrid(format, y) && y <= x
    ensures y <= GridFloor(format, x)
  {
    match format
    case CommaPoint => FloorIsGreatest(100.0 * x, 100.0 * y);
    case PointComma =>
      if x < 1000.0 {
        if IsInteger(y) {
          IntegerIs(1000.0 * y, 1000 * y.Floor);
        }
        FloorIsGreatest(1000.0 * x, 1000.0 * y);
      } else if IsInteger(y) {
        FloorIsGreatest(x, y);
      } else {
        FloorIsGreatest(x, 1000.0);
      }
    case LastComma => FloorIsGreatest(x, y);
  }

  /** Some text of the format is read as a number from `low` on, and not above `high` if there is such a bound. */
  ghost predicate SomeTextBetween(format: NumberFormat, low: real, high: Option<real>) {
    exists s :: Fits(format, s) && IsBetween(ParseFloat(s), low, high)
  }

  predicate IsBetween(number: Parsed, low: real, high: Option<real>) {
    number.Finite? && number.value >= low && (high.Some? ==> number.value <= high.value)
  }

  /** There is such a text exactly when the largest readable number below the upper bound reaches the lower one. */
  lemma TextBetweenExactly(format: NumberFormat, low: real, high: Option<real>)
    requires high.Some? ==> high.value >= 0.0
    ensures SomeTextBetween(format, low, high) <==> (high.Some? ==> GridFloor(format, high.value) >= low)
  {
    if high.None? {
      var n: nat := if low <= 0.0 then 0 else low.Floor + 1;
      WholeIsRead(format, n);
      assert IsBetween(ParseFloat(Render(n)), low, high);
    } else {
      if GridFloor(format, high.value) >= low {
        GridFloorOnGrid(format, high.value);
        var s := GridIsRead(format, GridFloor(format, high.value));
        assert IsBetween(ParseFloat(s), low, high);
      }
      if s :| Fits(format, s) && IsBetween(ParseFloat(s), low, high) {
        ReadIsOnGrid(format, s);
        GridFloorIsGreatest(format, high.value, ParseFloat(s).value);
      }
    }
  }
}
