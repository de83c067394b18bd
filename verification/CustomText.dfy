/** The stored text of radio and checkbox fields: numerals, and JSON arrays of numerals. */
module CustomText {
  import opened Wrappers
  import opened Decimal
  import opened Texts

  // ----- printing -----

  /** The items of a non-empty array, and the bracket that closes it. */
  function Items(values: seq<nat>): string
    requires values != []
  {
    if |values| == 1 then Render(values[0]) + "]" else Render(values[0]) + ("," + Items(values[1..]))
  }

  function ToCheckboxText(values: seq<nat>): string {
    if values == [] then "[]" else "[" + Items(values)
  }

  function ToRadioText(value: nat): string {
    Render(value)
  }

  // ----- parsing -----

  /** Insignificant whitespace, section 2 of RFC 8259. */
  predicate IsJsonSpace(c: char) {
    c == ' ' || c == '\t' || c == '\n' || c == '\r'
  }

  function SkipSpace(s: string): (r: string)
    ensures |r| <= |s|
  {
    if s != "" && IsJsonSpace(s[0]) then SkipSpace(s[1..]) else s
  }

  /** The items of an array up to the end of the text, from the first character of an item on. */
  function ParseItems(s: string): Option<seq<nat>>
    decreases |s|
  {
    var n := DigitRun(s);
    if !Canonical(s[..n]) then None
    else
      var rest := SkipSpace(s[n..]);
      if rest == "" then None
      else if rest[0] == ']' then (if SkipSpace(rest[1..]) == "" then Some([Value(s[..n])]) else None)
      else if rest[0] == ',' then
        match ParseItems(SkipSpace(rest[1..]))
        case Some(values) => Some([Value(s[..n])] + values)
        case None => None
      else None
  }

  /**
   * JSON arrays, section 5 of RFC 8259, of numbers without sign, fraction and exponent, section 6. Other texts
   * give no result here.
   */
  function ParseArray(s: string): Option<seq<nat>> {
    var start := SkipSpace(s);
    if start == "" || start[0] != '[' then None
    else
      var first := SkipSpace(start[1..]);
      if first != "" && first[0] == ']' then (if SkipSpace(first[1..]) == "" then Some([]) else None)
      else ParseItems(first)
  }

  function ParseCheckboxText(text: string): Option<seq<nat>> {
    if text == "" then Some([]) else ParseArray(text)
  }

  /** `Number` on texts that are digits or blank; other texts give no result here. */
  function ParseRadioText(text: string): Option<nat> {
    var t := Trim(text);
    if t == "" then Some(0) else if AllDigits(t) then Some(Value(t)) else None
  }

  // ----- round trips -----

  /** A numeral is read back when something other than a digit follows it. */
  lemma ReadNumeral(n: nat, rest: string)
    requires rest == "" || !IsDigit(rest[0])
    ensures var s, k := Render(n) + rest, |Render(n)|;
            DigitRun(s) == k && Canonical(s[..k]) && Value(s[..k]) == n && s[k..] == rest
  {
    ValueOfRender(n);
    DigitRunOf(Render(n), rest);
    assert (Render(n) + rest)[..|Render(n)|] == Render(n);
  }

  lemma LastItem(n: nat)
    ensures ParseItems(Render(n) + "]") == Some([n])
  {
    ReadNumeral(n, "]");
    assert SkipSpace("]") == "]" && "]"[1..] == "" && SkipSpace("") == "";
  }

  lemma NextItem(n: nat, tail: string)
    requires tail != "" && !IsJsonSpace(tail[0]) && ParseItems(tail).Some?
    ensures ParseItems(Render(n) + ("," + tail)) == Some([n] + ParseItems(tail).value)
  {
    var rest := "," + tail;
    ReadNumeral(n, rest);
    assert SkipSpace(rest) == rest && rest[1..] == tail && SkipSpace(tail) == tail;
  }

  lemma ItemsStartWithDigit(values: seq<nat>)
    requires values != []
    ensures Items(values) != "" && IsDigit(Items(values)[0])
  {
    ValueOfRender(values[0]);
  }

  lemma {:induction false} ItemsParseBack(values: seq<nat>)
    requires values != []
    ensures ParseItems(Items(values)) == Some(values)
    decreases |values|
  {
    if |values| == 1 {
      LastItem(values[0]);
      assert [values[0]] == values;
    } else {
      var n, rest := values[0], values[1..];
      assert ParseItems(Render(n) + ("," + Items(rest))) == Some([n] + rest) by {
        ItemsParseBack(rest);
        ItemsStartWithDigit(rest);
        NextItem(n, Items(rest));
      }
      assert [n] + rest == values;
    }
  }

  /** What is stored for a checkbox field parses back to exactly the selection. */
  lemma CheckboxTextRoundTrips(values: seq<nat>)
    ensures ParseCheckboxText(ToCheckboxText(values)) == Some(values)
    ensures ToCheckboxText(values) != ""
  {
    var text := ToCheckboxText(values);
    assert SkipSpace(text) == text;
    if values == [] {
      assert text[1..] == "]" && SkipSpace("]") == "]" && "]"[1..] == "" && SkipSpace("") == "";
    } else {
      ItemsParseBack(values);
      ItemsStartWithDigit(values);
      var items := Items(values);
      assert text[1..] == items && SkipSpace(items) == items;
    }
  }

  lemma RadioTextRoundTrips(value: nat)
    ensures ParseRadioText(ToRadioText(value)) == Some(value)
    ensures ToRadioText(value) != ""
  {
    ValueOfRender(value);
    var text := Render(value);
    assert TrimStart(text) == text;
    assert TrimEnd(text) == text;
  }

  function Numerals(values: seq<nat>): seq<string> {
    seq(|values|, i requires 0 <= i < |values| => Render(values[i]))
  }

  lemma {:induction false} ItemsAreJoined(values: seq<nat>)
    requires values != []
    ensures Items(values) == Join(Numerals(values), ",") + "]"
    decreases |values|
  {
    if |values| > 1 {
      ItemsAreJoined(values[1..]);
      var n, rest := Render(values[0]), Join(Numerals(values[1..]), ",");
      assert Numerals(values)[1..] == Numerals(values[1..]);
      assert n + ("," + (rest + "]")) == n + "," + rest + "]";
    }
  }

  /** The stored text is the numerals between brackets, with commas between them. */
  lemma CheckboxTextIs(values: seq<nat>)
    ensures ToCheckboxText(values) == "[" + (Join(Numerals(values), ",") + "]")
  {
    if values != [] {
      ItemsAreJoined(values);
    } else {
      assert "" + "]" == "]" && "[" + "]" == "[]";
    }
  }

  /** Insignificant whitespace, and only that, may stand in front of an array. */
  lemma SpaceBeforeArray(c: char, values: seq<nat>)
    ensures c in {' ', '\t', '\n', '\r'} ==> ParseCheckboxText([c] + ToCheckboxText(values)) == Some(values)
    ensures c !in {' ', '\t', '\n', '\r', '['} ==> ParseCheckboxText([c] + ToCheckboxText(values)) == None
  {
    var text := ToCheckboxText(values);
    CheckboxTextRoundTrips(values);
    assert ([c] + text)[1..] == text && ([c] + text)[0] == c;
    assert SkipSpace(text) == text;
    assert SkipSpace([c] + text) == if IsJsonSpace(c) then SkipSpace(text) else [c] + text;
  }

  /** The empty text of a field without a selection reads as the first option: only the inserted flag tells. */
  lemma EmptyRadioTextReadsAsFirstOption(text: string)
    requires Trim(text) == ""
    ensures ParseRadioText(text) == ParseRadioText(ToRadioText(0))
  {
    RadioTextRoundTrips(0);
  }

  // ----- the parser accepts the printed form and whitespace around its tokens, and nothing else -----

  function WithoutSpace(s: string): string {
    if s == "" then "" else if IsJsonSpace(s[0]) then WithoutSpace(s[1..]) else [s[0]] + WithoutSpace(s[1..])
  }

  lemma {:induction false} SkippedSpace(s: string)
    ensures WithoutSpace(SkipSpace(s)) == WithoutSpace(s)
  {
    if s != "" && IsJsonSpace(s[0]) {
      SkippedSpace(s[1..]);
    }
  }

  lemma {:induction false} DigitsStay(digits: string, rest: string)
    requires AllDigits(digits)
    ensures WithoutSpace(digits + rest) == digits + WithoutSpace(rest)
  {
    if digits == "" {
      assert digits + rest == rest;
    } else {
      DigitsStay(digits[1..], rest);
      assert (digits + rest)[1..] == digits[1..] + rest;
      assert digits == [digits[0]] + digits[1..];
    }
  }

  lemma {:induction false} ParsedItems(s: string)
    requires ParseItems(s).Some?
    ensures ParseItems(s).value != []
    ensures WithoutSpace(s) == Items(ParseItems(s).value)
    decreases |s|
  {
    var n := DigitRun(s);
    var digits := s[..n];
    var rest := SkipSpace(s[n..]);
    RenderOfValue(digits);
    assert s == digits + s[n..];
    DigitsStay(digits, s[n..]);
    SkippedSpace(s[n..]);
    SkippedSpace(rest[1..]);
    if rest[0] == ']' {
      ClosingBracket(rest);
    } else {
      var next := SkipSpace(rest[1..]);
      ParsedItems(next);
      var values := ParseItems(next).value;
      var all := [Value(digits)] + values;
      assert all[1..] == values && |all| > 1;
      assert WithoutSpace(rest) == "," + Items(values);
    }
  }

  lemma ClosingBracket(rest: string)
    requires rest != "" && rest[0] == ']' && SkipSpace(rest[1..]) == ""
    ensures WithoutSpace(rest) == "]"
  {
    SkippedSpace(rest[1..]);
    assert WithoutSpace(rest[1..]) == WithoutSpace("") == "";
  }

  /** A text that parses is the printed form of its value, up to whitespace. */
  lemma ParsedTextReprints(text: string)
    requires text != "" && ParseCheckboxText(text).Some?
    ensures WithoutSpace(text) == ToCheckboxText(ParseCheckboxText(text).value)
  {
    var start := SkipSpace(text);
    var first := SkipSpace(start[1..]);
    SkippedSpace(text);
    SkippedSpace(start[1..]);
    assert WithoutSpace(start) == "[" + WithoutSpace(first);
    if first != "" && first[0] == ']' {
      ClosingBracket(first);
    } else {
      ParsedItems(first);
    }
  }
}
