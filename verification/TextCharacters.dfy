/**
 * Detection of invisible characters, written raw or as literal `\uXXXX` / `\u{X..}` escapes.
 * Text is a sequence of UTF-16 code units, because the escape pattern works on units and the character class on
 * code points.
 */
module TextCharacters {
  import opened Wrappers

  type CodeUnit = n: nat | n < 0x1_0000

  type Utf16 = seq<CodeUnit>

  const BACKSLASH: CodeUnit := 0x5C
  const OPEN_BRACE: CodeUnit := 0x7B
  const CLOSE_BRACE: CodeUnit := 0x7D
  const MAX_CODE_POINT: nat := 0x10FFFF

  predicate IsHigh(u: nat) {
    0xD800 <= u < 0xDC00
  }

  predicate IsLow(u: nat) {
    0xDC00 <= u < 0xE000
  }

  predicate IsSurrogate(u: nat) {
    IsHigh(u) || IsLow(u)
  }

  function Combine(high: nat, low: nat): nat
    requires IsHigh(high) && IsLow(low)
  {
    0x1_0000 + (high - 0xD800) * 0x400 + (low - 0xDC00)
  }

  /** The code points a `u`-flagged pattern sees: surrogate pairs are joined, lone surrogates stand alone. */
  function CodePoints(s: Utf16): seq<nat> {
    if s == [] then []
    else if |s| >= 2 && IsHigh(s[0]) && IsLow(s[1]) then [Combine(s[0], s[1])] + CodePoints(s[2..])
    else [s[0]] + CodePoints(s[1..])
  }

  // ----- the invalid characters -----

  /** The pattern's class; `other` is the Unicode category C, which the platform's tables supply. */
  predicate IsInvalid(other: nat -> bool, cp: nat) {
    other(cp) || cp in {0x2028, 0x2029, 0x115F, 0x1160, 0x2800, 0x3164, 0xFFA0, 0x034F}
  }

  /** What every version of Unicode says of category C: it holds the surrogates and no printable ASCII. */
  ghost predicate IsCategoryOther(other: nat -> bool) {
    && (forall cp :: IsSurrogate(cp) ==> other(cp))
    && (forall cp :: 0x20 <= cp < 0x7F ==> !other(cp))
  }

  predicate AnyInvalid(other: nat -> bool, cps: seq<nat>) {
    exists i :: 0 <= i < |cps| && IsInvalid(other, cps[i])
  }

  predicate HasInvalidCharacter(other: nat -> bool, s: Utf16) {
    AnyInvalid(other, CodePoints(s))
  }

  // ----- escapes -----

  predicate IsHexDigit(u: nat) {
    0x30 <= u <= 0x39 || 0x41 <= u <= 0x46 || 0x61 <= u <= 0x66
  }

  function HexDigit(u: nat): (d: nat)
    requires IsHexDigit(u)
    ensures d < 16
  {
    if u <= 0x39 then u - 0x30 else if u <= 0x46 then u - 0x41 + 10 else u - 0x61 + 10
  }

  predicate AllHex(s: Utf16) {
    forall i :: 0 <= i < |s| ==> IsHexDigit(s[i])
  }

  function HexValue(s: Utf16): nat
    requires AllHex(s)
  {
    if s == [] then 0 else 16 * HexValue(s[..|s| - 1]) + HexDigit(s[|s| - 1])
  }

  /** The length of the longest run of hexadecimal digits from position `from` on. */
  function HexRun(s: Utf16, from: nat): (n: nat)
    requires from <= |s|
    ensures from + n <= |s| && AllHex(s[from..from + n])
    ensures from + n < |s| ==> !IsHexDigit(s[from + n])
    decreases |s| - from
  {
    if from == |s| || !IsHexDigit(s[from]) then 0
    else
      var n := 1 + HexRun(s, from + 1);
      assert s[from..from + n] == [s[from]] + s[from + 1..from + n];
      n
  }

  /** An escape sequence: the code point it names and the number of code units it takes. */
  datatype Escape = Escape(codePoint: nat, length: nat)

  /** The escape sequence the text starts with. */
  function EscapeAtStart(s: Utf16): (e: Option<Escape>)
    ensures e.Some? ==> 0 < e.value.length <= |s|
    ensures e.Some? ==> forall i :: 0 <= i < e.value.length ==> 0x20 <= s[i] < 0x7F && (s[i] == BACKSLASH <==> i == 0)
  {
    if |s| < 3 || s[0] != BACKSLASH || (s[1] != 0x75 && s[1] != 0x55) then None
    else if HexRun(s, 2) >= 4 then
      assert forall i :: 2 <= i < 6 ==> s[i] == s[2..2 + HexRun(s, 2)][i - 2];
      Some(Escape(HexValue(s[2..6]), 6))
    else if s[2] == OPEN_BRACE then
      var end := 3 + HexRun(s, 3);
      if 3 < end < |s| && s[end] == CLOSE_BRACE then
        assert forall i :: 3 <= i < end ==> s[i] == s[3..end][i - 3];
        Some(Escape(HexValue(s[3..end]), end + 1))
      else None
    else None
  }

  /** An escape of an invalid character starts at position `i`. */
  predicate BadEscapeAt(other: nat -> bool, s: Utf16, i: nat)
    requires i <= |s|
  {
    var e := EscapeAtStart(s[i..]);
    e.Some? && e.value.codePoint <= MAX_CODE_POINT && IsInvalid(other, e.value.codePoint)
  }

  predicate AnyBadEscape(other: nat -> bool, s: Utf16) {
    exists i :: 0 <= i <= |s| && BadEscapeAt(other, s, i)
  }

  lemma NoEscapeInside(s: Utf16, at: nat)
    requires at <= |s| && EscapeAtStart(s[at..]).Some?
    ensures forall i :: at < i < at + EscapeAtStart(s[at..]).value.length ==> EscapeAtStart(s[i..]).None?
  {
    forall i | at < i < at + EscapeAtStart(s[at..]).value.length
      ensures EscapeAtStart(s[i..]).None?
    {
      assert s[i..][0] == s[at..][i - at];
    }
  }

  /**
   * The scan goes on after each match, so it only visits the leftmost non-overlapping escapes; it nevertheless
   * misses no position at which an escape of an invalid character starts.
   */
  method HasInvalidEscapeSequence(other: nat -> bool, value: Utf16) returns (found: bool)
    ensures found == AnyBadEscape(other, value)
  {
    var at := 0;
    while at < |value|
      invariant 0 <= at <= |value|
      invariant forall i :: 0 <= i < at ==> !BadEscapeAt(other, value, i)
    {
      var e := EscapeAtStart(value[at..]);
      if e.None? {
        at := at + 1;
      } else {
        if e.value.codePoint <= MAX_CODE_POINT && IsInvalid(other, e.value.codePoint) {
          assert BadEscapeAt(other, value, at);
          return true;
        }
        NoEscapeInside(value, at);
        at := at + e.value.length;
      }
    }
    return false;
  }

  method HasInvalidTextCharacters(other: nat -> bool, value: Utf16) returns (invalid: bool)
    ensures invalid == IsInvalidText(other, value)
  {
    if HasInvalidCharacter(other, value) {
      return true;
    }
    invalid := HasInvalidEscapeSequence(other, value);
  }

  predicate IsInvalidText(other: nat -> bool, value: Utf16) {
    HasInvalidCharacter(other, value) || AnyBadEscape(other, value)
  }

  // ----- every code point can be spelled -----

  /** A hexadecimal digit, in either case. */
  function HexUnit(d: nat, upper: bool): CodeUnit
    requires d < 16
  {
    if d < 10 then 0x30 + d else if upper then 0x41 + d - 10 else 0x61 + d - 10
  }

  function HexRender(n: nat, upper: bool): Utf16 {
    if n < 16 then [HexUnit(n, upper)] else HexRender(n / 16, upper) + [HexUnit(n % 16, upper)]
  }

  lemma {:induction false} HexRenderReadsBack(n: nat, upper: bool)
    ensures HexRender(n, upper) != [] && AllHex(HexRender(n, upper)) && HexValue(HexRender(n, upper)) == n
  {
    if n < 16 {
      assert HexRender(n, upper)[..0] == [];
    } else {
      HexRenderReadsBack(n / 16, upper);
      assert HexRender(n, upper)[..|HexRender(n, upper)| - 1] == HexRender(n / 16, upper);
    }
  }

  /** Digits that something else follows are taken up to there. */
  lemma {:induction false} HexRunStopsAt(s: Utf16, from: nat, end: nat)
    requires from <= end < |s| && !IsHexDigit(s[end])
    requires forall i :: from <= i < end ==> IsHexDigit(s[i])
    ensures HexRun(s, from) == end - from
    decreases end - from
  {
    if from < end {
      HexRunStopsAt(s, from + 1, end);
    }
  }

  lemma {:induction false} HexRunAtLeast(s: Utf16, from: nat, n: nat)
    requires from + n <= |s| && AllHex(s[from..from + n])
    ensures HexRun(s, from) >= n
    decreases n
  {
    if n > 0 {
      assert s[from] == s[from..from + n][0];
      assert s[from + 1..from + n] == s[from..from + n][1..];
      HexRunAtLeast(s, from + 1, n - 1);
    }
  }

  /** A braced escape reads as the number its digits denote. */
  lemma BracedDigitsAreRead(s: Utf16, end: nat)
    requires 3 < end < |s| && AllHex(s[3..end]) && s[end] == CLOSE_BRACE
    requires s[0] == BACKSLASH && (s[1] == 0x75 || s[1] == 0x55) && s[2] == OPEN_BRACE
    ensures EscapeAtStart(s) == Some(Escape(HexValue(s[3..end]), end + 1))
  {
    assert HexRun(s, 2) == 0;
    assert HexRun(s, 3) == end - 3 by {
      assert forall i :: 3 <= i < end ==> s[i] == s[3..end][i - 3];
      HexRunStopsAt(s, 3, end);
    }
  }

  lemma BracesAround(u: CodeUnit, hex: Utf16, rest: Utf16)
    ensures var s := [BACKSLASH, u, OPEN_BRACE] + hex + [CLOSE_BRACE] + rest;
            && |s| > |hex| + 3 && s[0] == BACKSLASH && s[1] == u && s[2] == OPEN_BRACE
            && s[3..3 + |hex|] == hex && s[3 + |hex|] == CLOSE_BRACE
  {
  }

  /** The braced escape of a number, in either case of the letters, is recognised and names that number. */
  lemma BracedEscapeIsRead(n: nat, upperU: bool, upperDigits: bool, rest: Utf16)
    ensures var hex := HexRender(n, upperDigits);
            EscapeAtStart([BACKSLASH, if upperU then 0x55 else 0x75, OPEN_BRACE] + hex + [CLOSE_BRACE] + rest) ==
            Some(Escape(n, |hex| + 4))
  {
    HexRenderReadsBack(n, upperDigits);
    var hex := HexRender(n, upperDigits);
    var s := [BACKSLASH, if upperU then 0x55 else 0x75, OPEN_BRACE] + hex + [CLOSE_BRACE] + rest;
    BracesAround(if upperU then 0x55 else 0x75, hex, rest);
    BracedDigitsAreRead(s, 3 + |hex|);
  }

  /** The texts that `\\u(?:([0-9a-f]{4})|\{([0-9a-f]+)\})` denotes, with their hexadecimal digits. */
  ghost predicate IsEscape(t: Utf16, hex: Utf16) {
    && AllHex(hex) && |t| >= 2 && t[0] == BACKSLASH && (t[1] == 0x75 || t[1] == 0x55)
    && ((|hex| == 4 && t[2..] == hex) || (hex != [] && t[2..] == [OPEN_BRACE] + hex + [CLOSE_BRACE]))
  }

  /** When some prefix of the text is an escape, the scanner finds that one: there is never a choice. */
  lemma EscapeIsExact(s: Utf16, n: nat, hex: Utf16)
    requires n <= |s| && IsEscape(s[..n], hex)
    ensures EscapeAtStart(s) == Some(Escape(HexValue(hex), n))
  {
    var t := s[..n];
    if |hex| == 4 && t[2..] == hex {
      assert s[2..6] == hex;
      HexRunAtLeast(s, 2, 4);
    } else {
      assert |t[2..]| == |hex| + 2 && n == |hex| + 4;
      assert s[2] == t[2..][0] && s[n - 1] == t[2..][n - 3];
      assert s[3..n - 1] == hex by {
        forall i | 0 <= i < |hex|
          ensures s[3 + i] == hex[i]
        {
          assert s[3 + i] == t[2..][1 + i];
        }
      }
      BracedDigitsAreRead(s, n - 1);
    }
  }

  /** What the scanner finds is an escape. */
  lemma EscapeIsFound(s: Utf16)
    requires EscapeAtStart(s).Some?
    ensures var e := EscapeAtStart(s).value;
            exists hex :: IsEscape(s[..e.length], hex) && e.codePoint == HexValue(hex)
  {
    var n := EscapeAtStart(s).value.length;
    var t := s[..n];
    if HexRun(s, 2) >= 4 {
      assert s[2..6] == s[2..2 + HexRun(s, 2)][..4];
      assert t[2..] == s[2..6];
      assert IsEscape(t, s[2..6]);
    } else {
      assert t[2..] == [OPEN_BRACE] + s[3..n - 1] + [CLOSE_BRACE];
      assert IsEscape(t, s[3..n - 1]);
    }
  }

  // ----- what the check means for the decoded text -----

  /** The text with every escape of a code point decoded once, as code points. */
  function Decode(s: Utf16): (cps: seq<nat>)
    ensures forall i :: 0 <= i < |cps| ==> cps[i] <= MAX_CODE_POINT
    decreases |s|
  {
    if s == [] then []
    else
      var e := EscapeAtStart(s);
      if e.Some? && e.value.codePoint <= MAX_CODE_POINT then [e.value.codePoint] + Decode(s[e.value.length..])
      else if |s| >= 2 && IsHigh(s[0]) && IsLow(s[1]) then [Combine(s[0], s[1])] + Decode(s[2..])
      else [s[0]] + Decode(s[1..])
  }

  lemma AnyInvalidCons(other: nat -> bool, first: nat, rest: seq<nat>)
    ensures AnyInvalid(other, [first] + rest) <==> IsInvalid(other, first) || AnyInvalid(other, rest)
  {
    var all := [first] + rest;
    assert all[0] == first;
    assert forall i :: 0 <= i < |rest| ==> all[i + 1] == rest[i];
    assert forall i :: 0 < i < |all| ==> all[i] == rest[i - 1];
  }

  /** Printable ASCII at the start contributes no invalid character and no half of a surrogate pair. */
  lemma {:induction false} PrintablePrefix(other: nat -> bool, s: Utf16, n: nat)
    requires IsCategoryOther(other) && n <= |s|
    requires forall i :: 0 <= i < n ==> 0x20 <= s[i] < 0x7F
    ensures HasInvalidCharacter(other, s) <==> HasInvalidCharacter(other, s[n..])
  {
    if n > 0 {
      PrintablePrefix(other, s[1..], n - 1);
      assert s[1..][n - 1..] == s[n..];
      AnyInvalidCons(other, s[0], CodePoints(s[1..]));
    }
  }

  /** No escape starts inside the first `n` units except at the very start. */
  lemma BadEscapesAfter(other: nat -> bool, s: Utf16, n: nat)
    requires 0 < n <= |s| && forall i :: 0 < i < n ==> s[i] != BACKSLASH
    ensures AnyBadEscape(other, s) <==> BadEscapeAt(other, s, 0) || AnyBadEscape(other, s[n..])
  {
    if i :| 0 <= i <= |s| && BadEscapeAt(other, s, i) {
      if 0 < i {
        assert s[i..][0] == s[i];
        assert s[n..][i - n..] == s[i..];
        assert BadEscapeAt(other, s[n..], i - n);
      }
    }
    if i :| 0 <= i <= |s[n..]| && BadEscapeAt(other, s[n..], i) {
      assert s[n..][i..] == s[n + i..];
      assert BadEscapeAt(other, s, n + i);
    }
  }

  /** A text is rejected exactly when its decoding holds an invalid code point. */
  lemma {:induction false} RejectedExactlyWhenDecodingInvalid(other: nat -> bool, s: Utf16)
    requires IsCategoryOther(other)
    ensures IsInvalidText(other, s) <==> AnyInvalid(other, Decode(s))
    decreases |s|
  {
    if s == [] {
      assert EscapeAtStart(s[0..]).None?;
    } else {
      assert s[0..] == s;
      var e := EscapeAtStart(s);
      if e.Some? && e.value.codePoint <= MAX_CODE_POINT {
        var rest := s[e.value.length..];
        RejectedExactlyWhenDecodingInvalid(other, rest);
        PrintablePrefix(other, s, e.value.length);
        BadEscapesAfter(other, s, e.value.length);
        AnyInvalidCons(other, e.value.codePoint, Decode(rest));
      } else {
        var n := if |s| >= 2 && IsHigh(s[0]) && IsLow(s[1]) then 2 else 1;
        var head := if n == 2 then Combine(s[0], s[1]) else s[0];
        RejectedExactlyWhenDecodingInvalid(other, s[n..]);
        BadEscapesAfter(other, s, n);
        AnyInvalidCons(other, head, CodePoints(s[n..]));
        AnyInvalidCons(other, head, Decode(s[n..]));
      }
    }
  }

  // ----- the check in plain terms -----

  function UnitsOf(s: string): seq<nat> {
    seq(|s|, i requires 0 <= i < |s| => s[i] as int)
  }

  lemma HexDigitsExactly(u: nat, d: nat)
    ensures IsHexDigit(u) <==> u in UnitsOf("0123456789abcdefABCDEF")
    ensures d < 16 ==> IsHexDigit(UnitsOf("0123456789abcdef")[d]) && HexDigit(UnitsOf("0123456789abcdef")[d]) == d
    ensures d < 16 ==> IsHexDigit(UnitsOf("0123456789ABCDEF")[d]) && HexDigit(UnitsOf("0123456789ABCDEF")[d]) == d
  {
    var units := UnitsOf("0123456789abcdefABCDEF");
    if IsHexDigit(u) {
      var i := if u <= 0x39 then u - 0x30 else if u <= 0x46 then u - 0x41 + 16 else u - 0x61 + 10;
      assert units[i] == u;
    }
  }

  /** Category C, the line and paragraph separators, the fillers and blanks, and the combining grapheme joiner. */
  ghost predicate IsUnseen(other: nat -> bool, cp: nat) {
    || other(cp)
    || cp == 0x2028 || cp == 0x2029
    || cp == 0x115F || cp == 0x1160 || cp == 0x2800 || cp == 0x3164 || cp == 0xFFA0
    || cp == 0x034F
  }

  lemma {:induction false} SingleIsRead(a: Utf16, u: CodeUnit, b: Utf16)
    requires !IsSurrogate(u)
    ensures u in CodePoints(a + [u] + b)
    decreases |a|
  {
    var s := a + [u] + b;
    if a == [] {
      assert s[0] == u;
      assert CodePoints(s)[0] == u;
    } else {
      var n := if |s| >= 2 && IsHigh(s[0]) && IsLow(s[1]) then 2 else 1;
      assert s[1] == if |a| > 1 then a[1] else u;
      assert s[n..] == a[n..] + [u] + b;
      SingleIsRead(a[n..], u, b);
    }
  }

  /** A text that holds such a character, wherever it is, is refused. */
  lemma UnseenIsRefused(other: nat -> bool, a: Utf16, u: CodeUnit, b: Utf16)
    requires !IsSurrogate(u) && IsUnseen(other, u)
    ensures IsInvalidText(other, a + [u] + b)
  {
    SingleIsRead(a, u, b);
    var cps := CodePoints(a + [u] + b);
    var i :| 0 <= i < |cps| && cps[i] == u;
    assert IsInvalid(other, cps[i]);
  }

  /** The braced escape of a number. */
  function Braced(n: nat, upperU: bool, upperDigits: bool): Utf16 {
    [BACKSLASH, if upperU then 0x55 else 0x75, OPEN_BRACE] + HexRender(n, upperDigits) + [CLOSE_BRACE]
  }

  /** So is a text that holds its escape, in either case of letters. */
  lemma EscapedUnseenIsRefused(other: nat -> bool, a: Utf16, n: nat, upperU: bool, upperDigits: bool, b: Utf16)
    requires n <= 0x10FFFF && IsUnseen(other, n)
    ensures IsInvalidText(other, a + (Braced(n, upperU, upperDigits) + b))
  {
    var s := a + (Braced(n, upperU, upperDigits) + b);
    BracedEscapeIsRead(n, upperU, upperDigits, b);
    assert s[|a|..] == Braced(n, upperU, upperDigits) + b;
    assert BadEscapeAt(other, s, |a|);
  }

  /** A text without backslashes is accepted when none of its code points is such a character. */
  lemma SeenIsAccepted(other: nat -> bool, s: Utf16)
    requires BACKSLASH !in s && forall i :: 0 <= i < |CodePoints(s)| ==> !IsUnseen(other, CodePoints(s)[i])
    ensures !IsInvalidText(other, s)
  {
    forall i | 0 <= i <= |s|
      ensures !BadEscapeAt(other, s, i)
    {
      assert i < |s| ==> s[i..][0] == s[i];
    }
  }

  /** Escapes of numbers that are no code points are let through. */
  lemma EscapeBeyondIsAccepted(other: nat -> bool, n: nat, upperU: bool, upperDigits: bool)
    requires IsCategoryOther(other) && n > 0x10FFFF
    ensures !IsInvalidText(other, Braced(n, upperU, upperDigits))
  {
    var s := Braced(n, upperU, upperDigits);
    BracedEscapeIsRead(n, upperU, upperDigits, []);
    assert s + [] == s && s[0..] == s;
    PrintablePrefix(other, s, |s|);
    assert s[|s|..] == [];
    BadEscapesAfter(other, s, |s|);
    assert EscapeAtStart([]).None?;
    assert !BadEscapeAt(other, s[|s|..], 0);
  }

  // ----- decoding to UTF-16 can join two surrogates that were checked apart -----

  function EncodeOne(cp: nat): Utf16
    requires cp <= MAX_CODE_POINT
  {
    if cp < 0x1_0000 then [cp] else [0xD800 + (cp - 0x1_0000) / 0x400, 0xDC00 + (cp - 0x1_0000) % 0x400]
  }

  function Encode(cps: seq<nat>): Utf16
    requires forall i :: 0 <= i < |cps| ==> cps[i] <= MAX_CODE_POINT
  {
    if cps == [] then [] else EncodeOne(cps[0]) + Encode(cps[1..])
  }

  /** The code points of the decoded text when it is read as UTF-16 again. */
  function Rejoined(cps: seq<nat>): seq<nat> {
    if cps == [] then []
    else if |cps| >= 2 && IsHigh(cps[0]) && IsLow(cps[1]) then [Combine(cps[0], cps[1])] + Rejoined(cps[2..])
    else [cps[0]] + Rejoined(cps[1..])
  }

  lemma ReadPair(high: CodeUnit, low: CodeUnit, rest: Utf16)
    requires IsHigh(high) && IsLow(low)
    ensures CodePoints([high] + ([low] + rest)) == [Combine(high, low)] + CodePoints(rest)
  {
    assert ([high] + ([low] + rest))[2..] == rest;
  }

  lemma ReadSingle(u: CodeUnit, rest: Utf16)
    requires !(IsHigh(u) && rest != [] && IsLow(rest[0]))
    ensures CodePoints([u] + rest) == [u] + CodePoints(rest)
  {
    assert ([u] + rest)[1..] == rest;
  }

  /** A low surrogate comes first in the encoding only when it comes first among the code points. */
  lemma EncodedStart(cps: seq<nat>)
    requires cps != [] && forall i :: 0 <= i < |cps| ==> cps[i] <= MAX_CODE_POINT
    ensures Encode(cps) != [] && (IsLow(Encode(cps)[0]) <==> IsLow(cps[0]))
  {
  }

  /** The two units of a code point outside the basic plane are a surrogate pair that combines to it. */
  lemma EncodedUnitsCombine(cp: nat)
    requires 0x1_0000 <= cp <= MAX_CODE_POINT
    ensures var u := EncodeOne(cp); |u| == 2 && IsHigh(u[0]) && IsLow(u[1]) && Combine(u[0], u[1]) == cp
  {
    var d := cp - 0x1_0000;
    assert d == d / 0x400 * 0x400 + d % 0x400;
  }

  lemma ReadEncodedPair(u: Utf16, rest: Utf16)
    requires |u| == 2 && IsHigh(u[0]) && IsLow(u[1])
    ensures CodePoints(u + rest) == [Combine(u[0], u[1])] + CodePoints(rest)
  {
    assert u + rest == [u[0]] + ([u[1]] + rest);
    ReadPair(u[0], u[1], rest);
  }

  /** A code point that does not join with what follows is read back by itself. */
  lemma EncodedAlone(cp: nat, rest: Utf16)
    requires cp <= MAX_CODE_POINT && !(IsHigh(cp) && rest != [] && IsLow(rest[0]))
    ensures CodePoints(EncodeOne(cp) + rest) == [cp] + CodePoints(rest)
  {
    if cp < 0x1_0000 {
      ReadSingle(cp, rest);
    } else {
      EncodedUnitsCombine(cp);
      ReadEncodedPair(EncodeOne(cp), rest);
    }
  }

  lemma EncodedBasic(cps: seq<nat>)
    requires cps != [] && cps[0] < 0x1_0000 && forall i :: 0 <= i < |cps| ==> cps[i] <= MAX_CODE_POINT
    ensures Encode(cps) == [cps[0]] + Encode(cps[1..])
  {
  }

  lemma {:induction false} EncodedReadsRejoined(cps: seq<nat>)
    requires forall i :: 0 <= i < |cps| ==> cps[i] <= MAX_CODE_POINT
    ensures CodePoints(Encode(cps)) == Rejoined(cps)
    decreases |cps|
  {
    if cps == [] {
    } else if |cps| >= 2 && IsHigh(cps[0]) && IsLow(cps[1]) {
      EncodedReadsRejoined(cps[2..]);
      EncodedBasic(cps);
      EncodedBasic(cps[1..]);
      assert cps[1..][1..] == cps[2..];
      ReadPair(cps[0], cps[1], Encode(cps[2..]));
    } else {
      EncodedReadsRejoined(cps[1..]);
      if |cps| > 1 {
        EncodedStart(cps[1..]);
      }
      EncodedAlone(cps[0], Encode(cps[1..]));
    }
  }

  predicate HasSplitPair(cps: seq<nat>) {
    exists i :: 0 <= i < |cps| - 1 && IsHigh(cps[i]) && IsLow(cps[i + 1])
  }

  lemma {:induction false} NoSplitPairRejoins(cps: seq<nat>)
    requires !HasSplitPair(cps)
    ensures Rejoined(cps) == cps
  {
    if cps != [] {
      assert forall i :: 0 < i < |cps| ==> cps[i] == cps[1..][i - 1];
      NoSplitPairRejoins(cps[1..]);
    }
  }

  /**
   * The decoded UTF-16 text never holds an invalid character that the check lets through. The check is stricter
   * than that exactly on texts that decode to a high and a low surrogate side by side and are otherwise clean.
   */
  lemma StricterOnlyOnSplitPairs(other: nat -> bool, s: Utf16)
    requires IsCategoryOther(other)
    ensures HasInvalidCharacter(other, Encode(Decode(s))) ==> IsInvalidText(other, s)
    ensures (IsInvalidText(other, s) <==> HasInvalidCharacter(other, Encode(Decode(s)))) <==>
            !(HasSplitPair(Decode(s)) && !AnyInvalid(other, Rejoined(Decode(s))))
  {
    var cps := Decode(s);
    RejectedExactlyWhenDecodingInvalid(other, s);
    EncodedReadsRejoined(cps);
    if HasSplitPair(cps) {
      var i :| 0 <= i < |cps| - 1 && IsHigh(cps[i]) && IsLow(cps[i + 1]);
      assert IsInvalid(other, cps[i]);
    } else {
      NoSplitPairRejoins(cps);
    }
  }

  const EMOJI_ESCAPES: Utf16 := [0x5C, 0x75, 0x64, 0x38, 0x33, 0x64, 0x5C, 0x75, 0x64, 0x65, 0x30, 0x30]

  /** The twelve characters of an emoji's two surrogate escapes are rejected although they decode to the emoji. */
  lemma SplitPairExample(other: nat -> bool)
    requires IsCategoryOther(other) && !other(0x1F600)
    ensures IsInvalidText(other, EMOJI_ESCAPES)
    ensures !HasInvalidCharacter(other, Encode(Decode(EMOJI_ESCAPES)))
  {
    DecodeEmojiEscapes();
    var cps := Decode(EMOJI_ESCAPES);
    assert IsInvalid(other, cps[0]);
    RejectedExactlyWhenDecodingInvalid(other, EMOJI_ESCAPES);
    EncodedReadsRejoined(cps);
    assert Rejoined(cps) == [Combine(0xD83D, 0xDE00)] + Rejoined(cps[2..]) == [0x1F600];
  }

  lemma DecodeEmojiEscapes()
    ensures Decode(EMOJI_ESCAPES) == [0xD83D, 0xDE00]
  {
    var s := EMOJI_ESCAPES;
    var t := s[6..];
    FourDigitEscape(s, 0xD83D);
    FourDigitEscape(t, 0xDE00);
    assert t[6..] == [];
    assert Decode(t) == [0xDE00] + Decode(t[6..]);
    assert Decode(s) == [0xD83D] + Decode(t);
  }

  lemma FourDigitEscape(s: Utf16, v: nat)
    requires |s| >= 6 && s[0] == BACKSLASH && s[1] == 0x75
    requires IsHexDigit(s[2]) && IsHexDigit(s[3]) && IsHexDigit(s[4]) && IsHexDigit(s[5])
    requires v == 4096 * HexDigit(s[2]) + 256 * HexDigit(s[3]) + 16 * HexDigit(s[4]) + HexDigit(s[5])
    ensures EscapeAtStart(s) == Some(Escape(v, 6))
  {
    var h := s[2..6];
    assert h[0] == s[2] && h[1] == s[3] && h[2] == s[4] && h[3] == s[5];
    HexRunAtLeast(s, 2, 4);
    assert h[..3][..2] == h[..2] && h[..2][..1] == h[..1] && h[..1][..0] == [];
    assert HexValue(h[..1]) == HexDigit(h[0]);
    assert HexValue(h[..2]) == 16 * HexDigit(h[0]) + HexDigit(h[1]);
    assert HexValue(h[..3]) == 256 * HexDigit(h[0]) + 16 * HexDigit(h[1]) + HexDigit(h[2]);
  }
}
