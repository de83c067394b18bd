/** String operations of the JavaScript library that several modules use. */
module Texts {
  import opened Wrappers

  predicate OccursAt(s: string, needle: string, i: nat) {
    i + |needle| <= |s| && s[i..i + |needle|] == needle
  }

  /** `indexOf`: the leftmost occurrence. */
  function IndexOf(s: string, needle: string): (r: Option<nat>)
    requires needle != ""
    ensures r.Some? ==> OccursAt(s, needle, r.value)
    ensures forall j: nat :: OccursAt(s, needle, j) ==> r.Some? && r.value <= j
    decreases |s|
  {
    if |s| < |needle| then None
    else if s[..|needle|] == needle then Some(0)
    else
      var r := IndexOf(s[1..], needle);
      assert forall j: nat :: OccursAt(s, needle, j) ==> j > 0 && OccursAt(s[1..], needle, j - 1) by {
        forall j: nat | OccursAt(s, needle, j)
          ensures j > 0 && OccursAt(s[1..], needle, j - 1)
        {
          assert j > 0;
          assert s[1..][j - 1..j - 1 + |needle|] == s[j..j + |needle|];
        }
      }
      if r.Some? then
        assert s[1..][r.value..r.value + |needle|] == s[r.value + 1..r.value + 1 + |needle|];
        Some(r.value + 1)
      else None
  }

  predicate Includes(s: string, needle: string) {
    needle == "" || IndexOf(s, needle).Some?
  }

  /** `split` on a non-empty separator. */
  function Split(s: string, separator: string): (parts: seq<string>)
    requires separator != ""
    ensures |parts| > 0
    decreases |s|
  {
    var at := IndexOf(s, separator);
    if at.None? then [s]
    else [s[..at.value]] + Split(s[at.value + |separator|..], separator)
  }

  function Join(parts: seq<string>, separator: string): string {
    if |parts| == 0 then ""
    else if |parts| == 1 then parts[0]
    else parts[0] + separator + Join(parts[1..], separator)
  }

  /** Joining the parts again gives back the text that was split. */
  lemma {:induction false} JoinOfSplit(s: string, separator: string)
    requires separator != ""
    ensures Join(Split(s, separator), separator) == s
    decreases |s|
  {
    var at := IndexOf(s, separator);
    if at.Some? {
      var rest := s[at.value + |separator|..];
      JoinOfSplit(rest, separator);
      assert Split(s, separator)[1..] == Split(rest, separator);
      assert s == s[..at.value] + separator + rest;
    }
  }

  /** No part contains the separator. */
  lemma {:induction false} PartsHaveNoSeparator(s: string, separator: string)
    requires separator != ""
    ensures forall i, k: nat :: 0 <= i < |Split(s, separator)| ==> !OccursAt(Split(s, separator)[i], separator, k)
    decreases |s|
  {
    var at := IndexOf(s, separator);
    if at.Some? {
      var first, rest := s[..at.value], s[at.value + |separator|..];
      PartsHaveNoSeparator(rest, separator);
      forall k: nat
        ensures !OccursAt(first, separator, k)
      {
        if k + |separator| <= |first| {
          assert first[k..k + |separator|] == s[k..k + |separator|];
          assert !OccursAt(s, separator, k);
        }
      }
    }
  }

  /** The characters of `\s`, which are also those that `trim` removes. */
  predicate IsSpace(c: char) {
    || '\t' <= c <= '\r' || c == ' '
    || c in {'\U{A0}', '\U{1680}', '\U{2028}', '\U{2029}', '\U{202F}', '\U{205F}', '\U{3000}', '\U{FEFF}'}
    || '\U{2000}' <= c <= '\U{200A}'
  }

  function TrimStart(s: string): string {
    if s != "" && IsSpace(s[0]) then TrimStart(s[1..]) else s
  }

  function TrimEnd(s: string): string {
    if s != "" && IsSpace(s[|s| - 1]) then TrimEnd(s[..|s| - 1]) else s
  }

  function Trim(s: string): string {
    TrimEnd(TrimStart(s))
  }

  predicate AllSpace(s: string) {
    forall i :: 0 <= i < |s| ==> IsSpace(s[i])
  }

  lemma {:induction false} TrimStartIsSuffix(s: string) returns (before: string)
    ensures s == before + TrimStart(s) && AllSpace(before)
    ensures TrimStart(s) != "" ==> !IsSpace(TrimStart(s)[0])
  {
    before := "";
    if s != "" && IsSpace(s[0]) {
      var rest := TrimStartIsSuffix(s[1..]);
      before := [s[0]] + rest;
    }
  }

  lemma {:induction false} TrimEndIsPrefix(s: string) returns (after: string)
    ensures s == TrimEnd(s) + after && AllSpace(after)
    ensures TrimEnd(s) != "" ==> !IsSpace(TrimEnd(s)[|TrimEnd(s)| - 1]) && TrimEnd(s)[0] == s[0]
  {
    after := "";
    if s != "" && IsSpace(s[|s| - 1]) {
      var rest := TrimEndIsPrefix(s[..|s| - 1]);
      after := rest + [s[|s| - 1]];
    }
  }

  /** Only whitespace goes, and all of it at both ends. */
  lemma TrimCutsSpace(s: string) returns (before: string, after: string)
    ensures s == before + Trim(s) + after && AllSpace(before) && AllSpace(after)
    ensures Trim(s) != "" ==> !IsSpace(Trim(s)[0]) && !IsSpace(Trim(s)[|Trim(s)| - 1])
  {
    before := TrimStartIsSuffix(s);
    after := TrimEndIsPrefix(TrimStart(s));
    assert s == before + (Trim(s) + after);
  }

  /** The whitespace of the language, section 12.2 and 12.3 of ECMA-262, trims to nothing, and no other character. */
  lemma WhitespaceTrims(c: char)
    ensures Trim([c]) == "" <==>
            c in {'\U{9}', '\U{A}', '\U{B}', '\U{C}', '\U{D}', '\U{20}', '\U{A0}', '\U{1680}', '\U{2000}', '\U{2001}',
                  '\U{2002}', '\U{2003}', '\U{2004}', '\U{2005}', '\U{2006}', '\U{2007}', '\U{2008}', '\U{2009}',
                  '\U{200A}', '\U{2028}', '\U{2029}', '\U{202F}', '\U{205F}', '\U{3000}', '\U{FEFF}'}
  {
    assert [c][1..] == "" && [c][..0] == "";
    if IsSpace(c) {
      assert TrimStart([c]) == TrimStart("") == "";
    } else {
      assert TrimStart([c]) == [c] == TrimEnd([c]);
    }
  }

  /** The UTF-16 length of a character. */
  function Units(c: char): nat {
    if c as int >= 0x1_0000 then 2 else 1
  }

  /** `length`: the number of UTF-16 code units. */
  function UnitLength(s: string): nat {
    if s == "" then 0 else Units(s[0]) + UnitLength(s[1..])
  }

  /** A character outside the basic plane counts twice. */
  lemma {:induction false} UnitLengthAdds(a: string, b: string)
    ensures UnitLength(a + b) == UnitLength(a) + UnitLength(b)
    ensures |a| == 1 ==> UnitLength(a) == if a[0] as int < 0x1_0000 then 1 else 2
    ensures UnitLength("") == 0
  {
    if a == "" {
      assert a + b == b;
    } else {
      UnitLengthAdds(a[1..], b);
      assert (a + b)[1..] == a[1..] + b;
    }
  }
}
