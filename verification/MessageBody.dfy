/** The custom message of an e-mail: a chain of whitespace rewrites, then a split into paragraphs and lines. */
module MessageBody {
  import opened Wrappers
  import opened Texts

  predicate IsVisible(s: string) {
    exists i :: 0 <= i < |s| && !IsSpace(s[i])
  }

  /** Replaces `\r\n?` by a newline. */
  function UnifyBreaks(s: string): string
    decreases |s|
  {
    if s == "" then ""
    else if s[0] == '\r' then "\n" + UnifyBreaks(s[if |s| > 1 && s[1] == '\n' then 2 else 1..])
    else [s[0]] + UnifyBreaks(s[1..])
  }

  /** Where the run of whitespace from position `i` on ends. */
  function SpaceEnd(s: string, i: nat): (end: nat)
    requires i <= |s|
    ensures i <= end <= |s| && (end < |s| ==> !IsSpace(s[end]))
    ensures forall k :: i <= k < end ==> IsSpace(s[k])
    decreases |s| - i
  {
    if i < |s| && IsSpace(s[i]) then SpaceEnd(s, i + 1) else i
  }

  /** Where the run of newlines from position `i` on ends. */
  function NewlineEnd(s: string, i: nat): (end: nat)
    requires i <= |s|
    ensures i <= end <= |s| && (end < |s| ==> s[end] != '\n')
    ensures forall k :: i <= k < end ==> s[k] == '\n'
    decreases |s| - i
  {
    if i < |s| && s[i] == '\n' then NewlineEnd(s, i + 1) else i
  }

  /** Gives characters back from `end` down until a newline comes next. */
  function Backtrack(s: string, end: nat): (r: Option<nat>)
    requires 1 <= end <= |s|
    ensures r.Some? ==> 1 <= r.value <= end && r.value < |s| && s[r.value] == '\n'
    ensures forall k :: 1 <= k <= end && k < |s| && s[k] == '\n' ==> r.Some? && k <= r.value
  {
    if end < |s| && s[end] == '\n' then Some(end)
    else if end == 1 then None
    else Backtrack(s, end - 1)
  }

  /** Where the match of `\n\s*\n+` at the start of `s` ends: the whitespace is taken greedily, then given back. */
  function BlankMatch(s: string): Option<nat>
    requires s != "" && s[0] == '\n'
  {
    match Backtrack(s, SpaceEnd(s, 1))
    case Some(m) => Some(NewlineEnd(s, m))
    case None => None
  }

  /** Replaces `\n\s*\n+` by two newlines. */
  function CollapseBlank(s: string): string
    decreases |s|
  {
    if s == "" then ""
    else if s[0] == '\n' && BlankMatch(s).Some? then "\n\n" + CollapseBlank(s[BlankMatch(s).value..])
    else [s[0]] + CollapseBlank(s[1..])
  }

  /** Replaces `\n{2,}` by two newlines. */
  function CollapseRuns(s: string): string
    decreases |s|
  {
    if s == "" then ""
    else if NewlineEnd(s, 0) >= 2 then "\n\n" + CollapseRuns(s[NewlineEnd(s, 0)..])
    else [s[0]] + CollapseRuns(s[1..])
  }

  function Normalize(text: string): string {
    CollapseRuns(CollapseBlank(UnifyBreaks(Trim(text))))
  }

  function Paragraphs(text: string): seq<string> {
    Split(Normalize(text), "\n\n")
  }

  function Lines(paragraph: string): seq<string> {
    Split(paragraph, "\n")
  }

  // ----- the blank-line pattern -----

  /** The strings that `\n\s*\n+` denotes: `s[..end]` is a newline, whitespace up to `m`, and newlines from `m` on. */
  ghost predicate IsBlankMatch(s: string, m: nat, end: nat) {
    && 1 <= m < end <= |s| && s[0] == '\n'
    && (forall k :: 1 <= k < m ==> IsSpace(s[k]))
    && (forall k :: m <= k < end ==> s[k] == '\n')
  }

  /** The scanner finds a match exactly when there is one, and the longest; one newline is left to its last part. */
  lemma BlankMatchIsLongest(s: string)
    requires s != "" && s[0] == '\n'
    ensures BlankMatch(s).Some? <==> exists m: nat, end: nat :: IsBlankMatch(s, m, end)
    ensures BlankMatch(s).Some? ==> BlankMatch(s).value >= 2 &&
                                    IsBlankMatch(s, BlankMatch(s).value - 1, BlankMatch(s).value)
    ensures forall m: nat, end: nat :: IsBlankMatch(s, m, end) ==> BlankMatch(s).Some? && end <= BlankMatch(s).value
  {
    var run := SpaceEnd(s, 1);
    var r := Backtrack(s, run);
    if r.Some? {
      var end := NewlineEnd(s, r.value);
      assert r.value < run && end > r.value;
      assert forall k :: 1 <= k < end ==> IsSpace(s[k]);
      assert end <= run && s[end - 1] == '\n';
      assert IsBlankMatch(s, r.value, end);
    }
    forall m: nat, end: nat | IsBlankMatch(s, m, end)
      ensures r.Some? && end <= r.value + 1
    {
      assert forall k :: 1 <= k < end ==> IsSpace(s[k]);
      assert end <= run;
      assert s[end - 1] == '\n';
    }
  }

  // ----- what each rewrite does -----

  /** How many characters the first step of `UnifyBreaks` takes, and what it leaves of them. */
  function FirstTaken(s: string): (n: nat)
    requires s != ""
    ensures 1 <= n <= |s|
  {
    if s[0] == '\r' && |s| > 1 && s[1] == '\n' then 2 else 1
  }

  function FirstUnified(s: string): char
    requires s != ""
  {
    if s[0] == '\r' then '\n' else s[0]
  }

  lemma UnifyStep(s: string)
    requires s != ""
    ensures UnifyBreaks(s) == [FirstUnified(s)] + UnifyBreaks(s[FirstTaken(s)..])
  {
  }

  lemma SingleUnified(c: char)
    ensures UnifyBreaks([c]) == if c == '\r' then "\n" else [c]
    ensures UnifyBreaks("\r\n") == "\n"
  {
    assert [c][1..] == "" && "\r\n"[2..] == "";
  }

  /** Each line break becomes one newline, and text that does not cut a break in two is rewritten part by part. */
  lemma {:induction false} BreaksUnifiedOneByOne(a: string, b: string)
    requires !(a != "" && a[|a| - 1] == '\r' && b != "" && b[0] == '\n')
    ensures UnifyBreaks(a + b) == UnifyBreaks(a) + UnifyBreaks(b)
    decreases |a|
  {
    if a == "" {
      assert a + b == b;
    } else {
      UnifyStep(a);
      UnifyStep(a + b);
      var n := FirstTaken(a);
      assert FirstTaken(a + b) == n;
      assert (a + b)[n..] == a[n..] + b;
      BreaksUnifiedOneByOne(a[n..], b);
      ConsConcat(FirstUnified(a), UnifyBreaks(a[n..]), UnifyBreaks(b));
    }
  }

  lemma ConsConcat(c: char, x: string, y: string)
    ensures [c] + (x + y) == ([c] + x) + y
  {
  }

  /** `run` is whitespace with its first newline at `first` and its last at `last`. */
  ghost predicate HasNewlines(run: string, first: nat, last: nat) {
    && first <= last < |run| && run[first] == '\n' && run[last] == '\n'
    && (forall i :: 0 <= i < |run| && run[i] == '\n' ==> first <= i <= last)
  }

  /** Text without newlines stays as it is, whatever follows it. */
  lemma {:induction false} PlainRunKept(run: string, rest: string)
    requires forall i :: 0 <= i < |run| ==> run[i] != '\n'
    ensures CollapseBlank(run + rest) == run + CollapseBlank(rest)
  {
    if run == "" {
      assert run + rest == rest;
    } else {
      PlainRunKept(run[1..], rest);
      assert (run + rest)[1..] == run[1..] + rest;
      assert run == [run[0]] + run[1..];
    }
  }

  lemma MatchInRun(run: string, last: nat, rest: string)
    requires AllSpace(run) && HasNewlines(run, 0, last) && (rest == "" || !IsSpace(rest[0]))
    ensures BlankMatch(run + rest) == if last == 0 then None else Some(last + 1)
  {
    var s := run + rest;
    BlankMatchIsLongest(s);
    if last > 0 {
      assert IsBlankMatch(s, last, last + 1);
    }
    if BlankMatch(s).Some? {
      var end := BlankMatch(s).value;
      assert end <= |run| by {
        BlankMatchIsSpace(s);
        assert rest != "" ==> s[|run|] == rest[0];
      }
      assert s[end - 1] == run[end - 1] == '\n';
    }
  }

  lemma SingleNewlineKept(s: string)
    requires s != "" && s[0] == '\n' && BlankMatch(s).None?
    ensures CollapseBlank(s) == "\n" + CollapseBlank(s[1..])
  {
    assert [s[0]] == "\n";
  }

  lemma BlankMatchReplaced(s: string, end: nat)
    requires s != "" && s[0] == '\n' && BlankMatch(s) == Some(end) && end <= |s|
    ensures CollapseBlank(s) == "\n\n" + CollapseBlank(s[end..])
  {
  }

  lemma AfterLastNewlineKept(run: string, last: nat, rest: string)
    requires HasNewlines(run, 0, last)
    ensures CollapseBlank((run + rest)[last + 1..]) == run[last + 1..] + CollapseBlank(rest)
  {
    PlainRunKept(run[last + 1..], rest);
    assert (run + rest)[last + 1..] == run[last + 1..] + rest;
  }

  /** A run that starts with a newline. */
  lemma BlankLinesFromNewline(run: string, last: nat, rest: string)
    requires AllSpace(run) && HasNewlines(run, 0, last) && (rest == "" || !IsSpace(rest[0]))
    ensures CollapseBlank(run + rest) ==
            (if last == 0 then "\n" else "\n\n") + (run[last + 1..] + CollapseBlank(rest))
  {
    MatchInRun(run, last, rest);
    AfterLastNewlineKept(run, last, rest);
    if last == 0 {
      SingleNewlineKept(run + rest);
    } else {
      BlankMatchReplaced(run + rest, last + 1);
    }
  }

  /**
   * In every run of whitespace between visible characters a single newline stays, and several become two, with the
   * blanks before the first and after the last kept.
   */
  lemma BlankLinesOfARun(run: string, first: nat, last: nat, rest: string)
    requires AllSpace(run) && HasNewlines(run, first, last) && (rest == "" || !IsSpace(rest[0]))
    ensures CollapseBlank(run + rest) ==
            run[..first] + ((if first == last then "\n" else "\n\n") + (run[last + 1..] + CollapseBlank(rest)))
  {
    var blanks, start := run[..first], run[first..];
    assert run + rest == blanks + (start + rest);
    PlainRunKept(blanks, start + rest);
    BlankLinesFromNewline(start, last - first, rest);
    assert start[last - first + 1..] == run[last + 1..];
  }

  // ----- what a normalised text looks like -----

  ghost predicate VisibleBetween(s: string, i: int, j: int)
    requires -1 <= i <= j <= |s|
  {
    exists k :: i < k < j && !IsSpace(s[k])
  }

  ghost predicate IsBreak(s: string, i: int) {
    i == -1 || i == |s| || (0 <= i < |s| && s[i] == '\n')
  }

  /**
   * Between any two breaks, the ends of the text included, there is something visible, unless the two are
   * adjacent newlines.
   */
  ghost predicate Spaced(s: string) {
    forall i, j :: -1 <= i < j <= |s| && IsBreak(s, i) && IsBreak(s, j) ==>
                     VisibleBetween(s, i, j) || (0 <= i && j == i + 1 < |s|)
  }

  /** As before, but for inner newlines only. */
  ghost predicate InnerSpaced(s: string) {
    forall i, j :: 0 <= i < j < |s| && s[i] == '\n' && s[j] == '\n' ==> VisibleBetween(s, i, j) || j == i + 1
  }

  /** Every newline has something visible before it. */
  ghost predicate QuietStart(s: string) {
    forall j :: 0 <= j < |s| && s[j] == '\n' ==> VisibleBetween(s, -1, j)
  }

  predicate VisibleEnds(s: string) {
    s != "" && !IsSpace(s[0]) && !IsSpace(s[|s| - 1])
  }

  predicate NoReturns(s: string) {
    forall i :: 0 <= i < |s| ==> s[i] != '\r'
  }

  lemma QuietStartCons(c: char, s: string)
    requires c != '\n' && (QuietStart(s) || !IsSpace(c))
    ensures QuietStart([c] + s)
  {
    var t := [c] + s;
    forall j | 0 <= j < |t| && t[j] == '\n'
      ensures VisibleBetween(t, -1, j)
    {
      if !IsSpace(c) {
        assert !IsSpace(t[0]);
      } else {
        assert s[j - 1] == '\n';
        var k :| 0 <= k < j - 1 && !IsSpace(s[k]);
        assert !IsSpace(t[k + 1]);
      }
    }
  }

  lemma QuietStartTail(s: string)
    requires s != "" && IsSpace(s[0]) && QuietStart(s)
    ensures s[0] != '\n' && QuietStart(s[1..])
  {
    forall j | 0 <= j < |s[1..]| && s[1..][j] == '\n'
      ensures VisibleBetween(s[1..], -1, j)
    {
      assert s[j + 1] == '\n';
      var k :| -1 < k < j + 1 && !IsSpace(s[k]);
      assert !IsSpace(s[1..][k - 1]);
    }
  }

  lemma {:induction false} QuietStartKept(s: string)
    requires QuietStart(s)
    ensures QuietStart(CollapseBlank(s))
    decreases |s|
  {
    if s != "" {
      assert s[0] != '\n';
      if IsSpace(s[0]) {
        QuietStartTail(s);
        QuietStartKept(s[1..]);
      }
      QuietStartCons(s[0], CollapseBlank(s[1..]));
    }
  }

  /** What follows a match, or a newline that starts none, has something visible before its first newline. */
  lemma QuietAfter(s: string)
    requires s != "" && s[0] == '\n'
    ensures var from := if BlankMatch(s).Some? then BlankMatch(s).value else 1;
            from <= |s| && QuietStart(s[from..])
  {
    BlankMatchIsLongest(s);
    var from := if BlankMatch(s).Some? then BlankMatch(s).value else 1;
    var rest := s[from..];
    forall j | 0 <= j < |rest| && rest[j] == '\n'
      ensures VisibleBetween(rest, -1, j)
    {
      var q := from + j;
      assert !IsBlankMatch(s, q, q + 1);
      var k :| 1 <= k < q && !IsSpace(s[k]);
      assert k >= from;
      assert !IsSpace(rest[k - from]);
    }
  }

  lemma InnerSpacedCons(c: char, s: string)
    requires InnerSpaced(s) && (c == '\n' ==> QuietStart(s))
    ensures InnerSpaced([c] + s)
  {
    var t := [c] + s;
    forall i, j | 0 <= i < j < |t| && t[i] == '\n' && t[j] == '\n'
      ensures VisibleBetween(t, i, j) || j == i + 1
    {
      assert s[j - 1] == '\n';
      if i == 0 {
        var k :| -1 < k < j - 1 && !IsSpace(s[k]);
        assert !IsSpace(t[k + 1]);
      } else if j != i + 1 {
        assert s[i - 1] == '\n';
        var k :| i - 1 < k < j - 1 && !IsSpace(s[k]);
        assert !IsSpace(t[k + 1]);
      }
    }
  }

  lemma InnerSpacedPair(s: string)
    requires InnerSpaced(s) && QuietStart(s)
    ensures InnerSpaced("\n\n" + s)
  {
    var t := "\n\n" + s;
    forall i, j | 0 <= i < j < |t| && t[i] == '\n' && t[j] == '\n'
      ensures VisibleBetween(t, i, j) || j == i + 1
    {
      if j >= 2 && j != i + 1 {
        assert s[j - 2] == '\n';
        var k :| (if i < 2 then -1 else i - 2) < k < j - 2 && !IsSpace(s[k]) by {
          if i < 2 {
            assert VisibleBetween(s, -1, j - 2);
          } else {
            assert s[i - 2] == '\n' && VisibleBetween(s, i - 2, j - 2);
          }
        }
        assert !IsSpace(t[k + 2]);
      }
    }
  }

  /** After the blank-line rewrite, newlines of one run of whitespace are adjacent, whatever the text was. */
  lemma {:induction false} CollapsedIsInnerSpaced(s: string)
    ensures InnerSpaced(CollapseBlank(s))
    decreases |s|
  {
    if s != "" {
      if s[0] == '\n' {
        QuietAfter(s);
      }
      if s[0] == '\n' && BlankMatch(s).Some? {
        BlankMatchIsLongest(s);
        var rest := s[BlankMatch(s).value..];
        CollapsedIsInnerSpaced(rest);
        QuietStartKept(rest);
        InnerSpacedPair(CollapseBlank(rest));
      } else {
        CollapsedIsInnerSpaced(s[1..]);
        if s[0] == '\n' {
          QuietStartKept(s[1..]);
        }
        InnerSpacedCons(s[0], CollapseBlank(s[1..]));
      }
    }
  }

  lemma InnerSpacedSuffix(s: string, n: nat)
    requires n <= |s| && InnerSpaced(s)
    ensures InnerSpaced(s[n..])
  {
    var t := s[n..];
    forall i, j | 0 <= i < j < |t| && t[i] == '\n' && t[j] == '\n'
      ensures VisibleBetween(t, i, j) || j == i + 1
    {
      assert s[n + i] == '\n' && s[n + j] == '\n';
      if j != i + 1 {
        var k :| n + i < k < n + j && !IsSpace(s[k]);
        assert !IsSpace(t[k - n]);
      }
    }
  }

  lemma {:induction false} NoBlankToCollapse(s: string)
    requires InnerSpaced(s)
    ensures CollapseBlank(s) == s
    decreases |s|
  {
    if s != "" {
      if s[0] == '\n' && BlankMatch(s).Some? {
        BlankMatchIsLongest(s);
        var end := BlankMatch(s).value;
        assert s[end - 1] == '\n';
        assert VisibleBetween(s, 0, end - 1) || end == 2;
        InnerSpacedSuffix(s, end);
        NoBlankToCollapse(s[end..]);
        assert s == "\n\n" + s[2..];
      } else {
        InnerSpacedSuffix(s, 1);
        NoBlankToCollapse(s[1..]);
        assert s == [s[0]] + s[1..];
      }
    }
  }

  lemma {:induction false} NoRunToCollapse(s: string)
    requires InnerSpaced(s)
    ensures CollapseRuns(s) == s
    decreases |s|
  {
    if s != "" {
      var end := NewlineEnd(s, 0);
      if end >= 2 {
        assert end > 2 ==> s[0] == '\n' && s[2] == '\n' && !VisibleBetween(s, 0, 2);
        InnerSpacedSuffix(s, end);
        NoRunToCollapse(s[end..]);
        assert s == "\n\n" + s[2..];
      } else {
        InnerSpacedSuffix(s, 1);
        NoRunToCollapse(s[1..]);
        assert s == [s[0]] + s[1..];
      }
    }
  }

  /** The last rewrite never changes anything after the one before it. */
  lemma {:induction false} LastRewriteIsRedundant(s: string)
    ensures CollapseRuns(CollapseBlank(s)) == CollapseBlank(s)
  {
    CollapsedIsInnerSpaced(s);
    NoRunToCollapse(CollapseBlank(s));
  }

  // ----- the ends of the text -----

  lemma {:induction false} TrimStartVisible(s: string)
    ensures TrimStart(s) == "" <==> !IsVisible(s)
    ensures TrimStart(s) != "" ==> !IsSpace(TrimStart(s)[0])
    ensures IsVisible(TrimStart(s)) <==> IsVisible(s)
  {
    if s != "" && IsSpace(s[0]) {
      TrimStartVisible(s[1..]);
      assert IsVisible(s) ==> IsVisible(s[1..]) by {
        if i :| 0 <= i < |s| && !IsSpace(s[i]) {
          assert !IsSpace(s[1..][i - 1]);
        }
      }
    } else if s != "" {
      assert !IsSpace(s[0]);
    }
  }

  lemma {:induction false} TrimEndVisible(s: string)
    requires s != "" && !IsSpace(s[0])
    ensures VisibleEnds(TrimEnd(s))
  {
    if IsSpace(s[|s| - 1]) {
      TrimEndVisible(s[..|s| - 1]);
    }
  }

  lemma TrimmedEnds(text: string)
    ensures if IsVisible(text) then VisibleEnds(Trim(text)) else Trim(text) == ""
  {
    TrimStartVisible(text);
    if IsVisible(text) {
      TrimEndVisible(TrimStart(text));
    }
  }

  lemma {:induction false} UnifiedHasNoReturns(s: string)
    ensures NoReturns(UnifyBreaks(s))
    decreases |s|
  {
    if s != "" {
      UnifiedHasNoReturns(s[if s[0] == '\r' && |s| > 1 && s[1] == '\n' then 2 else 1..]);
    }
  }

  lemma {:induction false} NothingToUnify(s: string)
    requires NoReturns(s)
    ensures UnifyBreaks(s) == s
  {
    if s != "" {
      NothingToUnify(s[1..]);
      assert s == [s[0]] + s[1..];
    }
  }

  /** The last character of a text is the last of its rewritten form, if it is visible. */
  ghost predicate SameEnd(s: string, t: string) {
    s != "" && !IsSpace(s[|s| - 1]) ==> t != "" && t[|t| - 1] == s[|s| - 1]
  }

  lemma {:induction false} UnifiedEnd(s: string)
    ensures SameEnd(s, UnifyBreaks(s))
    decreases |s|
  {
    if s != "" {
      UnifiedEnd(s[if s[0] == '\r' && |s| > 1 && s[1] == '\n' then 2 else 1..]);
    }
  }

  lemma {:induction false} CollapsedEnd(s: string)
    ensures SameEnd(s, CollapseBlank(s))
    decreases |s|
  {
    if s != "" {
      if s[0] == '\n' && BlankMatch(s).Some? {
        BlankMatchIsLongest(s);
        CollapsedEnd(s[BlankMatch(s).value..]);
      } else {
        CollapsedEnd(s[1..]);
      }
    }
  }

  lemma {:induction false} CollapsedHasNoReturns(s: string)
    requires NoReturns(s)
    ensures NoReturns(CollapseBlank(s))
    decreases |s|
  {
    if s != "" {
      if s[0] == '\n' && BlankMatch(s).Some? {
        BlankMatchIsLongest(s);
        CollapsedHasNoReturns(s[BlankMatch(s).value..]);
      } else {
        CollapsedHasNoReturns(s[1..]);
      }
    }
  }

  lemma SpacedFromEnds(s: string)
    requires InnerSpaced(s) && VisibleEnds(s)
    ensures Spaced(s)
  {
    forall i, j | -1 <= i < j <= |s| && IsBreak(s, i) && IsBreak(s, j)
      ensures VisibleBetween(s, i, j) || (0 <= i && j == i + 1 < |s|)
    {
      assert !IsSpace(s[0]) && !IsSpace(s[|s| - 1]);
    }
  }

  /** A text with something visible is normalised to one whose breaks are spaced out; any other to nothing. */
  lemma NormalizedIsSpaced(text: string)
    ensures IsVisible(text) ==> Spaced(Normalize(text)) && VisibleEnds(Normalize(text))
    ensures !IsVisible(text) ==> Normalize(text) == ""
    ensures NoReturns(Normalize(text)) && InnerSpaced(Normalize(text))
  {
    var trimmed := Trim(text);
    var unified := UnifyBreaks(trimmed);
    TrimmedEnds(text);
    UnifiedHasNoReturns(trimmed);
    UnifiedEnd(trimmed);
    CollapsedHasNoReturns(unified);
    CollapsedEnd(unified);
    CollapsedIsInnerSpaced(unified);
    LastRewriteIsRedundant(unified);
    if IsVisible(text) {
      SpacedFromEnds(Normalize(text));
    }
  }

  /** Joining the paragraphs with blank lines and normalising again changes nothing. */
  lemma ParagraphsAreAFixedPoint(text: string)
    ensures Join(Paragraphs(text), "\n\n") == Normalize(text)
    ensures Normalize(Join(Paragraphs(text), "\n\n")) == Join(Paragraphs(text), "\n\n")
  {
    var normal := Normalize(text);
    JoinOfSplit(normal, "\n\n");
    NormalizedIsSpaced(text);
    NothingToUnify(normal);
    NoBlankToCollapse(normal);
    NoRunToCollapse(normal);
    assert Trim(normal) == normal;
  }

  // ----- paragraphs and lines -----

  /** Between any two breaks there is something visible, without exception. */
  ghost predicate AllVisible(s: string) {
    forall i, j :: -1 <= i < j <= |s| && IsBreak(s, i) && IsBreak(s, j) ==> VisibleBetween(s, i, j)
  }

  lemma {:induction false} LinesVisible(paragraph: string)
    requires AllVisible(paragraph)
    ensures forall i :: 0 <= i < |Lines(paragraph)| ==> IsVisible(Lines(paragraph)[i])
    decreases |paragraph|
  {
    var at := IndexOf(paragraph, "\n");
    var n := if at.Some? then at.value else |paragraph|;
    assert at.Some? ==> paragraph[n..n + 1][0] == '\n';
    assert IsVisible(paragraph[..n]) by {
      assert VisibleBetween(paragraph, -1, n);
      var k :| -1 < k < n && !IsSpace(paragraph[k]);
      assert !IsSpace(paragraph[..n][k]);
    }
    if at.None? {
      assert paragraph[..n] == paragraph;
    } else {
      var rest := paragraph[n + 1..];
      forall i, j | -1 <= i < j <= |rest| && IsBreak(rest, i) && IsBreak(rest, j)
        ensures VisibleBetween(rest, i, j)
      {
        assert VisibleBetween(paragraph, n + 1 + i, n + 1 + j);
        var k :| n + 1 + i < k < n + 1 + j && !IsSpace(paragraph[k]);
        assert !IsSpace(rest[k - n - 1]);
      }
      LinesVisible(rest);
      assert Lines(paragraph) == [paragraph[..n]] + Lines(rest);
    }
  }

  /** The part before the first blank line has only visible lines. */
  lemma BeforeBlankLine(s: string, n: nat)
    requires Spaced(s) && n <= |s| && IsBreak(s, n)
    requires forall i :: 0 <= i < n && i + 2 <= |s| ==> !(s[i] == '\n' && s[i + 1] == '\n')
    ensures AllVisible(s[..n])
  {
    var first := s[..n];
    forall i, j | -1 <= i < j <= n && IsBreak(first, i) && IsBreak(first, j)
      ensures VisibleBetween(first, i, j)
    {
      assert IsBreak(s, i) && IsBreak(s, j);
      assert VisibleBetween(s, i, j);
      var k :| i < k < j && !IsSpace(s[k]);
      assert !IsSpace(first[k]);
    }
  }

  /** The part after a blank line is spaced out again. */
  lemma AfterBlankLine(s: string, n: nat)
    requires Spaced(s) && n + 2 <= |s| && s[n] == '\n' && s[n + 1] == '\n'
    ensures Spaced(s[n + 2..])
  {
    var rest := s[n + 2..];
    forall i, j | -1 <= i < j <= |rest| && IsBreak(rest, i) && IsBreak(rest, j)
      ensures VisibleBetween(rest, i, j) || (0 <= i && j == i + 1 < |rest|)
    {
      var from := if i == -1 then n else n + 2 + i;
      assert IsBreak(s, from) && IsBreak(s, n + 2 + j);
      if VisibleBetween(s, from, n + 2 + j) {
        var k :| from < k < n + 2 + j && !IsSpace(s[k]);
        assert !IsSpace(rest[k - n - 2]);
      }
    }
  }

  lemma BlankLineAt(s: string, i: nat)
    requires i + 2 <= |s|
    ensures OccursAt(s, "\n\n", i) <==> s[i] == '\n' && s[i + 1] == '\n'
  {
    assert s[i..i + 2][0] == s[i] && s[i..i + 2][1] == s[i + 1];
    assert s[i..i + 2] == [s[i], s[i + 1]];
  }

  lemma BeforeAndAfterBlankLine(s: string)
    requires Spaced(s)
    ensures var at := IndexOf(s, "\n\n");
            && AllVisible(s[..if at.Some? then at.value else |s|])
            && (at.Some? ==> Spaced(s[at.value + 2..]))
  {
    var at := IndexOf(s, "\n\n");
    var n := if at.Some? then at.value else |s|;
    forall i | 0 <= i < n && i + 2 <= |s|
      ensures !(s[i] == '\n' && s[i + 1] == '\n')
    {
      BlankLineAt(s, i);
    }
    if at.Some? {
      BlankLineAt(s, n);
      AfterBlankLine(s, n);
    }
    BeforeBlankLine(s, n);
  }

  lemma {:induction false} SpacedSplitsIntoVisibleLines(s: string)
    requires Spaced(s)
    ensures forall i :: 0 <= i < |Split(s, "\n\n")| ==> AllVisible(Split(s, "\n\n")[i])
    decreases |s|
  {
    BeforeAndAfterBlankLine(s);
    var at := IndexOf(s, "\n\n");
    if at.None? {
      assert s[..|s|] == s;
    } else {
      SpacedSplitsIntoVisibleLines(s[at.value + 2..]);
    }
  }

  /** No paragraph of a visible text has a line without visible characters. */
  lemma EveryLineIsVisible(text: string)
    requires IsVisible(text)
    ensures forall i, j :: 0 <= i < |Paragraphs(text)| && 0 <= j < |Lines(Paragraphs(text)[i])| ==>
              IsVisible(Lines(Paragraphs(text)[i])[j])
  {
    NormalizedIsSpaced(text);
    SpacedSplitsIntoVisibleLines(Normalize(text));
    forall i | 0 <= i < |Paragraphs(text)|
      ensures forall j :: 0 <= j < |Lines(Paragraphs(text)[i])| ==> IsVisible(Lines(Paragraphs(text)[i])[j])
    {
      LinesVisible(Paragraphs(text)[i]);
    }
  }

  lemma NewlineAt(s: string, i: nat)
    requires i < |s|
    ensures OccursAt(s, "\n", i) <==> s[i] == '\n'
  {
    assert s[i..i + 1] == [s[i]];
  }

  /** The lines of a text are what stands between its newlines. */
  lemma LinesBetweenNewlines(paragraph: string)
    ensures Join(Lines(paragraph), "\n") == paragraph
    ensures forall i :: 0 <= i < |Lines(paragraph)| ==> '\n' !in Lines(paragraph)[i]
  {
    JoinOfSplit(paragraph, "\n");
    PartsHaveNoSeparator(paragraph, "\n");
    forall i, k | 0 <= i < |Lines(paragraph)| && 0 <= k < |Lines(paragraph)[i]|
      ensures Lines(paragraph)[i][k] != '\n'
    {
      NewlineAt(Lines(paragraph)[i], k);
    }
  }

  /** Paragraphs hold no blank line, and their lines no newline; joined again they are the normalised text. */
  lemma ParagraphsAndLinesAreCut(text: string)
    ensures Join(Paragraphs(text), "\n\n") == Normalize(text)
    ensures forall i, k: nat :: 0 <= i < |Paragraphs(text)| ==> !OccursAt(Paragraphs(text)[i], "\n\n", k)
    ensures forall i :: 0 <= i < |Paragraphs(text)| ==> Join(Lines(Paragraphs(text)[i]), "\n") == Paragraphs(text)[i]
    ensures forall i, j :: 0 <= i < |Paragraphs(text)| && 0 <= j < |Lines(Paragraphs(text)[i])| ==>
              '\n' !in Lines(Paragraphs(text)[i])[j]
  {
    JoinOfSplit(Normalize(text), "\n\n");
    PartsHaveNoSeparator(Normalize(text), "\n\n");
    forall i | 0 <= i < |Paragraphs(text)|
      ensures Join(Lines(Paragraphs(text)[i]), "\n") == Paragraphs(text)[i]
      ensures forall j :: 0 <= j < |Lines(Paragraphs(text)[i])| ==> '\n' !in Lines(Paragraphs(text)[i])[j]
    {
      LinesBetweenNewlines(Paragraphs(text)[i]);
    }
  }

  /** The text is rewritten after the whitespace at its ends is cut, by the first two rewrites alone. */
  lemma NormalizedInSteps(text: string) returns (before: string, middle: string, after: string)
    ensures text == before + middle + after && AllSpace(before) && AllSpace(after)
    ensures middle != "" ==> !IsSpace(middle[0]) && !IsSpace(middle[|middle| - 1])
    ensures Normalize(text) == CollapseBlank(UnifyBreaks(middle))
  {
    before, after := TrimCutsSpace(text);
    middle := Trim(text);
    LastRewriteIsRedundant(UnifyBreaks(middle));
  }

  // ----- nothing visible is lost -----

  /** The visible characters of a text, in order. */
  function Ink(s: string): string {
    if s == "" then "" else if IsSpace(s[0]) then Ink(s[1..]) else [s[0]] + Ink(s[1..])
  }

  function InkOfAll(parts: seq<string>): string {
    if parts == [] then "" else Ink(parts[0]) + InkOfAll(parts[1..])
  }

  lemma {:induction false} InkConcat(a: string, b: string)
    ensures Ink(a + b) == Ink(a) + Ink(b)
  {
    if a == "" {
      assert a + b == b;
    } else {
      InkConcat(a[1..], b);
      assert (a + b)[1..] == a[1..] + b;
      assert [a[0]] + (Ink(a[1..]) + Ink(b)) == [a[0]] + Ink(a[1..]) + Ink(b);
    }
  }

  /** Whitespace has no ink. */
  lemma {:induction false} SpacesAddNoInk(spaces: string, rest: string)
    requires forall i :: 0 <= i < |spaces| ==> IsSpace(spaces[i])
    ensures Ink(spaces + rest) == Ink(rest) == Ink(rest + spaces)
    ensures Ink(spaces) == ""
  {
    InkConcat(rest, spaces);
    if spaces == "" {
      assert spaces + rest == rest;
    } else {
      SpacesAddNoInk(spaces[1..], rest);
      assert (spaces + rest)[1..] == spaces[1..] + rest;
    }
    assert Ink(rest) + "" == Ink(rest);
  }

  lemma {:induction false} InkAfterSpaces(s: string, n: nat)
    requires n <= |s| && forall i :: 0 <= i < n ==> IsSpace(s[i])
    ensures Ink(s) == Ink(s[n..])
  {
    if n > 0 {
      InkAfterSpaces(s[1..], n - 1);
      assert s[1..][n - 1..] == s[n..];
    }
  }

  lemma {:induction false} TrimStartInk(s: string)
    ensures Ink(TrimStart(s)) == Ink(s)
  {
    if s != "" && IsSpace(s[0]) {
      TrimStartInk(s[1..]);
    }
  }

  lemma {:induction false} TrimEndInk(s: string)
    ensures Ink(TrimEnd(s)) == Ink(s)
  {
    if s != "" && IsSpace(s[|s| - 1]) {
      var init := s[..|s| - 1];
      TrimEndInk(init);
      SpacesAddNoInk([s[|s| - 1]], init);
      assert s == init + [s[|s| - 1]];
    }
  }

  lemma {:induction false} UnifyInk(s: string)
    ensures Ink(UnifyBreaks(s)) == Ink(s)
    decreases |s|
  {
    if s != "" {
      var n := if s[0] == '\r' && |s| > 1 && s[1] == '\n' then 2 else 1;
      UnifyInk(s[n..]);
      if s[0] == '\r' {
        InkAfterSpaces(s, n);
        SpacesAddNoInk("\n", UnifyBreaks(s[n..]));
      }
    }
  }

  lemma BlankMatchIsSpace(s: string)
    requires s != "" && s[0] == '\n' && BlankMatch(s).Some?
    ensures 2 <= BlankMatch(s).value <= |s|
    ensures forall i :: 0 <= i < BlankMatch(s).value ==> IsSpace(s[i])
  {
    BlankMatchIsLongest(s);
  }

  lemma {:induction false} CollapseInk(s: string)
    ensures Ink(CollapseBlank(s)) == Ink(s)
    decreases |s|
  {
    if s == "" {
    } else if s[0] == '\n' && BlankMatch(s).Some? {
      BlankMatchIsSpace(s);
      var rest := s[BlankMatch(s).value..];
      CollapseInk(rest);
      InkAfterSpaces(s, BlankMatch(s).value);
      SpacesAddNoInk("\n\n", CollapseBlank(rest));
      assert CollapseBlank(s) == "\n\n" + CollapseBlank(rest);
    } else {
      CollapseInk(s[1..]);
      assert CollapseBlank(s)[1..] == CollapseBlank(s[1..]);
    }
  }

  lemma InkAroundSpaces(before: string, spaces: string, rest: string)
    requires forall i :: 0 <= i < |spaces| ==> IsSpace(spaces[i])
    ensures Ink(before + spaces + rest) == Ink(before) + Ink(rest)
  {
    SpacesAddNoInk(spaces, before);
    InkConcat(before + spaces, rest);
  }

  lemma InkOfCons(first: string, rest: seq<string>)
    ensures InkOfAll([first] + rest) == Ink(first) + InkOfAll(rest)
  {
    assert ([first] + rest)[1..] == rest;
  }

  lemma {:induction false} SplitInk(s: string, separator: string)
    requires separator != "" && forall i :: 0 <= i < |separator| ==> IsSpace(separator[i])
    ensures InkOfAll(Split(s, separator)) == Ink(s)
    decreases |s|
  {
    var at := IndexOf(s, separator);
    if at.None? {
      assert [s][1..] == [] && Ink(s) + "" == Ink(s);
    } else {
      var first, rest := s[..at.value], s[at.value + |separator|..];
      SplitInk(rest, separator);
      InkAroundSpaces(first, separator, rest);
      assert s == first + separator + rest;
      InkOfCons(first, Split(rest, separator));
    }
  }

  /** The visible characters of the paragraphs, and of each paragraph's lines, are those of the text, in order. */
  lemma NoInkLost(text: string)
    ensures InkOfAll(Paragraphs(text)) == Ink(text)
    ensures forall i :: 0 <= i < |Paragraphs(text)| ==>
              InkOfAll(Lines(Paragraphs(text)[i])) == Ink(Paragraphs(text)[i])
  {
    TrimStartInk(text);
    TrimEndInk(TrimStart(text));
    UnifyInk(Trim(text));
    CollapseInk(UnifyBreaks(Trim(text)));
    LastRewriteIsRedundant(UnifyBreaks(Trim(text)));
    SplitInk(Normalize(text), "\n\n");
    forall i | 0 <= i < |Paragraphs(text)|
      ensures InkOfAll(Lines(Paragraphs(text)[i])) == Ink(Paragraphs(text)[i])
    {
      SplitInk(Paragraphs(text)[i], "\n");
    }
  }
}
