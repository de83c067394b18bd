/** What sanitising means, as a filter on immutable trees, and the laws that filter obeys. */
module CssFilter {
  import opened Wrappers
  import opened CssSyntax
  import opened CssSelectors
  import opened Texts

  datatype Outcome = Outcome(kept: Option<Css>, warnings: seq<Warning>)

  datatype Filtered = Filtered(kept: seq<Css>, warnings: seq<Warning>)

  predicate ValueIsBlocked(p: Policy, value: string) {
    exists i :: 0 <= i < |p.blockedValueSubstrings| && Includes(p.lower(value), p.blockedValueSubstrings[i])
  }

  predicate PropertyIsBlocked(p: Policy, prop: string) {
    p.lower(prop) in p.blockedProperties
  }

  predicate AtRuleIsBlocked(p: Policy, name: string) {
    p.lower(name) in p.blockedAtRules || p.lower(name) != "media"
  }

  function PropertyWarningFor(prop: string, line: Option<nat>): Warning {
    Warning(PropertyWarning, "property \"" + prop + "\" is not allowed", line)
  }

  function ValueWarningFor(prop: string, line: Option<nat>): Warning {
    Warning(ValueWarning, "value of \"" + prop + "\" contains a disallowed token", line)
  }

  function AtRuleWarningFor(name: string, line: Option<nat>): Warning {
    Warning(AtRuleWarning, "at-rule \"@" + name + "\" is not allowed", line)
  }

  /** The fate of a direct child of an accepted rule. */
  function DeclOutcome(p: Policy, c: Css): Outcome {
    match c
    case Decl(prop, value, _, line) =>
      if PropertyIsBlocked(p, prop) then Outcome(None, [PropertyWarningFor(prop, line)])
      else if ValueIsBlocked(p, value) then Outcome(None, [ValueWarningFor(prop, line)])
      else Outcome(Some(c.(important := false)), [])
    case _ => Outcome(Some(c), [])
  }

  function Extend(f: Filtered, o: Outcome): Filtered {
    Filtered(f.kept + if o.kept.Some? then [o.kept.value] else [], f.warnings + o.warnings)
  }

  function SanitizeDecls(p: Policy, cs: seq<Css>): Filtered {
    if cs == [] then Filtered([], [])
    else Extend(SanitizeDecls(p, cs[..|cs| - 1]), DeclOutcome(p, cs[|cs| - 1]))
  }

  /** The fate of a child of the root or of an `@media` block. */
  function NodeOutcome(p: Policy, c: Css): Outcome
    decreases c
  {
    match c
    case Rule(selector, line, children) => (
      match Judge(p, p.parseSelector(selector))
      case Dropped(reason) => Outcome(None, [Warning(SelectorWarning, reason, line)])
      case Accepted =>
        var inner := SanitizeDecls(p, children);
        Outcome(Some(Rule(selector, line, inner.kept)), inner.warnings)
    )
    case AtRule(name, params, line, children) =>
      if AtRuleIsBlocked(p, name) then Outcome(None, [AtRuleWarningFor(name, line)])
      else
        var inner := SanitizeNodes(p, children);
        Outcome(Some(AtRule(name, params, line, inner.kept)), inner.warnings)
    case _ => Outcome(Some(c), [])
  }

  function SanitizeNodes(p: Policy, cs: seq<Css>): Filtered
    decreases cs
  {
    if cs == [] then Filtered([], [])
    else Extend(SanitizeNodes(p, cs[..|cs| - 1]), NodeOutcome(p, cs[|cs| - 1]))
  }

  // ----- cleanliness -----

  predicate CleanDecl(p: Policy, c: Css) {
    c.Decl? ==> !PropertyIsBlocked(p, c.prop) && !ValueIsBlocked(p, c.value) && !c.important
  }

  predicate CleanDecls(p: Policy, cs: seq<Css>) {
    forall i :: 0 <= i < |cs| ==> CleanDecl(p, cs[i])
  }

  /**
   * Every rule reached through nested `@media` has an accepted selector and only clean declarations as direct
   * children; every at-rule so reached is `@media`.
   */
  predicate CleanNode(p: Policy, c: Css)
    decreases c
  {
    match c
    case Rule(selector, _, children) => Judge(p, p.parseSelector(selector)).Accepted? && CleanDecls(p, children)
    case AtRule(name, _, _, children) => !AtRuleIsBlocked(p, name) && CleanNodes(p, children)
    case _ => true
  }

  predicate CleanNodes(p: Policy, cs: seq<Css>)
    decreases cs
  {
    forall i :: 0 <= i < |cs| ==> CleanNode(p, cs[i])
  }

  /** What is kept of a child is clean, and it is kept unchanged without a warning exactly when it was. */
  lemma DeclFixedExactlyWhenClean(p: Policy, c: Css)
    ensures DeclOutcome(p, c).kept.Some? ==> CleanDecl(p, DeclOutcome(p, c).kept.value)
    ensures DeclOutcome(p, c) == Outcome(Some(c), []) <==> CleanDecl(p, c)
  {
  }

  lemma CleanDeclsExtend(p: Policy, f: Filtered, o: Outcome)
    requires CleanDecls(p, f.kept) && (o.kept.Some? ==> CleanDecl(p, o.kept.value))
    ensures CleanDecls(p, Extend(f, o).kept)
  {
  }

  lemma FixedExtend(f: Filtered, o: Outcome, init: seq<Css>, last: Css)
    requires |f.kept| <= |init|
    ensures Extend(f, o) == Filtered(init + [last], []) <==> f == Filtered(init, []) && o == Outcome(Some(last), [])
  {
    if Extend(f, o) == Filtered(init + [last], []) {
      LastKept(f, o, init, last);
    }
  }

  lemma {:induction false} DeclsFixedExactlyWhenClean(p: Policy, cs: seq<Css>)
    ensures CleanDecls(p, SanitizeDecls(p, cs).kept)
    ensures |SanitizeDecls(p, cs).kept| <= |cs|
    ensures SanitizeDecls(p, cs) == Filtered(cs, []) <==> CleanDecls(p, cs)
  {
    if cs != [] {
      var init, last := cs[..|cs| - 1], cs[|cs| - 1];
      var f, o := SanitizeDecls(p, init), DeclOutcome(p, last);
      DeclsFixedExactlyWhenClean(p, init);
      DeclFixedExactlyWhenClean(p, last);
      CleanDeclsExtend(p, f, o);
      FixedExtend(f, o, init, last);
      assert cs == init + [last];
      assert CleanDecls(p, cs) <==> CleanDecls(p, init) && CleanDecl(p, last);
    }
  }

  /** A filter that lost nothing and warned of nothing lost nothing in the first part and nothing in the last. */
  lemma LastKept(f: Filtered, o: Outcome, init: seq<Css>, last: Css)
    requires |f.kept| <= |init|
    requires Extend(f, o) == Filtered(init + [last], [])
    ensures f == Filtered(init, []) && o == Outcome(Some(last), [])
  {
    var kept := if o.kept.Some? then [o.kept.value] else [];
    assert |kept| == 1 && |f.kept| == |init|;
    assert f.kept == (f.kept + kept)[..|init|] == (init + [last])[..|init|] == init;
    assert (f.kept + kept)[|init|] == (init + [last])[|init|];
  }

  lemma {:induction false} NodeCleaned(p: Policy, c: Css)
    ensures NodeOutcome(p, c).kept.Some? ==> CleanNode(p, NodeOutcome(p, c).kept.value)
    ensures NodeOutcome(p, c) == Outcome(Some(c), []) <==> CleanNode(p, c)
    decreases c
  {
    match c
    case Rule(_, _, children) => DeclsFixedExactlyWhenClean(p, children);
    case AtRule(_, _, _, children) => FixedExactlyWhenClean(p, children);
    case _ =>
  }

  /**
   * The result is always clean, and the filter leaves a forest alone without a warning exactly when it is clean.
   */
  lemma {:induction false} FixedExactlyWhenClean(p: Policy, cs: seq<Css>)
    ensures CleanNodes(p, SanitizeNodes(p, cs).kept)
    ensures |SanitizeNodes(p, cs).kept| <= |cs|
    ensures SanitizeNodes(p, cs) == Filtered(cs, []) <==> CleanNodes(p, cs)
    decreases cs
  {
    if cs != [] {
      var init, last := cs[..|cs| - 1], cs[|cs| - 1];
      FixedExactlyWhenClean(p, init);
      NodeCleaned(p, last);
      FixedExtend(SanitizeNodes(p, init), NodeOutcome(p, last), init, last);
      assert cs == init + [last];
      assert CleanNodes(p, cs) <==> CleanNodes(p, init) && CleanNode(p, last);
    }
  }

  /** A second run removes nothing and warns of nothing. */
  lemma Idempotent(p: Policy, cs: seq<Css>)
    ensures var once := SanitizeNodes(p, cs).kept; SanitizeNodes(p, once) == Filtered(once, [])
  {
    FixedExactlyWhenClean(p, cs);
    FixedExactlyWhenClean(p, SanitizeNodes(p, cs).kept);
  }

  // ----- cleanliness in plain terms -----

  /** No blocked property in any case of letters, no blocked substring anywhere in the value, not important. */
  ghost predicate SafeDecl(p: Policy, prop: string, value: string, important: bool) {
    && p.lower(prop) !in p.blockedProperties && !important
    && forall i, k: nat :: 0 <= i < |p.blockedValueSubstrings| ==>
         !OccursAt(p.lower(value), p.blockedValueSubstrings[i], k)
  }

  ghost predicate SafeNode(p: Policy, c: Css)
    decreases c
  {
    match c
    case Rule(selector, _, children) =>
      && SafeSelector(p, selector)
      && forall i :: 0 <= i < |children| && children[i].Decl? ==>
           SafeDecl(p, children[i].prop, children[i].value, children[i].important)
    case AtRule(name, _, _, children) =>
      && p.lower(name) == "media" && "media" !in p.blockedAtRules
      && forall i :: 0 <= i < |children| ==> SafeNode(p, children[i])
    case _ => true
  }

  lemma ValueIsBlockedExactly(p: Policy, value: string)
    ensures ValueIsBlocked(p, value) <==>
            exists i, k: nat :: 0 <= i < |p.blockedValueSubstrings| &&
                                OccursAt(p.lower(value), p.blockedValueSubstrings[i], k)
  {
    if ValueIsBlocked(p, value) {
      var i :| 0 <= i < |p.blockedValueSubstrings| && Includes(p.lower(value), p.blockedValueSubstrings[i]);
      var needle := p.blockedValueSubstrings[i];
      var k := if needle == "" then 0 else IndexOf(p.lower(value), needle).value;
      assert OccursAt(p.lower(value), needle, k);
    }
  }

  lemma {:induction false} CleanExactlyWhenSafe(p: Policy, c: Css)
    ensures CleanNode(p, c) <==> SafeNode(p, c)
    decreases c
  {
    match c
    case Rule(selector, _, children) =>
      AcceptedExactlyWhenSafe(p, selector);
      forall i | 0 <= i < |children| && children[i].Decl?
        ensures CleanDecl(p, children[i]) <==>
                SafeDecl(p, children[i].prop, children[i].value, children[i].important)
      {
        ValueIsBlockedExactly(p, children[i].value);
      }
    case AtRule(name, _, _, children) =>
      forall i | 0 <= i < |children|
        ensures CleanNode(p, children[i]) <==> SafeNode(p, children[i])
      {
        CleanExactlyWhenSafe(p, children[i]);
      }
    case _ =>
  }

  /**
   * Every rule that is reached in the result parses and is safe, as are its declarations, and every at-rule so
   * reached is `@media`; a forest is left alone without a warning exactly when all this already holds of it.
   */
  lemma ResultIsSafe(p: Policy, cs: seq<Css>)
    ensures var kept := SanitizeNodes(p, cs).kept; forall i :: 0 <= i < |kept| ==> SafeNode(p, kept[i])
    ensures SanitizeNodes(p, cs) == Filtered(cs, []) <==> forall i :: 0 <= i < |cs| ==> SafeNode(p, cs[i])
  {
    var kept := SanitizeNodes(p, cs).kept;
    FixedExactlyWhenClean(p, cs);
    forall i | 0 <= i < |kept|
      ensures SafeNode(p, kept[i])
    {
      CleanExactlyWhenSafe(p, kept[i]);
    }
    forall i | 0 <= i < |cs|
      ensures CleanNode(p, cs[i]) <==> SafeNode(p, cs[i])
    {
      CleanExactlyWhenSafe(p, cs[i]);
    }
  }

  // ----- the result is the greatest clean pruning -----

  /** `a` is `b` with some subtrees deleted and some important flags cleared; order and all else are kept. */
  ghost predicate Pruned(a: Css, b: Css)
    decreases b
  {
    match b
    case Decl(_, _, _, _) => a == b || a == b.(important := false)
    case Comment(_) => a == b
    case Root(children) => a.Root? && PrunedForest(a.children, children)
    case Rule(selector, line, children) =>
      a.Rule? && a == Rule(selector, line, a.children) && PrunedForest(a.children, children)
    case AtRule(name, params, line, children) =>
      a.AtRule? && a == AtRule(name, params, line, a.children) && PrunedForest(a.children, children)
  }

  ghost predicate PrunedForest(a: seq<Css>, b: seq<Css>)
    decreases b
  {
    if b == [] then a == []
    else
      || PrunedForest(a, b[..|b| - 1])
      || (a != [] && Pruned(a[|a| - 1], b[|b| - 1]) && PrunedForest(a[..|a| - 1], b[..|b| - 1]))
  }

  lemma {:induction false} PrunedReflexive(c: Css)
    ensures Pruned(c, c)
    decreases c
  {
    match c
    case Decl(_, _, _, _) =>
    case Comment(_) =>
    case _ => PrunedForestReflexive(c.children);
  }

  lemma {:induction false} PrunedForestReflexive(cs: seq<Css>)
    ensures PrunedForest(cs, cs)
    decreases cs
  {
    if cs != [] {
      PrunedReflexive(cs[|cs| - 1]);
      PrunedForestReflexive(cs[..|cs| - 1]);
    }
  }

  lemma PrunedForestExtend(a: seq<Css>, b: seq<Css>, x: Css, y: Css)
    requires PrunedForest(a, b) && Pruned(x, y)
    ensures PrunedForest(a + [x], b + [y])
  {
    assert (a + [x])[..|a|] == a && (b + [y])[..|b|] == b;
  }

  lemma PrunedForestSkip(a: seq<Css>, b: seq<Css>, y: Css)
    requires PrunedForest(a, b)
    ensures PrunedForest(a, b + [y])
  {
    assert (b + [y])[..|b|] == b;
  }

  lemma {:induction false} DeclsPruned(p: Policy, cs: seq<Css>)
    ensures PrunedForest(SanitizeDecls(p, cs).kept, cs)
  {
    if cs != [] {
      var init, last := cs[..|cs| - 1], cs[|cs| - 1];
      DeclsPruned(p, init);
      PrunedReflexive(last);
      assert cs == init + [last];
      var o := DeclOutcome(p, last);
      var kept := SanitizeDecls(p, init).kept;
      if o.kept.Some? {
        PrunedForestExtend(kept, init, o.kept.value, last);
      } else {
        assert kept + [] == kept;
      }
    }
  }

  lemma {:induction false} NodePruned(p: Policy, c: Css)
    ensures NodeOutcome(p, c).kept.Some? ==> Pruned(NodeOutcome(p, c).kept.value, c)
    decreases c
  {
    match c
    case Rule(_, _, children) => DeclsPruned(p, children);
    case AtRule(_, _, _, children) => OnlyPrunes(p, children);
    case _ => PrunedReflexive(c);
  }

  /** Survivors keep their order and content, except for cleared important flags. */
  lemma {:induction false} OnlyPrunes(p: Policy, cs: seq<Css>)
    ensures PrunedForest(SanitizeNodes(p, cs).kept, cs)
    decreases cs
  {
    if cs != [] {
      var init, last := cs[..|cs| - 1], cs[|cs| - 1];
      OnlyPrunes(p, init);
      NodePruned(p, last);
      assert cs == init + [last];
      var o := NodeOutcome(p, last);
      var kept := SanitizeNodes(p, init).kept;
      if o.kept.Some? {
        PrunedForestExtend(kept, init, o.kept.value, last);
      } else {
        assert kept + [] == kept;
      }
    }
  }

  lemma {:induction false} DeclsGreatest(p: Policy, x: seq<Css>, cs: seq<Css>)
    requires CleanDecls(p, x) && PrunedForest(x, cs)
    ensures PrunedForest(x, SanitizeDecls(p, cs).kept)
  {
    if cs != [] {
      var init, last := cs[..|cs| - 1], cs[|cs| - 1];
      var kept, o := SanitizeDecls(p, init).kept, DeclOutcome(p, last);
      if PrunedForest(x, init) {
        DeclsGreatest(p, x, init);
        GreatestSkip(x, kept, o);
      } else {
        var n := |x| - 1;
        DeclsGreatest(p, x[..n], init);
        assert CleanDecl(p, x[n]) && Pruned(x[n], last);
        PrunedForestExtend(x[..n], kept, x[n], o.kept.value);
        assert x == x[..n] + [x[n]];
      }
    }
  }

  lemma GreatestSkip(x: seq<Css>, kept: seq<Css>, o: Outcome)
    requires PrunedForest(x, kept)
    ensures PrunedForest(x, kept + if o.kept.Some? then [o.kept.value] else [])
  {
    if o.kept.Some? {
      PrunedForestSkip(x, kept, o.kept.value);
    } else {
      assert kept + [] == kept;
    }
  }

  lemma {:induction false} NodeGreatest(p: Policy, x: Css, c: Css)
    requires CleanNode(p, x) && Pruned(x, c)
    ensures NodeOutcome(p, c).kept.Some? && Pruned(x, NodeOutcome(p, c).kept.value)
    decreases c
  {
    match c
    case Rule(_, _, children) => DeclsGreatest(p, x.children, children);
    case AtRule(_, _, _, children) => KeepsGreatestCleanPruning(p, x.children, children);
    case _ =>
  }

  /** Nothing is removed needlessly: every clean pruning of the input is a pruning of the result. */
  lemma {:induction false} KeepsGreatestCleanPruning(p: Policy, x: seq<Css>, cs: seq<Css>)
    requires CleanNodes(p, x) && PrunedForest(x, cs)
    ensures PrunedForest(x, SanitizeNodes(p, cs).kept)
    decreases cs
  {
    if cs != [] {
      var init, last := cs[..|cs| - 1], cs[|cs| - 1];
      var kept, o := SanitizeNodes(p, init).kept, NodeOutcome(p, last);
      if PrunedForest(x, init) {
        KeepsGreatestCleanPruning(p, x, init);
        GreatestSkip(x, kept, o);
      } else {
        var n := |x| - 1;
        KeepsGreatestCleanPruning(p, x[..n], init);
        NodeGreatest(p, x[n], last);
        PrunedForestExtend(x[..n], kept, x[n], o.kept.value);
        assert x == x[..n] + [x[n]];
      }
    }
  }

  /** The number of nodes plus the number of important flags. */
  function Weight(cs: seq<Css>): nat
    decreases cs
  {
    if cs == [] then 0 else Weight(cs[..|cs| - 1]) + WeightOf(cs[|cs| - 1])
  }

  function WeightOf(c: Css): nat
    decreases c
  {
    1 + match c
        case Decl(_, _, important, _) => if important then 1 else 0
        case Comment(_) => 0
        case _ => Weight(c.children)
  }

  lemma {:induction false} PrunedIsLighter(a: Css, b: Css)
    requires Pruned(a, b)
    ensures WeightOf(a) <= WeightOf(b) && (WeightOf(a) == WeightOf(b) ==> a == b)
    decreases b
  {
    match b
    case Decl(_, _, _, _) =>
    case Comment(_) =>
    case _ => PrunedForestIsLighter(a.children, b.children);
  }

  lemma {:induction false} PrunedForestIsLighter(a: seq<Css>, b: seq<Css>)
    requires PrunedForest(a, b)
    ensures Weight(a) <= Weight(b) && (Weight(a) == Weight(b) ==> a == b)
    decreases b
  {
    if b != [] {
      var init, last := b[..|b| - 1], b[|b| - 1];
      assert WeightOf(last) > 0 && Weight(b) == Weight(init) + WeightOf(last);
      if PrunedForest(a, init) {
        PrunedForestIsLighter(a, init);
      } else {
        var start, end := a[..|a| - 1], a[|a| - 1];
        PrunedForestIsLighter(start, init);
        PrunedIsLighter(end, last);
        assert Weight(a) == Weight(start) + WeightOf(end);
        assert a == start + [end] && b == init + [last];
      }
    }
  }

  /** The three laws leave no choice: a clean pruning that every clean pruning is a pruning of is the result. */
  lemma OnlyOneGreatestCleanPruning(p: Policy, y: seq<Css>, cs: seq<Css>)
    requires CleanNodes(p, y) && PrunedForest(y, cs)
    requires forall x :: CleanNodes(p, x) && PrunedForest(x, cs) ==> PrunedForest(x, y)
    ensures y == SanitizeNodes(p, cs).kept
  {
    var kept := SanitizeNodes(p, cs).kept;
    FixedExactlyWhenClean(p, cs);
    OnlyPrunes(p, cs);
    KeepsGreatestCleanPruning(p, y, cs);
    assert PrunedForest(kept, y);
    PrunedForestIsLighter(kept, y);
    PrunedForestIsLighter(y, kept);
  }

  // ----- one warning for each removed subtree -----

  function OffendingDecl(p: Policy, c: Css): seq<Css> {
    if c.Decl? && (PropertyIsBlocked(p, c.prop) || ValueIsBlocked(p, c.value)) then [c] else []
  }

  /** The offending declarations among the direct children of an accepted rule, in order. */
  function OffendingDecls(p: Policy, cs: seq<Css>): seq<Css> {
    if cs == [] then [] else OffendingDecls(p, cs[..|cs| - 1]) + OffendingDecl(p, cs[|cs| - 1])
  }

  /** The roots of the offending subtrees in document order; nothing inside an offending subtree is listed. */
  function Offenders(p: Policy, cs: seq<Css>): seq<Css>
    decreases cs
  {
    if cs == [] then [] else Offenders(p, cs[..|cs| - 1]) + OffendersIn(p, cs[|cs| - 1])
  }

  function OffendersIn(p: Policy, c: Css): seq<Css>
    decreases c
  {
    match c
    case Rule(selector, _, children) =>
      if Judge(p, p.parseSelector(selector)).Dropped? then [c] else OffendingDecls(p, children)
    case AtRule(name, _, _, children) => if AtRuleIsBlocked(p, name) then [c] else Offenders(p, children)
    case _ => []
  }

  /** `w` names the kind, the line and the reason of the removed node `c`. */
  predicate Reports(p: Policy, w: Warning, c: Css) {
    match c
    case Rule(selector, line, _) =>
      var verdict := Judge(p, p.parseSelector(selector));
      verdict.Dropped? && w == Warning(SelectorWarning, verdict.reason, line)
    case AtRule(name, _, line, _) => w == AtRuleWarningFor(name, line)
    case Decl(prop, _, _, line) =>
      w == if PropertyIsBlocked(p, prop) then PropertyWarningFor(prop, line) else ValueWarningFor(prop, line)
    case _ => false
  }

  predicate ReportsAll(p: Policy, ws: seq<Warning>, cs: seq<Css>) {
    |ws| == |cs| && forall i :: 0 <= i < |ws| ==> Reports(p, ws[i], cs[i])
  }

  /** A node by itself: without what is below it, and apart from the important flag. */
  function Bare(c: Css): Css {
    match c
    case Root(_) => Root([])
    case Rule(selector, line, _) => Rule(selector, line, [])
    case AtRule(name, params, line, _) => AtRule(name, params, line, [])
    case Decl(prop, value, _, line) => Decl(prop, value, false, line)
    case Comment(_) => c
  }

  /** All nodes of a forest, at all depths. */
  function Nodes(cs: seq<Css>): multiset<Css>
    decreases cs
  {
    if cs == [] then multiset{} else Nodes(cs[..|cs| - 1]) + NodesOf(cs[|cs| - 1])
  }

  function NodesOf(c: Css): multiset<Css>
    decreases c
  {
    multiset{Bare(c)} + match c
                        case Decl(_, _, _, _) => multiset{}
                        case Comment(_) => multiset{}
                        case _ => Nodes(c.children)
  }

  lemma SumsAssociate(a: multiset<Css>, b: multiset<Css>, c: multiset<Css>)
    ensures a + b + c == a + (b + c)
  {
  }

  lemma SumsRegroup(a: multiset<Css>, b: multiset<Css>, c: multiset<Css>, d: multiset<Css>)
    ensures (a + b) + (c + d) == (a + c) + (b + d)
  {
  }

  lemma NodesSnoc(cs: seq<Css>, last: Css)
    ensures Nodes(cs + [last]) == Nodes(cs) + NodesOf(last)
  {
    assert (cs + [last])[..|cs|] == cs;
  }

  lemma {:induction false} NodesConcat(a: seq<Css>, b: seq<Css>)
    ensures Nodes(a + b) == Nodes(a) + Nodes(b)
    decreases |b|
  {
    if b == [] {
      assert a + b == a;
    } else {
      var init, last := b[..|b| - 1], b[|b| - 1];
      NodesConcat(a, init);
      assert (a + b)[..|a + b| - 1] == a + init && (a + b)[|a + b| - 1] == last;
      SumsAssociate(Nodes(a), Nodes(init), NodesOf(last));
    }
  }

  lemma {:induction false} DeclsWarnings(p: Policy, cs: seq<Css>)
    ensures ReportsAll(p, SanitizeDecls(p, cs).warnings, OffendingDecls(p, cs))
  {
    if cs != [] {
      DeclsWarnings(p, cs[..|cs| - 1]);
    }
  }

  lemma NodesOfOne(c: Css)
    ensures Nodes([c]) == NodesOf(c)
  {
    NodesSnoc([], c);
    assert [] + [c] == [c];
  }

  /** The nodes that an outcome keeps. */
  function NodesKept(o: Outcome): multiset<Css> {
    if o.kept.Some? then NodesOf(o.kept.value) else multiset{}
  }

  /** One more child adds the nodes of its outcome to the kept ones. */
  lemma NodesExtend(f: Filtered, o: Outcome)
    ensures Nodes(Extend(f, o).kept) == Nodes(f.kept) + NodesKept(o)
  {
    if o.kept.Some? {
      NodesSnoc(f.kept, o.kept.value);
    } else {
      assert f.kept + [] == f.kept;
    }
  }

  /** If what is kept and what offends make up the first children and the last, they make up all of them. */
  lemma ConservedStep(f: Filtered, o: Outcome, earlier: seq<Css>, offending: seq<Css>, cs: seq<Css>)
    requires cs != []
    requires Nodes(f.kept) + Nodes(earlier) == Nodes(cs[..|cs| - 1])
    requires NodesKept(o) + Nodes(offending) == NodesOf(cs[|cs| - 1])
    ensures Nodes(Extend(f, o).kept) + Nodes(earlier + offending) == Nodes(cs)
  {
    NodesExtend(f, o);
    NodesConcat(earlier, offending);
    SumsRegroup(Nodes(f.kept), NodesKept(o), Nodes(earlier), Nodes(offending));
  }

  /** A node that is removed is all among the offenders, one that is kept as it is not at all. */
  lemma WhollyConserved(c: Css)
    ensures multiset{} + Nodes([c]) == NodesOf(c) == NodesOf(c) + Nodes([])
  {
    NodesOfOne(c);
  }

  lemma FlagsApart(c: Css)
    requires c.Decl?
    ensures NodesOf(c.(important := false)) == NodesOf(c)
  {
  }

  lemma DeclConserved(p: Policy, c: Css)
    ensures NodesKept(DeclOutcome(p, c)) + Nodes(OffendingDecl(p, c)) == NodesOf(c)
  {
    WhollyConserved(c);
    if c.Decl? {
      FlagsApart(c);
    }
  }

  lemma {:induction false} DeclsConserved(p: Policy, cs: seq<Css>)
    ensures Nodes(SanitizeDecls(p, cs).kept) + Nodes(OffendingDecls(p, cs)) == Nodes(cs)
  {
    if cs != [] {
      var init, last := cs[..|cs| - 1], cs[|cs| - 1];
      DeclsConserved(p, init);
      DeclConserved(p, last);
      ConservedStep(SanitizeDecls(p, init), DeclOutcome(p, last), OffendingDecls(p, init), OffendingDecl(p, last), cs);
    }
  }

  lemma {:induction false} NodeWarnings(p: Policy, c: Css)
    ensures ReportsAll(p, NodeOutcome(p, c).warnings, OffendersIn(p, c))
    decreases c
  {
    match c
    case Rule(_, _, children) => DeclsWarnings(p, children);
    case AtRule(_, _, _, children) => WarningsMatchRemovals(p, children);
    case _ =>
  }

  /** When only its children change, the nodes of a node change with theirs. */
  lemma NodesOfKept(c: Css, kept: Css, offenders: seq<Css>)
    requires !c.Decl? && !c.Comment? && !kept.Decl? && !kept.Comment? && Bare(kept) == Bare(c)
    requires Nodes(kept.children) + Nodes(offenders) == Nodes(c.children)
    ensures NodesOf(kept) + Nodes(offenders) == NodesOf(c)
  {
    SumsAssociate(multiset{Bare(c)}, Nodes(kept.children), Nodes(offenders));
  }

  lemma {:induction false} NodeConserved(p: Policy, c: Css)
    ensures NodesKept(NodeOutcome(p, c)) + Nodes(OffendersIn(p, c)) == NodesOf(c)
    decreases c
  {
    var o := NodeOutcome(p, c);
    if o.kept.None? {
      WhollyConserved(c);
      assert OffendersIn(p, c) == [c];
    } else if c.Rule? {
      DeclsConserved(p, c.children);
      NodesOfKept(c, o.kept.value, OffendingDecls(p, c.children));
    } else if c.AtRule? {
      WarningsMatchRemovals(p, c.children);
      NodesOfKept(c, o.kept.value, Offenders(p, c.children));
    } else {
      WhollyConserved(c);
      assert OffendersIn(p, c) == [];
    }
  }

  /**
   * The warnings report the removed subtrees one to one in document order, and the nodes of the result together
   * with those of the removed subtrees are the nodes of the input, each as often as there, flags apart.
   */
  lemma {:induction false} WarningsMatchRemovals(p: Policy, cs: seq<Css>)
    ensures ReportsAll(p, SanitizeNodes(p, cs).warnings, Offenders(p, cs))
    ensures Nodes(SanitizeNodes(p, cs).kept) + Nodes(Offenders(p, cs)) == Nodes(cs)
    decreases cs
  {
    if cs != [] {
      var init, last := cs[..|cs| - 1], cs[|cs| - 1];
      WarningsMatchRemovals(p, init);
      NodeWarnings(p, last);
      NodeConserved(p, last);
      ConservedStep(SanitizeNodes(p, init), NodeOutcome(p, last), Offenders(p, init), OffendersIn(p, last), cs);
    }
  }

  // ----- the warnings in plain terms -----

  /** The removed node is at fault, and the warning says of what kind, why and on which line. */
  ghost predicate SaysWhy(p: Policy, w: Warning, c: Css) {
    match c
    case Rule(selector, line, _) =>
      w.kind == SelectorWarning && w.line == line && !SafeSelector(p, selector) && ReasonFor(p, selector, w.detail)
    case AtRule(name, _, line, _) =>
      && !(p.lower(name) == "media" && "media" !in p.blockedAtRules)
      && w == Warning(AtRuleWarning, "at-rule \"@" + name + "\" is not allowed", line)
    case Decl(prop, value, _, line) =>
      && !SafeDecl(p, prop, value, false)
      && w == if p.lower(prop) in p.blockedProperties
              then Warning(PropertyWarning, "property \"" + prop + "\" is not allowed", line)
              else Warning(ValueWarning, "value of \"" + prop + "\" contains a disallowed token", line)
    case _ => false
  }

  /** An offender is a node the filter removes for its own sake. */
  predicate AtFault(p: Policy, c: Css) {
    match c
    case Rule(selector, _, _) => Judge(p, p.parseSelector(selector)).Dropped?
    case AtRule(name, _, _, _) => AtRuleIsBlocked(p, name)
    case Decl(prop, value, _, _) => PropertyIsBlocked(p, prop) || ValueIsBlocked(p, value)
    case _ => false
  }

  predicate AllAtFault(p: Policy, cs: seq<Css>) {
    forall i :: 0 <= i < |cs| ==> AtFault(p, cs[i])
  }

  lemma {:induction false} OffendingDeclsAtFault(p: Policy, cs: seq<Css>)
    ensures AllAtFault(p, OffendingDecls(p, cs))
  {
    if cs != [] {
      OffendingDeclsAtFault(p, cs[..|cs| - 1]);
    }
  }

  lemma {:induction false} OffendersInAtFault(p: Policy, c: Css)
    ensures AllAtFault(p, OffendersIn(p, c))
    decreases c
  {
    match c
    case Rule(_, _, children) => OffendingDeclsAtFault(p, children);
    case AtRule(_, _, _, children) => OffendersAtFault(p, children);
    case _ =>
  }

  lemma {:induction false} OffendersAtFault(p: Policy, cs: seq<Css>)
    ensures AllAtFault(p, Offenders(p, cs))
    decreases cs
  {
    if cs != [] {
      OffendersAtFault(p, cs[..|cs| - 1]);
      OffendersInAtFault(p, cs[|cs| - 1]);
    }
  }

  lemma ReportSaysWhy(p: Policy, w: Warning, c: Css)
    requires Reports(p, w, c) && AtFault(p, c)
    ensures SaysWhy(p, w, c)
  {
    match c
    case Rule(selector, _, _) =>
      AcceptedExactlyWhenSafe(p, selector);
      DroppedWithReason(p, selector);
    case Decl(_, value, _, _) => ValueIsBlockedExactly(p, value);
    case _ =>
  }

  /** Each warning, in document order, says why its removed subtree is gone: it is not safe itself. */
  lemma WarningsSayWhy(p: Policy, cs: seq<Css>)
    ensures var warnings, gone := SanitizeNodes(p, cs).warnings, Offenders(p, cs);
            |warnings| == |gone| && forall i :: 0 <= i < |gone| ==> SaysWhy(p, warnings[i], gone[i])
  {
    WarningsMatchRemovals(p, cs);
    OffendersAtFault(p, cs);
    var warnings, gone := SanitizeNodes(p, cs).warnings, Offenders(p, cs);
    forall i | 0 <= i < |gone|
      ensures SaysWhy(p, warnings[i], gone[i])
    {
      ReportSaysWhy(p, warnings[i], gone[i]);
    }
  }

  /** A rule whose selector does not parse is dropped with the parser's message. */
  lemma UnparsableIsDropped(p: Policy, selector: string, line: Option<nat>, children: seq<Css>)
    requires p.parseSelector(selector).Unparsable?
    ensures SanitizeNodes(p, [Rule(selector, line, children)]) ==
            Filtered([], [Warning(SelectorWarning, p.parseSelector(selector).message, line)])
  {
    var rule := Rule(selector, line, children);
    assert [rule][..0] == [];
    assert SanitizeNodes(p, [rule]) == Extend(Filtered([], []), NodeOutcome(p, rule));
  }

  // ----- what the filter does not look into -----

  /** Every declaration is clean, every selector accepted and every at-rule `@media`, wherever in the tree. */
  predicate DeepCleanNode(p: Policy, c: Css)
    decreases c
  {
    match c
    case Rule(selector, _, children) => Judge(p, p.parseSelector(selector)).Accepted? && DeepClean(p, children)
    case AtRule(name, _, _, children) => !AtRuleIsBlocked(p, name) && DeepClean(p, children)
    case Root(children) => DeepClean(p, children)
    case _ => CleanDecl(p, c)
  }

  predicate DeepClean(p: Policy, cs: seq<Css>)
    decreases cs
  {
    forall i :: 0 <= i < |cs| ==> DeepCleanNode(p, cs[i])
  }

  /** The children of an accepted rule other than declarations are kept as they are, and must be clean themselves. */
  predicate CleanApartFromDecls(p: Policy, cs: seq<Css>) {
    forall i :: 0 <= i < |cs| ==> cs[i].Decl? || DeepCleanNode(p, cs[i])
  }

  /**
   * What the filter leaves alone in this node is clean: a stray declaration, and what is nested in a rule that is
   * kept and is not a declaration.
   */
  predicate CleanWhereUnreached(p: Policy, c: Css)
    decreases c
  {
    match c
    case Rule(selector, _, children) =>
      Judge(p, p.parseSelector(selector)).Dropped? || CleanApartFromDecls(p, children)
    case AtRule(name, _, _, children) => AtRuleIsBlocked(p, name) || AllCleanWhereUnreached(p, children)
    case _ => DeepCleanNode(p, c)
  }

  predicate AllCleanWhereUnreached(p: Policy, cs: seq<Css>)
    decreases cs
  {
    forall i :: 0 <= i < |cs| ==> CleanWhereUnreached(p, cs[i])
  }

  lemma DeepCleanExtend(p: Policy, f: Filtered, o: Outcome)
    ensures DeepClean(p, Extend(f, o).kept) <==>
            DeepClean(p, f.kept) && (o.kept.Some? ==> DeepCleanNode(p, o.kept.value))
  {
    var kept := Extend(f, o).kept;
    assert forall i :: 0 <= i < |f.kept| ==> kept[i] == f.kept[i];
    if o.kept.Some? {
      assert kept[|f.kept|] == o.kept.value;
    }
  }

  lemma {:induction false} DeclsDeepClean(p: Policy, cs: seq<Css>)
    ensures DeepClean(p, SanitizeDecls(p, cs).kept) <==> CleanApartFromDecls(p, cs)
  {
    if cs != [] {
      var init, last := cs[..|cs| - 1], cs[|cs| - 1];
      DeclsDeepClean(p, init);
      DeepCleanExtend(p, SanitizeDecls(p, init), DeclOutcome(p, last));
      assert cs == init + [last];
    }
  }

  lemma {:induction false} NodeDeepClean(p: Policy, c: Css)
    ensures var o := NodeOutcome(p, c);
            (o.kept.Some? ==> DeepCleanNode(p, o.kept.value)) <==> CleanWhereUnreached(p, c)
    decreases c
  {
    match c
    case Rule(_, _, children) => DeclsDeepClean(p, children);
    case AtRule(_, _, _, children) => DeepCleanExactly(p, children);
    case _ =>
  }

  /**
   * The result is clean everywhere, and not only where the filter looks, exactly when the stray declarations and
   * the nested contents of the rules that are kept were clean from the start.
   */
  lemma {:induction false} DeepCleanExactly(p: Policy, cs: seq<Css>)
    ensures DeepClean(p, SanitizeNodes(p, cs).kept) <==> AllCleanWhereUnreached(p, cs)
    decreases cs
  {
    if cs != [] {
      var init, last := cs[..|cs| - 1], cs[|cs| - 1];
      DeepCleanExactly(p, init);
      NodeDeepClean(p, last);
      DeepCleanExtend(p, SanitizeNodes(p, init), NodeOutcome(p, last));
      assert cs == init + [last];
    }
  }

  const HIDING := Decl("display", "none", true, None)

  /** A rule nested in an accepted rule, and a declaration outside any rule, are kept whatever they say. */
  lemma NestedAndStrayKept(p: Policy, selector: string, nested: string)
    requires PropertyIsBlocked(p, "display") && Judge(p, p.parseSelector(selector)).Accepted?
    ensures var sheet := [HIDING, Rule(selector, None, [Rule(nested, None, [HIDING])])];
            SanitizeNodes(p, sheet) == Filtered(sheet, []) && !DeepCleanNode(p, sheet[0]) && !DeepCleanNode(p, sheet[1])
  {
    var rule := Rule(selector, None, [Rule(nested, None, [HIDING])]);
    var sheet := [HIDING, rule];
    assert CleanNode(p, rule) && CleanNode(p, HIDING);
    FixedExactlyWhenClean(p, sheet);
    assert !DeepCleanNode(p, HIDING) && !DeepClean(p, [HIDING]) by {
      assert [HIDING][0] == HIDING;
    }
    assert !DeepCleanNode(p, rule.children[0]);
  }

  // ----- the table of blocked at-rules decides nothing -----

  lemma {:induction false} JudgeIgnoresAtRules(p: Policy, q: Policy, nodes: seq<SelectorNode>)
    requires q == p.(blockedAtRules := {})
    ensures BlockedPseudos(p, nodes) == BlockedPseudos(q, nodes)
    decreases nodes
  {
    if nodes != [] {
      JudgeIgnoresAtRules(p, q, nodes[..|nodes| - 1]);
      match nodes[|nodes| - 1]
      case Pseudo(_, arguments) => JudgeIgnoresAtRules(p, q, arguments);
      case Selector(inner) => JudgeIgnoresAtRules(p, q, inner);
      case _ =>
    }
  }

  lemma {:induction false} BlockedInListIgnoresAtRules(p: Policy, q: Policy, selectors: seq<seq<SelectorNode>>)
    requires q == p.(blockedAtRules := {})
    ensures BlockedInList(p, selectors) == BlockedInList(q, selectors)
  {
    if selectors != [] {
      BlockedInListIgnoresAtRules(p, q, selectors[..|selectors| - 1]);
      JudgeIgnoresAtRules(p, q, selectors[|selectors| - 1]);
    }
  }

  lemma {:induction false} DeclsIgnoreAtRules(p: Policy, q: Policy, cs: seq<Css>)
    requires q == p.(blockedAtRules := {})
    ensures SanitizeDecls(p, cs) == SanitizeDecls(q, cs)
  {
    if cs != [] {
      DeclsIgnoreAtRules(p, q, cs[..|cs| - 1]);
      assert DeclOutcome(p, cs[|cs| - 1]) == DeclOutcome(q, cs[|cs| - 1]);
    }
  }

  /** As long as the table does not list `media`, emptying it changes neither the result nor a warning. */
  lemma {:induction false} AtRuleTableIsRedundant(p: Policy, cs: seq<Css>)
    requires "media" !in p.blockedAtRules
    ensures SanitizeNodes(p, cs) == SanitizeNodes(p.(blockedAtRules := {}), cs)
    decreases cs
  {
    var q := p.(blockedAtRules := {});
    if cs != [] {
      AtRuleTableIsRedundant(p, cs[..|cs| - 1]);
      match cs[|cs| - 1]
      case Rule(selector, _, children) =>
        DeclsIgnoreAtRules(p, q, children);
        if p.parseSelector(selector).SelectorList? {
          BlockedInListIgnoresAtRules(p, q, p.parseSelector(selector).selectors);
        }
      case AtRule(_, _, _, children) => AtRuleTableIsRedundant(p, children);
      case _ =>
    }
  }

  /** So it is for the sanitiser's own tables. */
  lemma BrandingAtRuleTableIsRedundant(lower: string -> string, parseSelector: string -> ParsedSelector, cs: seq<Css>)
    ensures var p := BrandingPolicy(lower, parseSelector);
            SanitizeNodes(p, cs) == SanitizeNodes(p.(blockedAtRules := {}), cs)
  {
    AtRuleTableIsRedundant(BrandingPolicy(lower, parseSelector), cs);
  }
}
