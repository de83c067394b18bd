/** The sanitiser itself: nodes are removed from, and flags cleared in, a shared mutable tree. */
module CssSanitizer {
  import opened Counting
  import opened Wrappers
  import opened CssSyntax
  import opened CssSelectors
  import opened CssFilter

  /** The attributes of a node that the sanitiser only reads. */
  datatype Shape =
    | RootShape
    | RuleShape(selector: string, line: Option<nat>)
    | AtRuleShape(name: string, params: string, line: Option<nat>)
    | DeclShape(prop: string, value: string, line: Option<nat>)
    | CommentShape(text: string)

  class WarningLog {
    var entries: seq<Warning>

    constructor ()
      ensures entries == []
    {
      entries := [];
    }

    method Push(w: Warning)
      modifies this
      ensures entries == old(entries) + [w]
    {
      entries := entries + [w];
    }
  }

  class CssNode {
    const shape: Shape
    var important: bool
    var nodes: seq<CssNode>
    var parent: CssNode?
    /** This node and everything that was below it when it was built. */
    ghost const Repr: set<CssNode>

    predicate IsContainer() {
      shape.RootShape? || shape.RuleShape? || shape.AtRuleShape?
    }

    ghost predicate Valid()
      reads this, Repr
      decreases Repr
    {
      && this in Repr
      && (!IsContainer() ==> nodes == [])
      && (forall i :: 0 <= i < |nodes| ==>
            nodes[i] in Repr && nodes[i].Repr < Repr && this !in nodes[i].Repr)
      && (forall i :: 0 <= i < |nodes| ==> nodes[i].parent == this && nodes[i].Valid())
      && (forall i, j :: 0 <= i < j < |nodes| ==> nodes[i].Repr !! nodes[j].Repr)
    }

    /** The tree this node stands for. */
    ghost function Tree(): Css
      requires Valid()
      reads this, Repr
      decreases Repr, 1
    {
      match shape
      case RootShape => Root(Kids())
      case RuleShape(selector, line) => Rule(selector, line, Kids())
      case AtRuleShape(name, params, line) => AtRule(name, params, line, Kids())
      case DeclShape(prop, value, line) => Decl(prop, value, important, line)
      case CommentShape(text) => Comment(text)
    }

    ghost function Kids(): (kids: seq<Css>)
      requires Valid()
      reads this, Repr
      ensures |kids| == |nodes|
      ensures forall i :: 0 <= i < |kids| ==> kids[i] == nodes[i].Tree()
      decreases Repr, 0
    {
      seq(|nodes|, i requires 0 <= i < |nodes| && Valid() reads this, Repr => nodes[i].Tree())
    }

    constructor (shape: Shape, important: bool, children: seq<CssNode>)
      requires !(shape.RootShape? || shape.RuleShape? || shape.AtRuleShape?) ==> children == []
      requires forall i :: 0 <= i < |children| ==> children[i].Valid() && children[i].parent == null
      requires forall i, j :: 0 <= i < j < |children| ==> children[i].Repr !! children[j].Repr
      modifies children
      ensures Valid() && parent == null
      ensures this.shape == shape && this.important == important && nodes == children
      ensures forall i :: 0 <= i < |children| ==> nodes[i].Tree() == old(children[i].Tree())
    {
      this.shape, this.important, this.nodes, this.parent := shape, important, children, null;
      this.Repr := {this} + ReprOf(children);
      new;
      forall i | 0 <= i < |children|
        ensures children[i].Repr <= ReprOf(children)
      {
        InReprOf(children, i);
      }
      forall i | 0 <= i < |children| {
        children[i].parent := this;
      }
      forall i | 0 <= i < |children|
        ensures children[i].Valid() && children[i].Tree() == old(children[i].Tree())
      {
        SameBelow(children[i]);
      }
    }

    static ghost function ReprOf(ns: seq<CssNode>): set<CssNode> {
      if ns == [] then {} else ReprOf(ns[1..]) + ns[0].Repr
    }

    static lemma InReprOf(ns: seq<CssNode>, i: nat)
      requires i < |ns|
      ensures ns[i].Repr <= ReprOf(ns)
    {
      if i > 0 {
        InReprOf(ns[1..], i - 1);
      }
    }

    /** Attaching a node to a parent changes nothing below it. */
    static twostate lemma SameBelow(n: CssNode)
      requires old(n.Valid())
      requires n.nodes == old(n.nodes) && n.important == old(n.important)
      requires forall o :: o in n.Repr && o != n ==> unchanged(o)
      ensures n.Valid() && n.Tree() == old(n.Tree())
    {
      assert n.Kids() == old(n.Kids());
    }

    /** After only child `k`, or what is below it, has changed, only that child's tree differs. */
    twostate lemma ChildChanged(k: nat)
      requires old(Valid()) && nodes == old(nodes) && k < |nodes|
      requires nodes[k].Valid() && nodes[k].parent == this
      requires forall o :: o in Repr && o != this && o !in nodes[k].Repr ==> unchanged(o)
      ensures Valid() && Kids() == old(Kids())[k := nodes[k].Tree()]
    {
    }

    /** After child `k` has been taken out, the other children's trees are left in place. */
    twostate lemma ChildRemoved(k: nat)
      requires old(Valid()) && k < |old(nodes)| && nodes == Without(old(nodes), k)
      requires forall o :: o in Repr && o != this && o !in old(nodes)[k].Repr ==> unchanged(o)
      ensures Valid() && Kids() == Without(old(Kids()), k)
    {
      forall i | 0 <= i < |nodes|
        ensures nodes[i].Valid() && nodes[i].Tree() == Without(old(Kids()), k)[i]
      {
        var j := if i < k then i else i + 1;
        assert nodes[i] == old(nodes)[j];
      }
    }

    /** Detaches this node from its parent. */
    method Remove()
      requires parent != null && parent != this && this in parent.nodes
      requires Distinct(parent.nodes)
      modifies parent`nodes, this`parent
      ensures parent == null
      ensures forall k :: 0 <= k < |old(parent.nodes)| && old(parent.nodes)[k] == this ==>
                old(parent).nodes == Without(old(parent.nodes), k)
    {
      var i := 0;
      while parent.nodes[i] != this
        invariant i < |parent.nodes| && this !in parent.nodes[..i]
        decreases |parent.nodes| - i
      {
        i := i + 1;
      }
      parent.nodes := parent.nodes[..i] + parent.nodes[i + 1..];
      parent := null;
    }
  }

  /** The sequence without its element `k`. */
  function Without<T>(s: seq<T>, k: nat): seq<T>
    requires k < |s|
  {
    s[..k] + s[k + 1..]
  }

  // ----- declarations -----

  predicate Doomed(p: Policy, n: CssNode) {
    n.shape.DeclShape? && (PropertyIsBlocked(p, n.shape.prop) || ValueIsBlocked(p, n.shape.value))
  }

  ghost function DoomedNodes(p: Policy, ns: seq<CssNode>): seq<CssNode> {
    if ns == [] then []
    else
      var last := ns[|ns| - 1];
      DoomedNodes(p, ns[..|ns| - 1]) + if Doomed(p, last) then [last] else []
  }

  lemma {:induction false} DoomedConcat(p: Policy, a: seq<CssNode>, b: seq<CssNode>)
    ensures DoomedNodes(p, a + b) == DoomedNodes(p, a) + DoomedNodes(p, b)
    decreases |b|
  {
    if b == [] {
      assert a + b == a;
    } else {
      DoomedConcat(p, a, b[..|b| - 1]);
      assert (a + b)[..|a + b| - 1] == a + b[..|b| - 1];
    }
  }

  lemma {:induction false} NoneDoomed(p: Policy, ns: seq<CssNode>)
    ensures DoomedNodes(p, ns) == [] <==> forall i :: 0 <= i < |ns| ==> !Doomed(p, ns[i])
  {
    if ns != [] {
      NoneDoomed(p, ns[..|ns| - 1]);
    }
  }

  lemma FirstDoomed(p: Policy, ns: seq<CssNode>) returns (k: nat)
    requires DoomedNodes(p, ns) != []
    ensures k < |ns| && Doomed(p, ns[k]) && ns[k] == DoomedNodes(p, ns)[0]
    ensures DoomedNodes(p, Without(ns, k)) == DoomedNodes(p, ns)[1..]
  {
    NoneDoomed(p, ns);
    k := 0;
    while !Doomed(p, ns[k])
      invariant k < |ns| && forall i :: 0 <= i < k ==> !Doomed(p, ns[i])
      decreases |ns| - k
    {
      k := k + 1;
    }
    DoomedAround(p, ns[..k], ns[k], ns[k + 1..]);
    assert ns == ns[..k] + [ns[k]] + ns[k + 1..];
  }

  lemma DoomedAround(p: Policy, before: seq<CssNode>, doomed: CssNode, after: seq<CssNode>)
    requires Doomed(p, doomed) && forall i :: 0 <= i < |before| ==> !Doomed(p, before[i])
    ensures DoomedNodes(p, before + [doomed] + after) == [doomed] + DoomedNodes(p, after)
    ensures DoomedNodes(p, before + after) == DoomedNodes(p, after)
  {
    NoneDoomed(p, before);
    DoomedConcat(p, before, after);
    assert [] + DoomedNodes(p, after) == DoomedNodes(p, after);
    DoomedConcat(p, before + [doomed], after);
    assert (before + [doomed])[..|before|] == before;
    assert DoomedNodes(p, before + [doomed]) == [] + [doomed] == [doomed];
  }

  lemma {:induction false} KeptConcat(p: Policy, a: seq<Css>, b: seq<Css>)
    ensures SanitizeDecls(p, a + b).kept == SanitizeDecls(p, a).kept + SanitizeDecls(p, b).kept
    decreases |b|
  {
    if b == [] {
      assert a + b == a;
    } else {
      KeptConcat(p, a, b[..|b| - 1]);
      assert (a + b)[..|a + b| - 1] == a + b[..|b| - 1];
    }
  }

  lemma DoomedLeavesNoTrace(p: Policy, cs: seq<Css>, k: nat)
    requires k < |cs| && DeclOutcome(p, cs[k]).kept.None?
    ensures SanitizeDecls(p, Without(cs, k)).kept == SanitizeDecls(p, cs).kept
    ensures AllMarked(p, cs) ==> AllMarked(p, Without(cs, k))
  {
    var before, doomed, after := cs[..k], cs[k], cs[k + 1..];
    assert cs == before + [doomed] + after;
    KeptConcat(p, before, after);
    KeptConcat(p, before + [doomed], after);
    assert (before + [doomed])[..|before|] == before;
    assert SanitizeDecls(p, before).kept + [] == SanitizeDecls(p, before).kept;
  }

  /** A child after the first pass: its important flag is cleared if it will be kept. */
  function Marked(p: Policy, c: Css): Css {
    var o := DeclOutcome(p, c);
    if o.kept.Some? then o.kept.value else c
  }

  lemma {:induction false} MarkingChangesNothingKept(p: Policy, cs: seq<Css>, marked: seq<Css>)
    requires |marked| == |cs| && forall i :: 0 <= i < |cs| ==> marked[i] == Marked(p, cs[i])
    ensures SanitizeDecls(p, marked).kept == SanitizeDecls(p, cs).kept && AllMarked(p, marked)
  {
    if cs != [] {
      var n := |cs| - 1;
      MarkingChangesNothingKept(p, cs[..n], marked[..n]);
    }
  }

  ghost predicate AllMarked(p: Policy, cs: seq<Css>) {
    forall i :: 0 <= i < |cs| ==> Marked(p, cs[i]) == cs[i]
  }

  /** The walk over the live children: it warns, collects what is to go, and clears important flags. */
  method MarkDeclarations(p: Policy, container: CssNode, log: WarningLog) returns (toRemove: seq<CssNode>)
    requires container.Valid()
    modifies container.Repr, log
    ensures container.Valid() && container.parent == old(container.parent)
    ensures toRemove == DoomedNodes(p, container.nodes)
    ensures AllMarked(p, container.Kids())
    ensures SanitizeDecls(p, container.Kids()).kept == SanitizeDecls(p, old(container.Kids())).kept
    ensures log.entries == old(log.entries) + SanitizeDecls(p, old(container.Kids())).warnings
  {
    toRemove := [];
    ghost var ns, kids, logged := container.nodes, container.Kids(), log.entries;
    for i := 0 to |container.nodes|
      invariant container.nodes == ns && container.Valid() && container.parent == old(container.parent)
      invariant HalfMarked(p, ns, kids, i, container.Kids(), toRemove, logged, log.entries)
    {
      toRemove := MarkNext(p, container, kids, i, toRemove, log, logged);
    }
    MarkingDone(p, ns, kids, container.Kids(), toRemove, logged, log.entries);
  }

  /** The first `i` children `ns`, which stood for `kids`, have been walked over, and now all stand for `now`. */
  ghost predicate HalfMarked(p: Policy, ns: seq<CssNode>, kids: seq<Css>, i: nat, now: seq<Css>,
                             toRemove: seq<CssNode>, logged: seq<Warning>, entries: seq<Warning>) {
    && i <= |now| == |kids| == |ns|
    && (forall j :: 0 <= j < i ==> now[j] == Marked(p, kids[j]))
    && (forall j :: i <= j < |kids| ==> now[j] == kids[j])
    && toRemove == DoomedNodes(p, ns[..i])
    && entries == logged + SanitizeDecls(p, kids[..i]).warnings
  }

  lemma MarkingDone(p: Policy, ns: seq<CssNode>, kids: seq<Css>, now: seq<Css>, toRemove: seq<CssNode>,
                    logged: seq<Warning>, entries: seq<Warning>)
    requires HalfMarked(p, ns, kids, |ns|, now, toRemove, logged, entries)
    ensures toRemove == DoomedNodes(p, ns) && AllMarked(p, now)
    ensures SanitizeDecls(p, now).kept == SanitizeDecls(p, kids).kept
    ensures entries == logged + SanitizeDecls(p, kids).warnings
  {
    assert ns[..|ns|] == ns && kids[..|kids|] == kids;
    MarkingChangesNothingKept(p, kids, now);
  }

  lemma MarkingStep(p: Policy, ns: seq<CssNode>, kids: seq<Css>, i: nat, now: seq<Css>,
                    toRemove: seq<CssNode>, logged: seq<Warning>, entries: seq<Warning>)
    requires i < |ns| && HalfMarked(p, ns, kids, i, now, toRemove, logged, entries)
    ensures HalfMarked(p, ns, kids, i + 1, now[i := Marked(p, kids[i])],
                       toRemove + if Doomed(p, ns[i]) then [ns[i]] else [], logged,
                       entries + DeclOutcome(p, kids[i]).warnings)
  {
    assert ns[..i + 1][..i] == ns[..i] && kids[..i + 1][..i] == kids[..i];
  }

  method MarkNext(p: Policy, container: CssNode, ghost kids: seq<Css>, i: nat, collected: seq<CssNode>,
                  log: WarningLog, ghost logged: seq<Warning>) returns (toRemove: seq<CssNode>)
    requires container.Valid() && i < |container.nodes|
    requires HalfMarked(p, container.nodes, kids, i, container.Kids(), collected, logged, log.entries)
    modifies container.nodes[i], log
    ensures container.Valid()
    ensures HalfMarked(p, container.nodes, kids, i + 1, container.Kids(), toRemove, logged, log.entries)
  {
    var decl := container.nodes[i];
    toRemove := collected;
    assert container.Kids()[i] == kids[i] == decl.Tree();
    MarkingStep(p, container.nodes, kids, i, container.Kids(), collected, logged, log.entries);
    if decl.shape.DeclShape? {
      if PropertyIsBlocked(p, decl.shape.prop) {
        log.Push(PropertyWarningFor(decl.shape.prop, decl.shape.line));
        toRemove := toRemove + [decl];
      } else if ValueIsBlocked(p, decl.shape.value) {
        log.Push(ValueWarningFor(decl.shape.prop, decl.shape.line));
        toRemove := toRemove + [decl];
      } else if decl.important {
        decl.important := false;
      }
    }
    container.ChildChanged(i);
    assert decl.Tree() == Marked(p, kids[i]);
  }

  method RemoveAll(p: Policy, container: CssNode, toRemove: seq<CssNode>)
    requires container.Valid() && toRemove == DoomedNodes(p, container.nodes)
    requires AllMarked(p, container.Kids())
    modifies container.Repr
    ensures container.Valid() && container.parent == old(container.parent)
    ensures container.Kids() == SanitizeDecls(p, old(container.Kids())).kept
  {
    ghost var kept := SanitizeDecls(p, container.Kids()).kept;
    for j := 0 to |toRemove|
      invariant container.Valid() && container.parent == old(container.parent) && AllMarked(p, container.Kids())
      invariant DoomedNodes(p, container.nodes) == toRemove[j..]
      invariant SanitizeDecls(p, container.Kids()).kept == kept
    {
      RemoveNext(p, container, toRemove[j..], kept);
    }
    NothingLeftToRemove(p, container);
  }

  method RemoveNext(p: Policy, container: CssNode, toRemove: seq<CssNode>, ghost kept: seq<Css>)
    requires container.Valid() && toRemove == DoomedNodes(p, container.nodes) != []
    requires AllMarked(p, container.Kids()) && SanitizeDecls(p, container.Kids()).kept == kept
    modifies container.Repr
    ensures container.Valid() && container.parent == old(container.parent)
    ensures toRemove[1..] == DoomedNodes(p, container.nodes)
    ensures AllMarked(p, container.Kids()) && SanitizeDecls(p, container.Kids()).kept == kept
  {
    var decl := toRemove[0];
    ghost var k := RemovalStep(p, container);
    decl.Remove();
    container.ChildRemoved(k);
  }

  /** Where the next doomed child is, and that taking it out changes nothing that will be kept. */
  lemma RemovalStep(p: Policy, container: CssNode) returns (k: nat)
    requires container.Valid() && DoomedNodes(p, container.nodes) != [] && AllMarked(p, container.Kids())
    ensures k < |container.nodes| && container.nodes[k] == DoomedNodes(p, container.nodes)[0]
    ensures container.nodes[k].parent == container && Distinct(container.nodes)
    ensures DoomedNodes(p, Without(container.nodes, k)) == DoomedNodes(p, container.nodes)[1..]
    ensures AllMarked(p, Without(container.Kids(), k))
    ensures SanitizeDecls(p, Without(container.Kids(), k)).kept == SanitizeDecls(p, container.Kids()).kept
  {
    k := FirstDoomed(p, container.nodes);
    assert container.Kids()[k] == container.nodes[k].Tree();
    DoomedLeavesNoTrace(p, container.Kids(), k);
  }

  method SanitizeDeclarations(p: Policy, container: CssNode, log: WarningLog)
    requires container.Valid()
    modifies container.Repr, log
    ensures container.Valid() && container.parent == old(container.parent)
    ensures container.Kids() == SanitizeDecls(p, old(container.Kids())).kept
    ensures log.entries == old(log.entries) + SanitizeDecls(p, old(container.Kids())).warnings
  {
    var toRemove := MarkDeclarations(p, container, log);
    RemoveAll(p, container, toRemove);
  }

  lemma NothingLeftToRemove(p: Policy, container: CssNode)
    requires container.Valid() && DoomedNodes(p, container.nodes) == []
    requires AllMarked(p, container.Kids())
    ensures SanitizeDecls(p, container.Kids()).kept == container.Kids()
  {
    NoneDoomed(p, container.nodes);
    forall i | 0 <= i < |container.nodes|
      ensures CleanDecl(p, container.Kids()[i])
    {
      assert container.Kids()[i] == container.nodes[i].Tree();
    }
    DeclsFixedExactlyWhenClean(p, container.Kids());
  }

  // ----- rules and at-rules -----

  ghost predicate Attached(n: CssNode)
    reads n, n.Repr, n.parent
  {
    && n.Valid()
    && n.parent != null && n.parent !in n.Repr
    && n in n.parent.nodes && Distinct(n.parent.nodes)
  }

  /** Child `n` of `q` has met its fate: it is gone, or it stands for what the filter keeps of it. */
  twostate predicate MetFate(p: Policy, n: CssNode, q: CssNode)
    requires old(n.Valid())
    reads n, n.Repr, q
  {
    var kept := NodeOutcome(p, old(n.Tree())).kept;
    if kept.None? then
      forall k :: 0 <= k < |old(q.nodes)| && old(q.nodes)[k] == n ==>
        q.nodes == Without(old(q.nodes), k)
    else
      q.nodes == old(q.nodes) && n.parent == q && n.Valid() && n.Tree() == kept.value
  }

  method SanitizeRule(p: Policy, rule: CssNode, log: WarningLog)
    requires Attached(rule) && rule.shape.RuleShape?
    modifies rule.parent`nodes, rule.Repr, log
    ensures MetFate(p, rule, old(rule.parent))
    ensures log.entries == old(log.entries) + NodeOutcome(p, old(rule.Tree())).warnings
  {
    var verdict := ValidateSelector(p, rule.shape.selector);
    if verdict.Dropped? {
      log.Push(Warning(SelectorWarning, verdict.reason, rule.shape.line));
      rule.Remove();
      return;
    }
    SanitizeDeclarations(p, rule, log);
  }

  method SanitizeAtRule(p: Policy, atRule: CssNode, log: WarningLog)
    requires Attached(atRule) && atRule.shape.AtRuleShape?
    modifies atRule.parent`nodes, atRule.Repr, log
    ensures MetFate(p, atRule, old(atRule.parent))
    ensures log.entries == old(log.entries) + NodeOutcome(p, old(atRule.Tree())).warnings
    decreases atRule.Repr, 1
  {
    var name := p.lower(atRule.shape.name);
    if name in p.blockedAtRules {
      log.Push(AtRuleWarningFor(atRule.shape.name, atRule.shape.line));
      atRule.Remove();
      return;
    }
    if name != "media" {
      log.Push(AtRuleWarningFor(atRule.shape.name, atRule.shape.line));
      atRule.Remove();
      return;
    }
    SanitizeChildren(p, atRule, log);
  }

  /**
   * The first `i` children of the snapshot, which stood for `kids`, have met their fate; the rest are in place.
   * What is left are the nodes `ns`, which stand for `now`.
   */
  ghost predicate Visited(p: Policy, children: seq<CssNode>, kids: seq<Css>, i: nat, ns: seq<CssNode>, now: seq<Css>,
                          logged: seq<Warning>, entries: seq<Warning>) {
    && i <= |children| == |kids|
    && var f := SanitizeNodes(p, kids[..i]);
    && now == f.kept + kids[i..]
    && |ns| == |now| && ns[|f.kept|..] == children[i..]
    && entries == logged + f.warnings
  }

  lemma VisitStep(p: Policy, children: seq<CssNode>, kids: seq<Css>, i: nat, ns: seq<CssNode>, now: seq<Css>,
                  logged: seq<Warning>, entries: seq<Warning>) returns (k: nat)
    requires Visited(p, children, kids, i, ns, now, logged, entries) && i < |children|
    ensures k < |ns| == |now| && ns[k] == children[i] && now[k] == kids[i]
    ensures var o := NodeOutcome(p, kids[i]);
            if o.kept.None? then
              Visited(p, children, kids, i + 1, Without(ns, k), Without(now, k), logged, entries + o.warnings)
            else
              Visited(p, children, kids, i + 1, ns, now[k := o.kept.value], logged, entries + o.warnings)
  {
    var f := SanitizeNodes(p, kids[..i]);
    k := |f.kept|;
    assert kids[..i + 1][..i] == kids[..i];
    assert ns[k] == ns[k..][0] && ns[k + 1..] == ns[k..][1..];
    assert Without(ns, k)[k..] == ns[k + 1..];
  }

  /** The loop over a snapshot of the children, which the root and `@media` blocks share. */
  method SanitizeChildren(p: Policy, container: CssNode, log: WarningLog)
    requires container.Valid()
    modifies container.Repr, log
    ensures container.Valid() && container.parent == old(container.parent)
    ensures container.Kids() == SanitizeNodes(p, old(container.Kids())).kept
    ensures log.entries == old(log.entries) + SanitizeNodes(p, old(container.Kids())).warnings
    decreases container.Repr, 0, 2
  {
    var children := container.nodes;
    ghost var kids, logged := container.Kids(), log.entries;
    for i := 0 to |children|
      invariant container.Valid() && container.parent == old(container.parent)
      invariant Visited(p, children, kids, i, container.nodes, container.Kids(), logged, log.entries)
    {
      VisitNext(p, container, children, kids, i, log, logged);
    }
    assert kids[..|kids|] == kids;
  }

  method VisitNext(p: Policy, container: CssNode, children: seq<CssNode>, ghost kids: seq<Css>, i: nat,
                   log: WarningLog, ghost logged: seq<Warning>)
    requires container.Valid() && i < |children|
    requires Visited(p, children, kids, i, container.nodes, container.Kids(), logged, log.entries)
    modifies container.Repr, log
    ensures container.Valid() && container.parent == old(container.parent)
    ensures Visited(p, children, kids, i + 1, container.nodes, container.Kids(), logged, log.entries)
    decreases container.Repr, 0, 1
  {
    ghost var k := VisitStep(p, children, kids, i, container.nodes, container.Kids(), logged, log.entries);
    VisitChild(p, container, k, children[i], log);
  }

  /** One turn of that loop: rules and at-rules are sanitised, declarations and comments are left alone. */
  method VisitChild(p: Policy, container: CssNode, ghost k: nat, child: CssNode, log: WarningLog)
    requires container.Valid() && k < |container.nodes| && container.nodes[k] == child
    modifies container`nodes, child.Repr, log
    ensures container.Valid()
    ensures var o := NodeOutcome(p, old(child.Tree()));
            && log.entries == old(log.entries) + o.warnings
            && if o.kept.None? then
                 && container.nodes == Without(old(container.nodes), k)
                 && container.Kids() == Without(old(container.Kids()), k)
               else
                 && container.nodes == old(container.nodes)
                 && container.Kids() == old(container.Kids())[k := o.kept.value]
    decreases container.Repr, 0, 0
  {
    ghost var o := NodeOutcome(p, child.Tree());
    if child.shape.RuleShape? {
      SanitizeRule(p, child, log);
    } else if child.shape.AtRuleShape? {
      SanitizeAtRule(p, child, log);
    }
    if o.kept.None? {
      container.ChildRemoved(k);
    } else {
      container.ChildChanged(k);
    }
  }

  method SanitizeBrandingCss(p: Policy, root: CssNode) returns (warnings: seq<Warning>)
    requires root.Valid() && root.shape.RootShape?
    modifies root.Repr
    ensures root.Valid()
    ensures root.Kids() == SanitizeNodes(p, old(root.Kids())).kept
    ensures warnings == SanitizeNodes(p, old(root.Kids())).warnings
  {
    var log := new WarningLog();
    SanitizeChildren(p, root, log);
    warnings := log.entries;
  }

  /** A second run on the same tree warns of nothing and leaves it standing for the same clean forest. */
  method SanitizeTwice(p: Policy, root: CssNode) returns (first: seq<Warning>, second: seq<Warning>)
    requires root.Valid() && root.shape.RootShape?
    modifies root.Repr
    ensures root.Valid()
    ensures root.Kids() == SanitizeNodes(p, old(root.Kids())).kept && CleanNodes(p, root.Kids())
    ensures first == SanitizeNodes(p, old(root.Kids())).warnings && second == []
  {
    ghost var kids := root.Kids();
    FixedExactlyWhenClean(p, kids);
    Idempotent(p, kids);
    first := SanitizeBrandingCss(p, root);
    second := SanitizeBrandingCss(p, root);
  }
}
