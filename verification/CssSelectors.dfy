/** Selector validation: one shared drop reason, filled by walks over every member of the list. */
module CssSelectors {
  import opened Wrappers
  import opened CssSyntax

  datatype Verdict = Accepted | Dropped(reason: string)

  const UNIVERSAL_REASON := "universal \"*\" selector not allowed"

  function PseudoReason(value: string): string {
    "pseudo-element \"" + value + "\" not allowed"
  }

  /** The values of the blocked pseudo-elements below `nodes` at any depth, in document order. */
  function BlockedPseudos(p: Policy, nodes: seq<SelectorNode>): seq<string>
    decreases nodes
  {
    if nodes == [] then []
    else BlockedPseudos(p, nodes[..|nodes| - 1]) + BlockedInNode(p, nodes[|nodes| - 1])
  }

  function BlockedInNode(p: Policy, node: SelectorNode): seq<string>
    decreases node
  {
    match node
    case Pseudo(value, arguments) =>
      (if value in p.blockedPseudoElements then [value] else []) + BlockedPseudos(p, arguments)
    case Selector(nodes) => BlockedPseudos(p, nodes)
    case _ => []
  }

  function BlockedInList(p: Policy, selectors: seq<seq<SelectorNode>>): seq<string> {
    if selectors == [] then []
    else BlockedInList(p, selectors[..|selectors| - 1]) + BlockedPseudos(p, selectors[|selectors| - 1])
  }

  predicate HasUniversalChild(selectors: seq<seq<SelectorNode>>) {
    exists i :: 0 <= i < |selectors| && Universal in selectors[i]
  }

  /** The last blocked pseudo-element of the whole list is reported, before any universal selector. */
  function DropReason(p: Policy, selectors: seq<seq<SelectorNode>>): Option<string> {
    var blocked := BlockedInList(p, selectors);
    if blocked != [] then Some(PseudoReason(blocked[|blocked| - 1]))
    else if HasUniversalChild(selectors) then Some(UNIVERSAL_REASON)
    else None
  }

  function Judge(p: Policy, selector: ParsedSelector): Verdict {
    match selector
    case Unparsable(message) => Dropped(message)
    case SelectorList(selectors) =>
      match DropReason(p, selectors)
      case Some(reason) => Dropped(reason)
      case None => Accepted
  }

  /** The drop reason after the blocked pseudo-elements `found` have been walked over. */
  function Overwritten(reason: Option<string>, found: seq<string>): Option<string> {
    if found == [] then reason else Some(PseudoReason(found[|found| - 1]))
  }

  method Walk(p: Policy, nodes: seq<SelectorNode>, before: Option<string>) returns (dropReason: Option<string>)
    ensures dropReason == Overwritten(before, BlockedPseudos(p, nodes))
    decreases nodes
  {
    dropReason := before;
    for i := 0 to |nodes|
      invariant dropReason == Overwritten(before, BlockedPseudos(p, nodes[..i]))
    {
      assert nodes[..i + 1][..i] == nodes[..i];
      match nodes[i] {
        case Pseudo(value, arguments) =>
          if value in p.blockedPseudoElements {
            dropReason := Some(PseudoReason(value));
          }
          dropReason := Walk(p, arguments, dropReason);
        case Selector(inner) =>
          dropReason := Walk(p, inner, dropReason);
        case _ =>
      }
    }
    assert nodes[..|nodes|] == nodes;
  }

  /** What one more member of the list does to the shared reason, given that the universal check may be skipped. */
  lemma DropReasonStep(p: Policy, selectors: seq<seq<SelectorNode>>, member: seq<SelectorNode>)
    ensures DropReason(p, selectors + [member]) ==
            var walked := Overwritten(DropReason(p, selectors), BlockedPseudos(p, member));
            if walked.None? && Universal in member then Some(UNIVERSAL_REASON) else walked
  {
    var longer := selectors + [member];
    assert longer[..|selectors|] == selectors;
    assert HasUniversalChild(longer) <==> HasUniversalChild(selectors) || Universal in member by {
      assert longer[|selectors|] == member;
      assert forall i :: 0 <= i < |selectors| ==> longer[i] == selectors[i];
    }
  }

  method UniversalChild(nodes: seq<SelectorNode>) returns (dropReason: Option<string>)
    ensures dropReason == if Universal in nodes then Some(UNIVERSAL_REASON) else None
  {
    dropReason := None;
    for j := 0 to |nodes|
      invariant dropReason == if Universal in nodes[..j] then Some(UNIVERSAL_REASON) else None
    {
      if nodes[j] == Universal {
        dropReason := Some(UNIVERSAL_REASON);
      }
    }
    assert nodes[..|nodes|] == nodes;
  }

  /** One member of the list, after those before it. */
  method VisitSelector(p: Policy, ghost earlier: seq<seq<SelectorNode>>, selector: seq<SelectorNode>,
                       before: Option<string>)
    returns (dropReason: Option<string>)
    requires before == DropReason(p, earlier)
    ensures dropReason == DropReason(p, earlier + [selector])
  {
    DropReasonStep(p, earlier, selector);
    dropReason := Walk(p, selector, before);
    if dropReason.Some? {
      return;
    }
    dropReason := UniversalChild(selector);
  }

  method ValidateSelector(p: Policy, rawSelector: string) returns (verdict: Verdict)
    ensures verdict == Judge(p, p.parseSelector(rawSelector))
  {
    var parsed := p.parseSelector(rawSelector);
    if parsed.Unparsable? {
      return Dropped(parsed.message);
    }
    var selectors := parsed.selectors;
    var dropReason: Option<string> := None;
    for i := 0 to |selectors|
      invariant dropReason == DropReason(p, selectors[..i])
    {
      assert selectors[..i + 1] == selectors[..i] + [selectors[i]];
      dropReason := VisitSelector(p, selectors[..i], selectors[i], dropReason);
    }
    assert selectors[..|selectors|] == selectors;
    if dropReason.Some? {
      return Dropped(dropReason.value);
    }
    return Accepted;
  }

  lemma {:induction false} BlockedInListMember(p: Policy, selectors: seq<seq<SelectorNode>>)
    ensures BlockedInList(p, selectors) == [] <==>
            forall i :: 0 <= i < |selectors| ==> BlockedPseudos(p, selectors[i]) == []
  {
    if selectors != [] {
      BlockedInListMember(p, selectors[..|selectors| - 1]);
    }
  }

  /** A list is accepted exactly when each of its members alone is. */
  lemma ListAcceptedMemberwise(p: Policy, selectors: seq<seq<SelectorNode>>)
    ensures Judge(p, SelectorList(selectors)).Accepted? <==>
            forall i :: 0 <= i < |selectors| ==> Judge(p, SelectorList([selectors[i]])).Accepted?
  {
    BlockedInListMember(p, selectors);
    forall i | 0 <= i < |selectors|
      ensures Judge(p, SelectorList([selectors[i]])).Accepted? <==>
              BlockedPseudos(p, selectors[i]) == [] && Universal !in selectors[i]
    {
      BlockedInListMember(p, [selectors[i]]);
      assert [selectors[i]][0] == selectors[i];
    }
  }

  /** Following the child indices of `path` down from `nodes` ends at a pseudo node with this value. */
  ghost predicate PseudoAt(nodes: seq<SelectorNode>, path: seq<nat>, value: string)
    decreases |path|, 0
  {
    path != [] && path[0] < |nodes| && PseudoBelow(nodes[path[0]], path[1..], value)
  }

  ghost predicate PseudoBelow(node: SelectorNode, path: seq<nat>, value: string)
    decreases |path|, 1
  {
    match node
    case Pseudo(own, arguments) => if path == [] then own == value else PseudoAt(arguments, path, value)
    case Selector(inner) => PseudoAt(inner, path, value)
    case _ => false
  }

  ghost predicate Reaches(nodes: seq<SelectorNode>, value: string) {
    exists path :: PseudoAt(nodes, path, value)
  }

  ghost predicate ReachesBelow(node: SelectorNode, value: string) {
    exists path :: PseudoBelow(node, path, value)
  }

  /** The walk finds a pseudo-element exactly when some path, however deep, leads to it. */
  lemma {:induction false} BlockedAtAnyDepth(p: Policy, nodes: seq<SelectorNode>, value: string)
    ensures value in BlockedPseudos(p, nodes) <==>
            value in p.blockedPseudoElements && Reaches(nodes, value)
    decreases nodes
  {
    if nodes != [] {
      var n: nat := |nodes| - 1;
      var init, last := nodes[..n], nodes[n];
      BlockedAtAnyDepth(p, init, value);
      BlockedBelowNode(p, last, value);
      if path :| PseudoAt(init, path, value) {
        assert PseudoAt(nodes, path, value);
      }
      if path :| PseudoBelow(last, path, value) {
        assert ([n] + path)[1..] == path;
        assert PseudoAt(nodes, [n] + path, value);
      }
      if path :| PseudoAt(nodes, path, value) {
        assert PseudoAt(init, path, value) || PseudoBelow(last, path[1..], value);
      }
    }
  }

  lemma {:induction false} BlockedBelowNode(p: Policy, node: SelectorNode, value: string)
    ensures value in BlockedInNode(p, node) <==>
            value in p.blockedPseudoElements && ReachesBelow(node, value)
    decreases node
  {
    match node
    case Universal =>
    case Simple(_) =>
    case Pseudo(own, arguments) =>
      BlockedAtAnyDepth(p, arguments, value);
      assert own == value ==> PseudoBelow(node, [], value);
      if path :| PseudoAt(arguments, path, value) {
        assert PseudoBelow(node, path, value);
      }
      if path :| PseudoBelow(node, path, value) {
        assert path == [] || PseudoAt(arguments, path, value);
      }
    case Selector(inner) =>
      BlockedAtAnyDepth(p, inner, value);
      if path :| PseudoAt(inner, path, value) {
        assert PseudoBelow(node, path, value);
      }
      if path :| PseudoBelow(node, path, value) {
        assert PseudoAt(inner, path, value);
      }
  }

  ghost predicate HasBlockedPseudo(p: Policy, nodes: seq<SelectorNode>) {
    exists value :: value in p.blockedPseudoElements && Reaches(nodes, value)
  }

  lemma BlockedExactly(p: Policy, nodes: seq<SelectorNode>)
    ensures BlockedPseudos(p, nodes) != [] <==> HasBlockedPseudo(p, nodes)
  {
    var found := BlockedPseudos(p, nodes);
    if found != [] {
      BlockedAtAnyDepth(p, nodes, found[0]);
    }
    if HasBlockedPseudo(p, nodes) {
      var value :| value in p.blockedPseudoElements && Reaches(nodes, value);
      BlockedAtAnyDepth(p, nodes, value);
    }
  }

  /**
   * A parsed list is dropped exactly when some member holds a blocked pseudo-element at any depth or a
   * universal selector as a direct child.
   */
  lemma DroppedExactly(p: Policy, selectors: seq<seq<SelectorNode>>)
    ensures Judge(p, SelectorList(selectors)).Dropped? <==>
            exists i :: 0 <= i < |selectors| &&
                        (Universal in selectors[i] || HasBlockedPseudo(p, selectors[i]))
  {
    BlockedListExactly(p, selectors);
  }

  // ----- which blocked pseudo-element is reported -----

  /** Document order of paths: a node comes before what is below it. */
  ghost predicate Precedes(a: seq<nat>, b: seq<nat>) {
    b != [] && (a == [] || a[0] < b[0] || (a[0] == b[0] && Precedes(a[1..], b[1..])))
  }

  ghost predicate LastBlockedAt(p: Policy, nodes: seq<SelectorNode>, path: seq<nat>, value: string) {
    && PseudoAt(nodes, path, value) && value in p.blockedPseudoElements
    && forall q, v :: PseudoAt(nodes, q, v) && v in p.blockedPseudoElements ==> q == path || Precedes(q, path)
  }

  ghost predicate LastBlockedBelow(p: Policy, node: SelectorNode, path: seq<nat>, value: string) {
    && PseudoBelow(node, path, value) && value in p.blockedPseudoElements
    && forall q, v :: PseudoBelow(node, q, v) && v in p.blockedPseudoElements ==> q == path || Precedes(q, path)
  }

  lemma {:induction false} LastBlocked(p: Policy, nodes: seq<SelectorNode>) returns (path: seq<nat>)
    requires BlockedPseudos(p, nodes) != []
    ensures LastBlockedAt(p, nodes, path, BlockedPseudos(p, nodes)[|BlockedPseudos(p, nodes)| - 1])
    decreases nodes
  {
    var n: nat := |nodes| - 1;
    var init, last := nodes[..n], nodes[n];
    if BlockedInNode(p, last) != [] {
      var below := LastBelow(p, last);
      path := [n] + below;
      assert path[1..] == below;
      forall q, v | PseudoAt(nodes, q, v) && v in p.blockedPseudoElements
        ensures q == path || Precedes(q, path)
      {
        if q[0] == n {
          assert PseudoBelow(last, q[1..], v);
          assert q == [n] + q[1..];
        }
      }
    } else {
      path := LastBlocked(p, init);
      forall q, v | PseudoAt(nodes, q, v) && v in p.blockedPseudoElements
        ensures q == path || Precedes(q, path)
      {
        if q[0] == n {
          NothingBelow(p, last, q[1..], v);
        } else {
          assert PseudoAt(init, q, v);
        }
      }
    }
  }

  lemma NothingBelow(p: Policy, node: SelectorNode, path: seq<nat>, value: string)
    requires BlockedInNode(p, node) == [] && PseudoBelow(node, path, value)
    ensures value !in p.blockedPseudoElements
  {
    BlockedBelowNode(p, node, value);
  }

  lemma {:induction false} LastBelow(p: Policy, node: SelectorNode) returns (path: seq<nat>)
    requires BlockedInNode(p, node) != []
    ensures LastBlockedBelow(p, node, path, BlockedInNode(p, node)[|BlockedInNode(p, node)| - 1])
    decreases node
  {
    match node
    case Pseudo(own, arguments) =>
      if BlockedPseudos(p, arguments) != [] {
        path := LastBlocked(p, arguments);
        forall q, v | PseudoBelow(node, q, v) && v in p.blockedPseudoElements
          ensures q == path || Precedes(q, path)
        {
          assert q != [] ==> PseudoAt(arguments, q, v);
        }
      } else {
        path := [];
        forall q, v | PseudoBelow(node, q, v) && v in p.blockedPseudoElements
          ensures q == path
        {
          BlockedAtAnyDepth(p, arguments, v);
          assert q != [] ==> PseudoAt(arguments, q, v);
        }
      }
    case Selector(inner) =>
      path := LastBlocked(p, inner);
      forall q, v | PseudoBelow(node, q, v) && v in p.blockedPseudoElements
        ensures q == path || Precedes(q, path)
      {
        assert PseudoAt(inner, q, v);
      }
  }

  /** Member `i` of the list holds the last blocked pseudo-element of the whole list, with this value. */
  ghost predicate LastBlockedOf(p: Policy, selectors: seq<seq<SelectorNode>>, i: nat, value: string) {
    && i < |selectors|
    && (exists path :: LastBlockedAt(p, selectors[i], path, value))
    && forall j :: i < j < |selectors| ==> !HasBlockedPseudo(p, selectors[j])
  }

  lemma {:induction false} LastBlockedInList(p: Policy, selectors: seq<seq<SelectorNode>>) returns (i: nat)
    requires BlockedInList(p, selectors) != []
    ensures LastBlockedOf(p, selectors, i, BlockedInList(p, selectors)[|BlockedInList(p, selectors)| - 1])
  {
    var n: nat := |selectors| - 1;
    if BlockedPseudos(p, selectors[n]) != [] {
      var path := LastBlocked(p, selectors[n]);
      i := n;
    } else {
      i := LastBlockedInList(p, selectors[..n]);
      forall value | value in p.blockedPseudoElements
        ensures !Reaches(selectors[n], value)
      {
        BlockedAtAnyDepth(p, selectors[n], value);
      }
    }
  }

  // ----- the verdict in plain terms -----

  /** The selector parses, and no member has a universal direct child or a blocked pseudo-element at any path. */
  ghost predicate SafeSelector(p: Policy, selector: string) {
    match p.parseSelector(selector)
    case Unparsable(_) => false
    case SelectorList(selectors) =>
      forall i :: 0 <= i < |selectors| ==>
        Universal !in selectors[i] && forall value :: value in p.blockedPseudoElements ==> !Reaches(selectors[i], value)
  }

  /** Why a selector that is not safe is dropped. */
  ghost predicate ReasonFor(p: Policy, selector: string, reason: string) {
    match p.parseSelector(selector)
    case Unparsable(message) => reason == message
    case SelectorList(selectors) =>
      if exists i :: 0 <= i < |selectors| && HasBlockedPseudo(p, selectors[i]) then
        exists i, value :: LastBlockedOf(p, selectors, i, value) &&
                           reason == "pseudo-element \"" + value + "\" not allowed"
      else reason == "universal \"*\" selector not allowed"
  }

  lemma AcceptedExactlyWhenSafe(p: Policy, selector: string)
    ensures Judge(p, p.parseSelector(selector)).Accepted? <==> SafeSelector(p, selector)
  {
    var parsed := p.parseSelector(selector);
    if parsed.SelectorList? {
      DroppedExactly(p, parsed.selectors);
    }
  }

  lemma DroppedWithReason(p: Policy, selector: string)
    requires Judge(p, p.parseSelector(selector)).Dropped?
    ensures ReasonFor(p, selector, Judge(p, p.parseSelector(selector)).reason)
  {
    var parsed := p.parseSelector(selector);
    if parsed.SelectorList? {
      BlockedListExactly(p, parsed.selectors);
      var found := BlockedInList(p, parsed.selectors);
      if found != [] {
        var i := LastBlockedInList(p, parsed.selectors);
        var value := found[|found| - 1];
        assert LastBlockedOf(p, parsed.selectors, i, value);
        assert Judge(p, parsed).reason == "pseudo-element \"" + value + "\" not allowed";
      }
    }
  }

  lemma BlockedListExactly(p: Policy, selectors: seq<seq<SelectorNode>>)
    ensures BlockedInList(p, selectors) != [] <==>
            exists i :: 0 <= i < |selectors| && HasBlockedPseudo(p, selectors[i])
  {
    BlockedInListMember(p, selectors);
    forall i | 0 <= i < |selectors|
      ensures BlockedPseudos(p, selectors[i]) != [] <==> HasBlockedPseudo(p, selectors[i])
    {
      BlockedExactly(p, selectors[i]);
    }
  }
}
