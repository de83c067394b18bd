/** The parsed style sheet, the sanitiser's policy tables and its warnings. */
module CssSyntax {
  import opened Wrappers

  /** A node of a parsed selector. `Selector` nodes occur below pseudo-classes, as in `:is(a, b)`. */
  datatype SelectorNode =
    | Pseudo(value: string, arguments: seq<SelectorNode>)
    | Selector(nodes: seq<SelectorNode>)
    | Universal
    | Simple(text: string)

  /** What the selector parser makes of a rule's selector: a comma-separated list, or an error. */
  datatype ParsedSelector =
    | Unparsable(message: string)
    | SelectorList(selectors: seq<seq<SelectorNode>>)

  datatype Css =
    | Root(children: seq<Css>)
    | Rule(selector: string, line: Option<nat>, children: seq<Css>)
    | AtRule(name: string, params: string, line: Option<nat>, children: seq<Css>)
    | Decl(prop: string, value: string, important: bool, line: Option<nat>)
    | Comment(text: string)

  datatype WarningKind = SelectorWarning | PropertyWarning | ValueWarning | AtRuleWarning

  datatype Warning = Warning(kind: WarningKind, detail: string, line: Option<nat>)

  /** The tables of the sanitiser, with case folding and selector parsing supplied by the platform. */
  datatype Policy = Policy(
    lower: string -> string,
    parseSelector: string -> ParsedSelector,
    blockedProperties: set<string>,
    blockedValueSubstrings: seq<string>,
    blockedPseudoElements: set<string>,
    blockedAtRules: set<string>)

  const BLOCKED_PROPERTIES: set<string> := {
    "display", "visibility", "opacity", "pointer-events", "position", "inset", "top", "right", "bottom", "left",
    "z-index", "transform", "clip", "clip-path", "mask", "mask-image", "content", "width", "height", "min-width",
    "min-height", "max-width", "max-height", "overflow", "overflow-x", "overflow-y", "font-size", "letter-spacing",
    "word-spacing", "line-height", "text-indent"
  }
  const BLOCKED_VALUE_SUBSTRINGS: seq<string> := ["url(", "expression(", "@import", "javascript:"]
  const BLOCKED_PSEUDO_ELEMENTS: set<string> := {
    "::before", "::after", "::backdrop", "::marker", ":before", ":after"
  }
  const BLOCKED_AT_RULES: set<string> := {
    "import", "font-face", "keyframes", "charset", "namespace", "supports", "page", "document", "viewport"
  }

  function BrandingPolicy(lower: string -> string, parseSelector: string -> ParsedSelector): Policy {
    Policy(lower, parseSelector, BLOCKED_PROPERTIES, BLOCKED_VALUE_SUBSTRINGS, BLOCKED_PSEUDO_ELEMENTS,
           BLOCKED_AT_RULES)
  }
}
