# Verified models of Documenso's self-contained algorithms

Documenso is a service for signing documents. Most of its code wires requests, pages and database rows together;
this project models the algorithms in between that decide something on their own, and proves what they promise.

Each module models one component. Code that changes things in place is written that way: the style-sheet sanitiser
works on a mutable tree of `CssNode` objects and a shared warning log; loops are loops, proved against specification
functions. Code made of expressions is written as functions.

- `CssSyntax`, `CssSelectors`, `CssFilter`, `CssSanitizer`: the sanitiser of custom branding style sheets.
  `CssFilter` is an independent reading on immutable trees, whose laws determine it completely (the result is the
  greatest clean pruning of the input); `CssSanitizer` proves that the in-place code computes it.
- `TextCharacters`: invisible characters in names, written raw or as escapes, on UTF-16 code units.
- `MessageBody`: the whitespace rewrites and the splits of the custom e-mail message.
- `FieldMeta`, `FieldValidation`, `FieldSigning`, `CustomText`: field settings and their validators, what signing
  stores of a value, the gate that required fields must pass, and the stored text of choices.
- `NumberTexts`, `NumberPrinting`, `NumberGrids`: what `parseFloat` reads of a text, the number formats and what their
  texts denote, the printed numbers that fit them, and the numbers that can be read of them.
- `FieldSignability`: which fields can be signed at all, and where set-up and signing disagree on that.
- `FieldOverlap`: overlapping fields in the editor.
- `RecipientPlaceholders`, `EnvelopeIds`: placeholder recipients, legacy ids and the queries by id.
- `Reminders`: the reminder schedule as a state machine.
- `FormBodies`, `AuditDiffs`, `DisposableEmails`: form grouping, audit-log diffs and their replay, throwaway domains.
- `Wrappers`, `Counting`, `Decimal`, `Texts`: options and results, finite counting, numerals, string operations.

`dafny verify dfyconfig.toml` verifies everything.

## Where the code differs from what its surroundings say

The models follow the code. These differences are stated by lemmas:

- The name check is stricter than checking the decoded text: two escapes that together spell one character outside
  the basic plane are refused one by one (`TextCharacters.SplitPairExample`, exact condition in
  `TextCharacters.StricterOnlyOnSplitPairs`).
- `packages/lib/utils/templates.ts:16-18` asks to keep the recogniser of placeholder addresses in step with the
  generator, but they name different domains (`RecipientPlaceholders.GeneratedEmailsAreNotRecognised`).
- The gate for required fields reads settings of whatever type, signing only those of the field's own type
  (`FieldSigning.MismatchedSettingsBlockTheGate`, exact condition in `FieldSignability.CanBeSignedExactly`).
- Set-up accepts required fields that nothing can sign (`FieldSignability.SetUpsThatCannotBeSigned`): text with a limit
  below one character, numbers whose format has no text between the bounds, radio fields without a list of options,
  checkboxes with a length no selection can meet. The exact conditions are in `FieldSignability.TextSetUpCanBeSigned`,
  `NumberSetUpCanBeSigned`, `RadioSetUpCanBeSigned` and `SetUpCanBeSigned`; for dropdowns set-up and signing agree.
- Checkbox rules count indices, so repeating one option satisfies them (`FieldSignability.RepeatedOptionMeetsRule`,
  exact condition in `FieldSignability.RuleOnDifferentOptions`).
- A maximum that is not positive is not enforced (`FieldSignability.ZeroMaximumIsNotEnforced`, exact condition in
  `FieldSignability.BoundsHoldExactly`), and a lone separator passes every bound
  (`FieldSignability.SeparatorIsAccepted`; when no number is read, `NumberTexts.NothingRead`).
- The bounds are applied to what `parseFloat` reads and not to the number that a formatted text denotes
  (`FieldSignability.ThousandsPass`, exact condition in `FieldSignability.MaximumHoldsExactly`).
- The sanitiser keeps whatever is nested in an accepted rule besides declarations (`CssFilter.NestedAndStrayKept`,
  exact condition in `CssFilter.DeepCleanExactly`).
- The stored text of an empty radio field reads as the first option (`CustomText.EmptyRadioTextReadsAsFirstOption`).
- The two form parsers group differently on keys in brackets and on inherited names (`FormBodies.GroupingsAgree`).
- The table of blocked at-rules decides nothing (`CssFilter.BrandingAtRuleTableIsRedundant`).

## Model

| member | source | states |
|---|---|---|
| `CssSanitizer.SanitizeBrandingCss` | packages/lib/utils/sanitize-branding-css.ts:294-305 | For every tree, the in-place run leaves the root standing for exactly the forest the filter keeps, and its warnings are exactly the filter's, in order; the whole tree stays well formed (every child listed once, under its own parent). |
| `CssSanitizer.SanitizeTwice` | packages/lib/utils/sanitize-branding-css.ts:271-323 | After one run the forest is clean; a second run on the same tree warns of nothing and leaves the forest as it is. |
| `CssSanitizer.SanitizeChildren` | packages/lib/utils/sanitize-branding-css.ts:239-251 | The loop over a snapshot deals with every child exactly once although the live list shrinks under it; its result and warnings are the filter's on the children as they were. |
| `CssSanitizer.VisitNext` | packages/lib/utils/sanitize-branding-css.ts:298-305 | One turn of that loop: after `i + 1` snapshot entries the live list holds the survivors of the first `i + 1` followed by the untouched rest. |
| `CssSanitizer.VisitChild` | packages/lib/utils/sanitize-branding-css.ts:242-250 | Handling one child takes out exactly that child, or changes exactly that child's subtree, and nothing beside it. |
| `CssSanitizer.SanitizeRule` | packages/lib/utils/sanitize-branding-css.ts:192-211 | A rule with a refused selector is detached with one selector warning; any other keeps its place, selector and line and loses what the declaration filter drops. |
| `CssSanitizer.SanitizeAtRule` | packages/lib/utils/sanitize-branding-css.ts:213-251 | An at-rule other than `@media` is detached with one warning; an `@media` block is sanitised inside and keeps its name, parameters and place. |
| `CssSanitizer.SanitizeDeclarations` | packages/lib/utils/sanitize-branding-css.ts:149-190 | Mark first, remove afterwards: the remaining children are the ones the declaration filter keeps, flags cleared, in order; one warning for each removed declaration. |
| `CssSanitizer.MarkDeclarations` | packages/lib/utils/sanitize-branding-css.ts:152-185 | The walk over live children collects exactly the offending declarations, in order, warns of each once, and clears the important flag of every other. |
| `CssSanitizer.RemoveAll` | packages/lib/utils/sanitize-branding-css.ts:187-189 | Removing the collected declarations one by one leaves exactly the kept children, in order. |
| `CssSanitizer.CssNode.Remove` | packages/lib/utils/sanitize-branding-css.ts:187-199 | Detaching a node drops it from its parent's list, keeps the order of its siblings and clears its parent link. |
| `CssSanitizer.CssNode.ChildRemoved` | packages/lib/utils/sanitize-branding-css.ts:187-189 | Taking one child out leaves the trees of its siblings in place and the parent well formed. |
| `CssSanitizer.CssNode.ChildChanged` | packages/lib/utils/sanitize-branding-css.ts:182-184 | A change below one child changes that child's tree only. |
| `CssFilter.FixedExactlyWhenClean` | packages/lib/utils/sanitize-branding-css.ts:192-251 | The result is clean at every depth reached through `@media`: accepted selectors, no direct declaration with a blocked property, a blocked value or the important flag, no at-rule but `@media`. A forest is left alone without a warning if and only if it is clean. |
| `CssFilter.NodeCleaned` | packages/lib/utils/sanitize-branding-css.ts:192-251 | The same for one node: what is kept of it is clean, and it is kept unchanged without a warning if and only if it was. |
| `CssFilter.DeclsFixedExactlyWhenClean` | packages/lib/utils/sanitize-branding-css.ts:149-190 | The same for the direct children of an accepted rule. |
| `CssFilter.Idempotent` | packages/lib/utils/sanitize-branding-css.ts:149-251 | Sanitising a sanitised forest removes nothing and warns of nothing. |
| `CssFilter.OnlyPrunes` | packages/lib/utils/sanitize-branding-css.ts:149-251 | The result is the input with some subtrees deleted and some important flags cleared: survivors keep their order and content. |
| `CssFilter.KeepsGreatestCleanPruning` | packages/lib/utils/sanitize-branding-css.ts:149-251 | Nothing is removed needlessly: every clean pruning of the input is a pruning of the result. |
| `CssFilter.OnlyOneGreatestCleanPruning` | packages/lib/utils/sanitize-branding-css.ts:149-251 | The last three laws determine the result: a clean pruning of the input that every clean pruning is a pruning of is the sanitised forest. |
| `CssFilter.ResultIsSafe` | packages/lib/utils/sanitize-branding-css.ts:149-251 | In the words of the parser and the tables: every rule that is reached in the result has a selector that parses, without a blocked pseudo-element at any path of child indices and without a universal selector as direct child of a member; no declaration of it has a blocked property or value or the important flag; every at-rule so reached is `@media`. A forest is left alone without a warning if and only if all this holds of it already. |
| `CssFilter.WarningsMatchRemovals` | packages/lib/utils/sanitize-branding-css.ts:149-251 | The warnings report the removed subtrees one to one in document order, with kind, reason and line; kept and removed nodes together are the nodes of the input, each as often as there, important flags apart. |
| `CssFilter.WarningsSayWhy` | packages/lib/utils/sanitize-branding-css.ts:149-251 | Warning by warning: the removed subtree is a rule with an unsafe selector, and the warning carries the parser's message or the reason; or another at-rule than `@media`; or a declaration with a blocked property or value; each with its text and line. |
| `CssFilter.UnparsableIsDropped` | packages/lib/utils/sanitize-branding-css.ts:129-133 | A rule whose selector does not parse is dropped, whatever it holds, with one warning: the parser's message. |
| `CssFilter.DeepCleanExactly` | packages/lib/utils/sanitize-branding-css.ts:192-251 | The result is clean everywhere, and not only where the sanitiser looks, if and only if the stray declarations and what is nested in the kept rules besides declarations were clean from the start. |
| `CssFilter.NestedAndStrayKept` | packages/lib/utils/sanitize-branding-css.ts:192-251 | A rule nested in an accepted rule and a declaration outside any rule are kept without a warning, whatever they say. |
| `CssFilter.AtRuleTableIsRedundant` | packages/lib/utils/sanitize-branding-css.ts:213-237 | As long as the table of blocked at-rules does not list `media`, emptying it changes neither the result nor any warning: the test for `media` alone decides. |
| `CssFilter.BrandingAtRuleTableIsRedundant` | packages/lib/utils/sanitize-branding-css.ts:73-83 | So it is for the table as it stands. |
| `CssSelectors.ValidateSelector` | packages/lib/utils/sanitize-branding-css.ts:92-141 | One shared drop reason, kept across the members of the list and never cleared, with the early return: the verdict and its text are those of the independent reading (last blocked pseudo-element of the whole list, else the universal selector). |
| `CssSelectors.Walk` | packages/lib/utils/sanitize-branding-css.ts:97-107 | The recursive walk overwrites the reason exactly with the last blocked pseudo-element below it. |
| `CssSelectors.UniversalChild` | packages/lib/utils/sanitize-branding-css.ts:117-121 | The inner loop reports a universal selector exactly when one is a direct child. |
| `CssSelectors.BlockedAtAnyDepth` | packages/lib/utils/sanitize-branding-css.ts:97-107 | The walk meets a blocked pseudo-element if and only if some path of child indices, however deep, leads to it. |
| `CssSelectors.DroppedExactly` | packages/lib/utils/sanitize-branding-css.ts:92-141 | A parsed list is dropped if and only if some member has a blocked pseudo-element at any depth or a universal selector as a direct child. |
| `CssSelectors.AcceptedExactlyWhenSafe` | packages/lib/utils/sanitize-branding-css.ts:92-141 | A selector is accepted if and only if it parses and no member of its list has a blocked pseudo-element at any path or a universal selector as a direct child. |
| `CssSelectors.DroppedWithReason` | packages/lib/utils/sanitize-branding-css.ts:92-141 | The reason is the parser's message when the selector does not parse, else the blocked pseudo-element that comes last in reading order of all members, else the universal selector. |
| `CssSelectors.ListAcceptedMemberwise` | packages/lib/utils/sanitize-branding-css.ts:92-141 | Despite the shared flag, a list is accepted if and only if each of its members alone is. |
| `TextCharacters.HasInvalidEscapeSequence` | packages/lib/types/name.ts:29-47 | The leftmost non-overlapping scan with early exit finds an escape of an invalid character if and only if one starts at some position of the text: no position is missed. |
| `TextCharacters.HasInvalidTextCharacters` | packages/lib/types/name.ts:49-50 | The short-circuit of the two checks. |
| `TextCharacters.NoEscapeInside` | packages/lib/types/name.ts:29 | No escape starts inside another one, which is why skipping a match skips nothing. |
| `TextCharacters.EscapeIsExact` | packages/lib/types/name.ts:29-33 | Every text that the escape pattern denotes is found at the start of a text, with its value, and no other escape can be: a prefix fixes the match. |
| `TextCharacters.EscapeIsFound` | packages/lib/types/name.ts:29-33 | Conversely, what is found is a text of the pattern, with the value of its digits. |
| `TextCharacters.RejectedExactlyWhenDecodingInvalid` | packages/lib/types/name.ts:29-50 | For every UTF-16 text: it is rejected if and only if the sequence of code points it decodes to (each escape of value at most 0x10FFFF decoded once, surrogate pairs of the text itself joined) holds an invalid one. |
| `TextCharacters.StricterOnlyOnSplitPairs` | packages/lib/types/name.ts:29-50 | Decoded to UTF-16 and read again, the statement holds one way only: the two differ if and only if the decoding holds a high surrogate next to a low one and is clean once they are joined. |
| `TextCharacters.SplitPairExample` | packages/lib/types/name.ts:38-43 | The twelve characters that escape an emoji's two surrogates are such a text: rejected, though they decode to the emoji. |
| `TextCharacters.EncodedReadsRejoined` | packages/lib/types/name.ts:41 | Encoding code points as UTF-16 and reading them back joins exactly the adjacent surrogate pairs. |
| `TextCharacters.BracedEscapeIsRead` | packages/lib/types/name.ts:29-33 | The braced escape of any number, with `u` and digits in either case and whatever follows, is recognised as that number and with its whole length. |
| `TextCharacters.FourDigitEscape` | packages/lib/types/name.ts:29-33 | Four hexadecimal digits after `\u` read as the number they denote. |
| `TextCharacters.HexDigitsExactly` | packages/lib/types/name.ts:29-33 | The hexadecimal digits are those of the pattern, in either case, with their values. |
| `TextCharacters.UnseenIsRefused` | packages/lib/types/name.ts:20-27 | A text that holds a character of the basic plane which is of category C or another of the invisible ones is refused, wherever it stands. |
| `TextCharacters.EscapedUnseenIsRefused` | packages/lib/types/name.ts:29-47 | So is a text that holds its braced escape, wherever it stands and in either case of its letters. |
| `TextCharacters.SeenIsAccepted` | packages/lib/types/name.ts:49-50 | A text without a backslash and without such a character is accepted. |
| `TextCharacters.EscapeBeyondIsAccepted` | packages/lib/types/name.ts:34-43 | The escape of a number beyond the last code point is let through. |
| `MessageBody.BlankMatchIsLongest` | packages/email/template-components/template-custom-message-body.tsx:15 | The backtracking scanner of the blank-line pattern finds a match if and only if there is one, and the longest. |
| `MessageBody.BreaksUnifiedOneByOne` | packages/email/template-components/template-custom-message-body.tsx:14 | Text cut anywhere but inside a break is rewritten part by part. |
| `MessageBody.SingleUnified` | packages/email/template-components/template-custom-message-body.tsx:14 | A carriage return, alone or with the newline that follows it, becomes a newline; every other character stays. With the row above this fixes the rewrite of every text. |
| `MessageBody.BlankLinesOfARun` | packages/email/template-components/template-custom-message-body.tsx:15 | In a run of whitespace that ends before something visible, or at the end, a single newline stays and several become two, with the blanks before the first and after the last newline kept. |
| `MessageBody.PlainRunKept` | packages/email/template-components/template-custom-message-body.tsx:15 | Text without newlines stays as it is, whatever follows it; with the row above this fixes the rewrite of every text. |
| `MessageBody.LastRewriteIsRedundant` | packages/email/template-components/template-custom-message-body.tsx:15-16 | On every text, the last rewrite changes nothing after the one before it. |
| `MessageBody.NormalizedInSteps` | packages/email/template-components/template-custom-message-body.tsx:12-16 | Exactly the whitespace at both ends goes, and what is between is rewritten by the line-break and the blank-line rewrite and by nothing else. |
| `Texts.WhitespaceTrims` | packages/email/template-components/template-custom-message-body.tsx:13-15 | What counts as whitespace: the 25 characters of sections 12.2 and 12.3 of ECMA-262, and no other. |
| `MessageBody.NormalizedIsSpaced` | packages/email/template-components/template-custom-message-body.tsx:12-16 | A text with something visible is normalised to one with visible ends in which something visible stands between any two line breaks except the two of one blank line; any other text to nothing; carriage returns never remain. |
| `MessageBody.EveryLineIsVisible` | packages/email/template-components/template-custom-message-body.tsx:12-24 | Every line of every paragraph of a visible text has a visible character. |
| `MessageBody.ParagraphsAndLinesAreCut` | packages/email/template-components/template-custom-message-body.tsx:17-24 | No paragraph holds a blank line and no line a newline; the lines of a paragraph joined by newlines are the paragraph, and the paragraphs joined by blank lines are the normalised text. |
| `MessageBody.ParagraphsAreAFixedPoint` | packages/email/template-components/template-custom-message-body.tsx:12-18 | Joining the paragraphs with blank lines gives the normalised text, and normalising that again changes nothing. |
| `MessageBody.NoInkLost` | packages/email/template-components/template-custom-message-body.tsx:12-24 | The visible characters of the paragraphs, and of the lines of each, are those of the text, all of them and in order. |
| `FieldSigning.ExtractionOutcome` | packages/lib/utils/envelope-signing.ts:33-253 | Each value of each type is refused, clears the field or is inserted, never two of these: it is inserted if and only if it is acceptable in terms of the settings, gives the empty result if and only if it clears the field, and fails on the settings if and only if they are needed and are not of its type. |
| `FieldSigning.StoredVerbatim` | packages/lib/utils/envelope-signing.ts:33-253 | What is stored: the value itself, the formatted date, or nothing for a signature. |
| `FieldSigning.SelectionExactly` | packages/lib/utils/envelope-signing.ts:162-206 | A checkbox selection is accepted if and only if it is not empty, each index is a whole number below the number of options, and, where a length other than zero is set, the number of indices is at least, at most or exactly that, whichever the rule says. |
| `FieldSigning.GateIsExact` | packages/lib/utils/advanced-fields-helpers.ts:18-49 | When the fields hold what signing made of values of their types, no required field is unsigned if and only if every required field received an acceptable value; and then each such field holds a non-empty text, signatures and dates excepted. |
| `FieldSigning.GateLetsPassExactly` | packages/lib/utils/advanced-fields-helpers.ts:7-49 | The gate lets a list of fields pass if and only if every signature (of either type), initials, name, e-mail and date field is inserted, and so is every field of the other types whose settings fit a schema and say required. |
| `FieldSigning.RequiredTextIsStored` | packages/lib/utils/envelope-signing.ts:33-253 | The stored text of an acceptable value of a required field is not empty, signatures and dates excepted. |
| `FieldSigning.RequiredByItsSettings` | packages/lib/utils/advanced-fields-helpers.ts:18-39 | A field of optional type is required if and only if its settings fit the schema of some type, not necessarily its own, and say so. |
| `FieldSigning.MismatchedSettingsBlockTheGate` | packages/lib/utils/advanced-fields-helpers.ts:18-44 | A required field whose settings are of another type accepts no value, and nothing gets it past the gate. The exact condition, for all types and settings, is in the rows of `FieldSignability`. |
| `FieldSignability.CanBeSignedExactly` | packages/lib/utils/envelope-signing.ts:33-253 | For every type and all settings: some value of the type is accepted if and only if the settings fit the schema of that very type where it needs any, and leave something to fill in, by a condition on the settings of each type. |
| `FieldSignability.GateCanBePassedExactly` | packages/lib/utils/advanced-fields-helpers.ts:18-49 | Some values of their types get a list of fields past the gate if and only if every required field leaves something to fill in. |
| `FieldSignability.TextCanBeFilledExactly` | packages/lib/advanced-fields-validation/validate-text.ts:3-33 | Some text is accepted if and only if the field is not both read-only and required, and its limit is not below one character while it needs one. |
| `FieldSignability.NumberCanBeFilledExactly` | packages/lib/advanced-fields-validation/validate-number.ts:5-65 | Some text is accepted if and only if the flags and the bounds do not contradict each other and there is no format, or a known one of whose texts a number between the bounds in force can be read, by a closed form for each format. |
| `FieldSignability.DropdownCanBeFilledExactly` | packages/lib/advanced-fields-validation/validate-dropdown.ts:3-54 | Some text is accepted if and only if the flags do not contradict each other and the options, if there is a list of them, are some, different, not empty and include the default. |
| `FieldSignability.AnyTextIsChosenWithoutOptions` | packages/lib/advanced-fields-validation/validate-dropdown.ts:33-35 | Without a list of options, any non-empty text is accepted. |
| `FieldSignability.CheckboxCanBeFilledExactly` | packages/lib/utils/envelope-signing.ts:162-206 | Some selection is accepted if and only if there are options and the rule in force does not bound the number from above by less than one and does not want a number that is not whole or less than one. |
| `FieldSignability.TextSetUpCanBeSigned` | packages/lib/server-only/field/set-fields-for-document.ts:137-144 | A text field that passes set-up can be signed if and only if it is not required with a limit between zero and one. |
| `FieldSignability.NumberSetUpCanBeSigned` | packages/lib/server-only/field/set-fields-for-document.ts:146-154 | A number field that passes set-up can be signed if and only if its format can be met within its bounds; with a value set up it always can. |
| `FieldSignability.DropdownSetUpCanBeSigned` | packages/lib/server-only/field/set-fields-for-document.ts:187-194 | A dropdown passes set-up if and only if it can be signed. |
| `FieldSignability.RadioSetUpCanBeSigned` | packages/lib/server-only/field/set-fields-for-document.ts:172-181 | A radio field that passes set-up can be signed if and only if it has a list of options at all. |
| `FieldSignability.SetUpCanBeSigned` | packages/lib/server-only/field/set-fields-for-document.ts:156-166 | Checkbox settings that pass set-up have a selection that signing accepts if and only if the rule in force does not bound the number from above by less than one and does not want a number that is not whole; and then they have one of different options. |
| `FieldSignability.PositiveWholeLengthsCanBeSigned` | packages/lib/server-only/field/set-fields-for-document.ts:156-166 | So with a positive whole length whenever a rule is set, every set-up can be signed by different options. |
| `FieldSignability.SetUpsThatCannotBeSigned` | packages/lib/server-only/field/set-fields-for-document.ts:137-185 | Required fields of the types text, number, radio and checkbox whose set-up passes and that nothing can sign. |
| `FieldSignability.RuleOnDifferentOptions` | packages/lib/utils/envelope-signing.ts:175-195 | The length rule counts indices. Counted by different options, an accepted selection meets it too: always when it bounds from above, if and only if nothing is repeated when it fixes the number, and if and only if no more is repeated than there is to spare when it bounds from below. |
| `FieldSignability.RepeatedOptionMeetsRule` | packages/lib/utils/envelope-signing.ts:175-195 | Naming the first option `n` times, which is one option, meets any rule that wants `n`. |
| `FieldSignability.BoundsHoldExactly` | packages/lib/advanced-fields-validation/validate-number.ts:36-42 | The number read of an accepted text is within the bounds if and only if there is one, and no maximum of zero or less is set, except zero for the number zero. |
| `FieldSignability.ZeroMaximumIsNotEnforced` | packages/lib/advanced-fields-validation/validate-number.ts:40-42 | A maximum of zero lets the text `7` through. |
| `FieldSignability.SeparatorIsAccepted` | packages/lib/advanced-fields-validation/validate-number.ts:26-42 | Without a format, a lone comma, which is read as no number, is accepted whatever the bounds. |
| `FieldSignability.MaximumHoldsExactly` | packages/lib/advanced-fields-validation/validate-number.ts:40-42 | Every maximum in force holds of the number that a formatted text denotes if and only if that is the number read. |
| `FieldSignability.MinimumHoldsOfDenoted` | packages/lib/advanced-fields-validation/validate-number.ts:36-38 | Every minimum holds of the number that an accepted formatted text denotes. |
| `FieldSignability.ThousandsPass` | packages/lib/advanced-fields-validation/validate-number.ts:26-42 | A number of thousands, grouped by a comma, passes every maximum that is at least as many as there are thousands. |
| `NumberTexts.ReadsWhatItDenotes` | packages/lib/advanced-fields-validation/validate-number.ts:14-26 | Of a text in a format of the table, `parseFloat` reads a number that is never more than the one it denotes, and that number if and only if the text has no group separators and no cents behind a comma, or only zeros. |
| `NumberTexts.ParseOfNumberText` | packages/lib/advanced-fields-validation/validate-number.ts:26-34 | Of a text of digits, commas and points, with whitespace around it, only the leading digits and those behind a point that follows them matter; signs, exponents and infinities play no part. |
| `NumberTexts.NothingRead` | packages/lib/advanced-fields-validation/validate-number.ts:26 | Of such a text no number is read if and only if it starts neither with a digit nor with a point and a digit. |
| `NumberTexts.ThousandsAreReadAsOnes` | packages/ui/primitives/document-flow/field-items-advanced-settings/constants.ts:2-6 | `1,000` fits the first format, denotes a thousand and is read as 1, and likewise for all such numbers of thousands. |
| `NumberPrinting.GroupedExactly` | packages/ui/primitives/document-flow/field-items-advanced-settings/constants.ts:1-17 | A grouped whole number is one to three digits and any number of separators followed by three digits each, and nothing else is one. |
| `NumberPrinting.FitsGroupedExactly` | packages/ui/primitives/document-flow/field-items-advanced-settings/constants.ts:2-11 | A text fits one of the first two formats if and only if it is a grouped or an ungrouped whole number with none, one or two cent digits behind the other sign. |
| `NumberPrinting.FitsLastCommaExactly` | packages/ui/primitives/document-flow/field-items-advanced-settings/constants.ts:12-16 | A text fits the third format if and only if it is digits and, optionally, a comma with one to three more digits, which in turn one or two cent digits behind a point may follow. |
| `NumberPrinting.PrintedNumbersFit` | packages/ui/primitives/document-flow/field-items-advanced-settings/constants.ts:1-11 | Every natural number printed in groups of three, with either separator and with none, one or two cent digits behind the other sign, fits the format of that separator and denotes that number. |
| `NumberPrinting.UngroupedNumbersFit` | packages/ui/primitives/document-flow/field-items-advanced-settings/constants.ts:1-17 | Printed without groups, it fits every format and denotes itself. |
| `NumberPrinting.LastCommaDenotes` | packages/ui/primitives/document-flow/field-items-advanced-settings/constants.ts:12-16 | In the third format the digits on both sides of the comma denote one number. |
| `NumberPrinting.LiteralIsRead` | packages/lib/advanced-fields-validation/validate-number.ts:26 | `parseFloat` reads a decimal literal as the number it is written for, whichever sign stands in front, scaled by the exponent that follows. |
| `NumberPrinting.ExponentIs` | packages/lib/advanced-fields-validation/validate-number.ts:26 | The exponent is read of either letter, with either sign or none. |
| `NumberGrids.ReadIsOnGrid` | packages/ui/primitives/document-flow/field-items-advanced-settings/constants.ts:1-17 | The numbers read of texts in a format are hundredths, whole numbers, or whole numbers and thousandths below a thousand, depending on the format. |
| `NumberGrids.GridIsRead` | packages/ui/primitives/document-flow/field-items-advanced-settings/constants.ts:1-17 | Conversely, each of these numbers is read of some text in the format. |
| `NumberGrids.TextBetweenExactly` | packages/ui/primitives/document-flow/field-items-advanced-settings/constants.ts:1-17 | Some text of the format is read as a number between two bounds if and only if the largest of these numbers below the upper bound reaches the lower one. |
| `FieldValidation.ValidateTextField` | packages/lib/advanced-fields-validation/validate-text.ts:3-33 | The list holds a complaint if and only if it has cause, by a condition for each kind, none twice, in a fixed order. |
| `FieldValidation.ValidateNumberField` | packages/lib/advanced-fields-validation/validate-number.ts:5-65 | The same for numbers, with the format table, the number texts and `parseFloat` written out. |
| `FieldValidation.ValidateDropdownField` | packages/lib/advanced-fields-validation/validate-dropdown.ts:3-54 | The same for dropdowns; only a default value without any option is complained of twice, the second time at the end. |
| `FieldValidation.ValidateRadioField` | packages/lib/advanced-fields-validation/validate-radio.ts:3-37 | The same for radio fields. |
| `FieldValidation.ValidateCheckboxField` | packages/lib/advanced-fields-validation/validate-checkbox.ts:6-74 | The same for checkboxes; the three branches of the length rule collapse to one condition for each page. |
| `FieldValidation.TextSilent` | packages/lib/advanced-fields-validation/validate-text.ts:3-33 | On the signing page and at set-up alike, when there is nothing to complain of; only on the signing page does a required field need a text. |
| `FieldValidation.NumberSilent` | packages/lib/advanced-fields-validation/validate-number.ts:5-65 | The same for numbers: at set-up an empty value is no complaint. |
| `FieldValidation.DropdownSilent` | packages/lib/advanced-fields-validation/validate-dropdown.ts:3-54 | The same for dropdowns: at set-up no option needs to be chosen. |
| `FieldValidation.RadioSilent` | packages/lib/advanced-fields-validation/validate-radio.ts:3-37 | The same for radio fields: at set-up no list of options is needed unless the field is read-only. |
| `FieldValidation.CheckboxSilentAtSetUp` | packages/lib/advanced-fields-validation/validate-checkbox.ts:15-71 | At set-up there is nothing to complain of if and only if there are options, rule and length go together, and there are as many options as the length, whatever the rule. |
| `FieldSigning.StoredRadioReadsBack` | packages/lib/utils/envelope-signing.ts:140-161 | An inserted radio value is the index of an option, and its stored text parses back to it. |
| `FieldSigning.StoredCheckboxReadsBack` | packages/lib/utils/envelope-signing.ts:162-206 | All indices of an inserted checkbox value are indices of options, and its stored text parses back to exactly that list. |
| `FieldValidation.LengthErrorAgrees` | packages/lib/advanced-fields-validation/validate-checkbox.ts:39-86 | The length complaint of the signing page appears if and only if the length check that signing uses fails. |
| `FieldValidation.AllDistinctMeans` | packages/lib/advanced-fields-validation/validate-dropdown.ts:45-47 | Comparing the size of the set of options with their number detects exactly the lists with a repeated option. |
| `CustomText.CheckboxTextRoundTrips` | packages/lib/utils/fields.ts:100-110 | The stored text of every list of naturals parses back to that list (sections 5 and 6 of RFC 8259) and is not empty. |
| `CustomText.CheckboxTextIs` | packages/lib/utils/fields.ts:100-110 | The stored text is the numerals with commas between them, in brackets. |
| `CustomText.SpaceBeforeArray` | packages/lib/utils/fields.ts:100-110 | Before it, the four blanks of section 2 of RFC 8259 are skipped; any other character but a bracket makes the text unreadable. |
| `CustomText.ParsedTextReprints` | packages/lib/utils/fields.ts:100-110 | Conversely, a text that parses is the printed form of its value up to whitespace around the tokens. |
| `CustomText.RadioTextRoundTrips` | packages/lib/utils/fields.ts:112-118 | The stored text of every index parses back to it and is not empty. |
| `CustomText.EmptyRadioTextReadsAsFirstOption` | packages/lib/utils/fields.ts:112-118 | The blank text of a field without a selection reads as the first option, so only the inserted flag tells the two apart. |
| `FieldOverlap.OverlappingFieldPairs` | packages/lib/utils/fields-overlap.ts:76-113 | The nested loop with its early continues reports, in order, the fields and the ratio of exactly the qualifying index pairs; that is, of the fields on the same page of the same item that have an area and share a part that covers at least the threshold of the smaller one, with the share that is covered. |
| `FieldOverlap.ExactlyTheQualifyingPairs` | packages/lib/utils/fields-overlap.ts:82-110 | The listed index pairs are exactly the pairs i < j that qualify, each once, in lexicographic order. |
| `FieldOverlap.QualifiesExactly` | packages/lib/utils/fields-overlap.ts:82-106 | Two fields qualify if and only if they have the same item and page, both have an area, and the points that lie inside both are a rectangle whose width times height is at least the threshold of the smaller area. |
| `FieldOverlap.ReportedAreCovered` | packages/lib/utils/fields-overlap.ts:76-113 | In these words of points and rectangles, every reported pair covers enough, with the share reported, and every pair i < j that does is reported. |
| `FieldOverlap.HasOverlappingFields` | packages/lib/utils/fields-overlap.ts:118-123 | True if and only if some two positions hold fields that cover each other so. |
| `FieldOverlap.RaisingTheThreshold` | packages/lib/utils/fields-overlap.ts:104-108 | A higher threshold reports a subsequence of what a lower one does. |
| `FieldOverlap.RatioInUnitInterval` | packages/lib/utils/fields-overlap.ts:91-106 | Whatever the signs of widths and heights, the ratio of a compared pair lies in (0, 1], and is 1 if and only if one field lies within the other. |
| `FieldOverlap.AreaBound` | packages/lib/utils/fields-overlap.ts:50-64 | A positive intersection is at most the area of each field, and equal to it if and only if that field lies within the other. |
| `FieldOverlap.OverlapIgnoresOrderAndOrigin` | packages/lib/utils/fields-overlap.ts:118-123 | Whether any fields overlap does not change when the list is permuted and all fields are moved by the same distance. |
| `FieldOverlap.AreaCountsCells` | packages/lib/utils/fields-overlap.ts:50-64 | On integer coordinates the intersection area is the number of unit cells that lie in both rectangles, also for sizes that are not positive. |
| `RecipientPlaceholders.GenerateAvailablePlaceholder` | packages/lib/utils/templates.ts:33-46 | The result always has an address that no recipient has, with the least positive free index, spelled out; the return after the loop is never reached. |
| `RecipientPlaceholders.SomeIndexIsFree` | packages/lib/utils/templates.ts:37-43 | Among the first n + 1 indices one is free, by the pigeonhole principle. |
| `RecipientPlaceholders.EmailInjective` | packages/lib/utils/templates.ts:21-26 | Different indices have different addresses. |
| `RecipientPlaceholders.GeneratedEmailsAreNotRecognised` | packages/lib/constants/template.ts:3-8 | No generated address, whatever its index, is recognised as a placeholder address: the pattern names another domain. |
| `RecipientPlaceholders.NamedDomainIsRecognised` | packages/lib/constants/template.ts:3-8 | With the domain that the pattern names, in either case, every number makes an address that is recognised, within any text. |
| `EnvelopeIds.LegacyIdsRoundTrip` | packages/lib/utils/envelope.ts:182-233 | Printing and parsing a legacy id gives the number back if and only if it is not negative; the printed form of a negative number is refused. |
| `EnvelopeIds.ParsedIdsReprint` | packages/lib/utils/envelope.ts:182-233 | A text that parses is printed back the same if and only if its digits have no superfluous leading zero; no text is both a document and a template id. |
| `EnvelopeIds.LegacyIdsExactly` | packages/lib/utils/envelope.ts:182-233 | The words in front of the digits, in print and in what is read. |
| `EnvelopeIds.LegacyIdsOnly` | packages/lib/utils/envelope.ts:182-233 | Nothing but such a word and digits is read. |
| `EnvelopeIds.EnvelopeIdsExactly` | packages/lib/utils/envelope.ts:13 | Envelope ids are the word, its underscore and at least two more UTF-16 units without a line terminator. |
| `EnvelopeIds.EnvelopeQueryMeans` | packages/lib/utils/envelope.ts:54-68 | A query by envelope id is refused if and only if the id is not one, and else finds exactly the envelope with that id, of the expected kind if one is expected. |
| `EnvelopeIds.LegacyQueryMeans` | packages/lib/utils/envelope.ts:72-95 | A query by legacy number is refused if and only if the other kind of envelope is expected, and matches exactly the envelopes of its kind whose secondary id is that number's. |
| `EnvelopeIds.ExpectedKindNarrows` | packages/lib/utils/envelope.ts:50-97 | Expecting a kind of envelope only narrows down what the query finds otherwise, whichever kind of id it is by; a refused query finds nothing. |
| `EnvelopeIds.ValidateEnvelopeIds` | packages/lib/utils/envelope.ts:120-133 | The loop accepts a list if and only if every id fits the pattern, and returns it unchanged. |
| `EnvelopeIds.BuildIdsQuery` | packages/lib/utils/envelope.ts:106-175 | For one to twenty ids, the plural builder succeeds if and only if the singular builder does on each, an envelope matches its filter if and only if it matches some singular filter, and a refusal is the refusal of some single id; no ids and more than twenty are refused. |
| `Reminders.ScheduleIsExact` | packages/lib/constants/envelope-reminder.ts:51-115 | When every reminder goes out on time, reminder k is due at sentAt + a + k r, and there are exactly min(5, 1 + floor((30 days - a) / r)) of them, or one without repetition, or none when a exceeds 30 days or is disabled. |
| `Reminders.MillisExactly` | packages/lib/constants/envelope-reminder.ts:37-53 | Days, weeks and months in milliseconds, and the window of 30 days. |
| `Reminders.SomeSchedules` | packages/lib/constants/envelope-reminder.ts:51-115 | Three schedules in milliseconds: one that the cap ends, one that the window ends after the first, one that it ends after the second. |
| `Reminders.Repeats` | packages/lib/constants/envelope-reminder.ts:81-115 | From any state in which a reminder has gone out, the remaining number and times follow the same closed form. |
| `Reminders.RunsStayInBounds` | packages/lib/constants/envelope-reminder.ts:81-115 | From any state, with reminders sent as late as you like: never more than five in all, each due after the one before went out and within 30 days of the request. |
| `Reminders.LatenessOnlyDelays` | packages/lib/constants/envelope-reminder.ts:69-115 | Late sending never gains a reminder and never makes one due earlier than in the punctual schedule. |
| `Reminders.RunsOfAFreshRequest` | packages/lib/constants/envelope-reminder.ts:69-115 | So a fresh request gets at most the punctual number, in the window, no reminder earlier than its closed-form time. |
| `FormBodies.MultipartBody` | packages/trpc/utils/openapi-fetch-handler.ts:22-41 | The result has exactly the normalised keys, each with the single value or the ordered list of all values sent under it; an inherited name is joined to what plain objects inherit. |
| `FormBodies.NormalizedExactly` | packages/trpc/utils/openapi-fetch-handler.ts:28-29 | Exactly one pair of brackets at the end of a key goes, and a key without stays. |
| `FormBodies.GroupsExactly` | packages/trpc/utils/openapi-fetch-handler.ts:25-38 | What stands under a key is the values at all the positions where it was sent, in order: nothing, one value, or the list when there are more. |
| `FormBodies.InheritedGroupsExactly` | packages/trpc/utils/openapi-fetch-handler.ts:25-38 | Under a name that plain objects inherit, those values follow the inherited one. |
| `FormBodies.ZodFormDataGroups` | packages/trpc/utils/zod-form-data.ts:52-68 | Visiting a key once for each of its entries still leaves exactly one ordered group for each key. |
| `FormBodies.ValuesConserved` | packages/trpc/utils/openapi-fetch-handler.ts:25-38 | The groups hold one value for each entry, plus the inherited value of each inherited name that was sent. |
| `FormBodies.GroupingsAgree` | packages/trpc/utils/zod-form-data.ts:57-61 | The two groupings of a form are equal if and only if no key ends in `[]` and none is a name that plain objects inherit. |
| `FormBodies.BracketsDisagree` | packages/trpc/utils/openapi-fetch-handler.ts:28-29 | Any key that ends in `[]` makes the two differ. |
| `AuditDiffs.DiffRecipientChanges` | packages/lib/utils/document-audit-logs.ts:94-149 | The list has one entry, with old and new value, for each attribute that changed, and no other; at most one of each kind. |
| `AuditDiffs.DiffFieldChanges` | packages/lib/utils/document-audit-logs.ts:151-189 | The same for position (page and both coordinates) and dimension. |
| `AuditDiffs.RecipientChangesListed` | packages/lib/utils/document-audit-logs.ts:94-149 | Attribute by attribute: the list holds the old and the new access and action authentication, e-mail address, role and name if and only if they differ, each under its own kind, and nothing else. |
| `AuditDiffs.FieldChangesListed` | packages/lib/utils/document-audit-logs.ts:151-189 | The same for the page with both coordinates, and for width and height. |
| `AuditDiffs.ReplayReachesNext` | packages/lib/utils/document-audit-logs.ts:94-189 | Replaying one list on the old version gives the new one; it is empty if and only if the versions are equal. |
| `AuditDiffs.ReplayReachesLast` | packages/lib/utils/document-audit-logs.ts:94-189 | Replaying the lists of any sequence of versions from the first one gives the last; the whole log is empty if and only if all versions are equal. |
| `AuditDiffs.VersionsDetermineAttributes` | packages/lib/utils/document-audit-logs.ts:94-189 | Two versions are equal if and only if all compared attributes are. |
| `DisposableEmails.IsDisposableEmail` | packages/lib/constants/auth.ts:137-164 | The walk ends, and returns true if and only if some part of the address that starts behind the last at sign, or at a label after it, and runs to its end is in either list. |
| `DisposableEmails.DomainFollowsLastAt` | packages/lib/constants/auth.ts:138-142 | The domain is what follows the last at sign, or the whole address when there is none. |
| `DisposableEmails.NextLabel` | packages/lib/constants/auth.ts:154-160 | Cutting after the next dot skips no dot-aligned suffix. |

## Left out

- PostCSS and selector parsing and printing, the empty-input and parse-error branches and the final `</style` check
  of the sanitiser: the parsed tree is the input; what the selector parser says of a selector is a parameter.
- Case folding, the Unicode category C, the e-mail pattern, the formatted date and the list of throwaway domains:
  parameters. Of category C only what every Unicode version says is required, that
  it holds the surrogates and no printable ASCII; of the e-mail pattern only that it refuses the empty text.
- Strings outside `TextCharacters` are sequences of characters, with lengths counted in UTF-16 units where the code
  counts them; lone surrogates occur only in `TextCharacters`.
- Several loops call a one-turn helper (`CssSelectors.VisitSelector`, `CssSanitizer.MarkNext`,
  `CssSanitizer.RemoveNext`, `CssSanitizer.VisitNext`, `FieldValidation.Complain`, `ValidateNumberValue`,
  `ValidateOptions`, `ViolatesLength`, `AuditDiffs.PushIfChanged`) where the code has the turn inline; the root and
  `@media` loops are one method, and the validators name their complaints instead of spelling out the messages.
- The plural id builder's messages differ from the singular one's; only the kind of error is modelled.
- The JSON parser covers arrays of numbers without sign, fraction and exponent; `Number` covers digits and blanks.
  On other texts the models give no result.
- The third number format does not say what its comma stands for; the models take it to group digits, as in the other
  format that has it before the point.
- Numbers are exact: no floating point, no 2^53 limit, no negative zero, no database decimal precision.
- Durations are multiples of a day with 7 days to the week and 30 to the month, as the duration library converts
  them; calendars and time zones are not modelled.
- The reminder job is modelled only as "record the time, count one more"; its queries, the resend action and
  expiry are not.
- Form keys that a plain object treats specially on assignment (`__proto__`) and the order of object keys.
- The fallback for an absent list of authentication methods in the recipient diff: the parsed options always hold
  both lists. The diff of document settings is of the same kind and would add only easy members.
- The font-size argument of the dropdown validator, which neither signing nor set-up passes.
- The length, trimming and URL checks of the name schema, and the early return of the message component on an empty
  text.
- Field sorting, page elements, rendering, database access, sessions, certificates and sealing, enum tables and
  field-by-field mappers: input and output, or easy members.
