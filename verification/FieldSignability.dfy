/**
 * Which fields can be signed at all, by type and settings, and where setting a field up and signing it disagree on
 * that.
 */
module FieldSignability {
  import opened Wrappers
  import opened Counting
  import opened Decimal
  import opened Texts
  import opened FieldMeta
  import opened FieldValidation
  import opened FieldSigning
  import opened NumberTexts
  import opened NumberGrids

  // ----- number bounds -----

  predicate WithinBounds(number: Parsed, meta: Meta)
    requires meta.NumberMeta?
  {
    && number.Finite?
    && (meta.minValue.Some? ==> number.value >= meta.minValue.value)
    && (meta.maxValue.Some? ==> number.value <= meta.maxValue.value)
  }

  /**
   * The number read of an accepted text is within the bounds exactly when there is one, and no maximum is set that
   * is zero or less, except zero for the number zero.
   */
  lemma BoundsHoldExactly(text: string, meta: Meta)
    requires meta.NumberMeta? && AcceptsNumber(text, meta)
    ensures var number := ParseFloat(text);
            WithinBounds(number, meta) <==>
            && number.Finite?
            && (meta.maxValue.Some? && meta.maxValue.value <= 0.0 ==> meta.maxValue.value == number.value == 0.0)
  {
    ParseOfNumberText(text);
  }

  const NO_DEMANDS := Base(false, false, None)

  /** A maximum of zero lets seven through. */
  lemma ZeroMaximumIsNotEnforced()
    ensures var meta := NumberMeta(NO_DEMANDS, "", None, Some(0.0));
            meta.WellFormed() && AcceptsNumber("7", meta) && ParseFloat("7") == Finite(7.0)
  {
    assert Render(7) == "7";
    WholeIsRead(CommaPoint, 7);
    ParseOfUntrimmed("7");
  }

  /** Without a format, a lone separator is accepted whatever the bounds, although it is no number. */
  lemma SeparatorIsAccepted(meta: Meta)
    requires meta.NumberMeta? && meta.numberFormat == ""
    requires !(meta.base.readOnly && meta.base.required) && !BoundsCrossed(meta)
    ensures AcceptsNumber(",", meta) && ParseFloat(",") == NaN
  {
    ParseOfUntrimmed(",");
  }

  /** A minimum that is enforced on what is read also holds of the number that the text denotes. */
  lemma MinimumHoldsOfDenoted(text: string, meta: Meta)
    requires meta.NumberMeta? && AcceptsNumber(text, meta) && FormatOf(meta.numberFormat).Some?
    ensures var denoted := Denoted(FormatOf(meta.numberFormat).value, text);
            denoted.Finite? && (meta.minValue.Some? ==> denoted.value >= meta.minValue.value)
  {
    ReadsWhatItDenotes(FormatOf(meta.numberFormat).value, text);
  }

  function OnlyMaximum(name: string, maximum: real): Meta {
    NumberMeta(NO_DEMANDS, name, None, Some(maximum))
  }

  ghost predicate MaximumHoldsOfDenoted(name: string, text: string, maximum: real) {
    AcceptsNumber(text, OnlyMaximum(name, maximum)) ==>
      FormatOf(name).Some? && Denoted(FormatOf(name).value, text).Finite? &&
      Denoted(FormatOf(name).value, text).value <= maximum
  }

  /** Every maximum that is enforced holds of the number a text denotes exactly when that number is what is read. */
  lemma MaximumHoldsExactly(name: string, text: string)
    requires FormatOf(name).Some? && Fits(FormatOf(name).value, text)
    ensures (forall maximum: real :: maximum > 0.0 ==> MaximumHoldsOfDenoted(name, text, maximum)) <==>
            ReadAsDenoted(FormatOf(name).value, text)
  {
    var format := FormatOf(name).value;
    ReadsWhatItDenotes(format, text);
    var read, denoted := ParseFloat(text).value, Denoted(format, text).value;
    if read < denoted {
      var between := (read + denoted) / 2.0;
      ReadWithinMaximum(name, text, between);
      assert !MaximumHoldsOfDenoted(name, text, between);
    }
  }

  /** A number of thousands passes every maximum that is at least as many. */
  lemma ThousandsPass(n: nat, maximum: real)
    requires |Render(n)| <= 3 && maximum >= n as real
    ensures AcceptsNumber(Thousands(n), OnlyMaximum("123,456,789.00", maximum))
    ensures Denoted(CommaPoint, Thousands(n)) == Finite((1000 * n) as real)
  {
    ThousandsAreReadAsOnes(n);
    ReadsWhatItDenotes(CommaPoint, Thousands(n));
    ReadWithinMaximum("123,456,789.00", Thousands(n), maximum);
  }

  lemma ReadWithinMaximum(name: string, text: string, maximum: real)
    requires FormatOf(name).Some? && Fits(FormatOf(name).value, text)
    requires ParseFloat(text).Finite? && ParseFloat(text).value <= maximum
    ensures AcceptsNumber(text, OnlyMaximum(name, maximum))
  {
    ReadsWhatItDenotes(FormatOf(name).value, text);
  }

  // ----- repeated options -----

  /**
   * Counted by different options, a selection that was accepted meets the rule as well: always for a rule that
   * bounds the number from above, exactly when it repeats none for one that fixes it, and for one that bounds it
   * from below exactly when it repeats no more than it has to spare.
   */
  lemma RuleOnDifferentOptions(indices: seq<real>, meta: Meta)
    requires meta.CheckboxMeta? && AcceptsSelection(indices, meta) && RuleInForce(meta)
    ensures var rule, length := RuleFor(meta.validationRule).value, meta.validationLength.value;
            ValidateCheckboxLength(|Elements(indices)|, rule, length) <==>
            match rule
            case AtMost => true
            case Exactly => Distinct(indices)
            case AtLeast => Repeats(indices) as real <= |indices| as real - length
  {
    RepeatsCount(indices);
  }

  /** The selection that names the first option `n` times. */
  function Repeated(n: nat): seq<real> {
    seq(n, i => 0.0)
  }

  /** Naming one option often enough meets any rule that wants `n`. */
  lemma RepeatedOptionMeetsRule(meta: Meta, n: nat)
    requires meta.CheckboxMeta? && Options(meta) != [] && n >= 1
    requires RuleInForce(meta) && meta.validationLength.value == n as real
    ensures AcceptsSelection(Repeated(n), meta) && |Elements(Repeated(n))| == 1
  {
    assert forall i :: 0 <= i < n ==> IsIndex(Repeated(n)[i], |Options(meta)|);
    assert Repeated(n)[0] in Repeated(n);
    assert Elements(Repeated(n)) == {0.0};
  }

  // ----- which settings leave something to fill in -----

  predicate TextCanBeFilled(meta: Meta)
    requires meta.TextMeta?
  {
    && !(meta.base.readOnly && meta.base.required)
    && (meta.characterLimit.Some? && 0.0 < meta.characterLimit.value < 1.0 ==>
          !meta.base.required && !meta.base.readOnly)
  }

  lemma TextCanBeFilledExactly(meta: Meta)
    requires meta.TextMeta?
    ensures (exists text :: AcceptsText(text, meta)) <==> TextCanBeFilled(meta)
  {
    assert UnitLength("x") == 1 by {
      assert "x"[1..] == "";
    }
    if TextCanBeFilled(meta) {
      var text := if meta.base.required || meta.base.readOnly then "x" else "";
      assert AcceptsText(text, meta);
    }
    if text :| AcceptsText(text, meta) {
      assert text != "" ==> UnitLength(text) >= 1;
    }
  }

  /** The least number that the bounds in force, and that of a read-only field, allow. */
  function Lowest(meta: Meta): real
    requires meta.NumberMeta?
  {
    var low := if meta.minValue.Some? && meta.minValue.value > 0.0 then meta.minValue.value else 0.0;
    if meta.base.readOnly && low < 1.0 then 1.0 else low
  }

  /** The greatest one, if there is a bound in force. */
  function Highest(meta: Meta): Option<real>
    requires meta.NumberMeta?
  {
    if meta.maxValue.Some? && meta.maxValue.value > 0.0 then meta.maxValue else None
  }

  /**
   * Without a format a lone separator will always do. With one, the format must be known, and a number that can be
   * read of its texts must lie between the bounds.
   */
  predicate FormatCanBeMet(meta: Meta)
    requires meta.NumberMeta?
  {
    meta.numberFormat == "" ||
    (FormatOf(meta.numberFormat).Some? &&
     (Highest(meta).Some? ==> GridFloor(FormatOf(meta.numberFormat).value, Highest(meta).value) >= Lowest(meta)))
  }

  predicate NumberCanBeFilled(meta: Meta)
    requires meta.NumberMeta?
  {
    !(meta.base.readOnly && meta.base.required) && !BoundsCrossed(meta) && FormatCanBeMet(meta)
  }

  lemma FitsAndBetween(text: string, meta: Meta)
    requires meta.NumberMeta? && FormatOf(meta.numberFormat).Some? && Fits(FormatOf(meta.numberFormat).value, text)
    ensures NumberFits(text, meta) <==> IsBetween(ParseFloat(text), Lowest(meta), Highest(meta))
  {
    ReadsWhatItDenotes(FormatOf(meta.numberFormat).value, text);
  }

  lemma NumberCanBeFilledExactly(meta: Meta)
    requires meta.NumberMeta?
    ensures (exists text :: AcceptsNumber(text, meta)) <==> NumberCanBeFilled(meta)
  {
    if meta.numberFormat == "" {
      if NumberCanBeFilled(meta) {
        SeparatorIsAccepted(meta);
      }
    } else if FormatOf(meta.numberFormat).Some? {
      var format := FormatOf(meta.numberFormat).value;
      TextBetweenExactly(format, Lowest(meta), Highest(meta));
      if text :| AcceptsNumber(text, meta) {
        FitsAndBetween(text, meta);
        assert SomeTextBetween(format, Lowest(meta), Highest(meta));
      }
      if NumberCanBeFilled(meta) {
        var text :| Fits(format, text) && IsBetween(ParseFloat(text), Lowest(meta), Highest(meta));
        FitsAndBetween(text, meta);
        ReadsWhatItDenotes(format, text);
        assert AcceptsNumber(text, meta);
      }
    }
  }

  /** A dropdown takes one of its options, and one without a list of options any text. */
  lemma DropdownCanBeFilledExactly(meta: Meta)
    requires meta.DropdownMeta?
    ensures (exists text :: AcceptsChoice(text, meta)) <==>
            !(meta.base.readOnly && meta.base.required) && OptionsFit(meta)
  {
    if !(meta.base.readOnly && meta.base.required) && OptionsFit(meta) {
      var text := if meta.options.Some? then meta.options.value[0] else "x";
      assert AcceptsChoice(text, meta);
    }
  }

  lemma AnyTextIsChosenWithoutOptions(text: string, meta: Meta)
    requires meta.DropdownMeta? && meta.options.None? && !meta.base.readOnly && text != ""
    ensures AcceptsChoice(text, meta)
  {
  }

  ghost predicate HasAcceptedSelection(meta: Meta)
    requires meta.CheckboxMeta?
  {
    exists indices :: AcceptsSelection(indices, meta)
  }

  /** A length that some number of selected options, one at least, can meet. */
  predicate LengthCanBeMet(rule: Rule, length: real) {
    match rule
    case AtLeast => true
    case Exactly => length >= 1.0 && IsInteger(length)
    case AtMost => length >= 1.0
  }

  predicate CheckboxCanBeFilled(meta: Meta)
    requires meta.CheckboxMeta?
  {
    && Options(meta) != []
    && (RuleInForce(meta) ==> LengthCanBeMet(RuleFor(meta.validationRule).value, meta.validationLength.value))
  }

  lemma SelectionMeetsLength(indices: seq<real>, meta: Meta)
    requires meta.CheckboxMeta? && AcceptsSelection(indices, meta)
    ensures CheckboxCanBeFilled(meta)
  {
    assert IsIndex(indices[0], |Options(meta)|);
    assert (|indices| as real).Floor == |indices|;
  }

  lemma CheckboxCanBeFilledExactly(meta: Meta)
    requires meta.CheckboxMeta?
    ensures HasAcceptedSelection(meta) <==> CheckboxCanBeFilled(meta)
  {
    if indices :| AcceptsSelection(indices, meta) {
      SelectionMeetsLength(indices, meta);
    }
    if CheckboxCanBeFilled(meta) {
      var n: nat := if !RuleInForce(meta) then 1
                    else match RuleFor(meta.validationRule).value
                         case AtLeast => if meta.validationLength.value < 1.0 then 1
                                         else meta.validationLength.value.Floor + 1
                         case Exactly => meta.validationLength.value.Floor
                         case AtMost => 1;
      assert forall i :: 0 <= i < n ==> IsIndex(Repeated(n)[i], |Options(meta)|);
      assert AcceptsSelection(Repeated(n), meta);
    }
  }

  // ----- which fields can be signed -----

  /** Some value of the field's type is accepted. */
  ghost predicate CanBeSigned(p: Platform, kind: FieldType, stored: Stored) {
    exists value: FieldValue :: value.Type() == kind && IsAccepted(p, value, stored)
  }

  /** What that comes to, by type. There are no values for free signatures. */
  ghost predicate LeavesSomethingToFill(p: Platform, kind: FieldType, stored: Stored) {
    match kind
    case FreeSignature => false
    case Email => exists text :: p.isEmail(text)
    case Text => ParseAs(stored, Text).Some? && TextCanBeFilled(ParseAs(stored, Text).value)
    case Number => ParseAs(stored, Number).Some? && NumberCanBeFilled(ParseAs(stored, Number).value)
    case Radio => ParseAs(stored, Radio).Some? && Choices(ParseAs(stored, Radio).value) != []
    case Checkbox => ParseAs(stored, Checkbox).Some? && CheckboxCanBeFilled(ParseAs(stored, Checkbox).value)
    case Dropdown =>
      && ParseAs(stored, Dropdown).Some?
      && var meta := ParseAs(stored, Dropdown).value;
         !(meta.base.readOnly && meta.base.required) && OptionsFit(meta)
    case _ => true
  }

  /** A value that signs the field, if its type and settings leave one. */
  lemma SomeValue(p: Platform, kind: FieldType, stored: Stored) returns (value: FieldValue)
    requires LeavesSomethingToFill(p, kind, stored)
    ensures value.Type() == kind && IsAccepted(p, value, stored)
  {
    match kind
    case Signature => value := SignatureValue(Some(PNG_PREFIX));
    case Initials => value := InitialsValue(Some("x"));
    case Name => value := NameValue(Some("x"));
    case Date => value := DateValue(true);
    case Email =>
      var text :| p.isEmail(text);
      value := EmailValue(Some(text));
    case Text =>
      TextCanBeFilledExactly(stored.meta);
      var text :| AcceptsText(text, stored.meta);
      value := TextValue(Some(text));
    case Number =>
      NumberCanBeFilledExactly(stored.meta);
      var text :| AcceptsNumber(text, stored.meta);
      value := NumberValue(Some(text));
    case Radio =>
      assert IsIndex(0.0, |Choices(stored.meta)|);
      value := RadioValue(Some(0.0));
    case Checkbox =>
      CheckboxCanBeFilledExactly(stored.meta);
      var indices :| AcceptsSelection(indices, stored.meta);
      value := CheckboxValue(Some(indices));
    case Dropdown =>
      DropdownCanBeFilledExactly(stored.meta);
      var text :| AcceptsChoice(text, stored.meta);
      value := DropdownValue(Some(text));
  }

  lemma AcceptedLeavesSomething(p: Platform, value: FieldValue, stored: Stored)
    requires IsAccepted(p, value, stored)
    ensures LeavesSomethingToFill(p, value.Type(), stored)
  {
    match value
    case TextValue(text) => TextCanBeFilledExactly(stored.meta);
    case NumberValue(text) => NumberCanBeFilledExactly(stored.meta);
    case CheckboxValue(indices) => SelectionMeetsLength(indices.value, stored.meta);
    case DropdownValue(text) => DropdownCanBeFilledExactly(stored.meta);
    case _ =>
  }

  /** Some value is accepted exactly when the settings fit the type's own schema and leave something to fill in. */
  lemma CanBeSignedExactly(p: Platform, kind: FieldType, stored: Stored)
    ensures CanBeSigned(p, kind, stored) <==> LeavesSomethingToFill(p, kind, stored)
  {
    if LeavesSomethingToFill(p, kind, stored) {
      var value := SomeValue(p, kind, stored);
    }
    if value: FieldValue :| value.Type() == kind && IsAccepted(p, value, stored) {
      AcceptedLeavesSomething(p, value, stored);
    }
  }

  // ----- whether the gate can be passed -----

  /** `after` are the fields `before` once they have been signed with the values. */
  ghost predicate SignedWith(p: Platform, before: seq<Field>, values: seq<FieldValue>, after: seq<Field>) {
    && |before| == |values| == |after|
    && forall i :: 0 <= i < |before| ==>
         after[i].kind == before[i].kind && after[i].stored == before[i].stored && IsSigned(p, after[i], values[i])
  }

  ghost predicate PassesGateWith(p: Platform, before: seq<Field>, values: seq<FieldValue>, after: seq<Field>) {
    SignedWith(p, before, values, after) && !FieldsContainUnsignedRequiredField(after)
  }

  function ClearingValue(kind: FieldType): FieldValue
    requires kind != FreeSignature
  {
    match kind
    case Signature => SignatureValue(None)
    case Initials => InitialsValue(None)
    case Name => NameValue(None)
    case Email => EmailValue(None)
    case Date => DateValue(false)
    case Text => TextValue(None)
    case Number => NumberValue(None)
    case Radio => RadioValue(None)
    case Checkbox => CheckboxValue(None)
    case Dropdown => DropdownValue(None)
  }

  /** One field is signed with a value that is accepted, or cleared if it need not be. */
  lemma SignOne(p: Platform, field: Field) returns (value: FieldValue, after: Field)
    requires IsRequiredField(field) ==> LeavesSomethingToFill(p, field.kind, field.stored)
    ensures after.kind == field.kind && after.stored == field.stored && IsSigned(p, after, value)
    ensures !IsFieldUnsignedAndRequired(after)
  {
    if IsRequiredField(field) {
      value := SomeValue(p, field.kind, field.stored);
    } else {
      value := ClearingValue(field.kind);
    }
    ExtractionOutcome(p, value, field.stored);
    var insertion := ExtractFieldInsertionValues(p, value, field.stored).value;
    after := field.(customText := insertion.customText, inserted := insertion.inserted);
  }

  lemma {:induction false} SignAll(p: Platform, fields: seq<Field>) returns (values: seq<FieldValue>, after: seq<Field>)
    requires forall i :: 0 <= i < |fields| && IsRequiredField(fields[i]) ==>
               LeavesSomethingToFill(p, fields[i].kind, fields[i].stored)
    ensures PassesGateWith(p, fields, values, after)
  {
    if fields == [] {
      values, after := [], [];
    } else {
      var n := |fields| - 1;
      var init, signed := SignAll(p, fields[..n]);
      var value, last := SignOne(p, fields[n]);
      values, after := init + [value], signed + [last];
      assert forall i :: 0 <= i < n ==> fields[..n][i] == fields[i] && after[i] == signed[i] && values[i] == init[i];
    }
  }

  /**
   * Some values of their types get a list of fields past the gate exactly when each required field leaves
   * something to fill in.
   */
  lemma GateCanBePassedExactly(p: Platform, fields: seq<Field>)
    ensures (exists values: seq<FieldValue>, after: seq<Field> :: PassesGateWith(p, fields, values, after)) <==>
            forall i :: 0 <= i < |fields| && IsRequiredField(fields[i]) ==>
              LeavesSomethingToFill(p, fields[i].kind, fields[i].stored)
  {
    if values: seq<FieldValue>, after: seq<Field> :| PassesGateWith(p, fields, values, after) {
      forall i | 0 <= i < |fields| && IsRequiredField(fields[i])
        ensures LeavesSomethingToFill(p, fields[i].kind, fields[i].stored)
      {
        assert !IsFieldUnsignedAndRequired(after[i]);
        ExtractionOutcome(p, values[i], after[i].stored);
        AcceptedLeavesSomething(p, values[i], after[i].stored);
      }
    } else if forall i :: 0 <= i < |fields| && IsRequiredField(fields[i]) ==>
                LeavesSomethingToFill(p, fields[i].kind, fields[i].stored) {
      var values, after := SignAll(p, fields);
    }
  }

  // ----- where set-up and signing disagree -----

  /** A text field that passes set-up can be signed unless it is required and its limit leaves no character. */
  lemma TextSetUpCanBeSigned(text: string, meta: Meta)
    requires meta.TextMeta? && meta.WellFormed() && TextErrors(text, meta, false) == []
    ensures TextCanBeFilled(meta) <==>
            !(meta.base.required && meta.characterLimit.Some? && 0.0 < meta.characterLimit.value < 1.0)
  {
    TextSilent(text, meta, false);
    assert text != "" ==> UnitLength(text) >= 1;
  }

  /** A number field that passes set-up can be signed exactly when its format can be met within its bounds. */
  lemma NumberSetUpCanBeSigned(value: string, meta: Meta)
    requires meta.NumberMeta? && meta.WellFormed() && NumberErrors(value, meta, false) == []
    ensures NumberCanBeFilled(meta) <==> FormatCanBeMet(meta)
    ensures value != "" ==> NumberCanBeFilled(meta)
  {
    NumberSilent(value, meta, false);
    if value != "" {
      assert AcceptsNumber(value, meta);
      NumberCanBeFilledExactly(meta);
    }
  }

  /** A dropdown passes set-up exactly when it can be signed. */
  lemma DropdownSetUpCanBeSigned(meta: Meta)
    requires meta.DropdownMeta?
    ensures DropdownErrors("", meta, false) == [] <==> exists text :: AcceptsChoice(text, meta)
  {
    DropdownSilent("", meta, false);
    DropdownCanBeFilledExactly(meta);
  }

  /** A radio field that passes set-up can be signed exactly when it has a list of options at all. */
  lemma RadioSetUpCanBeSigned(value: string, meta: Meta)
    requires meta.RadioMeta? && RadioErrors(value, meta, false) == []
    ensures Choices(meta) != [] <==> meta.choices.Some?
  {
    RadioSilent(value, meta, false);
  }

  predicate PassesSetUp(meta: Meta)
    requires meta.CheckboxMeta?
  {
    CheckboxErrors(Options(meta), meta, false) == []
  }

  ghost predicate HasDifferentSelection(meta: Meta)
    requires meta.CheckboxMeta?
  {
    exists indices :: AcceptsSelection(indices, meta) && Distinct(indices)
  }

  /** The selection of the first options, as many as the rule wants. */
  lemma FirstOptionsAccepted(meta: Meta, n: nat)
    requires meta.CheckboxMeta? && 1 <= n <= |Options(meta)|
    requires RuleInForce(meta) ==>
               ValidateCheckboxLength(n, RuleFor(meta.validationRule).value, meta.validationLength.value)
    ensures HasDifferentSelection(meta)
  {
    forall i | 0 <= i < n
      ensures IsIndex(IndicesOf(n)[i], |Options(meta)|)
    {
      assert (i as real).Floor == i;
    }
    assert AcceptsSelection(IndicesOf(n), meta) && Distinct(IndicesOf(n));
  }

  /**
   * Checkbox settings that pass set-up have a selection that signing accepts, and then one of different options,
   * except exactly when the rule in force bounds the number of selected options from above by less than one, or
   * wants a number of them that is not whole.
   */
  lemma SetUpCanBeSigned(meta: Meta)
    requires meta.CheckboxMeta? && PassesSetUp(meta)
    ensures HasAcceptedSelection(meta) <==> HasDifferentSelection(meta)
    ensures HasAcceptedSelection(meta) <==>
            (RuleInForce(meta) ==> LengthCanBeMet(RuleFor(meta.validationRule).value, meta.validationLength.value))
  {
    CheckboxSilentAtSetUp(Options(meta), meta);
    CheckboxCanBeFilledExactly(meta);
    if CheckboxCanBeFilled(meta) {
      FirstOptionsAccepted(meta,
                           if !RuleInForce(meta) then 1
                           else match RuleFor(meta.validationRule).value
                                case AtLeast => |Options(meta)|
                                case Exactly => meta.validationLength.value.Floor
                                case AtMost => 1);
    }
  }

  /** With a positive whole length whenever a rule is set, every set-up can be signed. */
  lemma PositiveWholeLengthsCanBeSigned(meta: Meta)
    requires meta.CheckboxMeta? && PassesSetUp(meta)
    requires RuleInForce(meta) ==> meta.validationLength.value >= 1.0 && IsInteger(meta.validationLength.value)
    ensures HasDifferentSelection(meta)
  {
    SetUpCanBeSigned(meta);
  }

  const REQUIRED := Base(true, false, None)

  /** A text, a number, a radio and a checkbox field that pass set-up, are required, and cannot be signed. */
  lemma SetUpsThatCannotBeSigned()
    ensures var text := TextMeta(REQUIRED, Some(0.5));
            text.WellFormed() && TextErrors("", text, false) == [] && !TextCanBeFilled(text)
    ensures var number := NumberMeta(REQUIRED, "123456,789.00", Some(0.2), Some(0.8));
            number.WellFormed() && NumberErrors("", number, false) == [] && !NumberCanBeFilled(number)
    ensures var radio := RadioMeta(REQUIRED, None);
            radio.WellFormed() && RadioErrors("", radio, false) == [] && Choices(radio) == []
    ensures var box := CheckboxMeta(REQUIRED, Some(["a"]), "Select at most", Some(0.5));
            box.WellFormed() && PassesSetUp(box) && !HasAcceptedSelection(box)
  {
    TextSilent("", TextMeta(REQUIRED, Some(0.5)), false);
    NumberSilent("", NumberMeta(REQUIRED, "123456,789.00", Some(0.2), Some(0.8)), false);
    RadioSilent("", RadioMeta(REQUIRED, None), false);
    CheckboxCannotBeSigned();
  }

  lemma CheckboxCannotBeSigned()
    ensures var box := CheckboxMeta(REQUIRED, Some(["a"]), "Select at most", Some(0.5));
            box.WellFormed() && PassesSetUp(box) && !HasAcceptedSelection(box)
  {
    var box := CheckboxMeta(REQUIRED, Some(["a"]), "Select at most", Some(0.5));
    CheckboxSilentAtSetUp(["a"], box);
    SetUpCanBeSigned(box);
  }
}
