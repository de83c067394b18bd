/** Signing a field: what is stored of a submitted value, and the gate that every required field must pass. */
module FieldSigning {
  import opened Wrappers
  import opened Counting
  import opened Texts
  import opened FieldMeta
  import opened FieldValidation
  import opened CustomText
  import opened NumberTexts

  /** A submitted value. Numbers are whatever the client sends, whole or not. */
  datatype FieldValue =
    | EmailValue(text: Option<string>)
    | NameValue(text: Option<string>)
    | InitialsValue(text: Option<string>)
    | DateValue(checked: bool)
    | NumberValue(text: Option<string>)
    | TextValue(text: Option<string>)
    | RadioValue(index: Option<real>)
    | CheckboxValue(indices: Option<seq<real>>)
    | DropdownValue(text: Option<string>)
    | SignatureValue(text: Option<string>)
  {
    function Type(): FieldType {
      match this
      case EmailValue(_) => Email
      case NameValue(_) => Name
      case InitialsValue(_) => Initials
      case DateValue(_) => Date
      case NumberValue(_) => Number
      case TextValue(_) => Text
      case RadioValue(_) => Radio
      case CheckboxValue(_) => Checkbox
      case DropdownValue(_) => Dropdown
      case SignatureValue(_) => Signature
    }
  }

  /** What signing takes from its surroundings; `today` is the formatted date. */
  datatype Platform = Platform(
    isEmail: string -> bool,
    today: string,
    typedSignatureEnabled: Option<bool>)

  datatype Insertion = Insertion(customText: string, inserted: bool)

  datatype SigningError =
    | InvalidEmail | ValueMissing | InvalidNumber | InvalidText | InvalidRadioValue | InvalidCheckboxValues
    | CheckboxLengthFailed | InvalidDropdownValue | TypedSignatureNotAllowed | InvalidSettings

  const NOT_INSERTED := Insertion("", false)

  const PNG_PREFIX := "data:image/png;base64,"

  predicate IsBase64Image(value: string) {
    |PNG_PREFIX| <= |value| && value[..|PNG_PREFIX|] == PNG_PREFIX
  }

  /** Whether reading an array of `n` objects at `index` gives an object. */
  predicate IsIndex(index: real, n: nat) {
    0 <= index.Floor < n && index.Floor as real == index
  }

  function Options(meta: Meta): seq<string>
    requires meta.CheckboxMeta?
  {
    if meta.options.Some? then meta.options.value else []
  }

  function Choices(meta: Meta): seq<Choice>
    requires meta.RadioMeta?
  {
    if meta.choices.Some? then meta.choices.value else []
  }

  function AsIndex(index: real, n: nat): nat
    requires IsIndex(index, n)
  {
    index.Floor
  }

  function Whole(indices: seq<real>, n: nat): (whole: seq<nat>)
    requires forall i :: 0 <= i < |indices| ==> IsIndex(indices[i], n)
    ensures |whole| == |indices| && forall i :: 0 <= i < |indices| ==> whole[i] as real == indices[i]
  {
    seq(|indices|, i requires 0 <= i < |indices| && IsIndex(indices[i], n) => AsIndex(indices[i], n))
  }

  function ExtractFieldInsertionValues(p: Platform, value: FieldValue, stored: Stored): Result<Insertion, SigningError>
  {
    match value
    case EmailValue(text) =>
      if text.None? then Success(NOT_INSERTED)
      else if !p.isEmail(text.value) then Failure(InvalidEmail)
      else Success(Insertion(text.value, true))
    case NameValue(text) => ExtractGenericText(text)
    case InitialsValue(text) => ExtractGenericText(text)
    case DateValue(checked) => if !checked then Success(NOT_INSERTED) else Success(Insertion(p.today, true))
    case NumberValue(text) => ExtractNumber(text, stored)
    case TextValue(text) => ExtractText(text, stored)
    case RadioValue(index) => ExtractRadio(index, stored)
    case CheckboxValue(indices) => ExtractCheckbox(indices, stored)
    case DropdownValue(text) => ExtractDropdown(text, stored)
    case SignatureValue(text) =>
      if text.None? || text.value == "" then Success(NOT_INSERTED)
      else if p.typedSignatureEnabled == Some(false) && !IsBase64Image(text.value) then
        Failure(TypedSignatureNotAllowed)
      else Success(Insertion("", true))
  }

  function ExtractGenericText(text: Option<string>): Result<Insertion, SigningError> {
    if text.None? then Success(NOT_INSERTED)
    else if text.value == "" then Failure(ValueMissing)
    else Success(Insertion(text.value, true))
  }

  function ExtractNumber(text: Option<string>, stored: Stored): Result<Insertion, SigningError> {
    if text.None? || text.value == "" then Success(NOT_INSERTED)
    else match ParseAs(stored, Number)
         case None => Failure(InvalidSettings)
         case Some(meta) =>
           if NumberErrors(text.value, meta, true) != [] then Failure(InvalidNumber)
           else Success(Insertion(text.value, true))
  }

  function ExtractText(text: Option<string>, stored: Stored): Result<Insertion, SigningError> {
    if text.None? then Success(NOT_INSERTED)
    else match ParseAs(stored, Text)
         case None => Failure(InvalidSettings)
         case Some(meta) =>
           if TextErrors(text.value, meta, true) != [] then Failure(InvalidText)
           else Success(Insertion(text.value, true))
  }

  function ExtractRadio(index: Option<real>, stored: Stored): Result<Insertion, SigningError> {
    if index.None? then Success(NOT_INSERTED)
    else match ParseAs(stored, Radio)
         case None => Failure(InvalidSettings)
         case Some(meta) =>
           if !IsIndex(index.value, |Choices(meta)|) then Failure(InvalidRadioValue)
           else Success(Insertion(ToRadioText(index.value.Floor), true))
  }

  function ExtractDropdown(text: Option<string>, stored: Stored): Result<Insertion, SigningError> {
    if text.None? then Success(NOT_INSERTED)
    else match ParseAs(stored, Dropdown)
         case None => Failure(InvalidSettings)
         case Some(meta) =>
           if DropdownErrors(text.value, meta, true) != [] then Failure(InvalidDropdownValue)
           else Success(Insertion(text.value, true))
  }

  function ExtractCheckbox(indices: Option<seq<real>>, stored: Stored): Result<Insertion, SigningError> {
    if indices.None? || indices.value == [] then Success(NOT_INSERTED)
    else match ParseAs(stored, Checkbox)
         case None => Failure(InvalidSettings)
         case Some(meta) =>
           var n := |Options(meta)|;
           if exists i :: 0 <= i < |indices.value| && !IsIndex(indices.value[i], n) then Failure(InvalidCheckboxValues)
           else if RuleInForce(meta) &&
                   !ValidateCheckboxLength(|indices.value|, RuleFor(meta.validationRule).value,
                                           meta.validationLength.value) then Failure(CheckboxLengthFailed)
           else Success(Insertion(ToCheckboxText(Whole(indices.value, n)), true))
  }

  // ----- which values are accepted, in the terms of the settings -----

  /** The signer has cleared the field. */
  predicate IsCleared(value: FieldValue) {
    match value
    case DateValue(checked) => !checked
    case RadioValue(index) => index.None?
    case CheckboxValue(indices) => indices.None? || indices.value == []
    case NumberValue(text) => text.None? || text.value == ""
    case SignatureValue(text) => text.None? || text.value == ""
    case _ => value.text.None?
  }

  predicate AcceptsText(text: string, meta: Meta)
    requires meta.TextMeta?
  {
    && !(meta.base.readOnly && meta.base.required)
    && (meta.base.required || meta.base.readOnly ==> text != "")
    && !LimitExceeded(text, meta.characterLimit)
  }

  predicate AcceptsNumber(text: string, meta: Meta)
    requires meta.NumberMeta?
  {
    text != "" && !(meta.base.readOnly && meta.base.required) && !BoundsCrossed(meta) && NumberFits(text, meta)
  }

  ghost predicate AcceptsChoice(text: string, meta: Meta)
    requires meta.DropdownMeta?
  {
    && !(meta.base.readOnly && meta.base.required) && OptionsFit(meta)
    && (meta.base.required ==> text != "")
    && !NotAnOption(text, meta.options)
  }

  predicate AcceptsSelection(indices: seq<real>, meta: Meta)
    requires meta.CheckboxMeta?
  {
    && indices != []
    && (forall i :: 0 <= i < |indices| ==> IsIndex(indices[i], |Options(meta)|))
    && (RuleInForce(meta) ==>
          ValidateCheckboxLength(|indices|, RuleFor(meta.validationRule).value, meta.validationLength.value))
  }

  /** The indices of `n` options. */
  function IndicesOf(n: nat): seq<real> {
    seq(n, i => i as real)
  }

  lemma IndexExactly(index: real, n: nat)
    ensures IsIndex(index, n) <==> index in IndicesOf(n)
  {
    if IsIndex(index, n) {
      assert IndicesOf(n)[index.Floor] == index;
    }
    if i :| 0 <= i < n && IndicesOf(n)[i] == index {
      assert (i as real).Floor == i;
    }
  }

  /** How many options may be selected, in the words of the settings. */
  predicate CountFits(count: real, meta: Meta)
    requires meta.CheckboxMeta?
  {
    meta.validationLength.Some? && meta.validationLength.value != 0.0 ==>
      && (meta.validationRule == "Select at least" ==> count >= meta.validationLength.value)
      && (meta.validationRule == "Select exactly" ==> count == meta.validationLength.value)
      && (meta.validationRule == "Select at most" ==> count <= meta.validationLength.value)
  }

  lemma CountFitsExactly(n: nat, meta: Meta)
    requires meta.CheckboxMeta?
    ensures CountFits(n as real, meta) <==>
            (RuleInForce(meta) ==>
               ValidateCheckboxLength(n, RuleFor(meta.validationRule).value, meta.validationLength.value))
  {
  }

  /** The selections that are accepted, in the words of the settings. */
  lemma SelectionExactly(indices: seq<real>, meta: Meta)
    requires meta.CheckboxMeta?
    ensures AcceptsSelection(indices, meta) <==>
            && indices != [] && CountFits(|indices| as real, meta)
            && forall i :: 0 <= i < |indices| ==>
                 indices[i] in IndicesOf(if meta.options.Some? then |meta.options.value| else 0)
  {
    CountFitsExactly(|indices|, meta);
    forall i | 0 <= i < |indices|
      ensures IsIndex(indices[i], |Options(meta)|) <==>
              indices[i] in IndicesOf(if meta.options.Some? then |meta.options.value| else 0)
    {
      IndexExactly(indices[i], |Options(meta)|);
    }
  }

  ghost predicate IsAccepted(p: Platform, value: FieldValue, stored: Stored) {
    match value
    case EmailValue(text) => text.Some? && p.isEmail(text.value)
    case NameValue(text) => text.Some? && text.value != ""
    case InitialsValue(text) => text.Some? && text.value != ""
    case DateValue(checked) => checked
    case NumberValue(text) =>
      text.Some? && ParseAs(stored, Number).Some? && AcceptsNumber(text.value, ParseAs(stored, Number).value)
    case TextValue(text) =>
      text.Some? && ParseAs(stored, Text).Some? && AcceptsText(text.value, ParseAs(stored, Text).value)
    case RadioValue(index) =>
      index.Some? && ParseAs(stored, Radio).Some? && IsIndex(index.value, |Choices(ParseAs(stored, Radio).value)|)
    case CheckboxValue(indices) =>
      indices.Some? && ParseAs(stored, Checkbox).Some? &&
      AcceptsSelection(indices.value, ParseAs(stored, Checkbox).value)
    case DropdownValue(text) =>
      text.Some? && ParseAs(stored, Dropdown).Some? && AcceptsChoice(text.value, ParseAs(stored, Dropdown).value)
    case SignatureValue(text) =>
      text.Some? && text.value != "" &&
      (p.typedSignatureEnabled == Some(false) ==> "data:image/png;base64," <= text.value)
  }

  /** A value is refused, clears the field, or is accepted and inserted; never two of these. */
  lemma ExtractionOutcome(p: Platform, value: FieldValue, stored: Stored)
    ensures var r := ExtractFieldInsertionValues(p, value, stored);
            && (r == Success(NOT_INSERTED) <==> IsCleared(value))
            && (r.Success? && r.value.inserted <==> IsAccepted(p, value, stored))
            && (r.Success? && !r.value.inserted ==> r.value == NOT_INSERTED)
    ensures !(IsCleared(value) && IsAccepted(p, value, stored))
    ensures ExtractFieldInsertionValues(p, value, stored) == Failure(InvalidSettings) <==>
            !IsCleared(value) && value.Type() in OPTIONAL_SETTING_TYPES && ParseAs(stored, value.Type()).None?
  {
    match value
    case TextValue(Some(text)) =>
      if ParseAs(stored, Text).Some? {
        TextSilent(text, stored.meta, true);
      }
    case NumberValue(Some(text)) =>
      if ParseAs(stored, Number).Some? && text != "" {
        NumberSilent(text, stored.meta, true);
      }
    case DropdownValue(Some(text)) =>
      if ParseAs(stored, Dropdown).Some? {
        DropdownSilent(text, stored.meta, true);
      }
    case _ =>
  }

  /** What is stored of an accepted value, the choices of radio and checkbox fields excepted. */
  lemma StoredVerbatim(p: Platform, value: FieldValue, stored: Stored)
    requires IsAccepted(p, value, stored) && value.Type() !in {Radio, Checkbox}
    ensures ExtractFieldInsertionValues(p, value, stored) ==
            Success(Insertion(if value.DateValue? then p.today
                              else if value.SignatureValue? then ""
                              else value.text.value, true))
  {
    ExtractionOutcome(p, value, stored);
  }

  // ----- the gate -----

  /** The field holds what signing made of the value, and the value is of the field's type. */
  ghost predicate IsSigned(p: Platform, field: Field, value: FieldValue) {
    && value.Type() == field.kind
    && ExtractFieldInsertionValues(p, value, field.stored) == Success(Insertion(field.customText, field.inserted))
  }

  /** The stored text of an accepted value of a required field is not empty, signatures and dates excepted. */
  lemma RequiredTextIsStored(p: Platform, field: Field, value: FieldValue)
    requires !p.isEmail("") && IsSigned(p, field, value)
    requires IsRequiredField(field) && IsAccepted(p, value, field.stored)
    requires field.kind != Signature && field.kind != Date
    ensures field.customText != ""
  {
    ExtractionOutcome(p, value, field.stored);
    match value
    case RadioValue(index) => RadioTextRoundTrips(index.value.Floor);
    case CheckboxValue(indices) =>
      CheckboxTextRoundTrips(Whole(indices.value, |Options(field.stored.meta)|));
    case _ =>
  }

  /** What the schemas demand of settings. */
  ghost predicate FitsASchema(meta: Meta) {
    && (meta.base.fontSize.Some? ==> 8.0 <= meta.base.fontSize.value <= 96.0)
    && (meta.TextMeta? && meta.characterLimit.Some? ==> meta.characterLimit.value >= 0.0)
    && (meta.PlainMeta? ==>
          meta.kind == Signature || meta.kind == Initials || meta.kind == Name || meta.kind == Email ||
          meta.kind == Date)
  }

  /**
   * The gate lets a list of fields pass exactly when everything is inserted that has to be: all signatures,
   * initials, names, e-mail addresses and dates, and of the other fields those whose settings fit a schema and say
   * that they are required.
   */
  lemma GateLetsPassExactly(fields: seq<Field>)
    ensures !FieldsContainUnsignedRequiredField(fields) <==>
            forall i :: 0 <= i < |fields| ==>
              var field := fields[i];
              match field.kind
              case Signature => field.inserted
              case FreeSignature => field.inserted
              case Initials => field.inserted
              case Name => field.inserted
              case Email => field.inserted
              case Date => field.inserted
              case _ =>
                field.stored.Settings? && FitsASchema(field.stored.meta) && field.stored.meta.base.required ==>
                  field.inserted
  {
    forall i | 0 <= i < |fields|
      ensures IsFieldUnsignedAndRequired(fields[i]) <==>
              !fields[i].inserted &&
              (fields[i].kind in {Number, Text, Dropdown, Radio, Checkbox} ==>
                 fields[i].stored.Settings? && FitsASchema(fields[i].stored.meta) &&
                 fields[i].stored.meta.base.required)
    {
    }
  }

  /**
   * The gate lets a list of fields pass exactly when every required field received a value that is accepted, and
   * then those fields hold a text, signatures and dates excepted.
   */
  lemma GateIsExact(p: Platform, fields: seq<Field>, values: seq<FieldValue>)
    requires !p.isEmail("") && |fields| == |values|
    requires forall i :: 0 <= i < |fields| ==> IsSigned(p, fields[i], values[i])
    ensures !FieldsContainUnsignedRequiredField(fields) <==>
            forall i :: 0 <= i < |fields| && IsRequiredField(fields[i]) ==> IsAccepted(p, values[i], fields[i].stored)
    ensures !FieldsContainUnsignedRequiredField(fields) ==>
              forall i :: 0 <= i < |fields| && IsRequiredField(fields[i]) && fields[i].kind !in {Signature, Date} ==>
                            fields[i].customText != ""
  {
    forall i | 0 <= i < |fields|
      ensures fields[i].inserted <==> IsAccepted(p, values[i], fields[i].stored)
    {
      ExtractionOutcome(p, values[i], fields[i].stored);
    }
    if !FieldsContainUnsignedRequiredField(fields) {
      forall i | 0 <= i < |fields| && IsRequiredField(fields[i]) && fields[i].kind !in {Signature, Date}
        ensures fields[i].customText != ""
      {
        assert !IsFieldUnsignedAndRequired(fields[i]);
        RequiredTextIsStored(p, fields[i], values[i]);
      }
    }
  }

  /**
   * The gate reads the settings of whatever type, signing only those of the field's own type. A required field whose
   * settings are of another type therefore accepts no value, and nothing gets it past the gate.
   */
  lemma MismatchedSettingsBlockTheGate(p: Platform, field: Field, value: FieldValue)
    requires field.kind in OPTIONAL_SETTING_TYPES && IsSigned(p, field, value)
    requires IsRequiredField(field) && field.stored.meta.Type() != field.kind
    ensures IsCleared(value) && IsFieldUnsignedAndRequired(field)
  {
    ExtractionOutcome(p, value, field.stored);
  }

  /** A field of optional type is required exactly when it has settings that fit a schema and say so. */
  lemma RequiredByItsSettings(field: Field)
    requires field.kind in OPTIONAL_SETTING_TYPES
    ensures IsRequiredField(field) <==>
            exists kind :: ParseAs(field.stored, kind).Some? && ParseAs(field.stored, kind).value.base.required
  {
    if IsRequiredField(field) {
      assert ParseAs(field.stored, field.stored.meta.Type()).Some?;
    }
  }

  // ----- the stored text of a choice reads back -----

  /** An accepted radio value is the index of an option, and its stored text parses back to it. */
  lemma StoredRadioReadsBack(p: Platform, field: Field, index: Option<real>)
    requires IsSigned(p, field, RadioValue(index)) && field.inserted
    ensures && index.Some? && field.stored.Settings? && field.stored.meta.RadioMeta?
            && IsIndex(index.value, |Choices(field.stored.meta)|)
            && ParseRadioText(field.customText) == Some(AsIndex(index.value, |Choices(field.stored.meta)|))
  {
    assert ExtractRadio(index, field.stored) == Success(Insertion(field.customText, true));
    assert ParseAs(field.stored, Radio) == Some(field.stored.meta);
    RadioTextRoundTrips(AsIndex(index.value, |Choices(field.stored.meta)|));
  }

  /** An accepted checkbox value has only indices of options, and its stored text parses back to it. */
  lemma StoredCheckboxReadsBack(p: Platform, field: Field, indices: Option<seq<real>>)
    requires IsSigned(p, field, CheckboxValue(indices)) && field.inserted
    ensures && indices.Some? && field.stored.Settings? && field.stored.meta.CheckboxMeta?
            && (forall i :: 0 <= i < |indices.value| ==> IsIndex(indices.value[i], |Options(field.stored.meta)|))
            && ParseCheckboxText(field.customText) == Some(Whole(indices.value, |Options(field.stored.meta)|))
  {
    CheckboxTextRoundTrips(Whole(indices.value, |Options(field.stored.meta)|));
  }
}
