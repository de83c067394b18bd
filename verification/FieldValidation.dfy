/** The validators of field settings and values, each collecting its complaints step by step. */
module FieldValidation {
  import opened Wrappers
  import opened Counting
  import opened Texts
  import opened FieldMeta
  import opened NumberTexts

  datatype FieldError =
    | ValueRequired | CharacterLimitExceeded | ReadOnlyWithoutText | ReadOnlyAndRequired | FontSizeOutOfRange
    | UnknownNumberFormat | NumberFormatMismatch | NotANumber | BelowMinimum | AboveMaximum
    | MinimumAboveMaximum | MaximumBelowMinimum | ReadOnlyBelowOne
    | ReadOnlyWithoutOptions | OptionRequired | NoOptions | DefaultNotAnOption | ValueNotAnOption
    | EmptyOption | DuplicateOptions | SeveralChecked
    | SelectionRequired | RuleWithoutLength | LengthWithoutRule | LengthNotMet

  /** The list with the complaint added, if its condition holds. */
  function Add(before: seq<FieldError>, condition: bool, error: FieldError): seq<FieldError> {
    if condition then before + [error] else before
  }

  /** The complaints come in the order of their places, and none of them twice. */
  ghost predicate InOrder(errors: seq<FieldError>, place: FieldError -> nat) {
    forall i, j :: 0 <= i < j < |errors| ==> place(errors[i]) < place(errors[j])
  }

  ghost predicate AllBefore(errors: seq<FieldError>, place: FieldError -> nat, k: nat) {
    forall i :: 0 <= i < |errors| ==> place(errors[i]) < k
  }

  /** One check: the complaint is pushed onto the list if its condition holds. */
  method Complain(before: seq<FieldError>, condition: bool, error: FieldError) returns (errors: seq<FieldError>)
    ensures errors == Add(before, condition, error)
  {
    errors := before;
    if condition {
      errors := errors + [error];
    }
  }

  predicate FontSizeRejected(fontSize: Option<real>) {
    fontSize.Some? && fontSize.value != 0.0 && (fontSize.value < 8.0 || fontSize.value > 96.0)
  }

  // ----- text -----

  predicate LimitExceeded(value: string, characterLimit: Option<real>) {
    characterLimit.Some? && characterLimit.value > 0.0 && UnitLength(value) as real > characterLimit.value
  }

  function TextErrors(value: string, meta: Meta, isSigningPage: bool): seq<FieldError>
    requires meta.TextMeta?
  {
    var Base(required, readOnly, fontSize) := meta.base;
    var errors := Add([], required && value == "" && isSigningPage, ValueRequired);
    var errors := Add(errors, LimitExceeded(value, meta.characterLimit), CharacterLimitExceeded);
    var errors := Add(errors, readOnly && UnitLength(value) < 1, ReadOnlyWithoutText);
    var errors := Add(errors, readOnly && required, ReadOnlyAndRequired);
    Add(errors, FontSizeRejected(fontSize), FontSizeOutOfRange)
  }

  /** When the text validator has something to complain of. */
  predicate TextComplaint(e: FieldError, value: string, meta: Meta, isSigningPage: bool)
    requires meta.TextMeta?
  {
    match e
    case ValueRequired => meta.base.required && value == "" && isSigningPage
    case CharacterLimitExceeded =>
      var limit := meta.characterLimit; limit.Some? && limit.value > 0.0 && UnitLength(value) as real > limit.value
    case ReadOnlyWithoutText => meta.base.readOnly && value == ""
    case ReadOnlyAndRequired => meta.base.readOnly && meta.base.required
    case FontSizeOutOfRange =>
      var size := meta.base.fontSize; size.Some? && size.value != 0.0 && !(8.0 <= size.value <= 96.0)
    case _ => false
  }

  lemma TextErrorsMean(value: string, meta: Meta, isSigningPage: bool)
    requires meta.TextMeta?
    ensures forall e :: e in TextErrors(value, meta, isSigningPage) <==> TextComplaint(e, value, meta, isSigningPage)
  {
  }

  function TextPlace(e: FieldError): nat {
    match e
    case ValueRequired => 0
    case CharacterLimitExceeded => 1
    case ReadOnlyWithoutText => 2
    case ReadOnlyAndRequired => 3
    case _ => 4
  }

  lemma TextErrorsInOrder(value: string, meta: Meta, isSigningPage: bool)
    requires meta.TextMeta?
    ensures InOrder(TextErrors(value, meta, isSigningPage), TextPlace)
  {
  }

  method ValidateTextField(value: string, meta: Meta, isSigningPage: bool) returns (errors: seq<FieldError>)
    requires meta.TextMeta?
    ensures errors == TextErrors(value, meta, isSigningPage)
    ensures forall e :: e in errors <==> TextComplaint(e, value, meta, isSigningPage)
    ensures InOrder(errors, TextPlace)
  {
    TextErrorsMean(value, meta, isSigningPage);
    TextErrorsInOrder(value, meta, isSigningPage);
    var Base(required, readOnly, fontSize) := meta.base;
    errors := Complain([], required && value == "" && isSigningPage, ValueRequired);
    errors := Complain(errors, LimitExceeded(value, meta.characterLimit), CharacterLimitExceeded);
    errors := Complain(errors, readOnly && UnitLength(value) < 1, ReadOnlyWithoutText);
    errors := Complain(errors, readOnly && required, ReadOnlyAndRequired);
    errors := Complain(errors, FontSizeRejected(fontSize), FontSizeOutOfRange);
  }

  /** While a field is being set up, an empty text is no complaint unless the field is read-only. */
  lemma TextSilent(value: string, meta: Meta, isSigningPage: bool)
    requires meta.TextMeta? && meta.WellFormed()
    ensures TextErrors(value, meta, isSigningPage) == [] <==>
            && !(meta.base.readOnly && meta.base.required)
            && (meta.base.readOnly || (meta.base.required && isSigningPage) ==> value != "")
            && !LimitExceeded(value, meta.characterLimit)
  {
  }

  // ----- number -----

  /** Bounds that are not positive are not enforced, and NaN passes every bound. */
  predicate BelowMinimumOf(number: Parsed, meta: Meta)
    requires meta.NumberMeta?
  {
    meta.minValue.Some? && meta.minValue.value > 0.0 && number.LessThan(meta.minValue.value)
  }

  predicate AboveMaximumOf(number: Parsed, meta: Meta)
    requires meta.NumberMeta?
  {
    meta.maxValue.Some? && meta.maxValue.value > 0.0 && number.MoreThan(meta.maxValue.value)
  }

  predicate BoundsCrossed(meta: Meta)
    requires meta.NumberMeta?
  {
    meta.minValue.Some? && meta.maxValue.Some? && meta.minValue.value > meta.maxValue.value
  }

  predicate Unformatted(value: string, meta: Meta)
    requires meta.NumberMeta?
  {
    meta.numberFormat != "" && value != "" && FormatOf(meta.numberFormat).None?
  }

  predicate Misformatted(value: string, meta: Meta)
    requires meta.NumberMeta?
  {
    meta.numberFormat != "" && value != "" &&
    FormatOf(meta.numberFormat).Some? && !Fits(FormatOf(meta.numberFormat).value, value)
  }

  /** The complaints about the value, by their causes. */
  function ValueErrors(unformatted: bool, misformatted: bool, missing: bool, other: bool, low: bool, high: bool):
    seq<FieldError>
  {
    WithRangeErrors(FormatErrors(unformatted, misformatted, missing), other, low, high)
  }

  function FormatErrors(unformatted: bool, misformatted: bool, missing: bool): seq<FieldError> {
    var errors := Add([], unformatted, UnknownNumberFormat);
    var errors := Add(errors, misformatted, NumberFormatMismatch);
    Add(errors, missing, ValueRequired)
  }

  function WithRangeErrors(before: seq<FieldError>, other: bool, low: bool, high: bool): seq<FieldError> {
    var errors := Add(before, other, NotANumber);
    var errors := Add(errors, low, BelowMinimum);
    Add(errors, high, AboveMaximum)
  }

  function NumberValueErrors(value: string, meta: Meta, isSigningPage: bool): seq<FieldError>
    requires meta.NumberMeta?
  {
    ValueErrors(Unformatted(value, meta), Misformatted(value, meta),
                isSigningPage && meta.base.required && value == "",
                (isSigningPage || value != "") && !IsNumberText(Trim(value)),
                BelowMinimumOf(ParseFloat(value), meta), AboveMaximumOf(ParseFloat(value), meta))
  }

  /** The complaints about the settings follow. */
  function WithSettingErrors(before: seq<FieldError>, crossed: bool, low: bool, both: bool, font: bool): seq<FieldError>
  {
    var errors := Add(before, crossed, MinimumAboveMaximum);
    var errors := Add(errors, crossed, MaximumBelowMinimum);
    var errors := Add(errors, low, ReadOnlyBelowOne);
    var errors := Add(errors, both, ReadOnlyAndRequired);
    Add(errors, font, FontSizeOutOfRange)
  }

  function NumberErrors(value: string, meta: Meta, isSigningPage: bool): seq<FieldError>
    requires meta.NumberMeta?
  {
    var Base(required, readOnly, fontSize) := meta.base;
    WithSettingErrors(NumberValueErrors(value, meta, isSigningPage), BoundsCrossed(meta),
                      readOnly && ParseFloat(value).LessThan(1.0), readOnly && required, FontSizeRejected(fontSize))
  }

  /** When the number validator has something to complain of. */
  predicate NumberComplaint(e: FieldError, value: string, meta: Meta, isSigningPage: bool)
    requires meta.NumberMeta?
  {
    match e
    case UnknownNumberFormat =>
      value != "" && meta.numberFormat !in {"", "123,456,789.00", "123.456.789,00", "123456,789.00"}
    case NumberFormatMismatch =>
      value != "" &&
      (|| (meta.numberFormat == "123,456,789.00" && !Fits(CommaPoint, value))
       || (meta.numberFormat == "123.456.789,00" && !Fits(PointComma, value))
       || (meta.numberFormat == "123456,789.00" && !Fits(LastComma, value)))
    case ValueRequired => isSigningPage && meta.base.required && value == ""
    case NotANumber => (isSigningPage || value != "") && !IsNumberText(Trim(value))
    case BelowMinimum =>
      meta.minValue.Some? && meta.minValue.value > 0.0 &&
      (match ParseFloat(value)
       case NaN => false
       case Finite(number) => number < meta.minValue.value
       case Infinite(negative) => negative)
    case AboveMaximum =>
      meta.maxValue.Some? && meta.maxValue.value > 0.0 &&
      (match ParseFloat(value)
       case NaN => false
       case Finite(number) => number > meta.maxValue.value
       case Infinite(negative) => !negative)
    case MinimumAboveMaximum =>
      meta.minValue.Some? && meta.maxValue.Some? && meta.minValue.value > meta.maxValue.value
    case MaximumBelowMinimum =>
      meta.minValue.Some? && meta.maxValue.Some? && meta.maxValue.value < meta.minValue.value
    case ReadOnlyBelowOne =>
      meta.base.readOnly &&
      (match ParseFloat(value)
       case NaN => false
       case Finite(number) => number < 1.0
       case Infinite(negative) => negative)
    case ReadOnlyAndRequired => meta.base.readOnly && meta.base.required
    case FontSizeOutOfRange =>
      var size := meta.base.fontSize; size.Some? && size.value != 0.0 && !(8.0 <= size.value <= 96.0)
    case _ => false
  }

  predicate ConcernsSettings(e: FieldError) {
    e in {MinimumAboveMaximum, MaximumBelowMinimum, ReadOnlyBelowOne, ReadOnlyAndRequired, FontSizeOutOfRange}
  }

  lemma ValueErrorsMean(unformatted: bool, misformatted: bool, missing: bool, other: bool, low: bool, high: bool)
    ensures forall e :: e in ValueErrors(unformatted, misformatted, missing, other, low, high) <==>
              match e
              case UnknownNumberFormat => unformatted
              case NumberFormatMismatch => misformatted
              case ValueRequired => missing
              case NotANumber => other
              case BelowMinimum => low
              case AboveMaximum => high
              case _ => false
  {
  }

  lemma NumberValueErrorsMean(value: string, meta: Meta, isSigningPage: bool)
    requires meta.NumberMeta?
    ensures forall e :: e in NumberValueErrors(value, meta, isSigningPage) <==>
              !ConcernsSettings(e) && NumberComplaint(e, value, meta, isSigningPage)
  {
    var number := ParseFloat(value);
    ValueErrorsMean(Unformatted(value, meta), Misformatted(value, meta),
                    isSigningPage && meta.base.required && value == "",
                    (isSigningPage || value != "") && !IsNumberText(Trim(value)),
                    BelowMinimumOf(number, meta), AboveMaximumOf(number, meta));
  }

  lemma SettingErrorsMean(before: seq<FieldError>, crossed: bool, low: bool, both: bool, font: bool)
    ensures forall e :: e in WithSettingErrors(before, crossed, low, both, font) <==>
              e in before ||
              match e
              case MinimumAboveMaximum => crossed
              case MaximumBelowMinimum => crossed
              case ReadOnlyBelowOne => low
              case ReadOnlyAndRequired => both
              case FontSizeOutOfRange => font
              case _ => false
  {
  }

  lemma NumberErrorsMean(value: string, meta: Meta, isSigningPage: bool)
    requires meta.NumberMeta?
    ensures forall e :: e in NumberErrors(value, meta, isSigningPage) <==>
              NumberComplaint(e, value, meta, isSigningPage)
  {
    var before := NumberValueErrors(value, meta, isSigningPage);
    NumberValueErrorsMean(value, meta, isSigningPage);
    SettingErrorsMean(before, BoundsCrossed(meta), meta.base.readOnly && ParseFloat(value).LessThan(1.0),
                      meta.base.readOnly && meta.base.required, FontSizeRejected(meta.base.fontSize));
  }

  function NumberPlace(e: FieldError): nat {
    match e
    case UnknownNumberFormat => 0
    case NumberFormatMismatch => 1
    case ValueRequired => 2
    case NotANumber => 3
    case BelowMinimum => 4
    case AboveMaximum => 5
    case MinimumAboveMaximum => 6
    case MaximumBelowMinimum => 7
    case ReadOnlyBelowOne => 8
    case ReadOnlyAndRequired => 9
    case _ => 10
  }

  lemma FormatErrorsInOrder(unformatted: bool, misformatted: bool, missing: bool)
    ensures var errors := FormatErrors(unformatted, misformatted, missing);
            InOrder(errors, NumberPlace) && AllBefore(errors, NumberPlace, 3)
  {
  }

  lemma RangeErrorsInOrder(before: seq<FieldError>, other: bool, low: bool, high: bool)
    requires InOrder(before, NumberPlace) && AllBefore(before, NumberPlace, 3)
    ensures var errors := WithRangeErrors(before, other, low, high);
            InOrder(errors, NumberPlace) && AllBefore(errors, NumberPlace, 6)
  {
  }

  lemma SettingErrorsInOrder(before: seq<FieldError>, crossed: bool, low: bool, both: bool, font: bool)
    requires InOrder(before, NumberPlace) && AllBefore(before, NumberPlace, 6)
    ensures InOrder(WithSettingErrors(before, crossed, low, both, font), NumberPlace)
  {
  }

  lemma NumberErrorsInOrder(value: string, meta: Meta, isSigningPage: bool)
    requires meta.NumberMeta?
    ensures InOrder(NumberErrors(value, meta, isSigningPage), NumberPlace)
  {
    var number := ParseFloat(value);
    var missing := isSigningPage && meta.base.required && value == "";
    FormatErrorsInOrder(Unformatted(value, meta), Misformatted(value, meta), missing);
    RangeErrorsInOrder(FormatErrors(Unformatted(value, meta), Misformatted(value, meta), missing),
                       (isSigningPage || value != "") && !IsNumberText(Trim(value)),
                       BelowMinimumOf(number, meta), AboveMaximumOf(number, meta));
    SettingErrorsInOrder(NumberValueErrors(value, meta, isSigningPage), BoundsCrossed(meta),
                         meta.base.readOnly && number.LessThan(1.0), meta.base.readOnly && meta.base.required,
                         FontSizeRejected(meta.base.fontSize));
  }

  method ValidateNumberValue(value: string, meta: Meta, isSigningPage: bool) returns (errors: seq<FieldError>)
    requires meta.NumberMeta?
    ensures errors == NumberValueErrors(value, meta, isSigningPage)
  {
    errors := [];
    if meta.numberFormat != "" && |value| > 0 {
      var foundRegex := FormatOf(meta.numberFormat);
      if foundRegex.None? {
        errors := errors + [UnknownNumberFormat];
      }
      if foundRegex.Some? && !Fits(foundRegex.value, value) {
        errors := errors + [NumberFormatMismatch];
      }
    }
    var numberValue := ParseFloat(value);
    errors := Complain(errors, isSigningPage && meta.base.required && value == "", ValueRequired);
    errors := Complain(errors, (isSigningPage || value != "") && !IsNumberText(Trim(value)), NotANumber);
    errors := Complain(errors, BelowMinimumOf(numberValue, meta), BelowMinimum);
    errors := Complain(errors, AboveMaximumOf(numberValue, meta), AboveMaximum);
  }

  method ValidateNumberField(value: string, meta: Meta, isSigningPage: bool) returns (errors: seq<FieldError>)
    requires meta.NumberMeta?
    ensures errors == NumberErrors(value, meta, isSigningPage)
    ensures forall e :: e in errors <==> NumberComplaint(e, value, meta, isSigningPage)
    ensures InOrder(errors, NumberPlace)
  {
    NumberErrorsMean(value, meta, isSigningPage);
    NumberErrorsInOrder(value, meta, isSigningPage);
    var Base(required, readOnly, fontSize) := meta.base;
    errors := ValidateNumberValue(value, meta, isSigningPage);
    errors := Complain(errors, BoundsCrossed(meta), MinimumAboveMaximum);
    errors := Complain(errors, BoundsCrossed(meta), MaximumBelowMinimum);
    errors := Complain(errors, readOnly && ParseFloat(value).LessThan(1.0), ReadOnlyBelowOne);
    errors := Complain(errors, readOnly && required, ReadOnlyAndRequired);
    errors := Complain(errors, FontSizeRejected(fontSize), FontSizeOutOfRange);
  }

  /** A text that may stand in the field, as far as the settings go. */
  predicate NumberFits(value: string, meta: Meta)
    requires meta.NumberMeta?
  {
    var number := ParseFloat(value);
    && IsNumberText(Trim(value))
    && (meta.numberFormat != "" ==>
          FormatOf(meta.numberFormat).Some? && Fits(FormatOf(meta.numberFormat).value, value))
    && !BelowMinimumOf(number, meta) && !AboveMaximumOf(number, meta)
    && !(meta.base.readOnly && number.LessThan(1.0))
  }

  /** While a field is being set up, an empty value is no complaint. */
  lemma NumberSilent(value: string, meta: Meta, isSigningPage: bool)
    requires meta.NumberMeta? && meta.WellFormed()
    ensures NumberErrors(value, meta, isSigningPage) == [] <==>
            && !(meta.base.readOnly && meta.base.required) && !BoundsCrossed(meta)
            && (value != "" || isSigningPage ==> NumberFits(value, meta))
  {
    if value == "" {
      ParseOfUntrimmed(value);
      assert ParseFloat(value) == NaN;
    }
  }

  // ----- dropdown -----

  /** Whether a value is set that is not among the options, when there are options. */
  predicate NotAnOption(value: string, options: Option<seq<string>>) {
    value != "" && options.Some? && value !in options.value
  }

  /** No element occurs twice. */
  predicate AllDistinct(xs: seq<string>) {
    |set x | x in xs| == |xs|
  }

  lemma AllDistinctMeans(xs: seq<string>)
    ensures AllDistinct(xs) <==> Distinct(xs)
  {
    RepeatsCount(xs);
    assert (set x | x in xs) == Elements(xs);
  }

  /** The complaints about how the dropdown is used. */
  function UseErrors(both: bool, unfit: bool, missing: bool): seq<FieldError> {
    var errors := Add([], both, ReadOnlyAndRequired);
    var errors := Add(errors, unfit, ReadOnlyWithoutOptions);
    Add(errors, missing, OptionRequired)
  }

  /** The complaints about its options follow. */
  function WithOptionErrors(before: seq<FieldError>, value: string, options: seq<string>, default: string):
    seq<FieldError>
  {
    var errors := Add(before, options == [], NoOptions);
    var errors := Add(errors, options == [] && default != "", DefaultNotAnOption);
    var errors := Add(errors, value != "" && value !in options, ValueNotAnOption);
    var errors := Add(errors, default != "" && default !in options, DefaultNotAnOption);
    var errors := Add(errors, "" in options, EmptyOption);
    Add(errors, !AllDistinct(options), DuplicateOptions)
  }

  function DropdownErrors(value: string, meta: Meta, isSigningPage: bool): seq<FieldError>
    requires meta.DropdownMeta?
  {
    var Base(required, readOnly, _) := meta.base;
    var before := UseErrors(readOnly && required, readOnly && (meta.options.None? || meta.options.value == []),
                            isSigningPage && required && value == "");
    match meta.options
    case None => before
    case Some(options) => WithOptionErrors(before, value, options, meta.defaultValue)
  }

  /** When the dropdown validator has something to complain of. */
  ghost predicate DropdownComplaint(e: FieldError, value: string, meta: Meta, isSigningPage: bool)
    requires meta.DropdownMeta?
  {
    match e
    case ReadOnlyAndRequired => meta.base.readOnly && meta.base.required
    case ReadOnlyWithoutOptions => meta.base.readOnly && (meta.options.None? || meta.options.value == [])
    case OptionRequired => isSigningPage && meta.base.required && value == ""
    case NoOptions => meta.options == Some([])
    case DefaultNotAnOption =>
      meta.defaultValue != "" && meta.options.Some? && meta.defaultValue !in meta.options.value
    case ValueNotAnOption => value != "" && meta.options.Some? && value !in meta.options.value
    case EmptyOption => meta.options.Some? && "" in meta.options.value
    case DuplicateOptions => meta.options.Some? && !Distinct(meta.options.value)
    case _ => false
  }

  lemma UseErrorsMean(both: bool, unfit: bool, missing: bool)
    ensures forall e :: e in UseErrors(both, unfit, missing) <==>
              match e
              case ReadOnlyAndRequired => both
              case ReadOnlyWithoutOptions => unfit
              case OptionRequired => missing
              case _ => false
  {
  }

  lemma OptionErrorsMean(before: seq<FieldError>, value: string, options: seq<string>, default: string)
    ensures forall e :: e in WithOptionErrors(before, value, options, default) <==>
              e in before ||
              match e
              case NoOptions => options == []
              case ValueNotAnOption => value != "" && value !in options
              case DefaultNotAnOption => default != "" && default !in options
              case EmptyOption => "" in options
              case DuplicateOptions => !AllDistinct(options)
              case _ => false
  {
  }

  lemma DropdownErrorsMean(value: string, meta: Meta, isSigningPage: bool)
    requires meta.DropdownMeta?
    ensures forall e :: e in DropdownErrors(value, meta, isSigningPage) <==>
              DropdownComplaint(e, value, meta, isSigningPage)
  {
    var Base(required, readOnly, _) := meta.base;
    var both, missing := readOnly && required, isSigningPage && required && value == "";
    var unfit := readOnly && (meta.options.None? || meta.options.value == []);
    UseErrorsMean(both, unfit, missing);
    if meta.options.Some? {
      OptionErrorsMean(UseErrors(both, unfit, missing), value, meta.options.value, meta.defaultValue);
      AllDistinctMeans(meta.options.value);
    }
  }

  /** The complaint is made last, and once before. */
  predicate LastAgain(errors: seq<FieldError>, e: FieldError) {
    var n := |errors| - 1;
    n > 0 && errors[n] == e && e in errors[..n]
  }

  function DropdownPlace(e: FieldError): nat {
    match e
    case ReadOnlyAndRequired => 0
    case ReadOnlyWithoutOptions => 1
    case OptionRequired => 2
    case NoOptions => 3
    case ValueNotAnOption => 4
    case DefaultNotAnOption => 5
    case EmptyOption => 6
    case _ => 7
  }

  /** Without any option to choose from, a default value is complained of twice. */
  predicate NothingToDefaultTo(meta: Meta)
    requires meta.DropdownMeta?
  {
    meta.options == Some([]) && meta.defaultValue != ""
  }

  lemma UseErrorsInOrder(both: bool, unfit: bool, missing: bool)
    ensures var errors := UseErrors(both, unfit, missing);
            InOrder(errors, DropdownPlace) && AllBefore(errors, DropdownPlace, 3)
  {
  }

  lemma OptionErrorsInOrder(before: seq<FieldError>, value: string, options: seq<string>, default: string)
    requires InOrder(before, DropdownPlace) && AllBefore(before, DropdownPlace, 3)
    requires !(options == [] && default != "")
    ensures InOrder(WithOptionErrors(before, value, options, default), DropdownPlace)
  {
  }

  lemma DropdownErrorsInOrder(value: string, meta: Meta, isSigningPage: bool)
    requires meta.DropdownMeta? && !NothingToDefaultTo(meta)
    ensures InOrder(DropdownErrors(value, meta, isSigningPage), DropdownPlace)
  {
    var Base(required, readOnly, _) := meta.base;
    var both, missing := readOnly && required, isSigningPage && required && value == "";
    var unfit := readOnly && (meta.options.None? || meta.options.value == []);
    UseErrorsInOrder(both, unfit, missing);
    if meta.options.Some? {
      OptionErrorsInOrder(UseErrors(both, unfit, missing), value, meta.options.value, meta.defaultValue);
    }
  }

  lemma DefaultComplainedTwice(before: seq<FieldError>, value: string, default: string)
    requires default != ""
    ensures LastAgain(WithOptionErrors(before, value, [], default), DefaultNotAnOption)
  {
    assert AllDistinct([]);
  }

  lemma DropdownErrorsPlaced(value: string, meta: Meta, isSigningPage: bool)
    requires meta.DropdownMeta?
    ensures var errors := DropdownErrors(value, meta, isSigningPage);
            if NothingToDefaultTo(meta) then LastAgain(errors, DefaultNotAnOption) else InOrder(errors, DropdownPlace)
  {
    if NothingToDefaultTo(meta) {
      var Base(required, readOnly, _) := meta.base;
      DefaultComplainedTwice(UseErrors(readOnly && required, readOnly, isSigningPage && required && value == ""),
                             value, meta.defaultValue);
    } else {
      DropdownErrorsInOrder(value, meta, isSigningPage);
    }
  }

  /** The checks that need the options. */
  method ValidateOptions(before: seq<FieldError>, value: string, values: Option<seq<string>>, defaultValue: string)
    returns (errors: seq<FieldError>)
    ensures errors == match values
                      case None => before
                      case Some(options) => WithOptionErrors(before, value, options, defaultValue)
  {
    var empty := values.Some? && |values.value| == 0;
    errors := Complain(before, empty, NoOptions);
    errors := Complain(errors, empty && defaultValue != "", DefaultNotAnOption);
    errors := Complain(errors, NotAnOption(value, values), ValueNotAnOption);
    errors := Complain(errors, NotAnOption(defaultValue, values), DefaultNotAnOption);
    errors := Complain(errors, values.Some? && "" in values.value, EmptyOption);
    errors := Complain(errors, values.Some? && !AllDistinct(values.value), DuplicateOptions);
  }

  method ValidateDropdownField(value: string, meta: Meta, isSigningPage: bool) returns (errors: seq<FieldError>)
    requires meta.DropdownMeta?
    ensures errors == DropdownErrors(value, meta, isSigningPage)
    ensures forall e :: e in errors <==> DropdownComplaint(e, value, meta, isSigningPage)
    ensures if NothingToDefaultTo(meta) then LastAgain(errors, DefaultNotAnOption) else InOrder(errors, DropdownPlace)
  {
    var Base(required, readOnly, _) := meta.base;
    var values := meta.options;
    errors := Complain([], readOnly && required, ReadOnlyAndRequired);
    errors := Complain(errors, readOnly && (values.None? || |values.value| == 0), ReadOnlyWithoutOptions);
    errors := Complain(errors, isSigningPage && required && value == "", OptionRequired);
    errors := ValidateOptions(errors, value, values, meta.defaultValue);
    DropdownErrorsMean(value, meta, isSigningPage);
    DropdownErrorsPlaced(value, meta, isSigningPage);
  }

  /** Options that a dropdown may have: some, none of them empty, none twice, the default value among them. */
  ghost predicate OptionsFit(meta: Meta)
    requires meta.DropdownMeta?
  {
    match meta.options
    case None => !meta.base.readOnly
    case Some(options) =>
      && options != [] && "" !in options && Distinct(options)
      && (meta.defaultValue != "" ==> meta.defaultValue in options)
  }

  /** While a field is being set up, no option needs to be chosen. */
  lemma DropdownSilent(value: string, meta: Meta, isSigningPage: bool)
    requires meta.DropdownMeta?
    ensures DropdownErrors(value, meta, isSigningPage) == [] <==>
            && !(meta.base.readOnly && meta.base.required) && OptionsFit(meta)
            && (isSigningPage && meta.base.required ==> value != "")
            && !NotAnOption(value, meta.options)
  {
    if meta.options.Some? {
      AllDistinctMeans(meta.options.value);
    }
  }

  // ----- radio -----

  function Checked(choices: seq<Choice>): seq<Choice> {
    if choices == [] then []
    else
      var last := choices[|choices| - 1];
      Checked(choices[..|choices| - 1]) + if last.checked then [last] else []
  }

  /** The complaints by their causes. */
  function RadioErrorsOf(both: bool, unfit: bool, missing: bool, none: bool, several: bool): seq<FieldError> {
    var errors := Add([], both, ReadOnlyAndRequired);
    var errors := Add(errors, unfit, ReadOnlyWithoutOptions);
    var errors := Add(errors, missing, OptionRequired);
    var errors := Add(errors, none, NoOptions);
    Add(errors, several, SeveralChecked)
  }

  lemma RadioCausesMean(both: bool, unfit: bool, missing: bool, none: bool, several: bool)
    ensures forall e :: e in RadioErrorsOf(both, unfit, missing, none, several) <==>
              match e
              case ReadOnlyAndRequired => both
              case ReadOnlyWithoutOptions => unfit
              case OptionRequired => missing
              case NoOptions => none
              case SeveralChecked => several
              case _ => false
  {
  }

  function RadioErrors(value: string, meta: Meta, isSigningPage: bool): seq<FieldError>
    requires meta.RadioMeta?
  {
    var Base(required, readOnly, _) := meta.base;
    var choices := meta.choices;
    RadioErrorsOf(readOnly && required, readOnly && (choices.None? || choices.value == []),
                  isSigningPage && required && value == "", choices.Some? && choices.value == [],
                  choices.Some? && |Checked(choices.value)| > 1)
  }

  /** When the radio validator has something to complain of. */
  ghost predicate RadioComplaint(e: FieldError, value: string, meta: Meta, isSigningPage: bool)
    requires meta.RadioMeta?
  {
    match e
    case ReadOnlyAndRequired => meta.base.readOnly && meta.base.required
    case ReadOnlyWithoutOptions => meta.base.readOnly && (meta.choices.None? || meta.choices.value == [])
    case OptionRequired => isSigningPage && meta.base.required && value == ""
    case NoOptions => meta.choices == Some([])
    case SeveralChecked =>
      meta.choices.Some? &&
      exists i, j :: 0 <= i < j < |meta.choices.value| && meta.choices.value[i].checked && meta.choices.value[j].checked
    case _ => false
  }

  lemma {:induction false} CheckedCounts(choices: seq<Choice>)
    ensures |Checked(choices)| > 0 <==> exists i :: 0 <= i < |choices| && choices[i].checked
    ensures |Checked(choices)| > 1 <==>
            exists i, j :: 0 <= i < j < |choices| && choices[i].checked && choices[j].checked
  {
    if choices != [] {
      var n := |choices| - 1;
      CheckedCounts(choices[..n]);
      assert forall i :: 0 <= i < n ==> choices[..n][i] == choices[i];
      if choices[n].checked && |Checked(choices[..n])| > 0 {
        var i :| 0 <= i < n && choices[..n][i].checked;
        assert choices[i].checked;
      }
    }
  }

  lemma RadioErrorsMean(value: string, meta: Meta, isSigningPage: bool)
    requires meta.RadioMeta?
    ensures forall e :: e in RadioErrors(value, meta, isSigningPage) <==> RadioComplaint(e, value, meta, isSigningPage)
  {
    if meta.choices.Some? {
      CheckedCounts(meta.choices.value);
    }
    var Base(required, readOnly, _) := meta.base;
    var choices := meta.choices;
    RadioCausesMean(readOnly && required, readOnly && (choices.None? || choices.value == []),
                    isSigningPage && required && value == "", choices.Some? && choices.value == [],
                    choices.Some? && |Checked(choices.value)| > 1);
  }

  function RadioPlace(e: FieldError): nat {
    match e
    case ReadOnlyAndRequired => 0
    case ReadOnlyWithoutOptions => 1
    case OptionRequired => 2
    case NoOptions => 3
    case _ => 4
  }

  lemma RadioErrorsInOrder(value: string, meta: Meta, isSigningPage: bool)
    requires meta.RadioMeta?
    ensures InOrder(RadioErrors(value, meta, isSigningPage), RadioPlace)
  {
  }

  method ValidateRadioField(value: string, meta: Meta, isSigningPage: bool) returns (errors: seq<FieldError>)
    requires meta.RadioMeta?
    ensures errors == RadioErrors(value, meta, isSigningPage)
    ensures forall e :: e in errors <==> RadioComplaint(e, value, meta, isSigningPage)
    ensures InOrder(errors, RadioPlace)
  {
    RadioErrorsMean(value, meta, isSigningPage);
    RadioErrorsInOrder(value, meta, isSigningPage);
    var Base(required, readOnly, _) := meta.base;
    var values := meta.choices;
    errors := Complain([], readOnly && required, ReadOnlyAndRequired);
    errors := Complain(errors, readOnly && (values.None? || |values.value| == 0), ReadOnlyWithoutOptions);
    errors := Complain(errors, isSigningPage && required && value == "", OptionRequired);
    errors := Complain(errors, values.Some? && |values.value| == 0, NoOptions);
    errors := Complain(errors, values.Some? && |Checked(values.value)| > 1, SeveralChecked);
  }

  /** Set-up does not ask for options at all unless the field is read-only or its list of options is there. */
  lemma RadioSilent(value: string, meta: Meta, isSigningPage: bool)
    requires meta.RadioMeta?
    ensures RadioErrors(value, meta, isSigningPage) == [] <==>
            && !(meta.base.readOnly && meta.base.required)
            && (isSigningPage && meta.base.required ==> value != "")
            && match meta.choices
               case None => !meta.base.readOnly
               case Some(choices) => choices != [] && |Checked(choices)| <= 1
  {
  }

  // ----- checkbox -----

  datatype Rule = AtLeast | Exactly | AtMost

  /** The table of validation rules; other labels name no rule. */
  function RuleFor(title: string): Option<Rule> {
    if title == "Select at least" then Some(AtLeast)
    else if title == "Select exactly" then Some(Exactly)
    else if title == "Select at most" then Some(AtMost)
    else None
  }

  predicate ValidateCheckboxLength(selected: nat, rule: Rule, length: real) {
    match rule
    case AtLeast => selected as real >= length
    case Exactly => selected as real == length
    case AtMost => selected as real <= length
  }

  predicate HasLength(meta: Meta)
    requires meta.CheckboxMeta?
  {
    meta.validationLength.Some? && meta.validationLength.value != 0.0
  }

  /** A rule is in force when its label is in the table and a length other than zero is set. */
  predicate RuleInForce(meta: Meta)
    requires meta.CheckboxMeta?
  {
    RuleFor(meta.validationRule).Some? && meta.validationLength.Some? && meta.validationLength.value != 0.0
  }

  /** Set-up only asks for enough options, whatever the rule. */
  predicate LengthMet(count: nat, meta: Meta, isSigningPage: bool)
    requires meta.CheckboxMeta? && RuleInForce(meta)
  {
    if isSigningPage then
      ValidateCheckboxLength(count, RuleFor(meta.validationRule).value, meta.validationLength.value)
    else count as real >= meta.validationLength.value
  }

  /** The complaints about the options. */
  function SelectionErrors(both: bool, none: bool, readOnly: bool, missing: bool): seq<FieldError> {
    var errors := Add([], both, ReadOnlyAndRequired);
    var errors := Add(errors, none, NoOptions);
    var errors := Add(errors, readOnly && none, ReadOnlyWithoutOptions);
    Add(errors, missing, SelectionRequired)
  }

  /** The complaints about the rule follow. */
  function WithRuleErrors(before: seq<FieldError>, noLength: bool, noRule: bool, violated: bool): seq<FieldError> {
    var errors := Add(before, noLength, RuleWithoutLength);
    var errors := Add(errors, noRule, LengthWithoutRule);
    Add(errors, violated, LengthNotMet)
  }

  function CheckboxErrors(values: seq<string>, meta: Meta, isSigningPage: bool): seq<FieldError>
    requires meta.CheckboxMeta?
  {
    var Base(required, readOnly, _) := meta.base;
    WithRuleErrors(
      SelectionErrors(readOnly && required, values == [], readOnly, isSigningPage && required && values == []),
      meta.validationRule != "" && !HasLength(meta), HasLength(meta) && meta.validationRule == "",
      RuleInForce(meta) && !LengthMet(|values|, meta, isSigningPage))
  }

  /** When the checkbox validator has something to complain of. */
  predicate CheckboxComplaint(e: FieldError, values: seq<string>, meta: Meta, isSigningPage: bool)
    requires meta.CheckboxMeta?
  {
    match e
    case ReadOnlyAndRequired => meta.base.readOnly && meta.base.required
    case NoOptions => values == []
    case ReadOnlyWithoutOptions => meta.base.readOnly && values == []
    case SelectionRequired => isSigningPage && meta.base.required && values == []
    case RuleWithoutLength =>
      meta.validationRule != "" && (meta.validationLength.None? || meta.validationLength.value == 0.0)
    case LengthWithoutRule =>
      meta.validationRule == "" && meta.validationLength.Some? && meta.validationLength.value != 0.0
    case LengthNotMet =>
      && meta.validationLength.Some? && meta.validationLength.value != 0.0
      && var count, length := |values| as real, meta.validationLength.value;
         (|| (meta.validationRule == "Select at least" && count < length)
          || (meta.validationRule == "Select exactly" && if isSigningPage then count != length else count < length)
          || (meta.validationRule == "Select at most" && if isSigningPage then count > length else count < length))
    case _ => false
  }

  lemma CheckboxErrorsMean(values: seq<string>, meta: Meta, isSigningPage: bool)
    requires meta.CheckboxMeta?
    ensures forall e :: e in CheckboxErrors(values, meta, isSigningPage) <==>
              CheckboxComplaint(e, values, meta, isSigningPage)
  {
  }

  function CheckboxPlace(e: FieldError): nat {
    match e
    case ReadOnlyAndRequired => 0
    case NoOptions => 1
    case ReadOnlyWithoutOptions => 2
    case SelectionRequired => 3
    case RuleWithoutLength => 4
    case LengthWithoutRule => 5
    case _ => 6
  }

  lemma SelectionErrorsInOrder(both: bool, none: bool, readOnly: bool, missing: bool)
    ensures var errors := SelectionErrors(both, none, readOnly, missing);
            InOrder(errors, CheckboxPlace) && AllBefore(errors, CheckboxPlace, 4)
  {
  }

  lemma RuleErrorsInOrder(before: seq<FieldError>, noLength: bool, noRule: bool, violated: bool)
    requires InOrder(before, CheckboxPlace) && AllBefore(before, CheckboxPlace, 4)
    ensures InOrder(WithRuleErrors(before, noLength, noRule, violated), CheckboxPlace)
  {
  }

  lemma CheckboxErrorsInOrder(values: seq<string>, meta: Meta, isSigningPage: bool)
    requires meta.CheckboxMeta?
    ensures InOrder(CheckboxErrors(values, meta, isSigningPage), CheckboxPlace)
  {
    var Base(required, readOnly, _) := meta.base;
    var missing := isSigningPage && required && values == [];
    SelectionErrorsInOrder(readOnly && required, values == [], readOnly, missing);
    RuleErrorsInOrder(SelectionErrors(readOnly && required, values == [], readOnly, missing),
                      meta.validationRule != "" && !HasLength(meta), HasLength(meta) && meta.validationRule == "",
                      RuleInForce(meta) && !LengthMet(|values|, meta, isSigningPage));
  }

  method ValidateCheckboxField(values: seq<string>, meta: Meta, isSigningPage: bool) returns (errors: seq<FieldError>)
    requires meta.CheckboxMeta?
    ensures errors == CheckboxErrors(values, meta, isSigningPage)
    ensures forall e :: e in errors <==> CheckboxComplaint(e, values, meta, isSigningPage)
    ensures InOrder(errors, CheckboxPlace)
  {
    CheckboxErrorsMean(values, meta, isSigningPage);
    CheckboxErrorsInOrder(values, meta, isSigningPage);
    var Base(required, readOnly, _) := meta.base;
    var validationRule, validationLength := meta.validationRule, meta.validationLength;
    var hasLength := validationLength.Some? && validationLength.value != 0.0;
    errors := Complain([], readOnly && required, ReadOnlyAndRequired);
    errors := Complain(errors, |values| == 0, NoOptions);
    errors := Complain(errors, readOnly && |values| == 0, ReadOnlyWithoutOptions);
    errors := Complain(errors, isSigningPage && required && |values| == 0, SelectionRequired);
    errors := Complain(errors, validationRule != "" && !hasLength, RuleWithoutLength);
    errors := Complain(errors, hasLength && validationRule == "", LengthWithoutRule);
    var lengthCondition := ViolatesLength(|values|, meta, isSigningPage);
    errors := Complain(errors, lengthCondition, LengthNotMet);
  }

  /** The switch over the validation rules. */
  method ViolatesLength(selected: nat, meta: Meta, isSigningPage: bool) returns (lengthCondition: bool)
    requires meta.CheckboxMeta?
    ensures lengthCondition <==> RuleInForce(meta) && !LengthMet(selected, meta, isSigningPage)
  {
    lengthCondition := false;
    if meta.validationRule != "" && meta.validationLength.Some? && meta.validationLength.value != 0.0 {
      var validation := RuleFor(meta.validationRule);
      if validation.Some? {
        var count, length := selected as real, meta.validationLength.value;
        match validation.value {
          case Exactly =>
            lengthCondition := if isSigningPage then count != length else count < length;
          case AtLeast =>
            lengthCondition := count < length;
          case AtMost =>
            lengthCondition := if isSigningPage then count > length else count < length;
        }
      }
    }
  }

  /** At set-up there must be options, and with a rule in force as many as its length says, whatever the rule. */
  lemma CheckboxSilentAtSetUp(values: seq<string>, meta: Meta)
    requires meta.CheckboxMeta?
    ensures CheckboxErrors(values, meta, false) == [] <==>
            && !(meta.base.readOnly && meta.base.required) && values != []
            && (meta.validationRule != "" <==> meta.validationLength.Some? && meta.validationLength.value != 0.0)
            && (RuleInForce(meta) ==> |values| as real >= meta.validationLength.value)
  {
  }

  /** The length complaint of the signing page is exactly the failure of the length check that signing uses. */
  lemma LengthErrorAgrees(values: seq<string>, meta: Meta)
    requires meta.CheckboxMeta?
    ensures LengthNotMet in CheckboxErrors(values, meta, true) <==>
            RuleInForce(meta) &&
            !ValidateCheckboxLength(|values|, RuleFor(meta.validationRule).value, meta.validationLength.value)
  {
    CheckboxErrorsMean(values, meta, true);
  }
}
