/** Field types and the settings stored with a field. Numbers are exact. */
module FieldMeta {
  import opened Wrappers

  datatype FieldType =
    | Signature | FreeSignature | Initials | Name | Email | Date | Text | Number | Radio | Checkbox | Dropdown

  datatype Base = Base(required: bool, readOnly: bool, fontSize: Option<real>)

  /** An option of a radio field. */
  datatype Choice = Choice(value: string, checked: bool)

  datatype Meta =
    | PlainMeta(base: Base, kind: FieldType)
    | TextMeta(base: Base, characterLimit: Option<real>)
    | NumberMeta(base: Base, numberFormat: string, minValue: Option<real>, maxValue: Option<real>)
    | RadioMeta(base: Base, choices: Option<seq<Choice>>)
    | CheckboxMeta(base: Base, options: Option<seq<string>>, validationRule: string, validationLength: Option<real>)
    | DropdownMeta(base: Base, options: Option<seq<string>>, defaultValue: string)
  {
    function Type(): FieldType {
      match this
      case PlainMeta(_, kind) => kind
      case TextMeta(_, _) => Text
      case NumberMeta(_, _, _, _) => Number
      case RadioMeta(_, _) => Radio
      case CheckboxMeta(_, _, _, _) => Checkbox
      case DropdownMeta(_, _, _) => Dropdown
    }

    /** The bounds that the schemas put on settings. */
    predicate WellFormed() {
      && (base.fontSize.Some? ==> 8.0 <= base.fontSize.value <= 96.0)
      && (TextMeta? && characterLimit.Some? ==> characterLimit.value >= 0.0)
      && (PlainMeta? ==> kind in {Signature, Initials, Name, Email, Date})
    }
  }

  /** The stored JSON: nothing, the empty object, an object that fits no schema, or settings. */
  datatype Stored = NoMeta | EmptyObject | Malformed | Settings(meta: Meta)

  /** What the schema of one field type makes of the stored JSON. */
  function ParseAs(stored: Stored, kind: FieldType): Option<Meta> {
    if stored.Settings? && stored.meta.WellFormed() && stored.meta.Type() == kind then Some(stored.meta) else None
  }

  datatype Field = Field(kind: FieldType, stored: Stored, inserted: bool, customText: string)

  /** The types whose settings can make a field optional. */
  const OPTIONAL_SETTING_TYPES: set<FieldType> := {Number, Text, Dropdown, Radio, Checkbox}

  /** The schema of any field type reads the empty object as no settings, and settings of whatever type. */
  predicate IsRequiredField(field: Field) {
    if field.kind !in OPTIONAL_SETTING_TYPES then true
    else match field.stored
         case NoMeta => false
         case EmptyObject => false
         case Malformed => false
         case Settings(meta) => meta.WellFormed() && meta.base.required
  }

  predicate IsFieldUnsignedAndRequired(field: Field) {
    IsRequiredField(field) && !field.inserted
  }

  predicate FieldsContainUnsignedRequiredField(fields: seq<Field>) {
    exists i :: 0 <= i < |fields| && IsFieldUnsignedAndRequired(fields[i])
  }
}
