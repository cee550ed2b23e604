/**
 * `Field` and its three kinds (`Name`, `Phone`, `Birthday`) from classes.py.
 * A field stores its value unchecked at construction; only the `value`
 * setter of a phone or a birthday validates, and a refused value leaves the
 * stored one in place. Two fields are equal when they are of the same kind
 * and hold the same value.
 */
module Fields {
  import opened Wrappers
  import opened Validators

  datatype Kind = NameKind | PhoneKind | BirthdayKind

  datatype FieldError =
    | RequiredFieldMissing  // the ValueError of `Field.__init__`
    | WrongPhone
    | WrongDate

  /** What the setter of each kind accepts. */
  predicate Accepts(kind: Kind, val: string) {
    match kind
    case NameKind => true
    case PhoneKind => IsValidPhone(val)
    case BirthdayKind => IsValidDate(val)
  }

  /** The exception the setter of each kind raises on a refused value. */
  function RefusalError(kind: Kind): FieldError
    requires kind != NameKind
  {
    if kind == PhoneKind then WrongPhone else WrongDate
  }

  class Field {
    const kind: Kind
    const required: bool
    var value: string

    /** Stores `value` unchecked. */
    constructor (kind: Kind, value: string, required: bool)
      ensures this.kind == kind && this.value == value && this.required == required
    {
      this.kind := kind;
      this.value := value;
      this.required := required;
    }

    /**
     * The `value` setter. A name takes any value; a phone or a birthday takes
     * only a value its validator accepts and otherwise raises, keeping the old value.
     */
    method SetValue(val: string) returns (err: Option<FieldError>)
      modifies this
      ensures err.None? <==> Accepts(kind, val)
      ensures err.Some? ==> kind != NameKind && err.value == RefusalError(kind)
      ensures value == if err.None? then val else old(value)
    {
      if Accepts(kind, val) {
        value := val;
        err := None;
      } else {
        err := Some(RefusalError(kind));
      }
    }

    /** `__eq__`: same kind and same value. */
    predicate Equals(other: Field)
      reads this, other
      ensures other == this ==> Equals(other)
      ensures Equals(other) ==> kind == other.kind
    {
      kind == other.kind && value == other.value
    }
  }

  /**
   * Among phone fields equality is equality of the values, so a list of Phone
   * fields behaves, for `in`, `index`, `remove` and `set`, like the list of its values.
   */
  lemma PhoneEqualityIsValueEquality(f: Field, g: Field)
    requires f.kind == PhoneKind && g.kind == PhoneKind
    ensures f.Equals(g) <==> f.value == g.value
  {
  }

  /** `Field.__init__`: fails only when the field is required and its value is empty. */
  method NewField(kind: Kind, value: string, required: bool) returns (r: Result<Field, FieldError>)
    ensures r.Failure? <==> required && value == ""
    ensures r.Failure? ==> r.error == RequiredFieldMissing
    ensures r.Success? ==>
              fresh(r.value) && r.value.kind == kind && r.value.value == value && r.value.required == required
  {
    if required && value == "" {
      return Failure(RequiredFieldMissing);
    }
    var f := new Field(kind, value, required);
    return Success(f);
  }
}
