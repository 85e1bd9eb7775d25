/** The add form: the draft fields, their error messages, and `validateForm`. */
module Form {
  import opened Text

  /** The three inputs, named by their `name` attribute. */
  datatype Field = NameField | GenderField | AgeField

  /** The pending record as the inputs hold it: free text. */
  datatype Draft = Draft(name: string, gender: string, age: string) {

    function Get(f: Field): string {
      match f
      case NameField => name
      case GenderField => gender
      case AgeField => age
    }

    /** `{ ...formData, [f]: v }`. */
    function With(f: Field, v: string): (d: Draft)
      ensures d.Get(f) == v
      ensures forall g :: g != f ==> d.Get(g) == Get(g)
    {
      match f
      case NameField => this.(name := v)
      case GenderField => this.(gender := v)
      case AgeField => this.(age := v)
    }
  }

  /** The draft at mount and after a successful add. */
  const EmptyDraft := Draft("", "", "")

  /** Error text keyed by field; an empty message is shown as no error. */
  type Errors = map<Field, string>

  function Message(f: Field): string {
    match f
    case NameField => "Name is required"
    case GenderField => "Gender is required"
    case AgeField => "Valid age is required"
  }

  /** An error is displayed for `f` (`errors.f && ...`). */
  predicate Shown(errors: Errors, f: Field) {
    f in errors && errors[f] != ""
  }

  /** The check `validateForm` applies to field `f`: the name and gender fail when blank
      after `trim`; the age fails when it is empty, not a number, or not positive, so
      only an unsigned numeral of a positive value passes. */
  predicate Fails(d: Draft, f: Field)
    ensures f == NameField ==> (Fails(d, f) <==> AllWhitespace(d.name))
    ensures f == GenderField ==> (Fails(d, f) <==> AllWhitespace(d.gender))
    ensures f == AgeField ==> (!Fails(d, f) <==> IsDigits(d.age) && DigitsValue(d.age) > 0)
  {
    match f
    case NameField => Trim(d.name) == ""
    case GenderField => Trim(d.gender) == ""
    case AgeField => d.age == "" || AgeNumber(d.age).None? || AgeNumber(d.age).value <= 0
  }

  /** `validateForm`: one message per failing field and no key for a passing one. */
  function Validate(d: Draft): (r: Errors)
    ensures forall f :: f in r ==> r[f] == Message(f)
    ensures NameField in r <==> AllWhitespace(d.name)
    ensures GenderField in r <==> AllWhitespace(d.gender)
    ensures AgeField !in r <==> IsDigits(d.age) && DigitsValue(d.age) > 0
    ensures r == map[] <==> !AllWhitespace(d.name) && !AllWhitespace(d.gender) && IsDigits(d.age) && DigitsValue(d.age) > 0
  {
    var r := map f | f in {NameField, GenderField, AgeField} && Fails(d, f) :: Message(f);
    assert NameField in r <==> Fails(d, NameField);
    assert GenderField in r <==> Fails(d, GenderField);
    assert AgeField in r <==> Fails(d, AgeField);
    NoErrorsIff(r);
    r
  }

  /** An error map is empty exactly when none of the three fields has a key. */
  lemma NoErrorsIff(r: Errors)
    ensures r == map[] <==> NameField !in r && GenderField !in r && AgeField !in r
  {
    if NameField !in r && GenderField !in r && AgeField !in r {
      forall f | f in r ensures false {
        match f
        case NameField =>
        case GenderField =>
        case AgeField =>
      }
      assert r.Keys == {};
    }
  }

  /** Whether a field fails validation depends on that field alone: changing one input
      leaves the verdict on the other two as it was. */
  lemma ValidateIsPerField(d: Draft, f: Field, v: string, g: Field)
    requires g != f
    ensures (g in Validate(d.With(f, v))) == (g in Validate(d))
  {
    var d' := d.With(f, v);
    assert d'.Get(g) == d.Get(g);
  }
}
