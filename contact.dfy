/** The contact form: three text fields edited one at a time, and a submit
    that logs what was entered and clears the form. */
module Contact {

  /** The `name` attributes of the form's inputs. */
  datatype Field = Name | Email | Message

  /** The `formData` state cell. */
  datatype FormData = FormData(name: string, email: string, message: string)

  /** The form as it starts and as submit leaves it. */
  const Empty: FormData := FormData("", "", "")

  /** The value a field shows. */
  function Get(d: FormData, f: Field): string
  {
    match f
    case Name => d.name
    case Email => d.email
    case Message => d.message
  }

  /** `{ ...prevState, [name]: value }`: the named field takes the new value,
      the other fields keep theirs. */
  function WithField(d: FormData, f: Field, value: string): (r: FormData)
    ensures Get(r, f) == value
    ensures forall g :: g != f ==> Get(r, g) == Get(d, g)
  {
    match f
    case Name => d.(name := value)
    case Email => d.(email := value)
    case Message => d.(message := value)
  }

  /** Two edits of one field: the last one wins. */
  lemma LastWriteWins(d: FormData, f: Field, v: string, w: string)
    ensures WithField(WithField(d, f, v), f, w) == WithField(d, f, w)
  {
  }

  /** Writing back the value a field already shows changes nothing. */
  lemma RewriteIsNoop(d: FormData, f: Field)
    ensures WithField(d, f, Get(d, f)) == d
  {
  }

  /** Edits of different fields do not interfere. */
  lemma DistinctFieldsCommute(d: FormData, f: Field, g: Field, v: string, w: string)
    requires f != g
    ensures WithField(WithField(d, f, v), g, w) == WithField(WithField(d, g, w), f, v)
  {
  }

  class ContactPage {
    var formData: FormData

    constructor ()
      ensures formData == Empty
    {
      formData := Empty;
    }

    /** `handleChange`: the input named `f` now holds `value`. */
    method HandleChange(f: Field, value: string)
      modifies this
      ensures formData == WithField(old(formData), f, value)
    {
      formData := WithField(formData, f, value);
    }

    /** `handleSubmit`: the values are logged, then every field is reset to
        the empty string whatever it held. Every input is `required`, so the
        browser submits only a form with no empty field; right after a reset
        it therefore refuses a second submit. */
    method HandleSubmit() returns (logged: FormData)
      requires forall f :: Get(formData, f) != ""
      modifies this
      ensures logged == old(formData)
      ensures formData == Empty
      ensures forall f :: Get(formData, f) == ""
    {
      logged := formData;
      formData := Empty;
    }
  }
}
