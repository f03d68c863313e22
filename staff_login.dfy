/** The staff login form: a username and a password edited one at a time,
    and a submit that logs the attempt and keeps what was typed. No
    credentials are checked. */
module StaffLogin {

  /** The `name` attributes of the form's inputs. */
  datatype Field = Username | Password

  /** The `formData` state cell. */
  datatype FormData = FormData(username: string, password: string)

  /** The form as it starts. */
  const Empty: FormData := FormData("", "")

  /** The value a field shows. */
  function Get(d: FormData, f: Field): string
  {
    match f
    case Username => d.username
    case Password => d.password
  }

  /** `{ ...prevState, [name]: value }`: the named field takes the new value,
      the other field keeps its own. */
  function WithField(d: FormData, f: Field, value: string): (r: FormData)
    ensures Get(r, f) == value
    ensures forall g :: g != f ==> Get(r, g) == Get(d, g)
  {
    match f
    case Username => d.(username := value)
    case Password => d.(password := value)
  }

  /** Two edits of one field: the last one wins. */
  lemma LastWriteWins(d: FormData, f: Field, v: string, w: string)
    ensures WithField(WithField(d, f, v), f, w) == WithField(d, f, w)
  {
  }

  class StaffLoginPage {
    var formData: FormData

    constructor ()
      ensures formData == Empty
    {
      formData := Empty;
    }

    /** `handleChange`: the input named `f` now holds `value`. */
    method HandleChange(f: Field, value: string)
      modifies this
      ensures formData == WithField(old(formData), f, value)
    {
      formData := WithField(formData, f, value);
    }

    /** `handleSubmit`: the attempt is logged as it stands; unlike the
        contact form, nothing is reset. Both inputs are `required`, so the
        browser submits only when neither is empty. */
    method HandleSubmit() returns (logged: FormData)
      requires forall f :: Get(formData, f) != ""
      ensures logged == formData
      ensures unchanged(this)
    {
      logged := formData;
    }
  }
}
