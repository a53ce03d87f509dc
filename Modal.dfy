/**
 * The reservation form's record and the messages the modal sends to the
 * calendar that hosts it.
 */
module Modal {
  import opened Wrappers
  import opened Dates

  /** The form record: three contact fields and the date being reserved. */
  datatype ReservationFormData = ReservationFormData(name: string, email: string, phone: string, date: Instant)

  /** The `name` attribute of the form's three text inputs. */
  datatype Field = Name | Email | Phone

  /** The callbacks the modal invokes on its host, in the order it invokes them. */
  datatype ModalCall = OnSubmit(record: ReservationFormData) | OnClose

  function FieldValue(form: ReservationFormData, field: Field): string {
    match field
    case Name => form.name
    case Email => form.email
    case Phone => form.phone
  }

  /**
   * The form state the modal starts with: empty contact fields, dated with
   * the selected date when there is one and with the current instant otherwise.
   */
  function InitialForm(selectedDate: Option<Instant>, now: Instant): (form: ReservationFormData)
    ensures forall field :: FieldValue(form, field) == ""
    ensures selectedDate.Some? ==> form.date == selectedDate.value
    ensures selectedDate.None? ==> form.date == now
  {
    ReservationFormData("", "", "", if selectedDate.Some? then selectedDate.value else now)
  }

  /** `{ ...prev, [name]: value }`: the record with one input's field replaced. */
  function WithField(form: ReservationFormData, field: Field, value: string): (r: ReservationFormData)
    ensures FieldValue(r, field) == value
    ensures forall other | other != field :: FieldValue(r, other) == FieldValue(form, other)
    ensures r.date == form.date
  {
    match field
    case Name => form.(name := value)
    case Email => form.(email := value)
    case Phone => form.(phone := value)
  }

  /** A later edit of the same input overrides an earlier one. */
  lemma WithFieldOverrides(form: ReservationFormData, field: Field, first: string, second: string)
    ensures WithField(WithField(form, field, first), field, second) == WithField(form, field, second)
  {
  }

  /** Edits of different inputs can be made in either order. */
  lemma WithFieldCommutes(form: ReservationFormData, f: Field, g: Field, a: string, b: string)
    requires f != g
    ensures WithField(WithField(form, f, a), g, b) == WithField(WithField(form, g, b), f, a)
  {
  }

  /** The inputs marked `required` are all non-empty, so the browser lets the form submit. */
  predicate Filled(form: ReservationFormData) {
    forall field :: FieldValue(form, field) != ""
  }
}
