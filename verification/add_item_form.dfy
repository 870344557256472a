/** The "add lost item" form: validation, the submitted payload, field
    edits, and what submit and close do to the form state. */
module AddItemForm {
  import opened Wrappers
  import opened JsString

  /** The text fields edited through `handleInputChange`. */
  datatype Field =
    | ObjectName | Description | FullDescription | StudentNumber | StudentNickname
    | LocationFound | CustomLocation

  /** The form data. The picked date is kept as the `yyyy-MM-dd` text it
      is submitted as. */
  datatype FormData = FormData(
    objectName: string,
    description: string,
    fullDescription: string,
    studentNumber: string,
    studentNickname: string,
    locationFound: string,
    customLocation: string,
    foundDate: string)
  {
    function Get(f: Field): string {
      match f
      case ObjectName => objectName
      case Description => description
      case FullDescription => fullDescription
      case StudentNumber => studentNumber
      case StudentNickname => studentNickname
      case LocationFound => locationFound
      case CustomLocation => customLocation
    }

    /** `{ ...prev, [field]: value }`. */
    function With(f: Field, v: string): (d: FormData)
      ensures d.Get(f) == v
      ensures forall g :: g != f ==> d.Get(g) == Get(g)
      ensures d.foundDate == foundDate
    {
      match f
      case ObjectName => this.(objectName := v)
      case Description => this.(description := v)
      case FullDescription => this.(fullDescription := v)
      case StudentNumber => this.(studentNumber := v)
      case StudentNickname => this.(studentNickname := v)
      case LocationFound => this.(locationFound := v)
      case CustomLocation => this.(customLocation := v)
    }
  }

  /** The whole form state: data, per-field messages, and the submit
      error shown above the form. */
  datatype Form = Form(data: FormData, errors: map<Field, string>, submitError: string)

  const Other := "Other"
  const Placeholder := "/placeholder.svg?height=300&width=300"
  const AddFailed := "Failed to add item"

  /** The message recorded for a field that fails validation. */
  function Message(f: Field): string {
    match f
    case ObjectName => "Object name is required"
    case Description => "Description is required"
    case FullDescription => "Full description is required"
    case StudentNumber => "Student number is required"
    case StudentNickname => "Student nickname is required"
    case LocationFound => "Location is required"
    case CustomLocation => "Please specify the location"
  }

  /** When a field is reported: the five text fields when they trim to
      nothing; the location only when nothing was chosen (it is not
      trimmed); the custom location when "Other" is chosen and it trims to
      nothing. */
  predicate Missing(d: FormData, f: Field) {
    match f
    case LocationFound => d.locationFound == ""
    case CustomLocation => d.locationFound == Other && IsBlank(d.customLocation)
    case _ => IsBlank(d.Get(f))
  }

  /** `validateForm`: a message for every field whose rule says it is
      missing. Each test reads the data only, so the order in which the
      source runs them does not affect the result. */
  function Validate(d: FormData): (errors: map<Field, string>)
    ensures forall f :: f in errors <==> Missing(d, f)
    ensures forall f :: f in errors ==> errors[f] == Message(f)
  {
    map f: Field | Missing(d, f) :: Message(f)
  }

  /** The form passes when no message was recorded. */
  predicate IsValid(d: FormData) {
    Validate(d) == map[]
  }

  lemma ValidIffNothingMissing(d: FormData)
    ensures IsValid(d) <==> forall f :: !Missing(d, f)
  {
    if !IsValid(d) {
      var f :| f in Validate(d);
    }
  }

  /** The object handed to `onAdd`. */
  datatype Payload = Payload(
    objectName: string,
    description: string,
    fullDescription: string,
    studentNumber: string,
    studentNickname: string,
    locationFound: string,
    foundDate: string,
    imageUrl: string)

  /** The location submitted: the trimmed custom text for "Other", the
      chosen location as is otherwise. */
  function Location(d: FormData): string {
    if d.locationFound == Other then Trim(d.customLocation) else d.locationFound
  }

  /** `submitData`: trimmed text fields, the resolved location, the date
      text and the placeholder image. */
  function BuildPayload(d: FormData): (p: Payload)
    ensures p.objectName == Trim(d.objectName) && p.description == Trim(d.description)
    ensures p.fullDescription == Trim(d.fullDescription)
    ensures p.studentNumber == Trim(d.studentNumber) && p.studentNickname == Trim(d.studentNickname)
    ensures p.locationFound == (if d.locationFound == Other then Trim(d.customLocation) else d.locationFound)
    ensures p.imageUrl == Placeholder && p.foundDate == d.foundDate
  {
    Payload(Trim(d.objectName), Trim(d.description), Trim(d.fullDescription),
            Trim(d.studentNumber), Trim(d.studentNickname), Location(d), d.foundDate, Placeholder)
  }

  /** A form that passes validation yields a payload with every text field
      and the location non-empty. */
  lemma ValidPayloadFilled(d: FormData)
    requires IsValid(d)
    ensures var p := BuildPayload(d);
      p.objectName != "" && p.description != "" && p.fullDescription != ""
      && p.studentNumber != "" && p.studentNickname != "" && p.locationFound != ""
  {
    FilledWhenPresent(d, ObjectName);
    FilledWhenPresent(d, Description);
    FilledWhenPresent(d, FullDescription);
    FilledWhenPresent(d, StudentNumber);
    FilledWhenPresent(d, StudentNickname);
    FilledWhenPresent(d, CustomLocation);
    FilledWhenPresent(d, LocationFound);
  }

  /** A field a valid form does not report trims to something non-empty
      (the location, which is not trimmed, is simply non-empty). */
  lemma FilledWhenPresent(d: FormData, f: Field)
    requires IsValid(d)
    ensures f != LocationFound && f != CustomLocation ==> Trim(d.Get(f)) != ""
    ensures f == LocationFound ==> d.locationFound != ""
    ensures f == CustomLocation && d.locationFound == Other ==> Trim(d.customLocation) != ""
  {
    assert f !in Validate(d);
    assert !Missing(d, f);
    BlankIffTrimEmpty(d.Get(f));
  }

  /** Empty text fields and the given day: the state after close or a
      successful submit. */
  function Blank(today: string): FormData {
    FormData("", "", "", "", "", "", "", today)
  }

  /** `handleInputChange`: stores the value; a truthy message for that
      field is replaced by the empty string. */
  function InputChange(form: Form, f: Field, v: string): (r: Form)
    ensures r.data.Get(f) == v
    ensures forall g :: g != f ==> r.data.Get(g) == form.data.Get(g)
    ensures r.data.foundDate == form.data.foundDate
    ensures r.errors.Keys == form.errors.Keys
    ensures forall g :: g in r.errors && g != f ==> r.errors[g] == form.errors[g]
    ensures f in r.errors ==> r.errors[f] == ""
    ensures r.submitError == form.submitError
  {
    var errors := if f in form.errors && form.errors[f] != "" then form.errors[f := ""] else form.errors;
    Form(form.data.With(f, v), errors, form.submitError)
  }

  /** `handleClose`: blank fields, no messages, no submit error. */
  function Close(form: Form, today: string): (r: Form)
    ensures forall f :: r.data.Get(f) == ""
    ensures r.data.foundDate == today
    ensures r.errors == map[] && r.submitError == ""
  {
    Form(Blank(today), map[], "")
  }

  /** What `onAdd` did with the payload: resolved `true`, resolved
      `false`, or threw an error with the given message. */
  datatype Outcome = Added | Declined | Threw(message: string)

  /** `handleSubmit`. An invalid form only records its messages and sends
      nothing. A valid one sends the payload; on success the form is
      cleared; when `onAdd` resolves `false` the data stays and the submit
      error is cleared; when it throws the data stays and the submit error
      shows the message, or the default text for an empty one. */
  function Submit(form: Form, outcome: Outcome, today: string): (res: (Form, Option<Payload>))
    ensures res.1.Some? <==> IsValid(form.data)
    ensures res.1.Some? ==> res.1.value == BuildPayload(form.data)
    ensures !IsValid(form.data) ==>
              res.0 == form.(errors := Validate(form.data))
    ensures IsValid(form.data) && outcome.Added? ==>
              res.0 == Close(form, today)
    ensures IsValid(form.data) && !outcome.Added? ==>
              res.0.data == form.data && res.0.errors == map[]
    ensures IsValid(form.data) && outcome.Declined? ==> res.0.submitError == ""
    ensures IsValid(form.data) && outcome.Threw? ==>
              res.0.submitError == (if outcome.message != "" then outcome.message else AddFailed)
  {
    var errors := Validate(form.data);
    if errors != map[] then (form.(errors := errors), None)
    else
      var p := BuildPayload(form.data);
      match outcome
      case Added => (Form(Blank(today), map[], ""), Some(p))
      case Declined => (Form(form.data, errors, ""), Some(p))
      case Threw(m) => (Form(form.data, errors, if m != "" then m else AddFailed), Some(p))
  }
}
