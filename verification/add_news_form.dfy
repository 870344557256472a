/** The "add news" form: title and content validation, the submitted
    payload, field edits, submit and close. */
module AddNewsForm {
  import opened Wrappers
  import opened JsString

  datatype Field = Title | Content

  datatype FormData = FormData(title: string, content: string) {
    function Get(f: Field): string {
      match f
      case Title => title
      case Content => content
    }

    /** `{ ...prev, [field]: value }`. */
    function With(f: Field, v: string): (d: FormData)
      ensures d.Get(f) == v
      ensures forall g :: g != f ==> d.Get(g) == Get(g)
    {
      match f
      case Title => this.(title := v)
      case Content => this.(content := v)
    }
  }

  datatype Form = Form(data: FormData, errors: map<Field, string>, submitError: string)

  /** "Please enter the news title", "Please enter the news content" and
      "Could not add the news", in the interface's language. */
  const TitleRequired := "กรุณาใส่หัวข้อข่าวสาร"
  const ContentRequired := "กรุณาใส่เนื้อหาข่าวสาร"
  const AddFailed := "ไม่สามารถเพิ่มข่าวสารได้"

  function Message(f: Field): string {
    match f
    case Title => TitleRequired
    case Content => ContentRequired
  }

  /** `validateForm`: a message for each field that trims to nothing. */
  function Validate(d: FormData): (errors: map<Field, string>)
    ensures forall f :: f in errors <==> IsBlank(d.Get(f))
    ensures forall f :: f in errors ==> errors[f] == Message(f)
  {
    var e: map<Field, string> := map[];
    var e := if IsBlank(d.title) then e[Title := TitleRequired] else e;
    if IsBlank(d.content) then e[Content := ContentRequired] else e
  }

  predicate IsValid(d: FormData) {
    Validate(d) == map[]
  }

  /** The form passes exactly when both fields are non-blank. */
  lemma ValidIffBothFilled(d: FormData)
    ensures IsValid(d) <==> !IsBlank(d.title) && !IsBlank(d.content)
  {
    if IsBlank(d.title) {
      assert Title in Validate(d);
    } else if IsBlank(d.content) {
      assert Content in Validate(d);
    }
  }

  /** The object handed to `onAdd`; the author is added by the caller. */
  datatype Payload = Payload(title: string, content: string)

  function BuildPayload(d: FormData): (p: Payload)
    ensures p == Payload(Trim(d.title), Trim(d.content))
    ensures IsValid(d) ==> p.title != "" && p.content != ""
  {
    ValidIffBothFilled(d);
    Payload(Trim(d.title), Trim(d.content))
  }

  function Blank(): FormData {
    FormData("", "")
  }

  /** `handleInputChange`: stores the value; a truthy message for that
      field is replaced by the empty string; the other field and its
      message are untouched. */
  function InputChange(form: Form, f: Field, v: string): (r: Form)
    ensures r.data.Get(f) == v
    ensures forall g :: g != f ==> r.data.Get(g) == form.data.Get(g)
    ensures r.errors.Keys == form.errors.Keys
    ensures forall g :: g in r.errors && g != f ==> r.errors[g] == form.errors[g]
    ensures f in r.errors ==> r.errors[f] == ""
    ensures r.submitError == form.submitError
  {
    var errors := if f in form.errors && form.errors[f] != "" then form.errors[f := ""] else form.errors;
    Form(form.data.With(f, v), errors, form.submitError)
  }

  /** `handleClose`: both fields empty, no messages, no submit error. */
  function Close(form: Form): (r: Form)
    ensures r.data.title == "" && r.data.content == ""
    ensures r.errors == map[] && r.submitError == ""
  {
    Form(Blank(), map[], "")
  }

  datatype Outcome = Added | Declined | Threw(message: string)

  /** `handleSubmit`: an invalid form records its messages and sends
      nothing; a valid one sends the trimmed payload, is reset on success,
      and otherwise keeps its data with the submit error cleared or, when
      `onAdd` throws, set to the message or the default text. */
  function Submit(form: Form, outcome: Outcome): (res: (Form, Option<Payload>))
    ensures res.1.Some? <==> !IsBlank(form.data.title) && !IsBlank(form.data.content)
    ensures res.1.Some? ==> res.1.value == Payload(Trim(form.data.title), Trim(form.data.content))
    ensures res.1.None? ==> res.0 == form.(errors := Validate(form.data))
    ensures res.1.Some? && outcome.Added? ==> res.0 == Close(form)
    ensures res.1.Some? && !outcome.Added? ==> res.0.data == form.data && res.0.errors == map[]
    ensures res.1.Some? && outcome.Declined? ==> res.0.submitError == ""
    ensures res.1.Some? && outcome.Threw? ==>
              res.0.submitError == (if outcome.message != "" then outcome.message else AddFailed)
  {
    ValidIffBothFilled(form.data);
    var errors := Validate(form.data);
    if errors != map[] then (form.(errors := errors), None)
    else
      var p := BuildPayload(form.data);
      match outcome
      case Added => (Form(Blank(), map[], ""), Some(p))
      case Declined => (Form(form.data, errors, ""), Some(p))
      case Threw(m) => (Form(form.data, errors, if m != "" then m else AddFailed), Some(p))
  }
}
