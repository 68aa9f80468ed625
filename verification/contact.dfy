/** The contact page form: four text fields, three of them `required` and
    one of `type="email"`, and a simulated send that resets the form when it
    completes. */
module Contact {
  import opened Forms
  import EmailAddress

  datatype Field = Name | Email | Subject | Message

  datatype Form = Form(name: string, email: string, subject: string, message: string)

  const EmptyForm := Form("", "", "", "")

  datatype State = State(form: Form, loading: bool)

  const Initial := State(EmptyForm, false)

  function Get(form: Form, f: Field): string
  {
    match f
    case Name => form.name
    case Email => form.email
    case Subject => form.subject
    case Message => form.message
  }

  /** Copy of `form` with field `f` replaced. */
  function Set(form: Form, f: Field, value: string): (r: Form)
    ensures Get(r, f) == value
    ensures forall g :: g != f ==> Get(r, g) == Get(form, g)
  {
    match f
    case Name => form.(name := value)
    case Email => form.(email := value)
    case Subject => form.(subject := value)
    case Message => form.(message := value)
  }

  /** The handler's validator: every field but the subject is non-empty. The
      email's format is not checked here. */
  predicate HasRequired(form: Form)
    ensures HasRequired(form) <==> forall f :: f != Subject ==> Get(form, f) != ""
  {
    assert Get(form, Name) == form.name && Get(form, Email) == form.email && Get(form, Message) == form.message;
    form.name != "" && form.email != "" && form.message != ""
  }

  /** The browser's check: the `required` fields are non-empty and the email
      field holds a valid address. */
  predicate BrowserAccepts(form: Form)
    ensures BrowserAccepts(form) ==> HasRequired(form)
  {
    form.name != "" && form.message != "" && form.email != "" && EmailAddress.IsValid(form.email)
  }

  /** Typing into one field. The inputs stay enabled while sending. */
  function Edit(s: State, f: Field, value: string): (r: State)
    ensures Get(r.form, f) == value
    ensures forall g :: g != f ==> Get(r.form, g) == Get(s.form, g)
    ensures r.loading == s.loading
  {
    s.(form := Set(s.form, f, value))
  }

  /** The `submit` handler on its own. */
  function Handle(s: State): (r: (State, Outcome))
    ensures r.1 == Rejected || r.1 == Accepted
    ensures r.1 == Rejected <==> Get(s.form, Name) == "" || Get(s.form, Email) == "" || Get(s.form, Message) == ""
    ensures r.1 == Rejected ==> r.0 == s
    ensures r.1 == Accepted ==> r.0.form == s.form && r.0.loading
  {
    if !HasRequired(s.form) then (s, Rejected)
    else (s.(loading := true), Accepted)
  }

  /** Pressing "Send Message": ignored while sending (the button is
      disabled), stopped by the browser when a required field is empty or
      the email is malformed, otherwise handed to the handler, whose own
      check then always passes. */
  function Submit(s: State): (r: (State, Outcome))
    ensures s.loading <==> r.1 == Ignored
    ensures r.1 == Blocked <==> !s.loading && !BrowserAccepts(s.form)
    ensures r.1 != Rejected
    ensures r.1 == Accepted <==> !s.loading && BrowserAccepts(s.form)
    ensures r.1 != Accepted ==> r.0 == s
    ensures r.1 == Accepted ==> r.0 == State(s.form, true)
  {
    if s.loading then (s, Ignored)
    else if !BrowserAccepts(s.form) then (s, Blocked)
    else Handle(s)
  }

  /** The simulated send completing (the one-second timer firing). */
  function Finish(s: State): (r: State)
    ensures forall f :: Get(r.form, f) == ""
    ensures !r.loading
  {
    Initial
  }

  /** The handler itself accepts any non-empty email string, with or
      without an '@', and an empty subject. */
  lemma NoEmailFormatCheck(name: string, email: string, message: string)
    requires name != "" && email != "" && message != ""
    ensures Handle(State(Form(name, email, "", message), false)).1 == Accepted
  {
  }

  /** A malformed email never reaches the handler: the browser stops the
      press that the handler alone would have accepted. */
  lemma MalformedEmailBlocked()
    ensures Handle(State(Form("n", "abc", "", "m"), false)).1 == Accepted
    ensures Submit(State(Form("n", "abc", "", "m"), false)).1 == Blocked
  {
  }

  /** Because the inputs stay enabled, an edit made while the message is
      being sent is wiped when the send completes. */
  lemma EditWhileSendingIsLost(s: State, f: Field, value: string)
    ensures Finish(Edit(s, f, value)) == Finish(s)
  {
  }
}
