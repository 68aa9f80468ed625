/** The newsletter sign-up form: a single `type="email"` field, the
    handler's minimal validator, and a simulated send that clears the field
    when it completes. */
module EmailSignup {
  import opened Forms
  import EmailAddress

  datatype Signup = Signup(email: string, loading: bool)

  const Initial := Signup("", false)

  /** The handler's validator: a non-empty address containing '@'. */
  predicate Acceptable(email: string)
    ensures Acceptable(email) <==> exists i :: 0 <= i < |email| && email[i] == '@'
  {
    email != "" && '@' in email
  }

  /** The browser's check of the field, which is not `required`: it may be
      empty, and otherwise must be a valid address. */
  predicate BrowserAccepts(email: string)
    ensures BrowserAccepts(email) && email != "" ==> Acceptable(email)
  {
    email == "" || EmailAddress.IsValid(email)
  }

  /** Typing into the email field; the field is disabled while loading. */
  function Edit(s: Signup, value: string): (r: Signup)
    ensures s.loading ==> r == s
    ensures !s.loading ==> r.email == value && !r.loading
  {
    if s.loading then s else s.(email := value)
  }

  /** The `submit` handler on its own. */
  function Handle(s: Signup): (r: (Signup, Outcome))
    ensures r.1 == Rejected <==> s.email == "" || '@' !in s.email
    ensures r.1 == Rejected || r.1 == Accepted
    ensures r.1 == Rejected ==> r.0 == s
    ensures r.1 == Accepted ==> r.0.email == s.email && r.0.loading
  {
    if !Acceptable(s.email) then (s, Rejected)
    else (s.(loading := true), Accepted)
  }

  /** Pressing "Sign Up": ignored while loading, stopped by the browser for a
      malformed address, otherwise handed to the handler. Since every valid
      address contains '@', the handler then rejects only an empty field. */
  function Submit(s: Signup): (r: (Signup, Outcome))
    ensures s.loading <==> r.1 == Ignored
    ensures r.1 == Blocked <==> !s.loading && !BrowserAccepts(s.email)
    ensures r.1 == Rejected <==> !s.loading && s.email == ""
    ensures r.1 == Accepted <==> !s.loading && s.email != "" && EmailAddress.IsValid(s.email)
    ensures r.1 != Accepted ==> r.0 == s
    ensures r.1 == Accepted ==> r.0 == Signup(s.email, true)
  {
    if s.loading then (s, Ignored)
    else if !BrowserAccepts(s.email) then (s, Blocked)
    else Handle(s)
  }

  /** The simulated send completing (the one-second timer firing). */
  function Finish(s: Signup): (r: Signup)
    ensures r.email == "" && !r.loading
  {
    Initial
  }

  /** "a@" passes the handler's '@' test but is stopped by the browser;
      an empty field reaches the handler, which rejects it. */
  lemma SubmitExamples()
    ensures Handle(Signup("a@", false)).1 == Accepted
    ensures Submit(Signup("a@", false)).1 == Blocked
    ensures Submit(Signup("", false)).1 == Rejected
  {
  }

  /** A valid address: the form is locked (edits and presses do nothing)
      until the send completes, which returns it to its empty, idle state. */
  lemma AcceptedSubmissionLifecycle(email: string, other: string)
    requires EmailAddress.IsValid(email)
    ensures Submit(Signup(email, false)).1 == Accepted
    ensures Submit(Submit(Signup(email, false)).0).1 == Ignored
    ensures Edit(Submit(Signup(email, false)).0, other) == Submit(Signup(email, false)).0
    ensures Finish(Submit(Signup(email, false)).0) == Initial
  {
  }
}
