/** The contact form of the App component: its five text fields, the
    two-stage validation run on submit, and the state transitions of the
    event handlers, as pure functions over the component's state. */
module ContactForm {
  import opened EmailRegex

  /** The five inputs of the form, by their `name` attribute. */
  datatype Field = Name | Email | Phone | Company | Message

  /** What submitting reports: one of the two alerts, or success. */
  datatype Outcome = MissingRequired | InvalidEmail | Success
  {
    /** The alert shown for a rejected submission; none on success. */
    function AlertText(): (text: string)
      ensures text == "" <==> this == Success
    {
      match this
      case MissingRequired => "Please fill in all required fields (Name, Email, Phone)"
      case InvalidEmail => "Please enter a valid email address"
      case Success => ""
    }
  }

  /** The `formData` record: always exactly these five strings. */
  datatype Form = Form(name: string, email: string, phone: string, company: string, message: string)
  {
    function Get(f: Field): string
    {
      match f
      case Name => name
      case Email => email
      case Phone => phone
      case Company => company
      case Message => message
    }

    /** The record with field f replaced by v (`{ ...prev, [name]: value }`). */
    function Set(f: Field, v: string): (g: Form)
      ensures g.Get(f) == v
      ensures forall other :: other != f ==> g.Get(other) == Get(other)
    {
      match f
      case Name => this.(name := v)
      case Email => this.(email := v)
      case Phone => this.(phone := v)
      case Company => this.(company := v)
      case Message => this.(message := v)
    }
  }

  /** The form as mounted and as reset after a successful submission. */
  const EmptyForm := Form("", "", "", "", "")

  /** JavaScript truthiness of a string: only the empty string is falsy. */
  predicate Truthy(s: string)
  {
    s != ""
  }

  /** The first stage: `formData.name`, `.email` and `.phone` are truthy. */
  predicate Required(f: Form)
  {
    Truthy(f.name) && Truthy(f.email) && Truthy(f.phone)
  }

  /** The submit handler's validation: the required check first, the
      e-mail pattern only once it has passed. */
  function Validate(f: Form): (o: Outcome)
    ensures o == MissingRequired <==> f.name == "" || f.email == "" || f.phone == ""
    ensures o == InvalidEmail <==> f.name != "" && f.email != "" && f.phone != "" && !EmailShape(f.email)
    ensures o == Success ==> EmailShape(f.email)
  {
    if !Required(f) then MissingRequired
    else if !EmailShape(f.email) then InvalidEmail
    else Success
  }

  /** The component's local state: the form and the two visibility flags. */
  datatype UiState = UiState(form: Form, showPopup: bool, isMenuOpen: bool)

  /** On mount: empty form, popup hidden, menu closed. */
  const Initial := UiState(EmptyForm, false, false)

  /** `handleInputChange` for the input named f receiving v. */
  function AfterInput(s: UiState, f: Field, v: string): (t: UiState)
    ensures t.form.Get(f) == v
    ensures forall other :: other != f ==> t.form.Get(other) == s.form.Get(other)
    ensures t.showPopup == s.showPopup && t.isMenuOpen == s.isMenuOpen
  {
    s.(form := s.form.Set(f, v))
  }

  /** The state after `handleSubmit`. */
  function AfterSubmit(s: UiState): UiState
  {
    if Validate(s.form) == Success then UiState(EmptyForm, true, false) else s
  }

  /** `closePopup`. */
  function AfterClosePopup(s: UiState): (t: UiState)
    ensures !t.showPopup
    ensures t.form == s.form && t.isMenuOpen == s.isMenuOpen
  {
    s.(showPopup := false)
  }

  /** The mobile menu button: `setIsMenuOpen(!isMenuOpen)`. */
  function AfterToggleMenu(s: UiState): (t: UiState)
    ensures t.isMenuOpen != s.isMenuOpen
    ensures t.form == s.form && t.showPopup == s.showPopup
  {
    s.(isMenuOpen := !s.isMenuOpen)
  }

  /** One keystroke-level change of one input. */
  datatype Input = Input(field: Field, value: string)

  /** A typing session: the inputs handled in order. */
  function ApplyInputs(s: UiState, inputs: seq<Input>): UiState
    decreases |inputs|
  {
    if inputs == [] then s
    else ApplyInputs(AfterInput(s, inputs[0].field, inputs[0].value), inputs[1..])
  }

  /** Reference reading of a session: the value last given to f, or the
      value it had before the session when the session never touches f. */
  function LastValue(before: string, inputs: seq<Input>, f: Field): string
    decreases |inputs|
  {
    if inputs == [] then before
    else if inputs[|inputs| - 1].field == f then inputs[|inputs| - 1].value
    else LastValue(before, inputs[..|inputs| - 1], f)
  }

  // ---------------------------------------------------------------------
  // Validation

  /** An empty e-mail is reported as missing, never as malformed: the
      required check runs first although the pattern rejects "" too. */
  lemma EmptyEmailIsMissingNotInvalid(f: Form)
    requires f.email == ""
    ensures !EmailShape(f.email)
    ensures Validate(f) == MissingRequired
  {
  }

  /** The required check does no trimming: a field made only of
      whitespace is non-empty and passes it, so a form whose required
      fields are all present and whose e-mail is all whitespace is
      rejected by the e-mail pattern and by nothing earlier. */
  lemma BlanksPassRequiredButNotEmail(f: Form)
    requires f.name != "" && f.email != "" && f.phone != ""
    requires forall k :: 0 <= k < |f.email| ==> IsWhitespace(f.email[k])
    ensures Required(f)
    ensures Validate(f) == InvalidEmail
  {
  }

  /** With the required fields present, the outcome turns on the e-mail
      pattern alone, read in plain words. */
  lemma ValidateWhenRequiredPresent(f: Form)
    requires f.name != "" && f.email != "" && f.phone != ""
    ensures Validate(f) == Success <==> PlainShape(f.email)
    ensures Validate(f) == InvalidEmail <==> !PlainShape(f.email)
  {
    EmailShapeCharacterisation(f.email);
  }

  /** A submission succeeds exactly when the three required fields are
      non-empty and the e-mail has no whitespace, one '@' with text before
      it, and a dot strictly inside the part after it. */
  lemma SuccessIff(f: Form)
    ensures Validate(f) == Success <==>
      f.name != "" && f.phone != "" && NoWhitespace(f.email) && Count(f.email, '@') == 1 &&
      exists k | 0 < k < |f.email| :: f.email[k] == '@' && InnerDot(f.email[k + 1..])
  {
    EmailShapeCharacterisation(f.email);
  }

  /** The example submission of the contact form is accepted. */
  lemma SampleSubmissionAccepted()
    ensures Validate(Form("Jane Doe", "jane@example.com", "+1 555 1212", "", "")) == Success
  {
    AcceptsPlainAddress();
  }

  // ---------------------------------------------------------------------
  // Submit

  /** A rejected submission changes nothing: form, popup and menu stay. */
  lemma RejectedSubmitChangesNothing(s: UiState)
    requires Validate(s.form) != Success
    ensures AfterSubmit(s) == s
  {
  }

  /** A successful submission shows the popup, empties every field and
      closes the menu, whatever the fields and flags were. */
  lemma AcceptedSubmitResets(s: UiState)
    requires Validate(s.form) == Success
    ensures AfterSubmit(s).showPopup && !AfterSubmit(s).isMenuOpen
    ensures forall f :: AfterSubmit(s).form.Get(f) == ""
  {
  }

  /** Submitting twice: the emptied form fails the required check, so the
      second submission leaves the state of the first in place. */
  lemma SecondSubmitIsRejected(s: UiState)
    requires Validate(s.form) == Success
    ensures Validate(AfterSubmit(s).form) == MissingRequired
    ensures AfterSubmit(AfterSubmit(s)) == AfterSubmit(s)
  {
  }

  // ---------------------------------------------------------------------
  // Field updates

  /** Writing a field twice keeps the second value only. */
  lemma InputLastWriteWins(s: UiState, f: Field, v: string, w: string)
    ensures AfterInput(AfterInput(s, f, v), f, w) == AfterInput(s, f, w)
  {
  }

  /** Inputs to two different fields may be handled in either order. */
  lemma InputsToDistinctFieldsCommute(s: UiState, f: Field, v: string, g: Field, w: string)
    requires f != g
    ensures AfterInput(AfterInput(s, f, v), g, w) == AfterInput(AfterInput(s, g, w), f, v)
  {
  }

  /** A typing session leaves the flags alone and leaves each field holding
      the value last typed into it, or its old value if never touched. */
  lemma {:induction false} SessionKeepsLastValues(s: UiState, inputs: seq<Input>, f: Field)
    ensures ApplyInputs(s, inputs).form.Get(f) == LastValue(s.form.Get(f), inputs, f)
    ensures ApplyInputs(s, inputs).showPopup == s.showPopup
    ensures ApplyInputs(s, inputs).isMenuOpen == s.isMenuOpen
    decreases |inputs|
  {
    if inputs != [] {
      var s' := AfterInput(s, inputs[0].field, inputs[0].value);
      SessionKeepsLastValues(s', inputs[1..], f);
      LastValueOfTail(s.form.Get(f), inputs, f);
    }
  }

  /** LastValue over a non-empty session equals LastValue over its tail
      started from the state left by the first input. */
  lemma {:induction false} LastValueOfTail(before: string, inputs: seq<Input>, f: Field)
    requires inputs != []
    ensures LastValue(before, inputs, f) ==
      LastValue(if inputs[0].field == f then inputs[0].value else before, inputs[1..], f)
    decreases |inputs|
  {
    var n := |inputs|;
    if n > 1 && inputs[n - 1].field != f {
      LastValueOfTail(before, inputs[..n - 1], f);
      assert inputs[..n - 1][1..] == inputs[1..][..n - 2];
    }
  }

  /** Corollary of AcceptedSubmitResets for the state a typing session
      leaves: whatever was typed, and in whatever order, a successful
      submission leaves every field empty, the popup shown and the menu
      closed. */
  lemma SessionThenSubmitResets(s: UiState, inputs: seq<Input>)
    requires Validate(ApplyInputs(s, inputs).form) == Success
    ensures AfterSubmit(ApplyInputs(s, inputs)) == UiState(EmptyForm, true, false)
  {
  }

  // ---------------------------------------------------------------------
  // Flags

  /** Closing the popup twice is closing it once. */
  lemma ClosePopupIdempotent(s: UiState)
    ensures AfterClosePopup(AfterClosePopup(s)) == AfterClosePopup(s)
  {
  }

  /** Toggling the menu twice restores it. */
  lemma ToggleMenuTwiceRestores(s: UiState)
    ensures AfterToggleMenu(AfterToggleMenu(s)) == s
  {
  }
}
