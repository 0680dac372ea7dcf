/** The App component as an object: its three pieces of `useState` state
    are fields, and each event handler is a method that updates them in
    one synchronous step. */
module Controller {
  import opened EmailRegex
  import opened ContactForm

  class FormController {
    var form: Form
    var showPopup: bool
    var isMenuOpen: bool

    /** The abstract state the handlers are specified against. */
    function State(): UiState
      reads this
    {
      UiState(form, showPopup, isMenuOpen)
    }

    /** Mounting: the `useState` initial values. */
    constructor ()
      ensures State() == Initial
    {
      form := EmptyForm;
      showPopup := false;
      isMenuOpen := false;
    }

    /** `handleInputChange` for the input named f receiving v. */
    method UpdateField(f: Field, v: string)
      modifies this
      ensures State() == AfterInput(old(State()), f, v)
      ensures form.Get(f) == v
      ensures forall other :: other != f ==> form.Get(other) == old(form).Get(other)
      ensures showPopup == old(showPopup) && isMenuOpen == old(isMenuOpen)
    {
      form := form.Set(f, v);
    }

    /** `handleSubmit`: the required check, then the e-mail pattern; a
        failure returns its alert as the outcome and changes nothing, and
        success shows the popup, resets the form and closes the menu. */
    method Submit() returns (o: Outcome)
      modifies this
      ensures o == Validate(old(form))
      ensures State() == AfterSubmit(old(State()))
      ensures o != Success ==> unchanged(this)
      ensures o == Success ==> form == EmptyForm && showPopup && !isMenuOpen
    {
      if form.name == "" || form.email == "" || form.phone == "" {
        return MissingRequired;
      }
      if !EmailShape(form.email) {
        return InvalidEmail;
      }
      showPopup := true;
      form := EmptyForm;
      isMenuOpen := false;
      o := Success;
    }

    /** `closePopup`. */
    method ClosePopup()
      modifies this
      ensures State() == AfterClosePopup(old(State()))
      ensures !showPopup && form == old(form) && isMenuOpen == old(isMenuOpen)
    {
      showPopup := false;
    }

    /** The mobile menu button. */
    method ToggleMenu()
      modifies this
      ensures State() == AfterToggleMenu(old(State()))
      ensures isMenuOpen == !old(isMenuOpen) && form == old(form) && showPopup == old(showPopup)
    {
      isMenuOpen := !isMenuOpen;
    }
  }

  /** A visit that fills the form with the sample submission and sends it:
      the popup appears and every field is empty again. */
  method SampleVisit() returns (c: FormController, o: Outcome)
    ensures o == Success
    ensures c.form == EmptyForm && c.showPopup && !c.isMenuOpen
  {
    c := new FormController();
    c.ToggleMenu();
    c.UpdateField(Name, "Jane Doe");
    c.UpdateField(Email, "jane@example.com");
    c.UpdateField(Phone, "+1 555 1212");
    SampleSubmissionAccepted();
    o := c.Submit();
  }
}
