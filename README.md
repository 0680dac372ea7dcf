# Contact-form controller of the Rate & Return landing page

The site is one React component, `App`. Its only logic is the lead form
and the mobile-menu flag beside it. The form state is a record of five
strings: `name`, `email`, `phone`, `company` and `message`. The component
also keeps two flags, `showPopup` (the thank-you modal) and `isMenuOpen`
(the mobile navigation). It has four state-changing handlers; the fourth,
the menu toggle, sits outside the form:

- typing into an input replaces the one field named by that input;
- submitting runs two checks in order. First, `name`, `email` and `phone`
  must be truthy, which for a string means not empty. Second, the e-mail
  must match `/^[^\s@]+@[^\s@]+\.[^\s@]+$/`. A failure shows an alert and
  changes nothing. Success shows the modal, empties all five fields and
  closes the menu;
- closing the modal clears `showPopup`;
- the menu button negates `isMenuOpen`.

The project has three modules:

- `EmailRegex` (`email_regex.dfy`) reads the pattern literally. `EmailShape`
  asks for an `@` at position i and a `.` at position j that split the
  string into three non-empty runs of the class `[^\s@]`. The lemma
  `EmailShapeCharacterisation` proves this equals the plain-words reading
  `PlainShape`: no whitespace, exactly one `@`, text before it, and a `.`
  strictly inside the part after it. Concrete accepted and rejected
  addresses follow. `IsWhitespace` is JavaScript's `\s`: the ECMAScript
  WhiteSpace and LineTerminator code points.
- `ContactForm` (`contact_form.dfy`) holds the values: `Field`, `Form`,
  `Outcome` (the two alerts or success) and `UiState`. It also holds the
  validator `Validate` and one pure transition per handler: `AfterInput`,
  `AfterSubmit`, `AfterClosePopup` and `AfterToggleMenu`. `ApplyInputs`
  models a typing session, and `LastValue` is a reference reading of it.
  The lemmas state the properties of submitting, typing and the flags.
- `Controller` (`form_controller.dfy`) holds the component as the class
  `FormController`. Its fields are `form`, `showPopup` and `isMenuOpen`.
  Each handler is a method that updates those fields in one step, and each
  method is proved against the matching pure transition. `SampleVisit`
  is a client that fills in the sample submission and sends it.

## Model

| member | source | states |
|---|---|---|
| `EmailRegex.IsWhitespace` | src/App.tsx:40 | defines `\s` of the pattern: the ECMAScript WhiteSpace and LineTerminator code points; `@` and `.` are not among them |
| `EmailRegex.EmailShape` | src/App.tsx:40-41 | defines `emailRegex.test` literally: the string splits into a run of `[^\s@]`, `@`, a run of `[^\s@]`, `.`, a run of `[^\s@]`, each run non-empty, anchored at both ends |
| `EmailRegex.EmailShapeCharacterisation` | src/App.tsx:40-41 | the pattern matches exactly the strings with no whitespace, exactly one `@`, a non-empty part before it, and a `.` with at least one character on each side in the part after it |
| `EmailRegex.AcceptsPlainAddress` | src/App.tsx:40-41 | `jane@example.com` matches |
| `EmailRegex.AcceptsSeveralDots` | src/App.tsx:40-41 | `a@b.c.d` matches: the domain may hold several dots |
| `EmailRegex.AcceptsLeadingDotInDomain` | src/App.tsx:40-41 | `a@.b.c` matches, because `.` belongs to `[^\s@]` and a second dot sits inside the domain |
| `EmailRegex.RejectsMissingDomain` | src/App.tsx:40-41 | `bob@` does not match |
| `EmailRegex.RejectsMissingAt` | src/App.tsx:40-41 | `bob.com` does not match |
| `EmailRegex.RejectsEmptyLocalPart` | src/App.tsx:40-41 | `@x.com` does not match |
| `EmailRegex.RejectsTwoAts` | src/App.tsx:40-41 | `a@b@c.d` does not match |
| `EmailRegex.RejectsWhitespace` | src/App.tsx:40-41 | `a b@c.d` does not match |
| `ContactForm.Form.Set` | src/App.tsx:24-27 | the spread-and-override record holds the new value in the named field and the old value in every other field |
| `ContactForm.Outcome.AlertText` | src/App.tsx:35-42 | gives the two alert strings of the source, verbatim, for the missing-field and the invalid-email outcome; the text is empty exactly for success, which raises no alert |
| `ContactForm.Required` | src/App.tsx:34 | defines the first stage: name, email and phone are each truthy, which for a string means not `''`; nothing is trimmed |
| `ContactForm.Validate` | src/App.tsx:34-44 | the outcome is missing-field exactly when name, email or phone is empty; it is invalid-email exactly when all three are present and the e-mail fails the pattern; success implies the pattern holds |
| `ContactForm.AfterInput` | src/App.tsx:22-28 | an input event replaces only its own field; the other four fields and both flags are unchanged |
| `ContactForm.AfterSubmit` | src/App.tsx:30-60 | defines the state after `handleSubmit`; its contract is stated by `RejectedSubmitChangesNothing` (a rejected submit changes nothing) and `AcceptedSubmitResets` (success shows the popup, closes the menu and empties all five fields) |
| `ContactForm.AfterClosePopup` | src/App.tsx:62-64 | closing hides the popup and leaves the form and the menu alone |
| `ContactForm.AfterToggleMenu` | src/App.tsx:122 | the toggle flips the menu flag and leaves the form and the popup alone |
| `ContactForm.EmptyEmailIsMissingNotInvalid` | src/App.tsx:34-44 | an empty e-mail fails the pattern too, yet is reported as a missing field, because the required check runs first |
| `ContactForm.BlanksPassRequiredButNotEmail` | src/App.tsx:34-44 | for every form whose name, email and phone are non-empty and whose e-mail is made only of whitespace, the required check passes (no trimming) and the outcome is invalid-email |
| `ContactForm.ValidateWhenRequiredPresent` | src/App.tsx:40-44 | with the required fields present, submit succeeds exactly when the e-mail has the plain-words shape, and reports invalid-email exactly when it does not |
| `ContactForm.SuccessIff` | src/App.tsx:34-47 | submit succeeds exactly when name and phone are non-empty and the e-mail has no whitespace, one `@` with text before it, and an inner `.` after it |
| `ContactForm.SampleSubmissionAccepted` | src/App.tsx:34-47 | the form {Jane Doe, jane@example.com, +1 555 1212, "", ""} passes validation |
| `ContactForm.RejectedSubmitChangesNothing` | src/App.tsx:34-44 | a failed submit leaves the form, `showPopup` and `isMenuOpen` as they were |
| `ContactForm.AcceptedSubmitResets` | src/App.tsx:46-59 | a successful submit shows the popup, closes the menu and empties all five fields, whatever their previous values |
| `ContactForm.SecondSubmitIsRejected` | src/App.tsx:34-59 | submitting again right after a success reports a missing field and changes nothing |
| `ContactForm.InputLastWriteWins` | src/App.tsx:22-28 | two inputs to the same field amount to the second one alone |
| `ContactForm.InputsToDistinctFieldsCommute` | src/App.tsx:22-28 | inputs to two different fields give the same state in either order |
| `ContactForm.SessionKeepsLastValues` | src/App.tsx:22-28 | after any sequence of inputs, each field holds the value last typed into it, or its old value if it was never touched, and both flags are unchanged |
| `ContactForm.SessionThenSubmitResets` | src/App.tsx:22-59 | any sequence of inputs followed by a successful submit leaves every field empty, the popup shown and the menu closed |
| `ContactForm.ClosePopupIdempotent` | src/App.tsx:62-64 | closing the popup twice is the same as closing it once |
| `ContactForm.ToggleMenuTwiceRestores` | src/App.tsx:122 | toggling the menu twice restores the original state |
| `Controller.FormController.constructor` | src/App.tsx:5-13 | on mount every field is empty, the popup is hidden and the menu is closed |
| `Controller.FormController.UpdateField` | src/App.tsx:22-28 | the handler's new state is `AfterInput` of the old one: only the named field changes |
| `Controller.FormController.Submit` | src/App.tsx:30-60 | the returned outcome is `Validate` of the old form; on failure nothing changes; on success the form is empty, the popup shown and the menu closed |
| `Controller.FormController.ClosePopup` | src/App.tsx:62-64 | the popup is hidden; the form and the menu are unchanged |
| `Controller.FormController.ToggleMenu` | src/App.tsx:122 | the menu flag is negated; the form and the popup are unchanged |
| `Controller.SampleVisit` | src/App.tsx:5-60 | opening the menu, typing the sample submission and submitting succeeds, and leaves an empty form, the popup shown and the menu closed |

## Left out

- The JSX markup, styling, icons, images and static copy (src/App.tsx:66-606) are presentation only.
- `scrollToForm` (src/App.tsx:15-20) is a DOM lookup and `scrollIntoView`, which are browser I/O.
- The `alert` calls (src/App.tsx:35, 42) are blocking browser I/O. `Submit` returns them as its `Outcome`, and `Outcome.AlertText` gives the message text.
- `e.preventDefault()` and the React event objects are framework plumbing. A handler receives the field and the value it reads from the event.
- React's scheduling and batching of state updates and the functional updater `prev => ...` are not modelled. Each handler is one atomic, synchronous transition, and the menu toggle reads the current flag.
- Computed keys other than the five input names are not modelled. The `[name]` key in src/App.tsx:26 only ever receives `name`, `email`, `phone`, `company` or `message` (src/App.tsx:436, 452, 470, 486, 501), so `Field` has exactly those five values.
- `IsWhitespace` lists the Unicode space separators as they stand today. A later Unicode version that adds a separator would widen JavaScript's `\s` but not this predicate. No lemma depends on the list beyond these facts: the space is in it, and `@`, `.` and the ASCII letters used in the examples are not.
- Strings are sequences of Unicode scalar values, not JavaScript's UTF-16 code units. For this pattern, which has no `u` flag and only single-code-unit characters, the match result is the same; a lone surrogate cannot be represented.
- Browsers remove CR and LF from a `type="email"` value (src/App.tsx:450) and strip leading and trailing ASCII whitespace (tab, LF, FF, CR, space) before the change handler reads it. The model does not. An e-mail made only of other `\s` characters, such as U+00A0 or U+3000, still reaches the handler from that input.
- The browser's own `required` and `type="email"` constraint validation on the inputs is not modelled. The model covers only the handler's checks.
