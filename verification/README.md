# Contact form, notifications and navigation highlighting of a portfolio site

This project models in Dafny the interactive core of a static portfolio
site's page script, `js/script.js`. It covers five parts:

- **Field validation** (`validateField`). A required field whose trimmed
  value is empty fails with "This field is required.". Otherwise a
  non-empty `email` field is matched, untrimmed, against
  `/^[^\s@]+@[^\s@]+\.[^\s@]+$/`. A failure says "Please enter a valid
  email address."; everything else passes with an empty message. The
  verdict is shown in the field's error element (`<id>-error`), in its
  `aria-invalid` attribute and in its `error` class.
- **Clearing an error while typing** (`clearError`). Once the value is
  non-blank, the error is hidden without validating the field again.
- **The submit handler.** It validates every required field, with no
  short-circuit. If all pass it starts `submitForm`. Otherwise it focuses
  the control behind the first non-empty error element. That control's id
  is the element's id with the first "-error" removed.
- **The submit button's state machine** (`submitForm`). The button goes
  idle → busy (label "Sending...", disabled) → idle (original label,
  enabled). The form is reset and a "success" notification is shown. The
  2000 ms timer is an explicit event.
- **The notification slot** (`showNotification`) and **current-page
  highlighting** in the navigation bar.

Modules follow the script's structure:

- `Wrappers`: Option and first-match search.
- `Strings`: JavaScript white space, `trim`, `replace` with a string
  pattern, `split`/`pop`.
- `EmailPattern`: the regular expression as a predicate, a scan that
  decides it, and their equivalence.
- `Validator`: the verdict of `validateField`.
- `ContactForm`: the form, how verdicts are shown, `clearError`, and the
  submit handler with its focus rule.
- `Notifications`: the attached `.notification` elements and their removal
  timers.
- `Navigation`: current-page highlighting.
- `Page`: the page as a state machine over the contact-form events
  (submit, blur, input), the clicks on mailto links, and the submission
  and notification timers.

White space (`String.prototype.trim` and the regex `\s`) is one predicate,
`Strings.IsWs`. It covers ECMAScript WhiteSpace and LineTerminator: TAB,
VT, FF, SP, NBSP, ZWNBSP, the Unicode `Zs` characters, LF, CR, LS and PS.

Timers, clocks and the DOM are not part of the model. Each timer callback is an
event (`SubmitTimer`, `NotificationTimer(id)`) that the environment may
deliver in any order. The DOM is reduced to the state the core reads and
writes: control values and defaults, error-element texts, `aria-invalid`
and `error` marks, the submit button, and the attached notifications.

## Model

| member | source | states |
|---|---|---|
| Validator.Validate | js/script.js:146-160 | A field passes exactly when its message is empty; a failing field's message is one of the two fixed messages |
| Validator.ValidateRules | js/script.js:151-160 | The rules in their order: a required all-white-space value gets the required message; otherwise a non-empty `email` value passes iff the regex matches the untrimmed value; anything else passes with "" |
| Validator.ValidIff | js/script.js:151-160 | A field passes iff it is not a blank required field and, being a non-empty `email` field, matches the regex |
| Validator.RequiredTakesPrecedence | js/script.js:151-153 | A white-space-only required e-mail value reports the required message, not the e-mail one, though it also fails the regex |
| Validator.LeadingSpaceIsInvalid | js/script.js:154-159 | A required e-mail value that starts with a white-space character (and has some non-space) fails with the e-mail message, not the required one: the untrimmed value is matched |
| Validator.ExampleLeadingNoBreakSpace | js/script.js:154-159 | "a@b.co" passes but a no-break space before it makes it fail with the e-mail message |
| Validator.ExampleValid | js/script.js:155-156 | "a@b.co" passes |
| Validator.ExampleNoDot | js/script.js:155-158 | "a@b" fails with the e-mail message |
| Validator.ExampleEmpty | js/script.js:151-154 | An empty optional e-mail field passes with ""; an empty required one gets the required message |
| EmailPattern.EmailAddressIffRegex | js/script.js:155-156 | The left-to-right scan accepts a string exactly when the anchored regex matches it |
| EmailPattern.EmailAddressMatches | js/script.js:155-156 | Every string the scan accepts splits into three [^\s@]+ runs around an '@' and a later '.' |
| EmailPattern.MatchesAreEmailAddresses | js/script.js:155-156 | Every regex match is accepted by the scan |
| Strings.TrimSpec | js/script.js:151 | `trim` removes maximal white-space runs from both ends and leaves a middle that neither starts nor ends with white space |
| Strings.BlankIffAllWs | js/script.js:179 | A value trims to "" exactly when it is all white space |
| Strings.ReplaceFirst | js/script.js:134 | `replace` with a string pattern leaves a string without the pattern unchanged, and otherwise replaces exactly the first occurrence, keeping what comes before and after it |
| Strings.RemoveAppendedSuffix | js/script.js:134 | Removing the first "-error" from `id + "-error"` gives back `id` when `id` has no "-error" of its own |
| Strings.Split | js/script.js:16 | `split("/")` yields at least one piece, none containing "/", which join back to the input |
| Strings.LastSegment | js/script.js:16 | `split("/").pop()` is a suffix of the path without "/", and is either the whole path or preceded by "/" |
| Wrappers.FindFirstSpec | js/script.js:132 | A first-match lookup (querySelector, getElementById) returns a match with none before it, or there is no match |
| ContactForm.ShowVerdictEffect | js/script.js:162-172 | With an error element, it shows the message and the control's `aria-invalid`/`error` follow the verdict, nothing else changes; without one, nothing changes |
| ContactForm.ValidateFieldShows | js/script.js:146-175 | The returned flag is the verdict of the rules (blank required fails; a non-empty e-mail value must match the regex); with an error element the flag is true exactly when that element is left empty, `aria-invalid` is its negation and the error class is present exactly when it is false, and nothing else changes; without one nothing changes |
| ContactForm.ClearError | js/script.js:177-184 | With an error element and a non-blank value, the text becomes "", `aria-invalid` false and the error class goes, and nothing else changes; otherwise nothing changes |
| ContactForm.ClearErrorHidesInvalidEmail | js/script.js:177-184 | Typing "x" into an e-mail control hides its error although "x" fails validation |
| ContactForm.ValidUpToIff | js/script.js:121-126 | The running `isValid` after k controls holds iff every required one among them passes |
| ContactForm.HandleSubmit | js/script.js:118-142 | The loop validates every required control (no short-circuit), `isValid` is the conjunction of all verdicts, and the focus target is reported only on rejection |
| ContactForm.ErrorOfField | js/script.js:147 | In well-formed markup, control i's error element is the i-th |
| ContactForm.FindField | js/script.js:135 | getElementById finds nothing for the empty id; otherwise it finds the first control carrying the id, or nothing when no control carries it |
| ContactForm.FieldOfId | js/script.js:135 | In well-formed markup (non-empty, distinct ids), getElementById of control i's id is control i |
| ContactForm.FocusTarget | js/script.js:132-135 | The focus goes to exactly what getElementById finds for the id of the first error element showing text with its first "-error" removed: a focused control has that non-empty id, and with no error element showing text nothing is focused |
| ContactForm.FocusTargetFindsControl | js/script.js:132-137 | When some control carries the stripped id of the first error element showing text, a control is focused, and it is the first control carrying that id |
| ContactForm.ValidateUpToShows | js/script.js:122-126 | After validating the first k controls, each required one among them shows its own verdict and mark; all other elements are untouched |
| ContactForm.SubmitShowsVerdicts | js/script.js:121-126 | After a submit's validation pass, every required control shows its verdict and mark; optional controls keep theirs |
| ContactForm.FocusOnFirstInvalid | js/script.js:131-140 | The control focused after a rejected submit is the first required control, in document order, that fails |
| ContactForm.RejectedSubmitFocuses | js/script.js:131-137 | A rejected submit always finds a control to focus, and that control fails |
| Notifications.Show | js/script.js:306-338 | On a board with at most one notification, the slot discipline is kept and afterwards the new notification is the only one attached; its id belongs to no earlier notification and no pending timer, and its removal timer is pending |
| Notifications.Expire | js/script.js:346-353 | A pending timer detaches its notification only if it is still attached and leaves every other notification; a spent timer does nothing |
| Notifications.ShowKeepsSlot | js/script.js:308-338 | After showNotification exactly one notification is attached, the new one, and the slot invariant holds |
| Notifications.ExpireKeepsSlot | js/script.js:346-353 | A removal timer keeps the slot invariant |
| Notifications.StaleTimerKeepsCurrent | js/script.js:349-351 | The parentNode guard: a timer whose notification is gone leaves the current notification attached |
| Notifications.OwnTimerClears | js/script.js:346-353 | A notification's own timer empties the slot |
| Notifications.ReplacedTimerIsHarmless | js/script.js:308-353 | A replaced notification's timer, firing later, leaves the replacement attached |
| Navigation.CurrentPage | js/script.js:16 | The current page is never empty, contains no "/", and is the default page or a suffix of the path |
| Navigation.CurrentPageIsFinalSegment | js/script.js:16 | An empty path or one ending in "/" gives "index.html"; otherwise the page is the text after the last "/" |
| Navigation.SecondDisjunctUnreachable | js/script.js:21 | `currentPage === ""` never holds, so the second disjunct of the test is dead |
| Navigation.HighlightLink | js/script.js:20-24 | For a non-empty page, a link ends up active iff it already was or its href is the page, and carries aria-current="page" iff its href is the page or it already did; its href never changes |
| Navigation.Highlight | js/script.js:19-25 | The pass keeps the number of links and their hrefs |
| Navigation.HighlightExactMatch | js/script.js:19-25 | A link ends up active iff it was already active or its href equals the current page; aria-current is set iff its href equals the page |
| Navigation.ExamplePages | js/script.js:16 | "/about.html" gives "about.html"; "/" and "" give "index.html" |
| Page.ResetForgetsTyping | js/script.js:199 | form.reset() forgets what was typed: typing into any control and then resetting gives the same form as resetting |
| Page.ResetIdempotent | js/script.js:199 | Resetting twice is resetting once |
| Page.TimerRestoresButton | js/script.js:189-201 | Starting a submission and then letting its timer fire gives the button back exactly as it was before the submit, enabled and with its original label; the busy state in between keeps the button and slot discipline |
| Page.OnSubmit | js/script.js:118-142 | A disabled button submits nothing; otherwise values and notifications are untouched, the validation pass is shown, and the button ends up disabled exactly when every required control passes (then labelled "Sending..." with the old label saved); on rejection the button is unchanged; the button and slot discipline is kept |
| Page.OnBlur | js/script.js:107-110 | On any markup, a blur on a required control shows its verdict: its error element gets the verdict's message and its mark follows the verdict, and no other error element or mark changes; without an error element, or on any other control, nothing changes; values and markup never change |
| Page.OnInput | js/script.js:112-114 | Typing sets the value; on any markup, a non-blank value in a required control with an error element empties that element and marks the control valid, with no other error element or mark changed; a blank value, a missing error element or an optional control leaves all error elements and marks as they were; no other control or the button changes |
| Page.OnMailtoClick | js/script.js:256-262 | A click on a mailto link leaves the form, the submission and the focus alone; it announces "Email address copied: " followed by the link text with its white space trimmed at both ends, and on a board keeping the slot discipline that announcement is then the only notification attached |
| Page.OnSubmitTimer | js/script.js:194-202 | With no submission in flight it does nothing; otherwise every control gets its default value and nothing else about the form changes, the button is enabled with the label saved at the submit, and, on a board keeping the slot discipline, the success notification is then the only one attached; the button and slot discipline is kept |
| Page.InitialConsistent | js/script.js:100-104 | A page with well-formed markup, an enabled button and no notifications satisfies the page invariant |
| Page.StepKeepsButtonAndSlot | js/script.js:100-203 | On any markup, every event keeps at most one notification attached, keeps the button disabled exactly while a submission is in flight, and keeps it labelled "Sending..." whenever one is in flight |
| Page.StepKeepsWellFormed | js/script.js:100-203 | No event breaks well-formed markup: validation and clearError only write the error element of a required control |
| Page.StepKeepsConsistent | js/script.js:100-203 | Every event keeps both the button and slot discipline and well-formed markup |
| Page.BusyIgnoresSubmit | js/script.js:190-191 | While a submission is in flight, a submit changes nothing |
| Page.SubmitsIffAllValid | js/script.js:128-130 | An idle page starts a submission exactly when every required control passes |
| Page.RejectedSubmitFocusesFirstInvalid | js/script.js:130-140 | A rejected submit starts nothing, keeps the button, and focuses the first failing required control |
| Page.SubmitRoundTrip | js/script.js:186-203 | Submit then timer: busy in between; afterwards the original label and enabled button, default values everywhere, and exactly one notification, the success message |
| Page.AcceptedSubmitShowsNoErrors | js/script.js:121-129 | After an accepted submit every required control's error element is empty and the control is marked valid |
| Page.BlurShowsVerdict | js/script.js:108-110 | Leaving a required control shows its verdict in its own error element and mark, and no other error element changes |
| Page.InputHidesError | js/script.js:112-114 | Typing a non-blank value into a required control hides its error and marks it valid; a blank value leaves its error as it was |

## Left out

- Parallax, the scroll progress bar, IntersectionObserver animations,
  smooth scrolling and `scrollIntoView`, hover and click transforms, and
  all inline styles are presentation only.
- The 10 ms slide-in of a notification and the 4000 ms slide-out stage
  only change a style. The removal at 4000 + 300 ms is the single event
  `NotificationTimer`.
- `copyToClipboard` depends on the clipboard and is outside the form
  logic. Of a mailto click the model keeps only the notification
  (`Page.OnMailtoClick`); the clipboard write and the navigation to the
  link 1000 ms later are left out.
- The typing effect, the back-to-top button and dark mode do not touch
  the form, the notifications or the navigation state.
- Real timers, clocks and event dispatch are not modelled. Events are
  delivered one at a time in any order the environment chooses.
- Earlier notification timers are never cancelled by the script, and the
  model keeps them pending too. Harmlessness comes only from the
  `parentNode` guard.
- Page.OnSubmit: a submit while the button is disabled is modelled as
  doing nothing. A disabled submit button dispatches no submission, and
  submission by other means (a script calling `requestSubmit()`) is not
  modelled.
- Page.BusyIgnoresSubmit and Page.SubmitRoundTrip hold only for a form
  with a single submit control. Lines 188-191 disable only the first
  `button[type="submit"]`. A second submit control, such as an
  `<input type="submit">`, stays enabled while busy. Using it runs the
  validation pass again and schedules a second timer. The label saved
  by that second submit is "Sending...", so that label is what the
  button shows at the end. The model has one button and does not model
  this.
- Page.StartSubmission: a form without a `button[type="submit"]` is not
  modelled. For such a form, line 189 throws a TypeError during the
  submit, after the validation pass, and no timer is scheduled. The model
  assumes the form has a submit button.
- Validator.Validate: the browser's value sanitization for
  `<input type="email">` is not modelled. That sanitization strips CR and
  LF and trims leading and trailing ASCII white space before the script
  reads the value. The model takes the value the script reads as given,
  so an ASCII space before an address reaches the script only from a
  control of another type. Non-ASCII white space such as U+00A0 survives
  sanitization.
- ContactForm.FindError: `getElementById` searches the whole document.
  The model searches only the form's own error elements and controls, so
  ids outside the form are not modelled.
- ContactForm.FocusOnFirstInvalid: proved for well-formed markup only.
  Well formed means one `<id>-error` element per control in the same
  order, non-empty and distinct ids, no id containing "-error", and empty
  error elements on optional controls. A control without an id is never
  focused, because `getElementById("")` finds nothing. For other markup the model still
  computes the script's focus target (`ContactForm.FocusTarget`), but no
  theorem names it.
- Strings.IsWs: strings are sequences of Unicode characters, not UTF-16
  code units. Surrogate pairs are outside the white-space set either way.
- Page.Reset: `form.reset()` neither clears error texts nor restores
  marks, and the model keeps them as the script leaves them.
