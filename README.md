# Contact form validation, modelled in Dafny

This project models the client-side script of an Astro contact form
(`public/js/formValidation.js`). The page has six controls: first name, last
name, email, message, a radio group for the query type and a consent
checkbox. On submit, the script checks the controls in a fixed order and
shows a message under each failing control. It marks each failing text field
`aria-invalid`, focuses the first failing control and, when nothing fails,
shows a success toast and empties the message field. While the user edits,
the handlers hide the error of the control being edited and validate
nothing. A timer hides the toast again.

The Dafny modules follow the script's parts:

- `JsString`: the JavaScript whitespace class. A single `IsWs` is shared by
  `String.prototype.trim` and the regular-expression escape `\s`. The module
  also holds `Trim`.
- `EmailFormat`: `isValidEmail`, that is the pattern `^[^\s@]+@[^\s@]+\.[^\s@]+$`
  written out over characters. It is proved equal to a plain description of
  the accepted shape.
- `Validator`: the submit handler's decisions as pure functions.
  - `Check` is the handler's test for one control, branch for branch.
  - `Validate` collects the failures and the focus target.
  - `Fails` and `Expected` restate the decisions without the handler's code,
    and lemmas tie the two together.
- `Toast`: the success toast as a state machine. It tracks shown/hidden and
  the number of pending one-shot hide timers, and a timer firing is an
  explicit event.
- `FormPage`: the page itself.
  - The indicator state is a value (`Marks`): visible indicators,
    `aria-invalid` fields and the message written into each indicator. The
    script's `showError*`/`clearError*` helpers are functions on it.
  - The class `FormModel` holds the control values, the indicators, the toast
    and the focused control. Its methods are the submit handler and the
    input/change handlers, and they update these fields in place.
  - The submit handler's checks run step by step (`Report`,
    `CheckTextFields`, `CheckChoices`). Each step is proved to keep the
    indicators in step with the outcome `Validate` computes.

## Model

| member | source | states |
|---|---|---|
| JsString.IsWs | public/js/formValidation.js:158-161 | the whitespace class of `trim()` and of `\s`, one definition for both; its consequences are stated by `JsString.Trim` and `EmailFormat.WhitespaceNeverValid` |
| JsString.Trim | public/js/formValidation.js:25-54 | `trim()` is empty exactly when the value is blank (all whitespace), otherwise starts and ends with non-whitespace, and is never longer than the value |
| JsString.TrimIsSlice | public/js/formValidation.js:25-54 | `trim()` returns a slice of the value with only whitespace before and after it; with the ends of `Trim`'s result not whitespace, this is exactly the value with its leading and trailing whitespace removed |
| EmailFormat.IsValidEmail | public/js/formValidation.js:158-161 | `isValidEmail`: some `@` and a later `.` split the string into three non-empty runs without whitespace or `@`; `EmailFormat.IsValidEmailIffShape` states what it accepts |
| EmailFormat.ValidHasShape | public/js/formValidation.js:158-161 | a string the email pattern matches has no whitespace, exactly one `@`, a non-empty part before it and a `.` strictly inside the part after it |
| EmailFormat.ShapeIsValid | public/js/formValidation.js:158-161 | every string of that plain shape is matched by the pattern |
| EmailFormat.IsValidEmailIffShape | public/js/formValidation.js:158-161 | `isValidEmail(s)` holds iff `s` has the plain shape (both directions) |
| EmailFormat.WhitespaceNeverValid | public/js/formValidation.js:158-161 | a string with whitespace at any position is rejected |
| EmailFormat.AcceptsShortest | public/js/formValidation.js:158-161 | `a@b.co` is accepted |
| EmailFormat.RejectsNearMisses | public/js/formValidation.js:158-161 | strings with no `@`, no `.` after the `@`, two `@`, a `.` only before the `@`, or nothing before the `@` are rejected |
| EmailFormat.CountOneIffOnlyAt | public/js/formValidation.js:158-161 | with `c` at index `k`, `c` occurs exactly once iff no other index holds it (the "exactly one `@`" of the pattern) |
| Validator.Text | public/js/formValidation.js:26-75 | the four texts the handler writes into the indicators, word for word; `Validator.TextInjective` states that each text belongs to one message |
| Validator.TextInjective | public/js/formValidation.js:26-75 | two messages have the same text iff they are the same message, so the written message determines the text shown, and the reverse |
| Validator.QuerySelected | public/js/formValidation.js:57-60 | the scan over the radio buttons returns true iff some button is checked |
| Validator.Check | public/js/formValidation.js:25-79 | the handler's test for one control, branch for branch; `Validator.CheckIffFails` and `Validator.CheckMessage` state when it fails and with which message |
| Validator.Validate | public/js/formValidation.js:24-85 | the outcome of one submit: every failing control with its message, and the focus target; `Validator.ValidateErrors`, `Validator.ValidateMessage` and `Validator.ValidateFocus` state it against the independent description |
| Validator.FirstTarget | public/js/formValidation.js:28-78 | the recorded control is a failing, focusable one of the list; none is recorded iff no control of the list is both |
| Validator.FirstTargetAt | public/js/formValidation.js:28-78 | in a list without repeats, entry `k` is the recorded target iff it is a target and no earlier entry is |
| Validator.DecidesNothing | public/js/formValidation.js:13-82 | the handler's `hasError` stays false iff every one of the six checks passes |
| Validator.CheckIffFails | public/js/formValidation.js:25-79 | a name or the message fails iff blank, the email iff blank or not of the accepted shape; the radio group fails iff none is checked; consent fails iff unchecked |
| Validator.CheckMessage | public/js/formValidation.js:39-47 | a failing control gets the message belonging to its failure: "required" for a blank field, the format message only for a non-blank email |
| Validator.ValidateErrors | public/js/formValidation.js:25-79 | `Validate` reports a control iff it fails by the plain description |
| Validator.ValidateMessage | public/js/formValidation.js:39-47 | a failing control is reported, with exactly the message belonging to its failure |
| Validator.ValidateMessagesBelong | public/js/formValidation.js:25-79 | every reported message is one its control can show |
| Validator.ValidateFocus | public/js/formValidation.js:28-85 | control `c` gets the focus iff it fails, can be focused and no earlier focusable control fails, so a later failure never replaces the target |
| Validator.ValidateNoFocus | public/js/formValidation.js:82-85 | no element is focused iff no focusable control fails |
| Validator.ValidateSucceedsIff | public/js/formValidation.js:82-89 | a submit succeeds iff both names and the message are non-blank, the email has the accepted shape, a radio button is checked and consent is given |
| Validator.FocusIffFailure | public/js/formValidation.js:82-85 | with at least one radio button, a failed submit always has a focus target and a successful one never has |
| Validator.BlankFieldIsRequired | public/js/formValidation.js:25-54 | a blank or whitespace-only text field gets "This field is required" |
| Validator.BlankEmailIsRequired | public/js/formValidation.js:39-42 | a blank email gets only "required", never the format message |
| Validator.PaddedEmailIsMalformed | public/js/formValidation.js:39-47 | the format is checked on the untrimmed value: a non-blank email with leading or trailing whitespace gets "Please enter a valid email address" |
| Validator.ClearedMessageFailsAlone | public/js/formValidation.js:50-54 | after a success empties the message, the message field is the only failing control |
| Validator.ResubmitReportsMessageOnly | public/js/formValidation.js:86-89 | resubmitting after a success reports the message field alone |
| Validator.ResubmitFocus | public/js/formValidation.js:86-89 | resubmitting after a success focuses the message field |
| Validator.ResubmitAfterSuccess | public/js/formValidation.js:86-89 | resubmitting after a success yields exactly "required" on the message field, focused |
| Validator.EmptyGroupPassesFocusOn | public/js/formValidation.js:68-78 | with no radio buttons the group's failure records `undefined`, so an unchecked consent takes the focus when nothing before it failed |
| Toast.Show | public/js/formValidation.js:163-195 | `showToast`: the toast is shown and one more hide is scheduled; `Toast.ShowSchedulesOneHide` states it |
| Toast.Hide | public/js/formValidation.js:197-202 | `hideToast`: the toast is hidden and the timers are kept; `Toast.HideHidesIdempotently` states it |
| Toast.Fire | public/js/formValidation.js:192-194 | one scheduled timer fires, is used up and hides the toast; `Toast.StepPreservesInv` and `Toast.DrainHides` state what firing keeps and where it ends |
| Toast.HideHidesIdempotently | public/js/formValidation.js:197-202 | `hideToast` leaves the toast hidden, keeps the pending timers, and hiding twice is hiding once |
| Toast.ShowSchedulesOneHide | public/js/formValidation.js:163-194 | `showToast` leaves the toast shown with exactly one more hide scheduled |
| Toast.StepPreservesInv | public/js/formValidation.js:163-202 | each show or timer firing keeps "a shown toast has a hide pending" |
| Toast.RunKeepsInv | public/js/formValidation.js:163-202 | any run of events keeps that invariant and never has more hides pending than before plus one per show |
| Toast.DrainHides | public/js/formValidation.js:192-202 | letting every pending timer fire leaves the toast hidden with nothing pending |
| Toast.EarlierTimerHidesLaterToast | public/js/formValidation.js:192-194 | timers are never cancelled: after two shows the first timer hides the toast while the second show's hide is still pending |
| FormPage.Reset | public/js/formValidation.js:17-22 | every indicator hidden and every text field's `aria-invalid` false; written messages kept |
| FormPage.ShowError | public/js/formValidation.js:112-119 | the field's indicator shows the message and `aria-invalid` becomes true; no other control's indicator or attribute changes |
| FormPage.ShowErrorRadioGroup | public/js/formValidation.js:61-66 | the radio group's indicator shows the message; no `aria-invalid` and no other indicator changes |
| FormPage.ShowErrorCheckbox | public/js/formValidation.js:122-129 | the consent indicator shows the message; no `aria-invalid` and no other indicator changes |
| FormPage.ClearError | public/js/formValidation.js:132-138 | the field's indicator is hidden and its `aria-invalid` false; nothing else changes |
| FormPage.ClearErrorRadioGroup | public/js/formValidation.js:141-146 | only the radio group's indicator is hidden |
| FormPage.ClearErrorCheckbox | public/js/formValidation.js:149-155 | only the consent indicator is hidden |
| FormPage.AgreesStep | public/js/formValidation.js:24-79 | checking the next control, changing only its own indicator as `Validate` reports it, keeps the indicators in step with the outcome |
| FormPage.AgreesFinally | public/js/formValidation.js:24-79 | once all six controls are checked the visible indicators are the failures, `aria-invalid` marks the failing text fields, and each failure's message is written |
| FormPage.FormModel.constructor | public/js/formValidation.js:1-9 | the loaded page: no indicator visible, no field invalid, the toast hidden, nothing focused |
| FormPage.FormModel.Input | public/js/formValidation.js:93-97 | an input event stores the new value and hides only that field's error and `aria-invalid`, whatever the value; nothing is validated |
| FormPage.FormModel.SelectRadio | public/js/formValidation.js:100-104 | selecting radio `i` checks it alone and hides only the radio group's error |
| FormPage.FormModel.ToggleConsent | public/js/formValidation.js:107-109 | a consent change in either direction flips the box and hides only its error |
| FormPage.FormModel.ShowToast | public/js/formValidation.js:163-195 | the toast is shown with one more hide scheduled; nothing else changes |
| FormPage.FormModel.HideToast | public/js/formValidation.js:197-202 | the toast is hidden; nothing else changes |
| FormPage.FormModel.TimerFires | public/js/formValidation.js:192-194 | one pending timer is used up and hides the toast |
| FormPage.FormModel.Report | public/js/formValidation.js:25-29 | the branch repeated per control: on failure the message is shown, `hasError` is raised and the control becomes the focus target unless one is recorded or it has no element; the indicators stay in step with the outcome |
| FormPage.FormModel.CheckTextFields | public/js/formValidation.js:24-54 | the four text-field checks leave their indicators as reported, raise `hasError` iff one fails and record the first failing field |
| FormPage.FormModel.CheckChoices | public/js/formValidation.js:56-79 | the radio-group and consent checks do the same, the group becoming the target only when none is recorded and it has a first button |
| FormPage.FormModel.CheckAgainst | public/js/formValidation.js:16-79 | after the reset and the six checks, the visible indicators are exactly the reported controls, `aria-invalid` exactly the failing text fields, the failures' messages are written, `hasError` is raised iff something failed and the target is the outcome's focus |
| FormPage.FormModel.CheckControls | public/js/formValidation.js:13-79 | the same, against `Validate` of the current values |
| FormPage.FormModel.Submit | public/js/formValidation.js:11-90 | after a submit the visible indicators and `aria-invalid` flags are exactly those of the failures. On success the toast is shown, only the message value becomes "" and the focus stays. On failure the toast and every value are unchanged and the focus moves to the first focusable failure, if any |

## Left out

- DOM lookup (`querySelector`, `closest("div")`, `parentNode.parentNode`, `fieldset .error`) is replaced by one indicator per control. The error elements and the toast container are assumed present, so the null guards are never taken.
- The toast's HTML/SVG markup and its CSS classes are reduced to a shown/hidden flag.
- `setTimeout` and the 8000 ms delay are modelled as a count of pending hides plus an explicit firing event. Real time and the event loop are not modelled.
- `focus()`, `preventDefault()` and listener registration at `DOMContentLoaded` are browser side effects. Focus is modelled only as the recorded control.
- The regular-expression engine itself is not modelled. The email pattern is stated directly over characters, with the backtracking choice of `@` and `.` as an existential.
- Strings are sequences of Unicode scalar values, not UTF-16 code units. Every character `trim` and `\s` treat as whitespace is a single code unit, so the checks are unaffected.
- The indicator's text content is modelled as the message last written into it, whose exact text is `Validator.Text`. The text an indicator has in the page's markup before any write is not part of this model, because the script never reads it.
- FormPage.FormModel.Submit: the indicator updates of the checks are built up on a local `Marks` value and stored in the page once, after the sixth check. The intermediate page states between two checks, which no handler observes, are not modelled.
- FormPage.ShowError, FormPage.ClearError and the other indicator helpers are functions on the indicator value, applied by the handler methods, not methods of their own.
- Radio-button `change` events are modelled as the browser's selection of one button: it is checked and the others are unchecked. Other ways the checked state could change are not modelled.
- The comment at public/js/formValidation.js:81 says the handler focuses the first error. For the radio group the code records `radioButtons[0]` (line 68), which is `undefined` for an empty group, so the group's failure then records no target and a later consent failure takes the focus instead. The model follows the code (`Validator.EmptyGroupPassesFocusOn`); with at least one radio button the first failing control is focused (`Validator.FocusIffFailure`, `Validator.ValidateFocus`).
