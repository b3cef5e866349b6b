# Lead-form validation and submission, in Dafny

This project models the lead-form logic of a landing page's `script.js`:

- the e-mail check `isValidEmail` and its deny-list of disposable-mail providers (`tempEmailDomains`);
- the submit handler `handleFormSubmit`: a validation pass over the required controls, error feedback and an early return when one fails, the phone widget's number written into the telephone control, a busy submit control, one request, success or failure handling, and the submit control restored;
- `showFeedback`, together with the clear it schedules five seconds later.

It has three modules:

- `JsString` (`jsstring.dfy`) holds the JavaScript string built-ins the script relies on, written over `string`:
  - the regular-expression class `\s`;
  - `trim`, `toLowerCase` and `includes`;
  - `split` with a one-character separator, and `Join`, its inverse, which is used to state what `split` returns.
- `Email` (`email.dfy`) holds the deny-list and `isValidEmail`. The regular expression `^[^\s@]+@[^\s@]+\.[^\s@]+$` is stated twice:
  - as a predicate that some split of the text matches (`MatchesShape`);
  - as the character-level test the function runs (`HasShape`).

  The two are proved equal.
- `FormSubmit` (`form.dfy`) holds the page objects as classes whose fields the handler updates in place:
  - `Field`: a form control with its value and class list;
  - `Button`: the submit control;
  - `FeedbackRegion`: the feedback region, including a count of the clears still pending;
  - `PhoneWidget`: the intl-tel-input instance, attached to one input.

  The asynchronous handler is cut at its one `await`:
  - `BeginSubmit` is everything up to the request;
  - `Settle` is everything after the response, or the transport failure, arrives;
  - `HandleFormSubmit` runs one after the other for one submit event, with the response given as a parameter.

The widget's validity rule and its international format belong to the intl-tel-input library. They are given to the model as functions of the input's text. With `separateDialCode` on (script.js:137), both also depend on the country chosen in the widget's dropdown; the model fixes that choice per `PhoneWidget`, and no contract depends on it, because the country cannot change during one synchronous run of the handler. The same goes for the request's outcome, which is a parameter (`Response`: an HTTP status or a transport failure).

In four places the code behaves in a way a reader may not expect, and the model follows it:

- The phone control is rewritten before the submit control turns busy, not after.
- `form.reset()` restores each control's default value rather than emptying it.
- A form without a submit control throws when the handler reads the control's text, which happens after the phone step. The model returns `Thrown`, and the handler's outcome is `Crashed`; it does not degrade silently.
- A clear scheduled by an earlier message also clears any later message, so a message can disappear in less than five seconds.

## Model

| member | source | states |
|---|---|---|
| JsString.IsWhitespace | script.js:38 | the ECMAScript WhiteSpace and LineTerminator code points, the set `\s` matches and `trim` strips (script.js:62) |
| JsString.TrimEmptyIffBlank | script.js:62 | `!field.value.trim()` holds exactly when every character of the value is `\s` whitespace, the empty value included |
| JsString.Trim | script.js:62 | the trimmed text is a middle slice of the value whose cut-off margins are all whitespace, and it neither starts nor ends with whitespace |
| JsString.TrimStart | script.js:62 | the result is a suffix of the input; everything cut off is whitespace; the result does not start with whitespace |
| JsString.TrimEnd | script.js:62 | the result is a prefix of the input; everything cut off is whitespace; the result does not end with whitespace |
| JsString.ToLower | script.js:40 | lower-casing keeps the length and maps each character on its own |
| JsString.ToLowerIdempotent | script.js:40 | lower-casing an already lower-cased domain changes nothing |
| JsString.ToLowerFixesLower | script.js:31-35 | a text with no upper-case letters, such as every deny-list entry, is its own lower case |
| JsString.Includes | script.js:41 | `domain.includes(temp)`, by a left-to-right search; its meaning is given by `IncludesIffOccurs` |
| JsString.IncludesIffOccurs | script.js:41 | `domain.includes(temp)` is true exactly when `temp` occurs at some index of `domain` |
| JsString.IndexOf | script.js:40 | the index is the first occurrence of the character, or the length when there is none |
| JsString.Split | script.js:40 | `email.split('@')`: at least one piece; what the pieces are is given by `JoinSplit`, `SplitPiecesFree`, `SplitSingle` and `SplitOnce` |
| JsString.Join | script.js:40 | the inverse of `Split`, given by `JoinSplit` and `SplitJoin` |
| JsString.JoinSplit | script.js:40 | joining the pieces of `split` with the separator gives back the text |
| JsString.SplitJoin | script.js:40 | splitting a join of separator-free pieces gives back the pieces |
| JsString.SplitPiecesFree | script.js:40 | no piece of `split` holds the separator |
| JsString.SplitSingle | script.js:40 | `split` yields more than one piece exactly when the text holds the separator |
| JsString.SplitOnce | script.js:40 | a text with a single separator splits into the text before it and the text after it |
| Email.DenyListLowerCase | script.js:31-35 | every one of the eleven deny-list entries is its own lower case |
| Email.MatchesShape | script.js:38 | the regular expression read as a split: some `@` and some later `.` cut the text into three non-empty runs of `[^\s@]` |
| Email.HasShape | script.js:38 | the character-level shape test; equal to `MatchesShape` by `ShapeIsRegex` |
| Email.ShapeIsRegex | script.js:38 | the character-level shape test accepts exactly the strings the regular expression matches |
| Email.Domain | script.js:40 | the text after the first `@`; equal to `split('@')[1]` for a shape-valid address by `SplitDomain` |
| Email.SplitDomain | script.js:38-40 | for a shape-valid address, `split('@')` has two pieces and the second is the text after the `@` |
| Email.DeniedIffSearch | script.js:41 | the `some`/`includes` search over the deny-list is true exactly when some entry occurs somewhere in the domain |
| Email.IsValidEmail | script.js:37-42 | the validator itself: the shape test, then the deny-list search in the lower-cased second piece of `split('@')`; its meaning is given by `ValidEmailIff` |
| Email.ValidEmailIff | script.js:37-42 | `isValidEmail` is true exactly when the regular expression matches and the lower-cased domain holds no deny-list entry |
| Email.MalformedRejected | script.js:38-39 | each of these makes the address invalid: no `@`, two `@`, a leading `@`, whitespace anywhere, no `.` with text on both sides in the domain |
| Email.DomainCaseIgnored | script.js:40-41 | an address and the same address with a lower-cased domain get the same verdict |
| Email.ShapeAgrees | script.js:38 | two texts that agree, index by index, on whitespace, `@` and `.` pass or fail the shape test together |
| Email.LocalPartIgnored | script.js:40-41 | any two non-empty local parts of `[^\s@]` characters get the same verdict for the same domain |
| Email.ShapeOfParts | script.js:38 | `a@b.c` with three non-empty runs of `[^\s@]` has the shape, and its domain is `b.c` |
| Email.DeniedDomainRejected | script.js:40-41 | an address whose lower-cased domain includes a deny-list entry is rejected, whatever its local part (one holding an `@` fails the shape test) |
| Email.CleanAccepted | script.js:39-41 | a shape-valid address whose lower-cased domain includes no entry is accepted |
| Email.MissingLettersClean | script.js:31-35 | a domain without any of the letters t, g, 1, i, f, y, d and s holds no deny-list entry |
| Email.ExampleDomainClean | script.js:31-35 | `example.com` holds no deny-list entry |
| Email.PlainAddressShape | script.js:38 | `user@example.com` has the shape, and its domain is `example.com` |
| Email.PlainAddressAccepted | script.js:37-42 | `user@example.com` is accepted |
| Email.DisposableLocalPartAccepted | script.js:40-41 | `tempmail@example.com` is accepted: a provider name in the local part is not looked at |
| Email.MixedCaseProviderRejected | script.js:40-41 | `user@YopMail.com` is rejected: the deny-list match ignores the domain's case |
| FormSubmit.FeedbackType.ClassName | script.js:118 | the class a shown message gives the region, `form-feedback success` or `form-feedback error` |
| FormSubmit.Response.Ok | script.js:101 | `res.ok`: a status from 200 to 299; a transport failure is never ok |
| FormSubmit.FeedbackRegion.Clear | script.js:120-123 | the scheduled clear puts the region back to the base class `form-feedback` with no text, and one fewer clear is pending |
| FormSubmit.ShowFeedback | script.js:116-124 | a missing region is left alone; otherwise the region shows the message with the class `form-feedback <type>`, and one more clear is pending |
| FormSubmit.PhoneWidget.IsValidNumber | script.js:72 | the widget's verdict on the text of its input |
| FormSubmit.PhoneWidget.GetNumber | script.js:86 | the widget's international form of the text of its input |
| FormSubmit.PhoneWidget.SetNumber | script.js:104 | the widget's input holds the given number; its classes are kept |
| FormSubmit.Values | script.js:98 | the request body as the sequence of all control values in order: as many values as controls, the i-th being the i-th control's value |
| FormSubmit.FirstTel | script.js:85 | the index of the first telephone control, or the number of controls when there is none |
| FormSubmit.Normalised | script.js:84-87 | with a widget and a telephone control, only that control's value changes, to the widget's number; without a widget, nothing changes |
| FormSubmit.Fails | script.js:62-75 | the three checks of one required control; equal to the handler's tests by `FailsAsWritten` |
| FormSubmit.Marked | script.js:60-74 | a class list after `remove('error')` and, when a check failed, `add('error')` |
| FormSubmit.Form.SomeRequiredFails | script.js:58-76 | some required control fails a check; `ValidateRequired` returns its negation |
| FormSubmit.CheckRequired | script.js:59-75 | one required control ends with the error mark exactly when one of its three checks fails; the result says whether one failed; its value is kept |
| FormSubmit.FailsAsWritten | script.js:62-75 | a control fails exactly when its trimmed value is empty, or it is a non-empty e-mail value `isValidEmail` refuses, or it is a telephone value the widget rejects |
| FormSubmit.FailsOnlyForReason | script.js:62-75 | a value with a non-whitespace character fails only on the e-mail or the telephone check |
| FormSubmit.PaddedEmailFails | script.js:67 | an e-mail value with whitespace at either end fails, because `isValidEmail` sees the untrimmed value |
| FormSubmit.BlankRequiredBlocks | script.js:62-65 | one required control whose trimmed value is empty is enough for the validation pass to fail |
| FormSubmit.Form.ValidateRequired | script.js:58-76 | `valid` is false exactly when some required control fails a check; each required control ends marked exactly when it failed; other controls' classes, all values and the widget's input are untouched |
| FormSubmit.Form.Reset | script.js:103 | every control holds its default value; classes are kept |
| FormSubmit.Form.NormalisePhone | script.js:84-87 | with a widget, the first telephone control takes the widget's international number; all other values are kept |
| FormSubmit.Form.Dispatch | script.js:84-92 | after the phone step, a missing submit control throws; otherwise the control is disabled and shows `Enviando...`, its earlier text is kept, and the request carries the current values |
| FormSubmit.Form.BeginSubmit | script.js:53-92 | the handler stops with `Rejected` exactly when a required control fails, and then only error feedback changes besides the marks (no phone step, submit control as before); otherwise the feedback is untouched and the phone step runs before the request |
| FormSubmit.Form.Succeed | script.js:101-104 | success feedback is shown, every control holds its default value, and the widget's input is emptied; every class list, the widget input's included, is kept |
| FormSubmit.Form.Settle | script.js:94-113 | the submit control is enabled again with its earlier text and every class list, the widget input's included, is kept; on a 2xx response the form is reset and success feedback shown; on any other status or a transport failure the values are kept and error feedback shown |
| FormSubmit.Form.HandleFormSubmit | script.js:50-114 | every outcome leaves each required control marked exactly when it failed a check; nothing is sent exactly when one failed, and then values and the submit control are unchanged and error feedback shows; without a submit control the phone step has run and the feedback is untouched; otherwise the payload is the values after the phone step, success resets the form and shows success feedback, failure keeps the sent values and shows error feedback, and the submit control ends enabled with its original text; each shown message adds one pending clear; a widget input outside the form keeps its classes, and its value unless the form was reset, when it is emptied |

## Left out

- DOM wiring and page start-up (`DOMContentLoaded`, `initForms`, `querySelector`): host-environment glue. A form is given directly by its controls, its submit control and its feedback region.
- `initAOS` and `initPhoneInput` only configure third-party libraries. The widget appears only through its answers (`isValidNumber`, `getNumber`), which are given as functions of the input's text for a country fixed per widget, and `setNumber`, which writes its argument into the input as is.
- The `fetch` request and the `URLSearchParams(new FormData(form))` body: network I/O and browser library code. The payload is the sequence of all control values in order; control names and the skipping of unnamed or disabled controls are not modelled.
- The five-second delay of `setTimeout`: wall-clock time is not modelled. A shown message counts one pending clear, and `FeedbackRegion.Clear` is the callback firing at some later point.
- Other callbacks that the event loop may run while the request is outstanding: the handler is modelled as its synchronous part followed directly by its continuation.
- `initYear`, `cursos/tracking.js` and `bio/script.js`: they read the clock or append to an external analytics queue and hold no logic of this core.
- JsString.ToLower: maps only the ASCII letters A-Z. The full Unicode mapping of `toLowerCase` also turns, for example, the Kelvin sign U+212A into `k`, so a domain spelling `fakeinbox` with that sign is rejected by the script but accepted by the model.
- JsString.IsWhitespace: `\s` is written out as the ECMAScript WhiteSpace and LineTerminator code points, the set `trim` also strips; the regular-expression engine itself is not modelled.
- FormSubmit.PaddedEmailFails: holds for the script's code, but a browser strips leading and trailing ASCII whitespace from an `<input type="email">` value before the script reads it, so in a browser only padding such as U+00A0 or U+000B reaches this case; a typed " a@b.c" is not flagged.
- JsString.Split: its own contract states only that there is at least one piece; what the pieces are is stated by `JoinSplit`, `SplitJoin`, `SplitPiecesFree`, `SplitSingle` and `SplitOnce`.
- FormSubmit.Form.HandleFormSubmit: a missing submit control throws a `TypeError` that nothing catches. The model reports it as the outcome `Crashed` after the phone step, and does not model the unhandled rejection.
