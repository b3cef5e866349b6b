/** The submit handler of the lead forms (script.js:50-124): a validation pass
    that marks failing required controls, error feedback and an early return
    when one fails, otherwise the busy submit control, one request, and on its
    outcome either a reset form and success feedback or error feedback, with
    the submit control restored in every case. The handler is asynchronous: it
    runs up to the `await` of the request (`BeginSubmit`), and the rest runs
    when the response or the transport failure arrives (`Settle`). */
module FormSubmit {
  import opened JsString
  import opened Email

  datatype Option<T> = None | Some(value: T)

  /** The `type` of a form control, as far as the handler tells them apart. */
  datatype InputType = EmailInput | TelInput | OtherInput

  /** A form control: its `type` and `required` attributes, the default value
      that `form.reset()` restores, its current value and its class list. */
  class Field {
    const inputType: InputType
    const required: bool
    const defaultValue: string
    var value: string
    var classList: set<string>

    constructor (inputType: InputType, required: bool, defaultValue: string)
      ensures this.inputType == inputType && this.required == required
      ensures this.defaultValue == defaultValue
      ensures value == defaultValue && classList == {}
    {
      this.inputType := inputType;
      this.required := required;
      this.defaultValue := defaultValue;
      value := defaultValue;
      classList := {};
    }
  }

  /** The form's submit control. */
  class Button {
    var disabled: bool
    var text: string

    constructor (text: string)
      ensures !disabled && this.text == text
    {
      disabled := false;
      this.text := text;
    }
  }

  /** The class the validation pass puts on a failing control. */
  const ErrorMark := "error"
  /** The base class of a feedback region. */
  const FeedbackClass := "form-feedback"
  const InvalidMessage := "Preencha todos os campos corretamente."
  const SentMessage := "Mensagem enviada com sucesso!"
  const SendFailedMessage := "Erro ao enviar. Tente novamente."
  const BusyLabel := "Enviando..."

  /** The `type` argument of `showFeedback`. */
  datatype FeedbackType = Success | Error {
    function Name(): string {
      match this
      case Success => "success"
      case Error => "error"
    }

    /** The class a feedback region shows for this type: the base class, a
        space, then the type's name. */
    function ClassName(): string {
      FeedbackClass + " " + Name()
    }
  }

  /** The `.form-feedback` region of a form. `pendingClears` counts the
      clears `showFeedback` has scheduled that have not fired yet. */
  class FeedbackRegion {
    var className: string
    var text: string
    var pendingClears: nat

    constructor ()
      ensures className == FeedbackClass && text == "" && pendingClears == 0
    {
      className := FeedbackClass;
      text := "";
      pendingClears := 0;
    }

    /** The callback `showFeedback` schedules: five seconds after a message
        was shown, the region goes back to its base class and no text,
        whatever it shows by then. */
    method Clear()
      requires pendingClears > 0
      modifies this
      ensures className == FeedbackClass && text == ""
      ensures pendingClears == old(pendingClears) - 1
    {
      className := FeedbackClass;
      text := "";
      pendingClears := pendingClears - 1;
    }
  }

  /** `showFeedback(el, type, msg)`: nothing at all when the region is missing;
      otherwise the region shows `msg` with the class of `kind`, and one more
      clear is scheduled. */
  method ShowFeedback(el: FeedbackRegion?, kind: FeedbackType, msg: string)
    modifies el
    ensures el != null ==> el.className == kind.ClassName() && el.text == msg
    ensures el != null ==> el.pendingClears == old(el.pendingClears) + 1
  {
    if el != null {
      el.className := kind.ClassName();
      el.text := msg;
      el.pendingClears := el.pendingClears + 1;
    }
  }

  /** The intl-tel-input instance of the page, attached to one telephone
      input. Its validity rule and its international format belong to the
      library and are given here as functions of the input's text. */
  class PhoneWidget {
    const input: Field
    const isValid: string -> bool
    const international: string -> string

    constructor (input: Field, isValid: string -> bool, international: string -> string)
      ensures this.input == input && this.isValid == isValid && this.international == international
    {
      this.input := input;
      this.isValid := isValid;
      this.international := international;
    }

    /** `isValidNumber()` */
    function IsValidNumber(): bool
      reads input
    {
      isValid(input.value)
    }

    /** `getNumber()` */
    function GetNumber(): string
      reads input
    {
      international(input.value)
    }

    /** `setNumber(number)`: the attached input now holds `number`. */
    method SetNumber(number: string)
      modifies input
      ensures input.value == number && input.classList == old(input.classList)
    {
      input.value := number;
    }
  }

  /** What the widget says about the number, `None` when there is no widget. */
  function PhoneVerdict(widget: PhoneWidget?): Option<bool>
    reads if widget == null then {} else {widget.input}
  {
    if widget == null then None else Some(widget.IsValidNumber())
  }

  /** The widget's international form of the number, `None` when there is no
      widget. */
  function PhoneNumber(widget: PhoneWidget?): Option<string>
    reads if widget == null then {} else {widget.input}
  {
    if widget == null then None else Some(widget.GetNumber())
  }

  /** The checks of the validation pass for one required control: a value of
      whitespace only (its trimmed text is empty, by `TrimEmptyIffBlank`); an
      e-mail control whose non-empty, untrimmed value `isValidEmail` refuses;
      a telephone control the widget calls invalid. */
  predicate Fails(value: string, inputType: InputType, phoneOk: Option<bool>) {
    || Blank(value)
    || (inputType == EmailInput && value != "" && !IsValidEmail(value))
    || (inputType == TelInput && phoneOk == Some(false))
  }

  /** A class list after `remove('error')` and, when a check failed,
      `add('error')`. */
  function Marked(classes: set<string>, failed: bool): set<string> {
    (classes - {ErrorMark}) + (if failed then {ErrorMark} else {})
  }

  /** The values of some controls, in order. */
  function Values(fs: seq<Field>): (vs: seq<string>)
    reads fs
    ensures |vs| == |fs|
    ensures forall i :: 0 <= i < |fs| ==> vs[i] == fs[i].value
  {
    if fs == [] then [] else [fs[0].value] + Values(fs[1..])
  }

  /** `form.querySelector('input[type="tel"]')`: the index of the first
      telephone control, or `|fs|` when there is none. */
  function FirstTel(fs: seq<Field>): (p: nat)
    ensures p <= |fs|
    ensures p < |fs| ==> fs[p].inputType == TelInput
    ensures forall j :: 0 <= j < p ==> fs[j].inputType != TelInput
  {
    if fs == [] then 0
    else if fs[0].inputType == TelInput then 0
    else 1 + FirstTel(fs[1..])
  }

  /** The values after the phone step: with a widget, the control at `p` (if
      there is one) takes the widget's international number. */
  function Normalised(values: seq<string>, p: nat, number: Option<string>): (r: seq<string>)
    ensures |r| == |values|
    ensures forall i :: 0 <= i < |values| && i != p ==> r[i] == values[i]
    ensures number.Some? && p < |values| ==> r[p] == number.value
    ensures number.None? ==> r == values
  {
    if number.Some? && p < |values| then values[p := number.value] else values
  }

  /** The result of a network request: an HTTP status or a transport failure. */
  datatype Response = Status(code: int) | TransportFailure {
    /** `res.ok`: a 2xx status. */
    predicate Ok() {
      Status? && 200 <= code <= 299
    }
  }

  /** Where the synchronous part of the handler stops: the validation pass
      failed; the form has no submit control, so reading its text throws; or
      the request is out, carrying the form's values, with the submit
      control's earlier text kept for later. */
  datatype Begun = Rejected | Thrown | Pending(originalText: string, payload: seq<string>)

  /** What one submit event did, once the request (if any) has settled. */
  datatype Outcome = NotSent | Crashed | Sent(payload: seq<string>, delivered: bool)

  /** A form marked `data-form`: its controls in document order, its first
      submit control and its feedback region (either may be missing). */
  class Form {
    const fields: seq<Field>
    const submit: Button?
    const feedback: FeedbackRegion?

    /** The controls are distinct elements. */
    ghost predicate Valid() {
      forall i, j :: 0 <= i < j < |fields| ==> fields[i] != fields[j]
    }

    constructor (fields: seq<Field>, submit: Button?, feedback: FeedbackRegion?)
      requires forall i, j :: 0 <= i < j < |fields| ==> fields[i] != fields[j]
      ensures Valid()
      ensures this.fields == fields && this.submit == submit && this.feedback == feedback
    {
      this.fields := fields;
      this.submit := submit;
      this.feedback := feedback;
    }

    /** Some required control fails one of its checks. */
    predicate SomeRequiredFails(widget: PhoneWidget?)
      reads fields, if widget == null then {} else {widget.input}
    {
      exists i :: 0 <= i < |fields| && fields[i].required
        && Fails(fields[i].value, fields[i].inputType, PhoneVerdict(widget))
    }

    /** The validation pass: every required control loses its error mark and
        gets it back exactly when one of its checks fails; `valid` says that
        none failed. Values and other controls are untouched. */
    method ValidateRequired(widget: PhoneWidget?) returns (valid: bool)
      requires Valid()
      modifies fields
      ensures valid == !old(SomeRequiredFails(widget))
      ensures Values(fields) == old(Values(fields))
      ensures widget != null ==> widget.input.value == old(widget.input.value)
      ensures forall i :: 0 <= i < |fields| ==> (fields[i].classList ==
        if fields[i].required
        then Marked(old(fields[i].classList), Fails(old(fields[i].value), fields[i].inputType, old(PhoneVerdict(widget))))
        else old(fields[i].classList))
    {
      valid := true;
      var i := 0;
      while i < |fields|
        invariant 0 <= i <= |fields|
        invariant forall j :: 0 <= j < |fields| ==> fields[j].value == old(fields[j].value)
        invariant widget != null ==> widget.input.value == old(widget.input.value)
        invariant forall j :: 0 <= j < i ==> (fields[j].classList ==
          if fields[j].required
          then Marked(old(fields[j].classList), Fails(old(fields[j].value), fields[j].inputType, old(PhoneVerdict(widget))))
          else old(fields[j].classList))
        invariant forall j :: i <= j < |fields| ==> fields[j].classList == old(fields[j].classList)
        invariant valid <==> forall j :: 0 <= j < i && fields[j].required ==>
          !Fails(old(fields[j].value), fields[j].inputType, old(PhoneVerdict(widget)))
      {
        if fields[i].required {
          var failed := CheckRequired(fields[i], widget);
          if failed {
            valid := false;
          }
        }
        i := i + 1;
      }
    }

    /** `form.reset()`: every control goes back to its default value. */
    method Reset()
      modifies fields
      ensures forall i :: 0 <= i < |fields| ==> fields[i].value == fields[i].defaultValue
      ensures forall i :: 0 <= i < |fields| ==> fields[i].classList == old(fields[i].classList)
    {
      var i := 0;
      while i < |fields|
        invariant 0 <= i <= |fields|
        invariant forall j :: 0 <= j < i ==> fields[j].value == fields[j].defaultValue
        invariant forall j :: 0 <= j < |fields| ==> fields[j].classList == old(fields[j].classList)
      {
        fields[i].value := fields[i].defaultValue;
        i := i + 1;
      }
    }

    /** With a widget, the first telephone control of the form (if any) takes
        the widget's international number. */
    method NormalisePhone(widget: PhoneWidget?)
      requires Valid()
      modifies fields
      ensures Values(fields) == Normalised(old(Values(fields)), FirstTel(fields), old(PhoneNumber(widget)))
      ensures forall i :: 0 <= i < |fields| ==> fields[i].classList == old(fields[i].classList)
    {
      if widget != null {
        var p := FirstTel(fields);
        if p < |fields| {
          fields[p].value := widget.GetNumber();
        }
      }
    }

    /** The handler up to the `await` of the request. */
    method BeginSubmit(widget: PhoneWidget?) returns (step: Begun)
      requires Valid()
      modifies fields, submit, feedback
      ensures forall i :: 0 <= i < |fields| ==> (fields[i].classList ==
        if fields[i].required
        then Marked(old(fields[i].classList), Fails(old(fields[i].value), fields[i].inputType, old(PhoneVerdict(widget))))
        else old(fields[i].classList))
      // invalid: error feedback, and nothing else changes
      ensures step.Rejected? <==> old(SomeRequiredFails(widget))
      ensures step.Rejected? ==> Values(fields) == old(Values(fields))
      ensures step.Rejected? && widget != null ==> widget.input.value == old(widget.input.value)
      ensures step.Rejected? && submit != null ==> submit.disabled == old(submit.disabled) && submit.text == old(submit.text)
      ensures step.Rejected? && feedback != null ==>
        feedback.className == Error.ClassName() && feedback.text == InvalidMessage &&
        feedback.pendingClears == old(feedback.pendingClears) + 1
      // valid: the phone step, then the busy submit control and the request
      ensures !step.Rejected? ==> Values(fields) == Normalised(old(Values(fields)), FirstTel(fields), old(PhoneNumber(widget)))
      ensures !step.Rejected? && feedback != null ==> unchanged(feedback)
      ensures step.Thrown? <==> !step.Rejected? && submit == null
      ensures step.Pending? ==> submit != null && step.originalText == old(submit.text)
      ensures step.Pending? ==> submit.disabled && submit.text == BusyLabel
      ensures step.Pending? ==> step.payload == Values(fields)
    {
      var valid := ValidateRequired(widget);
      if !valid {
        ShowFeedback(feedback, Error, InvalidMessage);
        return Rejected;
      }
      step := Dispatch(widget);
    }

    /** The handler past a successful validation pass: the phone step, then
        the submit control turned busy and the request sent with the form's
        values; reading the text of a missing submit control throws. */
    method Dispatch(widget: PhoneWidget?) returns (step: Begun)
      requires Valid()
      modifies fields, submit
      ensures forall i :: 0 <= i < |fields| ==> fields[i].classList == old(fields[i].classList)
      ensures Values(fields) == Normalised(old(Values(fields)), FirstTel(fields), old(PhoneNumber(widget)))
      ensures !step.Rejected?
      ensures step.Thrown? <==> submit == null
      ensures step.Pending? ==> submit != null && step.originalText == old(submit.text)
      ensures step.Pending? ==> submit.disabled && submit.text == BusyLabel
      ensures step.Pending? ==> step.payload == Values(fields)
    {
      NormalisePhone(widget);
      if submit == null {
        return Thrown;
      }
      var originalText := submit.text;
      submit.disabled := true;
      submit.text := BusyLabel;
      step := Pending(originalText, Values(fields));
    }

    /** The `res.ok` branch: success feedback, `form.reset()` and, with a
        widget, its input emptied by `setNumber('')`. */
    method Succeed(widget: PhoneWidget?)
      modifies fields, feedback, if widget == null then {} else {widget.input}
      ensures forall i :: 0 <= i < |fields| ==> fields[i].classList == old(fields[i].classList)
      ensures forall i :: 0 <= i < |fields| ==>
        fields[i].value == if widget != null && fields[i] == widget.input then "" else fields[i].defaultValue
      ensures widget != null ==> widget.input.value == "" && widget.input.classList == old(widget.input.classList)
      ensures feedback != null ==>
        feedback.className == Success.ClassName() && feedback.text == SentMessage
      ensures feedback != null ==> feedback.pendingClears == old(feedback.pendingClears) + 1
    {
      ShowFeedback(feedback, Success, SentMessage);
      Reset();
      if widget != null {
        widget.SetNumber("");
      }
    }

    /** The handler after the request settles: on a 2xx response success
        feedback, a reset form and an emptied phone widget; on any other
        status or a transport failure error feedback; in both cases the
        submit control enabled again with its earlier text. */
    method Settle(widget: PhoneWidget?, originalText: string, response: Response)
      requires Valid() && submit != null
      modifies fields, submit, feedback, if widget == null then {} else {widget.input}
      ensures !submit.disabled && submit.text == originalText
      ensures forall i :: 0 <= i < |fields| ==> fields[i].classList == old(fields[i].classList)
      ensures widget != null ==> widget.input.classList == old(widget.input.classList)
      ensures response.Ok() ==> forall i :: 0 <= i < |fields| ==>
        fields[i].value == if widget != null && fields[i] == widget.input then "" else fields[i].defaultValue
      ensures response.Ok() && widget != null ==> widget.input.value == ""
      ensures response.Ok() && feedback != null ==>
        feedback.className == Success.ClassName() && feedback.text == SentMessage
      ensures !response.Ok() ==> Values(fields) == old(Values(fields))
      ensures !response.Ok() && widget != null ==> widget.input.value == old(widget.input.value)
      ensures !response.Ok() && feedback != null ==>
        feedback.className == Error.ClassName() && feedback.text == SendFailedMessage
      ensures feedback != null ==> feedback.pendingClears == old(feedback.pendingClears) + 1
    {
      if response.Ok() {
        Succeed(widget);
      } else {
        ShowFeedback(feedback, Error, SendFailedMessage);
      }
      submit.disabled := false;
      submit.text := originalText;
    }

    /** `handleFormSubmit` for one submit event, with `response` standing for
        what the request brings back. */
    method HandleFormSubmit(widget: PhoneWidget?, response: Response) returns (outcome: Outcome)
      requires Valid()
      modifies fields, submit, feedback, if widget == null then {} else {widget.input}
      // every outcome: the validation pass has marked the required controls
      ensures forall i :: 0 <= i < |fields| ==> (fields[i].classList ==
        if fields[i].required
        then Marked(old(fields[i].classList), Fails(old(fields[i].value), fields[i].inputType, old(PhoneVerdict(widget))))
        else old(fields[i].classList))
      ensures widget != null && widget.input !in fields ==> widget.input.classList == old(widget.input.classList)
      // invalid: nothing is sent and only error feedback and the marks change
      ensures outcome.NotSent? <==> old(SomeRequiredFails(widget))
      ensures outcome.NotSent? ==> Values(fields) == old(Values(fields))
      ensures outcome.NotSent? && widget != null ==> widget.input.value == old(widget.input.value)
      ensures outcome.NotSent? && submit != null ==> submit.disabled == old(submit.disabled) && submit.text == old(submit.text)
      ensures outcome.NotSent? && feedback != null ==> feedback.className == Error.ClassName() && feedback.text == InvalidMessage
      // no submit control: the phone step has run, then reading its text throws
      ensures outcome.Crashed? <==> !outcome.NotSent? && submit == null
      ensures outcome.Crashed? ==> Values(fields) == Normalised(old(Values(fields)), FirstTel(fields), old(PhoneNumber(widget)))
      ensures outcome.Crashed? && feedback != null ==> unchanged(feedback)
      // sent: the request carries the values after the phone step
      ensures outcome.Sent? ==> submit != null && !submit.disabled && submit.text == old(submit.text)
      ensures outcome.Sent? ==> outcome.payload == Normalised(old(Values(fields)), FirstTel(fields), old(PhoneNumber(widget)))
      ensures outcome.Sent? ==> outcome.delivered == response.Ok()
      ensures outcome.Sent? && outcome.delivered ==> forall i :: 0 <= i < |fields| ==>
        fields[i].value == if widget != null && fields[i] == widget.input then "" else fields[i].defaultValue
      ensures outcome.Sent? && !outcome.delivered ==> Values(fields) == outcome.payload
      ensures outcome.Sent? && feedback != null ==>
        feedback.className == (if outcome.delivered then Success else Error).ClassName() &&
        feedback.text == (if outcome.delivered then SentMessage else SendFailedMessage)
      ensures !outcome.Crashed? && feedback != null ==> feedback.pendingClears == old(feedback.pendingClears) + 1
      ensures !(outcome.Sent? && outcome.delivered) && widget != null && widget.input !in fields ==>
        widget.input.value == old(widget.input.value)
      ensures outcome.Sent? && outcome.delivered && widget != null ==> widget.input.value == ""
    {
      var step := BeginSubmit(widget);
      match step
      case Rejected =>
        outcome := NotSent;
      case Thrown =>
        outcome := Crashed;
      case Pending(originalText, payload) =>
        Settle(widget, originalText, response);
        outcome := Sent(payload, response.Ok());
    }
  }

  /** The body of the validation loop for one required control: clear its
      error mark, then set it again for each check that fails. */
  method CheckRequired(field: Field, widget: PhoneWidget?) returns (failed: bool)
    modifies field
    ensures field.value == old(field.value)
    ensures failed == Fails(field.value, field.inputType, PhoneVerdict(widget))
    ensures field.classList == Marked(old(field.classList), failed)
  {
    var value, before := field.value, field.classList;
    failed := false;
    field.classList := before - {ErrorMark};
    TrimEmptyIffBlank(value);
    if Trim(value) == "" {
      field.classList := field.classList + {ErrorMark};
      failed := true;
    }
    if field.inputType == EmailInput && value != "" && !IsValidEmail(value) {
      field.classList := field.classList + {ErrorMark};
      failed := true;
    }
    if field.inputType == TelInput && widget != null && !widget.IsValidNumber() {
      field.classList := field.classList + {ErrorMark};
      failed := true;
    }
  }

  /** `Fails` is the validation pass's three tests as the handler writes
      them: an empty trimmed value, a non-empty e-mail value `isValidEmail`
      refuses, a telephone value the widget rejects. */
  lemma FailsAsWritten(value: string, inputType: InputType, phoneOk: Option<bool>)
    ensures Fails(value, inputType, phoneOk) <==>
      || Trim(value) == ""
      || (inputType == EmailInput && value != "" && !IsValidEmail(value))
      || (inputType == TelInput && phoneOk == Some(false))
  {
    TrimEmptyIffBlank(value);
  }

  /** A control fails only on a check that applies to it: a value with a
      non-whitespace character passes unless it is an e-mail control that
      `isValidEmail` refuses or a telephone control the widget rejects. */
  lemma FailsOnlyForReason(value: string, inputType: InputType, phoneOk: Option<bool>)
    requires !Blank(value)
    ensures Fails(value, inputType, phoneOk) <==>
      (inputType == EmailInput && !IsValidEmail(value)) || (inputType == TelInput && phoneOk == Some(false))
  {
  }

  /** The e-mail check sees the untrimmed value: whitespace before or after an
      address fails the control even when the trimmed text is accepted. */
  lemma PaddedEmailFails(value: string, phoneOk: Option<bool>)
    requires |value| > 0 && (IsWhitespace(value[0]) || IsWhitespace(value[|value| - 1]))
    ensures Fails(value, EmailInput, phoneOk)
  {
    MalformedRejected(value);
  }

  /** A required control left blank blocks the submission, whatever the
      other controls hold and whatever the widget says. */
  lemma BlankRequiredBlocks(form: Form, widget: PhoneWidget?, i: nat)
    requires i < |form.fields| && form.fields[i].required
    requires Trim(form.fields[i].value) == ""
    ensures form.SomeRequiredFails(widget)
  {
    TrimEmptyIffBlank(form.fields[i].value);
  }
}
