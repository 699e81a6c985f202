/** The contact form: per-field validation, the all-fields check on submit,
    the simulated send with its loading button, and the status banner. */
module ContactForm {
  import opened Text
  import opened Email

  const RequiredMessage := "This field is required"
  const InvalidEmailMessage := "Please enter a valid email address"
  const CorrectErrorsMessage := "Please correct the errors above and try again."
  const SentMessage := "Thank you! Your message has been sent successfully."
  const SendFailedMessage := "Sorry, there was an error sending your message. Please try again."

  /** The outcome of the validation rules for one value. */
  datatype Verdict = Accepted | Rejected(message: string)

  /** One `.form-input`: its `name`, its current and default `value`, whether
      it carries the `error` class, and the text of its `<name>-error`
      element. */
  datatype Input = Input(name: string, value: string, defaultValue: string, error: bool, errorText: string)

  /** The submit button: the `btn-loading` class, `disabled`, the icon's
      class and the caption text. */
  datatype SubmitButton = SubmitButton(busy: bool, disabled: bool, icon: string, caption: string)

  datatype StatusKind = SuccessStatus | ErrorStatus

  /** The `#form-status` banner: hidden (class `form-status`, no text) or
      shown with the class `form-status success` or `form-status error`. */
  datatype FormStatus = Hidden | Shown(kind: StatusKind, message: string)

  /** The validation rules on a raw value: a blank value is required, a value
      in the field named `email` must have the shape of an address once
      trimmed, and anything else passes. */
  function FieldVerdict(name: string, raw: string): Verdict {
    var value := Trim(raw);
    if value == "" then Rejected(RequiredMessage)
    else if name == "email" && !IsValidEmail(value) then Rejected(InvalidEmailMessage)
    else Accepted
  }

  /** What the rules accept and reject, stated against the blank test and
      the language of the e-mail pattern: a blank value is rejected as
      missing whatever the field's name; a non-blank value in the `email`
      field is rejected as malformed exactly when its trimmed form is outside
      the pattern; anything else is accepted. */
  lemma FieldVerdictMeaning(name: string, raw: string)
    ensures FieldVerdict(name, raw) == Rejected(RequiredMessage) <==> IsBlank(raw)
    ensures FieldVerdict(name, raw) == Rejected(InvalidEmailMessage) <==>
      !IsBlank(raw) && name == "email" && !MatchesPattern(Trim(raw))
    ensures FieldVerdict(name, raw) == Accepted <==>
      !IsBlank(raw) && (name == "email" ==> MatchesPattern(Trim(raw)))
  {
    TrimMeaning(raw);
    IsValidEmailMatchesPattern(Trim(raw));
  }

  /** The field as `validateField` leaves it: marked with the `error` class
      and a non-empty message exactly when its value is rejected, cleared
      otherwise. */
  function Checked(f: Input): (g: Input)
    ensures g.name == f.name && g.value == f.value && g.defaultValue == f.defaultValue
    ensures g.error <==> !Passes(f)
    ensures g.errorText == "" <==> !g.error
  {
    match FieldVerdict(f.name, f.value)
    case Accepted => f.(error := false, errorText := "")
    case Rejected(m) => f.(error := true, errorText := m)
  }

  /** The message a checked field shows: "required" for a blank value
      whatever the field's name, "valid email" for a non-blank value of the
      `email` field outside the pattern. */
  lemma CheckedMessage(f: Input)
    ensures IsBlank(f.value) ==> Checked(f).errorText == RequiredMessage
    ensures !IsBlank(f.value) && f.name == "email" && !MatchesPattern(Trim(f.value)) ==>
      Checked(f).errorText == InvalidEmailMessage
  {
    FieldVerdictMeaning(f.name, f.value);
  }

  /** The field as `form.reset()` leaves it: its value back to the default,
      its class and error text untouched. */
  function Reset(f: Input): Input {
    f.(value := f.defaultValue)
  }

  /** The field's value passes its rules. */
  predicate Passes(f: Input) {
    FieldVerdict(f.name, f.value) == Accepted
  }

  /** Every field of the form passes its rules. */
  ghost predicate AllAccepted(fields: seq<Input>) {
    forall j :: 0 <= j < |fields| ==> Passes(fields[j])
  }

  /** After every field has been checked, the form is valid exactly when no
      field is marked, and each field that fails is marked. */
  lemma AllAcceptedIffNoneMarked(fields: seq<Input>, checked: seq<Input>)
    requires |checked| == |fields|
    requires forall j :: 0 <= j < |fields| ==> checked[j] == Checked(fields[j])
    ensures AllAccepted(fields) <==> forall j :: 0 <= j < |checked| ==> !checked[j].error
    ensures forall j :: 0 <= j < |fields| && !Passes(fields[j]) ==> checked[j].error
  {
  }

  /** What `setSubmitButtonLoading(loading)` sets. */
  function ButtonFor(loading: bool): SubmitButton {
    if loading then SubmitButton(true, true, "fas fa-spinner loading-spinner", "Sending...")
    else SubmitButton(false, false, "fas fa-paper-plane", "Send Message")
  }

  class Form {
    var inputs: seq<Input>
    var status: FormStatus
    var button: SubmitButton
    /** Every argument passed to `setSubmitButtonLoading`, in order. */
    ghost var loadingLog: seq<bool>

    /** The page as loaded: the banner hidden and the button idle. */
    constructor (inputs: seq<Input>)
      ensures this.inputs == inputs && status == Hidden && button == ButtonFor(false)
      ensures loadingLog == []
    {
      this.inputs := inputs;
      status := Hidden;
      button := ButtonFor(false);
      loadingLog := [];
    }

    /** `showFieldError`: add the `error` class and set the message. */
    method ShowFieldError(k: nat, message: string)
      requires k < |inputs|
      modifies this`inputs
      ensures inputs == old(inputs)[k := old(inputs)[k].(error := true, errorText := message)]
    {
      inputs := inputs[k := inputs[k].(error := true, errorText := message)];
    }

    /** `validateField`: clear the previous error, then apply the rules to
        the trimmed value. It returns whether the field passed, and leaves the
        field marked exactly when it did not. */
    method ValidateField(k: nat) returns (ok: bool)
      requires k < |inputs|
      modifies this`inputs
      ensures ok <==> Passes(old(inputs)[k])
      ensures inputs == old(inputs)[k := Checked(old(inputs)[k])]
      ensures inputs[k].error == !ok && (inputs[k].errorText == "" <==> ok)
    {
      var value := Trim(inputs[k].value);
      var name := inputs[k].name;
      inputs := inputs[k := inputs[k].(error := false, errorText := "")];
      if value == "" {
        ShowFieldError(k, RequiredMessage);
        return false;
      }
      if name == "email" && !IsValidEmail(value) {
        ShowFieldError(k, InvalidEmailMessage);
        return false;
      }
      return true;
    }

    /** The `blur` listener: validate the field. */
    method OnBlur(k: nat)
      requires k < |inputs|
      modifies this`inputs
      ensures inputs == old(inputs)[k := Checked(old(inputs)[k])]
    {
      var _ := ValidateField(k);
    }

    /** The user changes a field's value to `newValue`, then the `input`
        listener runs: a field already marked is validated again, so its mark
        goes as soon as the value passes; an unmarked field stays unmarked. */
    method OnInput(k: nat, newValue: string)
      requires k < |inputs|
      modifies this`inputs
      ensures var typed := old(inputs)[k].(value := newValue);
        inputs == old(inputs)[k := if old(inputs)[k].error then Checked(typed) else typed]
    {
      inputs := inputs[k := inputs[k].(value := newValue)];
      if inputs[k].error {
        var _ := ValidateField(k);
      }
    }

    /** The loop at the top of the submit handler: every field is validated,
        none skipped once one has failed, and the form is valid exactly when
        every field passed. */
    method ValidateAll() returns (isValid: bool)
      modifies this`inputs
      ensures |inputs| == |old(inputs)|
      ensures forall j :: 0 <= j < |inputs| ==> inputs[j] == Checked(old(inputs)[j])
      ensures isValid <==> AllAccepted(old(inputs))
    {
      ghost var before := inputs;
      isValid := true;
      var i := 0;
      while i < |inputs|
        invariant 0 <= i <= |inputs| == |before|
        invariant forall j :: 0 <= j < i ==> inputs[j] == Checked(before[j])
        invariant forall j :: i <= j < |inputs| ==> inputs[j] == before[j]
        invariant isValid <==> forall j :: 0 <= j < i ==> Passes(before[j])
      {
        var ok := ValidateField(i);
        if !ok {
          isValid := false;
        }
        i := i + 1;
      }
    }

    /** `setSubmitButtonLoading`. */
    method SetSubmitButtonLoading(loading: bool)
      modifies this`button, this`loadingLog
      ensures button == ButtonFor(loading)
      ensures loadingLog == old(loadingLog) + [loading]
    {
      button := ButtonFor(loading);
      loadingLog := loadingLog + [loading];
    }

    /** `showFormStatus`. */
    method ShowFormStatus(kind: StatusKind, message: string)
      modifies this`status
      ensures status == Shown(kind, message)
    {
      status := Shown(kind, message);
    }

    /** `hideFormStatus`. */
    method HideFormStatus()
      modifies this`status
      ensures status == Hidden
    {
      status := Hidden;
    }

    /** `form.reset()`: every value back to its default. */
    method ResetForm()
      modifies this`inputs
      ensures |inputs| == |old(inputs)|
      ensures forall j :: 0 <= j < |inputs| ==> inputs[j] == Reset(old(inputs)[j])
    {
      inputs := seq(|inputs|, j requires 0 <= j < |inputs| reads this => Reset(inputs[j]));
    }

    /** The submit handler, with the outcome of the simulated send given as
        `sendSucceeds`. An invalid form shows the correction banner and never
        enters the loading state; a valid one enters it, sends, and always
        leaves it again, on success (banner, form reset) and on failure
        (error banner) alike. */
    method Submit(sendSucceeds: bool)
      modifies this`inputs, this`status, this`button, this`loadingLog
      ensures |inputs| == |old(inputs)|
      ensures !AllAccepted(old(inputs)) ==>
        && (forall j :: 0 <= j < |inputs| ==> inputs[j] == Checked(old(inputs)[j]))
        && status == Shown(ErrorStatus, CorrectErrorsMessage)
        && button == old(button) && loadingLog == old(loadingLog)
      ensures AllAccepted(old(inputs)) ==>
        && loadingLog == old(loadingLog) + [true, false]
        && button == ButtonFor(false)
        && (sendSucceeds ==>
              && status == Shown(SuccessStatus, SentMessage)
              && forall j :: 0 <= j < |inputs| ==> inputs[j] == Reset(Checked(old(inputs)[j])))
        && (!sendSucceeds ==>
              && status == Shown(ErrorStatus, SendFailedMessage)
              && forall j :: 0 <= j < |inputs| ==> inputs[j] == Checked(old(inputs)[j]))
    {
      var isValid := ValidateAll();
      ghost var checked := inputs;
      if !isValid {
        ShowFormStatus(ErrorStatus, CorrectErrorsMessage);
        return;
      }
      SetSubmitButtonLoading(true);
      if sendSucceeds {
        ShowFormStatus(SuccessStatus, SentMessage);
        ResetForm();
        assert forall j :: 0 <= j < |inputs| ==> inputs[j] == Reset(checked[j]);
      } else {
        ShowFormStatus(ErrorStatus, SendFailedMessage);
      }
      SetSubmitButtonLoading(false);
    }
  }
}
