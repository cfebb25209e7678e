/** The quote-request modal of script.js: opening and closing it
    (script.js:102-133, 509-517), validating its fields as the user types and
    on submit (script.js:141-224), the submission state flow
    (script.js:226-308) and the `?service=` preselection (script.js:608-631).
    The DOM is abstracted into one object: the form's controls in document
    order, their values, their `error` classes and the texts of their
    `<name>Error` elements, the display of the form and success views, and
    the submit button's text and `disabled` flag. */
module QuoteForm {
  import opened FieldValidation

  datatype Option<T> = None | Some(value: T)

  const FORM_NAME_KEY := "form-name"
  const FORM_NAME := "glass-quote-request"
  const SENDING_TEXT := "Sending..."

  /** One `.form-input` control of `#quoteForm`: its `name`, whether it has
      the `required` attribute, the value `form.reset()` restores, and
      whether the page has its `<name>Error` element. */
  datatype Control = Control(name: string, required: bool, defaultValue: string, hasErrorElement: bool)

  /** Where the page was loaded from (`window.location`). */
  datatype Location = Location(hostname: string, protocol: string)

  /** The outcome of the `fetch`: a response with its HTTP status, or a
      network failure that rejects the promise. */
  datatype Response = HttpResponse(status: int) | NetworkFailure

  /** What a submission sends: nothing, a simulated send on a development
      host, or a POST of the URL-encoded payload. */
  datatype Request = NotSent | Simulated(payload: map<string, string>) | Post(payload: map<string, string>)

  /** The submission state: idle, or waiting for the outcome with the
      button's original text kept for restoring it. */
  datatype Phase = Idle | Sending(originalText: string, simulated: bool)

  /** The development bypass of script.js:255-257. */
  predicate IsLocalhost(loc: Location) {
    loc.hostname == "localhost" || loc.hostname == "127.0.0.1" || loc.protocol == "file:"
  }

  /** `response.ok`: the status is in the range 200 to 299. */
  predicate IsOk(r: Response) {
    r.HttpResponse? && 200 <= r.status <= 299
  }

  /** The `serviceMap` of script.js:618-623 (own keys only). */
  function ServiceLabel(service: string): (r: Option<string>)
    ensures r.Some? <==> service in {"auto", "residential", "commercial", "emergency"}
    ensures service == "emergency" ==> r == Some("Emergency Repair")
  {
    if service == "auto" then Some("Auto Glass Repair")
    else if service == "residential" then Some("Residential Windows")
    else if service == "commercial" then Some("Commercial Glass")
    else if service == "emergency" then Some("Emergency Repair")
    else None
  }

  /** Distinct query values preselect distinct services. */
  lemma ServiceLabelInjective(a: string, b: string)
    requires ServiceLabel(a).Some? && ServiceLabel(a) == ServiceLabel(b)
    ensures a == b
  {
  }

  /** The values `form.reset()` restores. */
  function Defaults(cs: seq<Control>): seq<string> {
    seq(|cs|, i requires 0 <= i < |cs| => cs[i].defaultValue)
  }

  /** The verdict of `validateField` on control `i` holding `vs[i]`. */
  function CheckControl(cs: seq<Control>, vs: seq<string>, i: nat): Verdict
    requires |vs| == |cs| && i < |cs|
  {
    CheckField(cs[i].name, vs[i], cs[i].required)
  }

  /** Every required control passes its check. */
  predicate FormValid(cs: seq<Control>, vs: seq<string>)
    requires |vs| == |cs|
  {
    forall i :: 0 <= i < |cs| && cs[i].required ==> CheckControl(cs, vs, i).valid
  }

  /** The first control carrying the `error` class, as
      `document.querySelector('.form-input.error')` finds it. */
  function FirstError(flags: seq<bool>): (r: Option<nat>)
    ensures r.Some? ==>
      r.value < |flags| && flags[r.value] && forall k :: 0 <= k < r.value ==> !flags[k]
    ensures r.None? <==> forall k :: 0 <= k < |flags| ==> !flags[k]
  {
    if flags == [] then None
    else if flags[0] then Some(0)
    else match FirstError(flags[1..])
      case None => None
      case Some(k) => Some(k + 1)
  }

  /** `Object.fromEntries(new FormData(form))`: one entry per named control,
      later controls overwriting earlier ones of the same name. */
  function FormEntries(cs: seq<Control>, vs: seq<string>): map<string, string>
    requires |vs| == |cs|
  {
    if cs == [] then map[]
    else
      var n := |cs| - 1;
      var m0 := FormEntries(cs[..n], vs[..n]);
      if cs[n].name == "" then m0 else m0[cs[n].name := vs[n]]
  }

  /** The entries have one key per non-empty control name. */
  lemma {:induction false} FormEntriesKeys(cs: seq<Control>, vs: seq<string>, k: string)
    requires |vs| == |cs|
    ensures k in FormEntries(cs, vs) <==> k != "" && HasControlNamed(cs, k)
  {
    if cs != [] {
      var n := |cs| - 1;
      FormEntriesKeys(cs[..n], vs[..n], k);
      HasControlNamedStep(cs, k);
    }
  }

  /** Each key holds the value of the last control with that name. */
  lemma {:induction false} FormEntriesValues(cs: seq<Control>, vs: seq<string>, i: nat)
    requires |vs| == |cs| && i < |cs| && cs[i].name != "" && IsLastNamed(cs, i)
    ensures cs[i].name in FormEntries(cs, vs) && FormEntries(cs, vs)[cs[i].name] == vs[i]
  {
    var n := |cs| - 1;
    if i < n {
      IsLastNamedInit(cs, vs, i);
      FormEntriesValues(cs[..n], vs[..n], i);
    }
  }

  /** Some control is named `k`. */
  predicate HasControlNamed(cs: seq<Control>, k: string) {
    exists i :: 0 <= i < |cs| && cs[i].name == k
  }

  /** A control named `k` is either among all but the last control, or the
      last one. */
  lemma HasControlNamedStep(cs: seq<Control>, k: string)
    requires cs != []
    ensures HasControlNamed(cs, k) <==> HasControlNamed(cs[..|cs| - 1], k) || cs[|cs| - 1].name == k
  {
    var n := |cs| - 1;
    if HasControlNamed(cs, k) && cs[n].name != k {
      var i :| 0 <= i < |cs| && cs[i].name == k;
      assert cs[..n][i] == cs[i];
    }
    if HasControlNamed(cs[..n], k) {
      var i :| 0 <= i < n && cs[..n][i].name == k;
      assert cs[i].name == k;
    }
  }

  /** No later control shares control `i`'s name. */
  predicate IsLastNamed(cs: seq<Control>, i: nat)
    requires i < |cs|
  {
    forall j :: i < j < |cs| ==> cs[j].name != cs[i].name
  }

  /** A control last with its name stays last once the final control is
      dropped, and the final control has another name. */
  lemma IsLastNamedInit(cs: seq<Control>, vs: seq<string>, i: nat)
    requires |vs| == |cs| && i < |cs| - 1 && IsLastNamed(cs, i)
    ensures cs[..|cs| - 1][i] == cs[i] && vs[..|cs| - 1][i] == vs[i]
    ensures IsLastNamed(cs[..|cs| - 1], i)
    ensures cs[|cs| - 1].name != cs[i].name
  {
    var init := cs[..|cs| - 1];
    forall j | i < j < |init| ensures init[j].name != init[i].name {
      assert init[j] == cs[j];
    }
  }

  /** The body the form posts: the form's entries with `form-name` set to the
      form's registered name, whatever a control of that name held. */
  function Payload(cs: seq<Control>, vs: seq<string>): (p: map<string, string>)
    requires |vs| == |cs|
    ensures FORM_NAME_KEY in p && p[FORM_NAME_KEY] == FORM_NAME
    ensures forall k :: k in p <==> k == FORM_NAME_KEY || (k != "" && HasControlNamed(cs, k))
    ensures forall i :: 0 <= i < |cs| && cs[i].name != "" && cs[i].name != FORM_NAME_KEY && IsLastNamed(cs, i) ==>
      cs[i].name in p && p[cs[i].name] == vs[i]
  {
    var m := FormEntries(cs, vs);
    assert forall k :: k in m <==> k != "" && HasControlNamed(cs, k) by {
      forall k ensures k in m <==> k != "" && HasControlNamed(cs, k) {
        FormEntriesKeys(cs, vs, k);
      }
    }
    assert forall i :: 0 <= i < |cs| && cs[i].name != "" && IsLastNamed(cs, i) ==> cs[i].name in m && m[cs[i].name] == vs[i] by {
      forall i | 0 <= i < |cs| && cs[i].name != "" && IsLastNamed(cs, i)
        ensures cs[i].name in m && m[cs[i].name] == vs[i]
      {
        FormEntriesValues(cs, vs, i);
      }
    }
    m[FORM_NAME_KEY := FORM_NAME]
  }

  /** A form that fails validation has at least one control flagged, so the
      submit handler always finds a field to focus. */
  lemma InvalidFormHasFlag(cs: seq<Control>, vs: seq<string>, flags: seq<bool>)
    requires |vs| == |cs| && |flags| == |cs|
    requires forall i :: 0 <= i < |cs| && cs[i].required ==> flags[i] == !CheckControl(cs, vs, i).valid
    requires !FormValid(cs, vs)
    ensures FirstError(flags).Some?
  {
    var i :| 0 <= i < |cs| && cs[i].required && !CheckControl(cs, vs, i).valid;
    assert flags[i];
  }

  class QuoteModal {
    const controls: seq<Control>
    /** Index of the `#serviceType` select among the controls, if present. */
    const serviceField: Option<nat>

    var values: seq<string>
    /** Whether each control has the `error` class. */
    var errorFlags: seq<bool>
    /** The text of each control's `<name>Error` element (meaningless for a
        control without one). */
    var errorTexts: seq<string>
    /** `#quoteModal` has the `show` class. */
    var shown: bool
    /** `document.body.style.overflow` is `'hidden'`. */
    var pageScrollLocked: bool
    var formShown: bool
    var successShown: bool
    var buttonText: string
    var buttonDisabled: bool
    var phase: Phase
    /** The control that last received focus from the submit handler. */
    var focused: Option<nat>

    ghost predicate Valid()
      reads this
    {
      |values| == |controls| && |errorFlags| == |controls| && |errorTexts| == |controls|
      && (serviceField.Some? ==> serviceField.value < |controls|)
      && formShown == !successShown
      && (buttonDisabled <==> phase.Sending?)
      && (phase.Sending? ==> buttonText == SENDING_TEXT)
    }

    /** The page as loaded: the modal hidden, the form view showing, every
        control at its default and free of errors. */
    constructor (controls: seq<Control>, serviceField: Option<nat>, buttonLabel: string)
      requires serviceField.Some? ==> serviceField.value < |controls|
      ensures Valid()
      ensures this.controls == controls && this.serviceField == serviceField
      ensures values == Defaults(controls)
      ensures errorFlags == seq(|controls|, _ => false) && errorTexts == seq(|controls|, _ => "")
      ensures !shown && !pageScrollLocked && formShown && !successShown
      ensures buttonText == buttonLabel && !buttonDisabled && phase == Idle && focused == None
    {
      this.controls := controls;
      this.serviceField := serviceField;
      values := Defaults(controls);
      errorFlags := seq(|controls|, _ => false);
      errorTexts := seq(|controls|, _ => "");
      shown, pageScrollLocked := false, false;
      formShown, successShown := true, false;
      buttonText, buttonDisabled := buttonLabel, false;
      phase := Idle;
      focused := None;
    }

    /** `validateField`: decide control `i` and mirror the verdict into its
        `error` class and, when the page has one, its error element. */
    method ValidateField(i: nat) returns (ok: bool)
      requires Valid() && i < |controls|
      modifies this`errorFlags, this`errorTexts
      ensures Valid()
      ensures ok == CheckControl(controls, values, i).valid
      ensures errorFlags == old(errorFlags)[i := !ok]
      ensures errorTexts == if controls[i].hasErrorElement
                            then old(errorTexts)[i := CheckControl(controls, values, i).message]
                            else old(errorTexts)
    {
      var verdict := CheckField(controls[i].name, values[i], controls[i].required);
      ok := verdict.valid;
      errorFlags := errorFlags[i := !ok];
      if controls[i].hasErrorElement {
        errorTexts := errorTexts[i := verdict.message];
      }
    }

    /** `validateForm`: validate every required control, without stopping at
        the first failure, and report whether all passed. */
    method ValidateForm() returns (ok: bool)
      requires Valid()
      modifies this`errorFlags, this`errorTexts
      ensures Valid()
      ensures ok <==> FormValid(controls, values)
      ensures forall i :: 0 <= i < |controls| ==>
        errorFlags[i] == if controls[i].required then !CheckControl(controls, values, i).valid else old(errorFlags[i])
      ensures forall i :: 0 <= i < |controls| ==>
        errorTexts[i] == if controls[i].required && controls[i].hasErrorElement
                         then CheckControl(controls, values, i).message else old(errorTexts[i])
    {
      ok := true;
      var i := 0;
      while i < |controls|
        invariant Valid() && 0 <= i <= |controls|
        invariant ok <==> forall j :: 0 <= j < i && controls[j].required ==> CheckControl(controls, values, j).valid
        invariant forall j :: 0 <= j < |controls| ==>
          errorFlags[j] == if j < i && controls[j].required then !CheckControl(controls, values, j).valid else old(errorFlags[j])
        invariant forall j :: 0 <= j < |controls| ==>
          errorTexts[j] == if j < i && controls[j].required && controls[j].hasErrorElement
                           then CheckControl(controls, values, j).message else old(errorTexts[j])
      {
        if controls[i].required {
          var fieldOk := ValidateField(i);
          if !fieldOk {
            ok := false;
          }
        }
        i := i + 1;
      }
    }

    /** `clearFormErrors`: empty every error element, then drop every
        `error` class. */
    method ClearFormErrors()
      requires Valid()
      modifies this`errorFlags, this`errorTexts
      ensures Valid()
      ensures forall i :: 0 <= i < |controls| ==> !errorFlags[i]
      ensures forall i :: 0 <= i < |controls| ==>
        errorTexts[i] == if controls[i].hasErrorElement then "" else old(errorTexts[i])
    {
      var i := 0;
      while i < |controls|
        invariant Valid() && 0 <= i <= |controls| && errorFlags == old(errorFlags)
        invariant forall j :: 0 <= j < |controls| ==>
          errorTexts[j] == if j < i && controls[j].hasErrorElement then "" else old(errorTexts[j])
      {
        if controls[i].hasErrorElement {
          errorTexts := errorTexts[i := ""];
        }
        i := i + 1;
      }
      ghost var cleared := errorTexts;
      i := 0;
      while i < |controls|
        invariant Valid() && 0 <= i <= |controls| && errorTexts == cleared
        invariant forall j :: 0 <= j < i ==> !errorFlags[j]
      {
        errorFlags := errorFlags[i := false];
        i := i + 1;
      }
    }

    /** The `blur` listener: always re-validate the control. */
    method Blur(i: nat)
      requires Valid() && i < |controls|
      modifies this`errorFlags, this`errorTexts
      ensures Valid()
      ensures errorFlags == old(errorFlags)[i := !CheckControl(controls, values, i).valid]
      ensures errorTexts == if controls[i].hasErrorElement
                            then old(errorTexts)[i := CheckControl(controls, values, i).message]
                            else old(errorTexts)
    {
      var _ := ValidateField(i);
    }

    /** The `input` listener: the user types `text` into control `i`; the
        control is re-validated only while it shows an error. */
    method Input(i: nat, text: string)
      requires Valid() && i < |controls|
      modifies this`values, this`errorFlags, this`errorTexts
      ensures Valid()
      ensures values == old(values)[i := text]
      ensures errorFlags == if old(errorFlags[i])
                            then old(errorFlags)[i := !CheckField(controls[i].name, text, controls[i].required).valid]
                            else old(errorFlags)
      ensures errorTexts == if old(errorFlags[i]) && controls[i].hasErrorElement
                            then old(errorTexts)[i := CheckField(controls[i].name, text, controls[i].required).message]
                            else old(errorTexts)
    {
      values := values[i := text];
      if errorFlags[i] {
        var _ := ValidateField(i);
      }
    }

    /** `openQuoteModal`: show the form view, reset the form, clear its
        errors, show the modal and lock the page's scrolling. */
    method Open()
      requires Valid()
      modifies this`formShown, this`successShown, this`values, this`errorFlags, this`errorTexts,
        this`shown, this`pageScrollLocked
      ensures Valid()
      ensures shown && pageScrollLocked && formShown && !successShown
      ensures values == Defaults(controls)
      ensures forall i :: 0 <= i < |controls| ==> !errorFlags[i]
      ensures forall i :: 0 <= i < |controls| ==>
        errorTexts[i] == if controls[i].hasErrorElement then "" else old(errorTexts[i])
    {
      formShown, successShown := true, false;
      values := Defaults(controls);
      ClearFormErrors();
      shown := true;
      pageScrollLocked := true;
    }

    /** `closeQuoteModal`: hide the modal and unlock the page's scrolling. */
    method Close()
      requires Valid()
      modifies this`shown, this`pageScrollLocked
      ensures Valid()
      ensures !shown && !pageScrollLocked
    {
      shown := false;
      pageScrollLocked := false;
    }

    /** The document's `keydown` listener: Escape closes a shown modal; any
        other key, or Escape while it is hidden, changes nothing. */
    method KeyDown(key: string)
      requires Valid()
      modifies this`shown, this`pageScrollLocked
      ensures Valid()
      ensures shown == (old(shown) && key != "Escape")
      ensures pageScrollLocked == if old(shown) && key == "Escape" then false else old(pageScrollLocked)
    {
      if key == "Escape" && shown {
        Close();
      }
    }

    /** `showSuccessMessage`: replace the form view by the success view. */
    method ShowSuccessMessage()
      requires Valid()
      modifies this`formShown, this`successShown
      ensures Valid() && !formShown && successShown
    {
      formShown := false;
      successShown := true;
    }

    /** `handleFormSubmit` up to the network write. An invalid form sends
        nothing, leaves the button alone and focuses the first flagged
        control; a valid one puts the button in its busy state and sends the
        payload, simulated on a development host. */
    method Submit(loc: Location) returns (request: Request)
      requires Valid() && phase.Idle?
      modifies this`errorFlags, this`errorTexts, this`focused, this`buttonText, this`buttonDisabled, this`phase
      ensures Valid()
      ensures forall i :: 0 <= i < |controls| ==>
        errorFlags[i] == if controls[i].required then !CheckControl(controls, values, i).valid else old(errorFlags[i])
      ensures forall i :: 0 <= i < |controls| ==>
        errorTexts[i] == if controls[i].required && controls[i].hasErrorElement
                         then CheckControl(controls, values, i).message else old(errorTexts[i])
      ensures request.NotSent? <==> !FormValid(controls, values)
      ensures !FormValid(controls, values) ==>
        buttonText == old(buttonText) && !buttonDisabled && phase == Idle
        && focused.Some? && focused == FirstError(errorFlags)
      ensures FormValid(controls, values) ==>
        buttonText == SENDING_TEXT && buttonDisabled
        && phase == Sending(old(buttonText), IsLocalhost(loc)) && focused == old(focused)
        && request == if IsLocalhost(loc) then Simulated(Payload(controls, values)) else Post(Payload(controls, values))
    {
      var ok := ValidateForm();
      if !ok {
        InvalidFormHasFlag(controls, values, errorFlags);
        var first := FirstError(errorFlags);
        if first.Some? {
          focused := first;
        }
        return NotSent;
      }
      var originalText := buttonText;
      buttonText := SENDING_TEXT;
      buttonDisabled := true;
      var data := FormEntries(controls, values);
      data := data[FORM_NAME_KEY := FORM_NAME];
      if IsLocalhost(loc) {
        phase := Sending(originalText, true);
        return Simulated(data);
      }
      phase := Sending(originalText, false);
      request := Post(data);
    }

    /** The development host's timer fires: show the success view and
        restore the button. */
    method CompleteSimulated()
      requires Valid() && phase.Sending? && phase.simulated
      modifies this`formShown, this`successShown, this`buttonText, this`buttonDisabled, this`phase
      ensures Valid() && !formShown && successShown
      ensures buttonText == old(phase.originalText) && !buttonDisabled && phase == Idle
    {
      var originalText := phase.originalText;
      ShowSuccessMessage();
      buttonText := originalText;
      buttonDisabled := false;
      phase := Idle;
    }

    /** The `fetch` settles: the success view replaces the form only when
        `response.ok`; otherwise the user is alerted and the form stays as
        it was. Either way the button gets back its text and is enabled. */
    method CompleteResponse(response: Response) returns (alerted: bool)
      requires Valid() && phase.Sending? && !phase.simulated
      modifies this`formShown, this`successShown, this`buttonText, this`buttonDisabled, this`phase
      ensures Valid()
      ensures alerted <==> !IsOk(response)
      ensures IsOk(response) ==> !formShown && successShown
      ensures !IsOk(response) ==> formShown == old(formShown) && successShown == old(successShown)
      ensures buttonText == old(phase.originalText) && !buttonDisabled && phase == Idle
    {
      var originalText := phase.originalText;
      alerted := false;
      if IsOk(response) {
        ShowSuccessMessage();
      } else {
        alerted := true;
      }
      buttonText := originalText;
      buttonDisabled := false;
      phase := Idle;
    }

    /** The `load` listener reading `?service=`: a non-empty value opens the
        modal and, when the page has the select and the value is one of the
        four known services, preselects that service's label. */
    method ApplyServiceParam(service: Option<string>)
      requires Valid()
      modifies this`formShown, this`successShown, this`values, this`errorFlags, this`errorTexts,
        this`shown, this`pageScrollLocked
      ensures Valid()
      ensures (service.None? || service.value == "") ==> unchanged(this)
      ensures service.Some? && service.value != "" ==>
        shown && pageScrollLocked && formShown && !successShown
        && (forall i :: 0 <= i < |controls| ==> !errorFlags[i])
        && (forall i :: 0 <= i < |controls| ==>
              errorTexts[i] == if controls[i].hasErrorElement then "" else old(errorTexts[i]))
        && values == if serviceField.Some? && ServiceLabel(service.value).Some?
                     then Defaults(controls)[serviceField.value := ServiceLabel(service.value).value]
                     else Defaults(controls)
    {
      if service.Some? && service.value != "" {
        Open();
        if serviceField.Some? {
          var option := ServiceLabel(service.value);
          if option.Some? {
            values := values[serviceField.value := option.value];
          }
        }
      }
    }
  }
}
