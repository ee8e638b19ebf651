/** The sign-in form controller (src/components/LoginPage.tsx): the React
    state of the page as the fields of a class, one method per event handler.
    Timer expiry and the settling of the login promise are explicit events;
    the rendering is reduced to the attributes each field gets. */
module LoginPage {
  import opened Wrappers
  import V = Validators
  import L = LoginApi
  import F = Field

  datatype FieldName = Email | Password

  /** One value per field, as the `values` and `touched` records hold. */
  datatype PerField<T> = PerField(email: T, password: T) {
    function Get(f: FieldName): T {
      match f
      case Email => email
      case Password => password
    }

    /** The record spread `{ ...prev, [f]: v }`. */
    function With(f: FieldName, v: T): (r: PerField<T>)
      ensures r.Get(f) == v
      ensures forall g: FieldName | g != f :: r.Get(g) == Get(g)
    {
      match f
      case Email => this.(email := v)
      case Password => this.(password := v)
    }
  }

  datatype Status = Idle | Submitting | Success

  /** Why the login promise rejected: a `LoginError`, or anything else. */
  datatype Rejection = Rejected(error: L.LoginError) | OtherFailure

  const HelperTextId: string := "signin-helper"
  const OfflineMessage: string := "You appear to be offline. Check your connection and try again."

  /** JavaScript truthiness of `errors[f]`. */
  predicate HasError(errs: map<FieldName, string>, f: FieldName) {
    f in errs && errs[f] != ""
  }

  /** The validator `handleBlur` runs for a field. */
  function Validate(f: FieldName, value: string): (r: V.FieldError)
    ensures r.Some? ==> r.value != ""
    ensures f == Password ==> (r.None? <==> |value| >= V.MinPasswordLength)
  {
    match f
    case Email => V.ValidateEmail(value)
    case Password => V.ValidatePassword(value)
  }

  /** `validateBeforeSubmit`'s `nextErrors`: one entry per failing validator. */
  function SubmitErrors(values: PerField<string>): (errs: map<FieldName, string>)
    ensures forall f: FieldName :: f in errs <==> Validate(f, values.Get(f)).Some?
    ensures forall f: FieldName | f in errs :: errs[f] == Validate(f, values.Get(f)).value
  {
    var emailError := V.ValidateEmail(values.email);
    var passwordError := V.ValidatePassword(values.password);
    var withEmail := if F.Truthy(emailError) then map[Email := emailError.value] else map[];
    if F.Truthy(passwordError) then withEmail[Password := passwordError.value] else withEmail
  }

  /** `focusFirstInvalidField`: the field that receives focus, email first. */
  function FirstInvalidField(errs: map<FieldName, string>): (r: Option<FieldName>)
    ensures r == Some(Email) <==> HasError(errs, Email)
    ensures r == Some(Password) <==> !HasError(errs, Email) && HasError(errs, Password)
    ensures r.None? <==> !HasError(errs, Email) && !HasError(errs, Password)
  {
    if HasError(errs, Email) then Some(Email)
    else if HasError(errs, Password) then Some(Password)
    else None
  }

  /** The `catch` of `handleSubmit`: a `LoginError` is kept, anything else
      becomes a network error with the offline message. */
  function ResolveRejection(r: Rejection): (e: L.LoginError)
    ensures r.Rejected? ==> e == r.error
    ensures r.OtherFailure? ==> e.code == L.Network && e.message == L.ScenarioMessage(L.Network)
  {
    match r
    case Rejected(error) => error
    case OtherFailure => L.LoginError(L.Network, OfflineMessage)
  }

  /** The form's state; `pendingReset` stands for the `typingTimeout` ref:
      the field whose typing-reset callback is still to run. */
  class LoginForm {
    var values: PerField<string>
    var touched: PerField<bool>
    var errors: map<FieldName, string>
    var focusedField: Option<FieldName>
    var typingField: Option<FieldName>
    var status: Status
    var serverError: Option<L.LoginError>
    var passwordVisible: bool
    var pendingReset: Option<FieldName>

    /** No stored error is empty; a typing flag always has its reset pending;
        no server error is shown while submitting or after success. */
    ghost predicate Valid()
      reads this
    {
      && (forall f | f in errors :: errors[f] != "")
      && (typingField.Some? ==> pendingReset == typingField)
      && (status != Idle ==> serverError.None?)
    }

    /** The initial `useState` values. */
    constructor ()
      ensures Valid()
      ensures values == PerField("", "") && touched == PerField(false, false) && errors == map[]
      ensures focusedField == None && typingField == None && pendingReset == None
      ensures status == Idle && serverError == None && !passwordVisible
    {
      values := PerField("", "");
      touched := PerField(false, false);
      errors := map[];
      focusedField := None;
      typingField := None;
      status := Idle;
      serverError := None;
      passwordVisible := false;
      pendingReset := None;
    }

    /** `formDisabled`: the fields and buttons accept input only while idle. */
    function FormDisabled(): (r: bool)
      reads this
      ensures r <==> status != Idle
    {
      status == Submitting || status == Success
    }

    /** `getFieldState`: invalid, then typing, then focused, then valid
        (touched), then idle. */
    function GetFieldState(field: FieldName): (s: F.FieldState)
      reads this
      ensures s == F.Invalid <==> HasError(errors, field)
      ensures s == F.Typing ==> typingField == Some(field) && focusedField == Some(field)
      ensures s == F.Focused ==> focusedField == Some(field) && typingField != Some(field)
      ensures s == F.Valid ==> touched.Get(field) && focusedField != Some(field)
      ensures s == F.Idle ==> !touched.Get(field) && focusedField != Some(field)
      ensures !HasError(errors, field) && focusedField == Some(field) ==>
                s == if typingField == Some(field) then F.Typing else F.Focused
    {
      if HasError(errors, field) then F.Invalid
      else if typingField == Some(field) && focusedField == Some(field) then F.Typing
      else if focusedField == Some(field) then F.Focused
      else if touched.Get(field) then F.Valid
      else F.Idle
    }

    /** `scheduleTypingReset`: the pending callback is replaced by one for `field`. */
    method ScheduleTypingReset(field: FieldName)
      modifies this`pendingReset
      ensures pendingReset == Some(field)
    {
      pendingReset := Some(field);
    }

    /** `updateFieldValue`: a keystroke in a field. */
    method Edit(field: FieldName, value: string)
      requires Valid() && !FormDisabled()
      modifies this
      ensures Valid()
      ensures values == old(values).With(field, value)
      ensures serverError == None && typingField == Some(field) && pendingReset == Some(field)
      ensures touched == old(touched) && errors == old(errors) && status == old(status)
      ensures focusedField == old(focusedField) && passwordVisible == old(passwordVisible)
      ensures focusedField == Some(field) && !HasError(errors, field) ==> GetFieldState(field) == F.Typing
    {
      values := values.With(field, value);
      serverError := None;
      typingField := Some(field);
      ScheduleTypingReset(field);
    }

    /** The typing-reset callback, 600 ms after the last edit. It runs only if
        it is still pending, and clears the typing flag only if it still names
        the field it was scheduled for. */
    method TypingResetFires()
      requires Valid()
      modifies this
      ensures Valid()
      ensures typingField == (if old(pendingReset).Some? && old(typingField) == old(pendingReset) then None
                              else old(typingField))
      ensures typingField == None && pendingReset == None
      ensures values == old(values) && touched == old(touched) && errors == old(errors)
      ensures focusedField == old(focusedField) && status == old(status)
      ensures serverError == old(serverError) && passwordVisible == old(passwordVisible)
    {
      if pendingReset.Some? {
        var field := pendingReset.value;
        typingField := if typingField == Some(field) then None else typingField;
        pendingReset := None;
      }
    }

    /** `handleFocus`. */
    method Focus(field: FieldName)
      requires Valid()
      modifies this
      ensures Valid()
      ensures focusedField == Some(field) && typingField == None
      ensures values == old(values) && touched == old(touched) && errors == old(errors)
      ensures status == old(status) && serverError == old(serverError)
      ensures passwordVisible == old(passwordVisible) && pendingReset == old(pendingReset)
      ensures GetFieldState(field) == if HasError(errors, field) then F.Invalid else F.Focused
    {
      focusedField := Some(field);
      typingField := None;
    }

    /** `setFieldError`: store a non-empty message, otherwise drop the entry. */
    method SetFieldError(field: FieldName, message: Option<string>)
      requires Valid()
      modifies this`errors
      ensures Valid()
      ensures errors == if F.Truthy(message) then old(errors)[field := message.value]
                        else old(errors) - {field}
    {
      if F.Truthy(message) {
        errors := errors[field := message.value];
      } else {
        errors := errors - {field};
      }
    }

    /** `handleBlur`: leaving a field validates it and marks it touched. */
    method Blur(field: FieldName)
      requires Valid()
      modifies this
      ensures Valid()
      ensures focusedField == if old(focusedField) == Some(field) then None else old(focusedField)
      ensures typingField == if old(typingField) == Some(field) then None else old(typingField)
      ensures touched == old(touched).With(field, true)
      ensures errors == match Validate(field, values.Get(field))
                        case Some(m) => old(errors)[field := m]
                        case None => old(errors) - {field}
      ensures values == old(values) && status == old(status) && serverError == old(serverError)
      ensures passwordVisible == old(passwordVisible) && pendingReset == old(pendingReset)
      ensures GetFieldState(field) ==
                if Validate(field, values.Get(field)).Some? then F.Invalid else F.Valid
    {
      var message := Validate(field, values.Get(field));
      focusedField := if focusedField == Some(field) then None else focusedField;
      typingField := if typingField == Some(field) then None else typingField;
      touched := touched.With(field, true);
      SetFieldError(field, message);
    }

    /** `validateBeforeSubmit`: both fields validated and touched. */
    method ValidateBeforeSubmit() returns (nextErrors: map<FieldName, string>)
      requires Valid()
      modifies this
      ensures Valid()
      ensures nextErrors == SubmitErrors(values) && errors == nextErrors
      ensures touched == PerField(true, true)
      ensures values == old(values) && focusedField == old(focusedField)
      ensures typingField == old(typingField) && status == old(status)
      ensures serverError == old(serverError) && passwordVisible == old(passwordVisible)
      ensures pendingReset == old(pendingReset)
    {
      nextErrors := SubmitErrors(values);
      errors := nextErrors;
      touched := PerField(true, true);
    }

    /** `handleSubmit` up to the call of `login`: returns the field that gets
        focus when validation fails, or the credentials sent to `login`. */
    method Submit() returns (focusTarget: Option<FieldName>, request: Option<L.Credentials>)
      requires Valid() && !FormDisabled()
      modifies this
      ensures Valid()
      ensures serverError == None
      ensures errors == SubmitErrors(values) && touched == PerField(true, true)
      ensures values == old(values) && focusedField == old(focusedField)
      ensures typingField == old(typingField) && passwordVisible == old(passwordVisible)
      ensures pendingReset == old(pendingReset)
      ensures errors != map[] ==>
                status == old(status) && request == None && focusTarget == FirstInvalidField(errors)
      ensures errors == map[] ==>
                status == Submitting && focusTarget == None
                && request == Some(L.Credentials(values.email, values.password))
      ensures focusTarget.Some? <==> request.None?
    {
      serverError := None;
      var validationErrors := ValidateBeforeSubmit();
      if validationErrors != map[] {
        assert Email in validationErrors || Password in validationErrors;
        focusTarget := FirstInvalidField(validationErrors);
        request := None;
        return;
      }
      status := Submitting;
      focusTarget := None;
      request := Some(L.Credentials(values.email, values.password));
    }

    /** The awaited `login` settles: success is final; a rejection is shown
        in the error summary, which then receives focus, and the form is
        editable again. */
    method CompleteLogin(outcome: Result<L.LoginResult, Rejection>) returns (focusErrorSummary: bool)
      requires Valid() && status == Submitting
      modifies this
      ensures Valid()
      ensures outcome.Ok? ==> status == Success && serverError == None && !focusErrorSummary
      ensures outcome.Err? ==>
                status == Idle && serverError == Some(ResolveRejection(outcome.error)) && focusErrorSummary
      ensures values == old(values) && touched == old(touched) && errors == old(errors)
      ensures focusedField == old(focusedField) && typingField == old(typingField)
      ensures passwordVisible == old(passwordVisible) && pendingReset == old(pendingReset)
    {
      match outcome
      case Ok(_) =>
        status := Success;
        focusErrorSummary := false;
      case Err(rejection) =>
        serverError := Some(ResolveRejection(rejection));
        status := Idle;
        focusErrorSummary := true;
    }

    /** `togglePasswordVisibility`. */
    method TogglePasswordVisibility()
      requires Valid()
      modifies this`passwordVisible
      ensures Valid()
      ensures passwordVisible == !old(passwordVisible)
    {
      passwordVisible := !passwordVisible;
    }

    /** The props the page passes to a field's `Field`. */
    function FieldPropsOf(field: FieldName): (p: F.FieldProps)
      reads this
      ensures p.state == GetFieldState(field)
      ensures F.Truthy(p.error) <==> HasError(errors, field)
      ensures p.id == (if field == Email then "email" else "password")
      ensures p.error == (if field in errors then Some(errors[field]) else None)
      ensures p.describedBy == (if field == Email then Some(HelperTextId) else None)
    {
      match field
      case Email =>
        F.FieldProps("email", if Email in errors then Some(errors[Email]) else None,
                     Some(HelperTextId), GetFieldState(Email))
      case Password =>
        F.FieldProps("password", if Password in errors then Some(errors[Password]) else None,
                     None, GetFieldState(Password))
    }
  }

  /** The e-mail input is always described by the helper text, and also by
      its error message exactly while it has an error. */
  lemma EmailFieldDescribedBy(form: LoginForm)
    ensures F.Attributes(form.FieldPropsOf(Email)).ariaDescribedBy ==
              Some(if HasError(form.errors, Email) then "signin-helper email-error" else "signin-helper")
  {
    var p := form.FieldPropsOf(Email);
    assert F.ErrorId(p.id, p.error).Some? ==> F.ErrorId(p.id, p.error).value == "email-error";
    assert HelperTextId + " " + "email-error" == "signin-helper email-error";
  }

  /** The password input is described by its message element only, and only
      while it has an error. */
  lemma PasswordFieldDescribedBy(form: LoginForm)
    ensures F.Attributes(form.FieldPropsOf(Password)).ariaDescribedBy ==
              (if HasError(form.errors, Password) then Some("password-error") else None)
  {
    var p := form.FieldPropsOf(Password);
    assert F.ErrorId(p.id, p.error).Some? ==> F.ErrorId(p.id, p.error).value == "password-error";
  }

  /** The message element of either field shows exactly the stored error, or
      nothing when the field has none. */
  lemma MessageShowsStoredError(form: LoginForm, f: FieldName)
    ensures F.Attributes(form.FieldPropsOf(f)).messageText == (if f in form.errors then form.errors[f] else "")
  {
  }

  /** Submitting the untouched form surfaces both errors, moves focus to the
      e-mail field and does not call `login`. */
  method EmptySubmit() returns (focusTarget: Option<FieldName>, request: Option<L.Credentials>,
                                emailState: F.FieldState, passwordState: F.FieldState)
    ensures focusTarget == Some(Email) && request == None
    ensures emailState == F.Invalid && passwordState == F.Invalid
  {
    var form := new LoginForm();
    V.BlankEmailRejected("");
    focusTarget, request := form.Submit();
    emailState := form.GetFieldState(Email);
    passwordState := form.GetFieldState(Password);
  }

  /** A rejected login leaves the form idle and editable with the error
      shown; a resolved one disables it for good. */
  method SubmitAndSettle(email: string, password: string, outcome: Result<L.LoginResult, Rejection>)
    returns (request: Option<L.Credentials>, disabled: bool, shown: Option<L.LoginError>)
    requires V.ValidateEmail(email).None? && V.ValidatePassword(password).None?
    ensures request == Some(L.Credentials(email, password))
    ensures disabled <==> outcome.Ok?
    ensures outcome.Err? ==> shown == Some(ResolveRejection(outcome.error))
    ensures outcome.Ok? ==> shown == None
  {
    var form := new LoginForm();
    form.Edit(Email, email);
    form.Edit(Password, password);
    var focusTarget;
    focusTarget, request := form.Submit();
    var _ := form.CompleteLogin(outcome);
    disabled := form.FormDisabled();
    shown := form.serverError;
  }
}
