/**
 The login form as plain data: field values, the user-type radio group, the tab
 labels and the presentation state of each field group, with the form-level
 operations of the login script.
 */
module LoginForm {
  import opened JsStrings
  import opened Validation

  datatype UserType = Employee | Client

  /** The visual state of one form group: no class, `error` with its message, or `success`. */
  datatype FieldState = Neutral | Error(message: string) | Success

  /** `activeTabs` is the set of user types whose tab label carries the `active` class. */
  datatype Form = Form(
    username: JsString,
    password: JsString,
    rememberMe: bool,
    userType: UserType,
    usernameState: FieldState,
    passwordState: FieldState,
    activeTabs: set<UserType>)

  /** Exactly one tab label is active, and it is the one of the checked user type. */
  predicate TabsExclusive(f: Form) {
    |f.activeTabs| == 1 && f.userType in f.activeTabs
  }

  /** What `showError` / `showSuccess` leave on a group after a validator ran. */
  function Shown(v: Verdict): (s: FieldState)
    ensures s != Neutral
    ensures s == Success <==> v == Pass
    ensures v.Fail? ==> s == Error(v.message)
  {
    match v
    case Pass => Success
    case Fail(m) => Error(m)
  }

  /** `updateTabLabels`: every label loses `active`, then the checked type's label gains it. */
  function UpdateTabLabels(f: Form): (r: Form)
    ensures TabsExclusive(r)
    ensures r.(activeTabs := f.activeTabs) == f
  {
    f.(activeTabs := {f.userType})
  }

  /** Blur on the username field: the group shows the validator's verdict. */
  function BlurUsername(f: Form): (r: Form)
    ensures r.usernameState != Neutral
    ensures r.usernameState == Success <==> MatchesEmailPattern(Trim(f.username))
    ensures r.usernameState == Error(UsernameMissing) <==> Blank(f.username)
    ensures r.usernameState == Error(UsernameNotEmail) <==>
              !Blank(f.username) && !MatchesEmailPattern(Trim(f.username))
    ensures r.username == f.username && r.password == f.password && r.passwordState == f.passwordState
    ensures r.userType == f.userType && r.rememberMe == f.rememberMe && r.activeTabs == f.activeTabs
  {
    f.(usernameState := Shown(ValidateUsername(f.username)))
  }

  /** Blur on the password field: the group shows the validator's verdict. */
  function BlurPassword(f: Form): (r: Form)
    ensures r.passwordState != Neutral
    ensures r.passwordState == Success <==> |f.password| >= MinPasswordLength
    ensures r.passwordState == Error(PasswordMissing) <==> f.password == []
    ensures r.passwordState == Error(PasswordTooShort) <==> 0 < |f.password| < MinPasswordLength
    ensures r.username == f.username && r.password == f.password && r.usernameState == f.usernameState
    ensures r.userType == f.userType && r.rememberMe == f.rememberMe && r.activeTabs == f.activeTabs
  {
    f.(passwordState := Shown(ValidatePassword(f.password)))
  }

  datatype Checked = Checked(form: Form, valid: bool)

  /** The form's contents pass both validators: the trimmed username matches the email
      pattern and the password has at least six code units. */
  ghost predicate Acceptable(f: Form) {
    MatchesEmailPattern(Trim(f.username)) && |f.password| >= MinPasswordLength
  }

  /** `validateForm`: both validators run, without short-circuit, and the form is valid
      iff both pass. */
  function ValidateForm(f: Form): (r: Checked)
    ensures r.valid <==> Acceptable(f)
    ensures r.form.usernameState != Neutral && r.form.passwordState != Neutral
    ensures r.form.usernameState == Success <==> MatchesEmailPattern(Trim(f.username))
    ensures r.form.passwordState == Success <==> |f.password| >= MinPasswordLength
    ensures r.valid <==> r.form.usernameState == Success && r.form.passwordState == Success
    ensures r.form.username == f.username && r.form.password == f.password
    ensures r.form.userType == f.userType && r.form.rememberMe == f.rememberMe
    ensures r.form.activeTabs == f.activeTabs
  {
    var afterUser := BlurUsername(f);
    var afterBoth := BlurPassword(afterUser);
    Checked(afterBoth, ValidateUsername(f.username) == Pass && ValidatePassword(f.password) == Pass)
  }

  /** On submit each group shows its own validator's message: missing or malformed
      username, missing or too-short password. */
  lemma ValidateFormShowsErrors(f: Form)
    ensures var c := ValidateForm(f);
      && (c.form.usernameState == Error(UsernameMissing) <==> Blank(f.username))
      && (c.form.usernameState == Error(UsernameNotEmail) <==>
            !Blank(f.username) && !MatchesEmailPattern(Trim(f.username)))
      && (c.form.passwordState == Error(PasswordMissing) <==> f.password == [])
      && (c.form.passwordState == Error(PasswordTooShort) <==> 0 < |f.password| < MinPasswordLength)
  {
  }

  /** What the form submits; the password travels along but is never stored. */
  datatype FormData = FormData(username: JsString, password: JsString, userType: UserType, rememberMe: bool)

  /** `getFormData`: the username is trimmed, the password is taken as typed. The
      submitted username is what is left of the field after dropping the maximal
      whitespace run at each end; it is empty iff the field is blank. */
  function GetFormData(f: Form): (d: FormData)
    ensures d.password == f.password
    ensures d.userType == f.userType && d.rememberMe == f.rememberMe
    ensures TrimmedInfix(f.username, d.username)
    ensures d.username == [] <==> Blank(f.username)
  {
    var u := Trim(f.username);
    FormData(u, f.password, f.userType, f.rememberMe)
  }

  /** The validator and the submit see the same value: the username validator passes
      iff the submitted (trimmed) username matches the email pattern, and then the
      submitted username is already trimmed. */
  lemma SubmittedUsernameValidates(f: Form)
    ensures ValidateUsername(f.username) == Pass <==> MatchesEmailPattern(GetFormData(f).username)
    ensures Trim(GetFormData(f).username) == GetFormData(f).username
  {
    TrimIdempotent(f.username);
  }

  /** `clearForm` (bound to the Escape key): empty fields, `rememberMe` off, user type
      `employee`, every group neutral and the labels updated. It ends by focusing the
      username field; when the password field had the focus, that move fires the
      password field's blur listener, which validates the now-empty password. */
  function ClearForm(f: Form, passwordFocused: bool): (r: Form)
    ensures r.username == [] && r.password == []
    ensures !r.rememberMe && r.userType == Employee
    ensures r.usernameState == Neutral
    ensures !passwordFocused ==> r.passwordState == Neutral
    ensures passwordFocused ==> r.passwordState == Error(PasswordMissing)
    ensures TabsExclusive(r) && Employee in r.activeTabs
  {
    var cleared := UpdateTabLabels(Form([], [], false, Employee, Neutral, Neutral, f.activeTabs));
    if passwordFocused then BlurPassword(cleared) else cleared
  }

  /** Submitting a cleared form fails both validators with their "missing" messages. */
  lemma ClearedFormFailsValidation(f: Form, passwordFocused: bool)
    ensures var c := ValidateForm(ClearForm(f, passwordFocused));
      && !c.valid
      && c.form.usernameState == Error(UsernameMissing)
      && c.form.passwordState == Error(PasswordMissing)
  {
  }
}
