/**
 The login page as an event-driven state machine. A `Page` holds the form, the
 persistent (`local`) and session storage scopes, and the single pending slot of
 the debounced draft write. Every DOM event the script listens to is a `Step`;
 the time an event happens at is passed in.
 */
module LoginPage {
  import opened Options
  import opened JsStrings
  import opened Validation
  import opened LoginForm
  import opened Persistence

  /** Delay of the debounced draft write. */
  const AutoSaveDelayMs: int := 1000

  /** `draftDue` is the time the pending auto-save timer fires, if one is pending. */
  datatype Page = Page(form: Form, local: Storage, session: Storage, draftDue: Option<int>)

  /** The `DOMContentLoaded` listeners in registration order: `loadSavedCredentials`,
      then `setupUserTypeTabs`, then `loadFormDraft`. No auto-save is pending yet. */
  function PageReady(initial: Form, local: Storage, session: Storage, now: int): (p: Page)
    ensures TabsExclusive(p.form)
    ensures p.session == session && p.draftDue == None
    ensures p.local - {CredentialsKey} == local - {CredentialsKey}
    ensures CredentialsKey in p.local <==>
              CredentialsKey in local && Restorable(local[CredentialsKey], now, CredentialLifetimeMs)
    ensures p.form.password == initial.password
    ensures CredentialsKey in local && Restorable(local[CredentialsKey], now, CredentialLifetimeMs) ==>
              p.form.rememberMe && CredentialsKey in p.local
    ensures CredentialsKey in local && Restorable(local[CredentialsKey], now, CredentialLifetimeMs)
            && local[CredentialsKey].value.username != [] ==>
              && p.form.username == local[CredentialsKey].value.username
              && p.form.userType == local[CredentialsKey].value.userType.userType
  {
    var c := LoadSavedCredentials(initial, local, now);
    var shown := UpdateTabLabels(c.form);
    Page(LoadFormDraft(shown, session, now), c.storage, session, None)
  }

  /** `autoSaveForm`: cancel the pending write, if any, and schedule one a second from now. */
  function AutoSaveForm(p: Page, now: int): (r: Page)
    ensures r.draftDue == Some(now + AutoSaveDelayMs)
    ensures r.(draftDue := p.draftDue) == p
  {
    p.(draftDue := Some(now + AutoSaveDelayMs))
  }

  /** The pending auto-save timer fires at `now`. It reads the form as it is NOW, not as
      it was when the write was scheduled, and stores the untrimmed username. Before
      its due time, or with nothing pending, nothing happens. */
  function FireDraftTimer(p: Page, now: int): (r: Page)
    ensures p.draftDue.Some? && p.draftDue.value <= now ==>
              && r.draftDue == None
              && DraftKey in r.session
              && r.session[DraftKey] == Some(Record(p.form.username, Known(p.form.userType), now))
              && r.session - {DraftKey} == p.session - {DraftKey}
              && r.form == p.form && r.local == p.local
    ensures !(p.draftDue.Some? && p.draftDue.value <= now) ==> r == p
  {
    match p.draftDue
    case Some(due) =>
      if due <= now then p.(session := p.session[DraftKey := Some(DraftOf(p.form, now))], draftDue := None)
      else p
    case None => p
  }

  /** Typing in the username field: the value changes, `clearError` makes the group
      neutral, and `autoSaveForm` reschedules the draft write. */
  function HandleUsernameInput(p: Page, value: JsString, now: int): (r: Page)
    ensures r.form == p.form.(username := value, usernameState := Neutral)
    ensures r.draftDue == Some(now + AutoSaveDelayMs)
    ensures r.local == p.local && r.session == p.session
  {
    AutoSaveForm(p.(form := p.form.(username := value, usernameState := Neutral)), now)
  }

  /** Typing in the password field: the value changes and the group becomes neutral;
      no draft is scheduled. */
  function HandlePasswordInput(p: Page, value: JsString): (r: Page)
    ensures r.form == p.form.(password := value, passwordState := Neutral)
    ensures r.local == p.local && r.session == p.session && r.draftDue == p.draftDue
  {
    p.(form := p.form.(password := value, passwordState := Neutral))
  }

  /** Selecting a user-type radio. Re-selecting the checked one fires no `change`
      event; otherwise `handleUserTypeChange` updates the labels and `autoSaveForm`
      reschedules the draft write. */
  function HandleUserTypeChange(p: Page, t: UserType, now: int): (r: Page)
    ensures r.form.userType == t
    ensures t == p.form.userType ==> r == p
    ensures t != p.form.userType ==> TabsExclusive(r.form) && r.draftDue == Some(now + AutoSaveDelayMs)
    ensures r.form.usernameState == p.form.usernameState && r.form.passwordState == p.form.passwordState
    ensures r.form.username == p.form.username && r.form.password == p.form.password
    ensures r.form.rememberMe == p.form.rememberMe
    ensures r.local == p.local && r.session == p.session
  {
    if t == p.form.userType then p
    else AutoSaveForm(p.(form := UpdateTabLabels(p.form.(userType := t))), now)
  }

  /** `handleRememberMeChange`. Clicking the box flips it; setting it to the value it
      already has fires no `change` event. Unchecking removes the stored credential at
      once; checking stores nothing. */
  function HandleRememberMeChange(p: Page, checked: bool): (r: Page)
    ensures checked == p.form.rememberMe ==> r == p
    ensures r.form == p.form.(rememberMe := checked)
    ensures !checked && p.form.rememberMe ==> CredentialsKey !in r.local
    ensures checked ==> r.local == p.local
    ensures r.local - {CredentialsKey} == p.local - {CredentialsKey}
    ensures r.session == p.session && r.draftDue == p.draftDue
  {
    if checked == p.form.rememberMe then p
    else
      var f := p.form.(rememberMe := checked);
      if checked then p.(form := f)
      else p.(form := f, local := ClearSavedCredentials(p.local))
  }

  /** The persistence branch of `submitLogin`: save the credential when `rememberMe`
      was checked, remove it otherwise. */
  function SubmitLogin(local: Storage, data: FormData, now: int): (r: Storage)
    ensures CredentialsKey in r <==> data.rememberMe
    ensures data.rememberMe ==> r[CredentialsKey] == Some(Record(data.username, Known(data.userType), now))
    ensures r - {CredentialsKey} == local - {CredentialsKey}
  {
    if data.rememberMe then SaveCredentials(local, data, now) else ClearSavedCredentials(local)
  }

  /** The rest of `handleFormSubmit` after validation: only a valid form is submitted,
      and then the credential is saved or removed according to `rememberMe`. */
  function CompleteLogin(local: Storage, checked: Checked, now: int): (r: Storage)
    ensures !checked.valid ==> r == local
    ensures checked.valid ==> (CredentialsKey in r <==> checked.form.rememberMe)
    ensures checked.valid && checked.form.rememberMe ==>
              r[CredentialsKey] == Some(Record(Trim(checked.form.username), Known(checked.form.userType), now))
    ensures r - {CredentialsKey} == local - {CredentialsKey}
  {
    if checked.valid then SubmitLogin(local, GetFormData(checked.form), now) else local
  }

  /** `handleFormSubmit`: both fields are validated, and only a valid form is submitted,
      with the trimmed username. Storage other than the credential, the session and
      the pending auto-save are not touched. */
  function HandleFormSubmit(p: Page, now: int): (r: Page)
    ensures r.session == p.session && r.draftDue == p.draftDue
    ensures r.form.usernameState != Neutral && r.form.passwordState != Neutral
    ensures r.form.usernameState == Shown(ValidateUsername(p.form.username))
    ensures r.form.passwordState == Shown(ValidatePassword(p.form.password))
    ensures r.form.username == p.form.username && r.form.password == p.form.password
    ensures r.form.userType == p.form.userType && r.form.rememberMe == p.form.rememberMe
    ensures r.form.activeTabs == p.form.activeTabs
    ensures r.local - {CredentialsKey} == p.local - {CredentialsKey}
    ensures !Acceptable(p.form) ==> r.local == p.local
    ensures Acceptable(p.form) ==>
              && (CredentialsKey in r.local <==> p.form.rememberMe)
              && (p.form.rememberMe ==>
                    r.local[CredentialsKey] == Some(Record(Trim(p.form.username), Known(p.form.userType), now)))
  {
    var checked := ValidateForm(p.form);
    p.(form := checked.form, local := CompleteLogin(p.local, checked, now))
  }

  /** A submit event. The draft-removing listener was registered when the script
      loaded, so it runs first and on every submit, valid or not; then
      `handleFormSubmit` runs. The pending auto-save, if any, is not cancelled. */
  function HandleSubmit(p: Page, now: int): (r: Page)
    ensures DraftKey !in r.session
    ensures r.session - {DraftKey} == p.session - {DraftKey}
    ensures r.draftDue == p.draftDue
    ensures r.form.usernameState != Neutral && r.form.passwordState != Neutral
    ensures r.form.usernameState == Shown(ValidateUsername(p.form.username))
    ensures r.form.passwordState == Shown(ValidatePassword(p.form.password))
    ensures r.form.username == p.form.username && r.form.password == p.form.password
    ensures r.form.userType == p.form.userType && r.form.rememberMe == p.form.rememberMe
    ensures r.form.activeTabs == p.form.activeTabs
    ensures r.local - {CredentialsKey} == p.local - {CredentialsKey}
    ensures !Acceptable(p.form) ==> r.local == p.local
    ensures Acceptable(p.form) ==>
              && (CredentialsKey in r.local <==> p.form.rememberMe)
              && (p.form.rememberMe ==>
                    r.local[CredentialsKey] == Some(Record(Trim(p.form.username), Known(p.form.userType), now)))
  {
    var q := p.(session := p.session - {DraftKey});
    assert q.form == p.form && q.local == p.local;
    HandleFormSubmit(q, now)
  }

  /** The Escape key runs `clearForm`. Setting `rememberMe` from script fires no
      `change` event, so the stored credential survives; no draft write is scheduled
      or cancelled. When Escape is pressed in the password field, the focus move at
      the end of `clearForm` validates the emptied password on blur. */
  function HandleEscape(p: Page, passwordFocused: bool): (r: Page)
    ensures r.form.username == [] && r.form.password == [] && !r.form.rememberMe
    ensures r.form.userType == Employee && TabsExclusive(r.form)
    ensures r.form.usernameState == Neutral
    ensures r.form.passwordState == if passwordFocused then Error(PasswordMissing) else Neutral
    ensures r.local == p.local && r.session == p.session && r.draftDue == p.draftDue
  {
    p.(form := ClearForm(p.form, passwordFocused))
  }

  datatype Event =
    | UsernameInput(value: JsString)
    | PasswordInput(value: JsString)
    | UsernameBlur
    | PasswordBlur
    | UserTypeSelected(userType: UserType)
    | RememberMeToggled(checked: bool)
    | Submitted
    | EscapePressed(passwordFocused: bool)
    | DraftTimerFired

  /** One event at time `now`. */
  function Step(p: Page, e: Event, now: int): (r: Page)
    ensures TabsExclusive(p.form) ==> TabsExclusive(r.form)
    ensures e.Submitted? ==> DraftKey !in r.session
    ensures !e.Submitted? && !e.DraftTimerFired? ==> r.session == p.session
    ensures !e.Submitted? && !e.RememberMeToggled? ==> r.local == p.local
  {
    match e
    case UsernameInput(v) => HandleUsernameInput(p, v, now)
    case PasswordInput(v) => HandlePasswordInput(p, v)
    case UsernameBlur => p.(form := BlurUsername(p.form))
    case PasswordBlur => p.(form := BlurPassword(p.form))
    case UserTypeSelected(t) => HandleUserTypeChange(p, t, now)
    case RememberMeToggled(c) => HandleRememberMeChange(p, c)
    case Submitted => HandleSubmit(p, now)
    case EscapePressed(inPassword) => HandleEscape(p, inPassword)
    case DraftTimerFired => FireDraftTimer(p, now)
  }

  datatype Timed = Timed(event: Event, at: int)

  /** The page after a sequence of timed events. */
  function Run(p: Page, trace: seq<Timed>): (r: Page)
    decreases |trace|
  {
    if trace == [] then p
    else
      var q := Step(p, trace[0].event, trace[0].at);
      Run(q, trace[1..])
  }

  /** Exactly one tab label is active after every sequence of events. */
  lemma {:induction false} RunKeepsTabsExclusive(p: Page, trace: seq<Timed>)
    requires TabsExclusive(p.form)
    ensures TabsExclusive(Run(p, trace).form)
    decreases |trace|
  {
    if trace != [] {
      RunKeepsTabsExclusive(Step(p, trace[0].event, trace[0].at), trace[1..]);
    }
  }

  lemma {:induction false} RunAppend(p: Page, a: seq<Timed>, b: seq<Timed>)
    ensures Run(p, a + b) == Run(Run(p, a), b)
    decreases |a|
  {
    if a == [] {
      assert a + b == b;
    } else {
      assert (a + b)[1..] == a[1..] + b;
      RunAppend(Step(p, a[0].event, a[0].at), a[1..], b);
    }
  }

  /** Typing only reschedules: after any run of username inputs exactly one write is
      pending, due a second after the LAST keystroke, and no draft was written. */
  lemma {:induction false} TypingCoalesces(p: Page, typing: seq<Timed>)
    requires |typing| > 0
    requires forall k | 0 <= k < |typing| :: typing[k].event.UsernameInput?
    ensures var q := Run(p, typing);
      && q.session == p.session && q.local == p.local
      && q.draftDue == Some(typing[|typing| - 1].at + AutoSaveDelayMs)
      && q.form.username == typing[|typing| - 1].event.value
      && q.form.userType == p.form.userType
    decreases |typing|
  {
    var q := Step(p, typing[0].event, typing[0].at);
    if |typing| > 1 {
      TypingCoalesces(q, typing[1..]);
    }
  }

  /** Debounce, last write wins: after a run of username inputs, the timer firing at
      or after the last input's due time performs one write, holding the last value. */
  lemma DebounceLastWriteWins(p: Page, typing: seq<Timed>, t: int)
    requires |typing| > 0
    requires forall k | 0 <= k < |typing| :: typing[k].event.UsernameInput?
    requires t >= typing[|typing| - 1].at + AutoSaveDelayMs
    ensures var q := Run(p, typing + [Timed(DraftTimerFired, t)]);
      && q.draftDue == None
      && q.session == p.session[DraftKey := Some(Record(typing[|typing| - 1].event.value, Known(p.form.userType), t))]
  {
    RunAppend(p, typing, [Timed(DraftTimerFired, t)]);
    TypingCoalesces(p, typing);
  }

  /** A restored credential outranks the draft: when the credential record is
      restorable and names a user, the draft never changes the username or type. */
  lemma CredentialOutranksDraft(initial: Form, local: Storage, session: Storage, now: int)
    requires CredentialsKey in local && Restorable(local[CredentialsKey], now, CredentialLifetimeMs)
    requires local[CredentialsKey].value.username != []
    ensures var p := PageReady(initial, local, session, now);
      && p.form.username == local[CredentialsKey].value.username
      && p.form.userType == local[CredentialsKey].value.userType.userType
      && p.form.rememberMe
  {
  }

  /** Without a live stored credential (none at all, an unparsable one, or one 30 days
      old or older, which the load removes), a fresh draft fills an empty username
      field on page load, keeps `rememberMe` as it was and leaves the draft in place. */
  lemma DraftFillsEmptyForm(initial: Form, local: Storage, session: Storage, now: int)
    requires !(CredentialsKey in local && Live(local[CredentialsKey], now, CredentialLifetimeMs))
    requires initial.username == []
    requires DraftKey in session && Restorable(session[DraftKey], now, DraftLifetimeMs)
    ensures var p := PageReady(initial, local, session, now);
      && p.form.username == session[DraftKey].value.username
      && p.form.userType == session[DraftKey].value.userType.userType
      && p.form.rememberMe == initial.rememberMe
      && p.session == session
      && p.local - {CredentialsKey} == local - {CredentialsKey} && CredentialsKey !in p.local
  {
  }

  /** Removing the draft on submit is not final: a write scheduled before the submit
      still fires afterwards and stores the draft again. */
  lemma PendingDraftSurvivesSubmit(p: Page, now: int, t: int)
    requires p.draftDue.Some? && p.draftDue.value <= t
    ensures var q := FireDraftTimer(HandleSubmit(p, now), t);
      DraftKey in q.session && q.session[DraftKey].value.username == p.form.username
  {
  }

  /** Submitting `a@b.com` / `secret` with `rememberMe` checked stores the credential
      with the checked user type and the current time, and removes the draft. */
  lemma SubmitRemembersExample(p: Page, now: int)
    requires p.form.username == [0x61, 0x40, 0x62, 0x2E, 0x63, 0x6F, 0x6D]
    requires p.form.password == [0x73, 0x65, 0x63, 0x72, 0x65, 0x74]
    requires p.form.rememberMe
    ensures var q := HandleSubmit(p, now);
      && CredentialsKey in q.local
      && q.local[CredentialsKey] == Some(Record(p.form.username, Known(p.form.userType), now))
      && DraftKey !in q.session
      && q.form.usernameState == Success && q.form.passwordState == Success
  {
    TrimUnpadded(p.form.username);
    SampleAddressMatches();
    assert Acceptable(p.form);
  }

  /** Unchecking "remember me" forgets the user: the next page load restores nothing
      and leaves the form as it was. */
  lemma UncheckedCredentialNotRestored(p: Page, f: Form, now: int)
    requires p.form.rememberMe
    ensures var local := HandleRememberMeChange(p, false).local;
      LoadSavedCredentials(f, local, now) == Restored(f, local)
  {
  }

  /** Round trip through storage: after a valid submit with "remember me" checked, a page
      loaded less than 30 days later shows the trimmed username, the submitted user type
      and a checked "remember me", whatever draft the session holds. */
  lemma SubmitThenReload(p: Page, now: int, initial: Form, session: Storage, later: int)
    requires Acceptable(p.form) && p.form.rememberMe
    requires later - now < CredentialLifetimeMs
    ensures var q := PageReady(initial, HandleSubmit(p, now).local, session, later);
      && q.form.username == Trim(p.form.username)
      && q.form.userType == p.form.userType
      && q.form.rememberMe
  {
    var local := HandleSubmit(p, now).local;
    assert Trim(p.form.username) != [];
    assert Restorable(local[CredentialsKey], later, CredentialLifetimeMs);
    CredentialOutranksDraft(initial, local, session, later);
  }
}
