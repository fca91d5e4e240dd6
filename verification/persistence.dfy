/**
 The two stored records of the login script. The remembered credential lives in
 persistent storage under "caoa_credentials" for 30 days; the form draft lives in
 session storage under "caoa_form_draft" for one hour. A storage scope is a map
 from key to the parsed value; `None` stands for stored text that fails to parse.
 The clock is the `now` parameter, in milliseconds.
 */
module Persistence {
  import opened Options
  import opened JsStrings
  import opened LoginForm

  /** A stored `userType`: one of the radio values, or a value no radio carries. */
  datatype TypeTag = Known(userType: UserType) | Unknown

  /** The JSON object `{username, userType, timestamp}` both records share. */
  datatype Record = Record(username: JsString, userType: TypeTag, timestamp: int)

  type Storage = map<string, Option<Record>>

  const CredentialsKey: string := "caoa_credentials"
  const DraftKey: string := "caoa_form_draft"

  const CredentialLifetimeMs: int := 30 * 24 * 60 * 60 * 1000
  const DraftLifetimeMs: int := 60 * 60 * 1000

  /** A stored entry that parses and is strictly younger than `lifetime` at time `now`. */
  predicate Live(e: Option<Record>, now: int, lifetime: int) {
    e.Some? && now - e.value.timestamp < lifetime
  }

  /** A stored entry the page can restore completely: live, with a recognised user type. */
  predicate Restorable(e: Option<Record>, now: int, lifetime: int) {
    Live(e, now, lifetime) && e.value.userType.Known?
  }

  /** The form after a stored record was applied to it (without touching `rememberMe`). */
  function Filled(f: Form, rec: Record): (r: Form)
    requires rec.userType.Known?
    ensures TabsExclusive(r)
    ensures r.username == rec.username && r.userType == rec.userType.userType
    ensures r.password == f.password && r.rememberMe == f.rememberMe
    ensures r.usernameState == f.usernameState && r.passwordState == f.passwordState
  {
    UpdateTabLabels(f.(username := rec.username, userType := rec.userType.userType))
  }

  /** `saveCredentials`: the credential record is written with the current time;
      every other key keeps its value. */
  function SaveCredentials(local: Storage, data: FormData, now: int): (r: Storage)
    ensures CredentialsKey in r
    ensures r[CredentialsKey] == Some(Record(data.username, Known(data.userType), now))
    ensures r - {CredentialsKey} == local - {CredentialsKey}
  {
    local[CredentialsKey := Some(Record(data.username, Known(data.userType), now))]
  }

  /** `clearSavedCredentials`: the credential record is removed; every other key keeps
      its value. */
  function ClearSavedCredentials(local: Storage): (r: Storage)
    ensures CredentialsKey !in r
    ensures r - {CredentialsKey} == local - {CredentialsKey}
  {
    local - {CredentialsKey}
  }

  datatype Restored = Restored(form: Form, storage: Storage)

  /** `loadSavedCredentials`. A record younger than 30 days fills the username and user
      type, checks `rememberMe` and updates the labels. A record that fails to parse
      or is 30 days old or older is removed. A young record with an unrecognised user
      type throws after the username was written; the handler then removes it. */
  function LoadSavedCredentials(f: Form, local: Storage, now: int): (r: Restored)
    ensures CredentialsKey !in local ==> r == Restored(f, local)
    ensures CredentialsKey in r.storage <==>
              CredentialsKey in local && Restorable(local[CredentialsKey], now, CredentialLifetimeMs)
    ensures CredentialsKey in r.storage ==> r.storage == local
    ensures r.storage - {CredentialsKey} == local - {CredentialsKey}
    ensures CredentialsKey in local && Restorable(local[CredentialsKey], now, CredentialLifetimeMs) ==>
              r.form == Filled(f, local[CredentialsKey].value).(rememberMe := true)
    ensures CredentialsKey in local && Live(local[CredentialsKey], now, CredentialLifetimeMs)
            && local[CredentialsKey].value.userType.Unknown? ==>
              r.form == f.(username := local[CredentialsKey].value.username)
    ensures CredentialsKey in local && !Live(local[CredentialsKey], now, CredentialLifetimeMs) ==>
              r.form == f
  {
    if CredentialsKey !in local then Restored(f, local)
    else match local[CredentialsKey]
      case None => Restored(f, ClearSavedCredentials(local))
      case Some(rec) =>
        if rec.timestamp > now - CredentialLifetimeMs then
          match rec.userType
          case Known(t) => Restored(Filled(f, rec).(rememberMe := true), local)
          case Unknown => Restored(f.(username := rec.username), ClearSavedCredentials(local))
        else Restored(f, ClearSavedCredentials(local))
  }

  /** `loadFormDraft`. A draft younger than one hour fills the username (and the user
      type, when recognised) but only while the username field is empty. Nothing is
      ever removed: the result is a form, the session storage is not touched, and
      `rememberMe` and the field states never change. */
  function LoadFormDraft(f: Form, session: Storage, now: int): (r: Form)
    ensures r.password == f.password && r.rememberMe == f.rememberMe
    ensures r.usernameState == f.usernameState && r.passwordState == f.passwordState
    ensures r != f ==> f.username == [] && DraftKey in session && Live(session[DraftKey], now, DraftLifetimeMs)
    ensures f.username == [] && DraftKey in session && Restorable(session[DraftKey], now, DraftLifetimeMs) ==>
              r == Filled(f, session[DraftKey].value)
    ensures f.username == [] && DraftKey in session && Live(session[DraftKey], now, DraftLifetimeMs)
            && session[DraftKey].value.userType.Unknown? ==>
              r == f.(username := session[DraftKey].value.username)
    ensures TabsExclusive(f) ==> TabsExclusive(r)
  {
    if DraftKey !in session then f
    else match session[DraftKey]
      case None => f
      case Some(rec) =>
        if rec.timestamp > now - DraftLifetimeMs && f.username == [] then
          match rec.userType
          case Known(t) => Filled(f, rec)
          case Unknown => f.(username := rec.username)
        else f
  }

  /** The draft record the debounced auto-save writes: the username exactly as typed
      (untrimmed), the checked user type and the time the timer fired. */
  function DraftOf(f: Form, now: int): (rec: Record)
    ensures rec.userType.Known? && rec.timestamp == now
  {
    Record(f.username, Known(f.userType), now)
  }

  /** A credential is kept by a load iff it parses, has a recognised user type and its
      age is under 30 days; a record exactly 30 days old is already dropped. */
  lemma CredentialKeptIffYoung(f: Form, local: Storage, now: int)
    requires CredentialsKey in local && local[CredentialsKey].Some?
    requires local[CredentialsKey].value.userType.Known?
    ensures var r := LoadSavedCredentials(f, local, now);
      (CredentialsKey in r.storage <==> now - local[CredentialsKey].value.timestamp < CredentialLifetimeMs)
      && (CredentialsKey in r.storage ==> r.form == Filled(f, local[CredentialsKey].value).(rememberMe := true))
      && (CredentialsKey !in r.storage ==> r.form == f)
  {
  }

  /** Loading twice with the same clock is loading once: whatever the first load
      removed stays removed, and a restored record restores the same form again. */
  lemma LoadCredentialsIdempotent(f: Form, local: Storage, now: int)
    ensures var r := LoadSavedCredentials(f, local, now);
      LoadSavedCredentials(r.form, r.storage, now) == r
  {
  }

  /** A credential saved at time `t` and loaded at a `now` less than 30 days later
      restores the saved username and user type with `rememberMe` checked, and stays
      stored; loaded 30 days or more later it is removed and the form is untouched. */
  lemma SaveThenLoadCredentials(f: Form, local: Storage, data: FormData, t: int, now: int)
    ensures var r := LoadSavedCredentials(f, SaveCredentials(local, data, t), now);
      if now - t < CredentialLifetimeMs then
        && r.form.username == data.username && r.form.userType == data.userType
        && r.form.rememberMe && TabsExclusive(r.form)
        && r.storage == SaveCredentials(local, data, t)
      else
        r.form == f && r.storage == ClearSavedCredentials(local)
  {
  }

  /** A draft written at time `t` and loaded into an empty username field less than an
      hour later restores the typed username and user type; an hour or more later
      the form is untouched. */
  lemma DraftThenLoad(f: Form, session: Storage, g: Form, t: int, now: int)
    requires f.username == []
    ensures var r := LoadFormDraft(f, session[DraftKey := Some(DraftOf(g, t))], now);
      if now - t < DraftLifetimeMs then
        r.username == g.username && r.userType == g.userType && TabsExclusive(r)
      else
        r == f
  {
  }
}
