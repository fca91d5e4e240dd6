# Login form of the CAOA office-automation dashboard, in Dafny

This project models the client-side behaviour of the dashboard's login page
(`script.js`) with the DOM stripped away. The page has three parts, and each is
modelled as pure functions over immutable data:

- **Field validators.** The username is trimmed, then checked for emptiness,
  then matched against `/^[^\s@]+@[^\s@]+\.[^\s@]+$/`. The password is not
  trimmed: it is checked for emptiness, then for a minimum length of 6.
  `validateForm` runs both validators with no short-circuit.
- **Persistence records.** Two records share the shape
  `{username, userType, timestamp}`:
  - The remembered credential lives in persistent storage under
    `caoa_credentials`. It expires after 30 days, and loading an expired or
    unparsable one removes it.
  - The form draft lives in session storage under `caoa_form_draft`. It
    expires after one hour. Loading an expired or unparsable draft leaves it in
    place, and a draft is applied only while the username field is empty.
- **The event-driven page.** A `Page` holds the form, both storage scopes and
  the single pending slot of the debounced draft write. Each DOM event the
  script listens to is one `Step`, and the time of the event is a parameter.

Representation choices:

- Field values are JavaScript strings, so they are modelled as sequences of
  UTF-16 code units (`JsStrings.JsString`). `length` and a regular expression
  without the `u` flag count code units.
- `IsWhitespace` is the exact ECMAScript WhiteSpace + LineTerminator set.
  `String.prototype.trim` strips this set and `\s` matches it.
- A storage scope is a `map<string, Option<Record>>`. `None` stands for
  stored text that fails to parse.
- A stored `userType` that no radio button carries is `TypeTag.Unknown`. The
  script writes the username and then throws at `script.js:231`/`374`, and the
  handler catches the throw. The model reproduces both halves: the credential
  is then removed, while the draft stays.

The properties proved include:

- The regular expression is equivalent to a plain description: exactly one
  `@`, no whitespace, a non-empty local part, and a domain with an inner dot.
- Credential loading is idempotent.
- Save-then-load and submit-then-reload round trips.
- A restored credential outranks the draft.
- Exactly one tab label is active after any sequence of events.
- Debounced draft writes coalesce: the last value wins.

The model follows the code in three places where a natural reading of the page
differs:

- Expiry uses a strict `>`, so a credential exactly 30 days old is dropped.
- The draft is removed on every submit event, valid or not.
- The debounced write reads the form when the timer fires. Because submit does
  not cancel a pending write, a draft removed by submit can be written again a
  moment later (`LoginPage.PendingDraftSurvivesSubmit`).

## Model

| member | source | states |
|---|---|---|
| `JsStrings.TrimStart` | script.js:76 | removes exactly the maximal leading run of whitespace: the result is a suffix, everything dropped is whitespace, and the result does not start with whitespace |
| `JsStrings.TrimEnd` | script.js:76 | removes exactly the maximal trailing run of whitespace: the result is a prefix, everything dropped is whitespace, and the result does not end with whitespace |
| `JsStrings.Trim` | script.js:76 | `trim()` returns the infix left after both whitespace runs are removed; it neither starts nor ends with whitespace, and it is empty iff the input is all whitespace |
| `JsStrings.TrimUnpadded` | script.js:76 | a string that neither starts nor ends with whitespace is unchanged by trim |
| `JsStrings.TrimIdempotent` | script.js:76 | trimming twice equals trimming once |
| `Validation.EmailShapeMatchesPattern` | script.js:85-86 | the email regex accepts a string iff it has exactly one `@`, no whitespace, a non-empty part before the `@`, and a part after it with a `.` that is neither its first nor its last character |
| `Validation.SampleAddressMatches` | script.js:85 | `a@b.com` matches the email regex |
| `Validation.ValidateUsername` | script.js:75-93 | fails with "Please provide a valid username." iff the value is all whitespace; fails with "Please provide a valid email address." iff the value is not blank and its trimmed form does not match the regex; passes iff the trimmed value matches the regex |
| `Validation.ValidatePassword` | script.js:95-111 | the untrimmed password fails with "Please provide a valid password." iff it is empty and with the too-short message iff it has 1 to 5 code units; it passes iff it has at least 6 code units, whatever they are |
| `Validation.WhitespaceOnlyInputs` | script.js:75-110 | a whitespace-only value of 6 or more code units is an acceptable password but a missing username |
| `Validation.MissingAtOrDomainDotRejected` | script.js:84-89 | a non-blank username with no `@`, or with no inner dot after its first `@`, is rejected as a malformed email address |
| `LoginForm.Shown` | script.js:113-123 | a validator verdict always leaves the group non-neutral: `success` exactly on a pass, otherwise `error` with the verdict's message |
| `LoginForm.UpdateTabLabels` | script.js:192-200 | afterwards exactly one label is active, the checked type's; nothing else in the form changes |
| `LoginForm.BlurUsername` | script.js:75-93 | on blur the username group always leaves neutral: it shows success iff the trimmed value matches the email regex, the missing-username error iff the value is blank, and the email-format error iff it is not blank and the trimmed value does not match; nothing else changes |
| `LoginForm.BlurPassword` | script.js:95-111 | on blur the password group always leaves neutral: it shows success iff the password has at least 6 code units, the missing-password error iff it is empty, and the too-short error iff it has 1 to 5 code units; nothing else changes |
| `LoginForm.ValidateForm` | script.js:61-73 | the form is valid iff the trimmed username matches the regex and the password has at least 6 code units; both groups end non-neutral, because both validators always run; only the two group states change |
| `LoginForm.ValidateFormShowsErrors` | script.js:61-73 | after validation the username group shows the missing-username error iff the value is blank and the email-format error iff it is not blank and does not match; the password group shows the missing error iff it is empty and the too-short error iff it has 1 to 5 code units |
| `LoginForm.GetFormData` | script.js:131-138 | the submitted password, user type and `rememberMe` are the form's as they stand; the submitted username is the field with the maximal whitespace run removed at each end, so it neither starts nor ends with whitespace and is empty iff the field is blank |
| `LoginForm.SubmittedUsernameValidates` | script.js:131-138 | the username validator passes iff the submitted username matches the email regex, and trimming the submitted username again changes nothing |
| `LoginForm.ClearForm` | script.js:329-342 | leaves empty fields, `rememberMe` off, user type `employee`, the username group neutral and exactly one active label (employee); the password group is neutral, except that when the password field had the focus the final focus move validates the empty password and leaves the missing-password error |
| `LoginForm.ClearedFormFailsValidation` | script.js:329-342 | validating a cleared form, wherever the focus was, fails with the missing-username and missing-password messages |
| `Persistence.SaveCredentials` | script.js:209-217 | the credential key then holds `{username, known userType, now}`; every other key is unchanged |
| `Persistence.ClearSavedCredentials` | script.js:244-246 | the credential key is absent afterwards; every other key is unchanged |
| `Persistence.LoadSavedCredentials` | script.js:219-242 | with no stored record nothing changes; the record survives iff it parses, has a known type and is younger than 30 days, in which case the form gets its username and type, `rememberMe` is checked and the labels are updated; an unparsable or old record is removed and the form is untouched; a young record with an unknown type writes the username and is removed |
| `Persistence.LoadFormDraft` | script.js:362-381 | the form changes only if the username field is empty and a parsed draft is younger than one hour; it then gets the draft's username, and its type when known; `rememberMe` and the field states never change, the session storage is not touched, and label exclusivity is kept |
| `Persistence.CredentialKeptIffYoung` | script.js:226-236 | a parsed credential with a known type is kept iff `now - timestamp < 2592000000`, so a record exactly 30 days old is dropped; when kept the form is filled, otherwise the form is untouched |
| `Persistence.LoadCredentialsIdempotent` | script.js:219-246 | loading again with the same clock changes nothing: a removed record stays removed, and a restored one restores the same form |
| `Persistence.SaveThenLoadCredentials` | script.js:209-242 | a credential saved at t and loaded less than 30 days later restores the saved username and type with `rememberMe` checked and stays stored; loaded later than that, it is removed and the form is untouched |
| `Persistence.DraftThenLoad` | script.js:350-376 | a draft written at t and loaded into an empty username field less than an hour later restores the typed username and type; loaded later than that, it changes nothing |
| `LoginPage.PageReady` | script.js:10-14 | after page load exactly one label is active, no auto-save is pending, the session is untouched, and only the credential key of local storage may change; the credential is still stored afterwards iff it was restorable (an unparsable, expired or unknown-type one is removed); a restorable credential checks `rememberMe` and stays stored, and when it names a user its username and type are shown |
| `LoginPage.AutoSaveForm` | script.js:347-359 | any pending write is replaced by one due 1000 ms from now; nothing else changes |
| `LoginPage.FireDraftTimer` | script.js:350-358 | once the write is due, the draft key holds the form's current, untrimmed username, the checked type and the firing time; the slot empties and nothing else changes; before the due time, or with nothing pending, nothing happens |
| `LoginPage.HandleUsernameInput` | script.js:384 | typing sets the value, makes the group neutral and reschedules the draft write for 1000 ms later; storage is untouched |
| `LoginPage.HandlePasswordInput` | script.js:27 | typing a password sets the value and makes its group neutral; it schedules no draft and touches no storage |
| `LoginPage.HandleUserTypeChange` | script.js:180-190 | selecting a different type updates the labels to exactly that one and reschedules the draft write; re-selecting the checked type fires nothing; the field values, `rememberMe`, both group states and storage are untouched |
| `LoginPage.HandleRememberMeChange` | script.js:203-207 | setting the box to the value it already has fires no event and changes nothing; unchecking a checked box removes the stored credential at once; checking leaves storage unchanged; no other key, the session or the pending write changes |
| `LoginPage.SubmitLogin` | script.js:154-159 | after a completed login the credential is stored iff `rememberMe` was set, holding the submitted username and type and the current time; no other key changes |
| `LoginPage.CompleteLogin` | script.js:54-57 | an invalid form leaves storage untouched; a valid one stores the credential iff `rememberMe`, with the trimmed username |
| `LoginPage.HandleFormSubmit` | script.js:49-58 | each group shows its own validator's verdict (success, or the error with that validator's message) and the field values are kept; an unacceptable form leaves storage untouched; an acceptable one stores `{trimmed username, type, now}` iff `rememberMe`, and removes the credential otherwise |
| `LoginPage.HandleSubmit` | script.js:392-395 | every submit removes the draft, valid or not, without cancelling a pending write; each group shows its own validator's verdict; the field values, user type, `rememberMe` and labels are untouched; no local key other than the credential changes, the credential is untouched for a form that is not acceptable, and saved (trimmed username, checked type, current time) or removed according to `rememberMe` for an acceptable one |
| `LoginPage.HandleEscape` | script.js:322-342 | Escape empties both fields, unchecks `rememberMe` and selects `employee` with one active label; the username group is neutral and the password group is neutral, or shows the missing-password error when Escape was pressed in the password field (its blur listener runs on the focus move); no storage and no pending write changes, because setting the checkbox from script fires no change event |
| `LoginPage.Step` | script.js:16-46 | every event keeps exactly one label active; only submit and a firing timer touch the session; only submit and the checkbox touch local storage; every submit removes the draft |
| `LoginPage.RunKeepsTabsExclusive` | script.js:192-200 | exactly one label stays active after any sequence of events |
| `LoginPage.TypingCoalesces` | script.js:347-359 | after any run of username inputs exactly one write is pending, due 1000 ms after the last keystroke, and no draft has been written |
| `LoginPage.DebounceLastWriteWins` | script.js:347-359 | a run of username inputs followed by the timer performs one write, holding the last typed value and the firing time |
| `LoginPage.CredentialOutranksDraft` | script.js:372-390 | when a restorable credential names a user, the page shows that user and type with `rememberMe` checked, whatever draft the session holds, because credential load runs first and the draft needs an empty field |
| `LoginPage.DraftFillsEmptyForm` | script.js:362-376 | with no live credential (none, unparsable, or 30 days old or older, which the load removes) and an empty field, a fresh draft fills the username and type, leaves `rememberMe` as it was and stays in the session; afterwards no credential is stored and no other local key changed |
| `LoginPage.PendingDraftSurvivesSubmit` | script.js:392-395 | a write scheduled before a submit still fires afterwards and stores the draft again |
| `LoginPage.SubmitRemembersExample` | script.js:131-159 | submitting `a@b.com` / `secret` with `rememberMe` stores the credential with the checked type and the current time, removes the draft and shows both fields as valid |
| `LoginPage.UncheckedCredentialNotRestored` | script.js:203-207 | after a checked `rememberMe` is unchecked, a later load restores nothing |
| `LoginPage.SubmitThenReload` | script.js:209-233 | after an acceptable submit with `rememberMe`, a page loaded less than 30 days later shows the trimmed username, the submitted type and a checked `rememberMe` |

## Left out

- DOM access, CSS class and text details, focus tracking (only the focus move at the end of `clearForm` is modelled, through the `passwordFocused` flag of `EscapePressed`), placeholder text (`script.js:183-189`) and accessibility attributes (`script.js:398-413`). A field group's presentation is only `Neutral | Error(message) | Success`, and only the username and password groups are modelled.
- `alert` and `prompt` dialogs: `showLoginSuccess`, the social-login stubs, the live-support handler, the forgot-password prompt and `togglePassword` (`script.js:167-173`, `248-307`). They hold no logic beyond the email regex, which `Validation.MatchesEmailPattern` already models.
- Keyboard wiring (`script.js:310-326`): Enter moving focus or dispatching submit is not modelled. Escape is the `EscapePressed` event.
- Performance logging (`script.js:415-430`), because it only writes to the console.
- The 2-second simulated network delay and the loading state of the button (`script.js:141-165`). `HandleSubmit` applies the persistence branch at the `now` it is given. So neither a `rememberMe` change made during the delay nor overlapping submits are modelled.
- Real timers: `setTimeout` and `clearTimeout` become the `draftDue` slot and an explicit `DraftTimerFired` event. `Date.now()` becomes a parameter, and the page-load listeners share a single `now`. A trace's times are not required to increase, and a due write fires only where the trace has a `DraftTimerFired` event, so `Run` also admits traces no browser produces (keystrokes seconds apart with no write in between); `LoginPage.TypingCoalesces` is stated over all such traces.
- JSON parsing and storage errors. A stored value either parses into a well-typed record or is `None`. Values that parse to something else are not modelled separately: JSON `null`, a missing or non-numeric timestamp, or a non-string username. The script treats the first as a parse failure and the second as expired. A stored empty string is skipped by the `if (saved)` test without being removed, and the model has no such entry. Quota and disabled-storage exceptions are left out.
- Listeners registered before `DOMContentLoaded` fires: the model starts from `PageReady`.
