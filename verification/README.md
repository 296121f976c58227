# Login form state machine

A Dafny model of the login screen in `App.js`: a form with a username field,
a password field, one shared error message and a logged-in flag. Editing a
field reruns that field's validation rule and overwrites the error message
with the result. The login button compares the two fields with one
hard-coded account. On a match it logs the user in and clears the message.
Otherwise it shows "Invalid credentials, please try again.".

Three modules:

- `Messages` (messages.dfy) names the messages the error slot can hold.
  - The slot is a string in the form. The model keeps it as a `Message`
    value, and `Text` gives each message's exact wording. `TextInjective`
    proves that no two messages share a wording, so nothing the form can
    show is lost.
  - `NoMessage` stands for the empty string, which the form does not display.
- `Validators` (validators.dfy) holds the two pure field rules.
  - The username rule: a non-empty username shorter than 6 or longer than 20
    characters gets a message.
  - The password rule: a non-empty password must contain a special character
    from a fixed set of twenty, an ASCII digit, an ASCII upper-case letter
    and an ASCII lower-case letter.
  - Each regular-expression `test` is modelled by `Test`, a scan for a
    character of one class. `TestMeaning` proves it equal to the reference
    predicate `HasCharIn` ("some character of `s` is in the class").
- `Session` (session.dfy) holds the form.
  - `State`, `Event` and `Step` describe one event on the form as a value.
    `Run` delivers a sequence of events in order.
  - `Step` takes the account to check submits against as a parameter. The
    form passes `Account`, the pair "testuser" / "Testpass1!". The lemmas
    about `Step` and `Run` hold for every account, so for this one too.
  - The trace lemmas state what holds over any sequence of events: the
    logged-in flag only moves one way, and only a submit of the account's
    credentials sets it; each field holds its last edit; the message showing
    is always true of the fields showing.
  - The class `LoginSession` has the four state slots as fields. Its
    handlers `SetUsername`, `SetPassword` and `Login` update them in place.
    Each handler's postcondition gives its new fields directly and also as
    `Step` of the old snapshot, so the lemmas about `Step` apply to the class.

React runs the two validation effects after a render, not inside the setter.
The model runs each validator synchronously inside the handler that changes
the field. Both effects also run once on mount with empty fields. Both rules
give no message for an empty field, so the initial state (`Initial`) already
matches the result of those runs. A validation effect depends on its field
alone (App.js:34, 55), and React skips an effect whose dependency keeps its
value. So an edit that reports the value the field already holds changes
nothing in the model: the error slot keeps whatever it held, even a message
about the other field.

A failed login leaves the logged-in flag as it was (App.js:61-63); in
particular it does not reset it to false. The handlers have no precondition on the
flag. The view hides the form once the user is logged in (App.js:79), but
the handlers themselves accept the call, and a repeated login is modelled and
proved idempotent.

## Model

| member | source | states |
|---|---|---|
| Messages.TextInjective | App.js:28-63 | different messages have different wordings, and the wording is the empty string, which the form does not display (App.js:86), exactly for the no-message value |
| Validators.InClass | App.js:37-40 | a character belongs to one of the four pattern classes: the twenty listed special characters, '0'-'9', 'A'-'Z' or 'a'-'z' (no ensures of its own; used by TestMeaning and PasswordErrorMeaning) |
| Validators.SpecialChars | App.js:37 | the special class is the set of the characters listed in the bracket expression (a constant; its size is stated by SpecialCharCount) |
| Validators.Test | App.js:44-47 | `pattern.test(password)` for one class pattern, as a left-to-right scan (no ensures of its own; its meaning is stated by TestMeaning) |
| Validators.TestMeaning | App.js:37-47 | a pattern test on a one-class character pattern is true exactly when some character of the password belongs to that class |
| Validators.UsernameError | App.js:26-34 | the username message is none exactly for an empty username or a length in [6, 20]; "at least 6" exactly for lengths 1 to 5; "must not exceed 20" exactly for lengths above 20 |
| Validators.PasswordError | App.js:42-54 | the password rule produces either no message or the composition message, never another one |
| Validators.PasswordErrorMeaning | App.js:36-55 | the password message is none exactly when the password is empty or has a special character, a digit, an upper-case and a lower-case letter; it is the composition message exactly otherwise |
| Validators.SpecialCharCount | App.js:37 | the special-character class has exactly twenty distinct members |
| Validators.MissingClassRejected | App.js:42-51 | a non-empty password with no character of some one class gets the composition message |
| Validators.ExamplePasswordAccepted | App.js:36-55 | "Abcdef1!" passes the composition rule |
| Validators.ExamplePasswordRejected | App.js:42-51 | "abc" fails the composition rule |
| Session.Account | App.js:58 | the one accepted account is "testuser" with "Testpass1!" (a constant) |
| Session.HoldsAccount | App.js:58 | submit accepts the fields exactly when both equal the account's, compared case-sensitively with no trimming (no ensures of its own; used by Step and LoginOutcome) |
| Session.Step | App.js:26-64 | one event never clears the logged-in flag; only a submit of the account's credentials sets it; a submit and a password edit leave the username alone; a submit and a username edit leave the password alone |
| Session.Run | App.js:14-64 | the form's state after its events are delivered one at a time in order (no ensures of its own; its properties are stated by LoggedInStays, LoggedInOnlyByAccount, FieldIsLastEdit and MessageAlwaysFits) |
| Session.EditOverwritesError | App.js:26-55 | after an edit that changes a field the error is that field's rule verdict, and the result does not depend on what the error slot held before; an edit that keeps the field's value leaves the whole state unchanged |
| Session.LoginOutcome | App.js:57-64 | a submit ends logged in exactly when the user was logged in or the fields equal the account's; on a match only the flag and the error change, to true and no message; otherwise only the error changes, to the invalid-credentials message |
| Session.LoginIdempotent | App.js:57-64 | two submits in a row give the same state as one; a repeated successful login leaves the state unchanged |
| Session.LoggedInStays | App.js:17 | once logged in, every sequence of events leaves the user logged in |
| Session.SubmitsAccountAtPrefix | App.js:57-58 | proof step for LoggedInOnlyByAccount about the trace predicate: whether an earlier submit saw the account's credentials does not depend on events after it |
| Session.SubmittedAccountGrow | App.js:57-60 | proof step for LoggedInOnlyByAccount about the trace predicate: a successful submit among all but the last event, or as the last event, is a successful submit in the whole sequence |
| Session.SubmittedAccountShrink | App.js:57-60 | proof step for LoggedInOnlyByAccount about the trace predicate: a successful submit in a sequence is among all but the last event, or is the last event |
| Session.LoggedInOnlyByAccount | App.js:57-60 | starting logged out, a sequence of events ends logged in exactly when some submit in it saw the account's credentials in the fields |
| Session.FieldIsLastEdit | App.js:14-15 | after any sequence of events each field holds the value of its last edit, or its starting value if it was never edited |
| Session.EventKeepsMessageFit | App.js:26-64 | every event keeps the shown message true of the fields: a username message is the username rule's verdict on the current username, the composition message the password rule's verdict on the current password, and the invalid-credentials message never stands next to the account's credentials |
| Session.MessageAlwaysFits | App.js:14-64 | from the initial form, after any sequence of events the shown message is true of the fields in that sense |
| Session.UsernameEditClobbersPasswordError | App.js:26-55 | with a password message showing, any edit that changes the username to a valid one clears that message; an edit that keeps the username leaves it showing |
| Session.AccountPassesValidators | App.js:27-30 | "testuser" passes the username rule and "Testpass1!" passes the password rule |
| Session.AccountLogsIn | App.js:14-64 | typing the account into a fresh form and submitting ends logged in with no message |
| Session.LoginSession.constructor | App.js:14-17 | a new form has empty fields, no message and is logged out |
| Session.LoginSession.SetUsername | App.js:26-34 | stores the username and, when it changed, sets the error to the username rule's verdict, otherwise keeps the error; the password and the flag are unchanged |
| Session.LoginSession.SetPassword | App.js:36-55 | stores the password and, when it changed, sets the error to the password rule's verdict, otherwise keeps the error; the username and the flag are unchanged |
| Session.LoginSession.Login | App.js:57-64 | with exactly "testuser" and "Testpass1!" sets the flag and clears the error; otherwise sets the invalid-credentials message and leaves the flag alone; the fields never change |
| Session.TypicalSession | App.js:14-64 | a password message is cleared by a valid username edit, a wrong submit leaves the user logged out, and the right credentials log in, also when submitted twice |

## Left out

- Rendering, styles and the dark-mode toggle (App.js:66-264). They are presentation only and never touch the form's state.
- The effect that logs a message when the user logs in (App.js:20-24). It is console output with no effect on state.
- React scheduling: effects run after a render, setter calls are batched, and both validation effects run once on mount. Each handler runs its validator synchronously instead, so a field changed and changed back between two renders, which React would treat as unchanged, is modelled as two edits.
- Hiding the form once the user is logged in (App.js:79). This is part of the view. The handlers are modelled without a precondition on the flag.
- String length: JavaScript's `.length` counts UTF-16 code units, while the model counts Dafny characters (Unicode scalar values). The two differ only for characters outside the Basic Multilingual Plane, which count 2 in the source and 1 here.
- Regular expressions: only the four single-class patterns are modelled, as explicit ASCII ranges plus the literal special set. General regular-expression semantics are not modelled.
