/** The login form's state machine: four state slots (username, password, a
    single error message, the logged-in flag), three events that act on them,
    and the one hard-coded account that submit accepts. */
module Session {
  import opened Messages
  import opened Validators

  /** A username and password pair. */
  datatype Credentials = Credentials(username: string, password: string)

  /** The one account the form accepts. */
  const Account: Credentials := Credentials("testuser", "Testpass1!")

  /** The form's state as a value. */
  datatype State = State(username: string, password: string, error: Message, loggedIn: bool)

  /** The events the form delivers, one at a time. */
  datatype Event = UsernameChanged(value: string) | PasswordChanged(value: string) | LoginPressed

  /** Every slot starts empty and the user starts logged out. The effects'
      runs on mount leave no message for empty fields. */
  const Initial: State := State("", "", NoMessage, false)

  /** Submit accepts the fields when they are exactly the account's, compared
      case-sensitively with no trimming. */
  predicate HoldsAccount(account: Credentials, st: State) {
    st.username == account.username && st.password == account.password
  }

  /** One event: a field edit stores the value and reruns that field's rule
      into the shared error slot; submit either logs in and clears the error,
      or stores the invalid-credentials message. An edit to the value the
      field already holds changes nothing: the setter keeps the old value and
      the rule, which runs only when its field changes, does not run. The
      form checks submits against `Account`; the state machine and its
      lemmas hold for any `account`. */
  function Step(account: Credentials, st: State, ev: Event): (r: State)
    ensures st.loggedIn ==> r.loggedIn
    ensures r.loggedIn != st.loggedIn ==> ev == LoginPressed && HoldsAccount(account, st)
    ensures !ev.UsernameChanged? ==> r.username == st.username
    ensures !ev.PasswordChanged? ==> r.password == st.password
  {
    match ev
    case UsernameChanged(v) =>
      if v == st.username then st else st.(username := v, error := UsernameError(v))
    case PasswordChanged(v) =>
      if v == st.password then st else st.(password := v, error := PasswordError(v))
    case LoginPressed =>
      if HoldsAccount(account, st) then st.(loggedIn := true, error := NoMessage)
      else st.(error := InvalidCredentials)
  }

  /** The state after delivering `evs` in order, the last event last. */
  function Run(account: Credentials, st: State, evs: seq<Event>): State
    decreases |evs|
  {
    if evs == [] then st else Step(account, Run(account, st, evs[..|evs| - 1]), evs[|evs| - 1])
  }

  /** An edit that changes a field sets the error from that field's rule
      alone: whatever the slot held before, including a message about the
      other field, is lost. An edit that keeps the field's value leaves the
      whole state, the error included, as it was. */
  lemma EditOverwritesError(account: Credentials, st: State, v: string, old_error: Message)
    ensures v != st.username ==> Step(account, st.(error := old_error), UsernameChanged(v)).error == UsernameError(v)
    ensures v != st.password ==> Step(account, st.(error := old_error), PasswordChanged(v)).error == PasswordError(v)
    ensures v != st.username ==>
      Step(account, st.(error := old_error), UsernameChanged(v)) == Step(account, st, UsernameChanged(v))
    ensures v != st.password ==>
      Step(account, st.(error := old_error), PasswordChanged(v)) == Step(account, st, PasswordChanged(v))
    ensures v == st.username ==> Step(account, st, UsernameChanged(v)) == st
    ensures v == st.password ==> Step(account, st, PasswordChanged(v)) == st
  {
  }

  /** Submit succeeds exactly for the account's credentials; a failed submit
      changes nothing but the error. */
  lemma LoginOutcome(account: Credentials, st: State)
    ensures Step(account, st, LoginPressed).loggedIn <==> st.loggedIn || HoldsAccount(account, st)
    ensures HoldsAccount(account, st) ==> Step(account, st, LoginPressed) == st.(loggedIn := true, error := NoMessage)
    ensures !HoldsAccount(account, st) ==> Step(account, st, LoginPressed) == st.(error := InvalidCredentials)
  {
  }

  /** Submitting twice in a row is the same as submitting once; in
      particular a repeated successful login leaves the state unchanged. */
  lemma LoginIdempotent(account: Credentials, st: State)
    ensures Step(account, Step(account, st, LoginPressed), LoginPressed) == Step(account, st, LoginPressed)
    ensures st.loggedIn && HoldsAccount(account, st) && st.error == NoMessage ==> Step(account, st, LoginPressed) == st
  {
  }

  /** Once logged in, no sequence of events logs the user out. */
  lemma {:induction false} LoggedInStays(account: Credentials, st: State, evs: seq<Event>)
    ensures st.loggedIn ==> Run(account, st, evs).loggedIn
  {
    if evs != [] {
      LoggedInStays(account, st, evs[..|evs| - 1]);
    }
  }

  /** Event `i` of `evs` is a submit that found the account's credentials
      in the fields. */
  ghost predicate SubmitsAccountAt(account: Credentials, st: State, evs: seq<Event>, i: nat)
    requires i < |evs|
  {
    evs[i] == LoginPressed && HoldsAccount(account, Run(account, st, evs[..i]))
  }

  /** Some submit in `evs` found the account's credentials in the fields. */
  ghost predicate SubmittedAccount(account: Credentials, st: State, evs: seq<Event>) {
    exists i: nat :: i < |evs| && SubmitsAccountAt(account, st, evs, i)
  }

  /** Dropping the last event does not change what the earlier ones saw. */
  lemma SubmitsAccountAtPrefix(account: Credentials, st: State, evs: seq<Event>, i: nat)
    requires i < |evs| - 1
    ensures SubmitsAccountAt(account, st, evs[..|evs| - 1], i) <==> SubmitsAccountAt(account, st, evs, i)
  {
    assert evs[..|evs| - 1][..i] == evs[..i];
  }

  /** A successful submit among all but the last event, or as the last
      event, is one in the whole sequence. */
  lemma SubmittedAccountGrow(account: Credentials, st: State, evs: seq<Event>)
    requires evs != []
    requires SubmittedAccount(account, st, evs[..|evs| - 1]) || SubmitsAccountAt(account, st, evs, |evs| - 1)
    ensures SubmittedAccount(account, st, evs)
  {
    var n := |evs| - 1;
    if SubmitsAccountAt(account, st, evs, n) {
      assert n < |evs|;
    } else {
      var i: nat :| i < n && SubmitsAccountAt(account, st, evs[..n], i);
      SubmitsAccountAtPrefix(account, st, evs, i);
    }
  }

  /** A successful submit in a sequence is among all but the last event, or
      is the last. */
  lemma SubmittedAccountShrink(account: Credentials, st: State, evs: seq<Event>)
    requires SubmittedAccount(account, st, evs)
    ensures SubmittedAccount(account, st, evs[..|evs| - 1]) || SubmitsAccountAt(account, st, evs, |evs| - 1)
  {
    var n := |evs| - 1;
    var i: nat :| i < |evs| && SubmitsAccountAt(account, st, evs, i);
    if i < n {
      SubmitsAccountAtPrefix(account, st, evs, i);
      assert i < |evs[..n]| && SubmitsAccountAt(account, st, evs[..n], i);
    } else {
      assert i == n;
    }
  }

  /** Starting logged out, a sequence of events ends logged in exactly when
      some submit in it found the account's credentials in the fields. */
  lemma {:induction false} LoggedInOnlyByAccount(account: Credentials, st: State, evs: seq<Event>)
    requires !st.loggedIn
    ensures Run(account, st, evs).loggedIn <==> SubmittedAccount(account, st, evs)
  {
    if evs != [] {
      var n := |evs| - 1;
      LoggedInOnlyByAccount(account, st, evs[..n]);
      LoginOutcome(account, Run(account, st, evs[..n]));
      if SubmittedAccount(account, st, evs) {
        SubmittedAccountShrink(account, st, evs);
      }
      if SubmittedAccount(account, st, evs[..n]) || SubmitsAccountAt(account, st, evs, n) {
        SubmittedAccountGrow(account, st, evs);
      }
    }
  }

  /** Which field an edit event writes. */
  datatype Field = UsernameField | PasswordField

  predicate Edits(ev: Event, f: Field) {
    match f
    case UsernameField => ev.UsernameChanged?
    case PasswordField => ev.PasswordChanged?
  }

  function FieldValue(st: State, f: Field): string {
    match f
    case UsernameField => st.username
    case PasswordField => st.password
  }

  /** A field holds the value of its last edit: an event sequence with no
      edit of `f` leaves `f` as it was, and otherwise `f` is the value of the
      last edit of `f`, whatever came after it. */
  lemma {:induction false} FieldIsLastEdit(account: Credentials, st: State, evs: seq<Event>, f: Field, i: int)
    requires -1 <= i < |evs|
    requires 0 <= i ==> Edits(evs[i], f)
    requires forall j :: i < j < |evs| ==> !Edits(evs[j], f)
    ensures FieldValue(Run(account, st, evs), f) == if i < 0 then FieldValue(st, f) else evs[i].value
    decreases |evs|
  {
    if evs != [] {
      var n := |evs| - 1;
      if i == n {
        match f
        case UsernameField => assert Run(account, st, evs).username == evs[n].value;
        case PasswordField => assert Run(account, st, evs).password == evs[n].value;
      } else {
        FieldIsLastEdit(account, st, evs[..n], f, i);
        assert !Edits(evs[n], f);
        assert FieldValue(Run(account, st, evs), f) == FieldValue(Run(account, st, evs[..n]), f);
      }
    }
  }

  /** The message in the error slot is true of the current fields: a
      username message is the username rule's verdict on the current
      username, the composition message the password rule's verdict on the
      current password, and the invalid-credentials message never stands next
      to the account's credentials. */
  predicate MessageFitsFields(account: Credentials, st: State) {
    (st.error == UsernameTooShort || st.error == UsernameTooLong ==> st.error == UsernameError(st.username)) &&
    (st.error == PasswordComposition ==> st.error == PasswordError(st.password)) &&
    (st.error == InvalidCredentials ==> !HoldsAccount(account, st))
  }

  /** Every event keeps the message true of the fields: an event that
      writes the slot writes the verdict on fields it left in place, and an
      edit that keeps its field's value writes nothing. */
  lemma EventKeepsMessageFit(account: Credentials, st: State, ev: Event)
    requires MessageFitsFields(account, st)
    ensures MessageFitsFields(account, Step(account, st, ev))
  {
  }

  /** Whatever the user has typed and pressed since the form appeared, the
      message showing is true of the fields showing. */
  lemma {:induction false} MessageAlwaysFits(account: Credentials, evs: seq<Event>)
    ensures MessageFitsFields(account, Run(account, Initial, evs))
  {
    if evs != [] {
      var n := |evs| - 1;
      MessageAlwaysFits(account, evs[..n]);
      EventKeepsMessageFit(account, Run(account, Initial, evs[..n]), evs[n]);
    }
  }

  /** A password message showing is replaced by the username rule's verdict
      as soon as the username changes, here to a valid one; an edit that
      keeps the username leaves the password message up. */
  lemma UsernameEditClobbersPasswordError(account: Credentials, st: State, v: string)
    requires st.error == PasswordComposition
    requires UsernameLengthOk(v)
    ensures Step(account, st, UsernameChanged(v)).error == if v == st.username then PasswordComposition else NoMessage
  {
  }

  /** The hard-coded account satisfies both field rules, so typing it in
      leaves no message showing. */
  lemma AccountPassesValidators()
    ensures UsernameError(Account.username) == NoMessage
    ensures PasswordError(Account.password) == NoMessage
  {
    var p := Account.password;
    PasswordErrorMeaning(p);
    assert HasCharIn(p, Special) && HasCharIn(p, Digit) by {
      assert InClass(p[9], Special) && InClass(p[8], Digit);
    }
    assert HasCharIn(p, Upper) && HasCharIn(p, Lower) by {
      assert InClass(p[0], Upper) && InClass(p[1], Lower);
    }
  }

  /** Typing the account into a fresh form and submitting logs in with no
      message showing. */
  lemma AccountLogsIn()
    ensures
      var typed := Step(Account, Step(Account, Initial, UsernameChanged("testuser")), PasswordChanged("Testpass1!"));
      Step(Account, typed, LoginPressed) == State("testuser", "Testpass1!", NoMessage, true)
  {
    AccountPassesValidators();
  }

  /** The form itself: the state slots, updated in place by the handlers. */
  class LoginSession {
    var username: string
    var password: string
    var error: Message
    var loggedIn: bool

    /** The current slots as a value. */
    function Snapshot(): State
      reads this
    {
      State(username, password, error, loggedIn)
    }

    constructor ()
      ensures Snapshot() == Initial
    {
      username, password, error, loggedIn := "", "", NoMessage, false;
    }

    /** The username field reports `value`: store it and, when it differs
        from the stored one, rerun the length rule. */
    method SetUsername(value: string)
      modifies this
      ensures username == value
      ensures error == if value == old(username) then old(error) else UsernameError(value)
      ensures password == old(password) && loggedIn == old(loggedIn)
      ensures Snapshot() == Step(Account, old(Snapshot()), UsernameChanged(value))
    {
      if value != username {
        username := value;
        error := UsernameError(username);
      }
    }

    /** The password field reports `value`: store it and, when it differs
        from the stored one, rerun the composition rule. */
    method SetPassword(value: string)
      modifies this
      ensures password == value
      ensures error == if value == old(password) then old(error) else PasswordError(value)
      ensures username == old(username) && loggedIn == old(loggedIn)
      ensures Snapshot() == Step(Account, old(Snapshot()), PasswordChanged(value))
    {
      if value != password {
        password := value;
        error := PasswordError(password);
      }
    }

    /** The login button: accept exactly "testuser" with "Testpass1!". */
    method Login()
      modifies this
      ensures username == old(username) && password == old(password)
      ensures old(username == "testuser" && password == "Testpass1!") ==> loggedIn && error == NoMessage
      ensures !old(username == "testuser" && password == "Testpass1!") ==>
        loggedIn == old(loggedIn) && error == InvalidCredentials
      ensures Snapshot() == Step(Account, old(Snapshot()), LoginPressed)
    {
      if username == "testuser" && password == "Testpass1!" {
        loggedIn := true;
        error := NoMessage;
      } else {
        error := InvalidCredentials;
      }
    }
  }

  /** A client of the form: a stray edit that clears a message, a wrong
      submit, then the happy path and a repeated submit, all from the
      methods' contracts. */
  method TypicalSession() returns (s: LoginSession)
    ensures fresh(s)
    ensures s.Snapshot() == State("testuser", "Testpass1!", NoMessage, true)
  {
    AccountPassesValidators();
    s := new LoginSession();
    s.SetPassword("short");
    assert s.error == PasswordComposition by {
      PasswordErrorMeaning("short");
      assert !InClass("short"[0], Digit) && !InClass("short"[1], Digit) && !InClass("short"[2], Digit);
      assert !InClass("short"[3], Digit) && !InClass("short"[4], Digit);
    }
    s.SetUsername("testuser");
    assert s.error == NoMessage;
    s.Login();
    assert s.error == InvalidCredentials && !s.loggedIn;
    s.SetPassword("Testpass1!");
    s.Login();
    s.Login();
  }
}
