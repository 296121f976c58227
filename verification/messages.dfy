/** The messages the login form's single error slot can show. The slot is a
    string in the form; `Text` gives each message's exact wording, and
    `NoMessage` is the empty string, which the form does not display. */
module Messages {

  datatype Message =
    | NoMessage
    | UsernameTooShort
    | UsernameTooLong
    | PasswordComposition
    | InvalidCredentials

  function Text(m: Message): string {
    match m
    case NoMessage => ""
    case UsernameTooShort => "Username must be at least 6 characters long"
    case UsernameTooLong => "Username must not exceed 20 characters"
    case PasswordComposition =>
      "Password must include a special character, a number, an uppercase letter, and a lowercase letter."
    case InvalidCredentials => "Invalid credentials, please try again."
  }

  /** The length and first letter of each non-empty wording. */
  lemma TooShortShape()
    ensures |Text(UsernameTooShort)| == 43
  {
  }

  lemma TooLongShape()
    ensures |Text(UsernameTooLong)| == 38 && Text(UsernameTooLong)[0] == 'U'
  {
  }

  lemma CompositionShape()
    ensures |Text(PasswordComposition)| == 97
  {
  }

  lemma InvalidShape()
    ensures |Text(InvalidCredentials)| == 38 && Text(InvalidCredentials)[0] == 'I'
  {
  }

  /** Different messages have different wordings, and only `NoMessage` is
      the empty string the form leaves undisplayed: keeping the slot as a
      `Message` loses nothing the form can show. */
  lemma TextInjective(m1: Message, m2: Message)
    ensures m1 != m2 ==> Text(m1) != Text(m2)
    ensures Text(m1) == "" <==> m1 == NoMessage
  {
    TooShortShape();
    TooLongShape();
    CompositionShape();
    InvalidShape();
  }
}
