/** The two live field validators of the login form: a length rule on the
    username and a composition rule on the password. Each maps the field's
    current value to the message the form shows. */
module Validators {
  import opened Messages

  const MinUsernameLength: nat := 6
  const MaxUsernameLength: nat := 20

  /** The characters of the special-character pattern, in the order they
      are listed: a bracket expression with no ranges, so each listed
      character stands for itself. */
  const SpecialCharList: string := "!@#$%^&*(),.?\":{}|<>"

  /** The special class as a set. */
  const SpecialChars: set<char> := set c | c in SpecialCharList

  /** The four character classes a non-empty password must each hit. */
  datatype CharClass = Special | Digit | Upper | Lower

  predicate InClass(c: char, k: CharClass) {
    match k
    case Special => c in SpecialChars
    case Digit => '0' <= c <= '9'
    case Upper => 'A' <= c <= 'Z'
    case Lower => 'a' <= c <= 'z'
  }

  /** Reference meaning of a class pattern matching somewhere in `s`. */
  ghost predicate HasCharIn(s: string, k: CharClass) {
    exists i :: 0 <= i < |s| && InClass(s[i], k)
  }

  /** `pattern.test(s)` for a one-character-class pattern: scan `s` left to
      right for a character of the class. */
  function Test(s: string, k: CharClass): bool {
    if s == [] then false
    else InClass(s[0], k) || Test(s[1..], k)
  }

  /** The scan finds a character of the class exactly when there is one. */
  lemma {:induction false} TestMeaning(s: string, k: CharClass)
    ensures Test(s, k) <==> HasCharIn(s, k)
  {
    if s != [] {
      TestMeaning(s[1..], k);
      assert forall i :: 0 < i < |s| ==> s[i] == s[1..][i - 1];
    }
  }

  /** Reference meaning of the username rule: a length is acceptable when the
      field is empty or within [MinUsernameLength, MaxUsernameLength]. */
  predicate UsernameLengthOk(s: string) {
    |s| == 0 || MinUsernameLength <= |s| <= MaxUsernameLength
  }

  /** Reference meaning of the password rule: empty, or at least one
      character from each of the four classes. */
  ghost predicate PasswordCompositionOk(s: string) {
    |s| == 0 ||
    (HasCharIn(s, Special) && HasCharIn(s, Digit) && HasCharIn(s, Upper) && HasCharIn(s, Lower))
  }

  /** The message the username effect stores for username `s`. */
  function UsernameError(s: string): (e: Message)
    ensures e == NoMessage <==> UsernameLengthOk(s)
    ensures e == UsernameTooShort <==> 0 < |s| < MinUsernameLength
    ensures e == UsernameTooLong <==> |s| > MaxUsernameLength
  {
    if |s| != 0 && |s| < MinUsernameLength then UsernameTooShort
    else if |s| != 0 && |s| > MaxUsernameLength then UsernameTooLong
    else NoMessage
  }

  /** The message the password effect stores for password `s`: none, or
      the composition message. */
  function PasswordError(s: string): (e: Message)
    ensures e == NoMessage || e == PasswordComposition
  {
    if |s| != 0 &&
       (!Test(s, Special) || !Test(s, Digit) || !Test(s, Upper) || !Test(s, Lower))
    then PasswordComposition
    else NoMessage
  }

  /** The password rule gives no message exactly for the passwords the
      composition rule accepts, and the composition message otherwise. */
  lemma PasswordErrorMeaning(s: string)
    ensures PasswordError(s) == NoMessage <==> PasswordCompositionOk(s)
    ensures PasswordError(s) == PasswordComposition <==> !PasswordCompositionOk(s)
  {
    TestMeaning(s, Special);
    TestMeaning(s, Digit);
    TestMeaning(s, Upper);
    TestMeaning(s, Lower);
  }

  /** A sequence without repeats has as many distinct elements as entries. */
  lemma {:induction false} DistinctElements(s: string)
    requires forall i, j :: 0 <= i < j < |s| ==> s[i] != s[j]
    ensures |set c | c in s| == |s|
  {
    if s != [] {
      DistinctElements(s[1..]);
      assert (set c | c in s) == {s[0]} + (set c | c in s[1..]);
      assert s[0] !in (set c | c in s[1..]);
    }
  }

  /** The special class has exactly twenty members. */
  lemma SpecialCharCount()
    ensures |SpecialChars| == 20
  {
    DistinctElements(SpecialCharList);
  }

  /** A password missing any one class is rejected, however long it is and
      whatever else it holds. */
  lemma MissingClassRejected(s: string, k: CharClass)
    requires |s| != 0
    requires forall i :: 0 <= i < |s| ==> !InClass(s[i], k)
    ensures PasswordError(s) == PasswordComposition
  {
    PasswordErrorMeaning(s);
  }

  /** An example password with all four classes is accepted. */
  lemma ExamplePasswordAccepted()
    ensures PasswordError("Abcdef1!") == NoMessage
  {
    var s := "Abcdef1!";
    PasswordErrorMeaning(s);
    assert InClass(s[7], Special) && InClass(s[6], Digit);
    assert InClass(s[0], Upper) && InClass(s[1], Lower);
  }

  /** A lower-case-only password is rejected. */
  lemma ExamplePasswordRejected()
    ensures PasswordError("abc") == PasswordComposition
  {
    assert !Test("abc", Special);
  }
}
