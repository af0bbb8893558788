/** The input check of the Postgres repository package. Go's `len` counts
    bytes, so the length limits are limits on the UTF-8 size of the text. */
module Postgres {
  import opened Wrappers
  import opened GoStrings

  /** The three rejections, in the order they are tested. */
  datatype InputError =
    | UsernameTooShort   // "username must have at least 3 characters"
    | PasswordTooShort   // "password must have at least 8 characters"
    | InvalidEmail       // "invalid email format"

  const MinUsernameBytes: nat := 3
  const MinPasswordBytes: nat := 8

  /** None stands for Go's nil error. */
  function ValidateUserData(username: string, email: string, password: string): (r: Option<InputError>)
    ensures r.None? <==> Utf8Len(username) >= MinUsernameBytes && Utf8Len(password) >= MinPasswordBytes && '@' in email
    ensures r == Some(UsernameTooShort) ==> Utf8Len(username) < MinUsernameBytes
    ensures r == Some(PasswordTooShort) ==> Utf8Len(password) < MinPasswordBytes
    ensures r == Some(InvalidEmail) ==> '@' !in email
  {
    if Utf8Len(username) < MinUsernameBytes then Some(UsernameTooShort)
    else if Utf8Len(password) < MinPasswordBytes then Some(PasswordTooShort)
    else if '@' !in email then Some(InvalidEmail)
    else None
  }

  /** Only the first failing check is reported: a short username hides any
      problem with the password or email, and a short password hides any
      problem with the email. */
  lemma FirstFailureReported(username: string, email: string, password: string, email': string, password': string)
    ensures Utf8Len(username) < MinUsernameBytes ==>
      ValidateUserData(username, email, password) == ValidateUserData(username, email', password') == Some(UsernameTooShort)
    ensures Utf8Len(username) >= MinUsernameBytes && Utf8Len(password) < MinPasswordBytes ==>
      ValidateUserData(username, email, password) == ValidateUserData(username, email', password) == Some(PasswordTooShort)
  {
  }

  /** Character counts are enough on the accepting side: three characters
      always make at least three bytes, eight characters at least eight. */
  lemma CharactersSuffice(username: string, email: string, password: string)
    requires |username| >= 3 && |password| >= 8 && '@' in email
    ensures ValidateUserData(username, email, password) == None
  {
    Utf8LenBounds(username);
    Utf8LenBounds(password);
  }

  /** ...but not on the rejecting side: any two non-ASCII characters make at
      least four bytes, so a two-character username passes a check whose
      message asks for at least three characters. */
  lemma {:induction false} BytesNotCharacters(username: string, email: string, password: string)
    requires |username| == 2 && username[0] as int >= 0x80 && username[1] as int >= 0x80
    ensures Utf8Len(username) >= 4
    ensures ValidateUserData(username, email, password) != Some(UsernameTooShort)
  {
    var rest := username[1..];
    assert rest[0] == username[1] && rest[1..] == [];
    assert Utf8Len(rest) == Utf8Width(username[1]) + Utf8Len(rest[1..]);
    assert Utf8Len(username) == Utf8Width(username[0]) + Utf8Len(rest);
  }
}
