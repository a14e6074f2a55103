/** The username and password rules of `registerValidation`,
    `loginValidation` and `profileValidation`. */
module AuthRoutes {
  import opened Common
  import opened Text

  /** A character of `/^[a-zA-Z0-9_]+$/`. */
  predicate IsUsernameChar(c: char) {
    IsAsciiLetter(c) || IsDigit(c) || c == '_'
  }

  /** `username`: 3 to 30 characters, letters, digits and underscores only. */
  predicate UsernameValid(username: string) {
    3 <= |username| <= 30 && forall i :: 0 <= i < |username| ==> IsUsernameChar(username[i])
  }

  /** `registerValidation` on `password`: at least 6 characters. */
  predicate RegisterPasswordValid(password: string) {
    |password| >= 6
  }

  /** `loginValidation` on `password`: `notEmpty`. */
  predicate LoginPasswordValid(password: string) {
    password != ""
  }

  /** `profileValidation` on `username`: `optional()`, then the register rule. */
  predicate ProfileUsernameValid(username: Option<string>) {
    username.None? || UsernameValid(username.value)
  }

  /** A registrable password can always be used to log in, but not conversely. */
  lemma RegisterPasswordLogsIn(password: string)
    ensures RegisterPasswordValid(password) ==> LoginPasswordValid(password)
    ensures LoginPasswordValid("a") && !RegisterPasswordValid("a")
  {
  }

  /** A profile update without a username passes, and one with a username
      passes exactly when registration would accept it. */
  lemma ProfileMatchesRegister(username: string)
    ensures ProfileUsernameValid(None)
    ensures ProfileUsernameValid(Some(username)) <==> UsernameValid(username)
  {
  }

  /** A valid username has no spaces, so the User schema's `trim` keeps it as is. */
  lemma ValidUsernameUntrimmed(username: string)
    requires UsernameValid(username)
    ensures Trim(username) == username
  {
    TrimOfTrimmed(username);
  }
}
