/**
 * `src/pages/register.tsx`: the sign-up form. Its submit handler checks the
 * fields one at a time, stopping at the first failure, and only then asks
 * the session object to register.
 */
module RegisterPage {
  import opened Wrappers
  import opened Strings
  import opened UserService

  /** The fields of the form, as typed. */
  datatype RegisterForm = RegisterForm(
    username: string, email: string, password: string, confirmPassword: string, displayName: string)

  /** What `register` sends to the backend. */
  datatype RegisterRequest = RegisterRequest(username: string, email: string, password: string, displayName: string)

  const UsernameRequired := "Username is required"
  const EmailRequired := "Email is required"
  const EmailInvalid := "Please enter a valid email address"
  const PasswordRequired := "Password is required"
  const PasswordTooShort := "Password must be at least 8 characters long"
  const PasswordsDiffer := "Passwords don't match"
  const RegisterFallback := "Registration failed. Please try again."
  const MinPasswordLength := 8

  /**
   * The checks of `handleSubmit`, in order; `None` when the form may be sent.
   * The username is only checked for being empty, so spaces pass.
   */
  function RegisterCheck(f: RegisterForm): (r: Option<string>)
    ensures r.None? <==>
      && f.username != "" && f.email != "" && Contains(f.email, "@") && f.password != ""
      && Utf16Len(f.password) >= MinPasswordLength && f.password == f.confirmPassword
    ensures f.username == "" ==> r == Some(UsernameRequired)
    ensures f.username != "" && f.email == "" ==> r == Some(EmailRequired)
    ensures f.username != "" && f.email != "" && !Contains(f.email, "@") ==> r == Some(EmailInvalid)
    ensures f.username != "" && f.email != "" && Contains(f.email, "@") && f.password == "" ==>
      r == Some(PasswordRequired)
    ensures (f.username != "" && f.email != "" && Contains(f.email, "@") && f.password != ""
             && Utf16Len(f.password) < MinPasswordLength) ==>
      r == Some(PasswordTooShort)
    ensures (f.username != "" && f.email != "" && Contains(f.email, "@") && f.password != ""
             && Utf16Len(f.password) >= MinPasswordLength && f.password != f.confirmPassword) ==>
      r == Some(PasswordsDiffer)
  {
    if f.username == "" then Some(UsernameRequired)
    else if f.email == "" then Some(EmailRequired)
    else if !Contains(f.email, "@") then Some(EmailInvalid)
    else if f.password == "" then Some(PasswordRequired)
    else if Utf16Len(f.password) < MinPasswordLength then Some(PasswordTooShort)
    else if f.password != f.confirmPassword then Some(PasswordsDiffer)
    else None
  }

  /** The request of a form that passed: the display name falls back to the username. */
  function Request(f: RegisterForm): (q: RegisterRequest)
    ensures q.username == f.username && q.email == f.email && q.password == f.password
    ensures q.displayName != "" <==> f.displayName != "" || f.username != ""
    ensures f.displayName != "" ==> q.displayName == f.displayName
  {
    RegisterRequest(f.username, f.email, f.password, if f.displayName != "" then f.displayName else f.username)
  }

  /**
   * How a submit ends: a check failed and nothing was sent; or the backend
   * signed the user up and the page moves to the question list; or the
   * error of the session object is shown.
   */
  datatype SubmitResult = Refused(message: string) | Welcome(user: SessionUser, to: string) | Failed(message: string)

  /**
   * `handleSubmit`. `outcome` is the backend's answer to the request, used
   * only when the checks pass (`sent` is the request that went out).
   */
  method Submit(session: UserService, f: RegisterForm, outcome: Result<AuthResponse, InvokeError>)
    returns (result: SubmitResult, sent: Option<RegisterRequest>)
    requires session.Valid()
    modifies session
    ensures session.Valid()
    ensures RegisterCheck(f).Some? ==>
      result == Refused(RegisterCheck(f).value) && sent.None? && unchanged(session)
    ensures RegisterCheck(f).None? ==> sent == Some(Request(f))
    ensures RegisterCheck(f).None? && outcome.Ok? ==>
      && result == Welcome(outcome.value.user, "/questions")
      && session.currentUser == Some(outcome.value.user) && session.token == Some(outcome.value.token)
    ensures RegisterCheck(f).None? && outcome.Err? ==>
      && result == Failed(OrFallback(Rethrown(outcome.error, "Registration failed"), RegisterFallback))
      && session.currentUser == old(session.currentUser) && session.token == old(session.token)
  {
    var invalid := RegisterCheck(f);
    if invalid.Some? {
      return Refused(invalid.value), None;
    }
    sent := Some(Request(f));
    var registered := session.Register(outcome);
    if registered.Ok? {
      result := Welcome(registered.value, "/questions");
    } else {
      result := Failed(OrFallback(registered.error, RegisterFallback));
    }
  }

  /**
   * The page's own fallback is never used: the session object already puts
   * a non-empty message on every error, and the page shows that one.
   */
  lemma PageShowsServiceMessage(e: InvokeError)
    ensures Rethrown(e, "Registration failed") != ""
    ensures OrFallback(Rethrown(e, "Registration failed"), RegisterFallback) == Rethrown(e, "Registration failed")
  {
  }

  /**
   * A password the page accepts has at least 8 UTF-8 bytes too, so the
   * backend's byte-length minimum on a new password would accept it.
   */
  lemma AcceptedPasswordHasEightBytes(f: RegisterForm)
    requires RegisterCheck(f).None?
    ensures Utf8Len(f.password) >= 8
  {
    Utf16AtMostUtf8(f.password);
  }

  /** A username of spaces only passes the page's checks. */
  lemma BlankUsernamePasses()
    ensures RegisterCheck(RegisterForm(" ", "a@b", "password", "password", "")).None?
  {
    assert Contains("a@b", "@") by {
      assert Contains("@b", "@") by { assert StartsWith("@b", "@"); }
    }
    assert Utf16Len("password") == 8;
  }
}
