/**
 * `src/pages/login.tsx`: the sign-in form. Its submit handler checks the
 * fields in order, asks the session object to log in, and on success goes
 * back to the page that sent the user here.
 */
module LoginPage {
  import opened Wrappers
  import opened Strings
  import opened UserService

  /** The fields of the form. */
  datatype LoginForm = LoginForm(email: string, password: string, rememberMe: bool)

  /** What `login` sends; the backend reads the email and the password only. */
  datatype LoginRequest = LoginRequest(email: string, password: string, rememberMe: bool)

  const EmailRequired := "Email is required"
  const PasswordRequired := "Password is required"
  const EmailInvalid := "Please enter a valid email address"
  const LoginFallback := "Invalid email or password. Please try again."
  const LoginToast := "Login failed. Please check your credentials."

  /** The checks of `handleSubmit`, in order: email present, password present, email has an `@`. */
  function LoginCheck(f: LoginForm): (r: Option<string>)
    ensures r.None? <==> f.email != "" && f.password != "" && Contains(f.email, "@")
    ensures f.email == "" ==> r == Some(EmailRequired)
    ensures f.email != "" && f.password == "" ==> r == Some(PasswordRequired)
    ensures f.email != "" && f.password != "" && !Contains(f.email, "@") ==> r == Some(EmailInvalid)
  {
    if f.email == "" then Some(EmailRequired)
    else if f.password == "" then Some(PasswordRequired)
    else if !Contains(f.email, "@") then Some(EmailInvalid)
    else None
  }

  /** `from`: the path of the page the user came from, or the root. */
  function From(statePath: Option<string>): (p: string)
    ensures p != ""
    ensures statePath.Some? && statePath.value != "" ==> p == statePath.value
  {
    OrFallback(if statePath.Some? then statePath.value else "", "/")
  }

  /** Where a successful login goes: `from || '/questions'`. */
  function Target(statePath: Option<string>): (p: string)
    ensures p == From(statePath)
    ensures p != "/questions" || statePath == Some("/questions")
  {
    OrFallback(From(statePath), "/questions")
  }

  /**
   * How a submit ends: a failed check (nothing sent), a signed-in user and
   * the page to go to, or an error text with the toast that goes with it.
   */
  datatype SubmitResult =
    | Refused(message: string)
    | Welcome(user: SessionUser, to: string)
    | Failed(message: string, toast: string)

  /**
   * `handleSubmit`. `outcome` is the backend's answer to the request, used
   * only when the checks pass (`sent` is the request that went out).
   */
  method Submit(session: UserService, f: LoginForm, statePath: Option<string>, outcome: Result<AuthResponse, InvokeError>)
    returns (result: SubmitResult, sent: Option<LoginRequest>)
    requires session.Valid()
    modifies session
    ensures session.Valid()
    ensures LoginCheck(f).Some? ==> result == Refused(LoginCheck(f).value) && sent.None? && unchanged(session)
    ensures LoginCheck(f).None? ==> sent == Some(LoginRequest(f.email, f.password, f.rememberMe))
    ensures LoginCheck(f).None? && outcome.Ok? ==>
      && result == Welcome(outcome.value.user, From(statePath))
      && session.currentUser == Some(outcome.value.user) && session.token == Some(outcome.value.token)
    ensures LoginCheck(f).None? && outcome.Err? ==>
      && result == Failed(Rethrown(outcome.error, "Login failed"), LoginToast)
      && session.currentUser == old(session.currentUser) && session.token == old(session.token)
  {
    var invalid := LoginCheck(f);
    if invalid.Some? {
      return Refused(invalid.value), None;
    }
    sent := Some(LoginRequest(f.email, f.password, f.rememberMe));
    var loggedIn := session.Login(outcome);
    if loggedIn.Ok? {
      result := Welcome(loggedIn.value, Target(statePath));
    } else {
      result := Failed(OrFallback(loggedIn.error, LoginFallback), LoginToast);
    }
  }

  /** Without a page to return to, a successful login goes to the root, never to the question list. */
  lemma NoOriginGoesToRoot()
    ensures Target(None) == "/" && Target(Some("")) == "/"
  {
  }
}
