/**
 * `src/pages/change-password.tsx`: the form for a new password. It keeps
 * the three fields and one error text per field, checks them all at once
 * on submit, sends the change to the backend without reading its
 * verdict, and then hands the session user, with a fresh last-login time,
 * to `userService.setUser`, a method `UserService` does not have.
 */
module ChangePasswordPage {
  import opened Wrappers
  import opened Strings
  import opened Store
  import opened UserService
  import opened UserRepository

  /** One text per field of the form: the values typed, or the errors shown. */
  datatype Fields = Fields(currentPassword: string, newPassword: string, confirmPassword: string)

  /** The `name` of an input of the form. */
  datatype FieldName = CurrentPassword | NewPassword | ConfirmPassword

  const NoErrors := Fields("", "", "")

  const CurrentRequired := "Current password is required"
  const NewRequired := "New password is required"
  const NewTooShort := "Password must be at least 6 characters"
  const Mismatch := "Passwords do not match"
  const MinLength := 6

  /** The field of that name. */
  function FieldOf(f: Fields, name: FieldName): string {
    match name
    case CurrentPassword => f.currentPassword
    case NewPassword => f.newPassword
    case ConfirmPassword => f.confirmPassword
  }

  /** `{...f, [name]: value}`. */
  function WithField(f: Fields, name: FieldName, value: string): (r: Fields)
    ensures FieldOf(r, name) == value
    ensures forall other | other != name :: FieldOf(r, other) == FieldOf(f, other)
  {
    match name
    case CurrentPassword => f.(currentPassword := value)
    case NewPassword => f.(newPassword := value)
    case ConfirmPassword => f.(confirmPassword := value)
  }

  /** The form may be sent: both passwords typed, the new one long enough, and confirmed. */
  predicate Acceptable(f: Fields) {
    f.currentPassword != "" && f.newPassword != "" && Utf16Len(f.newPassword) >= MinLength
    && f.newPassword == f.confirmPassword
  }

  /** The error texts `validateForm` sets, every field checked. */
  function FormErrors(f: Fields): (e: Fields)
    ensures e == NoErrors <==> Acceptable(f)
    ensures e.currentPassword != "" <==> f.currentPassword == ""
    ensures e.newPassword == NewRequired <==> f.newPassword == ""
    ensures e.newPassword == NewTooShort <==> f.newPassword != "" && Utf16Len(f.newPassword) < MinLength
    ensures e.confirmPassword != "" <==> f.newPassword != f.confirmPassword
  {
    Fields(
      if f.currentPassword == "" then CurrentRequired else "",
      if f.newPassword == "" then NewRequired else if Utf16Len(f.newPassword) < MinLength then NewTooShort else "",
      if f.newPassword != f.confirmPassword then Mismatch else "")
  }

  /** What `api.user.changePassword` sends. */
  datatype PasswordRequest = PasswordRequest(userId: int, currentPassword: string, newPassword: string, confirmPassword: string)

  /**
   * How a submit ends: the form was refused, there was no user and the
   * page goes to the sign-in page, the change was reported done and the
   * page moves on, or storing the user threw and its message is shown.
   */
  datatype SubmitResult = Invalid | ToLogin | Changed(toast: string, next: string) | Failed(toast: string)

  class ChangePasswordPage {
    var form: Fields
    var errors: Fields

    constructor ()
      ensures form == Fields("", "", "") && errors == NoErrors
    {
      form := Fields("", "", "");
      errors := NoErrors;
    }

    /** `handleChange`: the field takes the value, and its error, if any, is cleared. */
    method HandleChange(name: FieldName, value: string)
      modifies this
      ensures form == WithField(old(form), name, value)
      ensures errors == WithField(old(errors), name, "")
    {
      form := WithField(form, name, value);
      if FieldOf(errors, name) != "" {
        errors := WithField(errors, name, "");
      }
    }

    /** `validateForm`: all three errors are set at once; the form is valid when none is. */
    method ValidateForm() returns (valid: bool)
      modifies this
      ensures form == old(form) && errors == FormErrors(form)
      ensures valid <==> Acceptable(form)
    {
      valid := true;
      var newErrors := NoErrors;
      if form.currentPassword == "" {
        newErrors := newErrors.(currentPassword := CurrentRequired);
        valid := false;
      }
      if form.newPassword == "" {
        newErrors := newErrors.(newPassword := NewRequired);
        valid := false;
      } else if Utf16Len(form.newPassword) < MinLength {
        newErrors := newErrors.(newPassword := NewTooShort);
        valid := false;
      }
      if form.newPassword != form.confirmPassword {
        newErrors := newErrors.(confirmPassword := Mismatch);
        valid := false;
      }
      errors := newErrors;
    }

    /**
     * `handleSubmit`. The backend's answer to `sent` is not read: a refusal
     * is only logged. The session user, with `lastLogin` set to `now`, is
     * then handed to `userService.setUser` (`handed`); that call throws
     * `SetUserMissing`, so a submit that gets this far always ends in the
     * catch, which shows the error's message.
     */
    method HandleSubmit(session: UserService, now: string)
      returns (result: SubmitResult, sent: Option<PasswordRequest>, handed: Option<SessionUser>)
      modifies this
      ensures form == old(form) && errors == FormErrors(form)
      ensures result == Outcome(form, session.currentUser, Some(SetUserMissing))
      ensures !Acceptable(form) ==> result == Invalid && sent.None? && handed.None?
      ensures Acceptable(form) && session.currentUser.None? ==> result == ToLogin && sent.None? && handed.None?
      ensures Acceptable(form) && session.currentUser.Some? ==>
        var user := session.currentUser.value;
        && sent == Some(PasswordRequest(user.id, form.currentPassword, form.newPassword, form.confirmPassword))
        && handed == Some(user.(lastLogin := Some(now)))
        && result == Failed("userService.setUser is not a function")
    {
      var valid := ValidateForm();
      if !valid {
        return Invalid, None, None;
      }
      var currentUser := session.GetUser();
      if currentUser.None? {
        return ToLogin, None, None;
      }
      sent := Some(PasswordRequest(currentUser.value.id, form.currentPassword, form.newPassword, form.confirmPassword));
      handed := Some(currentUser.value.(lastLogin := Some(now)));
      result := Failed(Rethrown(SetUserMissing, "Failed to change password"));
    }
  }

  const ChangedToast := "Password changed successfully"

  /**
   * How `handleSubmit` ends, given what the call that stores the user
   * throws (`None` when it returns): a refused form, no user, the success
   * toast with the move to "/profile", or the thrown message.
   */
  function Outcome(form: Fields, currentUser: Option<SessionUser>, storeThrows: Option<InvokeError>): (r: SubmitResult)
    ensures r == Invalid <==> !Acceptable(form)
    ensures r == ToLogin <==> Acceptable(form) && currentUser.None?
    ensures r.Changed? <==> Acceptable(form) && currentUser.Some? && storeThrows.None?
    ensures r.Changed? ==> r == Changed(ChangedToast, "/profile")
    ensures r.Failed? ==> r.toast == Rethrown(storeThrows.value, "Failed to change password")
  {
    if !Acceptable(form) then Invalid
    else if currentUser.None? then ToLogin
    else if storeThrows.Some? then Failed(Rethrown(storeThrows.value, "Failed to change password"))
    else Changed(ChangedToast, "/profile")
  }

  /**
   * As written, a change the backend makes is reported as a failure: the
   * password is replaced, yet the page shows the `TypeError` of the missing
   * `setUser` and stays put.
   */
  lemma ChangeReportedAsFailure(t: Tables, k: nat, form: Fields, user: SessionUser)
    requires UsersValid(t) && k < |t.users| && user.id == t.users[k].id
    requires Acceptable(form) && Verify(form.currentPassword, t.users[k].passwordHash)
    requires Utf8Len(form.newPassword) >= MinPasswordBytes
    ensures ChangePasswordSpec(t, user.id, form.currentPassword, form.newPassword, form.confirmPassword).1 == Ok(())
    ensures Outcome(form, Some(user), Some(SetUserMissing)) == Failed("userService.setUser is not a function")
  {
    ChangePasswordOrder(t, user.id, form.currentPassword, form.newPassword, form.confirmPassword, k);
  }

  /**
   * With a `setUser` that stores the user, every valid form sent by a
   * signed-in user is reported as changed, whatever the backend answered.
   */
  lemma ChangeReportedWithSetUser(form: Fields, user: SessionUser)
    requires Acceptable(form)
    ensures Outcome(form, Some(user), None) == Changed(ChangedToast, "/profile")
  {
  }

  /**
   * The page lets through a new password of 6 or 7 characters that the
   * backend refuses as shorter than 8 bytes; since the page does not read
   * the backend's answer, it reports such a change as done.
   */
  lemma PageAcceptsWhatBackendRefuses(t: Tables, k: nat, current: string)
    requires UsersValid(t) && k < |t.users| && Verify(current, t.users[k].passwordHash) && current != ""
    ensures Acceptable(Fields(current, "secret", "secret"))
    ensures ChangePasswordSpec(t, t.users[k].id, current, "secret", "secret") == (t, Err(NewPasswordTooShort))
  {
    assert Utf16Len("secret") == 6;
    assert Utf8Len("secret") == 6;
    ChangePasswordOrder(t, t.users[k].id, current, "secret", "secret", k);
  }

  /**
   * The other way round, the page counts UTF-16 units where the backend
   * counts bytes: two characters outside the basic plane make 8 bytes,
   * enough for the backend, but only 4 units, too short for the page.
   */
  lemma PageRefusesWhatBackendAccepts(current: string)
    requires current != ""
    ensures var p := [0x1F600 as char, 0x1F600 as char];
      Utf8Len(p) == 8 && !Acceptable(Fields(current, p, p))
  {
    var p := [0x1F600 as char, 0x1F600 as char];
    assert p[1..][1..] == [];
    assert Utf16Len(p) == 4;
  }
}
