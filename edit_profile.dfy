/**
 * `src/pages/edit-profile.tsx`: the form that edits the signed-in user's
 * profile, with a small chart of the user's questions. Saving sends the
 * display name and bio to the backend, falls back to the form's values
 * when the backend fails, and hands the merged user to
 * `userService.setUser`, a method `UserService` does not have. The profile
 * API is not part of this model: what it returns or throws is a parameter.
 */
module EditProfilePage {
  import opened Wrappers
  import opened Seqs
  import opened Strings
  import opened Store
  import opened QuestionRepository
  import opened UserRepository
  import opened UserService
  import opened ProfilePage

  /** The fields of the form. */
  datatype ProfileForm = ProfileForm(username: string, displayName: string, email: string, bio: string)

  /** The `name` of an input of the form. */
  datatype FieldName = Username | DisplayName | Email | Bio

  /** The form as the page fills it from the user: each field, or '' when missing. */
  function InitialForm(u: SessionUser): (f: ProfileForm)
    ensures (f.username, f.displayName, f.email) == (u.username, u.displayName, u.email)
    ensures f.bio == if u.bio.Some? then u.bio.value else ""
  {
    ProfileForm(u.username, u.displayName, u.email, if u.bio.Some? then u.bio.value else "")
  }

  /** `{...form, [name]: value}`: only the named field changes. */
  function WithField(f: ProfileForm, name: FieldName, value: string): (r: ProfileForm)
    ensures r.username == if name == Username then value else f.username
    ensures r.displayName == if name == DisplayName then value else f.displayName
    ensures r.email == if name == Email then value else f.email
    ensures r.bio == if name == Bio then value else f.bio
  {
    match name
    case Username => f.(username := value)
    case DisplayName => f.(displayName := value)
    case Email => f.(email := value)
    case Bio => f.(bio := value)
  }

  /** `bio || undefined`: an empty bio is sent as missing. */
  function BioOf(f: ProfileForm): (b: Option<string>)
    ensures b.None? <==> f.bio == ""
    ensures b.Some? ==> b.value == f.bio
  {
    if f.bio != "" then Some(f.bio) else None
  }

  /** The request the page sends: the display name always, the bio unless empty, no avatar. */
  function Request(f: ProfileForm): (q: ProfileUpdate)
    ensures q.displayName == Some(f.displayName) && q.bio == BioOf(f) && q.avatarUrl.None?
  {
    ProfileUpdate(Some(f.displayName), BioOf(f), None)
  }

  /** The three fields of the profile answer the merge reads. */
  datatype ProfileData = ProfileData(displayName: string, bio: Option<string>, avatarUrl: Option<string>)

  /**
   * The user the page hands to `setUser`: username and email from the form; display
   * name, bio and avatar from the backend's answer, or, when the backend
   * threw, from the form with the avatar the user already had.
   */
  function Merged(current: SessionUser, f: ProfileForm, answer: Result<ProfileData, InvokeError>): (u: SessionUser)
    ensures u == current.(displayName := u.displayName, bio := u.bio, avatarUrl := u.avatarUrl,
                          username := f.username, email := f.email)
    ensures answer.Ok? ==> (u.displayName, u.bio, u.avatarUrl) == (answer.value.displayName, answer.value.bio, answer.value.avatarUrl)
    ensures answer.Err? ==> (u.displayName, u.bio, u.avatarUrl) == (f.displayName, BioOf(f), current.avatarUrl)
  {
    var data := if answer.Ok? then answer.value else ProfileData(f.displayName, BioOf(f), current.avatarUrl);
    current.(displayName := data.displayName, bio := data.bio, avatarUrl := data.avatarUrl,
             username := f.username, email := f.email)
  }

  /** The figures of the page's chart source. */
  datatype EditStats = EditStats(questions: nat, answeredQuestions: nat, acceptedAnswers: nat)

  const NoFigures := EditStats(0, 0, 0)

  /** The figures `loadStats` sets for a list of questions. */
  function StatsFor(qs: seq<QuestionResponse>): EditStats {
    EditStats(|qs|, Answered(qs), AcceptedEstimate(|qs|))
  }

  /** The three slices of the chart: pending, answered, accepted. */
  function Slices(s: EditStats): seq<int> {
    [s.questions - s.answeredQuestions, s.answeredQuestions - s.acceptedAnswers, s.acceptedAnswers]
  }

  /** The pending slice is never negative, and the slices add up to the number of questions. */
  lemma PendingNonNegative(qs: seq<QuestionResponse>)
    ensures Slices(StatsFor(qs))[0] >= 0
    ensures Slices(StatsFor(qs))[0] + Slices(StatsFor(qs))[1] + Slices(StatsFor(qs))[2] == |qs|
  {
  }

  /**
   * The answered slice can be negative: the accepted estimate ignores which
   * questions are answered, so ten unanswered questions give 0 - 7.
   */
  lemma AnsweredSliceCanBeNegative(q: QuestionResponse)
    requires !q.isAnswered
    ensures Slices(StatsFor(seq(10, _ => q)))[1] == -7
  {
    var qs := seq(10, _ => q);
    assert Matching(qs, IsAnswered) == {};
  }

  datatype SubmitResult = ToLogin | Saved(toast: string, next: string) | Failed(toast: string)

  const Updated := "Profile updated successfully"
  const UpdateFailed := "Failed to update profile"

  class EditProfile {
    var form: ProfileForm
    var stats: EditStats
    var saving: bool

    constructor ()
      ensures form == ProfileForm("", "", "", "") && stats == NoFigures && !saving
    {
      form, stats, saving := ProfileForm("", "", "", ""), NoFigures, false;
    }

    /**
     * The page's effect: without a user it goes to the sign-in page.
     * Otherwise the form is filled from the user and `loadStats` counts the
     * answered questions among those found; a failed load sets no figures.
     */
    method Load(user: Option<SessionUser>, found: Result<seq<QuestionResponse>, string>) returns (next: Option<string>)
      modifies this
      ensures saving == old(saving)
      ensures user.None? ==> next == Some("/login") && form == old(form) && stats == old(stats)
      ensures user.Some? ==> next.None? && form == InitialForm(user.value)
      ensures user.Some? && found.Err? ==> stats == old(stats)
      ensures user.Some? && found.Ok? ==> stats == StatsFor(found.value)
    {
      if user.None? {
        return Some("/login");
      }
      next := None;
      form := InitialForm(user.value);
      if found.Err? {
        return;
      }
      var qs := found.value;
      var answeredQuestions := 0;
      var i := 0;
      while i < |qs|
        invariant 0 <= i <= |qs|
        invariant answeredQuestions == Count(qs[..i], IsAnswered)
      {
        assert qs[..i + 1][..i] == qs[..i];
        if qs[i].isAnswered {
          answeredQuestions := answeredQuestions + 1;
        }
        i := i + 1;
      }
      assert qs[..|qs|] == qs;
      stats := EditStats(|qs|, answeredQuestions, AcceptedEstimate(|qs|));
    }

    /** `handleChange`: the named field takes the value. */
    method HandleChange(name: FieldName, value: string)
      modifies this
      ensures form == WithField(old(form), name, value)
      ensures stats == old(stats) && saving == old(saving)
    {
      form := WithField(form, name, value);
    }

    /**
     * `handleSubmit`: without a session user the page goes to the sign-in
     * page. Otherwise the request goes out (`sent`) and the merged user is
     * handed to `userService.setUser` (`handed`). `answer` is what the
     * profile API returned or threw; its failure is not reported. The call
     * of the missing `setUser` throws, so the page always ends with the
     * failure toast.
     */
    method HandleSubmit(session: UserService, answer: Result<ProfileData, InvokeError>)
      returns (result: SubmitResult, sent: Option<(int, ProfileUpdate)>, handed: Option<SessionUser>)
      modifies this
      ensures form == old(form) && stats == old(stats) && !saving
      ensures result == Outcome(session.currentUser, true)
      ensures session.currentUser.None? ==> result == ToLogin && sent.None? && handed.None?
      ensures session.currentUser.Some? ==>
        var current := session.currentUser.value;
        && sent == Some((current.id, Request(form)))
        && handed == Some(Merged(current, form, answer))
        && result == Failed(UpdateFailed)
    {
      saving := true;
      var currentUser := session.GetUser();
      if currentUser.None? {
        saving := false;
        return ToLogin, None, None;
      }
      var current := currentUser.value;
      sent := Some((current.id, Request(form)));
      var data: ProfileData;
      if answer.Ok? {
        data := answer.value;
      } else {
        data := ProfileData(form.displayName, BioOf(form), current.avatarUrl);
      }
      var updated := current.(displayName := data.displayName, bio := data.bio, avatarUrl := data.avatarUrl,
                              username := form.username, email := form.email);
      handed := Some(updated);
      // `userService.setUser(updated)` throws `SetUserMissing`; the catch shows the fixed toast.
      result := Failed(UpdateFailed);
      saving := false;
    }
  }

  /**
   * How `handleSubmit` ends for a session user or none, given whether the
   * call that stores the user throws: the sign-in page, the success toast
   * with the move to "/profile", or the fixed failure toast (the thrown
   * error is only logged).
   */
  function Outcome(currentUser: Option<SessionUser>, storeThrows: bool): (r: SubmitResult)
    ensures r == ToLogin <==> currentUser.None?
    ensures r.Saved? <==> currentUser.Some? && !storeThrows
    ensures r.Saved? ==> r == Saved(Updated, "/profile")
    ensures r.Failed? ==> r == Failed(UpdateFailed)
  {
    if currentUser.None? then ToLogin
    else if storeThrows then Failed(UpdateFailed)
    else Saved(Updated, "/profile")
  }

  /**
   * As written, a profile the backend updates is reported as a failure: the
   * stored display name becomes the form's, yet the page shows "Failed to
   * update profile".
   */
  lemma SavedProfileReportedAsFailure(t: Tables, k: nat, f: ProfileForm, current: SessionUser)
    requires UsersValid(t) && k < |t.users| && current.id == t.users[k].id && !IsBlank(Rust, f.displayName)
    ensures var out := UpdateProfileSpec(t, current.id, Request(f));
      out.1.Ok? && out.0.users[k].displayName == f.displayName
    ensures Outcome(Some(current), true) == Failed(UpdateFailed)
  {
    UpdateProfileFound(t, current.id, Request(f), k);
  }

  /**
   * With a `setUser` that stores the user, the same update is reported as
   * saved, and the user the page keeps carries the display name the
   * backend stored.
   */
  lemma SavedProfileReportedWithSetUser(t: Tables, k: nat, f: ProfileForm, current: SessionUser)
    requires UsersValid(t) && k < |t.users| && current.id == t.users[k].id && !IsBlank(Rust, f.displayName)
    ensures var out := UpdateProfileSpec(t, current.id, Request(f));
      && out.1.Ok?
      && Outcome(Some(current), false) == Saved(Updated, "/profile")
      && Merged(current, f, Ok(ProfileData(out.1.value.displayName, out.1.value.bio, out.1.value.avatarUrl))).displayName
         == out.0.users[k].displayName == f.displayName
  {
    UpdateProfileFound(t, current.id, Request(f), k);
  }

  /**
   * Emptying the bio in the form does not clear it: the request then
   * carries no bio, and the backend keeps the one it has.
   */
  lemma EmptiedBioIsKept(t: Tables, k: nat, f: ProfileForm)
    requires UsersValid(t) && k < |t.users| && f.bio == "" && !IsBlank(Rust, f.displayName)
    ensures var out := UpdateProfileSpec(t, t.users[k].id, Request(f));
      out.1.Ok? && out.1.value.bio == t.users[k].bio && out.1.value.displayName == f.displayName
  {
    UpdateProfileFound(t, t.users[k].id, Request(f), k);
  }

  /**
   * A blank display name is refused by the backend, yet the page's fallback
   * puts it in the user it hands to `setUser`; that call throws, so the
   * page ends with the failure toast and nothing is kept.
   */
  lemma BlankNameRefusedButMerged(t: Tables, k: nat, f: ProfileForm, current: SessionUser, e: InvokeError)
    requires UsersValid(t) && k < |t.users| && IsBlank(Rust, f.displayName)
    ensures UpdateProfileSpec(t, t.users[k].id, Request(f)).1 == Err(BlankDisplayName)
    ensures Merged(current, f, Err(e)).displayName == f.displayName
    ensures Outcome(Some(current), true) == Failed(UpdateFailed)
  {
  }
}
