/**
 * `src-tauri/src/repository/user_repository.rs`: registering an account
 * (username before email), logging in, the partial profile update, the
 * password change and the public view of a user. Errors are plain messages.
 */
module UserRepository {
  import opened Wrappers
  import opened Seqs
  import opened Strings
  import opened Store

  const UsernameTaken := "Username already exists"
  const EmailTaken := "Email already exists"
  const UserMissing := "User not found"
  const WrongPassword := "Invalid password"
  const BlankDisplayName := "Display name cannot be empty"
  const WrongCurrentPassword := "Current password is incorrect"
  const NewPasswordTooShort := "New password must be at least 8 characters long"
  const ConfirmationDiffers := "New password and confirmation do not match"

  /** The fewest bytes a new password may have. */
  const MinPasswordBytes := 8

  function FindByEmail(users: seq<User>, email: string): Option<nat> { FindKey(users, UserEmail, email) }
  function FindByUsername(users: seq<User>, username: string): Option<nat> { FindKey(users, Username, username) }

  /** The row `register` inserts: no bio, avatar or last login, reputation 0, active. */
  function NewUser(t: Tables, username: string, email: string, password: string, displayName: string, now: int): User {
    User(t.nextUserId, username, email, Hash(password), displayName, None, 0, now, None, None, 1)
  }

  /**
   * `register`: a taken username is refused first, then a taken email;
   * otherwise the user is inserted with a hash of the password.
   */
  function RegisterSpec(t: Tables, username: string, email: string, password: string, displayName: string, now: int)
    : (out: (Tables, Result<User, string>))
    ensures out.1.Err? ==> out.0 == t
    ensures (exists i | 0 <= i < |t.users| :: t.users[i].username == username) ==> out.1 == Err(UsernameTaken)
    ensures ((forall i | 0 <= i < |t.users| :: t.users[i].username != username)
             && (exists i | 0 <= i < |t.users| :: t.users[i].email == email)) ==> out.1 == Err(EmailTaken)
    ensures out.1.Ok? <==> forall i | 0 <= i < |t.users| :: t.users[i].username != username && t.users[i].email != email
    ensures out.1.Ok? ==>
      && out.0 == t.(users := t.users + [out.1.value], nextUserId := t.nextUserId + 1)
      && out.1.value == NewUser(t, username, email, password, displayName, now)
  {
    if FindByUsername(t.users, username).Some? then (t, Err(UsernameTaken))
    else if FindByEmail(t.users, email).Some? then (t, Err(EmailTaken))
    else
      var u := NewUser(t, username, email, password, displayName, now);
      (t.(users := t.users + [u], nextUserId := t.nextUserId + 1), Ok(u))
  }

  /** `register` keeps usernames and emails unique: the `UNIQUE` columns of `users` never clash. */
  lemma RegisterKeepsValid(t: Tables, username: string, email: string, password: string, displayName: string, now: int)
    requires ValidTables(t)
    ensures ValidTables(RegisterSpec(t, username, email, password, displayName, now).0)
  {
    var out := RegisterSpec(t, username, email, password, displayName, now);
    if out.1.Ok? {
      var u := out.1.value;
      InsertKeepsTable(t.users, UserId, t.nextUserId, u);
      AppendKeepsUnique(t.users, Username, u);
      AppendKeepsUnique(t.users, UserEmail, u);
    }
  }

  /** A new account starts with no reputation, no profile extras, no login, active, and verifies its password. */
  lemma RegisteredUserFields(t: Tables, username: string, email: string, password: string, displayName: string, now: int)
    ensures var out := RegisterSpec(t, username, email, password, displayName, now);
      out.1.Ok? ==>
        var u := out.1.value;
        && u.reputation == 0 && u.bio.None? && u.lastLogin.None? && u.avatarUrl.None? && u.isActive == 1
        && (u.username, u.email, u.displayName) == (username, email, displayName)
        && (forall p :: Verify(p, u.passwordHash) <==> p == password)
  {
    var out := RegisterSpec(t, username, email, password, displayName, now);
    if out.1.Ok? {
      forall p ensures Verify(p, out.1.value.passwordHash) <==> p == password {
        VerifyHash(password, p);
      }
    }
  }

  /** Registering twice with the same username fails the second time and inserts nothing. */
  lemma RegisterTwiceRefused(t: Tables, username: string, email: string, email2: string, password: string,
                             displayName: string, now: int, later: int)
    ensures var first := RegisterSpec(t, username, email, password, displayName, now);
      first.1.Ok? ==>
        RegisterSpec(first.0, username, email2, password, displayName, later) == (first.0, Err(UsernameTaken))
  {
    var first := RegisterSpec(t, username, email, password, displayName, now);
    if first.1.Ok? {
      assert first.0.users[|t.users|].username == username;
    }
  }

  method Register(db: Database, username: string, email: string, password: string, displayName: string, now: int)
    returns (r: Result<User, string>)
    requires db.Valid()
    modifies db
    ensures db.Valid()
    ensures db.T() == RegisterSpec(old(db.T()), username, email, password, displayName, now).0
    ensures r == RegisterSpec(old(db.T()), username, email, password, displayName, now).1
  {
    RegisterKeepsValid(db.T(), username, email, password, displayName, now);
    if FindByUsername(db.users, username).Some? {
      return Err(UsernameTaken);
    }
    if FindByEmail(db.users, email).Some? {
      return Err(EmailTaken);
    }
    var user := NewUser(db.T(), username, email, password, displayName, now);
    db.WriteUsers(db.users + [user], db.nextUserId + 1);
    r := Ok(user);
  }

  /** Rewriting one user without touching the id, username or email keeps the users table valid. */
  lemma RewriteUserKeepsUsers(t: Tables, k: nat, u: User)
    requires UsersValid(t) && k < |t.users|
    requires (u.id, u.username, u.email) == (t.users[k].id, t.users[k].username, t.users[k].email)
    ensures UsersValid(t.(users := t.users[k := u]))
  {
    var r := t.users[k := u];
    SameKeysKeepUnique(t.users, r, UserId);
    SameKeysKeepUnique(t.users, r, Username);
    SameKeysKeepUnique(t.users, r, UserEmail);
  }

  /**
   * `login`: an unknown email, then a password the stored hash does not
   * verify, are refused; otherwise `last_login` is set to now.
   */
  function LoginSpec(t: Tables, email: string, password: string, now: int): (out: (Tables, Result<User, string>))
    ensures out.0 == t.(users := out.0.users)
    ensures out.1.Err? ==> out.0 == t
    ensures (forall i | 0 <= i < |t.users| :: t.users[i].email != email) <==> out.1 == Err(UserMissing)
    ensures out.1 == Err(WrongPassword) <==>
      exists i | 0 <= i < |t.users| :: t.users[i].email == email && !Verify(password, t.users[i].passwordHash)
                                     && forall j | 0 <= j < i :: t.users[j].email != email
  {
    match FindByEmail(t.users, email)
    case None => (t, Err(UserMissing))
    case Some(k) =>
      var u := t.users[k];
      if !Verify(password, u.passwordHash) then (t, Err(WrongPassword))
      else
        var u' := u.(lastLogin := Some(now));
        (t.(users := t.users[k := u']), Ok(u'))
  }

  /**
   * A successful login is the account with that email and the right
   * password; it sets that user's `last_login` and changes nothing else.
   */
  lemma LoginSetsOnlyLastLogin(t: Tables, email: string, password: string, now: int, k: nat)
    requires UsersValid(t) && k < |t.users| && t.users[k].email == email
    ensures var out := LoginSpec(t, email, password, now);
      && (out.1.Ok? <==> Verify(password, t.users[k].passwordHash))
      && (out.1.Ok? ==>
            && out.1.value == t.users[k].(lastLogin := Some(now))
            && out.0 == t.(users := t.users[k := out.1.value]))
  {
    FindKeyUnique(t.users, UserEmail, k);
  }

  lemma LoginKeepsValid(t: Tables, email: string, password: string, now: int)
    requires ValidTables(t)
    ensures ValidTables(LoginSpec(t, email, password, now).0)
  {
    var k := FindByEmail(t.users, email);
    if k.Some? {
      RewriteUserKeepsUsers(t, k.value, t.users[k.value].(lastLogin := Some(now)));
    }
  }

  method Login(db: Database, email: string, password: string, now: int) returns (r: Result<User, string>)
    requires db.Valid()
    modifies db
    ensures db.Valid()
    ensures db.T() == LoginSpec(old(db.T()), email, password, now).0
    ensures r == LoginSpec(old(db.T()), email, password, now).1
  {
    LoginKeepsValid(db.T(), email, password, now);
    var found := FindByEmail(db.users, email);
    if found.None? {
      return Err(UserMissing);
    }
    var user := db.users[found.value];
    if !Verify(password, user.passwordHash) {
      return Err(WrongPassword);
    }
    var updated := user.(lastLogin := Some(now));
    db.WriteUsers(db.users[found.value := updated], db.nextUserId);
    r := Ok(updated);
  }

  /** The fields an `UpdateProfileRequest` may carry; `None` leaves the stored value. */
  datatype ProfileUpdate = ProfileUpdate(displayName: Option<string>, bio: Option<string>, avatarUrl: Option<string>)

  /** The stored user with the fields the request carries. */
  function Apply(u: User, req: ProfileUpdate): (r: User)
    ensures r == u.(displayName := r.displayName, bio := r.bio, avatarUrl := r.avatarUrl)
    ensures r.displayName == if req.displayName.Some? then req.displayName.value else u.displayName
    ensures r.bio == if req.bio.Some? then req.bio else u.bio
    ensures r.avatarUrl == if req.avatarUrl.Some? then req.avatarUrl else u.avatarUrl
  {
    var u1 := if req.displayName.Some? then u.(displayName := req.displayName.value) else u;
    var u2 := if req.bio.Some? then u1.(bio := req.bio) else u1;
    if req.avatarUrl.Some? then u2.(avatarUrl := req.avatarUrl) else u2
  }

  /**
   * `update_profile`: a missing user is refused, then a blank display name;
   * otherwise the fields given are written and the rest kept.
   */
  function UpdateProfileSpec(t: Tables, userId: int, req: ProfileUpdate): (out: (Tables, Result<User, string>))
    ensures out.0 == t.(users := out.0.users)
    ensures out.1.Err? ==> out.0 == t
    ensures out.1 == Err(UserMissing) <==> forall i | 0 <= i < |t.users| :: t.users[i].id != userId
    ensures out.1 == Err(BlankDisplayName) <==>
      (exists i | 0 <= i < |t.users| :: t.users[i].id == userId)
      && req.displayName.Some? && IsBlank(Rust, req.displayName.value)
  {
    match FindUser(t.users, userId)
    case None => (t, Err(UserMissing))
    case Some(k) =>
      if req.displayName.Some? && Trim(Rust, req.displayName.value) == [] then (t, Err(BlankDisplayName))
      else
        var u := Apply(t.users[k], req);
        (t.(users := t.users[k := u]), Ok(u))
  }

  /**
   * A successful profile update rewrites only the user with that id, and
   * in it only the fields the request carries; with nothing in the request
   * the row is as it was.
   */
  lemma UpdateProfileFound(t: Tables, userId: int, req: ProfileUpdate, k: nat)
    requires UsersValid(t) && k < |t.users| && t.users[k].id == userId
    ensures var out := UpdateProfileSpec(t, userId, req);
      out.1.Ok? ==>
        && out.1.value == Apply(t.users[k], req)
        && out.0.users == t.users[k := out.1.value]
        && (req == ProfileUpdate(None, None, None) ==> out.0 == t)
  {
    FindKeyUnique(t.users, UserId, k);
  }

  lemma UpdateProfileKeepsValid(t: Tables, userId: int, req: ProfileUpdate)
    requires ValidTables(t)
    ensures ValidTables(UpdateProfileSpec(t, userId, req).0)
  {
    var k := FindUser(t.users, userId);
    if k.Some? {
      RewriteUserKeepsUsers(t, k.value, Apply(t.users[k.value], req));
    }
  }

  method UpdateProfile(db: Database, userId: int, req: ProfileUpdate) returns (r: Result<User, string>)
    requires db.Valid()
    modifies db
    ensures db.Valid()
    ensures db.T() == UpdateProfileSpec(old(db.T()), userId, req).0
    ensures r == UpdateProfileSpec(old(db.T()), userId, req).1
  {
    UpdateProfileKeepsValid(db.T(), userId, req);
    var found := FindUser(db.users, userId);
    if found.None? {
      return Err(UserMissing);
    }
    var user := db.users[found.value];
    if req.displayName.Some? {
      if Trim(Rust, req.displayName.value) == [] {
        return Err(BlankDisplayName);
      }
      user := user.(displayName := req.displayName.value);
    }
    if req.bio.Some? {
      user := user.(bio := req.bio);
    }
    if req.avatarUrl.Some? {
      user := user.(avatarUrl := req.avatarUrl);
    }
    db.WriteUsers(db.users[found.value := user], db.nextUserId);
    r := Ok(user);
  }

  /**
   * `change_password`: a missing user, then a wrong current password, then
   * a new password under 8 bytes, then a confirmation that differs, are
   * refused in that order; otherwise the hash of the new password is stored.
   */
  function ChangePasswordSpec(t: Tables, userId: int, current: string, newPassword: string, confirm: string)
    : (out: (Tables, Result<(), string>))
    ensures out.0 == t.(users := out.0.users)
    ensures out.1.Err? ==> out.0 == t
    ensures out.1 == Err(UserMissing) <==> forall i | 0 <= i < |t.users| :: t.users[i].id != userId
    ensures out.1.Ok? <==>
      exists i | 0 <= i < |t.users| :: t.users[i].id == userId && Verify(current, t.users[i].passwordHash)
                                     && (forall j | 0 <= j < i :: t.users[j].id != userId)
                                     && Utf8Len(newPassword) >= MinPasswordBytes && newPassword == confirm
  {
    match FindUser(t.users, userId)
    case None => (t, Err(UserMissing))
    case Some(k) =>
      var u := t.users[k];
      if !Verify(current, u.passwordHash) then (t, Err(WrongCurrentPassword))
      else if Utf8Len(newPassword) < MinPasswordBytes then (t, Err(NewPasswordTooShort))
      else if newPassword != confirm then (t, Err(ConfirmationDiffers))
      else (t.(users := t.users[k := u.(passwordHash := Hash(newPassword))]), Ok(()))
  }

  /**
   * Which check wins for the user with that id: the current password, then
   * the length of the new one, then the confirmation. On success only that
   * user's `password_hash` changes, and afterwards it verifies the new
   * password and no other.
   */
  lemma ChangePasswordOrder(t: Tables, userId: int, current: string, newPassword: string, confirm: string, k: nat)
    requires UsersValid(t) && k < |t.users| && t.users[k].id == userId
    ensures var out := ChangePasswordSpec(t, userId, current, newPassword, confirm);
      && (!Verify(current, t.users[k].passwordHash) ==> out.1 == Err(WrongCurrentPassword))
      && (Verify(current, t.users[k].passwordHash) && Utf8Len(newPassword) < MinPasswordBytes ==>
            out.1 == Err(NewPasswordTooShort))
      && (Verify(current, t.users[k].passwordHash) && Utf8Len(newPassword) >= MinPasswordBytes && newPassword != confirm ==>
            out.1 == Err(ConfirmationDiffers))
      && (out.1.Ok? ==>
            && out.0.users == t.users[k := t.users[k].(passwordHash := out.0.users[k].passwordHash)]
            && forall p :: Verify(p, out.0.users[k].passwordHash) <==> p == newPassword)
  {
    FindKeyUnique(t.users, UserId, k);
    forall p ensures Verify(p, Hash(newPassword)) <==> p == newPassword {
      VerifyHash(newPassword, p);
    }
  }

  lemma ChangePasswordKeepsValid(t: Tables, userId: int, current: string, newPassword: string, confirm: string)
    requires ValidTables(t)
    ensures ValidTables(ChangePasswordSpec(t, userId, current, newPassword, confirm).0)
  {
    var k := FindUser(t.users, userId);
    if k.Some? {
      RewriteUserKeepsUsers(t, k.value, t.users[k.value].(passwordHash := Hash(newPassword)));
    }
  }

  method ChangePassword(db: Database, userId: int, current: string, newPassword: string, confirm: string)
    returns (r: Result<(), string>)
    requires db.Valid()
    modifies db
    ensures db.Valid()
    ensures db.T() == ChangePasswordSpec(old(db.T()), userId, current, newPassword, confirm).0
    ensures r == ChangePasswordSpec(old(db.T()), userId, current, newPassword, confirm).1
  {
    ChangePasswordKeepsValid(db.T(), userId, current, newPassword, confirm);
    var found := FindUser(db.users, userId);
    if found.None? {
      return Err(UserMissing);
    }
    var user := db.users[found.value];
    if !Verify(current, user.passwordHash) {
      return Err(WrongCurrentPassword);
    }
    if Utf8Len(newPassword) < MinPasswordBytes {
      return Err(NewPasswordTooShort);
    }
    if newPassword != confirm {
      return Err(ConfirmationDiffers);
    }
    db.WriteUsers(db.users[found.value := user.(passwordHash := Hash(newPassword))], db.nextUserId);
    r := Ok(());
  }

  /** The public view of a user the commands return. */
  datatype UserResponse = UserResponse(
    id: int, username: string, email: string, displayName: string, bio: Option<string>,
    reputation: int, avatarUrl: Option<string>, createdAt: int)

  /** `model_to_response`: the public fields of the row. */
  function ModelToResponse(u: User): (r: UserResponse)
    ensures (r.id, r.username, r.email, r.displayName) == (u.id, u.username, u.email, u.displayName)
    ensures (r.bio, r.reputation, r.avatarUrl, r.createdAt) == (u.bio, u.reputation, u.avatarUrl, u.createdAt)
  {
    UserResponse(u.id, u.username, u.email, u.displayName, u.bio, u.reputation, u.avatarUrl, u.createdAt)
  }

  /**
   * The response does not expose the password hash, the last login or the
   * active flag: users that differ only there look the same.
   */
  lemma ResponseOmitsSecrets(u: User, h: PasswordHash, lastLogin: Option<int>, isActive: int)
    ensures ModelToResponse(u.(passwordHash := h, lastLogin := lastLogin, isActive := isActive)) == ModelToResponse(u)
  {
  }
}
