/**
 * `src/services/user-service.ts`: the one session object of the client. It
 * holds the signed-in user and the token, mirrors both into two keys of the
 * browser's local storage, and restores them from there when it is built.
 * The backend call (`invoke`) is an outcome the caller supplies: the answer
 * of the backend, or the error it threw.
 */
module UserService {
  import opened Wrappers

  /** The user record the client keeps (the `User` interface). */
  datatype SessionUser = SessionUser(
    id: int, username: string, email: string, displayName: string, bio: Option<string>,
    reputation: int, avatarUrl: Option<string>, createdAt: string, lastLogin: Option<string>, isActive: int)

  /** What `login` and `register` answer with. */
  datatype AuthResponse = AuthResponse(user: SessionUser, token: string)

  /**
   * A value in local storage: plain text, or the text `JSON.stringify` makes
   * of a user, which `JSON.parse` reads back as that user.
   */
  datatype StoredValue = Text(text: string) | UserJson(user: SessionUser)

  const UserKey := "currentUser"
  const TokenKey := "token"

  /** A stored value JavaScript treats as true: present and not the empty string. */
  predicate Truthy(v: Option<StoredValue>) {
    v.Some? && v.value != Text("")
  }

  function Get(storage: map<string, StoredValue>, key: string): Option<StoredValue> {
    if key in storage then Some(storage[key]) else None
  }

  /**
   * The storage holds a user's JSON under "currentUser" and text under
   * "token", whenever they hold anything JavaScript treats as true.
   */
  predicate WellFormed(storage: map<string, StoredValue>) {
    && (Truthy(Get(storage, UserKey)) ==> storage[UserKey].UserJson?)
    && (TokenKey in storage ==> storage[TokenKey].Text?)
  }

  /**
   * The session the constructor restores: the stored user and token when
   * both are present and non-empty, and no session otherwise.
   */
  function Restored(storage: map<string, StoredValue>): (s: (Option<SessionUser>, Option<string>))
    requires WellFormed(storage)
    ensures s.0.None? <==> s.1.None?
    ensures s.0.Some? <==> Truthy(Get(storage, UserKey)) && Truthy(Get(storage, TokenKey))
    ensures s.0.Some? ==> storage[UserKey] == UserJson(s.0.value) && storage[TokenKey] == Text(s.1.value)
  {
    if Truthy(Get(storage, UserKey)) && Truthy(Get(storage, TokenKey)) then
      (Some(storage[UserKey].user), Some(storage[TokenKey].text))
    else (None, None)
  }

  /** The error `invoke` threw: its `message`, when it has one. */
  datatype InvokeError = InvokeError(message: Option<string>)

  /**
   * What a call of `userService.setUser(...)` throws. `UserService` has no
   * `setUser` (it stores a user only through the private `setUserAndToken`),
   * so the property is `undefined` and calling it raises a `TypeError`;
   * the message is the one V8 gives.
   */
  const SetUserMissing := InvokeError(Some("userService.setUser is not a function"))

  /** `error.message || fallback`: the message, unless it is missing or empty. */
  function Rethrown(e: InvokeError, fallback: string): (m: string)
    ensures e.message.Some? && e.message.value != "" ==> m == e.message.value
    ensures e.message.None? || e.message.value == "" ==> m == fallback
  {
    if e.message.Some? && e.message.value != "" then e.message.value else fallback
  }

  /** The storage after `setUserAndToken` wrote the response. */
  function WithSession(storage: map<string, StoredValue>, response: AuthResponse): (r: map<string, StoredValue>)
    ensures r.Keys == storage.Keys + {UserKey, TokenKey}
    ensures r[UserKey] == UserJson(response.user) && r[TokenKey] == Text(response.token)
    ensures forall k | k in storage && k != UserKey && k != TokenKey :: r[k] == storage[k]
  {
    storage[UserKey := UserJson(response.user)][TokenKey := Text(response.token)]
  }

  /** The storage after `logout`: the two session keys are gone, every other key stays. */
  function WithoutSession(storage: map<string, StoredValue>): (r: map<string, StoredValue>)
    ensures r.Keys == storage.Keys - {UserKey, TokenKey}
    ensures forall k | k in r :: r[k] == storage[k]
  {
    storage - {UserKey, TokenKey}
  }

  /** What a write then a restore gives back: the session that was written. */
  lemma RestoreAfterWrite(storage: map<string, StoredValue>, response: AuthResponse)
    requires WellFormed(storage)
    ensures WellFormed(WithSession(storage, response))
    ensures response.token != "" ==>
      Restored(WithSession(storage, response)) == (Some(response.user), Some(response.token))
  {
  }

  /** After a logout nothing is restored. */
  lemma RestoreAfterLogout(storage: map<string, StoredValue>)
    requires WellFormed(storage)
    ensures WellFormed(WithoutSession(storage))
    ensures Restored(WithoutSession(storage)) == (None, None)
  {
  }

  class UserService {
    var currentUser: Option<SessionUser>
    var token: Option<string>
    /** The browser's local storage, as far as this object reads and writes it. */
    var storage: map<string, StoredValue>

    /** A user is signed in exactly when there is a token. */
    ghost predicate Valid()
      reads this
    {
      currentUser.None? <==> token.None?
    }

    /** The constructor: the session stored by an earlier run, if both keys hold one. */
    constructor (stored: map<string, StoredValue>)
      requires WellFormed(stored)
      ensures Valid()
      ensures (currentUser, token) == Restored(stored)
      ensures storage == stored
    {
      storage := stored;
      var restored := Restored(stored);
      currentUser, token := restored.0, restored.1;
    }

    /** `isAuthenticated`: `!!token`, so an empty token does not count. */
    function IsAuthenticated(): bool
      reads this
    {
      token.Some? && token.value != ""
    }

    /** `getUser`. */
    function GetUser(): Option<SessionUser>
      reads this
    {
      currentUser
    }

    /** `getToken`. */
    function GetToken(): Option<string>
      reads this
    {
      token
    }

    method SetUserAndToken(response: AuthResponse)
      modifies this
      ensures Valid()
      ensures currentUser == Some(response.user) && token == Some(response.token)
      ensures storage == WithSession(old(storage), response)
    {
      currentUser := Some(response.user);
      token := Some(response.token);
      storage := storage[UserKey := UserJson(response.user)];
      storage := storage[TokenKey := Text(response.token)];
    }

    /**
     * `login`: the backend's answer becomes the session, in memory and in
     * storage; an error is rethrown with the session as it was.
     */
    method Login(outcome: Result<AuthResponse, InvokeError>) returns (r: Result<SessionUser, string>)
      requires Valid()
      modifies this
      ensures Valid()
      ensures outcome.Ok? ==>
        && r == Ok(outcome.value.user)
        && currentUser == Some(outcome.value.user) && token == Some(outcome.value.token)
        && storage == WithSession(old(storage), outcome.value)
      ensures outcome.Err? ==>
        && r == Err(Rethrown(outcome.error, "Login failed"))
        && currentUser == old(currentUser) && token == old(token) && storage == old(storage)
    {
      if outcome.Err? {
        return Err(Rethrown(outcome.error, "Login failed"));
      }
      SetUserAndToken(outcome.value);
      r := Ok(outcome.value.user);
    }

    /** `register`: as `login`, with its own fallback message. */
    method Register(outcome: Result<AuthResponse, InvokeError>) returns (r: Result<SessionUser, string>)
      requires Valid()
      modifies this
      ensures Valid()
      ensures outcome.Ok? ==>
        && r == Ok(outcome.value.user)
        && currentUser == Some(outcome.value.user) && token == Some(outcome.value.token)
        && storage == WithSession(old(storage), outcome.value)
      ensures outcome.Err? ==>
        && r == Err(Rethrown(outcome.error, "Registration failed"))
        && currentUser == old(currentUser) && token == old(token) && storage == old(storage)
    {
      if outcome.Err? {
        return Err(Rethrown(outcome.error, "Registration failed"));
      }
      SetUserAndToken(outcome.value);
      r := Ok(outcome.value.user);
    }

    /** `logout`: no session in memory, and the two session keys removed from storage. */
    method Logout()
      modifies this
      ensures Valid()
      ensures currentUser.None? && token.None?
      ensures storage == WithoutSession(old(storage))
    {
      currentUser := None;
      token := None;
      storage := storage - {UserKey, TokenKey};
    }

    /**
     * `getCurrentUser`: without a user or a non-empty token the backend is
     * not asked (`asked` is false) and nothing changes. Otherwise the
     * backend's user replaces the one in memory only, and a backend error
     * logs out.
     */
    method GetCurrentUser(outcome: Result<SessionUser, InvokeError>) returns (r: Option<SessionUser>, asked: bool)
      requires Valid()
      modifies this
      ensures Valid()
      ensures asked <==> old(currentUser).Some? && old(IsAuthenticated())
      ensures !asked ==> r.None? && currentUser == old(currentUser) && token == old(token) && storage == old(storage)
      ensures asked && outcome.Ok? ==>
        r == Some(outcome.value) && currentUser == r && token == old(token) && storage == old(storage)
      ensures asked && outcome.Err? ==>
        r.None? && currentUser.None? && token.None? && storage == WithoutSession(old(storage))
    {
      if currentUser.None? || token.None? || token.value == "" {
        return None, false;
      }
      asked := true;
      if outcome.Err? {
        Logout();
        return None, asked;
      }
      currentUser := Some(outcome.value);
      r := Some(outcome.value);
    }
  }

  /** Under the session invariant, an authenticated session has a user. */
  lemma AuthenticatedHasUser(s: UserService)
    requires s.Valid() && s.IsAuthenticated()
    ensures s.GetUser().Some? && s.GetToken() == s.token
  {
  }
}
