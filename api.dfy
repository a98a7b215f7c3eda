/**
 * The account handlers of src/index.ts: register, change-password and logout, and
 * the bearer-token and expiry guard in front of the skin routes. As in Auth, each
 * handler is a function of the store state, and the handlers that write are also
 * Store methods proved to agree with it. Randomness (ids, salts) and the clock are
 * parameters. Errors keep their kind and the reason behind it; the human-readable
 * Spanish messages and the HTTP status codes are left out.
 */
module Api {
  import opened Types
  import opened Database
  import MemoryStore
  import Bcrypt

  datatype UnauthorizedReason = TokenRequired | TokenInvalid | TokenExpired

  datatype PasswordProblem = TooShort | Incorrect

  datatype ApiError =
    | MissingFields
    | UserExists
    | Unauthorized(reason: UnauthorizedReason)
    | InvalidPassword(problem: PasswordProblem)
    | NotFound

  datatype ApiResult<T> = Ok(value: T) | Err(error: ApiError)

  const BearerPrefix := "Bearer "

  /** The shortest new password change-password accepts. */
  const MinPasswordLength := 6

  /** `authHeader.startsWith('Bearer ') ? authHeader.substring(7) : <401>`. */
  function BearerToken(header: Option<string>): (token: Option<Token>)
    ensures token.Some? <==> header.Some? && |header.value| >= 7 && header.value[..7] == BearerPrefix
    ensures token.Some? ==> header.value == BearerPrefix + token.value
  {
    if header.Some? && |header.value| >= 7 && header.value[..7] == BearerPrefix then Some(header.value[7..]) else None
  }

  lemma BearerTokenRoundTrip(token: Token)
    ensures BearerToken(Some(BearerPrefix + token)) == Some(token)
  {
    assert (BearerPrefix + token)[..7] == BearerPrefix;
    assert (BearerPrefix + token)[7..] == token;
  }

  // ---------------------------------------------------------------------------
  // POST /api/register

  function RegisterSpec(db: Db, username: Option<string>, email: Option<string>, password: Option<string>,
                        profileName: Option<string>, userId: UserId, profileId: ProfileId, salt: nat,
                        now: Millis): (r: (ApiResult<UserId>, Db))
    ensures r.0.Err? ==> r.1 == db
    ensures r.0.Ok? ==> && r.0.value == userId
                        && r.1.users.Keys == db.users.Keys + {userId} && r.1.profiles.Keys == db.profiles.Keys + {profileId}
                        && r.1 == db.(users := r.1.users, userOrder := r.1.userOrder,
                                      profiles := r.1.profiles, userProfiles := r.1.userProfiles)
  {
    if !Truthy(username) || !Truthy(email) || !Truthy(password) || !Truthy(profileName) then (Err(MissingFields), db)
    else if FindUser(db, username.value).Some? || FindUser(db, email.value).Some? then (Err(UserExists), db)
    else
      var user := NewUser(userId, username.value, email.value, Bcrypt.HashPassword(password.value, salt), now);
      var withUser := AddUser(db, user);
      (Ok(userId), AddProfile(withUser, NewProfile(profileId, userId, profileName.value, now)))
  }

  /** The fresh user id and profile id are the uuid oracle's answers: keys not yet in use. */
  method Register(store: MemoryStore.Store, username: Option<string>, email: Option<string>, password: Option<string>,
                  profileName: Option<string>, userId: UserId, profileId: ProfileId, salt: nat, now: Millis)
    returns (r: ApiResult<UserId>)
    requires store.Valid() && userId !in store.users && profileId !in store.profiles
    modifies store
    ensures store.Valid()
    ensures (r, store.State()) == RegisterSpec(old(store.State()), username, email, password, profileName,
                                               userId, profileId, salt, now)
  {
    if !Truthy(username) || !Truthy(email) || !Truthy(password) || !Truthy(profileName) {
      return Err(MissingFields);
    }
    var existing := store.FindUserByEmailOrUsername(username.value);
    if existing.None? {
      existing := store.FindUserByEmailOrUsername(email.value);
    }
    if existing.Some? {
      return Err(UserExists);
    }
    var user := store.CreateUser(username.value, email.value, password.value, userId, salt, now);
    var _ := store.CreateProfile(user.id, profileName.value, profileId, now);
    return Ok(user.id);
  }

  // ---------------------------------------------------------------------------
  // POST /api/user/change-password

  function ChangePasswordSpec(db: Db, header: Option<string>, currentPassword: Option<string>,
                              newPassword: Option<string>, salt: nat): (r: (ApiResult<()>, Db))
    ensures r.0.Err? ==> r.1 == db
    ensures r.0.Ok? ==> && BearerToken(header).Some? && BearerToken(header).value in db.sessions
                        && Truthy(newPassword) && |newPassword.value| >= MinPasswordLength
                        && r.1.users.Keys == db.users.Keys && r.1 == db.(users := r.1.users)
  {
    var token := BearerToken(header);
    if token.None? then (Err(Unauthorized(TokenRequired)), db)
    else if !Truthy(currentPassword) || !Truthy(newPassword) then (Err(MissingFields), db)
    else if |newPassword.value| < MinPasswordLength then (Err(InvalidPassword(TooShort)), db)
    else
      var session := FindSession(db, token.value);
      if session.None? then (Err(Unauthorized(TokenInvalid)), db)
      else
        var user := FindUserById(db, session.value.userId);
        if user.None? then (Err(NotFound), db)
        else if !Bcrypt.Compare(currentPassword.value, user.value.passwordHash) then (Err(InvalidPassword(Incorrect)), db)
        else (Ok(()), SetPasswordHash(db, user.value.id, Bcrypt.HashPassword(newPassword.value, salt)))
  }

  method ChangePassword(store: MemoryStore.Store, header: Option<string>, currentPassword: Option<string>,
                        newPassword: Option<string>, salt: nat)
    returns (r: ApiResult<()>)
    requires store.Valid()
    modifies store
    ensures store.Valid()
    ensures (r, store.State()) == ChangePasswordSpec(old(store.State()), header, currentPassword, newPassword, salt)
  {
    var token := BearerToken(header);
    if token.None? {
      return Err(Unauthorized(TokenRequired));
    }
    if !Truthy(currentPassword) || !Truthy(newPassword) {
      return Err(MissingFields);
    }
    if |newPassword.value| < MinPasswordLength {
      return Err(InvalidPassword(TooShort));
    }
    var session := FindSession(store.State(), token.value);
    if session.None? {
      return Err(Unauthorized(TokenInvalid));
    }
    var user := FindUserById(store.State(), session.value.userId);
    if user.None? {
      return Err(NotFound);
    }
    if !Bcrypt.Compare(currentPassword.value, user.value.passwordHash) {
      return Err(InvalidPassword(Incorrect));
    }
    store.UpdateUserPassword(user.value.id, Bcrypt.HashPassword(newPassword.value, salt));
    return Ok(());
  }

  // ---------------------------------------------------------------------------
  // POST /api/user/logout

  function LogoutSpec(db: Db, header: Option<string>): (r: (ApiResult<()>, Db))
    ensures r.0.Ok? <==> BearerToken(header).Some?
    ensures r.0.Ok? ==> BearerToken(header).value !in r.1.sessions
    ensures r.1.sessions.Keys <= db.sessions.Keys && r.1 == db.(sessions := r.1.sessions)
  {
    var token := BearerToken(header);
    if token.None? then (Err(Unauthorized(TokenRequired)), db)
    else (Ok(()), RemoveSession(db, token.value))
  }

  method Logout(store: MemoryStore.Store, header: Option<string>) returns (r: ApiResult<()>)
    requires store.Valid()
    modifies store
    ensures store.Valid()
    ensures (r, store.State()) == LogoutSpec(old(store.State()), header)
  {
    var token := BearerToken(header);
    if token.None? {
      return Err(Unauthorized(TokenRequired));
    }
    store.DeleteSession(token.value);
    return Ok(());
  }

  // ---------------------------------------------------------------------------
  // The skin routes: GET /api/user/skins, GET and PUT /api/user/skin/active

  /** The guard the three skin routes share: a bearer token naming a stored session that has not expired. */
  function SkinRouteSession(db: Db, header: Option<string>, now: Millis): (r: ApiResult<Session>)
    ensures r.Err? ==> r.error.Unauthorized?
    ensures r.Ok? <==> && BearerToken(header).Some? && BearerToken(header).value in db.sessions
                       && !(db.sessions[BearerToken(header).value].expiresAt < now)
    ensures r.Ok? ==> r.value == db.sessions[BearerToken(header).value]
  {
    var token := BearerToken(header);
    if token.None? then Err(Unauthorized(TokenRequired))
    else
      var session := FindSession(db, token.value);
      if session.None? then Err(Unauthorized(TokenInvalid))
      else if session.value.expiresAt < now then Err(Unauthorized(TokenExpired))
      else Ok(session.value)
  }

  /** GET /api/user/skins: the caller's skins. */
  function GetSkinsRoute(db: Db, header: Option<string>, now: Millis): (r: ApiResult<seq<Skin>>)
    ensures r.Ok? <==> SkinRouteSession(db, header, now).Ok?
    ensures r.Err? ==> r.error.Unauthorized?
  {
    var guard := SkinRouteSession(db, header, now);
    if guard.Err? then Err(guard.error) else Ok(TexturesOf(db.userSkins, guard.value.userId))
  }

  /** GET /api/user/skin/active: the caller's active skin url, if any. */
  function GetActiveSkinRoute(db: Db, header: Option<string>, now: Millis): (r: ApiResult<Option<string>>)
    ensures r.Ok? <==> SkinRouteSession(db, header, now).Ok?
    ensures r.Err? ==> r.error.Unauthorized?
    ensures r.Ok? && r.value.Some? ==> r.value.value != ""
  {
    var guard := SkinRouteSession(db, header, now);
    if guard.Err? then Err(guard.error) else Ok(ActiveUrl(db.userActiveSkin, guard.value.userId))
  }

  /** PUT /api/user/skin/active: sets the caller's active skin url and echoes it. */
  function PutActiveSkinSpec(db: Db, header: Option<string>, skinUrl: Option<string>, now: Millis): (r: (ApiResult<string>, Db))
    ensures r.0.Err? ==> r.1 == db
    ensures r.0.Ok? ==> && SkinRouteSession(db, header, now).Ok? && Truthy(skinUrl) && r.0.value == skinUrl.value
                        && r.1 == db.(userActiveSkin := r.1.userActiveSkin)
  {
    var guard := SkinRouteSession(db, header, now);
    if guard.Err? then (Err(guard.error), db)
    else if !Truthy(skinUrl) then (Err(MissingFields), db)
    else (Ok(skinUrl.value), db.(userActiveSkin := db.userActiveSkin[guard.value.userId := skinUrl.value]))
  }

  method PutActiveSkin(store: MemoryStore.Store, header: Option<string>, skinUrl: Option<string>, now: Millis)
    returns (r: ApiResult<string>)
    requires store.Valid()
    modifies store
    ensures store.Valid()
    ensures (r, store.State()) == PutActiveSkinSpec(old(store.State()), header, skinUrl, now)
  {
    var guard := SkinRouteSession(store.State(), header, now);
    if guard.Err? {
      return Err(guard.error);
    }
    if !Truthy(skinUrl) {
      return Err(MissingFields);
    }
    var _ := store.SetUserActiveSkin(guard.value.userId, skinUrl.value);
    return Ok(skinUrl.value);
  }
}
