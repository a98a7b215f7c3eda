/**
 * The Yggdrasil authenticate, refresh and validate handlers of src/routes/auth.ts.
 * Each handler is a pure function from the store state and the request to the
 * result and the next state, and a method on the Store that performs the same
 * checks and updates in the source's order and is proved to agree with it. The
 * clock, the freshly generated tokens and the configured token lifetime
 * (ACCESS_TOKEN_EXPIRY, in seconds) are parameters.
 */
module Auth {
  import opened Types
  import opened Database
  import MemoryStore
  import Bcrypt

  datatype ErrorKind = IllegalArgumentException | ForbiddenOperationException

  datatype AuthError = AuthError(error: ErrorKind, errorMessage: string)

  datatype Result<T> = Ok(value: T) | Err(err: AuthError)

  const CredentialsNull := AuthError(IllegalArgumentException, "Credentials can not be null.")
  const InvalidAgent := AuthError(IllegalArgumentException, "Invalid agent.")
  const InvalidCredentials := AuthError(ForbiddenOperationException, "Invalid credentials. Invalid username or password.")
  const NoProfilesForUser := AuthError(ForbiddenOperationException, "No profiles available for this user.")
  const TokensRequired := AuthError(IllegalArgumentException, "Access token and client token are required.")
  const InvalidToken := AuthError(ForbiddenOperationException, "Invalid token.")
  const TokenExpired := AuthError(ForbiddenOperationException, "Token expired.")
  const UserNotFound := AuthError(ForbiddenOperationException, "User not found.")
  const NoProfiles := AuthError(ForbiddenOperationException, "No profiles available.")

  datatype Agent = Agent(name: string, version: int)

  datatype AuthenticateRequest = AuthenticateRequest(
    agent: Option<Agent>, username: Option<string>, password: Option<string>,
    clientToken: Option<string>, requestUser: bool)

  /** A refresh request; the requested profile object is reduced to its id. */
  datatype RefreshRequest = RefreshRequest(
    accessToken: Option<string>, clientToken: Option<string>,
    selectedProfile: Option<ProfileId>, requestUser: bool)

  datatype ValidateRequest = ValidateRequest(accessToken: Option<string>, clientToken: Option<string>)

  datatype ProfileRef = ProfileRef(id: ProfileId, name: string)

  /** The `user` member of a response; its `properties` list is always empty and is left out. */
  datatype UserRef = UserRef(id: UserId, username: string)

  datatype AuthenticateResponse = AuthenticateResponse(
    accessToken: Token, clientToken: Token, selectedProfile: ProfileRef,
    availableProfiles: seq<ProfileRef>, user: Option<UserRef>)

  datatype RefreshResponse = RefreshResponse(
    accessToken: Token, clientToken: Token, selectedProfile: ProfileRef, user: Option<UserRef>)

  predicate SupportedAgent(agent: Option<Agent>) {
    agent.Some? && agent.value.name == "Minecraft" && agent.value.version == 1
  }

  function RefOf(p: Profile): ProfileRef {
    ProfileRef(p.id, p.name)
  }

  /** `profiles.map(p => ({ id: p.id, name: p.name }))`. */
  function Refs(profiles: seq<Profile>): (r: seq<ProfileRef>)
    ensures |r| == |profiles|
    ensures forall i | 0 <= i < |profiles| :: r[i] == RefOf(profiles[i])
  {
    if profiles == [] then [] else [RefOf(profiles[0])] + Refs(profiles[1..])
  }

  function UserRefIf(requestUser: bool, u: User): (r: Option<UserRef>)
    ensures r.Some? <==> requestUser
    ensures r.Some? ==> r.value == UserRef(u.id, u.username)
  {
    if requestUser then Some(UserRef(u.id, u.username)) else None
  }

  /** `profiles.find(p => p.id === id)`. */
  function FindProfile(profiles: seq<Profile>, id: ProfileId): (r: Option<Profile>)
    ensures r.Some? ==> r.value in profiles && r.value.id == id
    ensures r.None? <==> forall i | 0 <= i < |profiles| :: profiles[i].id != id
    ensures r.Some? ==> exists k :: 0 <= k < |profiles| && profiles[k] == r.value
                                    && forall j | 0 <= j < k :: profiles[j].id != id
  {
    if profiles == [] then None
    else if profiles[0].id == id then Some(profiles[0])
    else
      var r := FindProfile(profiles[1..], id);
      assert r.Some? ==> exists k :: 0 <= k < |profiles| && profiles[k] == r.value
                                    && forall j | 0 <= j < k :: profiles[j].id != id by {
        if r.Some? {
          var k :| 0 <= k < |profiles[1..]| && profiles[1..][k] == r.value
                   && forall j | 0 <= j < k :: profiles[1..][j].id != id;
          assert profiles[k + 1] == r.value;
          forall j | 0 <= j < k + 1 ensures profiles[j].id != id {
            if j > 0 { assert profiles[j] == profiles[1..][j - 1]; }
          }
        }
      }
      assert r.None? <==> forall i | 0 <= i < |profiles| :: profiles[i].id != id by {
        if r.None? {
          forall i | 0 <= i < |profiles| ensures profiles[i].id != id {
            if i > 0 { assert profiles[i] == profiles[1..][i - 1]; }
          }
        }
      }
      r
  }

  /**
   * The profile refresh puts in the response: the requested one when the user owns a
   * profile with that id, the first profile otherwise.
   */
  function SelectProfile(profiles: seq<Profile>, requested: Option<ProfileId>): (p: Profile)
    requires |profiles| > 0
    ensures p in profiles
    ensures (requested.Some? && exists i :: 0 <= i < |profiles| && profiles[i].id == requested.value)
            ==> p.id == requested.value
    ensures (requested.None? || forall i | 0 <= i < |profiles| :: profiles[i].id != requested.value)
            ==> p == profiles[0]
  {
    if requested.Some? && FindProfile(profiles, requested.value).Some? then FindProfile(profiles, requested.value).value
    else profiles[0]
  }

  // ---------------------------------------------------------------------------
  // The handlers as functions of the store state

  function AuthenticateSpec(db: Db, req: AuthenticateRequest, now: Millis, accessToken: Token,
                            mintedClientToken: Token, expiresIn: int): (r: (Result<AuthenticateResponse>, Db))
    ensures r.0.Err? ==> r.1 == db
    ensures r.0.Ok? ==> && r.0.value.accessToken == accessToken
                        && r.1.sessions.Keys == db.sessions.Keys + {accessToken}
                        && r.1 == db.(sessions := r.1.sessions, users := r.1.users)
  {
    if !Truthy(req.username) || !Truthy(req.password) then (Err(CredentialsNull), db)
    else if !SupportedAgent(req.agent) then (Err(InvalidAgent), db)
    else
      var found := FindUser(db, req.username.value);
      if found.None? then (Err(InvalidCredentials), db)
      else
        var user := found.value;
        if !Bcrypt.Compare(req.password.value, user.passwordHash) then (Err(InvalidCredentials), db)
        else SignInSpec(db, user, req, now, accessToken, mintedClientToken, expiresIn)
  }

  /** What authenticate does once the credentials are accepted. */
  function SignInSpec(db: Db, user: User, req: AuthenticateRequest, now: Millis, accessToken: Token,
                      mintedClientToken: Token, expiresIn: int): (r: (Result<AuthenticateResponse>, Db))
    ensures r.0.Err? ==> r.0 == Err(NoProfilesForUser) && r.1 == db
    ensures r.0.Ok? ==> && r.0.value.accessToken == accessToken
                        && r.1.sessions.Keys == db.sessions.Keys + {accessToken}
                        && r.1 == db.(sessions := r.1.sessions, users := r.1.users)
  {
    var clientToken := if Truthy(req.clientToken) then req.clientToken.value else mintedClientToken;
    var profiles := UserProfiles(db, user.id);
    if |profiles| == 0 then (Err(NoProfilesForUser), db)
    else
      var session := MakeSession(user.id, user.username, accessToken, clientToken, now, expiresIn);
      var response := AuthenticateResponse(accessToken, clientToken, RefOf(profiles[0]), Refs(profiles),
                                           UserRefIf(req.requestUser, user));
      (Ok(response), SetLastLogin(PutSession(db, session), user.id, now))
  }

  function RefreshSpec(db: Db, req: RefreshRequest, now: Millis, newAccessToken: Token,
                       expiresIn: int): (r: (Result<RefreshResponse>, Db))
    ensures r.0.Err? && r.0.err != TokenExpired ==> r.1 == db
    ensures r.0 == Err(TokenExpired) ==> req.accessToken.Some? && r.1 == RemoveSession(db, req.accessToken.value)
    ensures r.0.Ok? ==> && req.accessToken.Some? && req.clientToken.Some?
                        && r.0.value.accessToken == newAccessToken && r.0.value.clientToken == req.clientToken.value
                        && r.1.sessions.Keys == db.sessions.Keys - {req.accessToken.value} + {newAccessToken}
                        && r.1 == db.(sessions := r.1.sessions)
  {
    if !Truthy(req.accessToken) || !Truthy(req.clientToken) then (Err(TokensRequired), db)
    else
      var accessToken, clientToken := req.accessToken.value, req.clientToken.value;
      var found := FindSession(db, accessToken);
      if found.None? then (Err(InvalidToken), db)
      else
        var session := found.value;
        if session.clientToken != clientToken then (Err(InvalidToken), db)
        else if session.expiresAt < now then (Err(TokenExpired), RemoveSession(db, accessToken))
        else
          var owner := FindUserById(db, session.userId);
          if owner.None? then (Err(UserNotFound), db)
          else
            var user := owner.value;
            var profiles := UserProfiles(db, user.id);
            if |profiles| == 0 then (Err(NoProfiles), db)
            else
              var selected := SelectProfile(profiles, req.selectedProfile);
              var renewed := MakeSession(user.id, user.username, newAccessToken, clientToken, now, expiresIn);
              var response := RefreshResponse(newAccessToken, clientToken, RefOf(selected),
                                              UserRefIf(req.requestUser, user));
              (Ok(response), PutSession(RemoveSession(db, accessToken), renewed))
  }

  /** Validate answers no content (`Ok`) or an error; a missing token counts as valid. */
  function ValidateSpec(db: Db, req: ValidateRequest, now: Millis): (r: (Result<()>, Db))
    ensures r.0 != Err(TokenExpired) ==> r.1 == db
    ensures r.0 == Err(TokenExpired) ==> req.accessToken.Some? && r.1 == RemoveSession(db, req.accessToken.value)
  {
    if !Truthy(req.accessToken) then (Ok(()), db)
    else
      var accessToken := req.accessToken.value;
      var found := FindSession(db, accessToken);
      if found.None? then (Err(InvalidToken), db)
      else
        var session := found.value;
        if session.expiresAt < now then (Err(TokenExpired), RemoveSession(db, accessToken))
        else if Truthy(req.clientToken) && session.clientToken != req.clientToken.value then (Err(InvalidToken), db)
        else (Ok(()), db)
  }

  // ---------------------------------------------------------------------------
  // The handlers on the store

  /** POST /authserver/authenticate. */
  method Authenticate(store: MemoryStore.Store, req: AuthenticateRequest, now: Millis, accessToken: Token,
                      mintedClientToken: Token, expiresIn: int)
    returns (r: Result<AuthenticateResponse>)
    requires store.Valid()
    modifies store
    ensures store.Valid()
    ensures (r, store.State()) == AuthenticateSpec(old(store.State()), req, now, accessToken, mintedClientToken, expiresIn)
  {
    if !Truthy(req.username) || !Truthy(req.password) {
      return Err(CredentialsNull);
    }
    if !SupportedAgent(req.agent) {
      return Err(InvalidAgent);
    }
    var found := store.FindUserByEmailOrUsername(req.username.value);
    if found.None? {
      return Err(InvalidCredentials);
    }
    var user := found.value;
    if !Bcrypt.Compare(req.password.value, user.passwordHash) {
      return Err(InvalidCredentials);
    }
    r := SignIn(store, user, req, now, accessToken, mintedClientToken, expiresIn);
  }

  /** The second half of authenticate, for a stored user whose password matched. */
  method SignIn(store: MemoryStore.Store, user: User, req: AuthenticateRequest, now: Millis, accessToken: Token,
                mintedClientToken: Token, expiresIn: int)
    returns (r: Result<AuthenticateResponse>)
    requires store.Valid() && user.id in store.users && store.users[user.id] == user
    modifies store
    ensures store.Valid()
    ensures (r, store.State()) == SignInSpec(old(store.State()), user, req, now, accessToken, mintedClientToken, expiresIn)
  {
    var clientToken := if Truthy(req.clientToken) then req.clientToken.value else mintedClientToken;
    var profiles := UserProfiles(store.State(), user.id);
    if |profiles| == 0 {
      return Err(NoProfilesForUser);
    }
    var selected := profiles[0];
    var session := store.CreateSession(user.id, user.username, accessToken, clientToken, now, expiresIn);
    r := Ok(AuthenticateResponse(accessToken, clientToken, RefOf(selected), Refs(profiles),
                                 UserRefIf(req.requestUser, user)));
    ghost var withSession := store.State();
    // `user.lastLogin = new Date()` writes the stored record itself.
    store.users := store.users[user.id := user.(lastLogin := Some(now))];
    assert store.State() == SetLastLogin(withSession, user.id, now);
    SetUserFieldValid(withSession, user.id, user.passwordHash, now);
  }

  /** POST /authserver/refresh. */
  method Refresh(store: MemoryStore.Store, req: RefreshRequest, now: Millis, newAccessToken: Token, expiresIn: int)
    returns (r: Result<RefreshResponse>)
    requires store.Valid()
    modifies store
    ensures store.Valid()
    ensures (r, store.State()) == RefreshSpec(old(store.State()), req, now, newAccessToken, expiresIn)
  {
    if !Truthy(req.accessToken) || !Truthy(req.clientToken) {
      return Err(TokensRequired);
    }
    var found := FindSession(store.State(), req.accessToken.value);
    if found.None? {
      return Err(InvalidToken);
    }
    var session := found.value;
    if session.clientToken != req.clientToken.value {
      return Err(InvalidToken);
    }
    if session.expiresAt < now {
      store.DeleteSession(req.accessToken.value);
      return Err(TokenExpired);
    }
    var owner := FindUserById(store.State(), session.userId);
    if owner.None? {
      return Err(UserNotFound);
    }
    var user := owner.value;
    var profiles := UserProfiles(store.State(), user.id);
    if |profiles| == 0 {
      return Err(NoProfiles);
    }
    var selected := profiles[0];
    if req.selectedProfile.Some? {
      var requested := FindProfile(profiles, req.selectedProfile.value);
      if requested.Some? {
        selected := requested.value;
      }
    }
    ghost var before := store.State();
    store.DeleteSession(req.accessToken.value);
    assert user.id in store.users;
    var _ := store.CreateSession(user.id, user.username, newAccessToken, req.clientToken.value, now, expiresIn);
    assert store.State() == PutSession(RemoveSession(before, req.accessToken.value),
                                       MakeSession(user.id, user.username, newAccessToken, req.clientToken.value, now, expiresIn));
    return Ok(RefreshResponse(newAccessToken, req.clientToken.value, RefOf(selected), UserRefIf(req.requestUser, user)));
  }

  /** POST /authserver/validate. */
  method Validate(store: MemoryStore.Store, req: ValidateRequest, now: Millis) returns (r: Result<()>)
    requires store.Valid()
    modifies store
    ensures store.Valid()
    ensures (r, store.State()) == ValidateSpec(old(store.State()), req, now)
  {
    if !Truthy(req.accessToken) {
      return Ok(());
    }
    var found := FindSession(store.State(), req.accessToken.value);
    if found.None? {
      return Err(InvalidToken);
    }
    var session := found.value;
    if session.expiresAt < now {
      store.DeleteSession(req.accessToken.value);
      return Err(TokenExpired);
    }
    if Truthy(req.clientToken) && session.clientToken != req.clientToken.value {
      return Err(InvalidToken);
    }
    return Ok(());
  }
}
