/**
 * What the register, change-password, logout and skin-route handlers of src/index.ts
 * promise, and one account's path through register, authenticate, refresh and
 * validate.
 */
module ApiProperties {
  import opened Types
  import opened Database
  import opened Api
  import Auth
  import AuthProperties
  import Bcrypt

  // ---------------------------------------------------------------------------
  // register

  /** A missing field is rejected and nothing is stored. */
  lemma RegisterMissingFields(db: Db, username: Option<string>, email: Option<string>, password: Option<string>,
                              profileName: Option<string>, userId: UserId, profileId: ProfileId, salt: nat, now: Millis)
    requires !Truthy(username) || !Truthy(email) || !Truthy(password) || !Truthy(profileName)
    ensures RegisterSpec(db, username, email, password, profileName, userId, profileId, salt, now) == (Err(MissingFields), db)
  {
  }

  /**
   * With every field present, register fails with UserExists, creating nothing, exactly
   * when the username or the email is already some user's username or email; otherwise
   * it succeeds.
   */
  lemma RegisterDuplicate(db: Db, username: string, email: string, password: string, profileName: string,
                          userId: UserId, profileId: ProfileId, salt: nat, now: Millis)
    requires UsersIndexed(db)
    requires username != "" && email != "" && password != "" && profileName != ""
    ensures var (r, db') := RegisterSpec(db, Some(username), Some(email), Some(password), Some(profileName),
                                         userId, profileId, salt, now);
      && (r == Err(UserExists) <==> IdentifierTaken(db, username) || IdentifierTaken(db, email))
      && (r == Err(UserExists) ==> db' == db)
      && (r != Err(UserExists) ==> r == Ok(userId))
  {
    FindUserSpec(db, username);
    FindUserSpec(db, email);
  }

  /**
   * A successful register adds exactly one user, with the given name, email and a hash
   * of the password, and exactly one profile, owned by that user and the only one in
   * its list; sessions and the existing records are untouched, and the new account is
   * what a later lookup by username or by email finds.
   */
  lemma RegisterSuccess(db: Db, username: string, email: string, password: string, profileName: string,
                        userId: UserId, profileId: ProfileId, salt: nat, now: Millis)
    requires Valid(db) && userId !in db.users && profileId !in db.profiles
    requires RegisterSpec(db, Some(username), Some(email), Some(password), Some(profileName),
                          userId, profileId, salt, now).0.Ok?
    ensures var (r, db') := RegisterSpec(db, Some(username), Some(email), Some(password), Some(profileName),
                                         userId, profileId, salt, now);
      var user := NewUser(userId, username, email, Bcrypt.HashPassword(password, salt), now);
      var profile := NewProfile(profileId, userId, profileName, now);
      && r == Ok(userId)
      && db'.users == db.users[userId := user] && |db'.users| == |db.users| + 1
      && db'.profiles == db.profiles[profileId := profile] && |db'.profiles| == |db.profiles| + 1
      && ProfileIdsOf(db', userId) == [profileId] && UserProfiles(db', userId) == [profile]
      && db'.sessions == db.sessions
      && Bcrypt.Compare(password, db'.users[userId].passwordHash)
      && FindUser(db', username) == Some(user) && FindUser(db', email) == Some(user)
  {
    var user := NewUser(userId, username, email, Bcrypt.HashPassword(password, salt), now);
    var profile := NewProfile(profileId, userId, profileName, now);
    FindUserSpec(db, username);
    FindUserSpec(db, email);
    var withUser := AddUser(db, user);
    assert RegisterSpec(db, Some(username), Some(email), Some(password), Some(profileName), userId, profileId, salt, now)
           == (Ok(userId), AddProfile(withUser, profile));
    AddUserValid(db, user);
    assert ProfileIdsOf(withUser, userId) == [];
    AddProfileSpec(withUser, profile);
    UserProfilesSpec(withUser, userId);
    FindUserAfterAdd(db, user, username);
    FindUserAfterAdd(db, user, email);
    assert [] + [profile] == [profile];
  }

  /** Register keeps the store invariant, and keeps every username and email unique. */
  lemma RegisterKeepsInvariants(db: Db, username: Option<string>, email: Option<string>, password: Option<string>,
                                profileName: Option<string>, userId: UserId, profileId: ProfileId, salt: nat, now: Millis)
    requires Valid(db) && userId !in db.users && profileId !in db.profiles
    ensures Valid(RegisterSpec(db, username, email, password, profileName, userId, profileId, salt, now).1)
    ensures UniqueIdentifiers(db) ==>
              UniqueIdentifiers(RegisterSpec(db, username, email, password, profileName, userId, profileId, salt, now).1)
  {
    if RegisterSpec(db, username, email, password, profileName, userId, profileId, salt, now).0.Ok? {
      var user := NewUser(userId, username.value, email.value, Bcrypt.HashPassword(password.value, salt), now);
      FindUserSpec(db, username.value);
      FindUserSpec(db, email.value);
      AddUserValid(db, user);
      if UniqueIdentifiers(db) {
        AddUserUnique(db, user);
      }
      AddProfileValid(AddUser(db, user), NewProfile(profileId, userId, profileName.value, now));
    }
  }

  /** Once an account is registered, registering the same username again is refused. */
  lemma RegisterSameUsernameTwice(db: Db, username: string, email: string, email2: string, password: string,
                                  password2: string, profileName: string, profileName2: string,
                                  userId: UserId, userId2: UserId, profileId: ProfileId, profileId2: ProfileId,
                                  salt: nat, salt2: nat, now: Millis, later: Millis)
    requires Valid(db) && userId !in db.users && profileId !in db.profiles
    requires email2 != "" && password2 != "" && profileName2 != ""
    requires RegisterSpec(db, Some(username), Some(email), Some(password), Some(profileName),
                          userId, profileId, salt, now).0.Ok?
    ensures var db' := RegisterSpec(db, Some(username), Some(email), Some(password), Some(profileName),
                                    userId, profileId, salt, now).1;
      RegisterSpec(db', Some(username), Some(email2), Some(password2), Some(profileName2),
                   userId2, profileId2, salt2, later) == (Err(UserExists), db')
  {
    RegisterSuccess(db, username, email, password, profileName, userId, profileId, salt, now);
  }

  // ---------------------------------------------------------------------------
  // change-password

  /**
   * A new password shorter than six characters is refused before the session is looked
   * up, so the answer is the same whatever the store holds, and nothing changes.
   */
  lemma ChangePasswordLengthFirst(db: Db, token: Token, currentPassword: string, newPassword: string, salt: nat)
    requires currentPassword != "" && newPassword != "" && |newPassword| < MinPasswordLength
    ensures ChangePasswordSpec(db, Some(BearerPrefix + token), Some(currentPassword), Some(newPassword), salt)
            == (Err(InvalidPassword(TooShort)), db)
  {
    BearerTokenRoundTrip(token);
  }

  /**
   * With a bearer token naming a stored session, change-password either refuses the
   * wrong current password, leaving the store as it was, or replaces only the owner's
   * password hash, after which the new password matches and any other does not.
   * The session's expiry is not checked.
   */
  lemma ChangePasswordOutcome(db: Db, token: Token, currentPassword: string, newPassword: string, salt: nat)
    requires Valid(db)
    requires currentPassword != "" && |newPassword| >= MinPasswordLength
    requires token in db.sessions && db.sessions[token].userId in db.users
    ensures var (r, db') := ChangePasswordSpec(db, Some(BearerPrefix + token), Some(currentPassword), Some(newPassword), salt);
      var uid := db.sessions[token].userId;
      var user := db.users[uid];
      && (!Bcrypt.Compare(currentPassword, user.passwordHash) ==> r == Err(InvalidPassword(Incorrect)) && db' == db)
      && (Bcrypt.Compare(currentPassword, user.passwordHash) ==>
            && r == Ok(())
            && db' == db.(users := db.users[uid := user.(passwordHash := Bcrypt.HashPassword(newPassword, salt))])
            && forall p :: Bcrypt.Compare(p, db'.users[uid].passwordHash) <==> p == newPassword)
  {
    BearerTokenRoundTrip(token);
    forall p ensures Bcrypt.Compare(p, Bcrypt.HashPassword(newPassword, salt)) <==> p == newPassword {
      Bcrypt.CompareHashPassword(p, newPassword, salt);
    }
  }

  /** Without a stored session for the token, change-password refuses it and changes nothing. */
  lemma ChangePasswordUnknownToken(db: Db, token: Token, currentPassword: string, newPassword: string, salt: nat)
    requires currentPassword != "" && |newPassword| >= MinPasswordLength && token !in db.sessions
    ensures ChangePasswordSpec(db, Some(BearerPrefix + token), Some(currentPassword), Some(newPassword), salt)
            == (Err(Unauthorized(TokenInvalid)), db)
  {
    BearerTokenRoundTrip(token);
  }

  /**
   * With the invariant every session belongs to a stored user, so change-password never
   * answers that the user was not found.
   */
  lemma ChangePasswordNeverNotFound(db: Db, header: Option<string>, currentPassword: Option<string>,
                                    newPassword: Option<string>, salt: nat)
    requires Valid(db)
    ensures ChangePasswordSpec(db, header, currentPassword, newPassword, salt).0 != Err(NotFound)
  {
  }

  // ---------------------------------------------------------------------------
  // logout

  /**
   * Logout with a bearer token always succeeds and removes that session, whether or
   * not it existed; logging out twice is logging out once. Without a bearer token it
   * is refused and nothing changes.
   */
  lemma LogoutOutcome(db: Db, header: Option<string>)
    ensures var (r, db') := LogoutSpec(db, header);
      && (BearerToken(header).None? ==> r == Err(Unauthorized(TokenRequired)) && db' == db)
      && (BearerToken(header).Some? ==>
            && r == Ok(())
            && db' == RemoveSession(db, BearerToken(header).value)
            && BearerToken(header).value !in db'.sessions
            && LogoutSpec(db', header) == (Ok(()), db'))
  {
    if BearerToken(header).Some? {
      RemoveSessionSpec(db, BearerToken(header).value);
    }
  }

  // ---------------------------------------------------------------------------
  // the skin routes

  /** The guard admits exactly a bearer token naming a stored, unexpired session. */
  lemma SkinRouteGuard(db: Db, header: Option<string>, now: Millis)
    ensures SkinRouteSession(db, header, now).Ok? <==>
              && BearerToken(header).Some? && BearerToken(header).value in db.sessions
              && db.sessions[BearerToken(header).value].expiresAt >= now
    ensures SkinRouteSession(db, header, now).Ok? ==>
              SkinRouteSession(db, header, now).value == db.sessions[BearerToken(header).value]
  {
  }

  /** All three skin routes refuse a stored session that has expired, and the PUT changes nothing. */
  lemma SkinRoutesRejectExpired(db: Db, token: Token, skinUrl: Option<string>, now: Millis)
    requires token in db.sessions && db.sessions[token].expiresAt < now
    ensures GetSkinsRoute(db, Some(BearerPrefix + token), now) == Err(Unauthorized(TokenExpired))
    ensures GetActiveSkinRoute(db, Some(BearerPrefix + token), now) == Err(Unauthorized(TokenExpired))
    ensures PutActiveSkinSpec(db, Some(BearerPrefix + token), skinUrl, now) == (Err(Unauthorized(TokenExpired)), db)
  {
    BearerTokenRoundTrip(token);
  }

  /**
   * After a successful PUT, the GET of the active skin with the same header returns the
   * url just set; only the caller's entry changed.
   */
  lemma PutThenGetActiveSkin(db: Db, header: Option<string>, skinUrl: Option<string>, now: Millis)
    requires PutActiveSkinSpec(db, header, skinUrl, now).0.Ok?
    ensures var (r, db') := PutActiveSkinSpec(db, header, skinUrl, now);
      var uid := SkinRouteSession(db, header, now).value.userId;
      && GetActiveSkinRoute(db', header, now) == Ok(Some(r.value))
      && r.value == skinUrl.value
      && (forall u | u != uid :: ActiveUrl(db'.userActiveSkin, u) == ActiveUrl(db.userActiveSkin, u))
      && db'.userSkins == db.userSkins && db'.sessions == db.sessions
  {
  }

  // ---------------------------------------------------------------------------
  // One account end to end

  const Alice := "alice"
  const AliceEmail := "a@x.com"
  const AlicePassword := "secret1"
  const AliceProfile := "AliceMC"

  function AliceLogin(): Auth.AuthenticateRequest {
    Auth.AuthenticateRequest(Some(Auth.Agent("Minecraft", 1)), Some(Alice), Some(AlicePassword), None, false)
  }

  /** The store just after alice registered. */
  ghost predicate AliceRegistered(db: Db, userId: UserId, profileId: ProfileId, salt: nat, now: Millis) {
    && Valid(db)
    && FindUser(db, Alice) == Some(NewUser(userId, Alice, AliceEmail, Bcrypt.HashPassword(AlicePassword, salt), now))
    && UserProfiles(db, userId) == [NewProfile(profileId, userId, AliceProfile, now)]
  }

  lemma AliceRegisters(db: Db, userId: UserId, profileId: ProfileId, salt: nat, now: Millis)
    requires Valid(db) && userId !in db.users && profileId !in db.profiles
    requires !IdentifierTaken(db, Alice) && !IdentifierTaken(db, AliceEmail)
    ensures var (r, db1) := RegisterSpec(db, Some(Alice), Some(AliceEmail), Some(AlicePassword), Some(AliceProfile),
                                         userId, profileId, salt, now);
      r == Ok(userId) && AliceRegistered(db1, userId, profileId, salt, now)
  {
    FindUserSpec(db, Alice);
    FindUserSpec(db, AliceEmail);
    RegisterSuccess(db, Alice, AliceEmail, AlicePassword, AliceProfile, userId, profileId, salt, now);
    RegisterKeepsInvariants(db, Some(Alice), Some(AliceEmail), Some(AlicePassword), Some(AliceProfile),
                            userId, profileId, salt, now);
  }

  /** The session alice's sign-in stores. */
  function AliceSession(userId: UserId, now: Millis, accessToken: Token, minted: Token): Session {
    MakeSession(userId, Alice, accessToken, minted, now, Database.DefaultExpiresIn)
  }

  /** Signing in as alice answers with her one profile selected and stores her session. */
  lemma AliceAuthenticates(db1: Db, userId: UserId, profileId: ProfileId, salt: nat, now: Millis,
                           accessToken: Token, minted: Token)
    requires FindUser(db1, Alice) == Some(NewUser(userId, Alice, AliceEmail, Bcrypt.HashPassword(AlicePassword, salt), now))
    requires UserProfiles(db1, userId) == [NewProfile(profileId, userId, AliceProfile, now)]
    ensures var (r2, db2) := Auth.AuthenticateSpec(db1, AliceLogin(), now, accessToken, minted, Database.DefaultExpiresIn);
      && r2.Ok? && r2.value.selectedProfile == Auth.ProfileRef(profileId, AliceProfile)
      && r2.value.availableProfiles == [Auth.ProfileRef(profileId, AliceProfile)]
      && r2.value.accessToken == accessToken && r2.value.clientToken == minted
      && db2 == SetLastLogin(PutSession(db1, AliceSession(userId, now, accessToken, minted)), userId, now)
  {
    var req := AliceLogin();
    var user := NewUser(userId, Alice, AliceEmail, Bcrypt.HashPassword(AlicePassword, salt), now);
    var profile := NewProfile(profileId, userId, AliceProfile, now);
    Bcrypt.CompareHashPassword(AlicePassword, AlicePassword, salt);
    assert Auth.AuthenticateSpec(db1, req, now, accessToken, minted, Database.DefaultExpiresIn)
        == Auth.SignInSpec(db1, user, req, now, accessToken, minted, Database.DefaultExpiresIn);
    assert Auth.Refs([profile]) == [Auth.ProfileRef(profileId, AliceProfile)];
  }

  lemma AliceSignsIn(db1: Db, userId: UserId, profileId: ProfileId, salt: nat, now: Millis,
                     accessToken: Token, minted: Token)
    requires AliceRegistered(db1, userId, profileId, salt, now)
    ensures var (r2, db2) := Auth.AuthenticateSpec(db1, AliceLogin(), now, accessToken, minted, Database.DefaultExpiresIn);
      && r2.Ok? && r2.value.selectedProfile == Auth.ProfileRef(profileId, AliceProfile)
      && r2.value.availableProfiles == [Auth.ProfileRef(profileId, AliceProfile)]
      && r2.value.accessToken == accessToken && r2.value.clientToken == minted
      && Valid(db2) && accessToken in db2.sessions && db2.sessions[accessToken].clientToken == minted
      && db2.sessions[accessToken].userId == userId && db2.sessions[accessToken].expiresAt >= now
      && UserProfiles(db2, userId) == UserProfiles(db1, userId)
      && userId in db2.users
  {
    AliceAuthenticates(db1, userId, profileId, salt, now, accessToken, minted);
    FindUserSpec(db1, Alice);
    AuthProperties.AuthenticateKeepsInvariants(db1, AliceLogin(), now, accessToken, minted, Database.DefaultExpiresIn);
  }

  /** Refreshing a live session for a user with profiles rotates its token. */
  lemma AliceRefreshes(db2: Db, userId: UserId, now: Millis, accessToken: Token, minted: Token, newAccessToken: Token)
    requires Valid(db2) && accessToken != "" && minted != "" && newAccessToken != accessToken
    requires accessToken in db2.sessions && db2.sessions[accessToken].clientToken == minted
    requires db2.sessions[accessToken].userId == userId && db2.sessions[accessToken].expiresAt >= now
    requires userId in db2.users && |UserProfiles(db2, userId)| > 0
    ensures var refreshRequest := Auth.RefreshRequest(Some(accessToken), Some(minted), None, false);
      var (r3, db3) := Auth.RefreshSpec(db2, refreshRequest, now, newAccessToken, Database.DefaultExpiresIn);
      && r3.Ok? && r3.value.accessToken == newAccessToken
      && Auth.ValidateSpec(db3, Auth.ValidateRequest(Some(accessToken), None), now).0 == Auth.Err(Auth.InvalidToken)
      && Auth.ValidateSpec(db3, Auth.ValidateRequest(Some(newAccessToken), Some(minted)), now).0 == Auth.Ok(())
  {
    var refreshRequest := Auth.RefreshRequest(Some(accessToken), Some(minted), None, false);
    assert Auth.RefreshSpec(db2, refreshRequest, now, newAccessToken, Database.DefaultExpiresIn).0.Ok?;
    AuthProperties.RefreshInvalidatesOldToken(db2, refreshRequest, now, newAccessToken, Database.DefaultExpiresIn, now);
  }

  /**
   * A fresh account "alice" / "a@x.com" with password "secret1" and profile "AliceMC"
   * registers, authenticates with that profile selected, refreshes its token, after
   * which the old token is refused and the new one validates.
   */
  lemma AccountLifecycle(db: Db, userId: UserId, profileId: ProfileId, salt: nat, now: Millis,
                         accessToken: Token, minted: Token, newAccessToken: Token)
    requires Valid(db) && userId !in db.users && profileId !in db.profiles
    requires !IdentifierTaken(db, Alice) && !IdentifierTaken(db, AliceEmail)
    requires accessToken != "" && minted != "" && newAccessToken != accessToken
    ensures var (r1, db1) := RegisterSpec(db, Some(Alice), Some(AliceEmail), Some(AlicePassword), Some(AliceProfile),
                                          userId, profileId, salt, now);
      var (r2, db2) := Auth.AuthenticateSpec(db1, AliceLogin(), now, accessToken, minted, Database.DefaultExpiresIn);
      var refreshRequest := Auth.RefreshRequest(Some(accessToken), Some(minted), None, false);
      var (r3, db3) := Auth.RefreshSpec(db2, refreshRequest, now, newAccessToken, Database.DefaultExpiresIn);
      && r1 == Ok(userId)
      && r2.Ok? && r2.value.selectedProfile == Auth.ProfileRef(profileId, AliceProfile)
      && r2.value.availableProfiles == [Auth.ProfileRef(profileId, AliceProfile)]
      && r2.value.clientToken == minted
      && r3.Ok? && r3.value.accessToken == newAccessToken
      && Auth.ValidateSpec(db3, Auth.ValidateRequest(Some(accessToken), None), now).0 == Auth.Err(Auth.InvalidToken)
      && Auth.ValidateSpec(db3, Auth.ValidateRequest(Some(newAccessToken), Some(minted)), now).0 == Auth.Ok(())
  {
    AliceRegisters(db, userId, profileId, salt, now);
    var (r1, db1) := RegisterSpec(db, Some(Alice), Some(AliceEmail), Some(AlicePassword), Some(AliceProfile),
                                  userId, profileId, salt, now);
    AliceSignsIn(db1, userId, profileId, salt, now, accessToken, minted);
    var (r2, db2) := Auth.AuthenticateSpec(db1, AliceLogin(), now, accessToken, minted, Database.DefaultExpiresIn);
    AliceRefreshes(db2, userId, now, accessToken, minted, newAccessToken);
  }
}
