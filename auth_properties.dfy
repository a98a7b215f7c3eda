/**
 * What the authenticate, refresh and validate handlers of src/routes/auth.ts promise:
 * the order of their checks, which outcomes change the store and how, and how the
 * handlers compose.
 */
module AuthProperties {
  import opened Types
  import opened Database
  import opened Auth
  import Bcrypt

  // ---------------------------------------------------------------------------
  // authenticate

  /**
   * A missing username or password is reported before the agent is looked at, and a
   * wrong agent before any user is looked up; neither changes the store.
   */
  lemma AuthenticateArgumentChecks(db: Db, req: AuthenticateRequest, now: Millis, accessToken: Token,
                                   minted: Token, expiresIn: int)
    ensures var (r, db') := AuthenticateSpec(db, req, now, accessToken, minted, expiresIn);
      && (!Truthy(req.username) || !Truthy(req.password) ==> r == Err(CredentialsNull) && db' == db)
      && ((Truthy(req.username) && Truthy(req.password) && !SupportedAgent(req.agent))
          ==> r == Err(InvalidAgent) && db' == db)
  {
  }

  /**
   * An unknown username and a wrong password for the first user with that identifier give
   * the same error, and neither adds a session or changes anything else.
   */
  lemma AuthenticateInvalidCredentials(db: Db, req: AuthenticateRequest, now: Millis, accessToken: Token,
                                       minted: Token, expiresIn: int)
    requires UsersIndexed(db)
    requires Truthy(req.username) && Truthy(req.password) && SupportedAgent(req.agent)
    requires !IdentifierTaken(db, req.username.value)
             || (FindUser(db, req.username.value).Some?
                 && !Bcrypt.Compare(req.password.value, FindUser(db, req.username.value).value.passwordHash))
    ensures AuthenticateSpec(db, req, now, accessToken, minted, expiresIn) == (Err(InvalidCredentials), db)
  {
    FindUserSpec(db, req.username.value);
  }

  /** A user without profiles cannot sign in, and no session is created for it. */
  lemma AuthenticateWithoutProfiles(db: Db, req: AuthenticateRequest, now: Millis, accessToken: Token,
                                    minted: Token, expiresIn: int)
    requires Valid(db)
    requires Truthy(req.username) && Truthy(req.password) && SupportedAgent(req.agent)
    requires var found := FindUser(db, req.username.value);
             && found.Some? && Bcrypt.Compare(req.password.value, found.value.passwordHash)
             && ProfileIdsOf(db, found.value.id) == []
    ensures AuthenticateSpec(db, req, now, accessToken, minted, expiresIn) == (Err(NoProfilesForUser), db)
  {
    UserProfilesSpec(db, FindUser(db, req.username.value).value.id);
  }

  /** authenticate succeeds exactly when every check passes. */
  lemma AuthenticateSucceedsIff(db: Db, req: AuthenticateRequest, now: Millis, accessToken: Token,
                                minted: Token, expiresIn: int)
    requires Valid(db)
    ensures AuthenticateSpec(db, req, now, accessToken, minted, expiresIn).0.Ok?
            <==> && Truthy(req.username) && Truthy(req.password) && SupportedAgent(req.agent)
                 && IdentifierTaken(db, req.username.value)
                 && Bcrypt.Compare(req.password.value, FindUser(db, req.username.value).value.passwordHash)
                 && ProfileIdsOf(db, FindUser(db, req.username.value).value.id) != []
  {
    if Truthy(req.username) {
      FindUserSpec(db, req.username.value);
      if FindUser(db, req.username.value).Some? {
        UserProfilesSpec(db, FindUser(db, req.username.value).value.id);
      }
    }
  }

  /**
   * A successful authenticate, for the first user with that username or email:
   * stores one session under the new access token, for that user, with the supplied
   * client token (or the minted one when none was supplied) and an expiry `expiresIn`
   * seconds ahead; selects the user's first profile and lists all of them in order;
   * includes the user iff it was requested; records the login time on the user; and
   * changes nothing else.
   */
  lemma AuthenticateSuccess(db: Db, req: AuthenticateRequest, now: Millis, accessToken: Token,
                            minted: Token, expiresIn: int)
    requires Valid(db)
    requires AuthenticateSpec(db, req, now, accessToken, minted, expiresIn).0.Ok?
    ensures var (r, db') := AuthenticateSpec(db, req, now, accessToken, minted, expiresIn);
      var user := FindUser(db, req.username.value).value;
      var profiles := UserProfiles(db, user.id);
      var clientToken := if Truthy(req.clientToken) then req.clientToken.value else minted;
      && user.id in db.users && db.users[user.id] == user && HasIdentifier(user, req.username.value)
      && Bcrypt.Compare(req.password.value, user.passwordHash)
      && r.value.accessToken == accessToken && r.value.clientToken == clientToken
      && db'.sessions == db.sessions[accessToken := Session(accessToken, clientToken, user.id, user.username,
                                                            now + expiresIn * 1000, now)]
      && (accessToken !in db.sessions ==> |db'.sessions| == |db.sessions| + 1)
      && |profiles| > 0 && r.value.selectedProfile == ProfileRef(profiles[0].id, profiles[0].name)
      && |r.value.availableProfiles| == |profiles|
      && (forall i | 0 <= i < |profiles| :: r.value.availableProfiles[i] == ProfileRef(profiles[i].id, profiles[i].name)
                                            && profiles[i].userId == user.id)
      && (r.value.user.Some? <==> req.requestUser)
      && db'.users == db.users[user.id := user.(lastLogin := Some(now))]
      && db' == db.(sessions := db'.sessions, users := db'.users)
  {
    var user := FindUser(db, req.username.value).value;
    var clientToken := if Truthy(req.clientToken) then req.clientToken.value else minted;
    var session := MakeSession(user.id, user.username, accessToken, clientToken, now, expiresIn);
    assert AuthenticateSpec(db, req, now, accessToken, minted, expiresIn).1
           == SetLastLogin(PutSession(db, session), user.id, now);
    FindUserSpec(db, req.username.value);
    UserProfilesSpec(db, user.id);
    var profiles := UserProfiles(db, user.id);
    forall i | 0 <= i < |profiles| ensures profiles[i].userId == user.id {
      assert profiles[i] in profiles;
    }
  }

  lemma AuthenticateKeepsInvariants(db: Db, req: AuthenticateRequest, now: Millis, accessToken: Token,
                                    minted: Token, expiresIn: int)
    requires Valid(db)
    ensures Valid(AuthenticateSpec(db, req, now, accessToken, minted, expiresIn).1)
    ensures UniqueIdentifiers(db) ==> UniqueIdentifiers(AuthenticateSpec(db, req, now, accessToken, minted, expiresIn).1)
  {
    if AuthenticateSpec(db, req, now, accessToken, minted, expiresIn).0.Ok? {
      var user := FindUser(db, req.username.value).value;
      var clientToken := if Truthy(req.clientToken) then req.clientToken.value else minted;
      var session := MakeSession(user.id, user.username, accessToken, clientToken, now, expiresIn);
      PutSessionValid(db, session);
      SetUserFieldValid(PutSession(db, session), user.id, user.passwordHash, now);
    }
  }

  // ---------------------------------------------------------------------------
  // refresh

  /**
   * With both tokens present, an unknown access token or a client token that does not
   * match the stored session is "Invalid token." and leaves the store as it was, even
   * when that session has expired: the client token is compared before the expiry.
   */
  lemma RefreshInvalidToken(db: Db, req: RefreshRequest, now: Millis, newAccessToken: Token, expiresIn: int)
    requires Truthy(req.accessToken) && Truthy(req.clientToken)
    requires req.accessToken.value !in db.sessions
             || db.sessions[req.accessToken.value].clientToken != req.clientToken.value
    ensures RefreshSpec(db, req, now, newAccessToken, expiresIn) == (Err(InvalidToken), db)
  {
  }

  /**
   * Of all refresh failures only "Token expired." changes the store, and it happens
   * exactly for a stored, matching, expired session, which it deletes.
   */
  lemma RefreshFailureEffects(db: Db, req: RefreshRequest, now: Millis, newAccessToken: Token, expiresIn: int)
    ensures var (r, db') := RefreshSpec(db, req, now, newAccessToken, expiresIn);
      && (r.Err? && r.err != TokenExpired ==> db' == db)
      && (r == Err(TokenExpired) <==>
            Truthy(req.accessToken) && Truthy(req.clientToken) && req.accessToken.value in db.sessions
            && db.sessions[req.accessToken.value].clientToken == req.clientToken.value
            && db.sessions[req.accessToken.value].expiresAt < now)
      && (r == Err(TokenExpired) ==>
            db' == RemoveSession(db, req.accessToken.value) && req.accessToken.value !in db'.sessions)
  {
  }

  /**
   * A successful refresh checked the token pair and the expiry, and rotates the
   * session: the old token's entry is replaced by one under the new token with the
   * same client token and owner and a fresh expiry; every other session and the
   * tables of the store are unchanged.
   */
  lemma RefreshRotatesSession(db: Db, req: RefreshRequest, now: Millis, newAccessToken: Token, expiresIn: int)
    requires Valid(db)
    requires RefreshSpec(db, req, now, newAccessToken, expiresIn).0.Ok?
    ensures var (r, db') := RefreshSpec(db, req, now, newAccessToken, expiresIn);
      var oldToken := req.accessToken.value;
      var session := db.sessions[oldToken];
      && oldToken in db.sessions && session.clientToken == req.clientToken.value && !(session.expiresAt < now)
      && session.userId in db.users
      && (newAccessToken != oldToken ==> oldToken !in db'.sessions)
      && newAccessToken in db'.sessions
      && db'.sessions[newAccessToken] == Session(newAccessToken, session.clientToken, session.userId,
                                                 db.users[session.userId].username, now + expiresIn * 1000, now)
      && (forall t | t in db.sessions && t != oldToken && t != newAccessToken :: t in db'.sessions && db'.sessions[t] == db.sessions[t])
      && (forall t | t in db'.sessions :: t == newAccessToken || (t in db.sessions && t != oldToken))
      && db' == db.(sessions := db'.sessions)
  {
  }

  /**
   * A successful refresh answers with the new token and the session's client token,
   * and selects the requested profile when the user owns it and the first profile
   * otherwise.
   */
  lemma RefreshSuccess(db: Db, req: RefreshRequest, now: Millis, newAccessToken: Token, expiresIn: int)
    requires Valid(db)
    requires RefreshSpec(db, req, now, newAccessToken, expiresIn).0.Ok?
    ensures var r := RefreshSpec(db, req, now, newAccessToken, expiresIn).0;
      var oldToken := req.accessToken.value;
      var session := db.sessions[oldToken];
      var profiles := UserProfiles(db, session.userId);
      && oldToken in db.sessions
      && r.value.accessToken == newAccessToken && r.value.clientToken == session.clientToken
      && |profiles| > 0
      && (exists i :: 0 <= i < |profiles| && r.value.selectedProfile == ProfileRef(profiles[i].id, profiles[i].name))
      && ((req.selectedProfile.Some? && exists i :: 0 <= i < |profiles| && profiles[i].id == req.selectedProfile.value)
          ==> r.value.selectedProfile.id == req.selectedProfile.value)
      && ((req.selectedProfile.None? || forall i | 0 <= i < |profiles| :: profiles[i].id != req.selectedProfile.value)
          ==> r.value.selectedProfile == ProfileRef(profiles[0].id, profiles[0].name))
      && (r.value.user.Some? <==> req.requestUser)
  {
    var session := db.sessions[req.accessToken.value];
    var profiles := UserProfiles(db, session.userId);
    var selected := SelectProfile(profiles, req.selectedProfile);
    var k :| 0 <= k < |profiles| && profiles[k] == selected;
  }

  lemma RefreshKeepsInvariants(db: Db, req: RefreshRequest, now: Millis, newAccessToken: Token, expiresIn: int)
    requires Valid(db)
    ensures Valid(RefreshSpec(db, req, now, newAccessToken, expiresIn).1)
    ensures UniqueIdentifiers(db) ==> UniqueIdentifiers(RefreshSpec(db, req, now, newAccessToken, expiresIn).1)
  {
    var (r, db') := RefreshSpec(db, req, now, newAccessToken, expiresIn);
    if db' != db {
      var oldToken := req.accessToken.value;
      RemoveSessionValid(db, oldToken);
      if r.Ok? {
        var session := db.sessions[oldToken];
        var user := db.users[session.userId];
        var renewed := MakeSession(user.id, user.username, newAccessToken, req.clientToken.value, now, expiresIn);
        PutSessionValid(RemoveSession(db, oldToken), renewed);
      }
    }
  }

  /**
   * With the invariant every session belongs to a stored user, so refresh never answers
   * "User not found.".
   */
  lemma RefreshNeverUserNotFound(db: Db, req: RefreshRequest, now: Millis, newAccessToken: Token, expiresIn: int)
    requires Valid(db)
    ensures RefreshSpec(db, req, now, newAccessToken, expiresIn).0 != Err(UserNotFound)
  {
  }

  // ---------------------------------------------------------------------------
  // validate

  /**
   * validate, in its order of checks: a missing access token is valid; an unknown one
   * is "Invalid token."; an expired session is "Token expired." whatever client token
   * was sent, and is deleted; a supplied client token must match; otherwise valid.
   * Only the expired case changes the store.
   */
  lemma ValidateDecision(db: Db, req: ValidateRequest, now: Millis)
    ensures var (r, db') := ValidateSpec(db, req, now);
      && (!Truthy(req.accessToken) ==> r == Ok(()) && db' == db)
      && (Truthy(req.accessToken) ==>
            var t := req.accessToken.value;
            && (t !in db.sessions ==> r == Err(InvalidToken) && db' == db)
            && ((t in db.sessions && db.sessions[t].expiresAt < now) ==>
                  r == Err(TokenExpired) && db' == RemoveSession(db, t))
            && ((t in db.sessions && !(db.sessions[t].expiresAt < now)) ==>
                  && db' == db
                  && (r == Ok(()) <==> !Truthy(req.clientToken) || db.sessions[t].clientToken == req.clientToken.value)
                  && (r != Ok(()) ==> r == Err(InvalidToken))))
  {
  }

  lemma ValidateKeepsInvariants(db: Db, req: ValidateRequest, now: Millis)
    requires Valid(db)
    ensures Valid(ValidateSpec(db, req, now).1)
    ensures UniqueIdentifiers(db) ==> UniqueIdentifiers(ValidateSpec(db, req, now).1)
  {
    if Truthy(req.accessToken) {
      RemoveSessionValid(db, req.accessToken.value);
    }
  }

  /** Validating an expired token twice: first "Token expired.", then "Invalid token.", since the first call deleted it. */
  lemma ValidateExpiredTwice(db: Db, token: Token, clientToken: Option<string>, now: Millis)
    requires token != "" && token in db.sessions && db.sessions[token].expiresAt < now
    ensures var (r1, db1) := ValidateSpec(db, ValidateRequest(Some(token), clientToken), now);
      var (r2, db2) := ValidateSpec(db1, ValidateRequest(Some(token), clientToken), now);
      r1 == Err(TokenExpired) && r2 == Err(InvalidToken) && db2 == db1
  {
  }

  // ---------------------------------------------------------------------------
  // Handlers together

  /** The tokens a successful authenticate returns validate until the session's expiry. */
  lemma AuthenticateThenValidate(db: Db, req: AuthenticateRequest, now: Millis, accessToken: Token,
                                 minted: Token, expiresIn: int, later: Millis)
    requires Valid(db)
    requires AuthenticateSpec(db, req, now, accessToken, minted, expiresIn).0.Ok?
    requires later <= now + expiresIn * 1000
    ensures var (r, db') := AuthenticateSpec(db, req, now, accessToken, minted, expiresIn);
      ValidateSpec(db', ValidateRequest(Some(r.value.accessToken), Some(r.value.clientToken)), later) == (Ok(()), db')
  {
    AuthenticateSuccess(db, req, now, accessToken, minted, expiresIn);
  }

  /**
   * After a successful refresh to a different token, the old access token no longer
   * validates and the new one, with the same client token, does until it expires.
   */
  lemma RefreshInvalidatesOldToken(db: Db, req: RefreshRequest, now: Millis, newAccessToken: Token,
                                   expiresIn: int, later: Millis)
    requires Valid(db)
    requires RefreshSpec(db, req, now, newAccessToken, expiresIn).0.Ok?
    requires newAccessToken != req.accessToken.value
    requires later <= now + expiresIn * 1000
    ensures var (r, db') := RefreshSpec(db, req, now, newAccessToken, expiresIn);
      && ValidateSpec(db', ValidateRequest(req.accessToken, None), later) == (Err(InvalidToken), db')
      && ValidateSpec(db', ValidateRequest(Some(newAccessToken), req.clientToken), later) == (Ok(()), db')
  {
    RefreshRotatesSession(db, req, now, newAccessToken, expiresIn);
  }

  /**
   * The periodic sweep never revokes a session that validate accepts: sweeping at any
   * time up to `now` leaves a successful validate successful.
   */
  lemma SweepKeepsValidSessions(db: Db, req: ValidateRequest, sweptAt: Millis, now: Millis)
    requires sweptAt <= now
    requires ValidateSpec(db, req, now).0 == Ok(())
    ensures ValidateSpec(SweepExpired(db, sweptAt), req, now).0 == Ok(())
  {
    SweepSpec(db, sweptAt);
  }
}
