/**
 * The module-level maps of src/database/memoryStore.ts as one object. Each method
 * updates the fields in place the way the source does and is proved to leave the
 * state that the corresponding Database function describes; the read-only lookups
 * of the source (findUserById, findSessionByAccessToken, getUserProfiles, ...) are
 * those Database functions applied to State().
 */
module MemoryStore {
  import opened Types
  import opened Database
  import Bcrypt

  class Store {
    var users: map<UserId, User>
    /** The insertion order in which `users.values()` iterates. */
    var userOrder: seq<UserId>
    var sessions: map<Token, Session>
    var profiles: map<ProfileId, Profile>
    var userProfiles: map<UserId, seq<ProfileId>>
    var userSkins: map<UserId, seq<Skin>>
    var userCapes: map<UserId, seq<Cape>>
    var userActiveSkin: map<UserId, string>
    var userActiveCape: map<UserId, string>

    function State(): Db
      reads this
    {
      Db(users, userOrder, sessions, profiles, userProfiles, userSkins, userCapes, userActiveSkin, userActiveCape)
    }

    ghost predicate Valid()
      reads this
    {
      Database.Valid(State())
    }

    /** The store after initializeDatabase, with the admin's ids, salt and creation time given. */
    constructor (adminId: UserId, adminProfileId: ProfileId, salt: nat, now: Millis)
      ensures Valid() && UniqueIdentifiers(State())
      ensures State() == Seeded(adminId, adminProfileId, salt, now)
    {
      var db := Seeded(adminId, adminProfileId, salt, now);
      users, userOrder, sessions, profiles, userProfiles := db.users, db.userOrder, db.sessions, db.profiles, db.userProfiles;
      userSkins, userCapes, userActiveSkin, userActiveCape := map[], map[], map[], map[];
    }

    /** findUserByEmailOrUsername: scans the users in insertion order and returns the first match. */
    method FindUserByEmailOrUsername(ident: string) returns (r: Option<User>)
      requires Valid()
      ensures r == FindUser(State(), ident)
      ensures r.Some? ==> HasIdentifier(r.value, ident) && r.value.id in users && users[r.value.id] == r.value
      ensures r.None? <==> forall id | id in users :: !HasIdentifier(users[id], ident)
    {
      var i := 0;
      while i < |userOrder|
        invariant 0 <= i <= |userOrder|
        invariant FirstWithIdentifier(userOrder[i..], users, ident) == FirstWithIdentifier(userOrder, users, ident)
      {
        assert userOrder[i..][1..] == userOrder[i + 1..];
        var id := userOrder[i];
        if id in users && (users[id].email == ident || users[id].username == ident) {
          r := Some(users[id]);
          FindUserSpec(State(), ident);
          return;
        }
        i := i + 1;
      }
      r := None;
      FindUserSpec(State(), ident);
    }

    /** createUser, with the fresh id, the salt and the clock given. */
    method CreateUser(username: string, email: string, password: string, id: UserId, salt: nat, now: Millis)
      returns (user: User)
      requires Valid() && id !in users
      modifies this
      ensures Valid()
      ensures user == NewUser(id, username, email, Bcrypt.HashPassword(password, salt), now)
      ensures State() == AddUser(old(State()), user)
    {
      user := NewUser(id, username, email, Bcrypt.HashPassword(password, salt), now);
      users := users[id := user];
      userOrder := userOrder + [id];
      assert State() == AddUser(old(State()), user);
      AddUserValid(old(State()), user);
    }

    /**
     * createSession: stores the session under its access token, replacing any session stored there.
     * It does not look the user up; the invariant is kept when the owner is a stored user, as it is
     * for both of its callers.
     */
    method CreateSession(userId: UserId, username: string, accessToken: Token, clientToken: Token,
                         now: Millis, expiresIn: int := DefaultExpiresIn)
      returns (session: Session)
      requires Valid()
      modifies this
      ensures userId in users ==> Valid()
      ensures session == MakeSession(userId, username, accessToken, clientToken, now, expiresIn)
      ensures State() == PutSession(old(State()), session)
    {
      session := Session(accessToken, clientToken, userId, username, now + expiresIn * 1000, now);
      sessions := sessions[accessToken := session];
      assert State() == PutSession(old(State()), session);
      if userId in users {
        PutSessionValid(old(State()), session);
      }
    }

    /** findSessionByClientToken: a stored session with that client token, if there is one. */
    method FindSessionByClientToken(clientToken: Token) returns (r: Option<Session>)
      requires Valid()
      ensures r.Some? ==> r.value.clientToken == clientToken
                          && r.value.accessToken in sessions && sessions[r.value.accessToken] == r.value
      ensures r.None? <==> forall t | t in sessions :: sessions[t].clientToken != clientToken
    {
      var unvisited := sessions.Keys;
      while unvisited != {}
        invariant unvisited <= sessions.Keys
        invariant forall t | t in sessions && t !in unvisited :: sessions[t].clientToken != clientToken
        decreases |unvisited|
      {
        var t :| t in unvisited;
        if sessions[t].clientToken == clientToken {
          return Some(sessions[t]);
        }
        unvisited := unvisited - {t};
      }
      return None;
    }

    /** deleteSession. */
    method DeleteSession(accessToken: Token)
      requires Valid()
      modifies this
      ensures Valid()
      ensures State() == RemoveSession(old(State()), accessToken)
    {
      sessions := sessions - {accessToken};
      assert State() == RemoveSession(old(State()), accessToken);
      RemoveSessionValid(old(State()), accessToken);
    }

    /** cleanupExpiredSessions: deletes, one by one, every session that expired before `now`. */
    method CleanupExpiredSessions(now: Millis)
      requires Valid()
      modifies this
      ensures Valid()
      ensures State() == SweepExpired(old(State()), now)
    {
      var unvisited := sessions.Keys;
      while unvisited != {}
        invariant unvisited <= old(sessions).Keys
        invariant State() == old(State()).(sessions := sessions)
        invariant forall t :: t in sessions <==> t in old(sessions) && (t in unvisited || old(sessions)[t].expiresAt >= now)
        invariant forall t | t in sessions :: sessions[t] == old(sessions)[t]
        decreases |unvisited|
      {
        var t :| t in unvisited;
        if sessions[t].expiresAt < now {
          sessions := sessions - {t};
        }
        unvisited := unvisited - {t};
      }
      UnexpiredUnique(old(sessions), sessions, now);
      SweepValid(old(State()), now);
    }

    /** createProfile, with the fresh profile id and the clock given. */
    method CreateProfile(userId: UserId, profileName: string, profileId: ProfileId, now: Millis)
      returns (profile: Profile)
      requires Valid() && profileId !in profiles && userId in users
      modifies this
      ensures Valid()
      ensures profile == NewProfile(profileId, userId, profileName, now)
      ensures State() == AddProfile(old(State()), profile)
    {
      profile := NewProfile(profileId, userId, profileName, now);
      var ids := if userId in userProfiles then userProfiles[userId] else [];
      profiles := profiles[profileId := profile];
      userProfiles := userProfiles[userId := ids + [profileId]];
      assert State() == AddProfile(old(State()), profile);
      AddProfileValid(old(State()), profile);
    }

    /** updateUserPassword: only a stored user's hash is replaced. */
    method UpdateUserPassword(userId: UserId, newPasswordHash: Bcrypt.Hash)
      requires Valid()
      modifies this
      ensures Valid()
      ensures State() == SetPasswordHash(old(State()), userId, newPasswordHash)
    {
      if userId in users {
        var user := users[userId];
        users := users[userId := user.(passwordHash := newPasswordHash)];
        assert State() == AddUser(old(State()), user.(passwordHash := newPasswordHash));
        ReplaceUserValid(old(State()), user.(passwordHash := newPasswordHash));
      }
    }

    /** addUserSkin, with the generated id and the clock given. */
    method AddUserSkin(userId: UserId, name: string, url: string, skinId: string, now: Millis) returns (skin: Skin)
      requires Valid()
      modifies this
      ensures Valid()
      ensures skin == Texture(skinId, userId, name, url, now)
      ensures State() == old(State()).(userSkins := AddTexture(old(userSkins), skin))
    {
      var skins := if userId in userSkins then userSkins[userId] else [];
      skin := Texture(skinId, userId, name, url, now);
      skins := skins + [skin];
      userSkins := userSkins[userId := skins];
      TextureEditsValid(old(State()), userSkins, userCapes, userActiveSkin, userActiveCape);
    }

    /** deleteUserSkin. */
    method DeleteUserSkin(userId: UserId, skinId: string) returns (deleted: bool)
      requires Valid()
      modifies this
      ensures Valid()
      ensures var d := DeleteTexture(old(userSkins), old(userActiveSkin), userId, skinId);
        deleted == d.deleted && State() == old(State()).(userSkins := d.lists, userActiveSkin := d.active)
    {
      var skins := if userId in userSkins then userSkins[userId] else [];
      var filtered := WithoutId(skins, skinId);
      if |filtered| < |skins| {
        userSkins := userSkins[userId := filtered];
        var deletedSkin := FirstWithId(skins, skinId);
        if deletedSkin.Some? && userId in userActiveSkin && userActiveSkin[userId] == deletedSkin.value.url {
          userActiveSkin := userActiveSkin - {userId};
        }
        deleted := true;
      } else {
        deleted := false;
      }
      TextureEditsValid(old(State()), userSkins, userCapes, userActiveSkin, userActiveCape);
    }

    /** setUserActiveSkin: always reports success. */
    method SetUserActiveSkin(userId: UserId, skinUrl: string) returns (ok: bool)
      requires Valid()
      modifies this
      ensures Valid()
      ensures ok
      ensures State() == old(State()).(userActiveSkin := old(userActiveSkin)[userId := skinUrl])
    {
      userActiveSkin := userActiveSkin[userId := skinUrl];
      TextureEditsValid(old(State()), userSkins, userCapes, userActiveSkin, userActiveCape);
      return true;
    }

    /** addUserCape, with the generated id and the clock given. */
    method AddUserCape(userId: UserId, name: string, url: string, capeId: string, now: Millis) returns (cape: Cape)
      requires Valid()
      modifies this
      ensures Valid()
      ensures cape == Texture(capeId, userId, name, url, now)
      ensures State() == old(State()).(userCapes := AddTexture(old(userCapes), cape))
    {
      var capes := if userId in userCapes then userCapes[userId] else [];
      cape := Texture(capeId, userId, name, url, now);
      capes := capes + [cape];
      userCapes := userCapes[userId := capes];
      TextureEditsValid(old(State()), userSkins, userCapes, userActiveSkin, userActiveCape);
    }

    /** deleteUserCape. */
    method DeleteUserCape(userId: UserId, capeId: string) returns (deleted: bool)
      requires Valid()
      modifies this
      ensures Valid()
      ensures var d := DeleteTexture(old(userCapes), old(userActiveCape), userId, capeId);
        deleted == d.deleted && State() == old(State()).(userCapes := d.lists, userActiveCape := d.active)
    {
      var capes := if userId in userCapes then userCapes[userId] else [];
      var filtered := WithoutId(capes, capeId);
      if |filtered| < |capes| {
        userCapes := userCapes[userId := filtered];
        var deletedCape := FirstWithId(capes, capeId);
        if deletedCape.Some? && userId in userActiveCape && userActiveCape[userId] == deletedCape.value.url {
          userActiveCape := userActiveCape - {userId};
        }
        deleted := true;
      } else {
        deleted := false;
      }
      TextureEditsValid(old(State()), userSkins, userCapes, userActiveSkin, userActiveCape);
    }

    /** setUserActiveCape: always reports success. */
    method SetUserActiveCape(userId: UserId, capeUrl: string) returns (ok: bool)
      requires Valid()
      modifies this
      ensures Valid()
      ensures ok
      ensures State() == old(State()).(userActiveCape := old(userActiveCape)[userId := capeUrl])
    {
      userActiveCape := userActiveCape[userId := capeUrl];
      TextureEditsValid(old(State()), userSkins, userCapes, userActiveSkin, userActiveCape);
      return true;
    }
  }

  /** A table holding exactly the unexpired sessions of `m`, unchanged, is the sweep of `m`. */
  lemma UnexpiredUnique(m: map<Token, Session>, kept: map<Token, Session>, now: Millis)
    requires forall t :: t in kept <==> t in m && m[t].expiresAt >= now
    requires forall t | t in kept :: kept[t] == m[t]
    ensures kept == Unexpired(m, now)
  {
  }

  /** Texture edits do not touch the tables the invariant is about. */
  lemma TextureEditsValid(db: Db, skins: map<UserId, seq<Skin>>, capes: map<UserId, seq<Cape>>,
                          activeSkin: map<UserId, string>, activeCape: map<UserId, string>)
    requires Database.Valid(db)
    ensures Database.Valid(db.(userSkins := skins, userCapes := capes, userActiveSkin := activeSkin, userActiveCape := activeCape))
  {
  }
}
