/**
 * The in-memory store of src/database/memoryStore.ts as a value: its eight maps,
 * plus the insertion order of `users` that a JavaScript Map iterates in. Every
 * operation of the store is defined here once, as a function on this value; the
 * class in MemoryStore holds the same tables as fields and its methods are proved
 * to perform these functions.
 */
module Database {
  import opened Types
  import Bcrypt

  const DefaultSkinUrl := "/skins/default.png"
  const DefaultCapeUrl := "/capes/default.png"

  /** The default `expiresIn` of createSession and ACCESS_TOKEN_EXPIRY, in seconds. */
  const DefaultExpiresIn := 86400

  datatype Db = Db(
    users: map<UserId, User>,
    userOrder: seq<UserId>,
    sessions: map<Token, Session>,
    profiles: map<ProfileId, Profile>,
    userProfiles: map<UserId, seq<ProfileId>>,
    userSkins: map<UserId, seq<Skin>>,
    userCapes: map<UserId, seq<Cape>>,
    userActiveSkin: map<UserId, string>,
    userActiveCape: map<UserId, string>)

  // ---------------------------------------------------------------------------
  // The store invariant

  /** `userOrder` lists the keys of `users` once each, and every user is stored under its id. */
  ghost predicate UsersIndexed(db: Db) {
    && (forall i, j | 0 <= i < j < |db.userOrder| :: db.userOrder[i] != db.userOrder[j])
    && (forall i | 0 <= i < |db.userOrder| :: db.userOrder[i] in db.users)
    && (forall id | id in db.users :: id in db.userOrder)
    && (forall id | id in db.users :: db.users[id].id == id)
  }

  ghost predicate SessionsKeyed(db: Db) {
    forall t | t in db.sessions :: db.sessions[t].accessToken == t
  }

  /** Every session belongs to a stored user: sessions are only created for users found in the store, and users are never removed. */
  ghost predicate SessionsOwned(db: Db) {
    forall s | s in db.sessions.Values :: s.userId in db.users
  }

  /** Profiles are stored under their ids, and a user's profile list names profiles that user owns. */
  ghost predicate ProfilesOwned(db: Db) {
    && (forall p | p in db.profiles :: db.profiles[p].id == p)
    && (forall u | u in db.userProfiles :: u in db.users)
    && (forall u, i | u in db.userProfiles && 0 <= i < |db.userProfiles[u]| ::
          db.userProfiles[u][i] in db.profiles && db.profiles[db.userProfiles[u][i]].userId == u)
  }

  ghost predicate Valid(db: Db) {
    UsersIndexed(db) && SessionsKeyed(db) && SessionsOwned(db) && ProfilesOwned(db)
  }

  /**
   * No identifier (username or email) belongs to two users. The register handler keeps
   * this; createUser itself does not check it.
   */
  ghost predicate UniqueIdentifiers(db: Db) {
    forall a, b | a in db.users && b in db.users && a != b ::
      !HasIdentifier(db.users[b], db.users[a].username) && !HasIdentifier(db.users[b], db.users[a].email)
  }

  /** The state initializeDatabase leaves: user "admin" with the single profile "AdminPlayer". */
  function Seeded(adminId: UserId, adminProfileId: ProfileId, salt: nat, now: Millis): (db: Db)
    ensures Valid(db) && UniqueIdentifiers(db)
    ensures db.users.Keys == {adminId} && db.profiles.Keys == {adminProfileId} && db.sessions == map[]
    ensures db.userProfiles == map[adminId := [adminProfileId]]
  {
    var admin := User(adminId, "admin", "admin@drklauncher.com", Bcrypt.HashPassword("admin123", salt),
                      Some(DefaultSkinUrl), Some(DefaultCapeUrl), now, Some(now));
    var profile := Profile(adminProfileId, adminId, "AdminPlayer", Some(DefaultSkinUrl), Some(DefaultCapeUrl), now);
    Db(map[adminId := admin], [adminId], map[], map[adminProfileId := profile], map[adminId := [adminProfileId]],
       map[], map[], map[], map[])
  }

  // ---------------------------------------------------------------------------
  // Users

  predicate HasIdentifier(u: User, ident: string) {
    u.email == ident || u.username == ident
  }

  ghost predicate IdentifierTaken(db: Db, ident: string) {
    exists id | id in db.users :: HasIdentifier(db.users[id], ident)
  }

  /** No user listed in `order` before position k has `ident`. */
  ghost predicate NoneBefore(order: seq<UserId>, users: map<UserId, User>, ident: string, k: int)
    requires k <= |order|
  {
    forall j | 0 <= j < k && order[j] in users :: !HasIdentifier(users[order[j]], ident)
  }

  /** The scan of findUserByEmailOrUsername over the users in `order`: the first that has `ident`. */
  function FirstWithIdentifier(order: seq<UserId>, users: map<UserId, User>, ident: string): (r: Option<User>)
    ensures r.None? <==> NoneBefore(order, users, ident, |order|)
    ensures r.Some? ==> exists k :: 0 <= k < |order| && order[k] in users && users[order[k]] == r.value
                                    && HasIdentifier(r.value, ident) && NoneBefore(order, users, ident, k)
  {
    if order == [] then None
    else if order[0] in users && HasIdentifier(users[order[0]], ident) then
      assert NoneBefore(order, users, ident, 0);
      Some(users[order[0]])
    else
      var r := FirstWithIdentifier(order[1..], users, ident);
      assert r.Some? ==> exists k :: 1 <= k < |order| && order[k] in users && users[order[k]] == r.value
                                    && HasIdentifier(r.value, ident) && NoneBefore(order, users, ident, k) by {
        if r.Some? {
          var k :| 0 <= k < |order[1..]| && order[1..][k] in users && users[order[1..][k]] == r.value
                   && HasIdentifier(r.value, ident) && NoneBefore(order[1..], users, ident, k);
          assert order[k + 1] == order[1..][k];
          assert NoneBefore(order, users, ident, k + 1) by {
            forall j | 0 <= j < k + 1 && order[j] in users ensures !HasIdentifier(users[order[j]], ident) {
              if j > 0 { assert order[j] == order[1..][j - 1]; }
            }
          }
        }
      }
      assert r.None? <==> NoneBefore(order, users, ident, |order|) by {
        if r.None? {
          forall j | 0 <= j < |order| && order[j] in users ensures !HasIdentifier(users[order[j]], ident) {
            if j > 0 { assert order[j] == order[1..][j - 1]; }
          }
        } else {
          var k :| 1 <= k < |order| && order[k] in users && users[order[k]] == r.value && HasIdentifier(r.value, ident);
          assert !NoneBefore(order, users, ident, |order|);
        }
      }
      r
  }

  /** findUserByEmailOrUsername: the first user, in insertion order, whose email or username is `ident`. */
  function FindUser(db: Db, ident: string): (r: Option<User>)
    ensures r.Some? ==> HasIdentifier(r.value, ident) && r.value in db.users.Values
    ensures r.None? ==> forall i | 0 <= i < |db.userOrder| && db.userOrder[i] in db.users ::
                          !HasIdentifier(db.users[db.userOrder[i]], ident)
  {
    FirstWithIdentifier(db.userOrder, db.users, ident)
  }

  /** With the invariant, the user found is stored under its own id, and none is found iff no user has the identifier. */
  lemma FindUserSpec(db: Db, ident: string)
    requires UsersIndexed(db)
    ensures FindUser(db, ident).None? <==> !IdentifierTaken(db, ident)
    ensures FindUser(db, ident).Some? ==>
              var u := FindUser(db, ident).value;
              u.id in db.users && db.users[u.id] == u && HasIdentifier(u, ident)
  {
    var r := FindUser(db, ident);
    if r.None? {
      forall id | id in db.users ensures !HasIdentifier(db.users[id], ident) {
        var j :| 0 <= j < |db.userOrder| && db.userOrder[j] == id;
      }
    }
  }

  /** Scanning one more user only matters when none of the earlier ones matched. */
  lemma {:induction false} FirstWithIdentifierAppend(order: seq<UserId>, x: UserId, users: map<UserId, User>, ident: string)
    ensures FirstWithIdentifier(order + [x], users, ident) ==
              if FirstWithIdentifier(order, users, ident).Some? then FirstWithIdentifier(order, users, ident)
              else if x in users && HasIdentifier(users[x], ident) then Some(users[x])
              else None
  {
    if order == [] {
      assert order + [x] == [x];
      assert [x][1..] == [];
    } else {
      assert (order + [x])[0] == order[0];
      assert (order + [x])[1..] == order[1..] + [x];
      FirstWithIdentifierAppend(order[1..], x, users, ident);
    }
  }

  /** When no user has the identifier, the one just added is the one found. */
  lemma FindUserAfterAdd(db: Db, u: User, ident: string)
    requires UsersIndexed(db) && u.id !in db.users
    requires !IdentifierTaken(db, ident) && HasIdentifier(u, ident)
    ensures FindUser(AddUser(db, u), ident) == Some(u)
  {
    var db' := AddUser(db, u);
    assert NoneBefore(db.userOrder, db'.users, ident, |db.userOrder|) by {
      forall j | 0 <= j < |db.userOrder| && db.userOrder[j] in db'.users
        ensures !HasIdentifier(db'.users[db.userOrder[j]], ident)
      {
        assert db.userOrder[j] in db.users;
      }
    }
    FirstWithIdentifierAppend(db.userOrder, u.id, db'.users, ident);
  }

  /** findUserById. */
  function FindUserById(db: Db, id: UserId): (r: Option<User>)
    ensures r.Some? <==> id in db.users
    ensures r.Some? ==> r.value == db.users[id]
  {
    if id in db.users then Some(db.users[id]) else None
  }

  /** The record createUser builds; lastLogin stays unset until the first authenticate. */
  function NewUser(id: UserId, username: string, email: string, passwordHash: Bcrypt.Hash, now: Millis): User {
    User(id, username, email, passwordHash, Some(DefaultSkinUrl), Some(DefaultCapeUrl), now, None)
  }

  /** `users.set(u.id, u)`: a new key goes to the end of the iteration order, a known key keeps its place. */
  function AddUser(db: Db, u: User): (r: Db)
    ensures r.users.Keys == db.users.Keys + {u.id} && r.users[u.id] == u
    ensures forall id | id in db.users && id != u.id :: r.users[id] == db.users[id]
    ensures r == db.(users := r.users, userOrder := r.userOrder)
    ensures u.id !in db.users ==> r.userOrder == db.userOrder + [u.id]
    ensures u.id in db.users ==> r.userOrder == db.userOrder
  {
    db.(users := db.users[u.id := u],
        userOrder := if u.id in db.users then db.userOrder else db.userOrder + [u.id])
  }

  lemma AddUserValid(db: Db, u: User)
    requires Valid(db)
    ensures Valid(AddUser(db, u))
  {
    var db' := AddUser(db, u);
    if u.id !in db.users {
      assert db'.userOrder[|db.userOrder|] == u.id;
    }
  }

  /** Adding a user whose username and email nobody has keeps every identifier unique. */
  lemma AddUserUnique(db: Db, u: User)
    requires UniqueIdentifiers(db) && u.id !in db.users
    requires !IdentifierTaken(db, u.username) && !IdentifierTaken(db, u.email)
    ensures UniqueIdentifiers(AddUser(db, u))
  {
  }

  /** updateUserPassword: replaces the hash of a known user, does nothing for an unknown id. */
  function SetPasswordHash(db: Db, id: UserId, h: Bcrypt.Hash): (r: Db)
    ensures id !in db.users ==> r == db
    ensures id in db.users ==> r.users.Keys == db.users.Keys && r.users[id] == db.users[id].(passwordHash := h)
    ensures forall k | k in db.users && k != id :: k in r.users && r.users[k] == db.users[k]
    ensures r == db.(users := r.users)
  {
    if id in db.users then db.(users := db.users[id := db.users[id].(passwordHash := h)]) else db
  }

  /** `user.lastLogin = new Date()` on the stored user record. */
  function SetLastLogin(db: Db, id: UserId, now: Millis): (r: Db)
    ensures id !in db.users ==> r == db
    ensures id in db.users ==> r.users.Keys == db.users.Keys && r.users[id] == db.users[id].(lastLogin := Some(now))
    ensures forall k | k in db.users && k != id :: k in r.users && r.users[k] == db.users[k]
    ensures r == db.(users := r.users)
  {
    if id in db.users then db.(users := db.users[id := db.users[id].(lastLogin := Some(now))]) else db
  }

  /** Replacing a stored user by a record with the same id keeps the insertion order and the invariant. */
  lemma ReplaceUserValid(db: Db, u: User)
    requires Valid(db) && u.id in db.users
    ensures AddUser(db, u).userOrder == db.userOrder
    ensures Valid(AddUser(db, u))
  {
    var db' := AddUser(db, u);
    assert db'.users.Keys == db.users.Keys;
    assert UsersIndexed(db');
    assert SessionsOwned(db');
    assert ProfilesOwned(db');
  }

  /** Replacing a stored user by a record with the same username and email keeps identifiers unique. */
  lemma ReplaceUserUnique(db: Db, u: User)
    requires UniqueIdentifiers(db) && u.id in db.users
    requires u.username == db.users[u.id].username && u.email == db.users[u.id].email
    ensures UniqueIdentifiers(AddUser(db, u))
  {
  }

  lemma SetUserFieldValid(db: Db, id: UserId, h: Bcrypt.Hash, now: Millis)
    requires Valid(db)
    ensures Valid(SetPasswordHash(db, id, h)) && Valid(SetLastLogin(db, id, now))
    ensures UniqueIdentifiers(db) ==>
              UniqueIdentifiers(SetPasswordHash(db, id, h)) && UniqueIdentifiers(SetLastLogin(db, id, now))
  {
    if id in db.users {
      ReplaceUserValid(db, db.users[id].(passwordHash := h));
      ReplaceUserValid(db, db.users[id].(lastLogin := Some(now)));
      if UniqueIdentifiers(db) {
        ReplaceUserUnique(db, db.users[id].(passwordHash := h));
        ReplaceUserUnique(db, db.users[id].(lastLogin := Some(now)));
      }
    }
  }

  // ---------------------------------------------------------------------------
  // Sessions

  /** findSessionByAccessToken: the stored record itself, expired or not. */
  function FindSession(db: Db, token: Token): (r: Option<Session>)
    ensures r.Some? <==> token in db.sessions
    ensures r.Some? ==> r.value == db.sessions[token]
  {
    if token in db.sessions then Some(db.sessions[token]) else None
  }

  /** The record createSession builds: it expires `expiresIn` seconds after `now`. */
  function MakeSession(userId: UserId, username: string, accessToken: Token, clientToken: Token,
                       now: Millis, expiresIn: int): (s: Session)
    ensures s.accessToken == accessToken && s.clientToken == clientToken
    ensures s.userId == userId && s.username == username && s.createdAt == now
    ensures s.expiresAt - s.createdAt == expiresIn * 1000
    ensures expiresIn > 0 ==> !(s.expiresAt < now)
  {
    Session(accessToken, clientToken, userId, username, now + expiresIn * 1000, now)
  }

  /** `sessions.set(s.accessToken, s)`: any earlier session under that token is replaced. */
  function PutSession(db: Db, s: Session): (r: Db)
    ensures r.sessions.Keys == db.sessions.Keys + {s.accessToken} && r.sessions[s.accessToken] == s
    ensures forall t | t in db.sessions && t != s.accessToken :: r.sessions[t] == db.sessions[t]
    ensures r == db.(sessions := r.sessions)
  {
    db.(sessions := db.sessions[s.accessToken := s])
  }

  /** deleteSession. */
  function RemoveSession(db: Db, token: Token): (r: Db)
    ensures r.sessions.Keys == db.sessions.Keys - {token}
    ensures r == db.(sessions := r.sessions)
  {
    db.(sessions := db.sessions - {token})
  }

  /** Deleting a session removes its key only, and deleting twice is deleting once. */
  lemma RemoveSessionSpec(db: Db, token: Token)
    ensures token !in RemoveSession(db, token).sessions
    ensures forall t | t in db.sessions && t != token ::
              t in RemoveSession(db, token).sessions && RemoveSession(db, token).sessions[t] == db.sessions[t]
    ensures RemoveSession(RemoveSession(db, token), token) == RemoveSession(db, token)
    ensures token !in db.sessions ==> RemoveSession(db, token) == db
  {
  }

  lemma PutSessionValid(db: Db, s: Session)
    requires Valid(db) && s.userId in db.users
    ensures Valid(PutSession(db, s))
    ensures UniqueIdentifiers(db) ==> UniqueIdentifiers(PutSession(db, s))
  {
    var db' := PutSession(db, s);
    assert UsersIndexed(db') && ProfilesOwned(db');
    assert SessionsKeyed(db') && SessionsOwned(db');
  }

  lemma RemoveSessionValid(db: Db, token: Token)
    requires Valid(db)
    ensures Valid(RemoveSession(db, token))
    ensures UniqueIdentifiers(db) ==> UniqueIdentifiers(RemoveSession(db, token))
  {
    var db' := RemoveSession(db, token);
    assert UsersIndexed(db') && ProfilesOwned(db');
    assert SessionsKeyed(db') && SessionsOwned(db');
  }

  /** The sessions cleanupExpiredSessions keeps: those with `expiresAt >= now`. */
  function Unexpired(sessions: map<Token, Session>, now: Millis): map<Token, Session> {
    map t | t in sessions && !(sessions[t].expiresAt < now) :: sessions[t]
  }

  function SweepExpired(db: Db, now: Millis): (r: Db)
    ensures r.sessions.Keys <= db.sessions.Keys
    ensures r == db.(sessions := r.sessions)
  {
    db.(sessions := Unexpired(db.sessions, now))
  }

  /** The sweep removes exactly the expired sessions and keeps the rest unchanged. */
  lemma SweepSpec(db: Db, now: Millis)
    ensures forall t :: t in SweepExpired(db, now).sessions <==> t in db.sessions && db.sessions[t].expiresAt >= now
    ensures forall t | t in SweepExpired(db, now).sessions :: SweepExpired(db, now).sessions[t] == db.sessions[t]
  {
  }

  lemma SweepIdempotent(db: Db, now: Millis)
    ensures SweepExpired(SweepExpired(db, now), now) == SweepExpired(db, now)
  {
    assert Unexpired(Unexpired(db.sessions, now), now) == Unexpired(db.sessions, now);
  }

  lemma SweepValid(db: Db, now: Millis)
    requires Valid(db)
    ensures Valid(SweepExpired(db, now))
    ensures UniqueIdentifiers(db) ==> UniqueIdentifiers(SweepExpired(db, now))
  {
    var db' := SweepExpired(db, now);
    assert SessionsKeyed(db') && SessionsOwned(db');
    assert UsersIndexed(db') && ProfilesOwned(db');
  }

  // ---------------------------------------------------------------------------
  // Profiles

  /** `profileIds.map(id => profiles.get(id)!).filter(Boolean)`: ids without a profile are dropped. */
  function ResolveProfiles(ids: seq<ProfileId>, profiles: map<ProfileId, Profile>): (r: seq<Profile>)
    ensures |r| <= |ids|
    ensures forall k | 0 <= k < |r| :: r[k] in profiles.Values
  {
    if ids == [] then []
    else (if ids[0] in profiles then [profiles[ids[0]]] else []) + ResolveProfiles(ids[1..], profiles)
  }

  /** When every id has a profile, the result lists their profiles one for one, in order. */
  lemma {:induction false} ResolveProfilesExact(ids: seq<ProfileId>, profiles: map<ProfileId, Profile>)
    requires forall i | 0 <= i < |ids| :: ids[i] in profiles
    ensures |ResolveProfiles(ids, profiles)| == |ids|
    ensures forall i | 0 <= i < |ids| :: ResolveProfiles(ids, profiles)[i] == profiles[ids[i]]
  {
    if ids != [] {
      ResolveProfilesExact(ids[1..], profiles);
      var r := ResolveProfiles(ids, profiles);
      forall i | 0 <= i < |ids| ensures r[i] == profiles[ids[i]] {
        if i > 0 { assert ids[i] == ids[1..][i - 1]; }
      }
    }
  }

  lemma {:induction false} ResolveProfilesAppend(ids: seq<ProfileId>, id: ProfileId, profiles: map<ProfileId, Profile>)
    requires id in profiles
    ensures ResolveProfiles(ids + [id], profiles) == ResolveProfiles(ids, profiles) + [profiles[id]]
  {
    if ids == [] {
      assert ids + [id] == [id];
    } else {
      assert (ids + [id])[1..] == ids[1..] + [id];
      ResolveProfilesAppend(ids[1..], id, profiles);
    }
  }

  /** Resolution only looks at the ids it is given. */
  lemma {:induction false} ResolveProfilesFrame(ids: seq<ProfileId>, m1: map<ProfileId, Profile>, m2: map<ProfileId, Profile>)
    requires forall i | 0 <= i < |ids| :: (ids[i] in m1 <==> ids[i] in m2)
    requires forall i | 0 <= i < |ids| && ids[i] in m1 :: m1[ids[i]] == m2[ids[i]]
    ensures ResolveProfiles(ids, m1) == ResolveProfiles(ids, m2)
  {
    if ids != [] {
      ResolveProfilesFrame(ids[1..], m1, m2);
    }
  }

  function ProfileIdsOf(db: Db, userId: UserId): seq<ProfileId> {
    if userId in db.userProfiles then db.userProfiles[userId] else []
  }

  /** getUserProfiles. */
  function UserProfiles(db: Db, userId: UserId): (r: seq<Profile>)
    ensures |r| <= |ProfileIdsOf(db, userId)|
    ensures forall p | p in r :: p in db.profiles.Values
  {
    ResolveProfiles(ProfileIdsOf(db, userId), db.profiles)
  }

  /**
   * With the invariant, a user's profiles are the profiles of its id list in creation order,
   * each owned by that user; an unknown user has none.
   */
  lemma UserProfilesSpec(db: Db, userId: UserId)
    requires Valid(db)
    ensures |UserProfiles(db, userId)| == |ProfileIdsOf(db, userId)|
    ensures forall i | 0 <= i < |ProfileIdsOf(db, userId)| ::
              UserProfiles(db, userId)[i] == db.profiles[ProfileIdsOf(db, userId)[i]]
    ensures forall p | p in UserProfiles(db, userId) :: p.userId == userId && p.id in db.profiles && db.profiles[p.id] == p
    ensures userId !in db.users ==> UserProfiles(db, userId) == []
  {
    var ids := ProfileIdsOf(db, userId);
    ResolveProfilesExact(ids, db.profiles);
    forall p | p in UserProfiles(db, userId) ensures p.userId == userId && p.id in db.profiles && db.profiles[p.id] == p {
      var k :| 0 <= k < |UserProfiles(db, userId)| && UserProfiles(db, userId)[k] == p;
      assert p == db.profiles[ids[k]];
    }
  }

  /** The record createProfile builds. */
  function NewProfile(id: ProfileId, userId: UserId, name: string, now: Millis): Profile {
    Profile(id, userId, name, None, None, now)
  }

  /** createProfile: store the profile and append its id to the owner's list. */
  function AddProfile(db: Db, p: Profile): (r: Db)
    ensures r.profiles.Keys == db.profiles.Keys + {p.id} && r.profiles[p.id] == p
    ensures p.userId in r.userProfiles && r.userProfiles[p.userId] == ProfileIdsOf(db, p.userId) + [p.id]
    ensures forall u | u in db.userProfiles && u != p.userId :: u in r.userProfiles && r.userProfiles[u] == db.userProfiles[u]
    ensures r == db.(profiles := r.profiles, userProfiles := r.userProfiles)
  {
    db.(profiles := db.profiles[p.id := p],
        userProfiles := db.userProfiles[p.userId := ProfileIdsOf(db, p.userId) + [p.id]])
  }

  /** Adding a fresh profile for a known user keeps the invariant. */
  lemma AddProfileValid(db: Db, p: Profile)
    requires Valid(db) && p.id !in db.profiles && p.userId in db.users
    ensures Valid(AddProfile(db, p))
    ensures UniqueIdentifiers(db) ==> UniqueIdentifiers(AddProfile(db, p))
  {
    var db' := AddProfile(db, p);
    assert UsersIndexed(db') && SessionsKeyed(db') && SessionsOwned(db');
    assert ProfilesOwned(db') by {
      forall u, i | u in db'.userProfiles && 0 <= i < |db'.userProfiles[u]|
        ensures db'.userProfiles[u][i] in db'.profiles && db'.profiles[db'.userProfiles[u][i]].userId == u
      {
        if u == p.userId && i == |ProfileIdsOf(db, u)| {
          assert db'.userProfiles[u][i] == p.id;
        } else if u == p.userId {
          assert db'.userProfiles[u][i] == ProfileIdsOf(db, u)[i];
        }
      }
    }
  }

  /**
   * Adding a fresh profile appends it to the owner's profiles, with the earlier ones
   * and their order intact, and leaves every other user's profiles as they were.
   */
  lemma AddProfileSpec(db: Db, p: Profile)
    requires Valid(db) && p.id !in db.profiles
    ensures UserProfiles(AddProfile(db, p), p.userId) == UserProfiles(db, p.userId) + [p]
    ensures forall u | u != p.userId :: UserProfiles(AddProfile(db, p), u) == UserProfiles(db, u)
  {
    var db' := AddProfile(db, p);
    forall u ensures ResolveProfiles(ProfileIdsOf(db, u), db'.profiles) == ResolveProfiles(ProfileIdsOf(db, u), db.profiles) {
      var ids := ProfileIdsOf(db, u);
      forall i | 0 <= i < |ids| ensures ids[i] in db.profiles && ids[i] != p.id {
      }
      ResolveProfilesFrame(ids, db'.profiles, db.profiles);
    }
    ResolveProfilesAppend(ProfileIdsOf(db, p.userId), p.id, db'.profiles);
  }

  /** findProfileById. */
  function FindProfileById(db: Db, id: ProfileId): (r: Option<Profile>)
    ensures r.Some? <==> id in db.profiles
    ensures r.Some? ==> r.value == db.profiles[id]
  {
    if id in db.profiles then Some(db.profiles[id]) else None
  }

  // ---------------------------------------------------------------------------
  // Skins and capes: one list per user and one active url per user, for each kind

  /** getUserSkins / getUserCapes: the user's list, or an empty list. */
  function TexturesOf(lists: map<UserId, seq<Texture>>, userId: UserId): seq<Texture> {
    if userId in lists then lists[userId] else []
  }

  /** addUserSkin / addUserCape: append to the user's list. */
  function AddTexture(lists: map<UserId, seq<Texture>>, t: Texture): (r: map<UserId, seq<Texture>>)
    ensures r.Keys == lists.Keys + {t.userId}
    ensures TexturesOf(r, t.userId) == TexturesOf(lists, t.userId) + [t]
    ensures forall u | u != t.userId :: TexturesOf(r, u) == TexturesOf(lists, u)
  {
    lists[t.userId := TexturesOf(lists, t.userId) + [t]]
  }

  predicate HasTextureId(items: seq<Texture>, id: string) {
    exists i :: 0 <= i < |items| && items[i].id == id
  }

  /** `items.filter(t => t.id !== id)`. */
  function WithoutId(items: seq<Texture>, id: string): (r: seq<Texture>)
    ensures |r| <= |items|
  {
    if items == [] then []
    else (if items[0].id == id then [] else [items[0]]) + WithoutId(items[1..], id)
  }

  /** The filter keeps exactly the items with another id. */
  lemma {:induction false} WithoutIdMembers(items: seq<Texture>, id: string)
    ensures forall t | t in WithoutId(items, id) :: t in items && t.id != id
    ensures forall t | t in items && t.id != id :: t in WithoutId(items, id)
  {
    if items != [] {
      WithoutIdMembers(items[1..], id);
      assert items == [items[0]] + items[1..];
    }
  }

  /**
   * The filter distributes over concatenation; together with its one-item cases this says
   * that it keeps the other items in their order and with their multiplicity.
   */
  lemma {:induction false} WithoutIdAppend(a: seq<Texture>, b: seq<Texture>, id: string)
    ensures WithoutId(a + b, id) == WithoutId(a, id) + WithoutId(b, id)
  {
    if a == [] {
      assert a + b == b;
    } else {
      var head := if a[0].id == id then [] else [a[0]];
      assert (a + b)[0] == a[0];
      assert (a + b)[1..] == a[1..] + b;
      assert WithoutId(a + b, id) == head + WithoutId(a[1..] + b, id);
      WithoutIdAppend(a[1..], b, id);
      assert head + (WithoutId(a[1..], id) + WithoutId(b, id)) == (head + WithoutId(a[1..], id)) + WithoutId(b, id);
    }
  }

  /** On a single item the filter keeps it exactly when its id differs. */
  lemma WithoutIdSingle(t: Texture, id: string)
    ensures WithoutId([t], id) == if t.id == id then [] else [t]
  {
    assert [t][1..] == [];
  }

  /** The filter shortens the list exactly when some item has the id. */
  lemma {:induction false} WithoutIdShorter(items: seq<Texture>, id: string)
    ensures |WithoutId(items, id)| < |items| <==> HasTextureId(items, id)
  {
    if items != [] {
      WithoutIdShorter(items[1..], id);
      if HasTextureId(items[1..], id) {
        var i :| 0 <= i < |items[1..]| && items[1..][i].id == id;
        assert items[i + 1].id == id;
      }
      if HasTextureId(items, id) && items[0].id != id {
        var i :| 0 <= i < |items| && items[i].id == id;
        assert items[1..][i - 1].id == id;
      }
    }
  }

  /** No item before position k has the id. */
  predicate NoIdBefore(items: seq<Texture>, id: string, k: int)
    requires k <= |items|
  {
    forall j | 0 <= j < k :: items[j].id != id
  }

  /** `items.find(t => t.id === id)`: the first item with the id. */
  function FirstWithId(items: seq<Texture>, id: string): (r: Option<Texture>)
    ensures r.Some? <==> HasTextureId(items, id)
    ensures r.Some? ==> r.value in items && r.value.id == id
    ensures r.Some? ==> exists k :: 0 <= k < |items| && items[k] == r.value && NoIdBefore(items, id, k)
  {
    if items == [] then None
    else if items[0].id == id then
      assert NoIdBefore(items, id, 0);
      Some(items[0])
    else
      var r := FirstWithId(items[1..], id);
      assert r.Some? ==> exists k :: 0 <= k < |items| && items[k] == r.value && NoIdBefore(items, id, k) by {
        if r.Some? {
          var k :| 0 <= k < |items[1..]| && items[1..][k] == r.value && NoIdBefore(items[1..], id, k);
          assert items[k + 1] == r.value;
          assert NoIdBefore(items, id, k + 1) by {
            forall j | 0 <= j < k + 1 ensures items[j].id != id {
              if j > 0 { assert items[j] == items[1..][j - 1]; }
            }
          }
        }
      }
      assert HasTextureId(items[1..], id) ==> HasTextureId(items, id) by {
        if HasTextureId(items[1..], id) {
          var i :| 0 <= i < |items[1..]| && items[1..][i].id == id;
          assert items[i + 1].id == id;
        }
      }
      assert HasTextureId(items, id) ==> HasTextureId(items[1..], id) by {
        if HasTextureId(items, id) {
          var i :| 0 <= i < |items| && items[i].id == id;
          assert items[1..][i - 1].id == id;
        }
      }
      r
  }

  /** getUserActiveSkin / getUserActiveCape: `active.get(userId) || null`, so an empty url reads as none. */
  function ActiveUrl(active: map<UserId, string>, userId: UserId): (r: Option<string>)
    ensures r.Some? <==> userId in active && active[userId] != ""
    ensures r.Some? ==> r.value == active[userId]
  {
    if userId in active && active[userId] != "" then Some(active[userId]) else None
  }

  /** The outcome of deleteUserSkin / deleteUserCape on one kind's tables. */
  datatype TextureDeletion = TextureDeletion(deleted: bool, lists: map<UserId, seq<Texture>>, active: map<UserId, string>)

  function DeleteTexture(lists: map<UserId, seq<Texture>>, active: map<UserId, string>,
                         userId: UserId, id: string): (d: TextureDeletion)
    ensures forall u | u != userId :: TexturesOf(d.lists, u) == TexturesOf(lists, u)
    ensures forall u | u != userId :: (u in d.active <==> u in active) && (u in active ==> d.active[u] == active[u])
    ensures d.active.Keys <= active.Keys
  {
    var items := TexturesOf(lists, userId);
    var kept := WithoutId(items, id);
    if |kept| < |items| then
      var gone := FirstWithId(items, id);
      var clear := gone.Some? && userId in active && active[userId] == gone.value.url;
      TextureDeletion(true, lists[userId := kept], if clear then active - {userId} else active)
    else
      TextureDeletion(false, lists, active)
  }

  /**
   * Deletion reports true iff the user had an item with that id; it then removes every
   * such item, keeps the others in order, and clears the user's active url only when it
   * equals the url of the (first) deleted item. Otherwise nothing changes.
   */
  lemma DeleteTextureSpec(lists: map<UserId, seq<Texture>>, active: map<UserId, string>, userId: UserId, id: string)
    ensures var d := DeleteTexture(lists, active, userId, id);
      && (d.deleted <==> HasTextureId(TexturesOf(lists, userId), id))
      && (d.deleted ==> d.lists == lists[userId := WithoutId(TexturesOf(lists, userId), id)]
                        && !HasTextureId(TexturesOf(d.lists, userId), id))
      && (d.deleted ==> var url := FirstWithId(TexturesOf(lists, userId), id).value.url;
                        d.active == if userId in active && active[userId] == url then active - {userId} else active)
      && (!d.deleted ==> d.lists == lists && d.active == active)
  {
    var items := TexturesOf(lists, userId);
    WithoutIdShorter(items, id);
    var kept := WithoutId(items, id);
    WithoutIdMembers(items, id);
    forall i | 0 <= i < |kept| ensures kept[i].id != id {
      assert kept[i] in kept;
    }
  }
}
