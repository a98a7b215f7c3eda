/**
 * The session-server decisions of src/routes/launcher.ts: `join`, which checks that
 * the caller's session owns the profile it names, and `hasJoined`, which reports a
 * player by name. Both only read the store, so they are functions of its state that
 * return no next state.
 */
module Launcher {
  import opened Types
  import opened Database

  datatype JoinResult = JoinMissingParameters | JoinUnauthorized | JoinForbidden | JoinNoContent

  datatype HasJoinedResult =
    | HasJoinedMissingParameters
    | HasJoinedNoContent
    | HasJoinedPlayer(id: UserId, name: string, skins: seq<string>, capes: seq<string>)

  /** `profiles.some(profile => profile.id === selectedProfile)`. */
  predicate SomeProfileHasId(profiles: seq<Profile>, id: ProfileId) {
    exists i :: 0 <= i < |profiles| && profiles[i].id == id
  }

  /** POST /sessionserver/session/minecraft/join; the session's expiry is not consulted. */
  function Join(db: Db, accessToken: Option<string>, selectedProfile: Option<string>, serverId: Option<string>): (r: JoinResult)
    ensures r == JoinMissingParameters <==> !Truthy(accessToken) || !Truthy(selectedProfile) || !Truthy(serverId)
    ensures r == JoinUnauthorized ==> accessToken.Some? && accessToken.value !in db.sessions
    ensures r == JoinNoContent ==> && accessToken.Some? && accessToken.value in db.sessions && selectedProfile.Some?
                                   && SomeProfileHasId(UserProfiles(db, db.sessions[accessToken.value].userId), selectedProfile.value)
  {
    if !Truthy(accessToken) || !Truthy(selectedProfile) || !Truthy(serverId) then JoinMissingParameters
    else
      var found := FindSession(db, accessToken.value);
      if found.None? then JoinUnauthorized
      else if !SomeProfileHasId(UserProfiles(db, found.value.userId), selectedProfile.value) then JoinForbidden
      else JoinNoContent
  }

  /** `activeUrl ? [{ url: activeUrl }] : []`, reduced to the urls. */
  function UrlList(url: Option<string>): (r: seq<string>)
    ensures url.None? <==> r == []
    ensures url.Some? ==> r == [url.value]
  {
    if url.Some? then [url.value] else []
  }

  /** GET /sessionserver/session/minecraft/hasJoined; `username` is looked up as a username or an email. */
  function HasJoined(db: Db, username: Option<string>, serverId: Option<string>): (r: HasJoinedResult)
    ensures r == HasJoinedMissingParameters <==> !Truthy(username) || !Truthy(serverId)
    ensures r == HasJoinedNoContent ==> FindUser(db, username.value).None?
    ensures r.HasJoinedPlayer? ==> |r.skins| <= 1 && |r.capes| <= 1
  {
    if !Truthy(username) || !Truthy(serverId) then HasJoinedMissingParameters
    else
      var found := FindUser(db, username.value);
      if found.None? then HasJoinedNoContent
      else
        var user := found.value;
        HasJoinedPlayer(user.id, user.username, UrlList(ActiveUrl(db.userActiveSkin, user.id)),
                        UrlList(ActiveUrl(db.userActiveCape, user.id)))
  }

  /** A request missing a parameter is answered before the store is consulted. */
  lemma JoinMissingParametersFirst(db1: Db, db2: Db, accessToken: Option<string>, selectedProfile: Option<string>,
                                   serverId: Option<string>)
    requires !Truthy(accessToken) || !Truthy(selectedProfile) || !Truthy(serverId)
    ensures Join(db1, accessToken, selectedProfile, serverId) == Join(db2, accessToken, selectedProfile, serverId)
                == JoinMissingParameters
  {
  }

  /**
   * With all parameters present, join is Unauthorized exactly when no session is stored
   * under the token (expired sessions are accepted), and succeeds exactly when the
   * session's owner owns a profile with the requested id; otherwise it is Forbidden.
   */
  lemma JoinDecision(db: Db, accessToken: string, selectedProfile: string, serverId: string)
    requires Valid(db) && accessToken != "" && selectedProfile != "" && serverId != ""
    ensures (Join(db, Some(accessToken), Some(selectedProfile), Some(serverId)) == JoinUnauthorized)
            <==> accessToken !in db.sessions
    ensures (Join(db, Some(accessToken), Some(selectedProfile), Some(serverId)) == JoinNoContent)
            <==> accessToken in db.sessions && selectedProfile in db.profiles
                 && db.profiles[selectedProfile].userId == db.sessions[accessToken].userId
                 && selectedProfile in ProfileIdsOf(db, db.sessions[accessToken].userId)
    ensures Join(db, Some(accessToken), Some(selectedProfile), Some(serverId)) != JoinMissingParameters
  {
    if accessToken in db.sessions {
      var owner := db.sessions[accessToken].userId;
      var ids := ProfileIdsOf(db, owner);
      var profiles := UserProfiles(db, owner);
      UserProfilesSpec(db, owner);
      if SomeProfileHasId(profiles, selectedProfile) {
        var i :| 0 <= i < |profiles| && profiles[i].id == selectedProfile;
        assert profiles[i] == db.profiles[ids[i]];
        assert ids[i] == selectedProfile;
      }
      if selectedProfile in ids {
        var i :| 0 <= i < |ids| && ids[i] == selectedProfile;
        assert profiles[i].id == selectedProfile;
      }
    }
  }

  /** An expired session still joins: the route has no expiry check. */
  lemma JoinIgnoresExpiry(db: Db, accessToken: Token, selectedProfile: string, serverId: Option<string>, expiresAt: int)
    requires accessToken in db.sessions
    ensures var db' := db.(sessions := db.sessions[accessToken := db.sessions[accessToken].(expiresAt := expiresAt)]);
            Join(db', Some(accessToken), Some(selectedProfile), serverId) == Join(db, Some(accessToken), Some(selectedProfile), serverId)
  {
  }

  /**
   * hasJoined answers no content for an unknown name and otherwise reports the first
   * user with that username or email, with its active skin url and active cape url (each
   * list empty when there is none, else holding exactly that url); the server
   * id is only checked for presence and the session table is never consulted.
   */
  lemma HasJoinedDecision(db: Db, username: string, serverId: string)
    requires UsersIndexed(db) && username != "" && serverId != ""
    ensures HasJoined(db, Some(username), Some(serverId)) == HasJoinedNoContent <==> !IdentifierTaken(db, username)
    ensures HasJoined(db, Some(username), Some(serverId)).HasJoinedPlayer? ==>
              var r := HasJoined(db, Some(username), Some(serverId));
              r.id in db.users && HasIdentifier(db.users[r.id], username) && r.name == db.users[r.id].username
              && (r.skins == [] <==> ActiveUrl(db.userActiveSkin, r.id).None?)
              && (ActiveUrl(db.userActiveSkin, r.id).Some? ==> r.skins == [ActiveUrl(db.userActiveSkin, r.id).value])
              && (r.capes == [] <==> ActiveUrl(db.userActiveCape, r.id).None?)
              && (ActiveUrl(db.userActiveCape, r.id).Some? ==> r.capes == [ActiveUrl(db.userActiveCape, r.id).value])
    ensures forall other: string, sessions: map<Token, Session> | other != "" ::
              HasJoined(db.(sessions := sessions), Some(username), Some(other)) == HasJoined(db, Some(username), Some(serverId))
  {
    FindUserSpec(db, username);
  }

  lemma HasJoinedMissingParametersFirst(db: Db, username: Option<string>, serverId: Option<string>)
    requires !Truthy(username) || !Truthy(serverId)
    ensures HasJoined(db, username, serverId) == HasJoinedMissingParameters
  {
  }
}
