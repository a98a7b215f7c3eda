# Drk Launcher auth server: a verified model

This project models the core of a small Yggdrasil-style authentication server for a
Minecraft launcher. The server keeps everything in memory: users, sessions, Minecraft
profiles, skins and capes. In this model:

- the store is a value, `Database.Db`, with an invariant `Database.Valid`;
- the imperative store, `MemoryStore.Store`, is a class with the same nine fields;
- each handler that can write (authenticate, refresh, validate, register,
  change-password, logout and PUT `/api/user/skin/active`) is a function from a store
  state to a result and a next state;
- the read-only handlers (join, hasJoined, GET `/api/user/skins` and GET
  `/api/user/skin/active`) are functions of the store state that give only a result;
- each handler that can write is also a method over `MemoryStore.Store`, proved to
  agree with its function;
- lemmas over the functions state what the server promises.

Modules, in dependency order:

- `Types`: the records, shaped as in `src/types/auth.ts`, and JavaScript truthiness of
  an optional string field.
- `Bcrypt`: bcrypt as an ideal hash: a password matches a hash exactly when it is the
  password that was hashed.
- `Crypto`: the token and identifier formats of `src/utils/crypto.ts`.
- `Database`: the store as a value, its invariant, one function per store operation,
  and lemmas.
- `MemoryStore`: the class `Store`, whose methods update the fields in place as
  `src/database/memoryStore.ts` does.
- `Auth`: `/authserver/authenticate`, `/refresh` and `/validate`.
- `AuthProperties`: lemmas about `Auth`.
- `Launcher`: the session-server routes `join` and `hasJoined`.
- `Api`: register, change-password, logout, and the token and expiry guard in front of
  the skin routes.
- `ApiProperties`: lemmas about `Api`, including one account's life from registration
  to a refreshed token.

The model's conventions:

- The clock is a parameter `now`, in milliseconds.
- Random values are parameters: uuids, access tokens, bcrypt salts.
- A session expires `expiresIn * 1000` ms after it is created. The default
  `expiresIn` is 86400 seconds.
- Error responses keep their kind (`IllegalArgumentException` or
  `ForbiddenOperationException`). The English messages of the authserver routes are
  kept word for word. The other routes keep only the reason for the error.

Where the design intent and the code disagree, the model follows the code:

- Besides the authserver's refresh and validate (src/routes/auth.ts:171 and 271),
  which delete an expired session, only three `/api` routes compare a session's
  `expiresAt` with the clock: GET `/api/user/skins` and GET and PUT
  `/api/user/skin/active` (src/index.ts:267, 387 and 459). `Api.SkinRouteSession` is that check. Their test starts with
  `session.expiresAt &&`, but `expiresAt` is a `Date`, which is always truthy, so the
  model leaves that part out.
- Every other route that looks a session up by its access token accepts an expired
  session. Among the
  modelled routes these are `join` and change-password: `Launcher.JoinIgnoresExpiry`
  and `ApiProperties.ChangePasswordOutcome` state it. Among the routes left out they
  are POST `/api/user/skins`, GET `/api/user/info`, GET `/api/user/profile` and the
  five cape routes.
- The store never removes a user, and sessions are only created for users found in
  the store. So the invariant includes `Database.SessionsOwned`: every session
  belongs to a stored user. Under the invariant, refresh never answers "User not
  found." and change-password never answers that the user was not found
  (`AuthProperties.RefreshNeverUserNotFound`, `ApiProperties.ChangePasswordNeverNotFound`).
  Both branches are still modelled as written.

## Model

| member | source | states |
|---|---|---|
| Bcrypt.HashPassword | src/database/memoryStore.ts:84-100 | a hash built with 10 rounds and the given salt matches the password it was built from |
| Bcrypt.CompareHashPassword | src/database/memoryStore.ts:105-107 | verifyPassword accepts a password against a hash exactly when it is the hashed password |
| Crypto.HexPair | src/utils/crypto.ts:11-13 | a byte becomes two lower-case hex digits |
| Crypto.HexEncode | src/utils/crypto.ts:11-13 | hex encoding doubles the length and uses only lower-case hex digits |
| Crypto.NibbleValue | src/utils/crypto.ts:11-13 | reading a lower-case digit gives a value below 16 that writes back as the same digit |
| Crypto.HexDecode | src/utils/crypto.ts:11-13 | decoding halves the length (the inverse used by the round trip) |
| Crypto.NibbleOfDigit | src/utils/crypto.ts:11-13 | each of the 16 digits reads back as its own value |
| Crypto.HexPairRoundTrip | src/utils/crypto.ts:11-13 | a byte's two digits decode to that byte |
| Crypto.HexRoundTrip | src/utils/crypto.ts:11-13 | decoding a hex encoding gives the bytes back |
| Crypto.HexEncodeInjective | src/utils/crypto.ts:11-13 | distinct random byte strings give distinct access tokens |
| Crypto.GenerateAccessToken | src/utils/crypto.ts:11-13 | 32 random bytes give a 64-character lower-case hex token |
| Crypto.RemoveHyphens | src/utils/crypto.ts:19 | removing every hyphen never lengthens a string and leaves no hyphen |
| Crypto.RemoveHyphensAppend | src/utils/crypto.ts:19 | hyphen removal distributes over concatenation |
| Crypto.RemoveHyphensOfNoHyphen | src/utils/crypto.ts:19 | a string without hyphens is left unchanged |
| Crypto.GenerateClientToken | src/utils/crypto.ts:18-27 | client tokens and profile uuids carry no hyphen |
| Crypto.FormatUuid | src/utils/crypto.ts:47-52 | a 32-character id gets hyphens at 8, 13, 18 and 23 with every character kept in order; any other length is returned unchanged |
| Crypto.FormatUuidIdempotent | src/utils/crypto.ts:47-52 | formatting an already formatted id changes nothing |
| Crypto.StripHyphenBetween | src/utils/crypto.ts:19 | stripping `a + "-" + b` with b hyphen-free strips a and appends b |
| Crypto.FormatUuidRoundTrip | src/utils/crypto.ts:19-52 | stripping the hyphens of a formatted compact id gives the id back |
| Crypto.MatchesHexRun | src/utils/crypto.ts:39-42 | the case-insensitive regular expression matches exactly n hex digits of either case |
| Crypto.IsValidUuid | src/utils/crypto.ts:39-42 | isValidUUID holds exactly for 32 hex digits of either case |
| Crypto.MintedIdIsCompactUuid | src/utils/crypto.ts:19-52 | formatting a valid compact id and stripping its hyphens gives the same id back, which is still valid |
| Database.Seeded | src/database/memoryStore.ts:23-60 | the seeded store holds only the admin user and its one profile, keeps the invariant and has unique identifiers |
| Database.FindUser | src/database/memoryStore.ts:65-72 | a user found has the identifier and is stored; when none is found, no user in the insertion order has it |
| Database.FirstWithIdentifier | src/database/memoryStore.ts:65-72 | the scan in insertion order finds nothing exactly when no user has the identifier, and otherwise returns a stored user |
| Database.FindUserSpec | src/database/memoryStore.ts:65-72 | findUserByEmailOrUsername is null exactly when no user has that username or email, and otherwise returns the first such user in insertion order |
| Database.FirstWithIdentifierAppend | src/database/memoryStore.ts:65-72 | appending a user at the end of the order changes the scan result only when nobody before had the identifier |
| Database.FindUserAfterAdd | src/database/memoryStore.ts:65-100 | after a new user is created with an unused identifier, looking it up finds that user |
| Database.FindUserById | src/database/memoryStore.ts:77-79 | the lookup succeeds exactly for a stored id and returns that user |
| Database.AddUser | src/database/memoryStore.ts:84-100 | `users.set` stores the user under its id and keeps every other user; a new id goes to the end of the iteration order and a known one keeps its place; no other table changes |
| Database.AddUserValid | src/database/memoryStore.ts:84-100 | createUser keeps the store invariant |
| Database.AddUserUnique | src/database/memoryStore.ts:84-100 | creating a user whose username and email are both unused keeps identifiers unique |
| Database.SetPasswordHash | src/database/memoryStore.ts:210-216 | a stored user's hash is replaced and every other user and table is kept; an unknown id changes nothing |
| Database.SetLastLogin | src/routes/auth.ts:121 | a stored user's last login becomes now and every other user and table is kept; an unknown id changes nothing |
| Database.ReplaceUserValid | src/database/memoryStore.ts:210-216 | rewriting a stored user under the same id keeps the insertion order and the invariant |
| Database.ReplaceUserUnique | src/database/memoryStore.ts:210-216 | rewriting a stored user without changing its username or email keeps identifiers unique |
| Database.SetUserFieldValid | src/database/memoryStore.ts:210-216 | replacing a password hash or the last-login time keeps the invariant and unique identifiers |
| Database.FindSession | src/database/memoryStore.ts:135-137 | the lookup succeeds exactly for a stored token and returns its session |
| Database.MakeSession | src/database/memoryStore.ts:112-130 | the session carries the given tokens, owner and creation time and expires expiresIn seconds after it was created; with a positive lifetime it is not yet expired |
| Database.PutSession | src/database/memoryStore.ts:112-130 | `sessions.set` adds or replaces the entry under the access token, keeps every other session and changes no other table |
| Database.RemoveSession | src/database/memoryStore.ts:154-156 | the token is no longer a key, and no other table changes |
| Database.RemoveSessionSpec | src/database/memoryStore.ts:154-156 | deleteSession removes that token only, is idempotent, and does nothing for an unknown token |
| Database.PutSessionValid | src/database/memoryStore.ts:112-130 | createSession keeps the invariant and unique identifiers |
| Database.RemoveSessionValid | src/database/memoryStore.ts:154-156 | deleteSession keeps the invariant and unique identifiers |
| Database.SweepExpired | src/database/memoryStore.ts:161-168 | the cleanup only removes sessions and changes no other table |
| Database.SweepSpec | src/database/memoryStore.ts:161-168 | the cleanup keeps exactly the sessions whose expiry is not before now, unchanged |
| Database.SweepIdempotent | src/database/memoryStore.ts:161-168 | a second cleanup at the same time changes nothing |
| Database.SweepValid | src/database/memoryStore.ts:161-168 | the cleanup keeps the invariant and unique identifiers |
| Database.ResolveProfiles | src/database/memoryStore.ts:173-176 | resolving ids drops missing ones and returns only stored profiles |
| Database.ResolveProfilesExact | src/database/memoryStore.ts:173-176 | when every id is stored, the profiles are the ids' profiles in list order |
| Database.ResolveProfilesAppend | src/database/memoryStore.ts:173-198 | resolving a list with one more stored id appends that profile |
| Database.ResolveProfilesFrame | src/database/memoryStore.ts:173-176 | resolving depends only on the entries for the listed ids |
| Database.UserProfiles | src/database/memoryStore.ts:173-176 | getUserProfiles returns at most one profile per listed id, each a stored profile |
| Database.UserProfilesSpec | src/database/memoryStore.ts:173-176 | under the invariant, getUserProfiles returns the owner's profiles in creation order, all owned by that user, and nothing for an unknown user |
| Database.AddProfile | src/database/memoryStore.ts:181-198 | the profile is stored under its id and its id is appended to the owner's list; other users' lists and the other tables are kept |
| Database.AddProfileValid | src/database/memoryStore.ts:181-198 | creating a fresh profile for a stored user keeps the invariant and unique identifiers |
| Database.AddProfileSpec | src/database/memoryStore.ts:181-198 | the owner's profile list gains the new profile at the end; every other user's list is unchanged |
| Database.FindProfileById | src/database/memoryStore.ts:203-205 | the lookup succeeds exactly for a stored id and returns that profile |
| Database.AddTexture | src/database/memoryStore.ts:228-241 | the owner's list gains the new item at the end and every other user's list is unchanged |
| Database.WithoutId | src/database/memoryStore.ts:248 | the filter never lengthens the list |
| Database.WithoutIdMembers | src/database/memoryStore.ts:248 | the filter keeps exactly the items with another id |
| Database.WithoutIdAppend | src/database/memoryStore.ts:248 | the filter distributes over concatenation, so it keeps the other items in their order and with their multiplicity |
| Database.WithoutIdSingle | src/database/memoryStore.ts:248 | on one item the filter keeps it exactly when its id differs |
| Database.WithoutIdShorter | src/database/memoryStore.ts:248-249 | the filter shortens the list exactly when an item has the id |
| Database.FirstWithId | src/database/memoryStore.ts:253 | find returns an item with the id exactly when one exists, and it is the first such item |
| Database.ActiveUrl | src/database/memoryStore.ts:265-267 | the active url is absent when it is unset or empty, and otherwise is the stored url |
| Database.DeleteTexture | src/database/memoryStore.ts:246-260 | deletion never touches another user's list or active url and never adds an active url |
| Database.DeleteTextureSpec | src/database/memoryStore.ts:246-260 | deletion reports true exactly when the user had an item with the id, then removes every such item, keeping the rest as the filter does, and clears the active url only if it is the first deleted item's url; otherwise nothing changes |
| MemoryStore.Store.constructor | src/database/memoryStore.ts:23-60 | the new store is the seeded state |
| MemoryStore.Store.FindUserByEmailOrUsername | src/database/memoryStore.ts:65-72 | the loop returns the first user in insertion order with that username or email, or nothing exactly when there is none |
| MemoryStore.Store.CreateUser | src/database/memoryStore.ts:84-100 | stores a user with a 10-round hash, default skin and cape urls and no last login, appended to the insertion order; keeps the invariant |
| MemoryStore.Store.CreateSession | src/database/memoryStore.ts:112-130 | stores a session expiring expiresIn seconds after now under its access token; keeps the invariant when the owner is a stored user |
| MemoryStore.Store.FindSessionByClientToken | src/database/memoryStore.ts:142-149 | returns a stored session with that client token, or nothing exactly when there is none |
| MemoryStore.Store.DeleteSession | src/database/memoryStore.ts:154-156 | removes the token's session and nothing else; keeps the invariant |
| MemoryStore.Store.CleanupExpiredSessions | src/database/memoryStore.ts:161-168 | the loop deletes exactly the expired sessions; keeps the invariant |
| MemoryStore.UnexpiredUnique | src/database/memoryStore.ts:161-168 | a table holding exactly the unexpired sessions, unchanged, is the sweep's result |
| MemoryStore.Store.CreateProfile | src/database/memoryStore.ts:181-198 | stores the profile and appends its id to the owner's list; keeps the invariant |
| MemoryStore.Store.UpdateUserPassword | src/database/memoryStore.ts:210-216 | replaces a stored user's hash and does nothing for an unknown id; keeps the invariant |
| MemoryStore.Store.AddUserSkin | src/database/memoryStore.ts:228-241 | appends the new skin to the user's list and changes nothing else; keeps the invariant |
| MemoryStore.Store.DeleteUserSkin | src/database/memoryStore.ts:246-260 | has the effect and result of DeleteTexture on the skin tables; keeps the invariant |
| MemoryStore.Store.SetUserActiveSkin | src/database/memoryStore.ts:272-275 | sets the user's active skin url, changes nothing else and reports true; keeps the invariant |
| MemoryStore.Store.AddUserCape | src/database/memoryStore.ts:287-300 | appends the new cape to the user's list and changes nothing else; keeps the invariant |
| MemoryStore.Store.DeleteUserCape | src/database/memoryStore.ts:305-319 | has the effect and result of DeleteTexture on the cape tables; keeps the invariant |
| MemoryStore.Store.SetUserActiveCape | src/database/memoryStore.ts:331-334 | sets the user's active cape url, changes nothing else and reports true; keeps the invariant |
| MemoryStore.TextureEditsValid | src/database/memoryStore.ts:221-334 | the skin and cape tables do not take part in the invariant |
| Auth.Refs | src/routes/auth.ts:105-108 | availableProfiles lists every profile's id and name in order |
| Auth.UserRefIf | src/routes/auth.ts:112-118 | the user member is present exactly when requestUser is set, with the user's id and username |
| Auth.FindProfile | src/routes/auth.ts:203 | find returns a listed profile with the id, or nothing exactly when none has it |
| Auth.SelectProfile | src/routes/auth.ts:200-207 | the selected profile is the requested one when listed, and the first profile otherwise |
| Auth.AuthenticateSpec | src/routes/auth.ts:33-132 | a failed authenticate changes nothing; a successful one answers with the new access token, adds that token to the sessions and changes only sessions and users |
| Auth.SignInSpec | src/routes/auth.ts:76-121 | with no profiles the answer is the no-profiles error and nothing changes; otherwise the new token is answered and stored, and only sessions and users change |
| Auth.RefreshSpec | src/routes/auth.ts:138-245 | a failure other than an expired token changes nothing, an expired token is deleted, and a success answers the new token with the request's client token, swaps the old token for the new one and changes nothing but sessions |
| Auth.ValidateSpec | src/routes/auth.ts:252-296 | only a "Token expired." answer changes the store, and it deletes that token |
| Auth.Authenticate | src/routes/auth.ts:33-123 | the handler over the store has the result and the next state of AuthenticateSpec and keeps the invariant |
| Auth.SignIn | src/routes/auth.ts:76-121 | after the credential checks: no profiles is an error, otherwise a session is created and lastLogin is set on the stored user |
| Auth.Refresh | src/routes/auth.ts:138-236 | the handler over the store has the result and the next state of RefreshSpec and keeps the invariant |
| Auth.Validate | src/routes/auth.ts:252-288 | the handler over the store has the result and the next state of ValidateSpec and keeps the invariant |
| AuthProperties.AuthenticateArgumentChecks | src/routes/auth.ts:38-53 | missing credentials, then an unsupported agent, are refused in that order and change nothing |
| AuthProperties.AuthenticateInvalidCredentials | src/routes/auth.ts:56-73 | an unknown username or email, and a password that does not match the first user with that identifier in insertion order (the one `FindUser` returns), get the same invalid-credentials error and change nothing |
| AuthProperties.AuthenticateWithoutProfiles | src/routes/auth.ts:80-88 | a user with no profiles is refused and no session is created |
| AuthProperties.AuthenticateSucceedsIff | src/routes/auth.ts:38-95 | authenticate succeeds exactly when the fields are present, the agent is Minecraft version 1, a user has the identifier, the password matches and the user has a profile |
| AuthProperties.AuthenticateSuccess | src/routes/auth.ts:76-121 | on success the response carries the new token, the given or minted client token, the first profile and all profiles; one session is added, only the user's lastLogin changes, and every other table is kept |
| AuthProperties.AuthenticateKeepsInvariants | src/routes/auth.ts:33-123 | authenticate keeps the invariant and unique identifiers |
| AuthProperties.RefreshInvalidToken | src/routes/auth.ts:151-159 | an unknown access token is refused and changes nothing |
| AuthProperties.RefreshFailureEffects | src/routes/auth.ts:143-198 | a failed refresh changes nothing, except that an expired session is deleted |
| AuthProperties.RefreshRotatesSession | src/routes/auth.ts:161-215 | a successful refresh checked the token pair and expiry and replaces the old session by one under the new token with the same client token, owner and a fresh expiry; every other session and every other table is kept |
| AuthProperties.RefreshSuccess | src/routes/auth.ts:200-234 | a successful refresh answers with the new token and the client token, and selects the requested profile if the user owns it and the first profile otherwise |
| AuthProperties.RefreshNeverUserNotFound | src/routes/auth.ts:180-187 | under the invariant refresh never answers "User not found." |
| AuthProperties.RefreshKeepsInvariants | src/routes/auth.ts:138-236 | refresh keeps the invariant and unique identifiers |
| AuthProperties.ValidateDecision | src/routes/auth.ts:257-288 | validate accepts a missing token, refuses an unknown one, refuses and deletes an expired one, refuses a mismatched client token, and otherwise accepts; only the expired case changes the store |
| AuthProperties.ValidateKeepsInvariants | src/routes/auth.ts:252-288 | validate keeps the invariant and unique identifiers |
| AuthProperties.ValidateExpiredTwice | src/routes/auth.ts:262-277 | an expired token is first reported expired and then invalid, because the first call deleted it |
| AuthProperties.AuthenticateThenValidate | src/routes/auth.ts:76-95 | the tokens a successful authenticate returns validate until the session expires |
| AuthProperties.RefreshInvalidatesOldToken | src/routes/auth.ts:213-215 | after a refresh to a new token the old token is invalid and the new pair validates until expiry |
| AuthProperties.SweepKeepsValidSessions | src/database/memoryStore.ts:161-168 | a cleanup at or before the validation time never revokes a session validate accepts |
| Launcher.Join | src/routes/launcher.ts:51-92 | join reports missing parameters exactly when one is missing, is unauthorized only for an unknown token, and succeeds only when the session's owner has a profile with the selected id |
| Launcher.UrlList | src/routes/launcher.ts:124-125 | the url list is empty without an active url and otherwise holds exactly that url |
| Launcher.HasJoined | src/routes/launcher.ts:95-134 | hasJoined reports missing parameters exactly when one is missing, no content only when no user has the name, and at most one skin and one cape url |
| Launcher.JoinMissingParametersFirst | src/routes/launcher.ts:56-61 | a missing parameter is answered before the store is read |
| Launcher.JoinDecision | src/routes/launcher.ts:63-84 | join is unauthorized exactly when no session has the token, and succeeds exactly when the session's owner owns the selected profile |
| Launcher.JoinIgnoresExpiry | src/routes/launcher.ts:63-70 | changing a session's expiry never changes join's answer |
| Launcher.HasJoinedDecision | src/routes/launcher.ts:100-126 | hasJoined has no content exactly when no user has the name, and otherwise reports that user; its skin list is empty without an active skin url and otherwise holds exactly that url, and likewise for capes; sessions and the server id do not matter |
| Launcher.HasJoinedMissingParametersFirst | src/routes/launcher.ts:100-105 | a missing parameter is answered first |
| Api.BearerToken | src/index.ts:868-876 | a header carries a token exactly when it starts with "Bearer ", and the token is the rest of the header |
| Api.BearerTokenRoundTrip | src/index.ts:868-876 | "Bearer " followed by a token yields that token |
| Api.RegisterSpec | src/index.ts:121-161 | a failed register changes nothing; a successful one answers the new user id, adds exactly that user and that profile, and changes no table but users, their order and the profile tables |
| Api.Register | src/index.ts:121-153 | the register handler over the store has the result and the next state of RegisterSpec and keeps the invariant |
| Api.ChangePasswordSpec | src/index.ts:866-936 | a failed change changes nothing; a successful one needed a stored session for the bearer token and a new password of at least 6 characters, and changes only the users table, keeping its keys |
| Api.ChangePassword | src/index.ts:866-928 | the change-password handler over the store has the result and the next state of ChangePasswordSpec and keeps the invariant |
| Api.LogoutSpec | src/index.ts:836-863 | logout succeeds exactly when the header carries a bearer token, which is then no longer a session; it only ever removes sessions |
| Api.Logout | src/index.ts:836-855 | the logout handler over the store has the result and the next state of LogoutSpec and keeps the invariant |
| Api.SkinRouteSession | src/index.ts:223-276 | the guard fails only as unauthorized, and admits exactly a bearer token naming a stored session that has not expired, yielding that session |
| Api.GetSkinsRoute | src/index.ts:221-296 | GET /api/user/skins answers exactly when the guard admits the caller, and otherwise fails as unauthorized |
| Api.GetActiveSkinRoute | src/index.ts:350-419 | GET /api/user/skin/active answers exactly when the guard admits the caller, fails as unauthorized otherwise, and never answers an empty url |
| Api.PutActiveSkinSpec | src/index.ts:422-509 | a failed PUT changes nothing; a successful one passed the guard, had a url, echoes it and changes only the active skin table |
| Api.PutActiveSkin | src/index.ts:422-501 | the handler over the store has the result and the next state of PutActiveSkinSpec and keeps the invariant |
| ApiProperties.RegisterMissingFields | src/index.ts:125-130 | any missing field is refused and changes nothing |
| ApiProperties.RegisterDuplicate | src/index.ts:132-141 | a username or email already used as either identifier is refused and changes nothing |
| ApiProperties.RegisterSuccess | src/index.ts:143-153 | a successful register stores a user with the hashed password and one profile named as asked, and the user can then be found by username and by email |
| ApiProperties.RegisterKeepsInvariants | src/index.ts:121-153 | register keeps the invariant and unique identifiers |
| ApiProperties.RegisterSameUsernameTwice | src/index.ts:132-141 | registering the same username a second time is refused |
| ApiProperties.ChangePasswordLengthFirst | src/index.ts:879-891 | a new password shorter than 6 characters is refused before the token is looked up |
| ApiProperties.ChangePasswordOutcome | src/index.ts:893-923 | with a stored session, even an expired one, a wrong current password is refused; otherwise only the owner's hash changes and afterwards only the new password matches |
| ApiProperties.ChangePasswordUnknownToken | src/index.ts:893-901 | an unknown token is refused and changes nothing |
| ApiProperties.ChangePasswordNeverNotFound | src/index.ts:903-909 | under the invariant change-password never answers that the user was not found |
| ApiProperties.LogoutOutcome | src/index.ts:838-855 | without a bearer header logout is refused; with one it removes that session, whether or not it existed, and a second logout changes nothing |
| ApiProperties.SkinRouteGuard | src/index.ts:223-276 | the guard admits exactly a bearer token naming a stored session that has not expired, and yields that session |
| ApiProperties.SkinRoutesRejectExpired | src/index.ts:266-276 | all three skin routes refuse an expired session, and the PUT changes nothing |
| ApiProperties.PutThenGetActiveSkin | src/index.ts:470-510 | after a successful PUT the GET with the same header returns the url just set; other users' urls, the skins and the sessions are unchanged |
| ApiProperties.AliceRegisters | src/index.ts:121-153 | registering a fresh account "alice" succeeds and leaves her findable with one profile |
| ApiProperties.AliceAuthenticates | src/routes/auth.ts:76-121 | alice's login selects her one profile and stores her session |
| ApiProperties.AliceSignsIn | src/routes/auth.ts:33-123 | after alice's login her session is stored with the minted client token and the store keeps the invariant |
| ApiProperties.AliceRefreshes | src/routes/auth.ts:138-236 | refreshing alice's live session rotates the token: the old one is invalid and the new one validates |
| ApiProperties.AccountLifecycle | src/index.ts:121-153 | register, authenticate and refresh in sequence succeed, and afterwards only the new token validates |

## Left out

- HTTP itself is not modelled: routing, JSON parsing, status codes, the response
  shapes, and the fields a response adds only for display. The HTML pages, the health
  route and the other `/api/user` routes are left out too.
- The Spanish messages of the `/api` routes and of the session-server routes are left
  out. Each error keeps its kind and its reason.
- The `InternalServerError` paths of every `catch` block are left out, because nothing
  modelled throws. Among them is validate's 403 reply from its catch block.
- Request fields are optional strings. A field of another JSON type is not modelled.
- The `ACCESS_TOKEN_EXPIRY` environment variable and its `parseInt` (which can give
  NaN) are a parameter `expiresIn`. A NaN lifetime is not modelled: in the source it
  makes `expiresAt` an Invalid Date, every `<` comparison with it is false, and such
  a session never expires (src/routes/auth.ts:171 and 271, src/index.ts:267) and is
  never swept (src/database/memoryStore.ts:161-168).
- bcrypt's internals are left out: its cost, and its truncation of passwords to 72
  bytes. `Bcrypt.Compare` is ideal.
- `Api.ChangePasswordSpec`: the new password's length is counted in characters of
  `seq<char>`, not in UTF-16 code units as JavaScript counts it.
- `Crypto.FormatUuid`: its `uuid.length === 32` test and its `substring` offsets are
  counted in characters of `seq<char>`, not in UTF-16 code units.
- `MemoryStore.Store.FindSessionByClientToken`: the source returns the first match in
  the Map's insertion order. The model only promises some session with that client
  token, because sessions are kept unordered. No modelled handler calls it.
- The skin and cape ids (`skin_${Date.now()}_...` with a random part) are parameters.
- Concurrency is left out: requests interleave at each `await` in the source, and the
  model treats each handler as atomic.
- The periodic timer that calls the session cleanup is left out.
  `CleanupExpiredSessions` is modelled, but not when it runs.
- `src/routes/sessions.ts` is not part of this model.
- `updateUser` and `updateProfile` (memoryStore.ts:339-360) are not part of this model.
  They are generic partial updates that no modelled route calls.
- `initializeDatabase` is the constructor of `MemoryStore.Store`.
- The skin upload route (POST `/api/user/skins`, src/index.ts:299-347) and the five
  cape routes (src/index.ts:512-731) are not part of this model. Their store
  operations are modelled in `MemoryStore`. No route calls `deleteUserSkin`; it is
  modelled as `MemoryStore.Store.DeleteUserSkin`.
- The launcher's `/user/profile/:username` route (src/routes/launcher.ts:7-48) and the
  profile and info routes of `src/index.ts` only shape responses and are left out.
- `MemoryStore.Store.CreateSession`: the invariant is promised only when the session's
  owner is a stored user. The source does not look the owner up, and both of its
  callers pass a user they found in the store.
- Refresh's `selectedProfile` is reduced to its id. The `properties` list of a
  response's user is left out.
- The optional `tokenSesion` field of a user is left out. Nothing in the core reads
  or writes it.
- `getUserSkins`, `getUserCapes`, `getUserActiveSkin` and `getUserActiveCape` are the
  functions `Database.TexturesOf` and `Database.ActiveUrl`.
- `MemoryStore.Store.CreateProfile` requires the owner to be a stored user and the
  profile id to be unused. The source checks neither. The model needs both to keep
  `Database.Valid`, and register, the only caller, always meets them.
- `MemoryStore.Store.CreateUser` and `Api.Register` require the new user id (and
  profile id) to be unused. In the source, uuidv4 makes a collision practically
  impossible.
