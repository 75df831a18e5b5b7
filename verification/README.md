# Dice game backend: auth, gameplay rules, stats merge and game config in Dafny

This project models the decision and bookkeeping logic of a dice game
backend built from small HTTP services. Four parts are modelled as pure
functions over immutable values:

- **Authentication** (`Auth`, auth.dfy). The state is a credential table
  (username to password) and a session table (session id to
  `Session(playerId, sessionId, lastActionTime)`). `Signup` stores a new
  credential. `Login` checks the stored password. Both derive the player id
  from the username: the first four bytes of its SHA-256 digest, in hex.
  Both delete every earlier session of that player before they store the new
  one. The Basic-auth header decoder and the player-id derivation are
  modelled as well.
- **Gameplay rules** (`Gameplay`, gameplay.dfy). Admission to a level checks
  that the level is unlocked and that the player has the energy it costs.
  Adjudication of a finished level covers the win rule, the unlocking of the
  next level, the energy reward and the stats delta to record.
- **Stats merge** (`Stats`, stats.dfy). `ReturnUpdatedPlayerStats` folds one
  level's delta into the player's list of level stats.
- **Game config** (`Config`, config.dfy). The constant table of ten levels
  and the game's default values.

`Results` (results.dfy) holds `Option`, which stands for a Go value that may
be nil, and `Result`, which stands for Go's `(value, error)` pair. `Types`
(types.dfy) mirrors the records in internal/types/types.go. `Hex` (hex.dfy)
is the lower-case hex encoding that player ids use, with its decoder.

Each HTTP request is one atomic transition. In the source, the auth
handlers hold `credMutex` and `sessMutex` (internal/auth/auth.go:58-59,
81-82, 133-134, 153-154) and the stats update holds `statsMutex`
(internal/stats/stats.go:139-140), so the model runs those one after another.
The gameplay handlers take no lock: they read the player, decide, and send
an update, and the model treats that sequence as atomic too. Calls to
other services are not modelled as calls. Their results are parameters: the
fetched player (`None` when the lookup failed), the stats read from the data
service, and whether the write-back succeeded. The wall clock is a pair of
parameters: the session id and the current time in seconds. SHA-256 and
base64 decoding are also parameters. A digest is typed as 32 bytes, and
nothing else is assumed about it.

A Go runtime panic is modelled as an error value. Examples are slicing a
header shorter than six characters, or indexing `[-1]`. The request then
produces no result and changes no state. `HeaderTooShort`,
`MissingSeparator` and `IndexOutOfRange` name these cases.

Other files of the repository refer to auth features that the auth.go
modelled here does not define: a `LoginRequestBody` with `IsNewUser` and
`ServerVersion` (internal/shared/testsetup/testsetup.go:16), a periodic
session sweep and the logout and validation routes
(cmd/server/server.go:28, 37-38), and the `activePlayerIDs` and
`serverVersion` fields (internal/auth/auth_test.go:31-36). The auth.go
modelled here has separate signup and login handlers, and it removes a
player's old session by scanning the whole session table. The model
follows auth.go.

`Config.Table` stands for the game configuration the handlers read as
`config.Config` (internal/gameplay/gameplay.go:108; the config tests use
the same name at internal/config/config_test.go:23). The config.go
modelled here builds that table as the `GameConfig` of its server
(internal/config/config.go:34-50), and the model takes its values from
there.

## Model

| member | source | states |
|---|---|---|
| `Auth.InitialValid` | internal/auth/auth.go:24-32 | A new server has empty tables, and these satisfy the session invariants. |
| `Auth.GeneratePlayerId` | internal/auth/auth.go:207-220 | Fails exactly on the empty string. Otherwise it returns 8 lower-case hex characters that decode back to the first 4 digest bytes of the username. |
| `Auth.PlayerIdCollision` | internal/auth/auth.go:213-219 | Two non-empty usernames get the same player id if and only if their digests agree on the first 4 bytes. |
| `Hex.Encode` | internal/auth/auth.go:217 | The encoding is twice as long as the bytes, and every character is a hex digit. |
| `Hex.RoundTrip` | internal/auth/auth.go:217 | Decoding the hex encoding of any byte string gives the bytes back. |
| `Hex.EncodeInjective` | internal/auth/auth.go:217 | Two byte strings have equal encodings if and only if they are equal. |
| `Auth.SplitAsWritten` | internal/auth/auth.go:199-202 | Succeeds if and only if the text has a ':'. The result has no ':' in either part, and `user:password` is a prefix of the text. |
| `Auth.SplitAtFirstColon` | internal/auth/auth.go:199-202 | Succeeds if and only if the text has a ':'. The user has no ':', and `user + ":" + password` rebuilds the whole text. |
| `Auth.SplitRoundTrip` | internal/auth/auth.go:199-202 | Joining a colon-free user and any password with ':' and then splitting gives both back. |
| `Auth.SplitAsWrittenRoundTrip` | internal/auth/auth.go:199-202 | With the source's split, the same round trip holds if and only if the password has no ':'. |
| `Auth.SplitAsWrittenDropsTail` | internal/auth/auth.go:199-202 | With the source's split, everything after a second ':' is lost. The corrected split keeps it. |
| `Auth.SplitAsWrittenTruncates` | internal/auth/auth.go:199-202 | Concrete case: "alice:pa:ss" gives the password "pa" as written, and "pa:ss" when corrected. |
| `Auth.DecodeAuthHeaderAsWritten` | internal/auth/auth.go:183-203 | A header shorter than 6 characters fails. Invalid base64 gives `UndecodableCredentials`, and a decoding without ':' gives `MissingSeparator`. Decoding succeeds if and only if the text after the first 6 characters is valid base64 and its decoding has a ':'. Neither part has a ':', and `user:password` is a prefix of the decoded text. |
| `Auth.DecodeAuthHeader` | internal/auth/auth.go:183-203 | The same success condition. The decoded text is the user, a ':' and the password. Invalid base64 gives `UndecodableCredentials`, and a decoding without ':' gives `MissingSeparator`. |
| `Auth.SplitAsWrittenCutsPassword` | internal/auth/auth.go:199-202 | For a colon-free user, the source's split of `user:password` keeps the user and returns the whole password when it has no ':', or else the password cut just before its first ':'. |
| `Auth.SplitCorrection` | internal/auth/auth.go:199-202 | The source's split and the corrected split succeed on the same texts and give the same user. The source's password is the corrected password, or the corrected password cut just before its first ':'. |
| `Auth.DecodeAuthHeaderCorrection` | internal/auth/auth.go:183-203 | The two header decoders fail on the same headers with the same error. On success they give the same user. The as-written password is the corrected one cut at its first ':', and it is equal to it when the corrected password has no ':'. |
| `Auth.BasicAuthRoundTrip` | internal/auth/auth.go:183-203 | If base64 decoding inverts encoding, then "Basic " plus the encoding of `user:password` decodes to the user and the password. |
| `Auth.PrefixIgnored` | internal/auth/auth.go:189-190 | The first 6 characters are never checked: any 6-character prefix decodes the same as "Basic ". |
| `Auth.WithoutPlayer` | internal/auth/auth.go:156-163 | Exactly the sessions of other players remain, with their records unchanged. |
| `Auth.StartSession` | internal/auth/auth.go:156-166 | The new session is stored under its id with the current time. It is the only session of that player. Every other key is kept exactly when it belongs to another player, and its record is unchanged. |
| `Auth.StartSessionPreservesInvariants` | internal/auth/auth.go:156-166 | Key consistency and at most one session per player are preserved. |
| `Auth.Signup` | internal/auth/auth.go:58-94 | Fails with `UsernameExists` if and only if the username is taken, and then nothing changes. Otherwise it adds exactly `usr -> pwd` to the credentials. It succeeds if and only if the username is new and non-empty. An empty username fails but stays stored. On failure the sessions are unchanged. On success it returns the derived player id and the new session. |
| `Auth.Login` | internal/auth/auth.go:133-166 | The credentials never change. Fails with `InvalidCredentials` if and only if the username is unknown or the password differs. It succeeds if and only if the password matches and the username is non-empty. A stored empty username with the matching password fails with the id-generation error `EmptyPlayerIdInput`. Any failure leaves the state unchanged. |
| `Auth.HandleSignup` | internal/auth/auth.go:44-94 | A missing header fails with `MissingHeader`, and an undecodable header fails with the decoder's error; neither changes the state. A decodable header gives exactly the signup of the decoded user and password. Uses the corrected split. |
| `Auth.HandleSignupAsWritten` | internal/auth/auth.go:44-94 | The same, with the source's decoder: a decodable header gives the signup of the user and the possibly truncated password. |
| `Auth.HandleLogin` | internal/auth/auth.go:119-166 | A missing header fails with `MissingHeader`, and an undecodable header fails with the decoder's error; neither changes the state. A decodable header gives exactly the login of the decoded user and password. The credentials never change. Uses the corrected split. |
| `Auth.HandleLoginAsWritten` | internal/auth/auth.go:119-166 | The same, with the source's decoder. The credentials never change. |
| `Auth.HandlersAgreeWithoutColon` | internal/auth/auth.go:183-203 | When the decoded password has no ':', the as-written and the corrected signup and login handlers give the same reply. |
| `Auth.AsWrittenLoginAcceptsWrongPassword` | internal/auth/auth.go:133-166 | With "pa" stored for alice, a header decoding to "alice:pa:xx" logs in with the source's handler and is refused with `InvalidCredentials` by the corrected one. |
| `Auth.HandlersPreserveValid` | internal/auth/auth.go:44-166 | Every reply of the signup and login handlers, as written or corrected, keeps key consistency and one session per player. |
| `Auth.SignupPreservesValid` | internal/auth/auth.go:61-94 | Signup preserves key consistency and one session per player. |
| `Auth.LoginPreservesValid` | internal/auth/auth.go:136-166 | Login preserves key consistency and one session per player. |
| `Auth.GrantLeavesOneSession` | internal/auth/auth.go:86-94 | After a successful signup or login, the player's sessions are exactly the new session id. |
| `Auth.SignupTwiceFails` | internal/auth/auth.go:61-66 | A second signup with the same username fails with `UsernameExists`, whatever the password, and changes nothing. |
| `Auth.SignupThenLogin` | internal/auth/auth.go:136-141 | After a signup, the same credentials log in and get the derived id. A different password is refused with no change. |
| `Auth.ReloginSupersedes` | internal/auth/auth.go:156-166 | A second login with a new session id removes the first session and leaves only the second. |
| `Stats.MergeDelta` | internal/stats/stats.go:170-183 | Level < 1 fails. If an entry exists at index level-1, wins and losses are added there. The best score becomes the minimum only when the delta's win count is 1. The length and every other entry are unchanged. Otherwise the delta is appended. Best scores never rise. |
| `Stats.ReturnUpdatedPlayerStats` | internal/stats/stats.go:129-193 | A nil delta fails. Other read errors are forwarded. A missing record starts empty only for level 1, and other levels forward not-found. A found record with a level below 1 hits the index panic, `IndexOutOfRange`. When the read and the merge succeed but the write does not, the result is `WriteFailed`. It succeeds if and only if those checks pass, the level is at least 1 and the write succeeds. The result is the merge. |
| `Stats.MergeAddsCounts` | internal/stats/stats.go:171-183 | A merge raises the player's total wins and total losses by exactly the delta's counts. |
| `Stats.MergePositional` | internal/stats/stats.go:171-183 | Given a list where entry i is for level i+1, the merge keeps that layout if and only if the delta's level is at most the length plus one. |
| `Gameplay.EnterLevelAsWritten` | internal/gameplay/gameplay.go:107-144 | Only levels below 0 or above the level count fail the range check. Level 0 with a player fetched ends in the `Levels[-1]` panic. |
| `Gameplay.EnterLevel` | internal/gameplay/gameplay.go:107-144 | Level < 1 or above the count is invalid. A failed lookup is reported. Entry is granted if and only if the level is unlocked and the energy covers its cost. A granted entry requests an energy delta of minus the cost with the level kept. A denied entry returns the player unchanged. |
| `Gameplay.EnterLevelCorrection` | internal/gameplay/gameplay.go:109-127 | The as-written rule and the corrected rule agree except at level 0. There the source panics or reports the lookup failure, and the corrected rule refuses the level. |
| `Gameplay.EntryKeepsEnergyNonNegative` | internal/gameplay/gameplay.go:127-137 | A granted entry never drives the fetched player's energy below zero and keeps the player's level. |
| `Gameplay.AdjudicateAsWritten` | internal/gameplay/gameplay.go:179-246 | Level 0 reaches the `Levels[-1]` panic. A valid request with an empty, non-nil roll list reaches the `Rolls[-1]` panic. |
| `Gameplay.Adjudicate` | internal/gameplay/gameplay.go:179-246 | A failed lookup, a bad level (out of range or above the player's level) and bad rolls (nil, empty or too many) are each reported, and the lookup failure only when the player is missing. Every other request succeeds. The result is won if and only if the last roll hits the target. The next level unlocks if and only if the player won their own level and it is not the last. The reward is given only on a win. The new level is one higher exactly when unlocked. The stats delta is {level,1,0,rolls} on a win and {level,0,1,default score} on a loss. |
| `Gameplay.AdjudicateCorrection` | internal/gameplay/gameplay.go:189-204 | The two result rules agree except where the source panics. The lemma gives that set exactly: level 0, or an empty roll list on an otherwise valid request. |
| `Gameplay.LevelStaysInRange` | internal/gameplay/gameplay.go:205-216 | For a player level between 1 and the level count, the new level is the old one or one more, and stays within the table. |
| `Gameplay.PlayKeepsCoherent` | internal/gameplay/gameplay.go:234-246 | Suppose the stats hold levels 1.. in order and cover every level below the player's level. Then applying a result's level update and merging its delta keeps that true. |
| `Gameplay.NewPlayerCoherent` | internal/config/config.go:47 | A new player at the default level with no stats satisfies that coherence. |
| `Gameplay.LossThenWin` | internal/gameplay/gameplay_test.go:172-181 | On level 1, a loss with [1,1] records {1,0,1,99}. A win with [1,6] then pays 5, unlocks level 2 and turns the record into {1,1,1,2}. |
| `Config.TableShape` | internal/config/config.go:35-46 | The table has 10 levels and entry i is level i+1. Every level has cost > 0, at least 2 rolls, a target from 1 to 6 and reward > 0. |
| `Config.TableDefaults` | internal/config/config.go:47-50 | Default level 1, max energy 50, energy regeneration every 5 seconds, default level score 99. |

## Left out

- HTTP handling, JSON encoding and decoding, response headers and status codes, `Run`, and the `cmd/*` runners. These are I/O. Only the outcome of each handler is modelled, as an error value or a result.
- The nil-receiver checks (`as == nil` and the like). Dafny values cannot be nil.
- The mutexes (`credMutex`, `sessMutex`, `statsMutex`). Each operation is modelled as atomic.
- Gameplay.EntryKeepsEnergyNonNegative: holds for the player snapshot the handler fetched. The gameplay handlers hold no lock between reading the player and sending the energy delta, so two concurrent entries can both pass the check on the same snapshot and together drive energy below zero; the model treats each read-check-update as atomic and does not cover that interleaving.
- Auth.DecodeAuthHeader: Go strings are byte strings, so `encodedCred[6:]` drops 6 bytes and the length check counts bytes. The model works on characters: `HeaderTooShort` counts characters and the prefix is 6 characters. The two differ only when the first 6 bytes hold a multi-byte character.
- Auth.DecodeAuthHeaderAsWritten: the same characters-for-bytes simplification as `Auth.DecodeAuthHeader`.
- Auth.HandleSignup: uses the corrected split. The source's behaviour, with the truncated password, is `Auth.HandleSignupAsWritten`.
- Auth.HandleLogin: uses the corrected split. The source's behaviour, with the truncated password, is `Auth.HandleLoginAsWritten`.
- The wall clock. The session id (Unix microseconds) and the last-action time (Unix seconds) are parameters. Their uniqueness is not assumed, so a new session overwrites any session already stored under the same id.
- SHA-256 and base64. Both are parameters. A digest is typed as 32 bytes. Base64 is assumed to invert its encoder only in `Auth.BasicAuthRoundTrip`.
- Outbound calls: `getPlayerFromProfile`, `updatePlayerData`, `returnUpdatedPlayerStats`, `readStatsFromDB` and `writeStatsToDB`. Their results are parameters, or the model returns the update or delta the handler would send. A failure of `updatePlayerData` or of the stats call in the gameplay handlers is not modelled.
- Session sweeper, logout, validation endpoint, `activePlayerIDs` and `serverVersion`. Other files refer to them, but the auth.go modelled here does not implement them.
- internal/profile/profile.go and internal/data/data.go contain no logic. The energy and level clamping that profile_test.go expects has no implementation to model.
- internal/validation/validation.go. It is a network client.
- The stats read handler `HandlePlayerStatsRequest` and the wrapper `HandleUpdatePlayerStatsRequest`. They are plumbing around the modelled merge.
- Stats.MergeDelta: win and loss counts are unbounded integers. The source's `int32` fields would wrap after 2^31 additions. The level is unbounded too: the source computes `delta.Level-1` in `int32` (internal/stats/stats.go:143), so a level of -2147483648 wraps to 2147483647, the index is out of range of the list, and the delta is appended; the model rejects every level below 1 with `IndexOutOfRange`.
- Gameplay.Adjudicate: the roll count is the unbounded length of the list. The source's `int32(len(rolls))` would truncate past 2^31 rolls.
- Gameplay.EnterLevel: `player.Level` and `player.Energy` are unbounded integers. The `int32` arithmetic of the profile service is outside this model.

## Findings

| source | as written | input that shows it | evidently intended | confidence | as-written member | corrected member |
|---|---|---|---|---|---|---|
| internal/gameplay/gameplay.go:109-127 | The range guard `level < 0` admits level 0, and then `cfg.Levels[level-1]` indexes -1 and panics. | An entry request for level 0 by an existing player (`Gameplay.EnterLevelCorrection`). | Refuse level 0 as an invalid level. The handler test at internal/gameplay/gameplay_test.go:81 expects a 400. | high; not executed | `Gameplay.EnterLevelAsWritten` | `Gameplay.EnterLevel` |
| internal/gameplay/gameplay.go:189-195 | The same guard in the result handler admits level 0, and `cfg.Levels[request.Level-1]` panics. | A result request for level 0 by a player at level 1 or more (`Gameplay.AdjudicateCorrection`). | Refuse as an invalid level. The test at internal/gameplay/gameplay_test.go:166 expects a 400. | high; not executed | `Gameplay.AdjudicateAsWritten` | `Gameplay.Adjudicate` |
| internal/gameplay/gameplay.go:199-204 | Only a nil roll list is refused. An empty list reaches `request.Rolls[rollCount-1]` with index -1 and panics. | Level 1, rolls `[]` (JSON `"rolls": []`) (`Gameplay.AdjudicateCorrection`). | Refuse as invalid rolls, like a missing list. | medium; not executed | `Gameplay.AdjudicateAsWritten` | `Gameplay.Adjudicate` |
| internal/auth/auth.go:199-202 | `strings.Split(decoded, ":")[1]` keeps only the text up to a second ':'. A password with a colon is stored and compared truncated. | Credentials "alice:pa:ss" store the password "pa", so a later "alice:pa:xx" also logs in (`Auth.SplitAsWrittenTruncates`). | Split at the first ':' only, as section 2 of RFC 7617 (Basic authentication) specifies. | medium; not executed | `Auth.SplitAsWritten` | `Auth.SplitAtFirstColon` |

The handler models `Auth.HandleSignup` and `Auth.HandleLogin` use the
corrected decoder `Auth.DecodeAuthHeader`; `Auth.HandleSignupAsWritten` and
`Auth.HandleLoginAsWritten` keep the source's, and
`Auth.AsWrittenLoginAcceptsWrongPassword` shows the difference at the
handler level. `Gameplay.PlayKeepsCoherent`
and `Gameplay.LossThenWin` use the corrected `Gameplay.Adjudicate`.
