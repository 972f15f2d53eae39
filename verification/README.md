# Verified model of the Go API template

The template is a Go service with a PostgreSQL-backed authentication module and a set of scripts that keep generated
repositories up to date. This project models its stateful and text-handling core in Dafny and proves what that core is
meant to guarantee. `dafny verify dfyconfig.toml` checks everything.

**Sessions.** A login starts a *family* of refresh tokens; each refresh spends the presented token and appends its
successor; presenting a spent token is a *reuse* and revokes the family; a logout revokes the family too.
`RefreshTokens` and `RefreshHistory` describe the token table under atomic operations, `Repository` and `Service` hold
the imperative classes that carry them out, `Sessions` and `SessionGuarantees` speak of whole runs of any length, mixing
logins, refreshes, logouts and changes of the user directory. `ConcurrentRotation` takes the rotation apart into the
statements of its transaction, with the row locks of `SELECT ... FOR UPDATE`, and shows that every interleaving with
other rotations, logins, logouts and changes of users equals a serial one; `RotationRaces` draws the conclusions for
clients that race with the same token, `LogoutRaces` for logouts, which take no such lock, and `RotationProgress` shows
that nobody waits forever. `Operations` says of each call of the service, one by one, what it answers and which rows it
changes.

**Login limiter.** `LoginLimiter` compares the purged attempts table with the complete history of failures;
`LoginGuarantees` carries its lock over whole runs; `ConcurrentLogin` interleaves any number of logins for one key, and
`LoginSerial` shows that they are a run of the limiter, `LoginProgress` that each gets its answer, and `LoginRaces` says
what can unlock a key early there.

**Authorization.** `Directory` is the five-table left join, `Provisioning` the creation of administrators,
`AccessTokens` the token claims, `Middleware` the request handlers. `Authorization` ties them together: what a served
request says about the past.

**Printed formats.** `Text` and `Base64` are the shared printers and parsers; `PasswordHash`, `Csrf` and `AccessTokens`
use them.

**Text rewriting.** `Loop`, `ReplaceLiteral` and `RewriteTermination` treat the updater's replacement loop,
`FieldPattern`, `Manifest` and `ManifestGuarantees` the in-place edit of the template manifest.

**Response writers.** `ResponseWriter` and `RequestChain` are the nested status recorders, panic recovery and error store.

Cryptographic primitives (token hashing, key derivation, message authentication, signatures), e-mail normalisation, the
rate key, the JWT serialisation, random draws and clock readings are parameters: fields of `Environment` and
`TokenManager`, function-typed arguments, or arguments of each call. What is assumed of them is stated where it is used.

Eight properties do not hold of the code as one might first state them. Each has a failing case and an exact condition:

- The purged attempts table can answer differently from the full history when a key's clock goes backwards
  (`LoginLimiter.BackwardClockDisagrees`). From a recorded failure to the next reading of the key the two agree after
  every earlier run with forward clocks exactly when the clock does not go back (`LoginLimiter.AgreeExactlyForward`).
- A logout that races with a rotation can leave the successor token live (`LogoutRaces.LogoutOvertaken`). In every
  execution it revokes the family exactly when each row that joined the family after the logout read it is revoked
  already, and exactly then it is the atomic logout (`LogoutRaces.LogoutRevokesExactly`).
- A locked key can be unlocked before its oldest failure is 15 minutes old: a login with good credentials that passed
  the check earlier clears it (`LoginRaces.ClearedEarly`). The key stays as it is in every interleaving exactly when, as
  it locks, no such login is waiting to clear it (`LoginRaces.LockedExactly`).
- The comparison copy of a Go file is rewritten even when both module paths are equal, where the loop ends only on lines
  without the path (`RewriteTermination.EqualPathsDiverge`); the patch rewriting has a guard against this.
- A text whose two fields are each found once is still damaged when one field's name is the other's value
  (`ManifestGuarantees.OverlappingFails`) or follows a line break in it (`ManifestGuarantees.SpanningFails`); neither text
  is JSON, which the pattern does not notice. A recording does what it should exactly when neither name starts at a quote
  of the other's value (`ManifestGuarantees.RecordedExactly`).
- The permissions that the creation of an administrator returns fall short of the stored ones when internal_admin
  already carries others (`Provisioning.ReturnedPermissionsFallShort`); `Provisioning.CreatedAdminIsFound` says exactly
  when they agree.
- The recorded status is not the client's when the first header of a response is informational
  (`RequestChain.FailureAfterHintsIsLost`) or a flush has gone past the wrappers before another status
  (`RequestChain.FailureAfterFlushIsStored`); `RequestChain.StatusesAgree` says exactly when it is.
- An error is stored although the client gets 200 when a handler flushes before a server error, or sets a status above
  999 (`RequestChain.OutOfRangeIsStored`); `RequestChain.StoredExactly` says that these are the only cases.

## Model

| member | source | states |
|---|---|---|
| `Directory.QueryExact` | internal/modules/auth/postgres_repository.go:221-253 | the five-table left join with distinct, null-filtered aggregation finds a user exactly when one matches, and returns, without duplicates, exactly the user's roles and the union of the permissions of those roles |
| `Provisioning.CreateAdminKeepsValid` | migrations/000002_create_authentication.up.sql:1-30 | creating an administrator keeps every uniqueness constraint and every foreign key, whether it succeeds or not |
| `Provisioning.CreatedOnce` | internal/modules/auth/postgres_repository.go:53-62 | an e-mail is provisioned at most once: a creation is refused exactly when the lookup by that e-mail finds a user, a refusal changes no table, and after any creation a further one is refused |
| `Provisioning.CreateAdminFrame` | internal/modules/auth/postgres_repository.go:33-77 | for users who were there before no role changes, and only holders of internal_admin can gain a permission, errors:read |
| `Provisioning.NewAdminAccess` | internal/modules/auth/postgres_repository.go:33-77 | the new user has exactly the role internal_admin and exactly that role's permissions, errors:read among them |
| `Provisioning.CreatedAdminIsFound` | internal/modules/auth/postgres_repository.go:33-77 | the lookup by e-mail finds the created user, active, with role internal_admin and errors:read; the permissions returned by the creation equal the lookup's exactly when the role carried nothing else before |
| `Provisioning.ReturnedPermissionsFallShort` | internal/modules/auth/postgres_repository.go:73-76 | a directory in which the returned permissions are not those of the lookup |
| `RefreshTokens.StepSound` | internal/modules/auth/postgres_repository.go:138-215 | every atomic create, rotate or revoke keeps unique keys, one user per family, exactly one unused token per family, and every used token revoked |
| `RefreshTokens.RotateSucceeds` | internal/modules/auth/postgres_repository.go:187-203 | a successful rotation spends exactly the presented row and appends one successor of the same family and user, and changes no other row |
| `RefreshTokens.OtherwiseOnlyRevokes` | internal/modules/auth/postgres_repository.go:175-186 | a refused rotation and a logout do nothing but fill in revocation times |
| `RefreshHistory.StepKeeps` | internal/modules/auth/postgres_repository.go:138-215 | no operation removes or re-dates a row, and a recorded use or revocation never changes again |
| `RefreshHistory.UsedReportsReuse` | internal/modules/auth/postgres_repository.go:175-183 | a used token reports reuse whatever its expiry, revocation or user state, and leaves its family revoked |
| `RefreshHistory.RevokedFamilyFrozen` | internal/modules/auth/postgres_repository.go:175-215 | once a family is revoked, no operation changes, adds or rotates any of its rows |
| `ConcurrentRotation.CommitIsAtomic` | internal/modules/auth/postgres_repository.go:148-204 | what a rotation commits, computed at its SELECT, is what the atomic rotation of the then current table gives |
| `ConcurrentRotation.StepInv` | internal/modules/auth/postgres_repository.go:148-204 | every statement of every transaction, an abort included, keeps the refinement invariant: locks held apart, reads still current, private writes apart |
| `ConcurrentRotation.Serializable` | internal/modules/auth/postgres_repository.go:148-204 | any interleaving of rotations, logins, logouts and changes of users' active flags equals a serial order: rotations and logins atomic, a logout as the revocation of the rows it had read; the committed tables are their result, each rotation has the verdict of the atomic one, and the table invariant holds |
| `RotationRaces.ExecutionIsSerial` | internal/modules/auth/postgres_repository.go:148-204 | and the rotations of that serial order are exactly the completed clients' calls, once each, with the verdicts the clients got; aborted ones leave nothing |
| `RotationRaces.LaterIsReuse` | internal/modules/auth/postgres_repository.go:175-183 | after one client has rotated a token, every later client presenting it is told of the reuse and the whole family is revoked |
| `RotationRaces.OneWinner` | internal/modules/auth/postgres_repository.go:148-204 | of all clients presenting one token at most one succeeds, in every interleaving; whoever completes after it gets reuse |
| `RotationProgress.EverythingEnds` | internal/modules/auth/postgres_repository.go:148-215 | no deadlock: from any state of the locks every rotation and logout can be brought to its end, none given up and none that has ended changed |
| `RotationProgress.NothingGoesOnForever` | internal/modules/auth/postgres_repository.go:148-215 | and no schedule of their statements is longer than the statements that are left |
| `RotationProgress.AloneIsAtomic` | internal/modules/auth/postgres_repository.go:148-204 | a rotation whose statements run undisturbed has the verdict and leaves the rows of the atomic one, so every serial order does happen |
| `LogoutRaces.LogoutRevokesExactly` | internal/modules/auth/postgres_repository.go:206-215 | over every execution, from the logout's read to its end: the family is revoked afterwards exactly when every row that joined it in between was revoked already, and exactly then the logout equals the atomic one |
| `LogoutRaces.UndisturbedLogout` | internal/modules/auth/postgres_repository.go:206-215 | a logout during which no rotation of the family commits is the atomic logout and leaves the family revoked |
| `LogoutRaces.UnknownLogoutChangesNothing` | internal/modules/auth/postgres_repository.go:206-215 | a logout of a token that is not stored when it starts changes no row |
| `LogoutRaces.LogoutOvertaken` | internal/modules/auth/postgres_repository.go:206-215 | an execution in which a rotation commits during a logout and its successor stays live |
| `LogoutRaces.RevokedForeverConcurrently` | internal/modules/auth/postgres_repository.go:148-215 | in every interleaving, once all committed rows of a family are revoked, nothing that commits later changes, extends or rotates it |
| `LoginLimiter.PurgedAnswersAreExact` | internal/modules/auth/postgres_repository.go:79-136 | while no key's clock goes backwards, every answer of check and record over a whole run equals the answer over the complete history since the last clear |
| `LoginLimiter.AgreeExactlyForward` | internal/modules/auth/postgres_repository.go:79-136 | after a failure recorded at a, the next reading at b is answered alike after every run with forward clocks exactly when a <= b |
| `LoginLimiter.BackwardClockDisagrees` | internal/modules/auth/postgres_repository.go:103-118 | for every clock that goes back from a to b, five failures and a sixth 15 minutes later, from the empty table on, make the two tables answer differently |
| `LoginLimiter.StepBounded` | internal/modules/auth/postgres_repository.go:91-128 | no call, at any clock reading, stores more than five rows for a key, and no call touches another key's rows |
| `LoginLimiter.RecordMeans` | internal/modules/auth/postgres_repository.go:103-127 | recording answers as the check would, adds exactly one counted failure unless limited, and leaves no expired row of the key |
| `LoginLimiter.UnlocksAtOldest` | internal/modules/auth/postgres_repository.go:79-89 | a key is limited exactly while it has five failures and the oldest is less than 15 minutes old |
| `LoginLimiter.LockedUntilOldestExpires` | internal/modules/auth/service.go:64-82 | logins of one key before its unlock time, with good or bad credentials, change no row; limited is exactly what comes before that time |
| `LoginLimiter.LimitedExactly` | internal/modules/auth/postgres_repository.go:79-89 | a key is limited exactly when five of its rows that record failures are less than 15 minutes (900 seconds) old |
| `LoginLimiter.RecordExactly` | internal/modules/auth/postgres_repository.go:91-128 | unless the key is limited, each row stays as often as it was there, except that the key's rows of 15 minutes and more are gone and one failure at this time is added |
| `LoginLimiter.ClearExactly` | internal/modules/auth/postgres_repository.go:130-136 | exactly the key's rows are deleted |
| `LoginGuarantees.LockedInEveryRun` | internal/modules/auth/service.go:63-88 | in every run of the service a locked key's unlock time, the oldest failure plus 15 minutes, never moves, and a check of the key is rate limited exactly before it |
| `LoginGuarantees.RunBounded` | internal/modules/auth/service.go:63-88 | in every run no key ever has more than five stored failures |
| `ConcurrentLogin.StepInv` | internal/modules/auth/postgres_repository.go:91-128 | every step of interleaved logins keeps the lock discipline and the bound on stored rows |
| `ConcurrentLogin.AtMostFive` | internal/modules/auth/service.go:63-88 | in every interleaving at most five rows are stored for a key; with record times in lock order, no half-open window of 15 minutes between clears holds more than five failures |
| `LoginSerial.LoginsAreLimiterRun` | internal/modules/auth/service.go:63-88 | every interleaving of logins, at any clocks, is a run of the limiter's check, record and clear calls: they give the committed rows, and their answers are those the logins went by |
| `LoginSerial.ConcurrentAnswersAreExact` | internal/modules/auth/service.go:63-88 | with a clock that goes forward in the order of those calls, concurrent logins go by the answers of the complete history |
| `LoginRaces.LockedExactly` | internal/modules/auth/service.go:63-88 | a locked key's rows stay as they are in every interleaving until its unlock time exactly when, as it locks, no login with good credentials has passed the check and not yet cleared; any such login can clear it at once |
| `LoginRaces.LockedUntilCleared` | internal/modules/auth/service.go:63-88 | meanwhile, as long as no clear happens, no login that starts gets past the check and none is accepted |
| `LoginRaces.ClearedEarly` | internal/modules/auth/service.go:86-88 | an execution in which a good login that had passed the check clears the key at the very time of the fifth failure |
| `LoginProgress.EverythingEnds` | internal/modules/auth/postgres_repository.go:91-128 | from any state of the advisory lock every login can be brought to its answer, none given up |
| `LoginProgress.AloneIsAtomic` | internal/modules/auth/service.go:63-88 | a login that runs undisturbed has the answer and leaves the rows of the limiter's login |
| `Text.SplitJoin` | internal/modules/auth/password.go:50-54 | splitting undoes joining for parts without the separator |
| `Text.JoinSplit` | internal/modules/auth/csrf.go:26-40 | joining undoes splitting, and no part holds the separator |
| `Text.Uint32RoundTrip` | internal/modules/auth/password.go:58-68 | a number survives decimal printing and 32-bit parsing exactly when it fits |
| `Text.Int64RoundTrip` | internal/modules/auth/token.go:137-145 | a number survives decimal printing and signed 64-bit parsing exactly when it fits |
| `Text.DigitsByPlace` | internal/modules/auth/password.go:58-68 | a text of digits has the value that its places give it; any other text has none |
| `Text.OnePrinting` | internal/modules/auth/token.go:86-113 | of the texts with a value the printer gives the one without a leading zero |
| `Base64.RoundTrip` | internal/modules/auth/password.go:40-48 | unpadded base64 in either alphabet decodes to the encoded bytes |
| `Base64.EncodedText` | internal/modules/auth/csrf.go:14-24 | encoded text has only symbols of its alphabet, so none of the separators |
| `Base64.SymbolTable` | internal/modules/auth/password.go:40-48 | the 64 symbols of the two alphabets in the order of tables 1 and 2 of RFC 4648 |
| `Base64.EncodedGroup` | internal/modules/auth/password.go:40-48 | each group of three bytes and its four symbols are the same 24-bit number, a last group filled up with zero bits (section 4 of RFC 4648) |
| `Base64.DecodesExactly` | internal/modules/auth/csrf.go:34-37 | a text without line breaks decodes exactly when it holds symbols only and does not end in a group of one, to the bits of its symbols |
| `Base64.LineBreakSkipped` | internal/modules/auth/csrf.go:34-37 | a line break anywhere in the text makes no difference |
| `PasswordHash.VerifyPassword` | internal/modules/auth/password.go:50-83 | the parser loop with its early returns accepts exactly what the specification of parse and compare accepts |
| `PasswordHash.ParsePrinted` | internal/modules/auth/password.go:31-83 | parsing a printed hash gives back its parameters, salt and key exactly when they are acceptable; otherwise it is rejected |
| `PasswordHash.VerifiesHashed` | internal/modules/auth/password.go:31-83 | for every valid password and salt, the stored hash verifies a candidate exactly when the key derivation agrees on both |
| `PasswordHash.HashedExactly` | internal/modules/auth/password.go:22-48 | a password is hashed exactly when it has 15 to 128 code points, and refused as invalid otherwise; the stored text is the PHC string with version 19, m=65536, t=3, p=1, the salt and the 32-byte key |
| `PasswordHash.ParametersExactly` | internal/modules/auth/password.go:55-64 | the parameter list is read exactly when every item is key=number with a number below 2^32, and the last item of a key decides |
| `PasswordHash.ParseExactly` | internal/modules/auth/password.go:50-79 | the texts that are read as stored hashes, and what each is read as: any first part, argon2id, v=19, parameters of which the last m, t and p are positive, a salt of eight bytes or more, a key |
| `PasswordHash.VerifiesExactly` | internal/modules/auth/password.go:50-83 | a password is verified exactly when the text is such a hash and the derivation under its parameters gives the password its key |
| `Csrf.AcceptedExactly` | internal/modules/auth/csrf.go:26-46 | the accepted strings are exactly v + "." + s, where v decodes to 32 bytes and s is the printed MAC of v under the secret, which has at least 32 bytes |
| `Csrf.GeneratedValidates` | internal/modules/auth/csrf.go:14-46 | one is generated exactly when the secret has 32 bytes, and it validates under that secret, and under another exactly when the MACs of its value agree |
| `Csrf.ExchangedPart` | internal/modules/auth/csrf.go:26-46 | a validated token with its value exchanged validates exactly when the secret gives both values the same MAC; with its signature exchanged, never |
| `AccessTokens.ParseIssued` | internal/modules/auth/token.go:86-151 | parsing an issued token returns the same user exactly when the id is positive and fits 64 bits, the e-mail is not empty and the time lies between the second-truncated not-before and expiry |
| `AccessTokens.UsableLifetime` | internal/modules/auth/token.go:86-113 | a token is never usable from issue plus lifetime on, and loses less than a second of its lifetime |
| `AccessTokens.IssuedExactly` | internal/modules/auth/token.go:86-113 | what an issued token carries, claim by claim, and that it is signed for the manager's key id |
| `AccessTokens.ParseExactly` | internal/modules/auth/token.go:115-151 | any text is refused, as unauthenticated, exactly when it is no token or fails one of the checks: algorithm, key id, signature, type, issuer, audience, expiry, not-before, issue time, e-mail, positive 64-bit subject |
| `AccessTokens.OtherManager` | internal/modules/auth/token.go:115-151 | of two managers with the same keys one accepts the other's token exactly when key id, issuer and audience agree and it is usable then |
| `Middleware.AuthenticationExactly` | internal/modules/auth/middleware.go:14-37 | the handler behind the authentication is asked exactly by requests whose cookie parses, under that principal; the others get 401, and all get 503 without a service |
| `Middleware.PermissionExactly` | internal/modules/auth/middleware.go:39-48 | the handler behind a permission, whatever it is, is asked exactly by requests that authenticate as a principal with that permission, under that principal, and its answer stands; otherwise the answer is 403, 401 or 503 |
| `Middleware.RoleExactly` | internal/modules/auth/middleware.go:54-63 | the same for roles |
| `Middleware.BothExactly` | internal/modules/auth/middleware.go:39-86 | a role guard around a permission guard: which of 503, 401 and 403 comes first, and that the handler is asked exactly when both admit, each at its own time |
| `Repository.PostgresRepository.CreateAdmin` | internal/modules/auth/postgres_repository.go:33-77 | the five statements on the mutable tables, rolled back after the role and permission were written, come to the specified creation; it is refused exactly when the lookup finds the e-mail, and then no table has changed |
| `Repository.PostgresRepository.RecordLoginFailure` | internal/modules/auth/postgres_repository.go:91-128 | the row-by-row DELETE, the COUNT and the INSERT answer as the check before the DELETE would; unless limited exactly one more failure counts afterwards, no expired row of the key is left and no other key's rows change |
| `Database.CreatedTokenRotates` | internal/modules/auth/postgres_repository.go:138-204 | a created token can be rotated exactly while it has not expired, its user is active and the new hash is new; a refused creation changes no row |
| `Repository.PostgresRepository.RevokeFamilyRows` | internal/modules/auth/postgres_repository.go:176-180 | the row-by-row family update revokes exactly the family's unrevoked rows |
| `Repository.PostgresRepository.RotateRefreshToken` | internal/modules/auth/postgres_repository.go:148-204 | the whole transaction on mutable rows, rollback included, is the atomic rotation and the joined user read |
| `Repository.PostgresRepository.RevokeRefreshFamilyByToken` | internal/modules/auth/postgres_repository.go:206-215 | the single update is the specified revocation |
| `Service.Service.Login` | internal/modules/auth/service.go:55-91 | the login's calls and early exits on the mutable repository come to the protocol's login, whose answer and rows `Operations` states |
| `Service.Service.Refresh` | internal/modules/auth/service.go:93-115 | the refresh comes to the protocol's, error mapping included |
| `Service.Service.Logout` | internal/modules/auth/service.go:117-128 | the logout is the protocol's, with nothing done for an empty token |
| `Service.Service.CreateAdmin` | internal/modules/auth/service.go:148-161 | validation, hashing and creation are the protocol's provisioning |
| `Service.Service.Authenticate` | internal/modules/auth/service.go:130-135 | unavailable exactly without repository, manager or a secret of 32 bytes; otherwise the manager's answer |
| `Service.Service.NewCSRFToken` | internal/modules/auth/service.go:137-142 | a token is made exactly when repository, manager and a secret of 32 bytes are there, and it validates |
| `Service.Service.ValidateCSRFToken` | internal/modules/auth/service.go:144-146 | validation needs the secret alone, and accepts exactly value and printed MAC |
| `Operations.LoginAnswer` | internal/modules/auth/service.go:55-91 | an empty name gives InvalidCredentials; RateLimited comes exactly for five counted failures, before the password is looked at; InvalidCredentials exactly when no active user has that e-mail and password; success exactly with good credentials and a new token hash; Unavailable otherwise |
| `Operations.LoginRows` | internal/modules/auth/service.go:63-88 | what a login does to the rows: nothing for an empty name or a limited key; one more counted failure, with expired ones gone, for bad credentials; the key's rows cleared for good ones; no token row unless it succeeds |
| `Operations.LoginSession` | internal/modules/auth/service.go:88-91 | a successful login appends exactly one row, with the hash of the refresh token it hands out, the user's id, the drawn family and expiry now plus lifetime; its access token parses to that user during the access lifetime and is refused from its end on |
| `Operations.LoginIsRun` | internal/modules/auth/service.go:55-91 | a login is the run of a check and, when it accepts, a session start |
| `Operations.RefreshUnknown` | internal/modules/auth/service.go:93-113 | an empty or unknown token gives InvalidRefreshToken and changes nothing |
| `Operations.RefreshAnswer` | internal/modules/auth/service.go:93-115 | for a stored token: RefreshReuse exactly when it is used, InvalidRefreshToken exactly when it is revoked, expired or its user inactive, success exactly when it is live, the user active and the new hash new, Unavailable otherwise |
| `Operations.RefreshRefusedRows` | internal/modules/auth/postgres_repository.go:175-195 | reuse revokes exactly the family's unrevoked rows, at that time; the other refusals change no row |
| `Operations.RefreshSession` | internal/modules/auth/service.go:100-115 | a successful refresh marks exactly the presented row used and revoked at that time and appends one row with the hash of the refresh token it hands out; its access token parses to the token's user |
| `Operations.RefreshIsRun` | internal/modules/auth/service.go:93-115 | a refresh is a run of one call, whose issuance is the access token it hands out, in the token's family |
| `Operations.LoginTokenRefreshes` | internal/modules/auth/service.go:88-115 | the refresh token that a login hands out refreshes exactly until the refresh lifetime is over, for an active user and a new hash, whatever the directory has become |
| `Operations.RefreshTokenRefreshes` | internal/modules/auth/service.go:100-115 | so does the one that a refresh hands out, and the one it was given reports reuse from then on |
| `Operations.LogoutExactly` | internal/modules/auth/service.go:117-128 | a logout gives exactly the family's unrevoked rows this revocation time; an empty or unknown token changes nothing |
| `Operations.ValidEmailExactly` | internal/modules/auth/service.go:219-225 | an e-mail is acceptable exactly when it has 1 to 320 characters, no blank, tab or line break, exactly one @, not at an end, and a dot behind it |
| `Operations.ProvisionAnswer` | internal/modules/auth/service.go:148-161 | InvalidEmail exactly for an unacceptable e-mail, else InvalidPassword exactly for a length outside 15 to 128, else UserExists exactly when a user has the e-mail, else success |
| `Operations.ProvisionRows` | internal/modules/auth/postgres_repository.go:33-77 | a refusal changes no table; a success adds one active user with the e-mail and a hash of the password, and where missing the role, the permission and their two assignments, and touches no other row |
| `Protocol.CheckExactly` | internal/modules/auth/service.go:55-91 | credentials are accepted exactly when the users table has an active user with that e-mail and password and fewer than five failures of the key count; the login gets exactly the roles and permissions of the directory, the key's attempts are cleared, and nothing else changes |
| `Protocol.CheckIsAttempt` | internal/modules/auth/service.go:63-88 | a check does to the attempts exactly what the limiter's login does, and answers by its outcome |
| `Protocol.ProvisionedAdminLogsIn` | internal/modules/auth/service.go:148-161 | a provisioned administrator is accepted with exactly the passwords of the same derived key, and gets role internal_admin and errors:read |
| `Sessions.RefreshIsRotation` | internal/modules/auth/service.go:93-115 | a refresh succeeds exactly when its atomic rotation does, with that rotation's rows |
| `Sessions.StepInv` | internal/modules/auth/service.go:55-128 | every call keeps the table invariant and keeps each family in step with the access tokens issued for it |
| `Sessions.RunInv` | internal/modules/auth/service.go:55-128 | the same over whole runs |
| `SessionGuarantees.FamiliesOfEveryRun` | internal/modules/auth/service.go:93-115 | in every reachable state each family has exactly one unused token and at most one live one, one user, and one row for its login plus one for each successful refresh |
| `SessionGuarantees.UsedTokenReportsReuse` | internal/modules/auth/postgres_repository.go:175-183 | in every reachable state a refresh with a used token reports reuse and leaves the family revoked |
| `SessionGuarantees.LogoutRevokesFamily` | internal/modules/auth/service.go:117-128 | a completed logout leaves the token's family revoked |
| `SessionGuarantees.RevokedForever` | internal/modules/auth/postgres_repository.go:175-215 | after a revocation, in any continuation, the family's rows stay as they are, no token and no access token is added, and no refresh with any of its tokens succeeds |
| `SessionGuarantees.RefreshExactly` | internal/modules/auth/service.go:93-115 | a refresh succeeds exactly when its token is unused and unrevoked, the family's last login or refresh is less than the refresh lifetime ago, the user is active and the new token is new |
| `SessionGuarantees.StaysRefreshable` | internal/modules/auth/service.go:176-181 | a family that is not revoked has one token that can be refreshed until the refresh lifetime after the last login or refresh |
| `SessionGuarantees.IdleFamilyDead` | internal/modules/auth/postgres_repository.go:184-195 | a family whose tokens are not presented for the refresh lifetime after its last login or refresh never grows again and never gets another access token |
| `Authorization.RunTraced` | internal/modules/auth/service.go:72-114 | over every run, each issued access token is for a user whom a login or refresh read as active from the tables at the issue time |
| `Authorization.PermissionTraced` | internal/modules/auth/middleware.go:39-48 | a request served behind a permission carries a token issued less than an access lifetime ago (and, times being cut to seconds, less than a second ahead at most) for a user whom that login or refresh read as holding the permission through a role |
| `Authorization.RoleTraced` | internal/modules/auth/middleware.go:54-63 | the same for roles |
| `Authorization.RevokedAccessEnds` | internal/modules/auth/service.go:187-193 | after a family is revoked at time T, no access token of its login or refreshes admits a request from T plus the access lifetime on, in any continuation |
| `ReplaceLiteral.Replace` | scripts/template-update.sh:317-322 | the loop, whenever it ends, leaves its unique final text, free of the source |
| `ReplaceLiteral.SeparatedExactly` | scripts/template-update.sh:317-322 | the separation condition says exactly that no occurrence of the source can touch an inserted target in any context |
| `ReplaceLiteral.LoopIsSinglePass` | scripts/template-update.sh:317-322 | for separated paths the loop ends and equals one left-to-right pass, which leaves no occurrence |
| `ReplaceLiteral.PassExchanges` | scripts/template-update.sh:317-322 | the pass puts the target between the pieces into which the leftmost occurrences cut the text, and leaves the pieces as they are |
| `ReplaceLiteral.CutInto` | scripts/template-update.sh:317-322 | every text falls into such pieces |
| `ReplaceLiteral.TurnExactly` | scripts/template-update.sh:319-320 | one turn exchanges the leftmost occurrence |
| `ReplaceLiteral.CopyExchanges` | scripts/template-update.sh:335-348 | what counts as a partly rewritten copy: the same pieces, with the target behind the marked ones and the source behind the others |
| `ReplaceLiteral.CopiesAgree` | scripts/template-update.sh:310-348 | a text and any partly or wholly rewritten copy of it come to the same text |
| `ReplaceLiteral.NormalizeForComparison` | scripts/template-update.sh:310-327 | the comparison copy of a Go file is the loop's final text, line by line |
| `ReplaceLiteral.AlreadyApplied` | scripts/template-update.sh:335-348 | a file with any of the template's module paths rewritten counts as already applied, and exactly the files with equal passes do |
| `RewriteTermination.ContainingDiverges` | scripts/template-update.sh:316-325 | when the target contains the source the loop ends exactly on texts without an occurrence |
| `RewriteTermination.EqualPathsDiverge` | scripts/template-update.sh:316-325 | so it does for equal paths, which the comparison copy does not exclude |
| `RewriteTermination.NoLongerHaltsExactly` | scripts/template-update.sh:379-385 | for a target no longer than the source the loop ends on every text exactly when the two differ |
| `RewriteTermination.BorderDiverges` | scripts/template-update.sh:379-385 | a longer target that merely shares a border with the source can keep the loop from ending |
| `FieldPattern.MatchAtExact` | internal/platform/template/manifest.go:85-87 | the scanner finds exactly the matches that the regular expression describes |
| `FieldPattern.FirstExact` | internal/platform/template/manifest.go:87 | the search finds the leftmost match |
| `FieldPattern.OnceMoves` | internal/platform/template/manifest.go:85-91 | editing one quoted string, of any number of lines, leaves every field found once whose name does not start at one of its quotes |
| `FieldPattern.OnceMovedBack` | internal/platform/template/manifest.go:85-91 | a field found once after the edit was found once before it, if no match of it had its name at a quote of the edited string |
| `Manifest.File.RecordProvenance` | internal/platform/template/manifest.go:58-83 | the file is replaced by the edited contents on success and left untouched on every error |
| `Manifest.ValidVersionExactly` | internal/platform/template/manifest.go:58-61 | a version is three groups of digits with two dots between them, and nothing else |
| `Manifest.RefusedExactly` | internal/platform/template/manifest.go:58-91 | why a recording is refused, in order: version, 40-digit lower-case hexadecimal commit, version field not exactly once, commit field not exactly once |
| `ManifestGuarantees.BothFields` | internal/platform/template/manifest.go:71-91 | two fields edited one after the other read back their new values and change no other byte |
| `ManifestGuarantees.RecordedExactly` | internal/platform/template/manifest.go:58-91 | with each field found once, old values of any number of lines, a recording changes exactly the two values and reads back exactly when neither field's name starts at a quote of the other's value; then the order of the edits does not matter |
| `ManifestGuarantees.LastRecordingWins` | internal/platform/template/manifest.go:58-91 | a second recording leaves what it would have left had it been the only one |
| `ManifestGuarantees.SucceedsExactly` | internal/platform/template/manifest.go:58-91 | unless a commit field's name starts at a quote of the old version, a recording succeeds exactly when version and commit are well formed and each field is found exactly once |
| `ManifestGuarantees.OverlappingFails` | internal/platform/template/manifest.go:85-91 | a text, not JSON, with each field found once that no recording edits well: the commit field's value is the version field's name |
| `ManifestGuarantees.SpanningFails` | internal/platform/template/manifest.go:85-91 | another: the version's value goes over a line break up to the commit field's name |
| `ResponseWriter.Writer.WriteHeader` | internal/platform/httpserver/httpserver.go:108-115 | each wrapper of a stack passes on and remembers the first header only |
| `ResponseWriter.Writer.Write` | internal/platform/httpserver/httpserver.go:117-122 | a body sends status 200 first when no header was sent, through every wrapper |
| `RequestChain.Serve` | internal/platform/httpserver/httpserver.go:124-194 | logger, error store and recovery around one handler run, flushes through Unwrap included, ended normally or by a panic, come to the specified statuses and persisted events |
| `RequestChain.StatusesAgree` | internal/platform/httpserver/httpserver.go:102-194 | for any status codes and flushes: both wrappers report the same status, the connection gets at most one header, and the status is the client's exactly when the first action settled it so or the code was 0, and no flush came before another status than 200; the client gets all body bytes unless the status has no body |
| `RequestChain.StoredExactly` | internal/platform/httpserver/httpserver.go:124-178 | an error is stored exactly when the client gets a server error, if and only if the first code is not above 999 and no flush came before a first code of 500 or more; a server error that the client gets is always stored, as that status |
| `RequestChain.FailureAfterFlushIsStored` | internal/platform/httpserver/httpserver.go:124-126 | a flush followed by status 500: the client gets 200, 500 is reported and stored |
| `RequestChain.OutOfRangeIsStored` | internal/platform/httpserver/httpserver.go:108-133 | a handler that sets status 1000: the client gets 200 and an error is stored |
| `RequestChain.FailureAfterHintsIsLost` | internal/platform/httpserver/httpserver.go:108-133 | early hints followed by a failure status: the client gets 200, 103 is reported, nothing is stored |
| `RequestChain.PanicReads500` | internal/platform/httpserver/httpserver.go:180-194 | a panic reaches the client as 500 exactly when no other response had been started or flushed |

## Left out

- `RefreshTokens.Rotate` and the other timed operations: do not model the microsecond truncation of `timestamptz`; times are whole nanoseconds throughout.
- `Directory.Query`: does not model the order in which `array_agg(DISTINCT ...)` lists roles and permissions; the results are stated as duplicate-free sets.
- `Sessions.Legal`: assumes that operators do not delete a user who has tokens (the `ON DELETE CASCADE` of the schema is not modelled) and that a login draws a family id that no stored token has.
- `Sessions.CheckStep`: takes the limit check, the lookup and the recording of a failure as one step; their interleaving is the subject of `ConcurrentLogin`.
- `SessionGuarantees.RevokedForever`: speaks of logouts taken as one step; what is left of it when a logout races with a rotation is stated by `LogoutRaces.LogoutRevokesExactly`.
- `ConcurrentRotation.Serializable`: gives a logout its place in the serial order as the revocation of the rows it had read; that is the atomic logout exactly under the condition of `LogoutRaces.LogoutRevokesExactly`.
- `PasswordHash.VerifyPassword`: does not model the panic of the Argon2 library for a parallelism that is 0 modulo 256, nor invalid UTF-8; passwords are sequences of code points.
- `Protocol.ValidEmail`: counts characters where the code counts bytes.
- `AccessTokens.Parse`: takes the compact serialisation, its signature check and the claim decoding as parameters; the token library's clock is the given time.
- `Authorization.PermissionTraced`: assumes of signatures that accepted text carries the claims of an issued token.
- `RewriteTermination.NoLongerHaltsExactly`: gives no exact condition for targets longer than the source that overlap it without containing it; separated and containing targets are decided, the rest is not.
- `ReplaceLiteral.NormalizeForComparison`: models Go files only; the whitespace rules for YAML and other files are `sed` scripts.
- `Manifest.File.RecordProvenance`: does not model a write that fails halfway, and takes file contents as characters, one per byte.
- `ManifestGuarantees.SucceedsExactly`: does not decide texts in which a commit field's name starts at a quote of the old version, because the value is that name or ends at it after a line break; such texts are not JSON.
- `ManifestGuarantees.BothFields`: is stated for values without `$`, which the replacement template would expand; versions and commits have none.
- `RequestChain.Serve`: does not model failures of the store or of the connection, header maps, HEAD requests, the log text, or handlers that unwrap the writer by hand or hijack the connection (flushes through a response controller are modelled); the server's own writer is modelled from the documented behaviour of `net/http`.
- Database and randomness failures other than constraint violations and an aborted transaction.
- Configuration, cookies, JSON encoding, CORS, security headers, routing, health and example modules, the error store's own queries, migrations, and the git, jq and sed parts of the scripts.
