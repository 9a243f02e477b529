# go-with-me: verification model

A Dafny model of the authentication service of go-with-me and of its small concurrent protocols, with machine-checked
proofs. `dafny verify dfyconfig.toml` checks everything.

The model has two layers. The classes (`UserRepository`, `PasswordResetRepository`, `AuthService`, `UserService`,
`Limiter`, `Database`) and the builder methods follow the Go methods read by read and row write by row write, and are
proved equal to specification functions (`AuthSpec`, `RateLimit.Count`, the meaning of a query in `QueryBuilder`).
The theorems are about those functions over every run. Protocols whose point is overlap (OTP consumption, rate limiting,
the job worker, the lockout, the last-super-admin guard) are transition systems with one step per database or channel
operation. Reads that go through `r.read()` may there see any earlier version of the table, when a replica lags.

The functions of AuthSpec are not taken on trust: `Calls` states, for every call, the answer and every column of every row
afterwards in terms of raw columns, library functions and literal durations, and proves it of them. Its assumptions about
tables (unique e-mails) hold in every reachable state (`Histories.RunsAreConsistent`).

Repository methods of one statement (FindByID, UpdatePassword, LockUntil, ClearLock, SetTotp, Deactivate, CountSuperAdmins,
Consume, DeleteExpired) and AuthService.VerifyTotp have contracts that say no more than the statement or the specification
function; they serve the proofs of their callers and have no row below.

| file | content |
|---|---|
| AuthTypes.dfy, Tokens.dfy, Numbers.dfy | rows, claims, configuration; issuing and accepting JWTs; minimum and maximum |
| AuthSpec.dfy | what each service call does to the tables and answers |
| Repositories.dfy, Services.dfy | the calls as sequences of statements, proved equal to AuthSpec |
| Histories.dfy | runs of calls on one clock, and what every step keeps |
| Calls.dfy | what each call does and answers, column by column: a second description, proved to agree with AuthSpec |
| Lockout.dfy, Provenance.dfy, ResetLog.dfy, SuperAdmins.dfy, Cleanup.dfy | the theorems about runs |
| LockoutRace.dfy, LockoutCrowd.dfy, ResetProtocol.dfy, RateLimit.dfy, Worker.dfy | overlapping requests and goroutines |
| RoundRobin.dfy, Pagination.dfy, QueryBuilder.dfy | replica selection, page arithmetic, placeholder queries |

## What the model assumes

- bcrypt, SHA-256, HMAC, TOTP, `strings.TrimSpace` and `strings.ToLower` are arbitrary functions (`AuthTypes.Library`);
  every theorem holds for all of them. Random values (OTPs, salts, generated ids) are arguments of the calls.
- A run (`Histories.IsRun`) is a sequence of calls on one clock that never goes back, from empty tables. A presented token
  whose HMAC verifies was issued earlier in the run. One call is one step, reads see the latest write, and the writes whose
  errors the code drops succeed; only where a module says so are statements separate steps or reads stale.
- Times are integers in microseconds. `jwt.NewNumericDate` keeps whole seconds, and a token is accepted strictly before
  its `exp` (section 4.1.4 of RFC 7519).
- `failed_attempts` is a 32-bit column: its increment fails at 2^31-1, and the code ignores that error.
- Errors are compared by their code, not by their text. (The text of a refused OTP can depend on whether the cleanup ran.)

## Where the code and its documentation differ

- docs/api-reference.md shows an invited user finishing enrolment with a session. No statement ever sets `is_active` back
  to true (`ClearLock` does not, although the comment at internal/services/auth_service.go:347 says it activates), so no
  invited account ever gets a session (`Provenance.InvitedAccountsGetNoSession`): accepting the invite works, and
  enrolling with the setup token it gives is refused (`Provenance.InviteFlowStopsAtEnrolment`).
- The rate limiter is called a sliding window. A window-long interval can hold 2·max − 1 allowed requests, and no more;
  the sliding-window promise holds exactly for max ≤ 1: `RateLimit.SlidesIffMaxAtMostOne`.
- The lockout holds exactly when MAX_FAILED_ATTEMPTS fits the 32-bit column (`Lockout.LockoutHoldsIffLimitFits`) and,
  statement by statement, when also the account's Logins do not overlap and their reads are fresh: the row read always,
  the read-back unless MAX_FAILED_ATTEMPTS is zero or less (`LockoutCrowd.LockoutHoldsIffSerialAndEffective`). With c
  Logins in flight on such reads, a closed interval that fits k lock periods holds up to max(limit + c - 1, c(c + 1)/2) +
  k·c(c + 1)/2 wrong comparisons, and no more (`LockoutRace.CrowdBound`, `LockoutCrowd.CrowdBoundIsReached`): LockUntil
  is unconditional, so a lock written late shortens a newer one (`LockoutCrowd.LateLockShortens`). On other reads there
  is no bound at all (`LockoutCrowd.BoundedIffEffective`).
- The last-super-admin guard holds exactly when removals do not overlap and both its reads, the row and the count, are
  fresh; each of the two reads alone breaks it when a replica lags: `SuperAdmins.GuardHoldsIffSerialAndFresh`.
- Round robin stays within one pick for ever exactly when the number of replicas divides 2^64
  (`RoundRobin.WithinOneIffDividing`); otherwise, for every w > 0, w wraps of the counter can cost w more, and no more
  (`RoundRobin.WrapsAreUnfair`, `RoundRobin.RoundRobinIsFair`).
- Pages past the last are not always empty, because `Params.Offset` wraps. Such a page is empty exactly when
  (page - 1)·size mod 2^64 lies from the number of rows to 2^63 - 1; above that the database refuses the query, below it rows
  show again: `Pagination.LaterPagesEmptyIff`. Of size 64, page 2^57 + 1 is refused and page 2^58 + 1 is the first page.
  Only for pages of one row are all later pages empty: `Pagination.AllLaterPagesEmptyIffSizeOne`.

## Model

| member | source | states |
|---|---|---|
| Tokens.IssuedTokenLifetime | internal/auth/token.go:43-62 | a purpose token parses back to its claims exactly before its truncated expiry, and not with another HMAC |
| Repositories.UserRepository.Create | internal/repository/implementation/user.go:30-44 | inserts the normalised row with the column defaults exactly when key and e-mail are unused and the role is in the enum |
| Repositories.UserRepository.FindByEmail | internal/repository/implementation/user.go:62-76 | the one account with the normalised e-mail, if any |
| Repositories.UserRepository.Update | internal/repository/implementation/user.go:133-174 | changes name and role where given and updated_at, nothing else; nothing given is a read; a role outside the enum is refused |
| Repositories.UserRepository.IncrFailedAttempts | internal/repository/implementation/user.go:188-192 | adds one failure unless the 32-bit column is full |
| Repositories.PasswordResetRepository.Create | internal/repository/implementation/password_reset.go:27-38 | leaves the new record as the user's only one; a failing INSERT leaves none |
| Repositories.PasswordResetRepository.FindByUserID | internal/repository/implementation/password_reset.go:40-57 | the user's latest unused record |
| Services.AuthService.Login | internal/services/auth_service.go:84-133 | tables and answer are those of AuthSpec.LoginSpec: order of checks, counting, locking, MFA or setup token |
| Services.AuthService.ConfirmTotp | internal/services/auth_service.go:181-209 | tables and answer of ConfirmTotpSpec: the secret is stored only after a valid code |
| Services.AuthService.ForgotPassword | internal/services/auth_service.go:213-241 | tables and answer of ForgotPasswordSpec: silent for unknown or inactive accounts, else one fresh record |
| Services.AuthService.VerifyResetEmail | internal/services/auth_service.go:244-279 | tables and answer of VerifyResetEmailSpec: a token only for a live record with the OTP's hash, which is consumed |
| Services.AuthService.CompletePasswordReset | internal/services/auth_service.go:283-310 | tables and answer of CompletePasswordResetSpec |
| Services.AuthService.AcceptInvite | internal/services/auth_service.go:314-359 | tables and answer of AcceptInviteSpec: only inactive accounts, name and hash set, lock cleared, still inactive |
| Services.AuthService.WriteInvitee | internal/services/auth_service.go:337-350 | the three row writes together set name, hash and lock, and nothing else |
| Services.AuthService.EnsureBootstrapAdmin | internal/services/auth_service.go:396-429 | tables and answer of EnsureBootstrapAdminSpec |
| Services.UserService.Update | internal/services/user_service.go:51-69 | users and answer of UpdateUserSpec with the last-super-admin guard |
| Services.UserService.Invite | internal/services/user_service.go:73-131 | users and answer of InviteSpec: an inactive account and its invite token, never a super admin |
| Services.UserService.Deactivate | internal/services/user_service.go:134-151 | users and answer of DeactivateSpec with the last-super-admin guard |
| Histories.StepAccounts | internal/repository/implementation/user.go:30-44 | only bootstrap and invite add an account, one each, under an unused key and e-mail; nothing removes one |
| Histories.StepKeepsEmailsUnique | migrations/002_users.sql:4 | every call keeps e-mails unique |
| Histories.StepKeepsOneReset | internal/repository/implementation/password_reset.go:27-38 | every call keeps at most one reset record per user |
| Histories.StepKeepsTotpConsistent | internal/repository/implementation/user.go:206-210 | every call keeps TOTP enabled exactly where a secret is stored |
| Histories.StepKeepsRolesInEnum | migrations/001_enums.sql:2 | every call keeps roles inside the enum |
| Histories.StepEvolves | internal/services/auth_service.go:84-429 | no call reactivates an account, changes its e-mail or un-enrols it |
| Histories.RunsAreConsistent | internal/repository/implementation/user.go:206-210 | in every reachable state e-mails are unique, users have one reset record at most, TOTP is enabled iff a secret is stored, roles are in the enum |
| Histories.AccountsEvolve | internal/repository/implementation/user.go:212-222 | between any two entries of a run accounts persist, stay inactive once inactive, stay enrolled once enrolled |
| Histories.IssuedTokensVerify | internal/auth/token.go:65-113 | every token issued in a run verifies, names its subject, an existing account, and carries that entry's clock |
| Calls.LoginOfAccount | internal/services/auth_service.go:84-133 | Login with an account's e-mail compares with that account's hash: a token for it if and only if the password matches, counter and lock cleared or the failure counted, nothing else touched |
| Calls.LoginOfNobody | internal/services/auth_service.go:85-91 | with no such account the answer is Unauthorized and the tables stay |
| Calls.VerifyTotpAnswers | internal/services/auth_service.go:136-154 | a session of the token's account with its e-mail, role and permissions exactly for an accepted MFA token and a valid code |
| Calls.ConfirmTotpAnswers | internal/services/auth_service.go:181-209 | the secret offered is stored and a session opened exactly for an accepted setup token, an active account and a valid code |
| Calls.ForgotPasswordOfAccount | internal/services/auth_service.go:213-241 | an active account's records are replaced by one with the OTP's hash and lifetime; an inactive one changes nothing |
| Calls.ForgotPasswordOfNobody | internal/services/auth_service.go:214-218 | an unknown address gets the same answer and changes nothing |
| Calls.VerifyResetOfAccount | internal/services/auth_service.go:244-279 | a reset token, and the record used, exactly when six bytes with the newest unused record's hash come in time |
| Calls.VerifyResetOfNobody | internal/services/auth_service.go:252-260 | without account or unused record the call is refused |
| Calls.CompletePasswordResetAnswers | internal/services/auth_service.go:283-310 | the hash of the new password is stored exactly for an accepted reset token, a valid code if enrolled, ten bytes and hashing |
| Calls.DeleteExpiredCleans | internal/repository/implementation/password_reset.go:83-90 | a record stays if and only if it has not expired, by the model's own test; the rest is untouched |
| Calls.InviteAnswers | internal/services/user_service.go:73-131 | succeeds exactly for an invitable role and a new address, and stores address, name and role as asked, inactive |
| Calls.AcceptInviteAnswers | internal/services/auth_service.go:314-359 | name and hash are stored, the lock cleared and a setup token given exactly for an accepted invite token, ten bytes, an inactive account and hashing |
| Calls.BootstrapAnswers | internal/services/auth_service.go:398-429 | the configured super admin is inserted exactly when configured, none is active and the row fits |
| Calls.UpdateUserAnswers | internal/services/user_service.go:51-69 | name and role are stored where given, and the answer is the row afterwards; refused exactly for the last super admin, a missing account or a role outside the enum |
| Calls.DeactivateAnswers | internal/services/user_service.go:134-151 | is_active goes false, refused exactly for the last super admin or a missing account |
| Calls.AuthorizeAnswers | internal/api/middleware/auth.go:37-80 | admits exactly an accepted token of the purpose, a session only with a role, and hands on its claims |
| Calls.IssuedTokensAreAdmitted | internal/api/middleware/auth.go:50-80 | every token a run issues is admitted where its purpose is wanted until it expires, and nowhere else |
| Lockout.OnlyLoginMovesTheLock | internal/services/auth_service.go:93-111 | for an account that stays active, nothing but a password comparison touches counter or lock |
| Lockout.StaysGuarded | internal/services/auth_service.go:93-111 | the run invariant: failures since the last right password are counted, and each one past the limit cost a lock period |
| Lockout.LockoutRateBound | internal/services/auth_service.go:93-111 | any stretch within an interval T without a right password has at most limit + T / 30 min wrong comparisons |
| Lockout.LockoutRateBoundIsReached | internal/services/auth_service.go:100-108 | for every limit that fits the column and every k a run reaches that bound |
| Lockout.LimitPastColumnNeverLocks | internal/repository/implementation/user.go:188-192 | with a larger limit any number of wrong comparisons fits in one instant |
| Lockout.LockoutHoldsIffLimitFits | internal/services/auth_service.go:100-108 | the bound holds of all runs if and only if the limit is at most 2^31-1 |
| LockoutRace.AttemptCompares | internal/services/auth_service.go:85-96 | a request whose row read shows no lock can compare |
| LockoutRace.AttemptCounts | internal/services/auth_service.go:96-103 | and then count and read back: it goes on to lock exactly when the version it reads has reached the limit |
| LockoutRace.AloneItIsTheCall | internal/services/auth_service.go:96-108 | on fresh reads these steps and the lock's write do what the call does to counter and lock |
| LockoutRace.RoomShrinks | internal/services/auth_service.go:96-108 | within a lock period each comparison uses up room, and no step makes any, though a late lock opens places |
| LockoutRace.FirstLockIsBehind | internal/services/auth_service.go:100-103 | when the first lock is written, the comparisons made and still to come in its period are within the bound |
| LockoutRace.LoginsStayCrowded | internal/services/auth_service.go:93-108 | the invariant of all interleavings: counted failures, due locks, and comparisons plus room within the bound |
| LockoutRace.CrowdBound | internal/services/auth_service.go:93-108 | with c logins in flight, any interval fitting k lock periods holds at most max(limit + c - 1, c(c+1)/2) + k c(c+1)/2 wrong comparisons |
| LockoutCrowd.CrowdBoundIsReached | internal/services/auth_service.go:93-108 | for every c and k a run reaches that number |
| LockoutCrowd.LateLockShortens | internal/repository/implementation/user.go:194-198 | a lock written late replaces a newer one that would have lasted longer |
| LockoutCrowd.StaleRowsNeverRefuse | internal/repository/implementation/user.go:62-76 | one login at a time: with the lock check on a lagging replica any number of comparisons fits in one instant |
| LockoutCrowd.StaleCountsNeverLock | internal/services/auth_service.go:98-99 | and so it is with a read-back that misses the failures, unless the limit is zero or less |
| LockoutCrowd.BoundedIffEffective | internal/services/auth_service.go:93-108 | for every number of logins in flight and every span there is a bound if and only if the reads that matter are fresh and the limit fits the column |
| LockoutCrowd.LockoutHoldsIffSerialAndEffective | internal/services/auth_service.go:93-108 | the bound of the atomic calls can be exceeded if and only if logins may overlap, a read that matters may be stale, or the limit overflows the column |
| Provenance.TokensAreNotInterchangeable | internal/auth/token.go:11-20 | a token of another purpose, expired or forged, gets only an error from every call and changes nothing |
| Provenance.SessionsNeedACode | internal/services/auth_service.go:136-209 | a session comes with a code valid for the secret stored after that entry, for an active user, with the current role |
| Provenance.MfaTokensComeFromLogins | internal/services/auth_service.go:113-121 | an MFA token comes from a login with the right password and expires with its TTL |
| Provenance.SetupTokensComeFromLoginsOrInvites | internal/services/auth_service.go:123-132 | a setup token comes from such a login, or from accepting an invite to an inactive account |
| Provenance.SessionProvenance | internal/services/auth_service.go:84-209 | every session rests on an earlier login of the same user with the right password within the intermediate token's life |
| Provenance.InvitedAccountsGetNoSession | internal/services/auth_service.go:314-359 | an account created by an invite never gets a session |
| Provenance.InviteFlowStopsAtEnrolment | internal/services/auth_service.go:181-190 | an invite accepted in time with a usable password yields a good setup token, and enrolling with it is refused |
| Provenance.DeactivationIsFinal | internal/repository/implementation/user.go:212-222 | after deactivation an account stays inactive and gets no session |
| Provenance.AdmittedSessionsAreRecent | internal/api/middleware/auth.go:37-80 | an admitted session belongs to a user who held its role and permissions and was active less than JWTExpiryHours before |
| Provenance.LoginThenCodeYieldsSession | internal/services/auth_service.go:110-209 | the token of a successful login buys a session exactly with a valid code in time |
| Provenance.StoredSecretStep | internal/services/auth_service.go:195-208 | the stored secret changes only in a successful ConfirmTOTP, to the secret it was given |
| Provenance.StoredSecretIsLastEnrolled | internal/services/auth_service.go:195-208 | the stored secret is the one of the last successful enrolment in the log, and enabled says whether there was one |
| Provenance.LoginAsksForCodeIffEnrolled | internal/services/auth_service.go:113-132 | a successful login asks for a code iff the last enrolment stored a non-empty secret, else for enrolment |
| ResetLog.Outstanding | internal/services/auth_service.go:223-236 | an outstanding OTP was sent by a named earlier request to that active user, with its hash and expiry |
| ResetLog.TableStoresOutstanding | internal/repository/implementation/password_reset.go:27-90 | the table holds exactly the outstanding OTP of the log, unless expired and swept |
| ResetLog.VerifySucceedsIffOutstanding | internal/services/auth_service.go:244-279 | a verification succeeds iff it answers the outstanding OTP of the log in time, whatever cleanups ran |
| ResetLog.HashesChangeInTwoCalls | internal/services/auth_service.go:281-345 | a password hash changes only in a reset with an accepted token and code, or in accepting an invite while inactive |
| ResetLog.ResetTokensComeFromVerifications | internal/services/auth_service.go:270-278 | a reset token comes from a successful verification for its subject and expires with its TTL |
| ResetLog.PasswordChangeProvenance | internal/services/auth_service.go:213-310 | an active user's password changes only after an OTP sent less than OTP TTL + token TTL ago, answered while outstanding, and with a valid code if enrolled |
| ResetLog.ResetFlowStoresPassword | internal/services/auth_service.go:213-310 | the flow done in time stores the new hash iff code, length and hashing allow it, and changes nothing else about users |
| Cleanup.SamePendingUnlessExpired | internal/models/password_reset.go:21-23 | with and without the sweep, the pending record is the same or has expired |
| Cleanup.OtherCallsIgnoreResets | internal/services/auth_service.go:84-209 | calls outside the reset flow do not depend on reset records |
| Cleanup.CleanupIsUnobservable | internal/repository/implementation/password_reset.go:83-90 | cleanups inserted anywhere leave every caller's answers the same, tokens included |
| SuperAdmins.OtherCallsKeepSuperAdmins | internal/services/auth_service.go:84-429 | only deactivation and a change to another role can take an active super admin away |
| SuperAdmins.StepKeepsASuperAdmin | internal/services/user_service.go:57-68 | no call takes the last one away |
| SuperAdmins.ASuperAdminAlwaysRemains | internal/services/user_service.go:140-150 | once there is an active super admin, there is one after every later call |
| SuperAdmins.BootstrapCreatesOnce | internal/services/auth_service.go:401-419 | at most one account is ever bootstrapped |
| SuperAdmins.StatementsAreTheCall | internal/services/user_service.go:51-69 | row read, count and UPDATE back to back on the current table are the call |
| SuperAdmins.TracesStaySafe | internal/services/user_service.go:134-151 | with one removal in flight and fresh reads, somebody is an active super admin throughout, and somebody other than the target once the guard has passed |
| SuperAdmins.OverlapLosesAll | internal/services/user_service.go:140-150 | two overlapping removals can leave none |
| SuperAdmins.StaleCountLosesAll | internal/repository/implementation/user.go:224-231 | one removal at a time: a count on a lagging replica can leave none |
| SuperAdmins.StaleRowLosesAll | internal/repository/implementation/user.go:46-60 | one removal at a time: a row read before the target's promotion skips the count and can leave none |
| SuperAdmins.GuardHoldsIffSerialAndFresh | internal/services/user_service.go:57-68 | all can be lost if and only if two removals may be in flight, or one whose row or count may be stale |
| ResetProtocol.InvHolds | internal/repository/implementation/password_reset.go:71-81 | under every schedule and lag, a record is claimed by one request at most, and a claimed one cannot be consumed again |
| ResetProtocol.OneTokenPerRecord | internal/services/auth_service.go:270-278 | two requests never both get a token from one record |
| ResetProtocol.TokensAnswerRecords | internal/services/auth_service.go:256-268 | a token stands for a record of its user with the OTP's hash that had not expired when checked |
| ResetProtocol.TokensNeverExceedRecords | internal/services/auth_service.go:256-278 | a user gets at most as many reset tokens as records were created |
| ResetProtocol.AloneItIsTheCall | internal/services/auth_service.go:256-278 | the steps run back to back on the current table are the atomic call; without a pending record no step is possible and the call is refused |
| ResetProtocol.RequestAloneIsTheCall | internal/repository/implementation/password_reset.go:27-38 | DELETE and INSERT back to back are the atomic request |
| ResetProtocol.SweepIsTheCall | internal/repository/implementation/password_reset.go:83-90 | the sweep is the cleanup of the calls |
| RateLimit.OneMoreHit | internal/api/middleware/rate_limit.go:50-57 | a hit after the window's end starts a window at one, any other adds one |
| RateLimit.Limiter.Check | internal/api/middleware/rate_limit.go:49-64 | answer and stored counter are those computed from the whole history of hits; remaining is clamped at zero |
| RateLimit.WindowShape | internal/api/middleware/rate_limit.go:54-57 | the counted hits are the last Count ones, all within one window length |
| RateLimit.RefusalMeansAFullWindow | internal/api/middleware/rate_limit.go:59-63 | a refusal at t means max earlier hits in (t - window, t] |
| RateLimit.SerialRequestsAreTheLimiter | internal/api/middleware/rate_limit.go:49-64 | with each EXPIRE right behind its INCR, the steps give every request the count of the limiter |
| RateLimit.StepKeepsInv | internal/api/middleware/rate_limit.go:50-57 | each lifetime of the key counts 1, 2, ..., has one EXPIRE outstanding at most, and lasts at least a window |
| RateLimit.SpacedHitsAreFew | internal/api/middleware/rate_limit.go:50-63 | at most two lifetimes reach into a window-long interval, the older one begun before it |
| RateLimit.WindowBound | internal/api/middleware/rate_limit.go:49-64 | any interleaving, EXPIREs late or lost: at most 2 max - 1 allowed hits in any window-long interval |
| RateLimit.WindowBoundIsReached | internal/api/middleware/rate_limit.go:49-64 | a run reaches that number |
| RateLimit.SlidesIffMaxAtMostOne | internal/api/middleware/rate_limit.go:14-18 | more than max in a window-long interval is possible if and only if max > 1 |
| Worker.InvHolds | internal/jobs/worker.go:45-78 | WaitGroup counter, channel, closer and log agree with the goroutines in every reachable state |
| Worker.NoGoroutineBlocks | internal/jobs/worker.go:45-64 | every started goroutine always has a next step: room and an open channel to send on, a positive counter to decrement |
| Worker.NothingHappensToAClosedChannel | internal/jobs/worker.go:66-70 | after close there is no send and no second close |
| Worker.OnlyFinishedIsStuck | internal/jobs/worker.go:45-78 | only a system whose Run returned and whose goroutines are gone has no next step |
| Worker.SchedulesAreShort | internal/jobs/worker.go:45-78 | at most 4n + 3 steps happen, also after an early return |
| Worker.RunReturnsFirstError | internal/jobs/worker.go:72-78 | nil only when every job returned nil or Canceled, else the first error sent, which is some job's |
| Worker.NilIffNoFailure | internal/jobs/worker.go:48-78 | run to the end, nil if and only if no job failed |
| Worker.WithoutJobsRunReturnsContextError | internal/jobs/worker.go:37-41 | without jobs Run does nothing but wait for the context and return its error |
| RoundRobin.Database.Read | internal/bootstrap/database.go:22-28 | call c gets replica c mod n, the index is in range, the counter advances modulo 2^64; no replicas gives the write pool |
| RoundRobin.RoundRobinIsFair | internal/bootstrap/database.go:26-27 | pick counts of two replicas differ by at most one plus the number of counter wraps |
| RoundRobin.WrapsAreUnfair | internal/bootstrap/database.go:26-27 | when n does not divide 2^64, for every w > 0 some stretch of calls with w wraps has pick counts w + 1 apart |
| RoundRobin.WithinOneIffDividing | internal/bootstrap/database.go:26-27 | counts stay within one for ever if and only if n divides 2^64 |
| Pagination.ParseParams | internal/lib/pagination.go:36-48 | valid values are kept, others replaced by page 1 and size 20 |
| Pagination.TotalPages | internal/lib/pagination.go:51-55 | the least number of pages that holds all rows |
| Pagination.NewMeta | internal/lib/pagination.go:51-62 | quotient plus one for a remainder is that least number |
| Pagination.OffsetsFit | internal/lib/pagination.go:22-24 | up to the last page the offset is exact, below the total and does not overflow |
| Pagination.PagesPartition | internal/lib/pagination.go:22-24 | pages 1..TotalPages in order are the rows, each exactly once |
| Pagination.OffsetIsExact | internal/lib/pagination.go:22-24 | the offset is (page - 1) size if and only if that fits an int64 |
| Pagination.PageSizes | internal/lib/pagination.go:51-55 | pages before the last are full, the last is not empty, later ones are empty while the offset fits |
| Pagination.LaterPagesEmptyIff | internal/lib/pagination.go:22-24 | a later page is empty, refused or shows rows exactly by where (page - 1) size mod 2^64 lies |
| Pagination.AllLaterPagesEmptyIffSizeOne | internal/lib/pagination.go:22-24 | all later pages are empty if and only if the page size is one |
| Pagination.FarPagesMayRepeatTheFirst | internal/lib/pagination.go:22-24 | a far page whose offset wraps to zero shows the first page |
| Pagination.FarPagesMayBeRefused | internal/lib/pagination.go:22-24 | a far page whose offset wraps below zero is refused by the database |
| QueryBuilder.TranslationKeepsMeaning | internal/repository/implementation/user.go:78-97 | for any list of filters the built conditions under the built arguments select the rows that match them all |
| QueryBuilder.TranslationAnswers | internal/repository/implementation/user.go:99-113 | count and page agree on one snapshot with filtering and Pagination.Page directly |
| QueryBuilder.BuildUserList | internal/repository/implementation/user.go:78-113 | the user listing's statements return the wanted rows, counted and sliced; placeholders are 1..n, LIMIT n+1, OFFSET n+2 |
| QueryBuilder.BuildAuditList | internal/repository/implementation/audit.go:46-80 | the same for the audit listing |
| QueryBuilder.UsersListed | internal/repository/implementation/user.go:83-92 | an account is listed as often as stored if it has the role and text asked for, and else not |
| QueryBuilder.AuditListed | internal/repository/implementation/audit.go:51-60 | the same for audit rows by user and resource |
| QueryBuilder.ListingsPartition | internal/repository/implementation/user.go:99-113 | the statements for pages 1 to the last return each wanted row once and in order |
| QueryBuilder.BuildUserUpdate | internal/repository/implementation/user.go:133-165 | the UPDATE does to the row what UserRepository.Update is specified to do and leaves all else alone; placeholders are 1..n in order |

## Left out

- SetupTOTP, Me, Logout, List and Get of the services: they change nothing and issue no token.
- LockoutRace: follows wrong passwords against one account that stays active.
- Replica lag outside ResetProtocol, LockoutRace and SuperAdmins, and failures of the database, Redis or the notifier.
- Cleanup.CleanupIsUnobservable: asks that generated reset ids be unused, as gen_random_uuid promises; error texts are not compared.
- RateLimit.WindowBound: hits are timed by their INCR; evictions and restarts of Redis, and the fail-open path on a Redis error, are not modelled.
- RateLimit.Limiter.Check: a key counts as expired from its deadline on; the transition system allows any later moment.
- Worker: handlers that panic, and the moment they notice cancellation; a handler is a step that returns some outcome.
- PasswordResetRepository.SetToken and the token column: nothing calls or reads them.
- Token text, JSON, JWT headers and key strength; a token is its claims and an HMAC value.
- The text of SQL statements and ILIKE patterns: conditions are columns with placeholder numbers, ILIKE an arbitrary predicate, ORDER BY a given order.
- Durations that overflow a Go time.Duration.
- Role and permission middleware, handlers and their input validation, audit recording, the scheduler, events, configuration, logging and start-up.
