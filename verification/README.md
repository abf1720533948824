# Verified model of the job queue, rate limiter, sessions, paths and storage

Five components of the web application template are modelled and proved correct here: the leased job
queue of the background worker, the token-bucket rate limiter together with the job that cleans up its
rows, the session cookie, request-path normalization, and the traversals of the file storage.

`dafny verify dfyconfig.toml` checks the project.

## What is modelled

**Job queue** (`JobQueue`, `JobMachine`, `JobProperties`, `JobRefinement`, `JobProgress`). The SQL
statements are functions on the table of jobs, and methods of the class `JobTable` carry them out. Any
number of workers then share that table in a state machine whose runs are sequences of actions: the
clock moves on, jobs are enqueued, a worker reads the clock, claims a row (in one statement on SQLite; by
a locking SELECT and a committed UPDATE on PostgreSQL), its handler returns, it finalizes, and at any
point it may roll back, crash or fail to finalize. The results are about every such run.

**Rate limiter** (`TokenBucket`, `DeniedTakes`, `RateBound`, `SqliteBucket`, `SqliteDeniedTakes`,
`SqliteRateBound`, `RateLimiter`, `Cleanup`).
The PostgreSQL and SQLite upserts are functions on a bucket row; the class `Limiter` sends them for a
whole table of buckets. The PostgreSQL form computes with 4-byte integers, so a row that has lain idle for
some 2^31 intervals makes the statement fail instead of answering: the model has that third answer, and
the equivalence with an ideal bucket is proved to hold exactly for histories without such a pause. The garbage
collector silently refills the buckets it deletes; on both backends the rate bound is proved to survive it
exactly when rows are kept for the time a full refill takes.

**Timestamp text** (`Lexicographic`, `TimestampText`). SQLite compares instants as text; the calendar, the
text format and byte-wise comparison are defined and proved to agree with comparing instants.

**Session** (`Base64`, `Utf8`, `SessionCodec`, `Session`). The cookie codec with its loops, and the session
object with the cookie decision, proved to act as one map kept on the server. A map with an empty key does
not survive the codec; both directions of that are stated.

**Paths** (`PathNormalization`). The stack loop and the rebuilt URI, with normalization characterised three
ways: by its normal forms, by prefixes that climb above the root, and by cancelling segments.

**Storage** (`Storage`). The two worklist loops on a finite tree of files and directories, and how their
results fit together.

Where code and comments differ, the code is followed. The documentation of the rate limiter says that
tokens refill continuously; the code adds whole tokens only, keeping the remainder of the interval. The
`Retry-After` header drops fractions of a second, so that waiting as told is not enough for an interval of,
say, 1.5 seconds (`HeaderSufficesExactlyForWholeSeconds`). On SQLite a token may come some milliseconds early
and the next one be noticed that much later, so that even with whole seconds a caller who waits exactly as
told can be denied again (`HeaderSufficesOnlyForShortIntervals`). A single stored file can be deleted through its
path as prefix but not listed through it, and with a slash behind its name it is found by neither
(`DeletionMatchesListing`). A request in authority form cannot be normalized and is refused
(`AuthorityFormIsRefused`), with a message about escaping the root.

## Model

| member | source | states |
|---|---|---|
| JobQueue.DelayIsCappedExponential | src/worker/runner.rs:625-635 | for every number of retries, negative ones included, the retry time is now plus 2^abs(retries) seconds capped at a day, or the last instant: neither the clamp to 62 nor the overflow fallback ever shows |
| JobQueue.LastInstant | src/worker/runner.rs:632-634 | the instant at which the additions saturate is 30 December 9999, 22:00:00.999999 |
| JobQueue.JobTable.SelectNext | src/worker/runner.rs:50-59 | the row found is claimable, not locked, and no other such row precedes it by priority, run_at, created_at; each column of that order is stated, and nothing is found only if there is none |
| JobQueue.JobTable.ReserveNext | src/worker/runner.rs:466-524 | leases exactly that row to the worker and returns its retries, changing no other row and no other column |
| JobQueue.JobTable.DeleteJob | src/worker/runner.rs:82-83 | removes the row only while it carries the worker's name |
| JobQueue.JobTable.UpdateJob | src/worker/runner.rs:85-86 | counts the retry, reschedules and releases the row, only while it carries the worker's name |
| JobQueue.JobTable.MarkJobDead | src/worker/runner.rs:88-89 | counts the retry, marks the row dead and releases it, only while it carries the worker's name |
| JobQueue.JobTable.RunOnce | src/worker/runner.rs:310-436 | an undisturbed poll processes the best due row, which ends deleted, dead, or due min(2^retries, 86400) seconds after the handler returned, and touches no other |
| JobMachine.NextKeepsInv | src/worker/runner.rs:310-436 | every action of every worker keeps the invariant relating rows, open transactions, remembered claims and accounting |
| JobMachine.RunKeepsInv | src/worker/runner.rs:310-436 | so does every run |
| JobProperties.LeaseExclusion | src/worker/runner.rs:40-44 | in every reachable state a worker whose lease still runs is the one the row names, with that lease, so no two execute a job under running leases |
| JobProperties.TakeoverNeedsExpiry | src/worker/runner.rs:64-76 | a worker still executing loses its row only to a claim, and only after its lease has expired |
| JobProperties.TakenOverWorkerChangesNothing | src/worker/runner.rs:78-89 | once taken over, no later action of that worker changes any row, in any continuation, until it polls again |
| JobProperties.VisibilityTimeoutHonoured | src/worker/runner.rs:310-320 | until the timeout has passed since the clock reading a poll began with, a worker executing the job it claimed holds the row under exactly that lease, whatever others do in between |
| JobProperties.ClaimTakesTheBest | src/worker/runner.rs:50-76 | in every reachable state a claim takes a live, due, unlocked row of its queue, and no other such row is more urgent by priority, run_at, created_at; on SQLite no row is ever passed over |
| JobProperties.RetriesCounted | src/worker/runner.rs:393-425 | retries equals the number of failures that took effect, stays below the limit for live rows and equals it for dead ones |
| JobProperties.SnapshotIsCurrent | src/worker/runner.rs:85-89 | whenever a finalization takes effect, the retries it was decided by are the row's own, and it changes that row alone: deleted, or counted, released, and dead or rescheduled by the backoff |
| JobProperties.OutcomeDecidesRow | src/worker/runner.rs:370-425 | in every run an effective finalization follows the worker's latest handler return: after a success the row is gone, after a failure it is there with one retry more, dead exactly if that reaches the limit, and else claimable exactly from the end of the backoff |
| JobProperties.DeadForever | src/worker/runner.rs:45-59 | no run ever changes or removes a dead row |
| JobProperties.FailuresAreSpaced | src/worker/runner.rs:410-421 | the n-th and the next effective failure are at least min(2^(n-1), 86400) seconds apart in every run, or the later one is at the last instant of the clock |
| JobProperties.DiesNoSooner | src/worker/runner.rs:393-421 | with max_retries of 18 or more, death comes at least 2^17 - 1 + 86400 (max_retries - 18) seconds after the first failure, or at the last instant of the clock |
| JobProperties.ClaimsAccountedFor | src/worker/runner.rs:36-76 | lease columns are set together, claims are failures plus takeovers plus the current lease, and a row is claimable exactly if live, on its own queue, and past the end of its lease or else run_at |
| JobProperties.VanishesOnlyBySuccess | src/worker/runner.rs:376-386 | in every run a row disappears only when the worker it names finalizes it, and that worker's handler last returned success |
| JobProperties.RowsChangeOnlyAsStated | src/app.rs:107-131 | besides finalizations, rows change only by being enqueued, untried and with the given columns, or by a claim, which writes the lease and nothing else |
| JobProperties.PollClaimsWhatWasDue | src/worker/runner.rs:310-360 | a poll claims from its own queue a row that was due at its own reading of the clock, whatever happens before the claim |
| JobRefinement.SelectedRowStaysClaimable | src/worker/runner.rs:50-62 | a row selected under FOR UPDATE SKIP LOCKED is, up to the commit, still claimable with the retries read, and in no other open transaction |
| JobRefinement.ViewsStayOk | src/worker/runner.rs:50-62 | while a transaction is open, its row stays the first of the rows its SELECT saw and did not skip, and stays unchanged |
| JobRefinement.ActionRefines | src/worker/runner.rs:466-524 | each action of the two-statement protocol is, on the committed rows, no step or one atomic step: a finalization, or a claim of the unchanged row that is first by priority, run_at, created_at in what its SELECT saw; on SQLite that view is the table itself |
| JobRefinement.RunRefines | src/worker/runner.rs:466-524 | so every continuation of a state that keeps the invariant is a run of those atomic steps |
| JobRefinement.ProtocolRefinesStatements | src/worker/runner.rs:466-524 | every run from the empty table, with open transactions, rollbacks and crashes, is a run of atomic claims and finalizations, each claim with the view its own SELECT had in that run |
| JobProgress.DrainUntil | src/worker/runner.rs:225-276 | a lone worker finishes due rows in order: what goes before a given row does not come after it, what remains due does not come before it, nothing else changes |
| JobProgress.StuckForever | src/worker/runner.rs:40-89 | a dead row, or one leased to the last representable instant whose holder has gone or given up, is never removed by any continuation |
| JobProgress.StuckLiveRowIsReachable | src/worker/runner.rs:310-320 | such a live row does arise, on either backend: a worker with an endless visibility timeout claims it and crashes |
| JobProgress.EveryJobCanStillFinish | src/worker/runner.rs:10-19 | from every reachable state some continuation completes a job, whoever crashed holding it, if and only if it is live and is free, or its lease ends before the last representable instant, or its holder has not decided to give it up |
| TokenBucket.TakeMatchesEager | src/rate_limiter.rs:334-349 | one upsert gives the answer of a bucket that really receives a token per interval, loses the same tokens to the cap and keeps the exact remainder |
| TokenBucket.OverflowsExactlyWhenIdle | src/rate_limiter.rs:338-346 | in a history some statement overflows if and only if some request comes after the bucket has lain idle for 2^31 intervals less the tokens it holds |
| TokenBucket.LazyRefinesEager | src/rate_limiter.rs:328-349 | for every history in clock order all answers agree with that bucket if and only if it never lies idle that long, or nobody can ever be admitted |
| TokenBucket.IdleBucketOverflows | src/rate_limiter.rs:338-346 | two requests exactly that far apart break the statement where the ideal bucket admits both; a microsecond less and both are admitted |
| TokenBucket.FitsWhileRecent | src/rate_limiter.rs:338-346 | a take overflows exactly when the row has been idle for 2^31 intervals less its tokens |
| TokenBucket.OverflowExactly | src/rate_limiter.rs:338-346 | at any time and for any burst, the exact distances from the last refill at which the 4-byte integers overflow |
| TokenBucket.OverflowPersists | src/rate_limiter.rs:338-346 | an overflowing row stays as it is and fails every later take |
| TokenBucket.ActiveBucketIsExact | src/rate_limiter.rs:328-349 | a bucket whose takes are never 2^31 - burst intervals apart is exact for its whole life |
| TokenBucket.TokensConserved | src/rate_limiter.rs:328-333 | allowed + remaining + lost to the cap = burst + intervals since creation, and last_refill lags the clock by less than an interval |
| TokenBucket.AnswersInAnyOrder | src/rate_limiter.rs:334-349 | whatever order requests reach PostgreSQL in, an answer is that of a bucket that starts full and receives each interval due once; a request stamped in the past finds as many too few |
| TokenBucket.NeverOverspendsInAnyOrder | src/rate_limiter.rs:334-349 | whatever order requests reach PostgreSQL in, at most the burst plus one token per interval up to the latest timestamp is handed out |
| SqliteBucket.SqliteNeverOverspendsInAnyOrder | src/rate_limiter.rs:355-370 | whatever order they reach SQLite in, at most that up to 4 ms past the latest timestamp |
| DeniedTakes.RefusalStutters | src/rate_limiter.rs:338-349 | a take refused by PostgreSQL leaves a row no later take can tell from the one before |
| TokenBucket.DenialStoresMinusOne | src/rate_limiter.rs:341-349 | a denial stores -1 and leaves last_refill alone, whenever it happens |
| DeniedTakes.DroppingRefusalsChangesNothing | src/rate_limiter.rs:328-349 | on PostgreSQL, removing (or adding) any set of refused takes leaves every other answer of the history as it was |
| SqliteDeniedTakes.RefusalsStutterFromFourMillis | src/rate_limiter.rs:355-370 | a take refused by SQLite leaves no trace, in any history in clock order, if and only if the interval is at least 4 ms or the burst is one |
| SqliteDeniedTakes.DroppingRefusalsChangesNothing | src/rate_limiter.rs:355-370 | on SQLite too, any set of refused takes can be removed without changing another answer, for intervals longer than the errors |
| DeniedTakes.RetryDecidedByDistance | src/rate_limiter.rs:334-349 | on PostgreSQL, after a denial with nobody served in between, a retry is denied before one interval from the last refill and allowed from then on, until overflow |
| DeniedTakes.HeaderCutsFractions | src/util/errors.rs:239-244 | the header is the interval in seconds with the fraction cut off, but at least one |
| DeniedTakes.HeaderSufficesExactlyForWholeSeconds | src/util/errors.rs:239-244 | on PostgreSQL, waiting for the Retry-After header is enough for every denial if and only if the interval is whole seconds or at most one |
| DeniedTakes.HeaderFallsShortAfterBurst | src/util/errors.rs:239-244 | otherwise a new caller who uses up the burst, is denied and waits as told is denied again |
| SqliteDeniedTakes.WaitSufficesExactlyBeyondErrors | src/rate_limiter.rs:246-254 | on SQLite, a wait after a denial, with nobody served in between, is enough in every history in clock order if and only if it is at least one interval, 2.999 ms and the extra error |
| SqliteDeniedTakes.HeaderSufficesOnlyForShortIntervals | src/util/errors.rs:239-244 | so on SQLite the advertised interval alone is never enough in every history, and the Retry-After header only if the interval is shorter than its minimum of one second by those errors |
| RateLimiter.ShippedRetries | src/rate_limiter.rs:91-117 | for the shipped limits the header is always enough on PostgreSQL, and for none of them on SQLite |
| RateBound.CreditPaysForTakes | src/rate_limiter.rs:338-349 | a take is paid for by what the row can still admit up to a horizon, a quantity that also never grows with time |
| RateBound.CreditSurvivesCleanup | src/worker/jobs.rs:71-92 | deleting a row old enough to be full does not increase that quantity |
| RateBound.RateBoundSurvivesCleanup | src/worker/jobs.rs:61-92 | the bound burst + 1 + floor((e - s)/rate) on every window, over all interleavings of takes and cleanups, holds if and only if max_age + 1 >= burst * rate microseconds |
| RateBound.ShortRetentionBreaksBound | src/worker/jobs.rs:61-92 | with shorter retention, draining the bucket once per deletion exceeds the bound |
| RateBound.BoundIsAttained | src/rate_limiter.rs:338-349 | the bound is attained for every burst and every interval above one microsecond |
| SqliteBucket.TakeKeepsTrack | src/rate_limiter.rs:355-370 | one SQLite take, with up to 1 ms of measuring error (2 ms while the stored instant has microseconds) and rounding either way, keeps the stored instant within 1 ms of the exact grid and refills what is due, at most 4 ms early |
| SqliteBucket.RefillsDoNotDrift | src/rate_limiter.rs:351-370 | floor((now - t0)/rate) <= refills <= floor((now - t0 + 4 ms)/rate) after every history in clock order |
| SqliteBucket.RoundedAtMostOnce | src/rate_limiter.rs:364-368 | from a whole-millisecond row on, last_refill moves by exact multiples of the interval |
| SqliteBucket.AnswersFollowMeasurements | src/rate_limiter.rs:355-370 | every answer of every history, in any order and for any interval and burst, is that of a bucket that starts full and receives what was measured token by token, losing what does not fit |
| SqliteBucket.NothingLeaksAboveErrors | src/rate_limiter.rs:355-363 | a take never measures a negative refill, in any history in clock order, if and only if the interval is at least 3 ms and the extra error |
| SqliteBucket.AnswersFollowRefills | src/rate_limiter.rs:355-370 | so for such intervals the answers are those of a bucket fed the drift-free refills |
| SqliteRateBound.CreditSurvivesDeletion | src/worker/jobs.rs:94-103 | deleting a SQLite row older than a full refill does not increase what it can still admit, however its instant was rounded |
| SqliteRateBound.ShortRetentionBreaksBound | src/worker/jobs.rs:94-103 | with shorter retention, rows whose first refill is rounded down gain a millisecond per deletion until the bound is exceeded |
| SqliteRateBound.SqliteRateBoundSurvivesCleanup | src/rate_limiter.rs:351-370 | the same bound for a window 3 ms and twice the extra error longer (4 ms for half a millisecond), over all interleavings of SQLite takes and cleanups, all errors, roundings and spared rows, holds if and only if max_age + 1 >= burst * rate microseconds |
| SqliteRateBound.SlackIsNeeded | src/rate_limiter.rs:355-370 | a history attains that bound at the shortest retention, for every burst and every extra error, and would exceed it with 4 microseconds less |
| RateLimiter.Limiter.CheckRateLimit | src/rate_limiter.rs:208-255 | one request runs the backend's take on its own bucket with the limits configured for the action, or else the shipped ones, answers by it, leaves every other bucket alone, and is one step of the table histories below |
| RateLimiter.Limiter.ClearKey | src/rate_limiter.rs:277-285 | removes that bucket and no other |
| RateLimiter.Limiter.ClearAll | src/rate_limiter.rs:267-274 | leaves no bucket of any action and caller |
| RateLimiter.Limiter.DeleteStale | src/worker/jobs.rs:61-103 | of rows from after the epoch exactly those older than the requested days go, saturated arithmetic or not; on SQLite those whose microsecond, or millisecond once rewritten, precedes the cutoff's, so that a row less than a millisecond too old may stay; one step of the table histories |
| RateLimiter.TablesHaveText | src/rate_limiter.rs:308-326 | every row from after the epoch has the text that comparison is about |
| RateLimiter.KeysDoNotCollide | src/rate_limiter.rs:214 | different actions or callers never share a bucket, whatever characters the caller id contains |
| RateLimiter.StoredKeys | src/rate_limiter.rs:77-89 | the keys as text, for every action and any caller id |
| RateLimiter.ShippedLimits | src/rate_limiter.rs:91-117 | where nothing is configured, a new caller of each action gets so many requests at once and one more after each of so many equal parts of a minute |
| RateLimiter.TableProjects | src/rate_limiter.rs:1-14 | the shared table treats each caller as a private bucket would, through all other traffic and cleanups |
| RateLimiter.SqliteTableProjects | src/rate_limiter.rs:1-14 | so does the SQLite table, which may spare some rows and not others |
| RateLimiter.EveryCallerIsRateBounded | src/rate_limiter.rs:334-349 | on PostgreSQL every caller is admitted within the rate configured for the action, or else the shipped one, in every history of the whole table, given the retention |
| RateLimiter.EverySqliteCallerIsRateBounded | src/rate_limiter.rs:355-370 | so is every caller on SQLite, up to its few milliseconds |
| RateLimiter.DefaultsSurviveCleanup | src/rate_limiter.rs:91-117 | on either backend the shipped limits keep the bound for every retention of at least one day, and for zero days none does |
| Lexicographic.LessByFirstDifference | src/worker/runner.rs:64-76 | the comparison is the usual one: a proper prefix comes first, and else the first difference decides |
| Lexicographic.DigitsOrder | src/rate_limiter.rs:325 | zero-padded numbers of one width compare as text exactly as they do as numbers |
| TimestampText.EpochDay | src/rate_limiter.rs:317-326 | the calendar starts the Unix epoch on 1 January 1970 |
| TimestampText.DateOfDayNumber | src/rate_limiter.rs:317-326 | the date reached by counting days has that day number |
| TimestampText.DayNumberClosedForm | src/rate_limiter.rs:317-326 | the calendar is the Gregorian one, by the usual formula |
| TimestampText.StorageTextReadsBack | src/rate_limiter.rs:317-326 | the stored text, read field by field, is the date and time since 1970 of exactly the microsecond-truncated timestamp |
| TimestampText.TextReadsBack | src/rate_limiter.rs:366 | the text of six digits reads back to its microsecond, that of three to its millisecond |
| TimestampText.StorableInstants | src/rate_limiter.rs:317-326 | the instants whose text is compared are those of the years 0 to 9999 |
| TimestampText.TextOrder | src/rate_limiter.rs:317-326 | six-digit text of two instants of the years 0000 to 9999 compares exactly as the instants |
| TimestampText.MixedTextOrder | src/rate_limiter.rs:366 | millisecond text is less than microsecond text exactly when its millisecond is earlier |
| TimestampText.StorageTextIsOrderEmbedding | src/rate_limiter.rs:308-326 | stored text compares exactly as the microsecond-truncated timestamps |
| TimestampText.LeaseNeverLooksExpiredEarly | src/worker/runner.rs:64-76 | compared as text, a running lease never looks expired, and an expired one is hidden for at most a microsecond |
| Cleanup.SaturationIsInvisible | src/worker/jobs.rs:71-78 | for every u64 number of days the saturated cutoff removes the same rows from after the epoch as exact arithmetic would |
| Cleanup.CutoffIsExactOrEpoch | src/worker/jobs.rs:71-78 | the cutoff is now less the retention where that is representable, and else the epoch |
| Cleanup.RepresentableInstants | src/worker/jobs.rs:71-78 | the representable instants run from 2 January -9999 to 30 December 9999, to the second |
| Cleanup.CutoffIsConservative | src/worker/jobs.rs:65-78 | nothing used since both the epoch and the retention is before the cutoff |
| Cleanup.TextDeletionIsExact | src/worker/jobs.rs:94-103 | on SQLite the text comparison deletes exactly rows whose microsecond, or millisecond once rewritten, precedes the cutoff's |
| Cleanup.TextDeletionIsConservative | src/worker/jobs.rs:94-103 | only strictly older rows are deleted, and none is kept a millisecond too long |
| Base64.RoundTrip | src/middleware/session.rs:86-88 | decoding undoes encoding for every byte sequence |
| Base64.DecodeInvertsEncode | src/middleware/session.rs:84-88 | a text decodes to given bytes if and only if it is their encoding, so foreign characters, missing padding and stray bits are refused |
| Base64.StandardAlphabet | src/middleware/session.rs:86-88 | the alphabet is that of section 4 of RFC 4648 |
| Base64.TestVectors | src/middleware/session.rs:114 | the test vectors of section 10 of RFC 4648 come out |
| Base64.WholeGroupsNeedNoPadding | src/middleware/session.rs:111-114 | the text contains no padding character exactly when the length is a multiple of three |
| Utf8.NeverFF | src/middleware/session.rs:104-109 | no UTF-8 text contains the separator byte |
| Utf8.ValidExactlyIfEncoded | src/middleware/session.rs:94-96 | a byte sequence passes as UTF-8 if and only if it is the encoding of some sequence of Unicode scalar values |
| SessionCodec.Encode | src/middleware/session.rs:101-115 | the loops produce the separated, padded, encoded entries |
| SessionCodec.Decode | src/middleware/session.rs:84-99 | the loop reads the parts pairwise up to an empty key, skipping what is not UTF-8 |
| SessionCodec.PaddingIsNotRead | src/middleware/session.rs:89-93 | the zero to two padding bytes never parse as an entry |
| SessionCodec.DecodeAfterEncode | src/middleware/session.rs:84-115 | for every list of entries, exactly those before the first empty key come back |
| SessionCodec.DecodedMeaning | src/middleware/session.rs:84-99 | whatever text a cookie holds, a key is found exactly if some UTF-8 pair of parts before an empty key is read for it, with the value of the last such pair; nothing if the text is not base64 |
| SessionCodec.SessionRoundTrip | src/middleware/session.rs:84-115 | for every map and every enumeration order, decoding gives the map back if and only if it has no empty key |
| SessionCodec.CookieHasNoPadding | src/middleware/session.rs:111-114 | the cookie text never contains '=' |
| Session.SessionExtension.Get | src/middleware/session.rs:36-39 | looks the key up and changes nothing: one call of the histories below |
| Session.SessionExtension.Insert | src/middleware/session.rs:41-45 | sets the key, marks the session and returns the previous value: one call of the histories below |
| Session.SessionExtension.Remove | src/middleware/session.rs:47-51 | removes the key, marks the session even if there was none, and returns the previous value: one call of the histories below |
| Session.SessionExtension.Clear | src/middleware/session.rs:55-59 | empties and marks the session: one call of the histories below |
| Session.SessionExtension.CookieDecision | src/middleware/session.rs:142-181 | leaves the cookie of an untouched session, expires it for a session left empty, and otherwise replaces it by the encoded map |
| Session.CookieAfterResponse | src/middleware/session.rs:142-181 | the browser keeps its cookie exactly if the handler only read, holds none after a handler that left nothing, and else one with the final map |
| Session.ResponseCarriesData | src/middleware/session.rs:122-182 | the next request starts from the data this one ended with exactly if the session was left alone or has no empty key |
| Session.CookieSimulatesServerMap | src/middleware/session.rs:122-182 | over any requests and calls with nonempty keys every result, and the data the next request sees, are those of a map kept on the server |
| Session.UnverifiedCookieStartsEmpty | src/middleware/session.rs:122-128 | with a missing cookie, or one whose signature does not verify, every call of every later request is answered as from an empty map, whatever the cookie says |
| Session.SignedCookieStartsFromItsMap | src/middleware/session.rs:122-128 | with one that verifies, as from the map it was made from |
| PathNormalization.NormalizePath | src/middleware/normalize_path.rs:58-83 | the loops compute the resolved segments, or the escape error |
| PathNormalization.RejectedExactlyWhenEscaping | src/middleware/normalize_path.rs:54-69 | rejected if and only if some prefix of the segments has more ".." than ordinary ones |
| PathNormalization.NormalFormsAreFixedPoints | src/middleware/normalize_path.rs:58-83 | accepted paths come out canonical, and exactly canonical paths are unchanged |
| PathNormalization.NormalizationIsIdempotent | src/middleware/normalize_path.rs:58-83 | normalizing twice is normalizing once |
| PathNormalization.NormalizationIsCompositional | src/middleware/normalize_path.rs:58-83 | a normalized directory can replace the original in front of any further path |
| PathNormalization.NormalizationIsCancellation | src/middleware/normalize_path.rs:1-7 | a path normalizes to given segments if and only if cutting empty, "." and "x/.." segments, in any order, can reduce it to them |
| PathNormalization.NormalizeRequestUri | src/middleware/normalize_path.rs:31-52 | normalizes the path, keeps the rest, answers nothing for an unchanged path, and can fail at both steps of rebuilding the URI |
| PathNormalization.RequestUriNormalized | src/middleware/normalize_path.rs:31-52 | for URIs of accepted characters: nothing exactly for canonical paths, the escape error exactly for escaping ones, the invalid-URI error exactly when a new path would stand beside an authority without a scheme (or the reverse), otherwise everything else kept and the result final |
| PathNormalization.ParseSplitsText | src/middleware/normalize_path.rs:38-46 | the path and query read back are refused exactly for a character that is not accepted, and otherwise print as they were |
| PathNormalization.AuthorityFormIsRefused | src/middleware/normalize_path.rs:45-51 | a request in authority form, as CONNECT sends, is always refused as invalid |
| Storage.SafePathResolvesInside | src/storage.rs:84-107 | a path is accepted exactly if relative and free of ".." segments, and then names below the storage root what resolving its segments names |
| Storage.GuardedPrefixIsNotRoot | src/storage.rs:206-216 | no prefix that passes the guard resolves to the storage root |
| Storage.RefusedPrefixes | src/storage.rs:89-107 | which prefixes deletion refuses and with which error, by their text alone: the root exactly for prefixes that between surrounding whitespace are relative and have nothing but empty and "." segments |
| Storage.TrimKeepsTheMiddle | src/storage.rs:209-211 | trimming takes the whitespace at both ends and nothing else |
| Storage.WhitespaceCharacters | src/storage.rs:209-211 | whitespace are the characters with that Unicode property |
| Storage.ListedPrefixes | src/storage.rs:276-290 | what is listed for every prefix, by its text; without a prefix, every file |
| Storage.LocalStorage.List | src/storage.rs:276-315 | returns every file below the named place once, in text order, nothing for a missing place or a file named with a slash behind it, an error for a file; and terminates |
| Storage.LocalStorage.ReadDirectory | src/storage.rs:296-309 | reading a directory yields each subdirectory and each file once, in any order |
| Storage.LocalStorage.DeleteAllWithPrefix | src/storage.rs:205-265 | deletes and returns every file below the named place once, keeps all others, leaves a well-formed tree, and refuses, or finds nothing, without deleting anything |
| Storage.LocalStorage.DeleteTree | src/storage.rs:236-259 | the worklist loop deletes exactly the files below its directory and terminates by the directories still unread |
| Storage.FrontierStep | src/storage.rs:240-250 | reading one directory keeps visited and waiting directories disjoint and misses none |
| Storage.TraversalComplete | src/storage.rs:240-259 | when nothing waits, every file below the start has been met |
| Storage.DeletionMatchesListing | src/storage.rs:205-315 | deletion returns what listing would have if and only if the prefix is not the exact name of a file; a file is deleted but not listed, and with "/" or "/." behind it neither; the full listing shrinks by exactly what was deleted, and the place lists empty |
| Storage.DirectoriesAfterDeletion | src/storage.rs:261-262 | the directories go with their files where they can be removed, and no others do |
| Storage.NeighboursSurvive | src/storage.rs:218-236 | a neighbour whose name merely continues the last component is neither deleted nor created |

## Left out

- Job payloads and handlers: only whether a handler succeeds matters; deserialization failures and unknown job types are failures.
- Enqueueing of the recurring cleanup job, poll intervals and shutdown signals: timing of the worker loop; a shutdown is an abort at any point.
- Workers with different max_retries, or sharing a worker id: the machine assumes one setting and distinct ids.
- Clock skew between hosts: one nondecreasing clock, up to the last representable timestamp, where additions saturate as in the code.
- PostgreSQL statements are atomic steps under row locks; the re-evaluation of a SELECT that meets a concurrently committed row is part of that step.
- TokenBucket.LazyRefinesEager: takes the epoch arithmetic of PostgreSQL as exact; the double-precision division by the rate is not modelled.
- SqliteDeniedTakes.WaitSufficesExactlyBeyondErrors: for intervals of at least 3 ms and the extra error; below that a refused take can lose tokens.
- SqliteBucket.RefillsDoNotDrift: the errors of `julianday` and `strftime` are parameters, bounded by one millisecond, and one more while the stored instant has microseconds; for rates of whole milliseconds.
- RateLimiter.Limiter.DeleteStale: on SQLite, for cutoffs in the years 0000 to 9999.
- A rate of zero, and database failures other than integer overflow.
- TimestampText.StorageTextIsOrderEmbedding: years 0000 to 9999 only; years before that are written with a sign and more digits.
- Cookie signing and the browser's 90-day expiry: a cookie either verifies or it does not.
- Path characters are not percent-decoded, and which characters a URI may contain is a parameter, the same for path and query; the length limit of the URI library is not part of this model.
- Storage paths are sequences of component names: how the returned strings spell redundant separators of the prefix is not modelled. Nor are symbolic links, I/O failures, concurrent changes, and removal of only some of the emptied directories.
- Upload, download, single deletion, existence checks and public URLs: each is one call on a checked path.
- OAuth, authentication, CSRF, security headers, configuration, routing and rendering.
