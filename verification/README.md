# launch-go: a verified model of its stateful core

This project models, in Dafny, the parts of launch-go that carry state, interleavings or arithmetic, and proves what
they promise. `dafny verify dfyconfig.toml` checks everything.

| component | files |
|---|---|
| Fixed-window rate limiter: text codec, the counter in its store against an ideal one, whole runs, racing requests | `Decimal`, `RateLimitCodec`, `RateLimit`, `RateLimitRuns`, `RateLimitRaces` |
| Up-only migrator: pending list, batches, interruption and recovery, Sync and SyncUntil | `Migrations`, `Migrator`, `PendingLaws`, `MigratorLaws`, `MigratorHistory` |
| Migrations 0054, 0048 and 0010, and the first two under the migrator | `ServicesDefault`, `SshKeysIsGlobal`, `TeamIdBackfill`, `RegisteredMigrations` |
| Team-membership cache, sequential and racing | `TeamMembership`, `TeamMembershipRaces` |
| Health aggregator: the select loop, and every schedule around it | `Health`, `HealthRaces` |
| Encrypted values: padding, CBC, format dispatch, column types | `Bytes`, `BlockModes`, `Encryption`, `EncryptedColumns`, `LawfulPrimitives` |
| Slices, pages, cron windows, errors | `Slices`, `Pagination`, `Cron`, `Errors` |
| Shared | `Options`, `Sets` |

## How it is modelled

- Instants and durations are integer nanoseconds; clock readings are parameters. The limiter reads the clock at entry
  and at `time.Until`, and the store reads it during Get and during Set: four readings of one clock, in that order. A
  serial run is one in which each request ends before the next begins.
- Concurrency is a state machine: one function gives the effect of each atomic action, a run is a sequence of actions,
  and theorems hold for all sequences. History fields (`log`, `asOf`, `version`, `torn`, `versions`) only record what
  happened.
- A database is a value. A migration's `up` plans its statements from the database it finds; each statement commits on
  its own and may fail. An interruption stops a call before its loop, after any statement of any Up, or at any record
  insert. `Restartable` is the condition on an Up under which the migrator recovers; 0048 and 0054 are proved to meet
  it, 0010 is proved not to.
- Ciphers, AEAD, MAC, base64, hex and JSON are function parameters with the laws of `Encryption.Lawful`;
  `schedule.Next` is a parameter with the law of `Cron.IsNext`.
- Methods follow the source's loops and fields and are proved equal to a specification function; lemmas then prove what
  the source promises about that function.

## What the proofs found

- Two-read lookup: `queryMembership` reads `teams` and `team_user` one after the other, and a write between the two
  reads can make it return an answer that was never true. With atomic lookups
  every answer was true (`AtomicReturnsWereTrue`), and so it is as long as no write deletes or hands over a team between
  the two reads (`UndisturbedReturnsWereTrue`). Otherwise an answer is the one of the database its last read saw exactly
  when the teams row has not come to settle it differently (`ReturnedWasTrue`).
- Invalidation: a lookup whose query finished before a write, but whose Set comes after the invalidation, puts the old
  answer back for a whole TTL (`StaleAnswerReturns`). Without such a lookup in flight an invalidation is final
  (`InvalidationIsSeen`).
- Migration 0010 cannot be restarted once its first ADD COLUMN has committed, so an interruption inside it needs manual
  repair; the comment in 0048 describes the same hazard for that migration, where the guard removes it.
- Migration 0054 keeps every default whose `created_at` is NULL, which the table allows: a group with such a default and
  any other keeps more than one (`UndatedStaysBeside`; `OneDefaultLeftIff` is the exact condition).
- SyncUntil with an id that is not pending marks everything.
- `per_page` below 1: the query reader clamps to 1, the request mixin falls back to 15.
- A bare ValidationError is answered with 422 yet captured as a server error.
- A Laravel GCM envelope of the empty string is returned as it is, because its `value` member is empty.
- The store judges a deadline by a later clock than the request judges the expiry: a request that reads the clock just
  before the expiry, and whose Get comes after the deadline, opens a new window early. That is the only way in which the
  limiter departs from a fixed-window counter (`StepAgreesIff`). Without such a request an interval of `window - 1 ms`
  admits at most 2 * max(1, max) - 1 requests, and with one at most 2 * max(1, max); both bounds are attained for every
  limit and every window above a millisecond.

## Model

| member | source | states |
|---|---|---|
| Decimal.ParseFormat | internal/middleware/rate_limit.go:162-164 | Printing an int64 with `%d` and parsing it back gives the same number, negatives included |
| Decimal.ParseMeaning | internal/middleware/rate_limit.go:174-181 | Exactly which texts parse, and to what: an optional sign, leading zeros and the digits of an int64 |
| RateLimitCodec.DecodeEncode | internal/middleware/rate_limit.go:162-183 | Decoding an encoded window yields the count and the expiry truncated to milliseconds, for every in-range count and expiry |
| RateLimitCodec.EncodeExamples | internal/middleware/rate_limit.go:161-164 | The text form itself, for a count and an expiry on either side of zero |
| RateLimitCodec.DecodePair | internal/middleware/rate_limit.go:169-183 | Two in-range decimals around a first bar always decode, to those numbers |
| RateLimitCodec.DecodeShape | internal/middleware/rate_limit.go:166-183 | Exactly which strings decode, and to what: both directions, for all strings |
| RateLimitCodec.DecodeNeedsBar | internal/middleware/rate_limit.go:166-173 | A value without a bar, such as the older bare counter, never decodes |
| RateLimit.RateLimitByKey | internal/middleware/rate_limit.go:124-159 | The text limiter does exactly what one request does to the stored counter (count, expiry, deadline in the store) of its key, with the clock read anew by the store's Get and Set, and leaves the other keys alone |
| RateLimit.StepKeeps | internal/middleware/rate_limit.go:124-156 | A request leaves a counted window and a deadline that is not before the window's expiry |
| RateLimit.EntryLife | internal/middleware/rate_limit.go:116-156 | A counted request keeps the window's expiry and gives the entry only the time that is left, never a whole window anew; a request that opens a window gives it a whole one |
| RateLimit.StepAgreesIff | internal/middleware/rate_limit.go:124-156 | A request is decided and counted as by the ideal fixed-window counter, whatever the store evicts, exactly unless it read the clock before the expiry and its Get found the entry evicted after the deadline |
| RateLimitRuns.RunAgrees | internal/middleware/rate_limit.go:116-156 | So a serial run without such a request behaves as the ideal counter, whether or not expired entries were evicted |
| RateLimitRuns.OnlyLastStraddles | internal/middleware/rate_limit.go:116-156 | Inside one window only the last request can straddle its deadline |
| RateLimitRuns.StoredWindowAdmits | internal/middleware/rate_limit.go:116-156 | Inside a stored window exactly the requests left are admitted, and one more iff the last one straddles the deadline |
| RateLimitRuns.OneWindow | internal/middleware/rate_limit.go:124-149 | From no window, one whole window admits the first max(1, max) requests, and one more iff the last one straddles the deadline |
| RateLimitRuns.StoredUpToExpiry | internal/middleware/rate_limit.go:124-156 | Before a stored window's expiry a serial run admits at most one request more than the window has left |
| RateLimitRuns.StoredUpToNextExpiry | internal/middleware/rate_limit.go:116-159 | From a stored window, an interval of window - 1 ms that has begun admits what is left, and max(1, max) + 1 more |
| RateLimitRuns.StoredBound | internal/middleware/rate_limit.go:116-159 | Over every serial run, store evictions and late Gets included, an interval of window - 1 ms admits at most 2 * max(1, max) requests |
| RateLimitRuns.StoredBoundIsTight | internal/middleware/rate_limit.go:116-159 | For every limit and every window above 1 ms, a serial run that reaches 2 * max(1, max) |
| RateLimitRuns.UnstraddledBound | internal/middleware/rate_limit.go:116-159 | As long as no request straddles a deadline, an interval of window - 1 ms admits at most 2 * max(1, max) - 1 |
| RateLimitRuns.UnstraddledBoundIsTight | internal/middleware/rate_limit.go:116-159 | For every limit and every window above 1 ms, a run without such a request in which one nanosecond admits that many |
| RateLimitRuns.FollowsNext | internal/middleware/rate_limit.go:124-159 | One more request, on this key or another, keeps a run of the text limiter in step with the counter of every key |
| RateLimitRuns.FollowsBounded | internal/middleware/rate_limit.go:116-159 | A run of the text limiter in step with the counter inherits both bounds |
| RateLimitRuns.ServeAll | internal/middleware/rate_limit.go:88-159 | A whole run of the text limiter over one store, keys interleaved, evictions arbitrary: every key is decided as by its own stored counter, with at most 2 * max(1, max) admissions in window - 1 ms, and one fewer if no request straddles a deadline |
| RateLimitRuns.RetryAfterSuffices | internal/middleware/rate_limit.go:142-148 | Waiting Retry-After seconds always lands past the window's expiry, and unless another request was admitted in between, the request made then is admitted |
| RateLimitRuns.RetryAfterExact | internal/middleware/rate_limit.go:142-148 | The advertised wait is the first whole second past the expiry; for an expiry already past, one less the whole seconds since |
| RateLimitRaces.WriteGrounded | internal/middleware/rate_limit.go:124-156 | Whatever a finishing request writes, a stale overwrite included, belongs to a window that some admitted request opened |
| RateLimitRaces.FinishKeeps | internal/middleware/rate_limit.go:135-158 | The last step of a request keeps the invariant of the interleaved limiter |
| RateLimitRaces.ApplyKeeps | internal/middleware/rate_limit.go:124-159 | Every atomic action (tick, begin, Get, Set with failures, eviction) keeps the invariant |
| RateLimitRaces.NeverThrottledForever | internal/middleware/rate_limit.go:116-159 | In every interleaving, lost updates allowed, each rejection comes less than one window after the clock reading of the admitted request that opened the very window it was rejected against |
| RateLimitRaces.UninterruptedIsStep | internal/middleware/rate_limit.go:124-159 | A request that nothing interrupts takes exactly the counter's step: decision, log and what it leaves in the slot, failed fetches and Sets included |
| RateLimitRaces.EvictedStartsAnew | internal/middleware/rate_limit.go:128-133 | After an eviction the next request opens a window, as it does when the fetch fails |
| RateLimitRaces.RacingRequestsBothPass | internal/middleware/rate_limit.go:128-133 | The interleaving that shows the admission bound needs atomic requests: limit one, both of two racing requests pass |
| Migrator.Migrator.GetPendingMigrations | internal/database/migrations/migrator.go:71-95 | The loops compute the pending list of the registered migrations |
| Migrator.Migrator.GetNextBatch | internal/database/migrations/migrator.go:98-106 | The new batch exceeds every recorded batch, by exactly one over the largest |
| Migrator.Migrator.CreateRecord | internal/database/migrations/migrator.go:136-142 | Appends the record unless the insert breaks or the id is already recorded, since the column is unique |
| Migrator.Migrator.Migrate | internal/database/migrations/migrator.go:109-148 | The loop does what the specification says from every state and for every interruption: database, records and log |
| Migrator.Migrator.Sync | internal/database/migrations/migrator.go:221-255 | The marking loop does what its specification says, interruptions included |
| Migrator.Migrator.SyncUntil | internal/database/migrations/migrator.go:258-293 | The marking loop with its early exit does what its specification says, interruptions included |
| PendingLaws.UnrecordedElements | internal/database/migrations/migrator.go:82-87 | The filter keeps exactly the migrations whose id is not recorded |
| PendingLaws.SortElements | internal/database/migrations/migrator.go:89-92 | Sorting yields the same migrations in strictly ascending timestamps |
| PendingLaws.SortedUnique | internal/database/migrations/migrator.go:89-92 | With distinct timestamps there is one sorted order, so the unstable sort.Slice has no freedom |
| PendingLaws.PendingExactly | internal/database/migrations/migrator.go:71-95 | The pending list holds exactly the unrecorded migrations, each once, in timestamp order |
| PendingLaws.PendingAfter | internal/database/migrations/migrator.go:71-95 | Recording the first k pending migrations leaves exactly the others pending, in the same order |
| Migrator.MaxBatchAbove | internal/database/migrations/migrator.go:98-106 | The maximum is attained and bounds every recorded batch |
| MigratorLaws.MigrateFromCompletes | internal/database/migrations/migrator.go:129-145 | The loop completes a prefix of the pending list, and what a stop leaves in database, records and log |
| MigratorLaws.MigrateCompletesPrefix | internal/database/migrations/migrator.go:109-148 | A failure at the k-th Up or insert records exactly the migrations before it, all in one fresh batch; without one, all of them |
| MigratorLaws.LeftoverRestarts | internal/database/migrations/migrator.go:132-142 | Whatever a stop at a restartable migration leaves, running its Up again ends as the undisturbed Up |
| MigratorLaws.CompletedDb | internal/database/migrations/migrator.go:129-145 | One interrupted call keeps the database on the way of the undisturbed run, if the migration at which it stopped may be restarted |
| MigratorLaws.CallProgresses | internal/database/migrations/migrator.go:109-148 | One call never loses progress, if the migration at which it stopped may be restarted |
| MigratorLaws.UndisturbedSucceeds | internal/database/migrations/migrator.go:109-148 | From any progress, a call that is not interrupted finishes |
| MigratorLaws.CrashRecovery | internal/database/migrations/migrator.go:109-148 | After any sequence of calls interrupted anywhere, one undisturbed call succeeds with the database and recorded ids of a single undisturbed run; only the migrations at which a call stopped have to be restartable |
| MigratorLaws.StopsAtPending | internal/database/migrations/migrator.go:109-148 | A call stops at a pending migration only, and never makes another one pending |
| MigratorLaws.PendingRestartable | internal/database/migrations/migrator.go:109-148 | So restartable pending migrations are enough for recovery, whatever the recorded ones are like |
| MigratorLaws.SuccessIsUndisturbed | internal/database/migrations/migrator.go:109-148 | A call that reports success did exactly what an undisturbed call does |
| MigratorLaws.SecondMigrateIsIdle | internal/database/migrations/migrator.go:119-122 | After a success nothing is pending: a further call runs no Up, records nothing and logs nothing |
| MigratorHistory.MarkFromMarks | internal/database/migrations/migrator.go:274-289 | Marking records the first migrations in order, up to a failing insert, and leaves the database alone |
| MigratorHistory.SyncUntilMarksPrefix | internal/database/migrations/migrator.go:258-293 | SyncUntil records the pending migrations up to and including the id in one fresh batch, or those before the failing insert |
| MigratorHistory.EarlyChangesNothing | internal/database/migrations/migrator.go:109-270 | A call that fails in its preparation leaves database, records and log alone |
| MigratorHistory.SyncIsSyncUntilUnknown | internal/database/migrations/migrator.go:221-293 | SyncUntil with an id that is not pending does what Sync does: it marks everything |
| MigratorHistory.SyncUntilLeaves | internal/database/migrations/migrator.go:257-293 | After SyncUntil exactly the migrations after the id stay pending; the database is untouched |
| MigratorHistory.SyncUntilThenMigrate | internal/database/migrations/migrator.go:109-293 | SyncUntil then Migrate runs Up for exactly the sorted suffix after the id and records exactly the pending set |
| MigratorHistory.MigrateFromKeeps | internal/database/migrations/migrator.go:129-145 | The Migrate loop keeps the history invariant |
| MigratorHistory.MarkFromKeeps | internal/database/migrations/migrator.go:241-251 | The marking loop keeps the history invariant |
| MigratorHistory.NoUpAfterRecord | internal/database/migrations/migrator.go:71-293 | Over every history of interrupted Migrate, Sync and SyncUntil calls: no Up starts once its id is recorded, no id is recorded twice, batches never decrease |
| ServicesDefault.ServicesTable.FixServicesIsDefaultUp | internal/database/migrations/0054_05_31_120000_fix_services_is_default.go:33-63 | Updating row by row in an arbitrary order gives the same table as the set-based UPDATE, and flips the column default |
| ServicesDefault.BeatenAtAnyTime | internal/database/migrations/0054_05_31_120000_fix_services_is_default.go:48-62 | The correlated subquery gives the same answer at every point of an in-place update |
| ServicesDefault.Survivors | internal/database/migrations/0054_05_31_120000_fix_services_is_default.go:41-62 | Exactly which defaults of a group survive: the dated one with the smallest created_at, or the least id among equal ones, and every one whose created_at is NULL |
| ServicesDefault.OneDefaultLeftIff | internal/database/migrations/0054_05_31_120000_fix_services_is_default.go:41-62 | A group keeps exactly one default iff it has dated defaults and no undated one, or one undated default and no dated one |
| ServicesDefault.UndatedStaysBeside | internal/database/migrations/0054_05_31_120000_fix_services_is_default.go:41-62 | A default without created_at survives beside a dated one, so the group keeps two |
| ServicesDefault.OneDefaultPerGroup | internal/database/migrations/0054_05_31_120000_fix_services_is_default.go:17-21 | With every created_at set, a group with a default keeps exactly the one with the smallest created_at, the least id among equal ones; a group without stays without |
| ServicesDefault.RepairIdempotent | internal/database/migrations/0054_05_31_120000_fix_services_is_default.go:23-62 | A second repair changes nothing, and no other column is touched |
| ServicesDefault.FixOutcome | internal/database/migrations/0054_05_31_120000_fix_services_is_default.go:33-62 | The database after the whole Up, and after every cut of it |
| ServicesDefault.FixIsRestartable | internal/database/migrations/0054_05_31_120000_fix_services_is_default.go:23-62 | The migration may be cut off anywhere and run again |
| SshKeysIsGlobal.SshKeysTable.Execute | internal/database/migrations/0048_05_28_000000_convert_ssh_keys_is_global_to_boolean.go:54-83 | One auto-committed statement: its effect, or an error that changes nothing |
| SshKeysIsGlobal.SshKeysTable.ConvertSSHKeysIsGlobalToBooleanUp | internal/database/migrations/0048_05_28_000000_convert_ssh_keys_is_global_to_boolean.go:31-84 | From any column the migration succeeds and leaves the clean column |
| SshKeysIsGlobal.StatementsKeepTruths | internal/database/migrations/0048_05_28_000000_convert_ssh_keys_is_global_to_boolean.go:54-83 | No statement that succeeds changes which rows count as true |
| SshKeysIsGlobal.CutKeepsTruths | internal/database/migrations/0048_05_28_000000_convert_ssh_keys_is_global_to_boolean.go:31-84 | Neither does any run cut off after any statement |
| SshKeysIsGlobal.CleanRun | internal/database/migrations/0048_05_28_000000_convert_ssh_keys_is_global_to_boolean.go:31-84 | One clean run ends in boolean, default false, NOT NULL, with each row true iff its original value was neither NULL nor zero |
| SshKeysIsGlobal.EachStepNeeded | internal/database/migrations/0048_05_28_000000_convert_ssh_keys_is_global_to_boolean.go:31-84 | The type guard and each statement are needed: without the guard a converted column fails, without DROP DEFAULT one with a default, without the backfill one with a NULL, without the type change a smallint one |
| SshKeysIsGlobal.ConvertIsRestartable | internal/database/migrations/0048_05_28_000000_convert_ssh_keys_is_global_to_boolean.go:32-49 | The migration may be cut off anywhere and run again: the type guard is what makes it so |
| SshKeysIsGlobal.CutRunsThenFull | internal/database/migrations/0048_05_28_000000_convert_ssh_keys_is_global_to_boolean.go:31-84 | Any number of cut runs followed by one full run end exactly as one clean run |
| TeamIdBackfill.ColumnOutcome | internal/database/migrations/0010_01_18_000000_add_team_id_to_all_tables.go:77-116 | One table's statements succeed exactly when it is ready for them, and then change only that table, filling it from its parent |
| TeamIdBackfill.BackfillMeaning | internal/database/migrations/0010_01_18_000000_add_team_id_to_all_tables.go:88-93 | The backfill statement gives each row that has a parent the parent's team_id, and leaves all other rows, keys and tables alone |
| TeamIdBackfill.FilledNext | internal/database/migrations/0010_01_18_000000_add_team_id_to_all_tables.go:59-63 | Filling one more ready table keeps all earlier tables filled, framed and rooted |
| TeamIdBackfill.BackfillIff | internal/database/migrations/0010_01_18_000000_add_team_id_to_all_tables.go:57-63 | For any table list, the loop succeeds exactly when every entry is ready before it starts, and then every table is filled |
| TeamIdBackfill.NotNullIff | internal/database/migrations/0010_01_18_000000_add_team_id_to_all_tables.go:65-72 | The second loop succeeds exactly when no row has a NULL team_id; it only marks columns, and marks all of those listed |
| TeamIdBackfill.TeamIdsFollowRoots | internal/database/migrations/0010_01_18_000000_add_team_id_to_all_tables.go:57-116 | After success every row of every listed table has a non-NULL team_id equal to its parent's and to its root's, tables filled before are unchanged, and the tables of the second loop are NOT NULL |
| TeamIdBackfill.RegisteredOrder | internal/database/migrations/0010_01_18_000000_add_team_id_to_all_tables.go:27-47 | The registered list is in dependency order and names no table twice |
| TeamIdBackfill.TeamIdSchema.AddTeamIDColumnFor | internal/database/migrations/0010_01_18_000000_add_team_id_to_all_tables.go:77-116 | Runs the five statements, stopping at the first error |
| TeamIdBackfill.TeamIdSchema.AddTeamIDToAllTablesUp | internal/database/migrations/0010_01_18_000000_add_team_id_to_all_tables.go:57-75 | Both loops together run exactly the planned statements, stopping at the first error |
| TeamIdBackfill.RestartIff | internal/database/migrations/0010_01_18_000000_add_team_id_to_all_tables.go:57-88 | Where a clean run would succeed, a run restarted after a cut succeeds exactly when nothing had been done |
| TeamIdBackfill.EmptySchemaRuns | internal/database/migrations/0010_01_18_000000_add_team_id_to_all_tables.go:57-116 | On a schema without rows a clean run succeeds, so the condition above is met by real databases |
| TeamIdBackfill.AddTeamIdIsNotRestartable | internal/database/migrations/0010_01_18_000000_add_team_id_to_all_tables.go:57-88 | The registered migration does not meet the migrator's condition for crash recovery |
| RegisteredMigrations.LiftRestartable | internal/database/migrations/migrator.go:129-145 | A restartable migration stays so inside any larger database |
| RegisteredMigrations.InterruptionsAtEitherConverge | internal/database/migrations/migrator.go:109-148 | In any registry that holds 0048 and 0054, 0010 included, and over any records: calls interrupted only at these two, then one undisturbed call, end like a single undisturbed call |
| RegisteredMigrations.InterruptedMigrationsConverge | internal/database/migrations/migrator.go:109-148 | With only 0048 and 0054 pending, in any registry and over any records, any interrupted calls and then one undisturbed call end in the clean column, the repaired defaults, all else untouched, and both recorded in order |
| TeamMembership.KeysDistinct | internal/pkg/cache/team_membership.go:107-109 | Keys of distinct pairs never collide when user ids contain no colon |
| TeamMembership.ColonCollides | internal/pkg/cache/team_membership.go:107-109 | Exactly when a pair shares its key with another pair whose user id has no colon: when its own user id has one |
| TeamMembership.MembershipMeaning | internal/pkg/cache/team_membership.go:112-175 | What the lookup answers, from the two tables alone: a member iff the team exists and the user owns it or has a pivot row; as owner iff owning it, else with the row's own role; no role for a non-member; for the user and team asked for |
| TeamMembership.PivotMeaning | internal/pkg/cache/team_membership.go:148-174 | The second read ignores the teams row: it answers as the whole lookup would for a team of another owner |
| TeamMembership.TeamMembershipCache.GetMembership | internal/pkg/cache/team_membership.go:44-68 | The answer and the new cache state in every case: hit, database error, miss; and on a coherent cache the answer is what the database says |
| TeamMembership.TeamMembershipCache.WriteAndInvalidate | internal/modules/auth/services/team_service.go:242-250 | A write followed by the invalidation of every pair it changes keeps cached lookups equal to the database |
| TeamMembershipRaces.SoundLater | internal/pkg/cache/team_membership.go:44-68 | What was true at an instant stays true of that instant as time passes and rows are written |
| TeamMembershipRaces.ApplyKeeps | internal/pkg/cache/team_membership.go:44-175 | Every atomic action of readers, writers, invalidations and evictions keeps the invariant |
| TeamMembershipRaces.ReturnedWasTrue | internal/pkg/cache/team_membership.go:44-175 | In every interleaving, a membership returned at t has its last read in (t - TTL - d, t], and is the answer of the database that read saw iff the two reads did not tear: the teams row changed between them so as to settle the answer differently |
| TeamMembershipRaces.HitAnswers | internal/pkg/cache/team_membership.go:44-57 | A hit returns the cached answer and changes nothing else |
| TeamMembershipRaces.MissAnswers | internal/pkg/cache/team_membership.go:59-68 | An uninterrupted miss returns what the database says at that moment, and caches exactly that for five minutes if its Set succeeds |
| TeamMembershipRaces.FailedQueryLeavesNothing | internal/pkg/cache/team_membership.go:59-63 | A lookup whose query fails returns no membership and caches none |
| TeamMembershipRaces.EvictionIsInvalidation | internal/pkg/cache/team_membership.go:93-96 | An eviction takes the entry as an invalidation does |
| TeamMembershipRaces.InvalidationIsSeen | internal/pkg/cache/team_membership.go:93-96 | In every interleaving: once a pair is invalidated while no finished query for it waits for its Set, every later answer for it was read from the database as of the invalidation or later |
| TeamMembershipRaces.StaleAnswerReturns | internal/pkg/cache/team_membership.go:59-96 | That condition is needed: a query finished before a write that stores its answer after the invalidation puts the old answer back, whatever was written |
| TeamMembershipRaces.PivotTears | internal/pkg/cache/team_membership.go:112-175 | The two reads of a lookup tear exactly when the later database answers the whole query otherwise |
| TeamMembershipRaces.UndisturbedReturnsWereTrue | internal/pkg/cache/team_membership.go:44-175 | As long as no write deletes or hands over a team between a lookup's two reads of it, every membership returned at t was the database truth at an instant in (t - TTL - d, t] |
| TeamMembershipRaces.AtomicReturnsWereTrue | internal/pkg/cache/team_membership.go:44-175 | With queryMembership as one atomic read, in every interleaving with writes, invalidations and expiries: a membership returned at t was the database truth at an instant in (t - TTL - d, t] |
| TeamMembershipRaces.TornAnswerWasNeverTrue | internal/pkg/cache/team_membership.go:112-175 | The interleaving in which a torn lookup returns an answer that was never true |
| Health.Aggregator.Collect | internal/pkg/health/health.go:105-135 | For every order of arrival and every moment of cancellation: each slot tells its own checker's finding iff it was heard from, and else the context error; healthy iff all were heard from without an error, otherwise degraded |
| Health.SummaryTells | internal/pkg/health/health.go:86-135 | The summary in plain terms: a checker heard from is healthy iff it found no error and shows its error and time, one not heard from shows the context error, and the report is healthy iff all were heard from without an error |
| Health.HeardCount | internal/pkg/health/health.go:105-112 | The number of slots not received is the number of checkers minus the number of arrivals |
| Health.Pigeonhole | internal/pkg/health/health.go:83-101 | While one check is unsent, the channel holds fewer messages than its capacity |
| HealthRaces.SendKeeps | internal/pkg/health/health.go:86-102 | A send keeps the invariant |
| HealthRaces.ReceiveKeeps | internal/pkg/health/health.go:108-111 | A receive keeps the invariant |
| HealthRaces.AbandonKeeps | internal/pkg/health/health.go:112-124 | The cancellation branch keeps the invariant, and its Degraded is what the slots say |
| HealthRaces.ContextEndKeeps | internal/pkg/health/health.go:112-136 | The end of the context keeps the invariant, and after the return it changes no report |
| HealthRaces.CompleteKeeps | internal/pkg/health/health.go:128-135 | The final status pass keeps the invariant |
| HealthRaces.SendNeverBlocks | internal/pkg/health/health.go:83-102 | In every schedule, no goroutine ever blocks on the channel, not even after an early return |
| HealthRaces.OnlyCheckersDelay | internal/pkg/health/health.go:105-126 | `remaining` counts the unreceived slots, and only a checker still running under a live context can keep Check waiting |
| HealthRaces.SchedulesEnd | internal/pkg/health/health.go:85-126 | No schedule has more than 3n + 2 actions, and one in which nothing but the end of the context can still happen has returned |
| HealthRaces.ReportsAreExact | internal/pkg/health/health.go:83-136 | Over every schedule: each slot has its checker's name, tells its finding (status, error, time) iff that was received before the return, and otherwise is unhealthy with the actual context error; the report is healthy iff every checker was received without an error; without cancellation it is the same for all schedules |
| HealthRaces.ContextErrorIsActual | internal/pkg/health/health.go:112-123 | The context error a report shows is the one with which the context ended |
| HealthRaces.ReturnIsFinal | internal/pkg/health/health.go:107-136 | What was received and reported at the return stays so in the rest of every schedule, stragglers included |
| Bytes.XorTwice | internal/database/serializers/encrypted.go:309-310 | Exclusive or undoes itself, byte by byte |
| Bytes.XorByteAt | internal/database/serializers/encrypted.go:309-310 | Bit by bit, exclusive or is set exactly where the two bytes differ |
| BlockModes.UnpadPKCS7 | internal/database/serializers/encrypted.go:318-332 | The loop decides exactly whether all padding bytes agree |
| BlockModes.UnpadIff | internal/database/serializers/encrypted.go:318-332 | Unpadding succeeds on a value iff it is the padding of some x, and returns that x |
| BlockModes.UnpadMeaning | internal/database/serializers/encrypted.go:318-332 | Byte by byte: a value unpads to x iff it is whole blocks, begins with x, and ends in 1 to blockSize bytes that hold their number |
| BlockModes.CbcRoundTrip | internal/database/serializers/encrypted.go:309-310 | CBC decryption inverts CBC encryption for any block permutation and iv |
| BlockModes.CbcDecryptBits | internal/database/serializers/encrypted.go:309-310 | What CBC decryption computes, without its recursion: each bit of the i-th block is that of the deciphered block, flipped iff it is set in the cipher block before, or in the iv |
| BlockModes.CryptBlocks | internal/database/serializers/encrypted.go:309-310 | The buffer ends up holding the CBC decryption of the source |
| Encryption.Encrypter.SetEncryptionKey | internal/database/serializers/encrypted.go:35-44 | Accepts exactly 32-byte keys; otherwise the key stays as it was |
| Encryption.Encrypter.Encrypt | internal/database/serializers/encrypted.go:165-191 | The method follows its specification, errors included |
| Encryption.Encrypter.DecryptLaravelPayloadWithGCM | internal/database/serializers/encrypted.go:252-316 | The method with its loops follows the specification of the envelope decoder, branch by branch |
| Encryption.Encrypter.Decrypt | internal/database/serializers/encrypted.go:194-239 | The dispatch over plaintext, native and Laravel forms follows its specification |
| Encryption.DecryptEncrypt | internal/database/serializers/encrypted.go:165-239 | With a key set, Decrypt inverts Encrypt on every plaintext, also on one that looks like ciphertext |
| Encryption.CbcEnvelopeOpens | internal/database/serializers/encrypted.go:252-316 | Decoding a Laravel CBC envelope built from p returns exactly p |
| Encryption.GcmEnvelopeOpensIff | internal/database/serializers/encrypted.go:252-294 | Decoding a Laravel GCM envelope returns its plaintext iff that is not empty; the empty one is not recognised as an envelope |
| Encryption.DecryptEnvelope | internal/database/serializers/encrypted.go:201-239 | Decrypt on an encoded envelope gives the envelope's plaintext unless the raw JSON authenticates as native ciphertext |
| Encryption.EnvelopeOpensIff | internal/database/serializers/encrypted.go:252-315 | Exactly which values the envelope decoder returns: v iff the payload is Laravel-shaped and that very payload authenticates v, by the AEAD over its own ciphertext and tag or by the MAC over its own iv and value |
| Encryption.EnvelopeErrors | internal/database/serializers/encrypted.go:263-315 | Which error a refused envelope gives: invalid data exactly for a member that does not decode or has the wrong size, a failed decryption otherwise |
| Encryption.DecryptReturns | internal/database/serializers/encrypted.go:194-239 | Three exact cases: what the AEAD opens of the decoded input; for a Laravel-shaped payload, v iff that payload authenticates v and a failure iff it authenticates nothing; in all other cases the input itself |
| LawfulPrimitives.LawsAreConsistent | internal/database/serializers/encrypted.go:164-191 | The laws assumed of the libraries can hold together |
| EncryptedColumns.EncryptedString.Scan | internal/pkg/dbtype/encrypted.go:35-63 | Writes the decoded value through the receiver, or reports the error and leaves the receiver alone |
| EncryptedColumns.EncryptedNullableString.Scan | internal/pkg/dbtype/encrypted.go:102-133 | Writes value and validity through the receiver, or reports the error and leaves both alone |
| EncryptedColumns.ScanOutcome | internal/pkg/dbtype/encrypted.go:35-133 | Every outcome of scanning: the empty value for NULL and for no bytes, an error for a foreign type, and otherwise whatever Decrypt gives, its error included |
| EncryptedColumns.ValueOutcome | internal/pkg/dbtype/encrypted.go:27-99 | Writing fails exactly when there is something to encrypt and Encrypt fails, with its error |
| EncryptedColumns.StringRoundTrip | internal/pkg/dbtype/encrypted.go:27-63 | Value then Scan is the identity, through NULL for the empty string, for string and byte-slice drivers |
| EncryptedColumns.NullableRoundTrip | internal/pkg/dbtype/encrypted.go:94-133 | Value then Scan keeps a valid non-empty value and turns all others into NULL |
| Slices.FilterSlice | internal/pkg/dto/converter.go:98-109 | The loop computes the order-preserving filter |
| Slices.PositionsMatch | internal/pkg/dto/converter.go:98-109 | The recorded positions are exactly the matching ones, in ascending order |
| Slices.FilterIsPositions | internal/pkg/dto/converter.go:98-109 | The filter is what stands at those positions, in order |
| Slices.Partition | internal/pkg/dto/converter.go:287-299 | The halves are the filters by the predicate and by its negation |
| Slices.PartitionConserves | internal/pkg/dto/converter.go:287-299 | The halves together hold exactly the elements of the slice |
| Slices.Unique | internal/pkg/dto/converter.go:203-217 | The loop keeps one element per key |
| Slices.UniqueKeepsFirsts | internal/pkg/dto/converter.go:203-217 | Unique keeps exactly the first element of every key, in order |
| Slices.UniqueIdempotent | internal/pkg/dto/converter.go:203-217 | Unique of Unique is Unique |
| Slices.GroupBy | internal/pkg/dto/converter.go:185-195 | Groups exist for exactly the occurring keys, each the elements with its key in order |
| Slices.GroupIsFilter | internal/pkg/dto/converter.go:185-195 | Each group equals the order-preserving filter by its key |
| Slices.GroupsConserve | internal/pkg/dto/converter.go:185-195 | In whatever order a map yields its keys, the groups together hold exactly the elements of the slice |
| Slices.Chunk | internal/pkg/dto/converter.go:266-279 | The loop computes the chunks, none for a size below 1 |
| Slices.ChunksFlatten | internal/pkg/dto/converter.go:266-279 | The chunks one after another are the slice |
| Slices.ChunkAt | internal/pkg/dto/converter.go:271-276 | The c-th chunk is the slice from c * size on, cut at the end |
| Slices.ChunksFull | internal/pkg/dto/converter.go:271-276 | Every chunk but the last is full, and the last is not empty |
| Pagination.NewPaginationMeta | internal/pkg/dto/response.go:110-124 | The last page is the least number of pages that hold the total, and at least 1; also what a negative total or page size gives |
| Pagination.ReadersAgreeIff | internal/pkg/fiber/query_params.go:117-126 | For explicit numbers ParsePagination gives the page, size and offset of PaginationRequest iff the page size is at least 1 |
| Pagination.ParseIntMeaning | internal/pkg/fiber/query_params.go:20-40 | A query parameter gives its default for any text that is not an int64, and else the nearest number within its bounds, of which zero is none |
| Pagination.ReaderValues | internal/pkg/fiber/query_params.go:117-126 | Number by number what both readers give for page, size and offset: page at least 1, size 1 to 100, and 1 or 15 for a size below 1 |
| Pagination.MissingReadersAgree | internal/pkg/dto/request_mixins.go:134-160 | Missing query parameters and zero fields give the same page, size and offset |
| Pagination.PagesTile | internal/pkg/dto/response.go:110-124 | Every index below the total lies on exactly one of the pages 1..LastPage |
| Pagination.ChunkCountIsLastPage | internal/pkg/dto/response.go:110-124 | A non-empty collection has as many chunks as pages |
| Pagination.PageIsChunk | internal/pkg/dto/request_mixins.go:157-160 | Page p of a request is chunk p - 1, the slice that starts at GetOffset |
| Cron.DueIffFires | internal/pkg/cronutil/due.go:21-28 | A window is due iff an activation lies in [start, end) |
| Cron.DueUnlessInvalid | internal/pkg/cronutil/due.go:21-25 | An expression is answered for exactly when it parses |
| Cron.DueExactlyOnce | internal/pkg/cronutil/due.go:19-28 | Over abutting windows every activation is due in exactly one |
| Cron.DueSplits | internal/pkg/cronutil/due.go:19-28 | Due on [a, c) equals due on [a, b) or due on [b, c) |
| Errors.CaptureAgrees | internal/pkg/fiber/sentry.go:23-38 | Without a ValidationError in the chain, an error is captured iff it is answered with 500 or more |
| Errors.FirstIsFirst | internal/pkg/apperror/apperror.go:118-126 | errors.As finds the first error of its kind along the chain written out depth first |
| Errors.HandlerMeaning | internal/pkg/fiber/error_handler.go:43-79 | The answer by the chain alone: 422 for a ValidationError anywhere, else the status of the first application error, else of the first fiber error, else 500 |
| Errors.CaptureMeaning | internal/pkg/fiber/sentry.go:23-38 | The capture decision by the chain alone: the first application error decides, else the first fiber error, else captured |
| Errors.NilMeaning | internal/pkg/fiber/sentry.go:23-27 | A nil error is not captured |
| Errors.FiberAnswers | internal/pkg/fiber/error_handler.go:64-72 | A fiber error is answered with its own status under any wrapping |
| Errors.HasCodeMeaning | internal/pkg/apperror/apperror.go:69-76 | errors.Is matches exactly the codes of the application errors along the chain |
| Errors.ValidationIsCaptured | internal/pkg/fiber/error_handler.go:47-54 | A bare ValidationError is answered with 422 and captured all the same |
| Errors.AppError.Apply | internal/pkg/apperror/apperror.go:79-113 | Each builder returns a changed fresh clone and modifies nothing that existed |
| Errors.Build | internal/pkg/apperror/apperror.go:79-113 | Any sequence of builder calls leaves the predefined errors untouched on the heap and yields the derived value |
| Errors.DerivedKeepsStatus | internal/pkg/apperror/apperror.go:69-113 | No sequence of builders changes the status or the capture decision, and errors.Is matches by the last code or through the wrapped cause |
| Errors.DerivedAnswers | internal/pkg/fiber/error_handler.go:43-79 | Whatever builders derive an application error, and however deep it is wrapped, it is answered with the status of the error it derives from, or 422 exactly if its cause brings in a ValidationError |

## Left out

- Encryption.Lawful: AES, GCM, HMAC, base64, hex and JSON are libraries; only that each decoder inverts its encoder (JSON on envelopes whose members are encoded), block sizes and tag lengths are assumed, never how they work.
- Encryption.DecryptEnvelope: does not rule out that an envelope's raw JSON authenticates as native ciphertext, because no law of the AEAD excludes a forgery.
- RateLimit.RateLimitByKey: the store keeps an entry for the whole TTL it is given and accepts every Set; the Redis driver's rounding of TTLs to milliseconds and its fetch errors are not modelled there (fetch errors, failed Sets and early evictions are in `RateLimitRaces`).
- RateLimitRuns.RetryAfterSuffices: takes `Duration.Seconds` exactly; rounding in float64 could only lengthen the wait.
- Migrator.SortByTimestamp: sort.Slice is a library; an insertion sort stands for it, and for distinct timestamps no sort can differ.
- MigratorLaws.CrashRecovery: requires distinct ids and timestamps, an undisturbed run that succeeds, and that the migrations at which a call stopped may be restarted, which an interrupted 0010 may not.
- Fresh: dropping every table and then calling Migrate adds only Migrate on the empty state.
- TeamIdBackfill.ColumnOutcome: column types, names of indexes and constraints, and the cascade on deleting a team are left out; an index or constraint that is already there is modelled as a mark on the table.
- ServicesDefault.Repair: ids are ordered integers, as the database compares its fixed-width ids; server_id and type are not NULL, as the table declares.
- TeamMembershipRaces.ReturnedWasTrue: a role that is NULL in the pivot table reads as an empty role, and is not modelled apart.
- TeamMembership.TeamMembershipCache.GetMembership: JSON is a text that unmarshals to a membership or does not.
- Health.Aggregator.Collect: the order of arrivals and the moment of cancellation are parameters; timestamps are left out, and the lock around the list of checkers.
- Slices.GroupBy: a nil slice and an empty one are not distinguished, and key functions and predicates do not modify the elements they are given.
- Pagination.PagesTile: counts are unbounded integers; only offsets wrap at 64 bits.
- Cron.DueIffFires: windows lie after the zero time, and the search of Next reaches the end of the window.
- Errors.AppError.Apply: WithMessagef is WithMessage of a formatted text; message translation is left out.
- EncryptedJSONStringMap and EncryptedJSONMap: their JSON step is a library call around the same Encrypt and Decrypt.
- SetEncryptionKeyFromBase64 and the mutex around the key: no property beyond SetEncryptionKey.
- Routes, handlers, other migrations, configuration and presentation: no deep property.
