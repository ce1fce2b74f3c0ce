# Aegis: verified models of shared state

Aegis is a control plane (FastAPI, Python) and a reverse proxy (Go). This project models, in
Dafny, the places where concurrent requests share small pieces of state, and proves what
callers and operators rely on there.

| part | what it is about |
|---|---|
| `KeySystem`, `KeyRuns`, `CachedValidator`, `ApiKeys`, `ApiKeyLifecycle` | API keys from the proxy's verdict cache to the key table: bounded staleness, final revocation, the prefix lookup, the cache object |
| `CreationLimiter` | the fixed-window limit on key creation, made of INCR and a separate EXPIRE |
| `EventReporter`, `EventRuns` | the proxy's bounded queue of security events and its draining shutdown |
| `AutoBlock`, `BlockProvenance`, `BlockStore`, `Analytics` | the control plane's event log, automatic IP blocks, and the operator's summary |
| `PolicySystem`, `PolicyRuns`, `PolicyProviders`, `PolicyObjects` | policy snapshots: TTL cache, live stream above it, deep copies |
| `ActiveTable` with `RateLimitRules`, `RoutePermissions`, `IpBlocks` | tables with at most one active row per key, proved once and instantiated |
| `JwtConfigs`, `ProxyConfig`, `IpBlocker` | JWT configurations, the snapshot published to the proxy, and two of its readers |
| `Upserts`, `Seeding`, `SeedRun` | the idempotent development seed |
| `WordWrap` | greedy line breaking and its optimality |

Protocols are state machines: a datatype of states, a datatype of actions cut where another
request can run, `Enabled` and `Step`, and theorems about every run. Objects that the program
updates in place are classes whose methods are proved against the same decisions
(`Hit`, `EntryFor`, `AfterCall`, `Step`, `Handle`, `Commit`, `AfterValidation`), so that what
is proved of the runs is proved of what the methods do. Fields named as history (`asked`,
`decidedAt`, `created`, `revoked`, `history`, `starts`, `accepted`) record what happened; no
decision reads them, and `KeyRuns`, `EventRuns` and `PolicyRuns` prove that over every run they are
functions of the actions alone, with what callers may rely on told in those terms.

Check everything with `dafny verify dfyconfig.toml`.

## Assumptions

- SHA-256 does not collide (`KeySystem.Sound`); password and key hashes verify what they
  were made from and nothing else; decrypting a sealed signing key gives the key back.
- A newly drawn API key is none that a row was made from.
- Each Redis command and each SQL statement or transaction is atomic; Redis drops an expired
  counter at the instant of its deadline. Partial unique indexes, unique indexes, NOT NULL and
  CHECK constraints refuse as PostgreSQL does.
- Values fit their columns, ids included, except where the seed writes longer ones, which the
  database refuses unless only blanks are too much; hashing and encryption succeed.
- The proxy, the control plane and the database read one nondecreasing clock. `created_at`
  of an event is the start of its transaction.
- A send of the event reporter ends within its timeout; the worker's own steps take no time.
- An admission by the creation limiter is dated at its INCR (`ReturnBound` dates it at the
  return instead).
- `netip.ParseAddr`, `net.SplitHostPort`, `strings.TrimSpace` and `strings.Trim` are arbitrary
  functions, the first with addresses of 32 and 128 bits; the results about addresses are
  about every such choice.

## Where the code and its intent differ

- Fixed window: the limit is named as a number per window, but a window's length placed
  across a reset admits up to 2 * limit - 1, whatever the limit and the window
  (`CreationLimiter.BoundIsAttained`); on an integer clock the limit holds of every such
  interval only if it is at most one or the window is a single instant
  (`CreationLimiter.LimitHoldsIff`). An EXPIRE that is lost after its INCR leaves a counter
  that locks its owner out for good once it is full (`CreationLimiter.LockoutHappens`,
  `CreationLimiter.AdmissionPossibleIff`).
- `wrap` emits an empty first line exactly when the first word is wider than the line
  (`WordWrap.EmptyLineIff`).
- The seed's permission upsert goes by id alone and can leave two active permissions for one
  route (`SeedRun.PermissionUpsertCanDoubleActive`); the rule upsert cannot.
- The IP scan stops at the first match, so an unparsable entry behind it goes unnoticed and
  one before it hides it (`IpBlocker.OrderMattersIff`).
- The key-info copy shares the expiry pointer: a caller that writes through it changes what
  later callers are served, and nothing else it writes does
  (`CachedValidator.LaterHitChangesIff`).
- The seed falls back to a numbered address for a retired user without looking whether that
  one is free, lengthens names without looking at the width of their column, and writes key
  prefixes of any configured length; the database then aborts the run
  (`SeedRun.SeedingSucceedsIff`).
- The reason of an automatic block names a number of violations within the window. The window's
  start is fixed before the count and the count has no upper bound, so a slow ingest also counts
  what came later: an address can be blocked on violations that lie arbitrarily far apart
  (`BlockProvenance.SpreadOutBlock`), and the number can be relied on only when automatic
  blocking is off (`BlockProvenance.ReasonsHoldIff`), even at a threshold of one. Of a single
  count it is right when nothing overtakes it (`BlockProvenance.CountIsInWindowIff`,
  `BlockProvenance.ReasonHoldsUnlessOvertaken`), and always within the window and the time an
  ingest takes (`BlockProvenance.BlocksAreEarnedWithin`).
- Sending on the closed event queue panics; `Report` after `Close` is modelled as refused.

## Model

| member | source | states |
|---|---|---|
| `KeySystem.StaleAcceptanceBound` | reverse-proxy/internal/controlplane/cache.go:48-77 | In every interleaving of callers, creations, edits and revocations: a key revoked at T is accepted by no call that read its clock at or after T + positiveTtl, likewise for a key expiring at T; and the owner, scopes and other info served are those its row had at some instant less than positiveTtl before that clock reading |
| `KeySystem.StaleAbsenceBound` | reverse-proxy/internal/controlplane/cache.go:48-77 | A key created at T is called unknown by no call that read its clock at or after T + negativeTtl |
| `KeySystem.RefusalsAreTrue` | reverse-proxy/internal/controlplane/client.go:101-131 | A refusal as revoked or as expired is right about the key at the moment it is served, however old the cached verdict is |
| `KeySystem.OutagesAreNotCached` | reverse-proxy/internal/controlplane/cache.go:59-62 | In every run, a call that looks in the cache is answered with a verdict on its key or goes on to ask |
| `KeySystem.RevocationIsFinal` | aegis-backend/app/services/api_key_service.py:138-185 | From any reachable table, no interleaving of running validations (last-used writes), edits and revocations makes a revoked row active again or moves the instant it was revoked |
| `KeySystem.RunInv` | reverse-proxy/internal/controlplane/cache.go:48-77 | Every verdict in flight, stored or served, in every run, reports the key table as it was at an instant between the asking call's clock reading and now; every entry expires its own TTL after that reading |
| `KeySystem.CallsNeverStick` | aegis-backend/app/services/api_key_service.py:187-230 | Until a call is answered, one of its own non-failing steps can run |
| `KeySystem.UndisturbedValidation` | aegis-backend/app/services/api_key_service.py:187-230 | Cut into its database statements and run with nothing in between, a validation changes the table and replies exactly as the service's validation taken as one operation |
| `KeySystem.CacheReadJustified` | reverse-proxy/internal/controlplane/cache.go:52-57 | A hit hands out a verdict younger than its TTL, whichever call stored it, also when a slow old call overwrote a newer entry |
| `KeyRuns.StateIsTheActions` | aegis-backend/app/services/api_key_service.py:70-185 | Over every run the actions alone give the clock, which rows exist since when, which key each was made from, which are revoked, and when each call read its clock and for which key |
| `KeyRuns.RevokedKeysAreRefused` | aegis-backend/app/services/api_key_service.py:168-185 | If step n of a run revokes a row, at instant T, the row is revoked in every later state, since no later than T, and no call that reads its clock at or after T + positiveTtl is accepted for its key |
| `KeyRuns.CreatedKeysAreKnown` | aegis-backend/app/services/api_key_service.py:70-102 | If step n of a run creates a key, at instant T, the row is there in every later state with the owner, expiry and stored prefix it was asked for, since exactly T, active exactly until it is revoked, and no call that reads its clock at or after T + negativeTtl is told that the key is unknown |
| `KeyRuns.EditedScopesAreServed` | aegis-backend/app/services/api_key_service.py:138-166 | If step n of a run sets scopes, at instant T, and no later step sets them again, every call that reads its clock at or after T + positiveTtl and is accepted for that key is served these scopes |
| `KeyRuns.RevokeTakesEffect` | aegis-backend/app/services/api_key_service.py:168-185 | A revocation can always happen; it marks its row and changes no other, no other column, no call and no cache entry |
| `KeyRuns.EditTakesEffect` | aegis-backend/app/services/api_key_service.py:138-166 | An edit sets exactly the supplied ones of name and scopes of its own row |
| `KeyRuns.UndisturbedCall` | reverse-proxy/internal/controlplane/cache.go:48-77 | Alone, a call is told what is cached and unexpired; otherwise it is told the service's verdict on the table as it is and caches it for its TTL; an outage is told and not cached |
| `KeyRuns.FaultIsAnOutage` | aegis-backend/app/services/api_key_service.py:187-230 | A fault on the way is told as an outage and leaves rows and cache alone |
| `CachedValidator.Cache.ValidateKey` | reverse-proxy/internal/controlplane/cache.go:48-77 | The cache object: a hit hands out the stored pointer to the expiry and tells the stored verdict with what that pointer reads now, and stores nothing; a miss tells the reply and stores exactly the cacheable ones, expiring from the clock read before asking; nothing else is shared with the cache |
| `CachedValidator.Cache.Store` | reverse-proxy/internal/controlplane/cache.go:68-74 | Storing replaces one slot, by digest, with the whole verdict and its expiry pointer, and nothing else |
| `CachedValidator.CloneKeyInfo` | reverse-proxy/internal/controlplane/cache.go:85-92 | The copy has the same values, a fresh object and a fresh scopes array; the expiry pointer is shared |
| `CachedValidator.AnswersAreIsolated` | reverse-proxy/internal/controlplane/cache.go:52-76 | Arbitrary writes to an answer, whether it came from the cache or from the control plane, its scopes and its own fields, do not change the next answer |
| `CachedValidator.ExpiryIsShared` | reverse-proxy/internal/controlplane/cache.go:85-92 | The limit of the isolation: after a write through the expiry pointer of one answer, the next caller is served the instant written |
| `CachedValidator.LaterHitChangesIff` | reverse-proxy/internal/controlplane/cache.go:48-92 | A caller's writes to its answer, from the cache or from the control plane, change a later hit exactly when they write another instant through the expiry pointer |
| `ApiKeys.FindMatch` | aegis-backend/app/services/api_key_service.py:192-204 | The candidate loop finds a candidate that verifies, skipping unreadable hashes, exactly when there is one |
| `ApiKeys.PrefixLookupIsFullScan` | aegis-backend/app/repositories/api_key_repository.py:36-41 | Looking only at the rows with the key's prefix gives the verdict of a scan of the whole table |
| `ApiKeys.Lookup` | aegis-backend/app/services/api_key_service.py:192-204 | The prefix query and the candidate loop together compute the full scan |
| `ApiKeys.CreateKeepsKeyed` | aegis-backend/app/services/api_key_service.py:87-99 | A created row stores the prefix of the key its hash was made from, so every reachable table is well keyed |
| `ApiKeys.VerdictIff` | aegis-backend/app/services/api_key_service.py:187-230 | The proxy's verdict on a validation: accepted, unknown, revoked or expired each exactly when the table says so, with the matching row's info; a validation changes the last-used instant of an accepted row only |
| `ApiKeys.VerdictsSurviveTheWire` | reverse-proxy/internal/controlplane/client.go:89-131 | Each reply of the control plane is decoded as the verdict it was, and a row read as revoked or expired is never accepted |
| `ApiKeys.DecodeIff` | reverse-proxy/internal/controlplane/client.go:89-131 | Exactly which responses are read as accepted, with the info they carry, as expired, as revoked and as unknown |
| `ApiKeys.RefusalsAreAboutTheKey` | reverse-proxy/internal/controlplane/client.go:114-131 | Exactly which error replies become a verdict on the key: no failure of the control plane and no refusal of the proxy itself |
| `ApiKeyLifecycle.ApiKeyService.CreateApiKey` | aegis-backend/app/services/api_key_service.py:70-102 | Who may create a key, and both refusals of the limiter; the row created is the one the handed-out key looks up, owned by the caller, active, and no other row changes |
| `ApiKeyLifecycle.ApiKeyService.UpdateApiKey` | aegis-backend/app/services/api_key_service.py:138-166 | Only the owner or an administrator succeeds, and only name and scopes can change, each from its own argument |
| `ApiKeyLifecycle.ApiKeyService.RevokeApiKey` | aegis-backend/app/services/api_key_service.py:168-185 | The row stays with only its status changed; from then on its key is answered as revoked |
| `ApiKeyLifecycle.ApiKeyService.ValidateApiKey` | aegis-backend/app/services/api_key_service.py:187-230 | The imperative validation is the operation that VerdictIff is about |
| `CreationLimiter.AdmissionBound` | aegis-backend/app/core/rate_limit.py:16-31 | In every run and interleaving of INCR and EXPIRE, with lost and failed commands, any half-open interval of k windows admits at most (k + 1) * limit - 1 creations |
| `CreationLimiter.BoundIsAttained` | aegis-backend/app/core/rate_limit.py:16-31 | For every positive limit, every window of more than one instant and every positive number k of windows, some run admits (k + 1) * limit - 1 creations in k windows |
| `CreationLimiter.LimitHoldsIff` | aegis-backend/app/core/rate_limit.py:16-31 | No interval as long as a window ever admits more than the limit, in any run, exactly when the limit is at most one or a window is a single instant |
| `CreationLimiter.InstantBound` | aegis-backend/app/core/rate_limit.py:18-31 | At any one instant at most limit creations are admitted |
| `CreationLimiter.ReturnBound` | aegis-backend/app/core/rate_limit.py:27-31 | The same measured when callers come out, with one more window for each window a caller may spend inside |
| `CreationLimiter.ExpireHitsOwnGeneration` | aegis-backend/app/core/rate_limit.py:19-20 | An EXPIRE always acts on the counter generation that its own INCR created, and no other caller owes it one |
| `CreationLimiter.RunInv` | aegis-backend/app/core/rate_limit.py:16-25 | Generation starts are at least a window apart, a counter without deadline belongs to the last generation, and counts and replies agree, in every reachable state |
| `CreationLimiter.LockoutIsPermanent` | aegis-backend/app/core/rate_limit.py:18-25 | A full counter whose EXPIRE was lost admits nobody ever again |
| `CreationLimiter.LockoutHappens` | aegis-backend/app/core/rate_limit.py:18-25 | For every positive limit a run from the empty system reaches the lock-out, and no run from there admits a new caller |
| `CreationLimiter.AdmissionPossibleIff` | aegis-backend/app/core/rate_limit.py:16-31 | A new caller can still be admitted exactly when the counter has room, has a deadline, or somebody still owes it one |
| `CreationLimiter.Redis.SendIncr` | aegis-backend/app/core/rate_limit.py:18 | INCR creates or counts up one owner's counter, keeping its deadline; a fault may hide the reply or the command |
| `CreationLimiter.Redis.SendExpire` | aegis-backend/app/core/rate_limit.py:20 | EXPIRE sets the deadline of a live counter and does nothing to a missing one |
| `CreationLimiter.EnforceApiKeyCreationRateLimit` | aegis-backend/app/core/rate_limit.py:8-31 | The function against its effect on one counter: outcome, counter, and no other owner's counter touched |
| `CreationLimiter.CallEffectIsARun` | aegis-backend/app/core/rate_limit.py:16-31 | From any state the system can be in, one uninterrupted call is a run of it with that outcome and counter, so the bounds hold of what follows |
| `CreationLimiter.CallEffectMeans` | aegis-backend/app/core/rate_limit.py:16-31 | Unavailable exactly when a command failed, LimitExceeded exactly when none did and the count is above the limit, admitted otherwise; a live counter keeps its deadline, a new one gets a window from its EXPIRE |
| `CreationLimiter.OutcomesAreTheActions` | aegis-backend/app/core/rate_limit.py:16-31 | In every run a caller that has come out was told Unavailable exactly when one of its commands failed, and otherwise was admitted or refused by whether its reply is within the limit, each at the instant its actions give |
| `EventReporter.NothingLostOrForged` | reverse-proxy/internal/controlplane/event_reporter.go:57-79 | Accepted events are attempted, in flight or queued, in order, once each; reported = accepted + dropped + refused; the queue never exceeds its capacity |
| `EventRuns.StateIsTheActions` | reverse-proxy/internal/controlplane/event_reporter.go:57-79 | Over every run from the start the events reported are those of the Report actions, in order, each of them accepted, dropped or refused; the channel is closed since the first Close action |
| `EventRuns.ReportIsAcceptedIff` | reverse-proxy/internal/controlplane/event_reporter.go:57-63 | An event reported on an open channel is queued and accepted exactly when fewer than `capacity` are queued, and dropped otherwise; on a closed channel it is refused; nothing else changes |
| `EventRuns.RoomMeansAttempted` | reverse-proxy/internal/controlplane/event_reporter.go:57-79 | An event reported while the channel was open and had room has been attempted, in its place, once the worker has stopped |
| `EventRuns.ClosersReturn` | reverse-proxy/internal/controlplane/event_reporter.go:65-70 | Anybody can close at any time; the first closer returns exactly once the worker has stopped, and after it the others |
| `EventReporter.CloseMeansDrained` | reverse-proxy/internal/controlplane/event_reporter.go:65-70 | Once any Close has returned the worker has stopped and every accepted event has been attempted |
| `EventReporter.ShutdownBound` | reverse-proxy/internal/controlplane/event_reporter.go:65-79 | The worker has stopped by (capacity + 1) timeouts after the first Close |
| `EventReporter.DrainCountsDown` | reverse-proxy/internal/controlplane/event_reporter.go:72-79 | After Close nothing more is accepted and the worker steps left fall by exactly one each step, whatever is interleaved |
| `EventReporter.DrainNeverStuck` | reverse-proxy/internal/controlplane/event_reporter.go:72-79 | Until the worker stops, one of its steps can run |
| `EventReporter.DrainedIsARun` | reverse-proxy/internal/controlplane/event_reporter.go:72-79 | The worker's draining loop is a run of the interleaved system |
| `EventReporter.AsyncEventReporter.Report` | reverse-proxy/internal/controlplane/event_reporter.go:57-63 | Append the event to the queue exactly when the channel is open and has room, drop it exactly when the channel is open and full, panic when closed; the system's step |
| `EventReporter.AsyncEventReporter.Run` | reverse-proxy/internal/controlplane/event_reporter.go:72-79 | The worker from its start to its end, among reports and closes in any order: a run of the system, at the end of which every accepted event has been attempted |
| `EventReporter.AsyncEventReporter.TakeTurn` | reverse-proxy/internal/controlplane/event_reporter.go:57-79 | Each report, close or send in between is its step of the system |
| `EventReporter.AsyncEventReporter.DrainClosed` | reverse-proxy/internal/controlplane/event_reporter.go:72-79 | Once the channel is closed, turn after turn leaves the drained state |
| `EventReporter.AsyncEventReporter.SendNext` | reverse-proxy/internal/controlplane/event_reporter.go:74-78 | One turn of the loop, with the queue open or closed, is the system's take and finish; a failed send changes nothing but the log |
| `EventReporter.AsyncEventReporter.Close` | reverse-proxy/internal/controlplane/event_reporter.go:65-70 | The first Close closes, waits until all that was queued has been attempted, and returns; later ones change nothing |
| `AutoBlock.NoBlockIsLost` | aegis-backend/app/services/analytics_service.py:39-75 | If `threshold` violations of an address are committed, the last by an ingest whose window still holds them all, the address has an active block at some moment after that commit, whoever inserted it |
| `AutoBlock.BlocksAreEarnedAndUnique` | aegis-backend/app/services/analytics_service.py:52-72 | In every run at most one block per address is active, and every automatic block has behind it the logged violations of its address that its reason names, at least `threshold`, counted since the window start it records |
| `BlockProvenance.BlocksHaveACause` | aegis-backend/app/services/analytics_service.py:52-72 | Every automatic block was inserted by an ingest of a violation of its address that earlier counted the violations its reason names, at least `threshold`, since one window before its own, still earlier, clock reading |
| `BlockProvenance.BlocksAreEarnedWithin` | aegis-backend/app/services/analytics_service.py:52-72 | If no ingest takes more than D from reading the clock to inserting, every automatic block has as many violations of its address as its reason names, at least `threshold`, within window + D before its insert |
| `BlockProvenance.CountIsInWindowIff` | aegis-backend/app/repositories/security_event_repository.py:57-66 | All that a count finds lies in the window that ends at the clock reading exactly when no violation of the address begun after the reading was committed before the count |
| `BlockProvenance.SpreadOutBlock` | aegis-backend/app/services/analytics_service.py:52-72 | For every positive number from the threshold up and every gap, a run that blocks an address with that number in the reason, each of the violations that long after the one before |
| `BlockProvenance.ReasonsHoldIff` | aegis-backend/app/services/analytics_service.py:64-67 | The stored reason, the number it names within the window, is right of every automatic block of every run exactly when automatic blocking is off, whatever the threshold and the window |
| `BlockProvenance.ReasonHoldsUnlessOvertaken` | aegis-backend/app/services/analytics_service.py:52-67 | Of a single block the reason is right whenever no later violation overtook the count behind it |
| `BlockProvenance.ThresholdsHoldIff` | aegis-backend/app/services/analytics_service.py:52-72 | That `threshold` violations of every automatically blocked address lie in some stretch of a window's length, whatever number the reason names, holds in every run exactly when the threshold is at most one or automatic blocking is off |
| `BlockProvenance.WindowHistory` | aegis-backend/app/services/analytics_service.py:52-54 | The window of an ingest that counts or has judged starts exactly one window before its clock reading |
| `BlockProvenance.CountHistory` | aegis-backend/app/services/analytics_service.py:55 | What it has seen is exactly the log as it was at its count |
| `BlockProvenance.AutomaticBlocksAreAttributable` | aegis-backend/app/services/analytics_service.py:46-51 | In every run automatic blocks exist only with automatic blocking on and never for the address "unknown" |
| `BlockProvenance.AdministratorsWrites` | aegis-backend/app/models/ip_block.py:36-42 | An administrator's insert and status change happen as asked, to that block alone, and are refused exactly when another block of the address is active |
| `BlockProvenance.ViolationsAre` | aegis-backend/app/repositories/security_event_repository.py:57-66 | What is counted: the address's threat and rate-limit events created since the window start |
| `BlockProvenance.CheckDecides` | aegis-backend/app/services/analytics_service.py:58-59 | An ingest goes on to insert exactly when its address has no active block at that moment |
| `BlockProvenance.IngestsNeverStick` | aegis-backend/app/services/analytics_service.py:39-75 | Until an ingest has finished, one of its own non-failing steps can run |
| `AutoBlock.FinishingMeansBlocked` | aegis-backend/app/services/analytics_service.py:55-75 | An ingest over the threshold that finishes has seen or made an active block |
| `AutoBlock.CommittedEventsSurvive` | aegis-backend/app/services/analytics_service.py:73-75 | Committed events stay in the log, also through the IntegrityError rollback |
| `AutoBlock.JudgedIff` | aegis-backend/app/services/analytics_service.py:46-54 | Exactly the ingests of enabled, qualifying, attributable events go on to count, over a window that ends between the event's creation and now |
| `AutoBlock.InsertUnique` | aegis-backend/app/models/ip_block.py:36-42 | The partial unique index keeps one active block per address, and after an active insert, refused or not, the address has one |
| `AutoBlock.AnalyticsService.Ingest` | aegis-backend/app/services/analytics_service.py:39-42 | Alone, an ingest logs its event and leaves the address blocked exactly when it was already or the window now holds enough violations; a block it adds names their number and is earned; other addresses and rows stay |
| `AutoBlock.AnalyticsService.AutoBlockIfNeeded` | aegis-backend/app/services/analytics_service.py:44-75 | The same for the checking part |
| `AutoBlock.AnalyticsService.CreateBlock` | aegis-backend/app/repositories/ip_block_repository.py:15-21 | Insert, or IntegrityError when the address has an active block |
| `BlockStore.InsertIsACreate` | aegis-backend/app/repositories/ip_block_repository.py:15-21 | An insert under the index, automatic or not, does to the table what an administrator's create request for the row does, and is refused exactly when that is |
| `BlockStore.PublishedIsExactlyActive` | aegis-backend/app/services/proxy_config_service.py:34-88 | In every state of every run of racing ingests and administrators the published addresses are exactly those with an active block, automatic ones included, each once, in id order |
| `Analytics.GroupsAddUp` | aegis-backend/app/repositories/security_event_repository.py:36-55 | The per-type counts add up to the total; the forwarded and limited totals equal their group counts; a type without a group counts for nothing |
| `Analytics.SummaryMeans` | aegis-backend/app/repositories/security_event_repository.py:41-47 | Each figure is the number of events in the window with its event type, or with a status code in its range |
| `Analytics.CountIsCardinality` | aegis-backend/app/repositories/security_event_repository.py:41-47 | A count is the cardinality of the set of matching log positions |
| `Analytics.TotalsAreConsistent` | aegis-backend/app/services/analytics_service.py:90-102 | Blocked and errors are disjoint parts of the total; every figure only grows when the window reaches further back |
| `PolicySystem.AnswersAreCurrent` | reverse-proxy/internal/controlplane/streaming_policy.go:26-36 | Every answer in every run is exactly the latest message decoded before its read, or, if there was none, the last successful fetch, not older than the TTL unless its own fetch failed |
| `PolicySystem.AnswerTiming` | reverse-proxy/internal/controlplane/streaming_policy.go:26-36 | At which step the messages and the fetches behind an answer are counted |
| `PolicySystem.FallsBackIff` | reverse-proxy/internal/controlplane/streaming_policy.go:29-35 | A read goes to the fallback exactly when no message has been decoded |
| `PolicyRuns.StateIsTheActions` | reverse-proxy/internal/controlplane/grpc_policy_subscriber.go:77-88 | Over every run from the start the messages decoded are the decodable payloads of the Message actions, in order, and the successful fetches, the clock and the connection are functions of the actions too |
| `PolicyRuns.ReadsAreCurrent` | reverse-proxy/internal/controlplane/streaming_policy.go:26-36 | A read at step n is answered at once with the last payload that decoded before step n, whatever happens later, and falls back exactly when none had |
| `PolicyRuns.AnswersFollowTheActions` | reverse-proxy/internal/controlplane/streaming_policy.go:26-36 | Every answer of every run in terms of its actions: the last payload that decoded before its read, or, if there was none, the last fetch that had succeeded by the answering step, begun less than a TTL before when it came from the cache |
| `PolicySystem.AnswersAreFinal` | reverse-proxy/internal/controlplane/policy_cache.go:39-65 | No later step changes an answer |
| `PolicySystem.NeverUnavailableAgain` | reverse-proxy/internal/controlplane/policy_cache.go:48-60 | Once any snapshot was obtained, no later call fails, through undecodable messages, disconnects and failing fetches |
| `PolicySystem.FetchRate` | reverse-proxy/internal/controlplane/policy_cache.go:43-64 | An interval of k TTLs holds the beginnings of at most k successful fetches |
| `PolicySystem.RetriesUntilSuccess` | reverse-proxy/internal/controlplane/policy_cache.go:48-60 | A failed refresh extends nothing: every later call asks the source again until one succeeds |
| `PolicySystem.CallThroughCache` | reverse-proxy/internal/controlplane/policy_cache.go:39-65 | A call through the mutex leaves and answers with the content of the sequential cache, and fails exactly when that is empty |
| `PolicyObjects.ClonePolicySnapshot` | reverse-proxy/internal/controlplane/policy_cache.go:67-87 | The copy equals the original in every field and shares no object with anything that existed before |
| `PolicyObjects.CloneRules` | reverse-proxy/internal/controlplane/policy_cache.go:76-85 | Each rule is copied with its burst pointer replaced by a fresh one of equal value |
| `PolicyObjects.CloneJwt` | reverse-proxy/internal/controlplane/policy_cache.go:72-75 | A fresh JWT policy of equal value, or none |
| `PolicyObjects.CopyArray` | reverse-proxy/internal/controlplane/policy_cache.go:76-79 | A fresh backing array with the same elements |
| `PolicyProviders.CachedPolicyProvider.GetPolicy` | reverse-proxy/internal/controlplane/policy_cache.go:39-65 | The object behaves as the sequential cache of PolicySystem, and its answer shares nothing with it |
| `PolicyProviders.CachedPolicyProvider.Store` | reverse-proxy/internal/controlplane/policy_cache.go:62-63 | Content and expiry are replaced by a copy and now + ttl |
| `PolicyProviders.StreamingPolicyProvider.Update` | reverse-proxy/internal/controlplane/streaming_policy.go:20-24 | The live snapshot becomes a copy of what was given; the fallback is untouched |
| `PolicyProviders.StreamingPolicyProvider.GetPolicy` | reverse-proxy/internal/controlplane/streaming_policy.go:26-36 | The live snapshot when there is one, without touching the fallback; otherwise the fallback's call; the answer shares nothing with either |
| `PolicyProviders.Subscribe` | reverse-proxy/internal/controlplane/grpc_policy_subscriber.go:77-88 | The receive loop: the live snapshot ends as the last message that decoded, or as it was |
| `PolicyProviders.CachedAnswersAreIsolated` | reverse-proxy/internal/controlplane/policy_cache.go:39-65 | Arbitrary writes to an answer do not change the next one |
| `PolicyProviders.UpdatesAreIsolated` | reverse-proxy/internal/controlplane/streaming_policy.go:20-24 | Arbitrary writes to the object passed to Update do not reach the provider |
| `PolicyProviders.LiveAnswersAreIsolated` | reverse-proxy/internal/controlplane/streaming_policy.go:26-36 | Arbitrary writes to a live answer do not reach the provider |
| `ActiveTable.RunKeepsInv` | aegis-backend/app/services/rate_limit_rule_service.py:107-244 | For any table whose update stores the tuple it validated: over every serialised run of create, update and disable, one active row per key, every row valid, and no lookup finds several rows |
| `ActiveTable.HandleKeepsInv` | aegis-backend/app/services/rate_limit_rule_service.py:107-244 | Each request keeps the invariant and never meets MultipleResultsFound |
| `ActiveTable.OnlyAdministrators` | aegis-backend/app/services/rate_limit_rule_service.py:60-66 | For every table and every request: Unauthorized exactly for an unknown actor, Forbidden exactly for a user who is no administrator, and in both cases nothing changes |
| `ActiveTable.AdministratorsAreServed` | aegis-backend/app/services/rate_limit_rule_service.py:107-244 | What an administrator gets for every request: each refusal in its order, and otherwise exactly the row stored, its columns as asked |
| `ActiveTable.SeveralFoundIsAnError` | aegis-backend/app/repositories/rate_limit_rule_repository.py:66-91 | Two active rows under the key would be MultipleResultsFound |
| `ActiveTable.LookupFindsAtMostOne` | aegis-backend/app/repositories/rate_limit_rule_repository.py:66-91 | With one active row per key the one-or-none query never sees two |
| `ActiveTable.OtherRowsUntouched` | aegis-backend/app/services/rate_limit_rule_service.py:107-244 | A request changes at most its own row, and nothing when refused |
| `ActiveTable.CreateConflictIff` | aegis-backend/app/services/rate_limit_rule_service.py:85-105 | A valid new row is refused as a duplicate exactly when it is active and its key is taken |
| `ActiveTable.Ordered` | aegis-backend/app/repositories/rate_limit_rule_repository.py:93-100 | Ascending, and exactly the given ids |
| `ActiveTable.Service.AssertNoActiveConflict` | aegis-backend/app/services/rate_limit_rule_service.py:85-105 | The duplicate check is the one the invariant was proved for |
| `ActiveTable.Service.CreateRow` | aegis-backend/app/services/rate_limit_rule_service.py:107-136 | The object's create is the operation of the proved runs, with Unauthorized and Forbidden exactly for those who are no administrators, changing nothing |
| `ActiveTable.Service.UpdateRow` | aegis-backend/app/services/rate_limit_rule_service.py:177-224 | The object's partial update is the operation of the proved runs, with Unauthorized and Forbidden exactly for those who are no administrators, changing nothing |
| `ActiveTable.Service.DisableRow` | aegis-backend/app/services/rate_limit_rule_service.py:226-244 | The object's disable is the operation of the proved runs, with Unauthorized and Forbidden exactly for those who are no administrators, changing nothing |
| `RateLimitRules.RulesStaySound` | aegis-backend/app/services/rate_limit_rule_service.py:68-244 | Over every serialised run: a row is global exactly when its value is null, no two active rows share a scope, and the lookup never sees two |
| `RateLimitRules.ValidatedIsStored` | aegis-backend/app/services/rate_limit_rule_service.py:177-224 | The scope tuple and status checked by an update are the ones stored, also when it moves the rule or nulls its value |
| `RateLimitRules.StoredFieldByField` | aegis-backend/app/repositories/rate_limit_rule_repository.py:25-33 | Each column is written from its own field; left-out fields and the author stay |
| `RateLimitRules.CreateSucceedsIff` | aegis-backend/app/services/rate_limit_rule_service.py:107-136 | Exactly which rows an administrator can create; the row is stored as given under the next id, and a refusal changes nothing; a scope type that does not fit its value is Invalid |
| `RateLimitRules.DisableIsUndoneByEnabling` | aegis-backend/app/services/rate_limit_rule_service.py:226-244 | Disabling changes nothing but the status: enabling the row again gives the table back |
| `RateLimitRules.UpdateSucceedsIff` | aegis-backend/app/services/rate_limit_rule_service.py:177-224 | Exactly which updates by an administrator succeed |
| `RoutePermissions.PermissionsStaySound` | aegis-backend/app/services/route_permission_service.py:24-94 | Over every serialised run no two active permissions share a method and path |
| `RoutePermissions.ValidatedIsStored` | aegis-backend/app/services/route_permission_service.py:64-84 | The route and status checked by an update are the ones stored |
| `RoutePermissions.StoredFieldByField` | aegis-backend/app/repositories/route_permission_repository.py:22-29 | Each column is written from its own field |
| `RoutePermissions.CreateSucceedsIff` | aegis-backend/app/services/route_permission_service.py:32-45 | Exactly which rows an administrator can create; the row is stored as given under the next id, and a refusal changes nothing |
| `RoutePermissions.DisableIsUndoneByEnabling` | aegis-backend/app/services/route_permission_service.py:86-94 | Disabling changes nothing but the status: enabling the row again gives the table back |
| `RoutePermissions.UpdateSucceedsIff` | aegis-backend/app/services/route_permission_service.py:64-84 | Exactly which updates by an administrator succeed |
| `IpBlocks.BlocksStaySound` | aegis-backend/app/services/ip_block_service.py:34-140 | Over every serialised run no two active blocks share an address |
| `IpBlocks.ValidatedIsStored` | aegis-backend/app/services/ip_block_service.py:96-125 | The status checked by an update is the one stored, and the address never moves |
| `IpBlocks.StoredFieldByField` | aegis-backend/app/repositories/ip_block_repository.py:23-29 | Reason and status are written from their own fields; address, origin and author stay |
| `IpBlocks.CreateSucceedsIff` | aegis-backend/app/services/ip_block_service.py:49-66 | Exactly which rows an administrator can create; the row is stored as given under the next id, and a refusal changes nothing |
| `IpBlocks.UpdateSucceedsIff` | aegis-backend/app/services/ip_block_service.py:96-125 | Exactly which updates by an administrator succeed |
| `IpBlocks.DisableIsUndoneByEnabling` | aegis-backend/app/services/ip_block_service.py:127-140 | Disabling changes nothing but the status: enabling the row again gives the table back |
| `IpBlocks.ReactivationIff` | aegis-backend/app/services/ip_block_service.py:96-125 | A disabled block comes back on exactly when no other block of its address is on |
| `JwtConfigs.PublishedIsLastActivated` | aegis-backend/app/services/proxy_config_service.py:42-56 | Over every order of transactions: one active row at most, the one last activated; access TTL below refresh TTL; published is exactly that row's projection, absent only while nothing was ever activated |
| `JwtConfigs.PublishedFields` | aegis-backend/app/services/proxy_config_service.py:42-56 | The policy carries the active row's id, algorithm, issuer and audience, and as key the decrypted signing key for HS256, the public key otherwise |
| `JwtConfigs.ActivationLasts` | aegis-backend/app/repositories/jwt_config_repository.py:55-65 | Once a configuration has been activated every later state has exactly one active |
| `JwtConfigs.ActivationTouchesStatusOnly` | aegis-backend/app/repositories/jwt_config_repository.py:55-65 | An activation keeps the ids and every row up to its status, and leaves active exactly the row named |
| `JwtConfigs.CommitsTouchOneRow` | aegis-backend/app/repositories/jwt_config_repository.py:15-53 | An insert adds its row disabled, or nothing if a check fails; an update changes its own row alone, column by column, and exactly nothing when a check fails |
| `JwtConfigs.CommitAllInv` | aegis-backend/app/repositories/jwt_config_repository.py:45-65 | Every sequence of transactions keeps the checks, the decryptable keys and the single active row |
| `JwtConfigs.JwtConfigService.CreateConfig` | aegis-backend/app/services/jwt_config_service.py:112-135 | The stored row holds the given values with the key encrypted, disabled; nothing else changes |
| `JwtConfigs.JwtConfigService.UpdateConfig` | aegis-backend/app/services/jwt_config_service.py:166-206 | When an update succeeds or how it is refused, and that only its four columns change, each from its own field |
| `JwtConfigs.JwtConfigService.ActivateConfig` | aegis-backend/app/services/jwt_config_service.py:208-224 | Who may, and whether the row exists; every row keeps all but its status, and exactly the one named is active, also when it already was |
| `JwtConfigs.JwtConfigService.DisableConfig` | aegis-backend/app/services/jwt_config_service.py:226-250 | Never changes a row: the active one is refused, the others are disabled already |
| `ProxyConfig.SnapshotIsExact` | aegis-backend/app/services/proxy_config_service.py:34-88 | In every reachable store the lists are exactly the active rows in ascending id order, with pairwise distinct scopes, routes and addresses, and the JWT policy that of the last activated row |
| `ProxyConfig.PublishedCanBeReadBack` | aegis-backend/app/services/proxy_config_service.py:57-87 | Projections lose only name and author: the active row can be rebuilt from what is published |
| `ProxyConfig.PublishedIff` | aegis-backend/app/services/proxy_config_service.py:57-87 | A rule, threat rule or permission is published exactly when its row is active, with the row's own values |
| `ProxyConfig.ListedKeysDistinct` | aegis-backend/app/services/proxy_config_service.py:57-87 | Two places of a published list never show the same key |
| `ProxyConfig.SelectRateLimitRule` | reverse-proxy/internal/proxy/rate_limiter.go:221-245 | The key's rule, else the route's, else the global one, else none |
| `ProxyConfig.ChoiceIsUnique` | reverse-proxy/internal/proxy/rate_limiter.go:221-245 | On published lists first, last and any match are the same rule, in any order |
| `IpBlocker.IsBlocked` | reverse-proxy/internal/proxy/ip_blocker.go:26-53 | The early-return loop takes the decision that the lemmas below are about, behind the two error branches |
| `IpBlocker.BlockedIffListed` | reverse-proxy/internal/proxy/ip_blocker.go:26-53 | Under a readable policy a peer is blocked exactly when some entry is the same peer, up to mapping and zone |
| `IpBlocker.DecisionIff` | reverse-proxy/internal/proxy/ip_blocker.go:26-53 | Each of the decisions exactly: invalid client address, then missing policy, then blocked or allowed by the list |
| `IpBlocker.SamePeerSameDecision` | reverse-proxy/internal/proxy/ip_blocker.go:26-53 | Peers whose hosts differ by mapping or zone only get the same decision under any policy |
| `IpBlocker.ParseClientIp` | reverse-proxy/internal/proxy/ip_blocker.go:55-66 | Succeeds exactly when the host can be read, and gives the plain address (not mapped, no zone) of the same peer, a fixed point of canonicalisation |
| `IpBlocker.PortIsIgnored` | reverse-proxy/internal/proxy/ip_blocker.go:55-66 | The host is what is left without blanks, port and brackets; two peers that differ in the port alone get the same decision |
| `IpBlocker.ScanIff` | reverse-proxy/internal/proxy/ip_blocker.go:40-52 | For every list: blocked exactly when a match comes before any unparsable entry; allowed exactly when all parse and none matches |
| `IpBlocker.DecisionIsMembership` | reverse-proxy/internal/proxy/ip_blocker.go:40-52 | When all entries parse the decision is set membership of the canonical address |
| `IpBlocker.OrderMattersIff` | reverse-proxy/internal/proxy/ip_blocker.go:40-52 | Reordering the list can change the decision exactly when some entry matches and some does not parse |
| `IpBlocker.CanonicalIdempotent` | reverse-proxy/internal/proxy/ip_blocker.go:65 | Canonical addresses are fixed points and never IPv4-mapped |
| `IpBlocker.CanonicalForms` | reverse-proxy/internal/proxy/ip_blocker.go:48 | An IPv4 peer and its mapped form (section 2.5.5.2 of RFC 4291) are one address, and zones do not matter |
| `IpBlocker.SameCanonicalIff` | reverse-proxy/internal/proxy/ip_blocker.go:48 | When two addresses count as the same, exactly |
| `IpBlocker.CanonicalIsThePlainForm` | reverse-proxy/internal/proxy/ip_blocker.go:65 | The canonical form is the one plain address of a peer |
| `Upserts.UpsertSettles` | scripts/seed_dev_data.py:133-176 | An upsert leaves a row that the same upsert, with other randomness, finds again and has nothing to change in |
| `Upserts.UpsertWritesOneRow` | scripts/seed_dev_data.py:133-176 | One row is written: a matching one is overwritten, or, exactly when none matches, one is added under the next id; all others stay |
| `Upserts.UpsertAllSettles` | scripts/seed_dev_data.py:317-421 | A list of disjoint upserts leaves every one of them settled |
| `Upserts.SettledAllIsNoop` | scripts/seed_dev_data.py:317-421 | Upserting a settled list changes nothing and finds the same rows |
| `Upserts.PreferringActiveKeepsOne` | scripts/seed_dev_data.py:192-230 | An upsert that prefers the active row never makes a second one for its key |
| `Upserts.FirstByIdKeepsOneIff` | scripts/seed_dev_data.py:285-314 | An upsert by lowest id keeps one active row exactly when no later row of its key was active |
| `Seeding.RetireOneEffect` | scripts/seed_dev_data.py:113-130 | Retiring touches only the row with the old address: a retired address, a retired name, inactive, all else kept; addresses stay unique |
| `Seeding.RetirementPrefersTheName` | scripts/seed_dev_data.py:113-130 | The retired user gets the named address, and the numbered one exactly when the named one is taken |
| `Seeding.RetireAllEffect` | scripts/seed_dev_data.py:113-130 | After retirement nobody has an old address and the seeded users are as they were |
| `Seeding.SeedUsersIdempotent` | scripts/seed_dev_data.py:81-130 | A second run finds the same users and changes no user row |
| `Seeding.SeedUsersSucceedsIff` | scripts/seed_dev_data.py:81-130 | The users' part succeeds exactly when no user with an old address has both of its new addresses taken by others or a name too long for the mark of a retired user |
| `SeedRun.SeedingIsIdempotent` | scripts/seed_dev_data.py:317-421 | From any starting database, a second run with the same secrets succeeds and leaves all five tables equal up to re-encryption of the signing key |
| `SeedRun.SeedingSucceedsIff` | scripts/seed_dev_data.py:317-421 | A run succeeds exactly when every user with an old address can be retired (one of its two new addresses is free and its name has room for the mark) and the key prefixes fit their column |
| `SeedRun.SeedingLeavesTheDataset` | scripts/seed_dev_data.py:317-421 | Whatever was there before, a successful run leaves the four users, three keys, three rules and three permissions with the promised names and values |
| `SeedRun.SeedingTouchesNothingElse` | scripts/seed_dev_data.py:317-421 | At most three keys, three rules, three permissions and one configuration are written; every other row stays, a configuration up to its status |
| `SeedRun.KeyPatchKeeps` | scripts/seed_dev_data.py:133-176 | A key that is found keeps its owner, name and last use, and its hash whenever that verifies the secret |
| `SeedRun.SeedingKeepsOneActive` | scripts/seed_dev_data.py:233-282 | Exactly one active JWT configuration after a run, the seeded one; no scope gets a second active rule |
| `SeedRun.RuleUpsertKeepsOneActive` | scripts/seed_dev_data.py:179-230 | Seeding a rule never makes a second active rule for any scope |
| `SeedRun.PermissionUpsertKeepsOneActiveIff` | scripts/seed_dev_data.py:285-314 | Seeding a permission keeps one active per route exactly when no later row of the route was active |
| `SeedRun.PermissionUpsertCanDoubleActive` | scripts/seed_dev_data.py:285-314 | A table on which it does not |
| `SeedRun.UpsertConfigSettles` | scripts/seed_dev_data.py:233-282 | A second upsert of the configuration changes only its ciphertext |
| `SeedRun.ConfigAsSeeded` | scripts/seed_dev_data.py:233-282 | The seeded configuration, the first under its name or a new one, is the only active one, has the seeded values, passes the checks, and its key decrypts to the secret; the others change in their status alone |
| `SeedRun.Session.UpsertUsers` | scripts/seed_dev_data.py:81-110 | The loop over the users is the list upsert |
| `SeedRun.Session.RetireLegacyUsers` | scripts/seed_dev_data.py:113-130 | The loop over the old addresses, aborted by the unique index |
| `SeedRun.Session.SeedDevData` | scripts/seed_dev_data.py:317-421 | One transaction: everything, or nothing |
| `WordWrap.Wrap` | docs/report/render_additional_report_evidence.py:35-48 | The loop over the words builds the greedy layout |
| `WordWrap.WrapKeepsWords` | docs/report/render_additional_report_evidence.py:35-48 | Reading the lines back gives the text's words, in order |
| `WordWrap.WrapFitsIff` | docs/report/render_additional_report_evidence.py:35-48 | Every line is within the width exactly when every word is |
| `WordWrap.EmptyLineIff` | docs/report/render_additional_report_evidence.py:38-48 | An empty line appears exactly when the first word is wider than the line |
| `WordWrap.WrapIsOptimal` | docs/report/render_additional_report_evidence.py:35-48 | No layout of the same words in lines within the width, with whatever spacing, uses fewer lines |
| `WordWrap.GroupsOptimal` | docs/report/render_additional_report_evidence.py:38-48 | The same for any split of any word sequence into groups that fit |
| `WordWrap.SplitJoin` | docs/report/render_additional_report_evidence.py:36 | Joined words split into themselves |
| `WordWrap.JoinSplitNoLonger` | docs/report/render_additional_report_evidence.py:36 | A line is never shorter than its words joined by single spaces |

## Left out

- ActiveTable.RunKeepsInv: stated for serialised requests; rate-limit rules and route permissions have no unique index, so two requests that check before either stores could both succeed. IP blocks are covered under concurrency by the index, in AutoBlock and BlockStore.
- ApiKeys.DecodeIff: letters outside ASCII are not folded to lower case.
- ApiKeys.FindMatch: candidates are taken as rows of one table state; bcrypt is the exact `Verify`.
- PolicyObjects.ClonePolicySnapshot: a nil slice and an empty one are not told apart.
- EventReporter.AsyncEventReporter.Run: a send and the steps around it take no time in the object; sends that take time, and what is reported during one, are in the state machine.
- PolicyProviders.Subscribe: one connection at a time; the reconnect loop and its delay are the Connect and Disconnect steps of PolicySystem.
- AutoBlock.AnalyticsService.Ingest: one ingest with nothing in between; the races are in the state machine.
- The HTTP response of an ingest that loses the race for a block: only its event row is claimed.
- SeedRun.SeedingIsIdempotent: up to the ciphertext of the signing key, and with `updated_at` not modelled.
- `created_at` and `updated_at` columns, other than an event's; pagination and the list endpoints; response schemas.
- Threat-detection rules as a service, regular-expression matching, JWT signature checking: rules appear only as rows to publish.
- The proxy's request handler and its Redis scripts for rate limiting; of `rate_limiter.go` only the choice of a rule.
- HTTP, gRPC, SQL, Redis protocol and JSON encoding: each is a step that succeeds, fails or yields a decoded value.
- Retries inside client libraries, process crashes other than a lost command or reply, and clock skew between hosts.
- Frontend, routers, login, migrations, configuration loading, logging, the remaining report builders and the demonstration servers.
