# Verified model of the payment backend's stateful core

This project models the parts of the mobile-money/Stellar backend that carry state over unbounded
runs, or algebra over unbounded inputs, and proves what they guarantee.

| files | component |
|---|---|
| `Idempotency.dfy`, `IdempotencyService.dfy`, `IdempotencyProofs.dfy`, `IdempotencyProgress.dfy` | idempotent transaction creation, as interleaved requests with leases, read replicas and an optional unique index |
| `ModularArithmetic.dfy`, `ZkBalance.dfy`, `ZkBalanceProofs.dfy`, `ZkBalanceSoundness.dfy`, `ZkBalanceNonces.dfy` | Pedersen commitments with the opening, equality and bit proofs |
| `Wrappers.dfy`, `Collections.dfy`, `RedisKeys.dfy` | shared results, facts about collections, and the Redis keys with a time to live |
| `OAuthStore.dfy`, `OAuthFlow.dfy` | the two OAuth token stores and the code and refresh exchanges |
| `JwtKeys.dfy`, `JwtSessions.dfy` | refresh-key rotation with its grace period, and the cap on live sessions |
| `Velocity.dfy` | the fixed-window velocity counter |
| `Lockout.dfy` | account lockout |
| `RedisPool.dfy` | the ingest node's Redis connection pool |
| `VersionedCipher.dfy`, `VersionedCipherProofs.dfy`, `IdealCipher.dfy` | the versioned ciphertext format, decryption over a key ring, and rotation |
| `Subscriptions.dfy` | per-user subscription leases and the iterator wrapper that releases them |
| `Replicas.dfy` | the round-robin replica chooser and the read with retries |

Code that updates state in place is a class whose methods are proved equal to a function of the
old state; the theorems are about runs of those functions. Protocols whose steps overlap are
interleaved atomic actions, one for what runs between two awaits. Clocks, nonces, random tokens
and the outcome of foreign calls are parameters. Times are milliseconds as integers.

Where the code does not keep a property that its documentation or its design suggests, the code is
kept as it is, a lemma at a concrete input shows the failure, and the exact condition is proved:

- **Idempotency.** `docs/api/versioning.md` promises that a replayed key returns the original
  response without creating a second transaction. But `updateStatus` releases a row's key as soon as
  its transaction reaches a terminal status (src/models/transaction.ts:485-495): a replay after that,
  with no overlap and long before the key expires, creates and publishes a second row in every
  deployment (`ReplayAfterRelease`). Beside that, `database/migrations/add_transaction_idempotency.sql`
  creates a unique index on the key, `migrations/009_partition_transactions.sql` drops it and leaves a
  plain one, and `migrations/20260425_add_transaction_indexes.sql` says that the application enforces
  uniqueness. The application's leases last 15 seconds and may run out while their holder works, and
  `findActiveByIdempotencyKey` reads from replicas (`LeaseRace`, `StaleReplica`). So the full promise,
  one unexpired row per key, every success naming the first row until it expires, and one job per
  row, is kept exactly where no row loses its key early and there is the unique index, or leases
  never run out and reads are never stale; or where keys have no lifetime (`SafeExactlyWhenProtected`).
  With early release, what is left is that at most one row per key is unexpired and holds it, under
  the same guards (`UniqueExactlyWhenGuarded`). Whether a request about to answer names the row that
  is current then is a third question, with its own exact condition (`CurrentExactlyWhenUpToDate`;
  `LateAnswer`, `MissedAnswer`, `OutdatedAnswer` and `OvertakenAnswer` are the runs that break it). A
  row whose publish fails stays active under its key, answers later requests and never gets a job
  (`DroppedPublish`, `NoJobExactlyWhenDropped`).
- **Bit proof.** Over all nonces modulo the order each bit explains every accepted proof with one
  nonce triple. `randomScalar` never draws zero, so with the code's sampler this holds exactly
  where the parts it draws or implies are nonzero (`ReturnableExactly`); `ZeroChallengeTellsBits`
  is a proof that only one of the two provers can return.
- **Velocity.** An interval of one window with both ends included may hold `2 * limit` allowed
  calls, and that bound is reached (`BoundAttained`) when a key is gone at its deadline; without its
  last instant it is `2 * limit - 1`.
- **JWT sessions.** The set of session ids takes the life of the latest registration. When that is
  shorter than an earlier session's, the earlier one escapes the count: on whole seconds when a
  later session expires earlier (`ShorterSessionBreaksCap`), and on the code's millisecond clock
  even when none does, because lifetimes are whole seconds (`RoundedLifetimeBreaksCap`). Over every
  ordered run the cap is safe, whatever well-timed registrations follow, exactly when no
  registration is outlived by a session that stays (`CapSafeExactly`). The session just registered is
  itself evicted exactly when as many others as the cap come after it in the set (`EvictedExactly`),
  which takes a registration in the same millisecond (`SameInstantEvictsNewest`); a later one always
  lives (`LatestSessionLives`).
- **JWT keys.** Every unexpired refresh token finds its key iff rotations, from the first
  replacement on, are seven days apart in whole seconds (`VerifyExactlyWhenApart`;
  `DailyRotationBreaksTokens` is a history where one does not). The comments say that a previous key is
  evicted after its grace period; it stays for good exactly when its superseding second is not
  configured (`NeverEvictedExactly`).
- **Lockout.** `TTL` is a rounded number of seconds, and the code takes a lock with a rounded
  remainder of zero for none. Over every ordered history the keys follow the fold, and lock and
  counter are never alive together, exactly when MAX is at most 1 or no failure falls into the last
  half second of a lock (`KeysAreTheFoldExactly`); on a whole-second clock none does. In
  `HalfSecondFailures` they are alive together, and the next failure reports a lock until 119800
  that does not exist: `SET NX` keeps the old lock, which ends at 60000. A reported lock is the
  stored one exactly when no older one is alive (`ReportTrueExactly`, `ReportsTrueExactly`).
  The window is opened by its first failure and does not slide, and `adminUnlock` answers true for
  a pending counter as well as for a lock (`UnlockWithoutLock`), unlike the comments beside them.
- **Ciphertexts.** The key ring accepts version names that the parser does not. Encrypting or
  rotating to such a name gives a ciphertext that cannot be read back (`SpacedNameUnreadable`); for
  every other name the round trips hold. `fromVersion` is documented as the version the input was
  decrypted with; it is the input's tag, which is the same exactly when the ring's key for that tag is
  the right one (`FromVersionTrueExactly`, `FallbackMisreported`).
- **Subscriptions.** The memory figure is clamped at zero and forgotten with the last lease, so it
  is exact for non-negative estimates; `NegativeEstimateInexact` is a run where it is not, and
  `ExactThroughoutExactly` gives the condition over every run.
- **Pool.** The minimum holds as long as replacements succeed; `FailedReplacementLeavesNone` is a
  run without a connection, and `SuppliedExactly` gives the condition over every run.

## Model

| member | source | states |
|---|---|---|
| `IdempotencyProofs.SafeExactlyWhenProtected` | src/controllers/transactionController.ts:702-801 | Over all runs of any number of requests: one unexpired row per key, every success for a key names its first row until that row expires, and one job per row, if and only if keys have no lifetime, or no row loses its key early and there is the unique index or non-expiring leases with fresh reads |
| `IdempotencyProofs.ReplayAfterRelease` | src/models/transaction.ts:485-495 | Where a row may lose its key early, in every deployment: two requests for one key, one after the other and before the first row expires, each create and publish a row |
| `IdempotencyProofs.UniqueExactlyWhenGuarded` | src/controllers/transactionController.ts:702-801 | Over all runs, early release or not: one unexpired row holds a key, every success names the first row while it holds the key and is unexpired, and one job per row, if and only if there is the unique index, or non-expiring leases with fresh reads, or no key lifetime |
| `IdempotencyProofs.ReachableInv` | src/controllers/transactionController.ts:702-801 | In every deployment every reachable state satisfies the invariant: rows only ever lose their key, each request's result names a row inserted for its key, and each row is published, dropped or about to be published by one request, exclusively |
| `IdempotencyProofs.StepInv` | src/controllers/transactionController.ts:702-801 | Every action of every request, lease expiry, clock tick and key release keeps the invariant |
| `IdempotencyProofs.LeaseRace` | migrations/009_partition_transactions.sql:73-74 | Without the unique index, a lease that runs out before an insert lets two requests insert the same key |
| `IdempotencyProofs.StaleReplica` | src/models/transaction.ts:1001-1018 | Without the unique index, a lagging replica lets a second, non-overlapping request insert the same key |
| `IdempotencyProofs.CurrentExactlyWhenUpToDate` | src/controllers/transactionController.ts:702-801 | Over all runs, every request whose last step before its answer is to drop the key's lease names the key's unexpired row if there is one, if and only if keys have no lifetime, or leases never run out and reads are fresh or made up for by the unique index without early release |
| `IdempotencyProofs.LateAnswer` | src/controllers/transactionController.ts:795-801 | Where leases may run out, a request that outlives its lease and its row is about to answer with that row while another one is unexpired |
| `IdempotencyProofs.OvertakenAnswer` | src/models/transaction.ts:485-495 | Where rows may lose their key early as well, a request that owns its key's lease to the end answers with such a row while another one is unexpired |
| `IdempotencyProofs.MissedAnswer` | src/models/transaction.ts:1001-1018 | Without the unique index and with stale reads, a request about to answer with its own row while an earlier one is unexpired |
| `IdempotencyProofs.OutdatedAnswer` | src/models/transaction.ts:1001-1018 | With stale reads and early release, a request about to answer with a released row while another one is unexpired, without overlap |
| `IdempotencyProofs.DroppedPublish` | src/controllers/transactionController.ts:723-778 | A reachable state with one unexpired row, no job, and a request answered with that row |
| `IdempotencyProofs.RowsPublishedOnce` | src/controllers/transactionController.ts:759-778 | In every deployment no row is published twice, and every request answered as the creator has its row's job in the queue |
| `IdempotencyProofs.ReusePublishesNothing` | src/controllers/transactionController.ts:702-792 | Over any run a request publishes at most once, and one that ends on a reuse path not at all |
| `IdempotencyProofs.NoJobExactlyWhenDropped` | src/controllers/transactionController.ts:723-778 | Of the rows whose creator has tried to publish, the ones without a job in any continuation are exactly those whose publish failed |
| `IdempotencyProgress.KeyedRequestAnswers` | src/controllers/transactionController.ts:702-802 | In any state, a request whose leases are free, run alone with fresh reads and nothing throwing, answers with its key's newest unexpired row; where there is none it creates one that holds the key for its lifetime, publishes one job, and leaves the leases as it found them |
| `IdempotencyProgress.UnkeyedRequestAnswers` | src/controllers/transactionController.ts:702-802 | So does a request without a key: it always creates a row and publishes one job |
| `IdempotencyProgress.InnerCheckAnswers` | src/controllers/transactionController.ts:714-778 | From the check inside the phone's lease: the unexpired row if there is one, otherwise a new row with its job |
| `IdempotencyProgress.InsertAnswers` | src/controllers/transactionController.ts:723-790 | From the insert: a new row with its job, or, when the index refuses it, the key's unexpired row, or the error when there is none |
| `IdempotencyProgress.RecoveryAnswers` | src/controllers/transactionController.ts:780-792 | After a unique violation: the answer names the key's newest unexpired row, and is the error iff there is none; nothing is inserted or published and both leases are dropped |
| `IdempotencyProgress.ViolationAnswers` | src/controllers/transactionController.ts:546-552 | The same for a violation of any other index, and the error for a request without a key |
| `IdempotencyProgress.ThrowingFails` | src/controllers/transactionController.ts:780-793 | A request one of whose calls throws otherwise ends in the error, and inserts and publishes nothing after that |
| `IdempotencyProgress.StaleInsertRecovers` | src/controllers/transactionController.ts:780-789 | With the unique index, a request that twice read an old version answers with the unexpired row |
| `IdempotencyProgress.SoloReachable` | src/controllers/transactionController.ts:702-801 | Such a request's steps are a run of the protocol |
| `IdempotencyProgress.OthersLeasesKept` | src/utils/lock.ts:116-127 | No step of a request takes or gives back a lease another one holds |
| `Idempotency.ReleaseExpired` | src/models/transaction.ts:988-999 | Releasing changes nothing but columns set to null: the key's expired rows all lose it, and no unexpired row of any key does |
| `Idempotency.FindActive` | src/models/transaction.ts:1001-1018 | The newest unexpired row of the key, and none exactly when the key has none |
| `IdempotencyService.TransactionController.constructor` | src/controllers/transactionController.ts:702-802 | The initial state: no rows, leases or jobs, and every request before its first step |
| `IdempotencyService.TransactionController.AcquireKeyLock` | src/controllers/transactionController.ts:795-801 | The lease of the key when it is free, otherwise the request fails |
| `IdempotencyService.TransactionController.ReleaseExpiredKey` | src/controllers/transactionController.ts:554-557 | The whole new state after the release statement of a lookup, in each of the three places that look up |
| `IdempotencyService.TransactionController.FindActiveRow` | src/controllers/transactionController.ts:554-559 | The whole new state after a find answered by any version of the table, and the row found when it is the present one |
| `IdempotencyService.TransactionController.AcquirePhoneLock` | src/controllers/transactionController.ts:711-722 | The lease of the phone number when it is free, otherwise the request fails and unwinds |
| `IdempotencyService.TransactionController.CreateRow` | src/controllers/transactionController.ts:723-738 | One new row, or none on a unique violation or another error, which are told apart |
| `IdempotencyService.TransactionController.PublishJob` | src/controllers/transactionController.ts:759-778 | The job is queued, or the row is left without one and the request fails |
| `IdempotencyService.TransactionController.ReleaseTerminalKey` | src/models/transaction.ts:974-986 | The row loses its key; nothing else changes |
| `IdempotencyService.TransactionController.ReleasePhoneLock` | src/controllers/transactionController.ts:780-793 | The lease is given back if still owned; a unique violation of a keyed request leads to a new lookup |
| `IdempotencyService.TransactionController.ReleaseKeyLock` | src/utils/lock.ts:116-127 | The lease is given back if still owned and the request answers; a throwing release turns the answer into a failure |
| `ZkBalanceProofs.OpeningAcceptedExactly` | src/crypto/zkBalanceProof.ts:218-259 | For all nonces and hashes the verifier accepts the prover's opening proof iff the pair opens the commitment or the challenge is zero |
| `ZkBalanceProofs.EqualityAcceptedExactly` | src/crypto/zkBalanceProof.ts:278-317 | For all nonces and hashes the verifier accepts the prover's equality proof iff both commitments hide the same value modulo the order or the challenge is zero |
| `ZkBalanceProofs.BitProverCommits` | src/crypto/zkBalanceProof.ts:344-359 | The bit prover refuses anything but 0 and 1 and returns a commitment to its bit and blinding |
| `ZkBalanceProofs.BitProofsAccepted` | src/crypto/zkBalanceProof.ts:344-432 | Every proof the bit prover returns is accepted, for either bit and any nonces and hash |
| `ZkBalanceSoundness.OpeningSoundness` | src/crypto/zkBalanceProof.ts:242-259 | Two accepted opening proofs with one announcement and two challenges yield a value and blinding that open the commitment |
| `ZkBalanceSoundness.EqualitySoundness` | src/crypto/zkBalanceProof.ts:298-317 | Two such equality proofs yield delta with C1 - C2 = delta*H, so every value C1 opens to, C2 opens to |
| `ZkBalanceSoundness.BitSoundness` | src/crypto/zkBalanceProof.ts:399-432 | Two accepted bit proofs with the same announcements and different total challenges yield a bit and a blinding that open the commitment |
| `ZkBalanceSoundness.ExactlyOneBlinding` | src/crypto/zkBalanceProof.ts:169-195 | Perfect hiding: for every commitment and value exactly one reduced blinding opens it to that value |
| `ZkBalanceSoundness.TwoOpeningsRevealLog` | src/crypto/zkBalanceProof.ts:186-195 | Binding: two openings of one commitment to different values give the logarithm of H to base G |
| `ZkBalanceSoundness.ExactlyOneNonceTriple` | src/crypto/zkBalanceProof.ts:344-432 | Witness indistinguishability: for every accepted proof with reduced scalars and either bit, exactly one reduced nonce triple makes the prover of that bit return it |
| `ZkBalanceSoundness.ReturnableExactly` | src/crypto/zkBalanceProof.ts:145-149 | With nonces from 1 to n-1 a proof can come from the prover of a bit iff that branch's announcement and the other branch's challenge and response are nonzero |
| `ZkBalanceSoundness.ZeroChallengeTellsBits` | src/crypto/zkBalanceProof.ts:344-432 | In a group of order 3, an accepted proof that the prover of 0 can return with nonzero nonces and the prover of 1 cannot |
| `ZkBalanceNonces.ExactlyOneOpeningPair` | src/crypto/zkBalanceProof.ts:218-259 | For every accepted opening proof with reduced scalars and every opening of the commitment, exactly one reduced pair of nonces makes the prover return it |
| `ZkBalanceNonces.ExactlyOneEqualityNonce` | src/crypto/zkBalanceProof.ts:278-317 | For every accepted equality proof with a reduced scalar and every value and blindings that open the commitments, exactly one reduced nonce makes the prover return it |
| `OAuthStore.StoresAnswerAlike` | src/auth/oauth.ts:209-287 | Over every ordered sequence of calls whose records expire no later than their keys, the evicting Redis store gives the answers of the in-memory store |
| `OAuthStore.AgreeStep` | src/auth/oauth.ts:209-287 | One call gets the same answer from two stores that no later read can tell apart, and leaves them so |
| `OAuthStore.SaveIndistinguishableExactly` | src/auth/oauth.ts:246-277 | No later calls tell the stores apart after a save iff the saved record expires no later than its key |
| `OAuthStore.InMemoryOAuthTokenStore.SaveAuthorizationCode` | src/auth/oauth.ts:73-79 | The code maps to the record; nothing else changes |
| `OAuthStore.InMemoryOAuthTokenStore.ConsumeAuthorizationCode` | src/auth/oauth.ts:81-93 | The code is deleted whatever its state, and answered only if unexpired |
| `OAuthStore.InMemoryOAuthTokenStore.SaveRefreshToken` | src/auth/oauth.ts:95-101 | The token maps to the record; nothing else changes |
| `OAuthStore.InMemoryOAuthTokenStore.GetRefreshToken` | src/auth/oauth.ts:103-113 | The unexpired record or none; the store is unchanged |
| `OAuthStore.InMemoryOAuthTokenStore.RevokeRefreshToken` | src/auth/oauth.ts:115-117 | The token is gone; nothing else changes |
| `OAuthStore.RedisBackedStore.SaveAuthorizationCode` | src/auth/oauth.ts:213-227 | The key holds the record for its lifetime |
| `OAuthStore.RedisBackedStore.ConsumeAuthorizationCode` | src/auth/oauth.ts:229-244 | A live key is deleted, and answered only if its record is unexpired |
| `OAuthStore.RedisBackedStore.SaveRefreshToken` | src/auth/oauth.ts:246-260 | The key holds the record for its lifetime |
| `OAuthStore.RedisBackedStore.GetRefreshToken` | src/auth/oauth.ts:262-277 | The record of a live key if unexpired, or none; the store is unchanged |
| `OAuthStore.RedisBackedStore.RevokeRefreshToken` | src/auth/oauth.ts:279-286 | The key is gone; nothing else changes |
| `OAuthFlow.ExchangeAuthorizationCode` | src/auth/oauth.ts:360-395 | The store and response after a code exchange: the code is consumed first, and a token saved only on success |
| `OAuthFlow.ExchangeRefreshToken` | src/auth/oauth.ts:397-429 | The store and response after a refresh: the old token is revoked and a new one saved with the same subject, client and scope |
| `OAuthFlow.RunKeepsGrants` | src/auth/oauth.ts:360-429 | Every run of exchanges keeps: codes burn, one stored token per code, grants constant along rotation chains |
| `OAuthFlow.ExchangesOnce` | src/auth/oauth.ts:360-429 | From the empty store no code succeeds twice, no token is exchanged twice, no two stored tokens descend from one code, and every response carries its grant's subject, client and scope |
| `OAuthFlow.TriedCodeIsBurnt` | src/auth/oauth.ts:81-93 | After any attempt with a code, failed ones included, every attempt in every continuation fails |
| `OAuthFlow.CodeExchangeSucceedsExactly` | src/auth/oauth.ts:360-374 | A code exchange succeeds iff the code was granted, is untried and unexpired, and client and redirect are the grant's |
| `OAuthFlow.RefreshNeedsUnspentToken` | src/auth/oauth.ts:397-408 | A refresh succeeds iff its token descends from a code, was never exchanged, is unexpired, and the client is the grant's |
| `OAuthFlow.CodeSuccess` | src/auth/oauth.ts:376-394 | A successful code exchange adds one token with the grant's own fields and full lifetime, and nothing else |
| `OAuthFlow.RefreshSuccess` | src/auth/oauth.ts:408-428 | A successful refresh replaces one token by another with the same fields and full lifetime, and nothing else |
| `OAuthFlow.EndpointAnswersAlike` | src/auth/oauth.ts:360-429 | Over every timely run of authorizations and exchanges the endpoint answers alike over either store |
| `OAuthFlow.RedisExchangesOnce` | src/auth/oauth.ts:209-429 | Over every timely run against the Redis store: a second use of a code or of an exchanged token is refused, every response carries its grant's subject, client and scope, and at most one readable token descends from any code |
| `RedisPool.RedisConnectionPool.constructor` | ingest-node/src/index.ts:131-142 | An empty pool with the clamped bounds |
| `RedisPool.RedisConnectionPool.FinishInitTurn` | ingest-node/src/index.ts:144-158 | One more connection, pooled and available |
| `RedisPool.RedisConnectionPool.GetConnection` | ingest-node/src/index.ts:185-204 | Throws before the end of initialize; otherwise hands out the last available one, starts opening one below the maximum, or leaves the caller to poll |
| `RedisPool.RedisConnectionPool.FinishOpening` | ingest-node/src/index.ts:202-208 | The opened connection is pooled and in use |
| `RedisPool.RedisConnectionPool.ReleaseConnection` | ingest-node/src/index.ts:234-247 | Nothing for a connection not in use; otherwise back to available, or removed when not ready |
| `RedisPool.RedisConnectionPool.RemoveConnection` | ingest-node/src/index.ts:256-280 | The connection leaves all three collections, and a replacement starts when the pool is below the minimum |
| `RedisPool.RedisConnectionPool.ReplacementReady` | ingest-node/src/index.ts:271-275 | The replacement is pooled and available |
| `RedisPool.RunKeepsPartition` | ingest-node/src/index.ts:185-293 | At every await boundary of every run the pool has no duplicates and is the disjoint union of available and in use, and no connection has two users |
| `RedisPool.StepInv` | ingest-node/src/index.ts:185-293 | Each hand-out, opening, release, close event and replacement keeps that invariant |
| `RedisPool.CloseInUse` | ingest-node/src/index.ts:256-280 | A close event on a connection in use takes it out of the pool with no promise left to put it back |
| `RedisPool.GoneForGood` | ingest-node/src/index.ts:234-280 | Such a connection is never available or in use again in any continuation |
| `RedisPool.ReleaseExactly` | ingest-node/src/index.ts:234-247 | A connection whose command ends becomes available iff it is ready and still in use, and is then the next handed out; any other is gone for good |
| `RedisPool.AvailableWasReady` | ingest-node/src/index.ts:144-280 | Over every run, an available connection was made for the pool or was ready when it was last released |
| `RedisPool.ReplacesExactly` | ingest-node/src/index.ts:269-279 | A removal starts one replacement iff it leaves fewer connections than the minimum |
| `RedisPool.SupplyNeverShort` | ingest-node/src/index.ts:234-280 | From the end of initialize, pool size plus pending replacements is never below the minimum while no replacement fails |
| `RedisPool.ShortExactlyWhenNothingSpare` | ingest-node/src/index.ts:269-279 | A failed replacement leaves the supply short iff it had nothing to spare |
| `RedisPool.SuppliedExactly` | ingest-node/src/index.ts:234-280 | Over every run from the end of initialize, failures included, the supply is never short iff each failed replacement had one to spare |
| `RedisPool.FailedReplacementLeavesNone` | ingest-node/src/index.ts:269-279 | A run after which no connection is left or on its way |
| `RedisPool.InitiallyEmpty` | ingest-node/src/index.ts:131-142 | The empty pool meets the hypotheses of the theorems about runs |
| `JwtKeys.BuildKeyStore` | src/auth/jwt.ts:70-97 | Fails iff no secret is set; holds the active key with its id, or `v1`, without expiry first, and the previous key with its grace end second iff it is configured and its grace period is not over |
| `JwtKeys.NeverEvictedExactly` | src/auth/jwt.ts:70-97 | A configured previous key is in the store at every later instant iff its superseding second is not configured |
| `JwtKeys.EvictedAfterGrace` | src/auth/jwt.ts:70-97 | With that second it is in the store iff seven days from it are not over |
| `JwtKeys.StoreHolds` | src/auth/jwt.ts:70-109 | A key of the rotation history is found iff it is active, or the predecessor within its grace period; with its own secret |
| `JwtKeys.IssuedToken` | src/auth/jwt.ts:212-234 | A refresh token names and is signed by the key active at its issue, with whole-second issue and expiry |
| `JwtKeys.AcceptedExactly` | src/auth/jwt.ts:287-312 | For every environment, token and instant: accepted iff a secret is set, the token is signed with the held key its id names, the active one when it has none, and it has not expired |
| `JwtKeys.VerifiesWhileKeyHeld` | src/auth/jwt.ts:287-312 | An unexpired token verifies iff its key is still in the store |
| `JwtKeys.VerifyExactlyWhenApart` | src/auth/jwt.ts:70-109 | Over every rotation history, every refresh token verifies until it expires iff the rotations are seven days apart |
| `JwtKeys.SevenDaysInMilliseconds` | src/auth/jwt.ts:52-52 | Rotations seven days apart in milliseconds are seven days apart in whole seconds |
| `JwtKeys.DailyRotationBreaksTokens` | src/auth/jwt.ts:70-109 | A history of daily rotations in which an unexpired token finds no key |
| `JwtSessions.SessionRegistry.constructor` | src/auth/jwt.ts:183-203 | No session and no set, under the configured maximum |
| `JwtSessions.SessionRegistry.RegisterJwtSession` | src/auth/jwt.ts:183-203 | The whole new state: the session's key and rank, the set's rewritten lifetime, and the surplus evicted |
| `JwtSessions.SessionRegistry.Evict` | src/auth/jwt.ts:198-202 | The loop removes the keys and ranks of exactly the first sessions of the set |
| `JwtSessions.NewSessionExactly` | src/auth/jwt.ts:190-202 | The registered session holds its binding until its deadline and is in the set, unless it is itself among the evicted; then neither |
| `JwtSessions.EvictedExactly` | src/auth/jwt.ts:195-202 | It is among them iff as many other members as the cap come after it |
| `JwtSessions.DeadlineMeans` | src/auth/jwt.ts:191-194 | Its deadline is its expiry, in the milliseconds of its second, or one second |
| `JwtSessions.LatestSessionLives` | src/auth/jwt.ts:183-203 | Over every ordered run, a session registered later than all before it lives until its deadline and is in the set |
| `JwtSessions.SameInstantEvictsNewest` | src/auth/jwt.ts:195-202 | Two registrations in one millisecond under a cap of one where the second is dead at once |
| `JwtSessions.CapSafeExactly` | src/auth/jwt.ts:183-203 | Over every ordered run on a millisecond clock: after each registration every continuation that is never outlived keeps at most max(1, configured) sessions alive at every instant, iff no registration of the run is outlived by a session that stays |
| `JwtSessions.KeepsCapExactly` | src/auth/jwt.ts:183-203 | From any state: every such continuation keeps the cap iff every live session is in the set for as long as it lives |
| `JwtSessions.SessionsCapped` | src/auth/jwt.ts:183-203 | At every instant of every ordered run that is never outlived at most max(1, configured) sessions are alive |
| `JwtSessions.CoveredExactly` | src/auth/jwt.ts:183-203 | From a covered state, over every ordered run, every live session is in the live set after each registration and later iff no registration is outlived by a session that stays |
| `JwtSessions.RegistrationKeepsCoverExactly` | src/auth/jwt.ts:183-203 | One registration from a covered state leaves every live session in the live set at all later instants iff no session that stays outlives the registered one |
| `JwtSessions.SteadySessionsCapped` | src/auth/jwt.ts:183-203 | With a whole-second clock and non-decreasing expiries the cap holds at every instant |
| `JwtSessions.ShorterSessionBreaksCap` | src/auth/jwt.ts:183-203 | A whole-second run with a shorter later session has three live sessions under a cap of two |
| `JwtSessions.RoundedLifetimeBreaksCap` | src/auth/jwt.ts:191-196 | So has a millisecond run with non-decreasing expiries |
| `JwtSessions.OldestEvicted` | src/auth/jwt.ts:195-202 | The set stays sorted, and the sessions evicted were registered no later than any that stays, and lose their keys |
| `Velocity.VelocityLimiter.CheckAndRecordVelocity` | src/config/redis.ts:301-346 | Denies and counts nothing when Redis is closed; otherwise counts the call and allows it iff the count is within the limit |
| `Velocity.VelocityLimiter.CheckRepeatedly` | src/config/redis.ts:313-346 | The method's answers over a sequence of instants are those of the runs below |
| `Velocity.TtlSeconds` | src/config/redis.ts:313-346 | The largest whole number of seconds in the window, at least 1 |
| `Velocity.MaxAllowed` | src/config/redis.ts:313-346 | The largest whole number not above the limit, at least 0 |
| `Velocity.CallerBound` | src/config/redis.ts:301-346 | In the caller's own numbers: at most twice the limit in any interval of the window's whole seconds, none for a negative limit |
| `Velocity.OtherCountersUntouched` | src/config/redis.ts:301-311 | A call on one key leaves every other counter alone |
| `Velocity.EntryFromOpener` | src/config/redis.ts:301-311 | After any sequence of calls the counter is the call's position in its lifetime, and its deadline is fixed by the call that opened it |
| `Velocity.AllowedExactly` | src/config/redis.ts:301-346 | Each counter lifetime allows exactly its first `limit` calls |
| `Velocity.AtMostTwoLifetimes` | src/config/redis.ts:301-311 | Calls within one window length belong to at most two lifetimes |
| `Velocity.WindowBound` | src/config/redis.ts:301-346 | Any interval of one window length holds at most 2*limit allowed calls, and 2*limit-1 without its last instant |
| `Velocity.BoundAttained` | src/config/redis.ts:301-346 | For every limit and window a run reaches 2*limit |
| `Lockout.LockoutStore.constructor` | src/auth/lockout.ts:22-28 | No attempt or lock keys |
| `Lockout.LockoutStore.GetLockoutStatus` | src/auth/lockout.ts:75-127 | The status read from the two keys, with the lock's times rebuilt from its rounded remaining life |
| `Lockout.LockoutStore.RecordFailedAttempt` | src/auth/lockout.ts:140-262 | The new keys, the status and `justLocked` of a failed attempt |
| `Lockout.LockoutStore.RecordSuccessfulLogin` | src/auth/lockout.ts:267-279 | Both keys are gone |
| `Lockout.LockoutStore.AdminUnlock` | src/auth/lockout.ts:285-310 | Both keys are gone, and the answer says whether one was live |
| `Lockout.KeysAreTheFoldExactly` | src/auth/lockout.ts:140-310 | Over every ordered history: the live keys are those of the fold at every instant, and lock and counter are never alive together at any instant, iff MAX is at most 1 or no failure falls into the last half second of a lock |
| `Lockout.KeysAreTheFold` | src/auth/lockout.ts:140-310 | After every such history the live keys are the fold, whose counter window is opened by its first failure |
| `Lockout.FailureStep` | src/auth/lockout.ts:140-262 | One failure moves the keys as the fold moves and reports a lock exactly when it makes one; in a lock's last half second, exactly when it leaves the fold and what it reports |
| `Lockout.LocksExactlyOnMaxth` | src/auth/lockout.ts:169-220 | The fold locks iff a failure is the MAX-th of an unbroken streak within the window of its first one |
| `Lockout.JustLockedExactly` | src/auth/lockout.ts:140-220 | Over every ordered history a failure reports `justLocked` iff the account does not read as locked and it is the MAX-th of a streak of counted failures within the window of its first one |
| `Lockout.JustLockedOnMaxth` | src/auth/lockout.ts:169-220 | Where the keys follow the fold, these are the failures on which the fold locks |
| `Lockout.ReportTrueExactly` | src/auth/lockout.ts:180-201 | A reported lock is stored with the reported unlock time iff no lock was alive |
| `Lockout.ReportsTrueExactly` | src/auth/lockout.ts:140-220 | Over every ordered history all reported locks are the stored ones iff no failure is the MAX-th of its streak while a lock is alive |
| `Lockout.ReportsTrueWhenNoneClosing` | src/auth/lockout.ts:140-220 | That is so when no failure falls into the last half second of a lock |
| `Lockout.LockNeverMoves` | src/auth/lockout.ts:143-190 | After every history, failures before the stored lock's deadline leave the lock key unchanged |
| `Lockout.HalfSecondFailures` | src/auth/lockout.ts:169-219 | A history with lock and counter alive together, and a next failure that reports a lock until 119800 although no key is alive from 60000 on |
| `Lockout.UnlockWithoutLock` | src/auth/lockout.ts:285-305 | An admin unlock answers true for an account with one pending failure and no lock |
| `Lockout.FailureReports` | src/auth/lockout.ts:169-245 | A failure reports the attempts left after it, or a lock from now with the minutes that cover its duration |
| `Lockout.OthersUntouched` | src/auth/lockout.ts:267-310 | Failures and resets leave other identifiers' keys alone, and a reset leaves all attempts |
| `Lockout.WholeSecondsNeverClosing` | src/auth/lockout.ts:75-127 | On a whole-second clock no failure falls into a lock's last half second |
| `Lockout.StatusIsExact` | src/auth/lockout.ts:75-127 | On a whole-second clock the reported lock, unlock time, minutes left and attempts left are the true ones |
| `Lockout.KeysCoexistExactly` | src/auth/lockout.ts:140-262 | A failure that finds the keys as the fold has them leaves lock and counter alive together iff it falls into the lock's last half second, MAX is above 1 and the window is positive |
| `VersionedCipher.TryVersions` | src/crypto/encryption.ts:332-352 | The loop returns the first of the versions whose key opens the payload |
| `VersionedCipherProofs.ParseFormatExactly` | src/crypto/encryption.ts:267-287 | A printed ciphertext is parsed back to its parts iff its version is well-formed, and refused otherwise |
| `VersionedCipherProofs.AcceptsExactly` | src/crypto/encryption.ts:275-287 | The parser accepts exactly a well-formed version, 24 and 32 hex digits and whole hex bytes, joined by colons |
| `VersionedCipherProofs.NormaliseMeans` | src/crypto/encryption.ts:203-205 | Normalising cuts white space off both ends and lowers ASCII letters, and nothing else |
| `VersionedCipherProofs.CarriesRequestedExactly` | src/crypto/encryption.ts:253-316 | Without an explicit version a ciphertext carries the requested one iff it is configured, and `legacy` otherwise |
| `VersionedCipherProofs.LegacySource` | src/crypto/encryption.ts:409-432 | A legacy rotation reports a version that has the payload's key |
| `VersionedCipherProofs.ReprintAccepted` | src/crypto/encryption.ts:267-287 | Reprinting any accepted string gives it back up to the letter case of its version |
| `VersionedCipherProofs.NormaliseIdempotent` | src/crypto/encryption.ts:203-205 | Normalising a version twice is normalising it once |
| `VersionedCipherProofs.DecryptsExactly` | src/crypto/encryption.ts:323-357 | A versioned ciphertext decrypts to its plaintext iff the ring holds its key, under any version |
| `VersionedCipherProofs.EncryptDecrypt` | src/crypto/encryption.ts:299-357 | Encryption succeeds iff the target is configured, and is sealed with the target's key under its tag and decrypts again iff the target's name is well-formed |
| `VersionedCipherProofs.RotatesExactly` | src/crypto/encryption.ts:374-438 | When a rotation succeeds, when it leaves the payload alone, and what it returns |
| `VersionedCipherProofs.FromVersionTrueExactly` | src/crypto/encryption.ts:359-407 | The version a rotation reports is the one whose key opened the payload iff the ring's key for the payload's tag is the right one |
| `VersionedCipherProofs.FallbackMisreported` | src/crypto/encryption.ts:397-406 | A ring and payload where another version's key opened it |
| `VersionedCipherProofs.RotationKeepsPlaintextExactly` | src/crypto/encryption.ts:374-438 | A rotated ciphertext carries the target's tag and the same plaintext iff the target's name is well-formed |
| `VersionedCipherProofs.SpacedNameUnreadable` | src/crypto/encryption.ts:374-438 | Rotating to a configured version with a space in its name makes the ciphertext unreadable |
| `VersionedCipherProofs.RotatingAgainChangesNothing` | src/crypto/encryption.ts:374-400 | Rotating again to the same well-formed target returns the ciphertext unchanged, whatever the first payload was |
| `VersionedCipherProofs.LegacyRotation` | src/crypto/encryption.ts:374-438 | A three-part payload is rotated iff the ring holds its key, and keeps its plaintext |
| `VersionedCipherProofs.RotationsKeepPlaintext` | src/crypto/encryption.ts:374-438 | Any sequence of rotations, each with a ring that still holds the current key, keeps the plaintext and ends with the last target's tag |
| `IdealCipher.IdealCipherExists` | src/crypto/encryption.ts:146-180 | A cipher that opens what it sealed and rejects other keys exists, so the ciphertext theorems are not vacuous |
| `Subscriptions.ConnectionLimitManager.constructor` | src/graphql/subscriptions.ts:36-46 | No counts, no memory figures, no leases |
| `Subscriptions.ConnectionLimitManager.AcquireLease` | src/graphql/subscriptions.ts:52-67 | A new lease below the cap, otherwise an error that changes nothing |
| `Subscriptions.ConnectionLimitManager.ReleaseLease` | src/graphql/subscriptions.ts:67-81 | The lease's own count and estimate are given back, once |
| `Subscriptions.ConnectionLimitManager.Total` | src/graphql/subscriptions.ts:87-92 | The reported total is the number of outstanding leases |
| `Subscriptions.ReleasingIterator.Next` | src/graphql/subscriptionResolvers.ts:112-119 | A failing `next` releases and rethrows; another changes nothing |
| `Subscriptions.ReleasingIterator.Finish` | src/graphql/subscriptionResolvers.ts:120-128 | `return` and `throw` release the lease |
| `Subscriptions.RunsAreAccurate` | src/graphql/subscriptions.ts:52-96 | After any order and repetition of subscribes and endings each count is the user's outstanding leases and within the cap, entries exist exactly for positive counts, and the memory figure is exact for non-negative estimates |
| `Subscriptions.SubscribesExactlyBelowCap` | src/graphql/subscriptions.ts:52-61 | After every run a user can subscribe iff the outstanding leases are below the cap |
| `Subscriptions.RunKeepsCounts` | src/graphql/subscriptionResolvers.ts:106-129 | The same from any accurate state |
| `Subscriptions.RunKeepsMemory` | src/graphql/subscriptions.ts:52-81 | Non-negative estimates keep the memory figure equal to the outstanding sum |
| `Subscriptions.MemoryStaysExactExactly` | src/graphql/subscriptions.ts:68-80 | A release keeps the memory figure exact iff the estimates left do not sum below zero, and to zero when none is left |
| `Subscriptions.ExactThroughoutExactly` | src/graphql/subscriptions.ts:52-81 | Over every run, for any estimates, the memory figure is exact throughout iff no release leaves estimates that sum below zero, or any when it is the last |
| `Subscriptions.NegativeEstimateInexact` | src/graphql/subscriptions.ts:76-78 | A run with a negative estimate after which the figure is 0 and the outstanding sum -5 |
| `Subscriptions.ReleaseIdempotent` | src/graphql/subscriptions.ts:68-72 | Releasing a lease twice is releasing it once |
| `Replicas.ActiveIndices` | src/config/database.ts:407-416 | Exactly the enabled and healthy indices, in increasing order |
| `Replicas.ReplicaRouter.GetNextReplica` | src/config/database.ts:418-424 | None iff no replica is active; otherwise an active one, and the index advances by one |
| `Replicas.ReplicaRouter.QueryRead` | src/config/database.ts:484-515 | The read goes to the chosen replica; the first successful try ends it; after A+1 failures and base*(2^A-1) of waiting the primary is asked once |
| `Replicas.RoundRobinFair` | src/config/database.ts:407-424 | From any index any m consecutive choices pick each of n active replicas floor(m/n) or ceil(m/n) times |
| `Replicas.ReplicaRouter.ChooseRepeatedly` | src/config/database.ts:407-424 | m calls of the chooser pick each active replica floor(m/n) or ceil(m/n) times and no other one |
| `Replicas.InactiveNeverPicked` | src/config/database.ts:407-424 | An inactive replica is never picked |

## Left out

- Velocity.BoundAttained: rests on a key being gone at its deadline instant, which the source does not fix; see the next line.
- The millisecond of a Redis deadline: a key is taken to be gone from its deadline on, whereas Redis removes it once the clock is past it. The last instant of a lock, a session and a counter window turn on that millisecond.
- The point at infinity, which has no encoding, so that the source throws when it is a commitment or an announcement: the model carries on with it. Every theorem about proofs is about each transcript by itself, so it holds of those without that point.
- Transaction creation outside `createOrReuse`: request validation, limits, fraud and compliance hooks, and the response body.
- Lease durations and retry delays: where leases may run out they may do so at any moment, and acquiring either succeeds on a free lease or fails.
- The set of terminal statuses that release a key: src/models/transaction.ts uses it without defining it, so with early release a row may lose its key at any moment.
- What `docs/api/versioning.md` says of replays with another payload and of keys per version: `createOrReuse` looks at the key alone.
- Whether the lock library reports a lost lease on release: a release may throw or not, so `LateAnswer` has a request answer after its lease ran out.
- Keyed rows without an expiry: the controller never writes one. The application's and the database's clocks are one clock.
- Replica lag as a duration: where stale reads are possible, any earlier committed version of the table may be read.
- The queue's own removal of duplicate job ids: at most one publish per row is proved without it.
- Curve arithmetic, point encoding and `hashToPoint`: points are residues modulo the group's prime order, encodings are lossless, and malformed encodings of proofs are not modelled.
- `proveBalanceEquals` and `verifyBalanceEquals`: the source calls its form simplified and pedagogical.
- Probabilities: hiding and witness indistinguishability are counted as unique blindings and nonces.
- Overlapping OAuth exchanges, Redis outages and the switch to the fallback store; hashing of opaque tokens, which never repeat in a run; access tokens and introspection. Lifetimes are positive, as the configuration reader enforces.
- JWT access tokens, signature arithmetic, refresh-token families and reuse detection. Session ids belong to one user and the configured maximum is an integer.
- Registrations while Redis is closed, which do nothing; overlapping registrations and overlapping failed logins: each runs as several awaited calls, and the model takes one call as one step at one instant.
- Redis errors in lockout and velocity other than a closed client in the velocity check; arguments that are not finite numbers.
- Counters of different keys in one run: the theorems are per key or per identifier, for all callers of it.
- Pool behaviour after `shutdown`, metrics, the 5-second poll limit, and an upper bound on the pool's size, which overlapping creations may pass. A poll that succeeds is the same action as a hand-out.
- AES-GCM: an ideal AEAD whose sealed parts have the lengths of a 12-byte IV and a 16-byte tag, which opens what it sealed and nothing under another key.
- The key ring's environment and JSON readers; letter case beyond ASCII.
- Authorization and publish/subscribe plumbing of the subscription resolvers.
- Replica health refresh and its timers: the active set is fixed between choices. The chooser's index does not lose precision beyond 2^53.
- SAML, OIDC, WebAuthn, ledger, vault, fraud and HTTP wiring.
