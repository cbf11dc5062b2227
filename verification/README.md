# Verified models of Sigillum's protocols

Sigillum is a mail gateway for Kubernetes. Workloads hand it messages over REST
or SMTP; policies and backends decide what may be sent and where; a rate limiter,
a credential controller and an OAuth token broker keep state behind it. This
project models the parts of it that keep state over long runs or transform text,
in Dafny, and proves what they keep: over every sequence of calls, over every
interleaving of lock sections and channel operations, and for all strings.
`dafny verify dfyconfig.toml` checks it.

| files | what they model |
|---|---|
| SlidingWindow, MemoryLimiter, LimiterRuns, LimiterTheorems, RedisLimiter | the two rate limiters against one complete log of hits |
| ChangingLimits | the two limiters against each other, with limits that change from call to call |
| MailCredential, CredentialRuns, CredentialTheorems, CredentialVerifier, CredentialEffects | generated passwords: controller, API server, Secrets, logins, and what a reconcile does for them |
| TokenBroker | a chain of single-use refresh tokens between provider, memory and Secret |
| TokenCache | one token fetch shared by concurrent callers |
| KeyedChannels, FailureTracker, FailureLimiter, FailureFlood, TenantSlots | reference-counted channels per key, the login throttle, what its bounded tracker forgets, and the tenant slots |
| Gateway, GatewayTheorems, GatewayOutcomes | the send pipeline: decision order, charge and refund, audit, and its answers by what happened |
| Text, Glob, GlobTheorems, AddressPatterns, AddressForms, AddressTheorems, PolicyEngine | allowlist entries, their form and matching, and the policy decision |
| BccStrip, BccNames, BccTheorems | removing Bcc fields in place |
| HeaderFolding, EncodedWords, QuotedPrintable | the text encodings of outgoing messages |
| Prelude, Sequences, Utf8 | shared definitions |

## How it is modelled

Code that changes state is a class or a method with loops, proved equal to a
specification function on values; whole runs and interleavings are then functions
over lists of events, and the theorems are about all such lists. An event that is
not possible in a state leaves it unchanged, so little has to be assumed about a
run: a clock that does not go back for the rate limiters, and fresh tokens and an
own Secret that others leave alone for the token broker. Each lock section and each
channel operation is one event.

Inputs and unseen code are parameters: the clock (integers, nanoseconds, or
milliseconds for Redis), what the API server, the token endpoint, the driver, the
guard and the limiter's store answer, which cached copy a reconcile sees, generated
passwords (fresh), hashes (injective for generated passwords, an arbitrary
predicate for argon2id; neither a hash text that parses nor a Kubernetes name has a
NUL), the case mappings of characters outside ASCII, and
net/mail's parser. Every claim here is a proof about the model; the Go code itself
is not run.

## What turned out not to hold

For each of these a lemma says exactly when the property holds, and a lemma or the
proof itself has an input on which it fails.

- A password written to a Secret whose status write is given up on stays unknown
  to status, and if the rotation request is withdrawn nothing repairs it; nor is a
  Secret repaired that somebody else edits or deletes (`LostWriteMismatch`,
  `EditedSecretMismatch`; `SecretMatchesExactly` has the exact condition).
- A login can accept a retired password if it reads a stale cached copy, for example
  after the credential was deleted (`StaleCopyAccepts`, `AcceptedRetiredExactly`).
- The session re-check is not sound for a spec that carries a copied generated
  hash, which only a disabled webhook lets through (`CopiedHashKeepsSession`,
  `RecheckStandsForLogin`).
- A broker that restarts while its memory is ahead of the Secret is rejected at its
  next redemption, until a new sign-in (`RestartLosesChain`, `UnstoredRestart`).
- The two rate limiters part when a call without a daily cap finds no hit left in a
  key that is held for longer than an hour; a refund is what leads there, whether it
  empties the key or not (`EmptyingRefundParts`, `AgedRefundParts`, `PartExactly`).
  They also part in the millisecond a key expires, if the store still has it then,
  with a hit of the last day, and the call has a daily cap; the answers to that call
  differ exactly if that makes the day full (`ExpiryMillisecondParts`, `PartExactly`,
  `StoresAgreeUnderChange`).
- The comment on the login throttle says that flooding its tracker cannot evict an
  active block. With fewer other keys than the tracker holds it cannot
  (`BlockSurvives`), but with as many it can, for every setting with a window
  (`FloodForgetsBlock`); `ForgottenExactly` says when a key is dropped.
- The "never allowed" warning is wrong about domains that differ in a dotted
  capital I (U+0130), which Go lower-cases to i but does not fold to it
  (`DottedIGoesWrong`, `NeverWrongExactly`, `WholeDomainsExactly`). The same
  character in a blocked domain keeps it from blocking (`DottedBlockPasses`,
  `DomainCovers`).
- One tenant can hold every slot exactly when its own cap is not below the global
  one, so also with the derived cap if there is a single slot (`TenantsAreIsolated`).
- Header folding can write a line of white space only, which section 3.2.2 of RFC 5322
  does not allow, for a value with a space that white space or nothing follows
  (`TrailingSpaceFolds`; `BlankLineExactly` says when, and `SingleSpacesFold` that
  every other value is safe).
- Quoted-printable text decodes to itself exactly when no space comes before a line
  end or the end (`LoneSpaceIsLost`, `RoundTrip`). The comment in the code speaks of
  escaping trailing white space; the code does not, and the model follows the code.

## Model

| member | source | states |
|---|---|---|
| SlidingWindow.RoomExact | internal/policy/ratelimit/memory.go:54-72 | a window has room at a later time exactly from the moment enough of the oldest hits have left it |
| SlidingWindow.LongestWaitExact | internal/policy/ratelimit/memory.go:54-72 | the longest wait over the full windows is the exact time to the first moment all windows have room |
| SlidingWindow.LongestWaitTrim | internal/policy/ratelimit/memory.go:46-72 | hits older than the longest window that counts never change the wait |
| SlidingWindow.AdmissionKeepsCap | internal/policy/ratelimit/memory.go:54-76 | admitting only with room keeps every interval of the window's length within the limit |
| MemoryLimiter.Limiter.Allow | internal/policy/ratelimit/memory.go:39-76 | sweeps, trims, decides and records as the pure step does; the wait is rounded up to seconds |
| MemoryLimiter.Limiter.Sweep | internal/policy/ratelimit/memory.go:80-90 | drops, at most once a minute, exactly the expired keys |
| MemoryLimiter.Limiter.Refund | internal/policy/ratelimit/memory.go:118-125 | drops the newest stored hit of the key, if any |
| MemoryLimiter.Since | internal/policy/ratelimit/memory.go:103-105 | the binary search finds the first hit after the cutoff, which is valid because the history is sorted |
| MemoryLimiter.Decide | internal/policy/ratelimit/memory.go:46-76 | trimming, waiting and recording on one history |
| MemoryLimiter.WaitForRoom | internal/policy/ratelimit/memory.go:54-68 | the loop over the windows computes the longest wait |
| MemoryLimiter.CeilToSecond | internal/policy/ratelimit/memory.go:107-115 | the least whole number of seconds that is not below the wait, and at least one |
| LimiterRuns.RunRepresents | internal/policy/ratelimit/memory.go:39-90 | after every run, what is stored for a key is the complete log but for hits that can no longer count |
| LimiterRuns.RepliesMatchLog | internal/policy/ratelimit/memory.go:39-76 | every reply is decided as on the complete log, and a refusal's wait is exact |
| LimiterTheorems.LogSorted | internal/policy/ratelimit/memory.go:99-105 | the log, and so every stored history, stays sorted |
| LimiterTheorems.CapHolds | internal/policy/ratelimit/memory.go:54-76 | in every run in time order no minute, hour or day, wherever it starts, holds more hits of a key than its cap, if the caps do not change |
| LimiterTheorems.AdmittedExactly | internal/policy/ratelimit/memory.go:39-76 | in every run in time order a call is admitted exactly if the log has fewer hits than each cap in the last minute, hour and day, and a refusal names the time from which it has, and not before |
| LimiterTheorems.NoStaleKeys | internal/policy/ratelimit/memory.go:78-90 | in every run no key is still held at a call a minute after it expired |
| LimiterTheorems.RetryAfterExact | internal/policy/ratelimit/memory.go:54-72 | if nothing is admitted or refunded in between, every call before the announced time is refused and the one at it is admitted |
| LimiterTheorems.NewestStandsForAny | internal/policy/ratelimit/memory.go:117-125 | dropping the newest hit instead of the refunded one leaves the same total and, for every cutoff, an equal count or one less |
| LimiterTheorems.LogTracksSent | internal/policy/ratelimit/memory.go:117-125 | over every run the log never counts more than was sent, and at most one less for each refund |
| LimiterTheorems.SentWithinCapAndRefunds | internal/policy/ratelimit/ratelimit.go:68-71 | so the unrefunded sends of any window are at most the limit plus the refunds |
| LimiterTheorems.DailyAdmissionHolds | internal/policy/ratelimit/ratelimit.go:38-59 | with limits changing call by call, a daily-capped admission keeps the key for a day |
| LimiterTheorems.DayOfHistoryIsKept | internal/policy/ratelimit/ratelimit.go:47-59 | for 23 hours after a daily-capped admission no call drops a hit younger than a day |
| LimiterTheorems.HistoryShrinksToAnHour | internal/policy/ratelimit/ratelimit.go:47-59 | without another daily-capped admission, later calls trim the history to an hour |
| RedisLimiter.Store.Allow | internal/policy/ratelimit/redis.go:114-134 | runs the script on the key and stores what it leaves |
| RedisLimiter.Store.Refund | internal/policy/ratelimit/redis.go:137-139 | the key loses exactly its newest hit, goes with its expiry if that was the last and else keeps it, and no other key changes |
| RedisLimiter.EvalScript | internal/policy/ratelimit/redis.go:26-78 | the script's steps: trim by expiry, scan the windows, add, extend the expiry |
| RedisLimiter.ScanWindows | internal/policy/ratelimit/redis.go:53-68 | the script's loop over the windows |
| RedisLimiter.ScanIsLongestWait | internal/policy/ratelimit/redis.go:53-68 | the scan by ranks in the sorted set is the same longest wait |
| RedisLimiter.ScriptMatchesLog | internal/policy/ratelimit/redis.go:26-78 | one script call keeps the sorted set equal to the complete log but for hits that no longer count, and replies like it |
| RedisLimiter.RedisMatchesLog | internal/policy/ratelimit/redis.go:26-78 | so does every run, with the key's own expiry on top |
| RedisLimiter.StoresAgree | internal/policy/ratelimit/redis.go:26-78 | at millisecond times both stores give the same decision and the same raw wait to every call of every run |
| ChangingLimits.StoresAgreeUnderChange | internal/policy/ratelimit/redis.go:26-78 | with limits changing in any way, on every run in which no earlier call parted them, both stores give the same decision and raw wait, exactly unless the store still has the key in the millisecond it expires and that fills the day |
| ChangingLimits.PartExactly | internal/policy/ratelimit/redis.go:41-76 | after a run that stayed together, whether or not a key is gone in the millisecond it expires, they answer every next call alike exactly if the last one neither found an emptied history that memory holds for longer nor, with a daily cap, hits of the last day in a key that memory had dropped in that millisecond |
| ChangingLimits.NoRefundsNeverPart | internal/policy/ratelimit/ratelimit.go:38-59 | without refunds no call finds an emptied history that is held for longer, however the limits change |
| ChangingLimits.NoRefundsStayTogether | internal/policy/ratelimit/ratelimit.go:38-59 | so without refunds no call parts them if a key is gone in the millisecond it expires |
| ChangingLimits.EmptyingRefundParts | internal/policy/ratelimit/memory.go:117-125 | an input on which they part after a refund that empties the key |
| ChangingLimits.AgedRefundParts | internal/policy/ratelimit/memory.go:117-125 | an input on which they part although the refund leaves a hit |
| ChangingLimits.ExpiryMillisecondParts | internal/policy/ratelimit/redis.go:41-48 | an input on which they answer differently in the millisecond the key expires |
| MailCredential.ParseRotation | internal/credential/credential.go:245-269 | settings are refused exactly for an unparsable or negative duration or an interval under an hour; what is accepted, and the default grace |
| MailCredential.Reconcile | internal/controller/mailcredential_controller.go:113-257 | the reconcile body, status field by status field, decides as the pure plan does, and comes to a password write exactly if the settings allow one, account and guard are there, and the password is not generated, in the Secret the spec names, as asked for and younger than the interval |
| MailCredential.NextEventInTime | internal/controller/mailcredential_controller.go:378-397 | a credential is looked at again a second after its first change that is not a second past, and left alone exactly if there is none |
| CredentialRuns.StaleCopyNeverRotates | internal/controller/mailcredential_controller.go:96-112 | a cached copy that was not due never leads to a password write |
| CredentialRuns.PlanOnlyDrops | internal/controller/mailcredential_controller.go:137-243 | until a password is written, a reconcile only ever drops hashes from status |
| CredentialRuns.StepKeeps | internal/controller/mailcredential_controller.go:86-325 | every event keeps the invariant that ties status, Secrets, stored versions and the reconcile in progress |
| CredentialRuns.RunsKeepInv | internal/controller/mailcredential_controller.go:86-325 | so it holds in every run with stale caches, edits, deletion, guard outages, foreign Secrets, Secrets that others change, conflicts, retries and crashes |
| CredentialTheorems.SecretMatchesExactly | internal/controller/mailcredential_controller.go:186-325 | in every run, status holds the hash of the password in a Secret nobody else touched exactly unless that password was never recorded, and of one in a recorded Secret exactly unless somebody else changed it |
| CredentialTheorems.LandedWriteMatches | internal/controller/mailcredential_controller.go:304-325 | a reconcile whose status write lands after a password write leaves the two in agreement, exactly unless somebody else changed the Secret in between |
| CredentialTheorems.AlwaysMatches | internal/controller/mailcredential_controller.go:304-325 | while no status write is lost for good, they agree after every reconcile exactly unless somebody else changed the Secret |
| CredentialTheorems.WritesDecidedOnFreshRead | internal/controller/mailcredential_controller.go:96-112 | when a password is written, the API server still holds the status it was decided on |
| CredentialTheorems.NeverReturns | internal/controller/mailcredential_controller.go:137-243 | a generated hash that has left status never returns to it |
| CredentialTheorems.RetiredExactly | internal/controller/mailcredential_controller.go:137-243 | a password that any stored version holds is retired exactly if the API server's status holds it no more |
| CredentialTheorems.FailedRotationLands | internal/controller/mailcredential_controller.go:186-325 | over every run, once the status write of a failed rotation lands, the object is ready with the hash and Secret it had, an expired previous hash aside |
| CredentialTheorems.RetryRecords | internal/controller/mailcredential_controller.go:304-325 | over every run, a status write after a password write that does not land, or is not known to have, is tried again on the newest version and records the password, unless the object is another one |
| CredentialTheorems.RunsKeepGrace | internal/controller/mailcredential_controller.go:231-243 | a previous hash runs out a configured grace period after the current one was issued |
| CredentialTheorems.LostWriteMismatch | internal/controller/mailcredential_controller.go:304-325 | an input on which the agreement is lost for good, with nobody else touching the Secret |
| CredentialTheorems.EditedSecretMismatch | internal/controller/mailcredential_controller.go:96-112 | an input on which it is lost to somebody else's deletion |
| CredentialEffects.PasswordWrittenExactly | internal/controller/mailcredential_controller.go:86-257 | over every run, a reconcile on the newest version writes a password exactly if settings, account, guard and Secret allow it, the write works, and the one in status is not up to date; else no Secret changes |
| CredentialEffects.StatusExactly | internal/controller/mailcredential_controller.go:113-302 | over every run, what status says after such a reconcile, field by field, from what was stored and what the reconcile met: when it is ready, and which hashes it keeps, replaces or drops |
| CredentialEffects.WorkingReconcileRenews | internal/controller/mailcredential_controller.go:353-368 | where everything works the password is up to date and the credential ready afterwards, and no password is issued if it was up to date before |
| CredentialEffects.DueOnlyWhenAnnounced | internal/controller/mailcredential_controller.go:378-397 | by time alone a password becomes due no earlier than a second before the announced look |
| CredentialEffects.AnnouncedLookActs | internal/controller/mailcredential_controller.go:378-397 | over every run, a working reconcile at the announced time writes a password or drops a previous one that has run out |
| CredentialEffects.TakenDownBars | internal/credential/verifier.go:79-95 | over every run, after a reconcile that finds the namespace excluded, the account missing, the settings wrong or no password, and whatever happens outside the controller then, no login on the newest version succeeds |
| CredentialEffects.EditBarsExactly | internal/credential/verifier.go:197-216 | over every run, after an edit no login on the newest version succeeds if it changes the account or the own hash, or switches the mode; any other edit changes no login |
| CredentialVerifier.UsernameRoundTrip | internal/credential/credential.go:31-42 | a username splits into its parts exactly if neither is empty and the namespace has no dot |
| CredentialVerifier.LoginExactly | internal/credential/verifier.go:79-123 | a login succeeds exactly if its username is a name, a dot and a namespace, and that object is ready under this username, for the account and own hash its spec has, and has this password as own, current, or previous and still valid one; what the result then holds |
| CredentialVerifier.CheckedHash | internal/credential/verifier.go:98-123 | a successful check remembers a hash the password matches |
| CredentialVerifier.RecheckIsCheck | internal/credential/verifier.go:132-162 | on one object, a result that still holds is what a full check would say, unless the spec carries a copied generated hash |
| CredentialVerifier.RecheckStandsForLogin | internal/credential/verifier.go:79-162 | across objects and times: the same password would log in again with the same flags, exactly unless that hash was copied |
| CredentialVerifier.RecheckHoldsExactly | internal/credential/verifier.go:132-162 | without a copied hash a result still holds exactly if the same password would log in as the same object, account and hash |
| CredentialVerifier.RecheckSoundForAdmitted | internal/credential/verifier.go:132-162 | with specs the webhook admits the re-check is sound |
| CredentialVerifier.CopiedHashKeepsSession | internal/credential/verifier.go:132-162 | an input on which it is not, without the webhook |
| CredentialVerifier.ArgonCache.Verify | internal/credential/verifier.go:169-195 | the answer is that of plain verification, exactly unless a hash text with a NUL has the key of a cached success |
| CredentialVerifier.CacheAnswersExactly | internal/credential/verifier.go:169-195 | the same of every cache content, expiry and eviction, and only accepted passwords are ever cached (a text that parses has no NUL; CachedCheckIsCheck) |
| CredentialVerifier.AcceptedIsCached | internal/credential/verifier.go:169-195 | an accepted password is answered from the cache for five minutes, without a slot, unless it is evicted |
| CredentialVerifier.ArgonCache.CheckPassword | internal/credential/verifier.go:98-123 | the whole of Check, with the cache in front of argon2id |
| CredentialVerifier.CachedCheckIsCheck | internal/credential/verifier.go:98-195 | in every run, for every usable stored version and every sound cache content, a check with the cache says what plain verification says |
| CredentialVerifier.KeyInjective | internal/credential/verifier.go:169-176 | the cache key determines user, hash and password if the hash text has no NUL |
| CredentialVerifier.AcceptedPasswords | internal/credential/verifier.go:79-123 | in every run and for every stored version a login may read from the cache, a generated credential accepts only that version's current password or its previous one within a configured grace |
| CredentialVerifier.AcceptedRetiredExactly | internal/credential/verifier.go:79-123 | an accepted password is retired exactly if the API server's status holds it no more, so never on the newest version |
| CredentialVerifier.StaleCopyAccepts | internal/credential/verifier.go:79-95 | an input on which a login that reads a stale copy accepts a retired password |
| CredentialVerifier.OldPasswordWorksThroughGrace | internal/controller/mailcredential_controller.go:231-243 | after a rotation the new password is accepted at once and the old one exactly until the grace period is over |
| TokenBroker.Service.Ensure | internal/controller/oauth_broker.go:113-165 | the whole of Ensure on memory, provider and Secret |
| TokenBroker.Service.Exchange | internal/controller/oauth_broker.go:140-153 | the redemption: what the provider, memory and the next refresh time are after it |
| TokenBroker.Service.Store | internal/controller/oauth_broker.go:154-164 | the Secret write, refused for a foreign Secret |
| TokenBroker.OutcomeExactly | internal/controller/oauth_broker.go:113-165 | which result an Ensure ends in, each by its exact condition |
| TokenBroker.EnsureLeaves | internal/controller/oauth_broker.go:113-165 | memory has new tokens exactly after a redemption that worked, the next one at half their life, and the Secret is written exactly with what memory holds, a foreign one never |
| TokenBroker.StoredLoadsBack | internal/controller/oauth_broker.go:184-258 | what was stored is what a restart loads, its times cut to seconds |
| TokenBroker.RunKeepsChain | internal/controller/oauth_broker.go:113-202 | over every run, restarts at any time included, the broker holds the refresh token the provider accepts next exactly unless a restart lost it since the sign-in, and stored means the Secret equals memory |
| TokenBroker.ChainStaysAlive | internal/controller/oauth_broker.go:113-165 | a redemption is rejected exactly if a restart lost the chain, none comes before half the last token's life, and a working Ensure ends with everything stored |
| TokenBroker.GuardDownRedeemsNothing | internal/controller/oauth_broker.go:135-139 | with the guard down nothing is redeemed or written |
| TokenBroker.FailedWriteIsRepeated | internal/controller/oauth_broker.go:140-165 | a failed write is repeated without a second redemption while the token is not due |
| TokenBroker.RestartLosesChain | internal/controller/oauth_broker.go:184-202 | an input on which a restart loses the chain |
| TokenBroker.UnstoredRestart | internal/controller/oauth_broker.go:184-202 | a restart loses the chain exactly if memory is ahead of what Secret or sign-in give back, and a new sign-in mends it |
| TokenCache.Cache.LockedAsk | internal/oauth/cache.go:55-83 | the lock section of a call: serve, refuse, join or start a fetch |
| TokenCache.Cache.LockedSettle | internal/oauth/cache.go:115-127 | the lock section that ends a fetch |
| TokenCache.Cache.LockedInvalidate | internal/oauth/cache.go:98-104 | drops the cached token only if it is the given one |
| TokenCache.CallExactly | internal/oauth/cache.go:55-83 | under every interleaving, what a call gets and whether it starts a fetch, by the token's validity, its refresh time and the last failure |
| TokenCache.CacheExactly | internal/oauth/cache.go:98-127 | what a fetch that ends and an invalidation leave in the cache |
| TokenCache.WaitersExactly | internal/oauth/cache.go:84-95 | a waiting caller gets its fetch's result once that is there, and an error if it gives up |
| TokenCache.OneFetchForAll | internal/oauth/cache.go:55-131 | under every interleaving at most one source call is open and every waiting call joins it |
| TokenCache.NoNeedlessFetch | internal/oauth/cache.go:55-131 | none starts while a usable token is fresh or within the back-off, and tokens that live a minute are not refetched before half their life |
| TokenCache.BackgroundRefresh | internal/oauth/cache.go:55-83 | from the refresh time on a call still gets the usable token while one fetch for the next is open |
| TokenCache.UsableTokenIsKept | internal/oauth/cache.go:98-131 | only a successful fetch or the invalidation of this very token replaces a token |
| TokenCache.ServedTokens | internal/oauth/cache.go:55-95 | a caller gets the cached token, still valid long enough, or the result of the fetch it joined |
| KeyedChannels.Table.Refer | internal/smtpproxy/tenant.go:41-48 | the lock section that finds or makes the entry and counts the reference |
| KeyedChannels.Table.Release | internal/smtpproxy/tenant.go:50-57 | the lock section that drops the reference and, with the last one, the entry |
| KeyedChannels.StepKeeps | internal/smtpproxy/tenant.go:37-71 | every step of every task keeps counts, occupancy and placement exact |
| KeyedChannels.OneChannelPerKey | internal/smtpproxy/tenant.go:37-71 | a key has an entry exactly while tasks refer to it, they share its one channel, and no more than its capacity are inside |
| FailureTracker.Failures.CountLocked | internal/smtpproxy/credential.go:313-331 | drops the expired timestamps of the key, or the key, makes it the most recent and counts the rest |
| FailureTracker.Failures.RecordLocked | internal/smtpproxy/credential.go:300-305 | appends the failure, makes the key the most recent and forgets the least recent one if there are too many |
| FailureTracker.FirstAfter | internal/smtpproxy/credential.go:318-322 | the loop stops after the expired timestamps at the front |
| FailureTracker.ExpiredIsRest | internal/smtpproxy/credential.go:318-330 | on sorted timestamps what is left are exactly those inside the window |
| FailureTracker.EvictedExactly | internal/smtpproxy/credential.go:229-245 | a failure pushes a key out exactly if its own key is not tracked, the tracker is full, and that key was not used for longest |
| FailureTracker.EvictsOnlyTheLeastRecent | internal/smtpproxy/credential.go:229-232 | a key is pushed out only by another one, and only if all keys that stay were used after it |
| FailureLimiter.OneTurnPerKey | internal/smtpproxy/credential.go:261-308 | under every interleaving at most one attempt of a key has the turn, and all attempts of a key share one entry that exists exactly as long as they do |
| FailureLimiter.FailuresBounded | internal/smtpproxy/credential.go:261-331 | no interval of the window's length holds more failed checks of a key than permitted since the tracker last forgot it, so of all of them if it never did |
| FailureFlood.ForgottenExactly | internal/smtpproxy/credential.go:229-331 | under every interleaving an event makes the tracker drop a key exactly if an attempt of it finds all its failures outside the window, or another key's failure finds the tracker full and this key not used for longest |
| FailureFlood.BlockSurvives | internal/smtpproxy/credential.go:229-232 | in every run, from a refusal on and while fewer other keys are used than the tracker holds, every attempt of the key is refused as long as enough of its failures are inside the window |
| FailureFlood.FloodForgetsBlock | internal/smtpproxy/credential.go:229-245 | for every setting with a window, every key and any other keys, as many as the tracker holds (there always are, OtherKeys): a run in which an attempt of the key is refused, each of the others fails once at the same moment, and then an attempt of the key is let in although all its failures are inside the window |
| FailureFlood.NoWindowNoBlock | internal/smtpproxy/credential.go:313-331 | with an empty window nothing is ever refused |
| FailureLimiter.BlockedExactly | internal/smtpproxy/credential.go:292-298 | in every run an attempt reaches its password check exactly if fewer than the permitted failures are inside the window, counted on the unpruned log |
| TenantSlots.PerTenant | internal/smtpproxy/run.go:239-249 | the cap is the configured number, or half of the global one rounded up, within 1 and the global one, and below it exactly if at least two slots are shared by derivation or the configured number is smaller |
| TenantSlots.SharesAreBounded | internal/smtpproxy/session.go:319-338 | under every interleaving a tenant holds no more global slots than messages past its own wait, and no more of those than its cap |
| TenantSlots.TimeoutLeaves | internal/smtpproxy/session.go:319-338 | a message whose wait times out takes no global slot any more and can give its tenant slot back |
| TenantSlots.OneTenantTakesAll | internal/smtpproxy/session.go:319-338 | some interleaving lets one tenant hold every slot exactly if its cap is not below the global number |
| TenantSlots.TenantsAreIsolated | internal/smtpproxy/run.go:239-249 | so, for configured and derived caps, when one tenant cannot stall the others |
| TenantSlots.SomeoneMoves | internal/smtpproxy/session.go:319-338 | while a message is in flight, some message can move on without a timeout |
| TenantSlots.ProgressShrinks | internal/smtpproxy/session.go:319-338 | every such step brings the messages in flight one step closer to their end |
| TenantSlots.NoDeadlock | internal/smtpproxy/session.go:319-338 | after any interleaving all messages in flight can finish, and then no slot is held and the map is empty |
| Gateway.Refusal | internal/gateway/gateway.go:219-290 | which refusal is given before the limiter, and exactly when: invalid policy, policy or sender list, backend or driver; none exactly if all pass |
| Gateway.Pipeline.Send | internal/gateway/gateway.go:165-397 | one Send is its steps in order, and gives exactly the answer that its checks, the limiter and the driver call for, with exactly the charge, refund, delivery and record of that answer |
| Gateway.SendExactly | internal/gateway/gateway.go:165-397 | the same of the steps: each answer by its exact condition, and what limiter, driver and audit trail get |
| Gateway.Pipeline.Admit | internal/gateway/gateway.go:293-322 | the rate limit: no limit, store down, refused or charged |
| Gateway.Pipeline.AskLimiter | internal/gateway/gateway.go:299-322 | a charge is one Allow of the memory limiter |
| Gateway.Pipeline.Deliver | internal/gateway/gateway.go:324-397 | driver call, record and refund in the order of each outcome: accepted, rejected, failed or denied exactly as the driver reports, and the charge back exactly if it was not sent and the refund works |
| Gateway.Pipeline.RefuseDelivered | internal/gateway/gateway.go:343-356 | a header-recipient refusal is refunded and then recorded |
| Gateway.Pipeline.FailDelivered | internal/gateway/gateway.go:357-385 | a transient failure is recorded and then refunded |
| Gateway.Pipeline.GiveBackCharge | internal/gateway/gateway.go:348-352 | a refund is one Refund of the memory limiter |
| GatewayTheorems.OneAuditRecord | internal/gateway/gateway.go:165-397 | over every run of concurrent messages each is recorded at most once, and exactly once, with its answer, when answered |
| GatewayTheorems.DeliveredOnlyWhenAllowed | internal/gateway/gateway.go:219-337 | a message reaches the driver at most once and only after every check passed and its charge was made; accepted means it did |
| GatewayTheorems.LedgerBalances | internal/gateway/gateway.go:293-385 | admissions less refunds are the accepted and permanently rejected messages plus those in flight and those whose refund failed |
| GatewayTheorems.NoLostRefunds | internal/gateway/gateway.go:343-379 | if every refund works, no failed or refused delivery stays charged |
| GatewayOutcomes.AnswerExactly | internal/gateway/gateway.go:165-397 | over every run, an answered message got exactly the answer that what arrived, what the limiter said to it and what the driver reported of it call for, and the driver had it exactly if it was handed on and can be relayed |
| GatewayOutcomes.ChargeStandsExactly | internal/gateway/gateway.go:293-385 | if every refund works, an answered message's charge stands exactly if the limiter admitted it and the driver sent it or rejected it for good |
| GatewayOutcomes.LedgerAtRest | internal/gateway/gateway.go:293-385 | when all are answered and refunds worked, admissions less refunds are exactly those messages |
| GatewayTheorems.ChargesWithinCap | internal/gateway/gateway.go:293-385 | the limiter's log is as long as the charges that stand, and no window holds more of them than its cap plus the refunds |
| Text.FoldsLikeLower | internal/webhook/policy_warnings.go:78-84 | equal in lower case and equal under folding agree where the lower case is ASCII, but for the dotted capital I |
| Text.CaseExactly | internal/policy/engine.go:231-262 | which characters have a small letter as lower case, and which fold to it |
| Text.TrimExactly | internal/policy/engine.go:231-235 | trimming leaves exactly what is between the spaces at the ends |
| GlobTheorems.MatchesExactly | internal/policy/engine.go:236-243 | a pattern matches exactly what can be cut into one piece for each of its terms |
| GlobTheorems.GrammarExactly | internal/policy/engine.go:236-243 | for all strings: a pattern is read as these terms exactly if it is made of spellings of them, and is malformed exactly if it is made of none |
| Glob.TailIsMatched | internal/policy/engine.go:238-243 | for all globs with classes and escapes: everything a glob with a literal tail matches ends in that tail |
| AddressPatterns.GlobFixesDomain | internal/webhook/mailpolicy_webhook.go:190-214 | for all strings: what an admitted glob matches ends in an at sign and exactly its domain |
| AddressForms.ValidateDomain | internal/policy/address.go:70-89 | the loops over labels and bytes decide as the predicate over stretches between dots does |
| AddressForms.DomainExactly | internal/policy/address.go:62-89 | a domain is valid exactly if it has up to 253 characters and its labels are 1 to 63 letters, digits and inner hyphens |
| AddressForms.SubdomainExactly | internal/webhook/mailpolicy_webhook.go:202 | the same of the domains of patterns and domain lists |
| AddressForms.MailboxExactly | internal/policy/address.go:42-60 | for all strings: a mailbox is valid exactly if it is atoms between dots, an at sign and such a domain; no character by which others route is before the at sign |
| AddressForms.EntryExactly | internal/webhook/mailpolicy_webhook.go:186-214 | for all strings: an entry is admitted exactly if it is the plain address of a valid mailbox or a pattern of the required form |
| AddressTheorems.PlainMatchesItself | internal/policy/engine.go:231-244 | a plain entry matches exactly itself, up to case and outer space |
| AddressTheorems.AdmittedFixesDomain | internal/webhook/mailpolicy_webhook.go:190-214 | an admitted entry matches, among valid mailboxes, only those of its one domain |
| AddressTheorems.SenderNeverAllowed | internal/webhook/policy_warnings.go:58-87 | the scan over the backend's list decides as the predicate does |
| AddressTheorems.PlainNeverExactly | internal/webhook/policy_warnings.go:58-76 | about a plain sender, and a glob against plain entries, it says never exactly if none matches |
| AddressTheorems.GlobsMayShare | internal/webhook/policy_warnings.go:77-84 | two admitted globs are taken to overlap exactly if their domains agree in lower case and in their dotted capital Is |
| AddressTheorems.NeverIsSound | internal/webhook/policy_warnings.go:55-87 | if it says never, no string matches both entries, unless they differ in a dotted capital I |
| AddressTheorems.NeverWrongExactly | internal/webhook/policy_warnings.go:55-87 | about globs that share an address it is wrong exactly then |
| AddressTheorems.WholeDomainsExactly | internal/webhook/policy_warnings.go:77-84 | for whole-domain globs: when they share an address, and when the warning errs |
| AddressTheorems.DottedIGoesWrong | internal/webhook/policy_warnings.go:77-84 | an input on which it does |
| PolicyEngine.Unmatched | internal/policy/engine.go:199-224 | no sender is named exactly if every sender matches an entry |
| PolicyEngine.Refused | internal/policy/engine.go:180-191 | no recipient is named exactly if all are valid mailboxes and allowed |
| PolicyEngine.DomainCovers | internal/policy/engine.go:253-276 | a domain list entry covers a recipient exactly if it spells its domain, whatever the case, without a dotted capital I |
| PolicyEngine.RestrictionsDecide | internal/policy/engine.go:246-271 | a valid mailbox passes exactly if no blocked entry spells its domain and an allowed one does, or an address entry matches it, or neither is given; and always without restrictions |
| PolicyEngine.AllowedExactly | internal/policy/engine.go:157-224 | a message is allowed exactly if it is within the caps, From, envelope sender and Sender match the policy's list if there is one, and every recipient and reply address is a valid mailbox that the restrictions allow |
| PolicyEngine.DeniedExactly | internal/policy/engine.go:157-224 | each denial by its exact condition, in order, and whom it names |
| PolicyEngine.DottedBlockPasses | internal/policy/engine.go:258-262 | an input on which an admitted blocked domain blocks nothing |
| PolicyEngine.RecipientConfined | internal/policy/engine.go:253-285 | an allowed recipient is of a domain the policy names, if it names any, and of none it blocks |
| PolicyEngine.AllowedStaysInReach | internal/policy/engine.go:157-224 | an allowed message goes to, and points replies to, nothing outside that reach, and its senders that are valid mailboxes are of domains that the policy's list stands for, and the backend's |
| BccStrip.FindHeaderEnd | internal/smtpproxy/bcc.go:49-61 | the index loop finds the first blank line |
| BccStrip.StripBcc | internal/smtpproxy/bcc.go:16-41 | the in-place copy yields the stripped message, which StripDropsBccFields describes, and touches nothing beyond it |
| BccStrip.StripLine | internal/smtpproxy/bcc.go:23-38 | one line is kept or dropped, and no unread byte is overwritten |
| BccStrip.ReadLine | internal/smtpproxy/bcc.go:24-34 | the end of the line and its fate, a continuation sharing that of its field |
| BccNames.BccExactly | internal/smtpproxy/bcc.go:63-70 | for all lines: one is taken for a Bcc field exactly if it is white space, Bcc or Resent-Bcc in any case (a long s for an s), white space, a colon and anything |
| BccNames.PlainNamesDecide | internal/smtpproxy/bcc.go:63-70 | so an ASCII name decides by its lower case, and a line without a colon is none |
| BccNames.SpacesAreUnicode | internal/smtpproxy/bcc.go:68 | the white space around it is that of Unicode in UTF-8 |
| BccTheorems.HeaderEndExactly | internal/smtpproxy/bcc.go:43-61 | the header ends before the first blank line, and nowhere exactly if there is none |
| BccTheorems.StripDropsBccFields | internal/smtpproxy/bcc.go:16-41 | what is left are exactly the header fields without such a name, whole and in order, and the bytes from the blank line on |
| BccTheorems.StripKeepsHeaderEnd | internal/smtpproxy/bcc.go:43-61 | the header end is found again, after the kept lines |
| BccTheorems.StripTwice | internal/smtpproxy/bcc.go:16-41 | stripping again changes nothing, and no field left has such a name |
| HeaderFolding.FoldHeaderLine | internal/driver/smtp/mime.go:513-536 | the loop over the tokens writes the folded lines |
| HeaderFolding.FoldRoundTrip | internal/driver/smtp/mime.go:505-536 | unfolding gives back the field name and value, and no line is empty (of lines of white space only, BlankLineExactly says when) |
| HeaderFolding.BlankLineExactly | internal/driver/smtp/mime.go:513-536 | exactly when a line of white space only is written, told from the lengths of the tokens |
| HeaderFolding.SingleSpacesFold | internal/driver/smtp/mime.go:513-536 | never, whatever the field name, if every space of the value is followed by a character that is not white space |
| HeaderFolding.TrailingSpaceFolds | internal/driver/smtp/mime.go:513-536 | inputs that have one, a space that nothing follows and one before a tab |
| HeaderFolding.LongLinesAreTokens | internal/driver/smtp/mime.go:505-536 | a line is within 78 bytes or holds nothing that could be folded |
| HeaderFolding.FoldsOnlyWhenNeeded | internal/driver/smtp/mime.go:505-536 | two lines that follow each other would not have fit on one |
| HeaderFolding.LinesWithinHardLimit | internal/driver/smtp/mime.go:447-458 | with tokens up to the foldable length and names up to 25 bytes, every line is within 998 |
| HeaderFolding.LongestToken | internal/driver/smtp/mime.go:461-469 | the maximum over the space-separated runs |
| EncodedWords.ForceEncodedWords | internal/driver/smtp/mime.go:487-503 | the two loops write the forced encoded-words |
| EncodedWords.ChunksKeepRunes | internal/driver/smtp/mime.go:487-503 | the text is cut between runes only, into pieces of 1 to 45 bytes |
| EncodedWords.RuneSizeExactly | internal/driver/smtp/mime.go:492-496 | the length of a rune is that of the UTF-8 encoding the text starts with, and 1 if it starts with none |
| EncodedWords.ChunksAreFull | internal/driver/smtp/mime.go:487-503 | no piece but the last has room for the first rune of the next |
| EncodedWords.WordsAreShort | internal/driver/smtp/mime.go:481-503 | no word is longer than 72 characters |
| EncodedWords.Base64RoundTrip | internal/driver/smtp/mime.go:499 | the base64 of a piece decodes to it |
| EncodedWords.DigitsAreAlphabet | internal/driver/smtp/mime.go:499 | the digits are those of section 4 of RFC 4648 |
| EncodedWords.ForcedRoundTrip | internal/driver/smtp/mime.go:481-536 | the words, folded and unfolded, decode to the text |
| QuotedPrintable.Write | internal/driver/smtp/mime.go:384-416 | the loop over the bytes writes the encoded text |
| QuotedPrintable.LinesAreShort | internal/driver/smtp/mime.go:384-416 | no line is longer than 76 bytes |
| QuotedPrintable.BreaksOnlyWhenNeeded | internal/driver/smtp/mime.go:384-416 | a line is broken only where the next byte or escape would not have fit, and nothing but printable ASCII and line ends is written |
| QuotedPrintable.RoundTrip | internal/driver/smtp/mime.go:384-416 | decoding gives the text with normalised line ends back exactly if no space comes before a line end or the end |
| QuotedPrintable.LoneSpaceIsLost | internal/driver/smtp/mime.go:379-416 | an input that does not come back |

## Left out

- HTTP and SMTP servers, TLS, Kubernetes clients and informers, tracing, metrics, logs, flags and status codes: plumbing without a property over runs.
- Cryptography and random bytes: hashes and passwords are abstract, as described above.
- Policy matching by subject (internal/policy/engine.go:97-139): the choice by namespace, label selectors and priority is an input.
- The Redis limiter when Redis is down: it admits or refuses without recording a hit, so it is outside the ledger.
- Whether Redis still has a key in the very millisecond it expires: both possibilities are covered by a parameter.
- Ambiguous failures of a Secret write or a token redemption: a failed one is taken to have had no effect.
- metav1.Time's cut to whole seconds in the credential status, observedGeneration, the SecretsManaged condition and condition messages.
- The broker's map over several backends, Forget, and a Secret read error that falls back to the seed: one backend is modelled, and reads succeed or find nothing.
- Invalid UTF-8 in addresses: address text is a sequence of code points.
- TokenBroker.RunKeepsChain: the provider issues fresh tokens, and nobody else writes the backend's own Secret.
- HeaderFolding.FoldRoundTrip: for text that has no CRLF followed by white space, which the header checks refuse anyway.
- Attachments, multipart bodies, display names and filenames of internal/driver/smtp/mime.go, and so the line length of attachments.
