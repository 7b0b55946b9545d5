# Verified models of the stateful core

Dafny models of the small stateful algorithms of the server and its scripts, with proofs of
what they promise. `dafny verify dfyconfig.toml` checks everything.

| module | what it models |
|---|---|
| `PiiMask`, `PlaceholderText`, `MaskLimits`, `Concealment` | the personal-data masker, the meaning of its inverse, the texts it does not give back, and what it hides |
| `AuditChain` | the signed, linked audit log: signing and verification |
| `OAuthState` | signed OAuth states and the store of used nonces |
| `RateLimiter`, `WindowBuckets`, `TimeWindow` | the global and the per-route sliding-window limiter |
| `LoginTracker` | the tracker of failed logins |
| `Idempotency`, `Oldest`, `Documents` | the cache of idempotent responses, its size eviction, and deep copies of mutable documents |
| `SessionRegistry` | concurrent sessions per user |
| `ApiScopes` | API-key scope matching and the two-phase scope migration |
| `SchemaClosure`, `SchemaTypes` | selection of OpenAPI schemas, the types printed for them, and what those types mean |
| `MarkerSplice` | regenerating the text between two markers |
| `DailySummary` | once-a-day generation across ticks, restarts and failed commits |
| `Redaction`, `SensitiveKeys`, `Json` | recursive redaction of audit payloads |
| `TokenConfig` | encryption of secret config fields and the migration that repeats it |
| `ContextSelection` | ranking of context layers and whole-line, whole-layer budgets |
| `Text` | the Python string operations that the others use |

## Conventions

Objects whose methods update fields are classes; a dictionary or list they mutate is a field of
type `map` or `seq`. Every such class carries a ghost history (all admissions, all writes, all
accepted nonces, ...) that nothing ever prunes, and its methods are specified over that history.
Each call is one atomic step, as the locks make it, and the clock is a parameter that never runs
backwards. Where a step reads the clock twice, both reads are parameters: `VerifyState` takes them as
they come, and the scheduler's ticks are bounded by the parameter `lag` (`DailySummary.Timely`). HMAC, Fernet, the regular expressions, `json.dumps`, `round` and the string masks are
function parameters; the few facts assumed about them appear as `requires` clauses (`HexDigests`,
`DumpsJson`, `Lawful`, `SoundScanner`, `Rounds`). No injectivity of HMAC is assumed: the theorems about the audit log
end in "or here are two messages of these logs with the same digest" (RFC 2104 leaves collision
resistance to the hash).

## Where the code and its promises differ

- The masker gives a text back exactly when it shows no placeholder that was issued before or that
  masking this very text issues (`PiiMask.RoundTrip`), while the counters stay below 10^8. A text
  without placeholders always comes back (`PlainRoundTrip`). `SelfIssuedPlaceholder` is a text that
  fails on a new masker; `LargeCountersBreakRoundTrip` shows the failure from 10^8 on, where the
  digits of a placeholder are themselves masked as a phone number.
- A deleted audit row, or a blanked signature, is noticed exactly when the next row is signed
  (`DeletionIsLocated`, `BlankingIsLocated`; `UnnoticedDeletion` is a log where it is not).
- "At most one summary per local day" holds exactly for time zones that are always ahead of UTC, by
  nine hours at most and by no less than the time `lag` between the two clock reads of a tick
  (`AtMostOnceExactly`). `TwiceHappens` breaks it for offsets below zero or above nine hours.
  `TwiceHappensAtMidnight` breaks it where the lead is smaller than the lag: in UTC, and in London in
  winter, a tick that starts in the last second of the day can query past midnight. With a lag of one
  second the default zone is safe (`ZonesInUse`).
- In runs that finish before the next UTC midnight every day is served, exactly unless a commit of that
  very day was lost since the last restart (`EveryDayIsServed`); both exceptions are real
  (`LostCommitSuppresses`, `LateFinishSuppressesNextDay`).
- A regenerated text replaces its predecessor without a trace exactly when that one was free of
  the end marker (`OverwriteOnly`; `EndMarkerSurvives` is the other case).
- The second migration phase refuses what was refused and keeps every key outside the legacy
  families. A request that a legacy key allowed stays allowed exactly when its resource, or `api`, is
  listed (`Phase2Authorization`). The default list omits resources that the API serves:
  `DefaultListLosesDeals` is a key for reading that loses `GET /api/v1/deals`.
- The types printed for the clients let through every value of their schemas, except where a union
  drops the type of everything beside other members (`TypesAreSound`, `DroppedAny`).
- A config survives encryption and decryption exactly when its secret values are stable
  (`ConfigRoundTrip`); a secret that is itself a ciphertext is not (`CiphertextIsOpened`).
- Purging idle sessions changes an answer exactly when an id was registered twice and only its first
  session is idle (`PurgeAnswers`, `PurgeMayRevive`).
- `trim_context_to_limit` documents a result of at most `char_limit` characters, but does not
  count its notice. `TrimmedMeaning` states exactly when the limit is met; `TrimmedTextMayExceedLimit`
  is a text for which it is not. Likewise `build_typed_context` does not count the headings of its
  layers: `SelectedContent` says for which ranked layers the limit is met all the same, and
  `KeptContentMayExceedLimit` is a selection for which it is not.

## Model

| member | source | states |
|---|---|---|
| PiiMask.RoundTrip | app/core/ai_privacy.py:46-69 | on a masker with any past, unmasking a masked text gives the text back if and only if it shows no placeholder of the record before the call or of what masking it adds, while counters stay below 10^8 |
| PiiMask.PlainRoundTrip | app/core/ai_privacy.py:46-69 | a text that shows no placeholder at all always comes back while counters stay below 10^8 |
| PiiMask.MaskRunSame | app/core/ai_privacy.py:46-59 | masking with all patterns keeps what a text restores to, under the new and every later table |
| MaskLimits.SelfIssuedPlaceholder | app/core/ai_privacy.py:33-69 | on a new masker a text that shows the placeholder of its own phone number shows nothing issued and yet does not come back |
| MaskLimits.LargeCountersBreakRoundTrip | app/core/ai_privacy.py:12-69 | from 10^8 on a text without any placeholder comes back as its own placeholder, whose digits were masked as a phone number |
| MaskLimits.MaskedTwice | app/core/ai_privacy.py:54-59 | such a text is masked to a placeholder inside a placeholder |
| MaskLimits.UnmaskedHalfWay | app/core/ai_privacy.py:66-68 | the outer placeholder's turn is over before the inner one is replaced |
| PlaceholderText.OnlyInner | app/core/ai_privacy.py:66-68 | in a placeholder inside a placeholder only the inner one is found |
| PiiMask.PIIMasker.Mask | app/core/ai_privacy.py:46-59 | the result is the run of the patterns in order, the allowed ones left out (Concealment says what that hides), and restores to the same text as the input now and under every later table |
| Concealment.Conceals | app/core/ai_privacy.py:52-59 | two texts that differ only in the values found by a pattern that is not allowed, with the same values equal and known, are masked to the same text, whatever else is allowed |
| Concealment.SameMaskedText | app/core/ai_privacy.py:33-58 | the same for one pattern: its output depends on the gaps and the pattern of equal values only |
| Concealment.AllowedIsQuiet | app/core/ai_privacy.py:53-54 | allowing a category equals its pattern finding nothing; every other pattern does its work |
| Concealment.PhoneIsLeft | app/core/ai_privacy.py:46-59 | with phone numbers allowed the number of the text is left and its address is masked |
| Concealment.AddressIsLeft | app/core/ai_privacy.py:46-59 | with addresses allowed it is the other way round |
| PiiMask.PIIMasker.Unmask | app/core/ai_privacy.py:61-69 | the loop of replacements equals restoring all placeholders simultaneously |
| PiiMask.PIIMasker.NextPlaceholder | app/core/ai_privacy.py:33-44 | a seen value keeps its placeholder, a new one gets the next number; the maps, the reverse map and the counters stay one consistent record |
| PiiMask.Issued | app/core/ai_privacy.py:33-44 | the same on the values of the three fields |
| PiiMask.PIIMasker.Substitute | app/core/ai_privacy.py:55-58 | the matches are replaced from the left, each seeing the record left by the earlier ones |
| PiiMask.PIIMasker.TotalMasked | app/core/ai_privacy.py:75-77 | the sum of the category sizes is the number of placeholders issued |
| PiiMask.PIIMasker.constructor | app/core/ai_privacy.py:27-31 | a new masker has issued nothing |
| PiiMask.MatchOutsidePlaceholders | app/core/ai_privacy.py:11-14 | no match of any pattern lies inside a placeholder with a counter below 10^8 |
| PiiMask.LargeCountersLookLikePhones | app/core/ai_privacy.py:12 | from 10^8 on, every placeholder holds digits of the necessary phone shape; MaskLimits.LargeCountersBreakRoundTrip draws the consequence |
| PiiMask.PlaceholdersDiffer | app/core/ai_privacy.py:41 | equal placeholders come from the same category and number |
| PiiMask.CountersAreSizes | app/core/ai_privacy.py:39-43 | each counter is the size of its dictionary, and all sizes add up to the number issued |
| PiiMask.EntriesAreReversed | app/core/ai_privacy.py:42-43 | the reverse map inverts every category map |
| PiiMask.EntriesInjective | app/core/ai_privacy.py:36-43 | different values of a category have different placeholders |
| PiiMask.PlaceholdersAreStable | app/core/ai_privacy.py:35-37 | a value keeps its placeholder through all later masking |
| PiiMask.RecordIsValidTable | app/core/ai_privacy.py:33-44 | while counters are small, keys are bracketed tokens and no original occurs in any of them |
| PiiMask.MaskHitsReplaces | app/core/ai_privacy.py:55-58 | one pattern run replaces every match by the placeholder that the final table maps back to it |
| PiiMask.MaskHitsSame | app/core/ai_privacy.py:55-58 | one pattern run keeps what the text restores to, under the new and every later table |
| PiiMask.UnmaskMeaning | app/core/ai_privacy.py:61-69 | for every reachable record the replacement loop is simultaneous restoration, the early returns included |
| PiiMask.LaterTableExtends | app/core/ai_privacy.py:42-43 | the reverse map only grows |
| PlaceholderText.SubstitutionKeepsMeaning | app/core/ai_privacy.py:55-58 | replacing disjoint bracket-free matches by their placeholders does not change the restored text |
| PlaceholderText.ReplaceThenRestore | app/core/ai_privacy.py:66-68 | one replacement followed by restoring the others restores everything |
| PlaceholderText.ReplaceEachIsRestore | app/core/ai_privacy.py:66-68 | replacements one after the other are one simultaneous restoration |
| PlaceholderText.OrderIsIrrelevant | app/core/ai_privacy.py:66-68 | the iteration order of the reverse map does not matter |
| PlaceholderText.NoNewTokens | app/core/ai_privacy.py:66-68 | inserting an original never completes another placeholder |
| PlaceholderText.RestoreFixpoint | app/core/ai_privacy.py:61-69 | restoring leaves a text alone if and only if it shows no issued placeholder |
| AuditChain.HeadCommitment | app/core/audit_integrity.py:92-140 | two fully signed accepted logs with the same last signature are equal event by event and in length, or hold a digest collision |
| AuditChain.PrefixCommitment | app/core/audit_integrity.py:115-138 | the same for the events up to any two equal signatures, which then stand at the same index |
| AuditChain.MessageInjective | app/core/audit_integrity.py:40-42 | equal signed messages come from equal covered fields, for every event type: the payload is a JSON object and the time holds no bar |
| AuditChain.KindNotLonger | app/core/audit_integrity.py:40-42 | an event type with bars in it cannot swallow the time and a part of the payload |
| AuditChain.ScansOneWay | app/core/audit_integrity.py:40 | no JSON text is also complete when read from inside a string |
| AuditChain.DumpedField | app/core/audit_integrity.py:40 | a dictionary with one text, dumped as JSON, is an object text as the theorems take it, whatever the key and the text |
| AuditChain.HonestLogsVerify | app/core/audit_integrity.py:72-140 | every log built by signing, under increasing ids with any gaps and with integrity switched on and off at will, is accepted for every organization, as is every prefix |
| AuditChain.HonestAppend | app/core/audit_integrity.py:78-88 | appending a correctly linked row, signed or not, keeps all chains of all organizations accepted |
| AuditChain.AcceptedPrefix | app/core/audit_integrity.py:104-109 | a prefix chosen by the limit of an accepted chain is accepted |
| AuditChain.TamperingIsLocated | app/core/audit_integrity.py:122-136 | changing a covered field of a signed event other than id and organization makes it the first broken one of its chain, or exhibits a collision |
| AuditChain.TamperingIsReported | app/core/audit_integrity.py:101-138 | for one such row changed in the whole table, every report that looks that far names that event as first_broken_id, or there is a collision |
| AuditChain.ReassignedRowIsReported | app/core/audit_integrity.py:101-138 | a signed row moved to another organization is the first broken one there, and its old chain reads as if it had been deleted |
| AuditChain.RenumberingIsLocated | app/core/audit_integrity.py:101-138 | a signed row with a changed id stops verification at its new place, or at the signed successor it left behind |
| AuditChain.ForOrgChanged | app/core/audit_integrity.py:101-108 | what one changed row of the table does to the chain that the query returns |
| AuditChain.UnnoticedDeletion | app/core/audit_integrity.py:117-119 | a log in which deleting or blanking a signed event leaves an accepted log |
| AuditChain.ForeignRowIsLocated | app/core/audit_integrity.py:122-136 | a row signed for another message is reported wherever it is inserted |
| AuditChain.DeletionIsLocated | app/core/audit_integrity.py:115-124 | deleting a signed event is reported at its successor exactly when that one is signed |
| AuditChain.BlankingIsLocated | app/core/audit_integrity.py:117-124 | blanking a signature is reported at the successor exactly when that one is signed |
| AuditChain.DeletionIsReported | app/core/audit_integrity.py:101-138 | for a signed row deleted from the table, every report that looks that far names the next row of the organization when it is signed, and every report is valid otherwise, or there is a collision |
| AuditChain.BlankingIsReported | app/core/audit_integrity.py:101-138 | the same for a row of the table whose signature was blanked |
| AuditChain.RenumberingIsReported | app/core/audit_integrity.py:101-138 | for a signed row moved to the place of a new id, the report names the next row when that is signed and has a smaller id, and the moved row otherwise, or there is a collision |
| AuditChain.AuditLedger.VerifyChain | app/core/audit_integrity.py:92-140 | valid exactly when every event in the limit links and verifies; otherwise the first event that does not is named, with the count up to it |
| AuditChain.AuditLedger.VerifyHonest | app/core/audit_integrity.py:92-140 | on a ledger that only logging wrote, verification succeeds and counts all events in the limit |
| AuditChain.AuditLedger.SignEvent | app/core/audit_integrity.py:72-89 | with integrity on, only that row changes: it is linked to the signature of the newest other row of its organization, and its signature is the digest of its own message; with integrity off nothing changes |
| AuditChain.AuditLedger.LogEvent | app/services/event.py:9-28 | the new row, under any id above the ones in use, holds its entry and is signed and linked if and only if integrity is on; every chain stays accepted |
| AuditChain.LogIsExact | app/core/audit_integrity.py:72-89 | in every log each row holds its entry, and is signed over its own message and linked to the row in front of it in its organization if and only if integrity was on |
| AuditChain.SignedRow | app/core/audit_integrity.py:78-88 | the same for one signing |
| AuditChain.AlwaysOnIsFullySigned | app/core/audit_integrity.py:72-89 | with integrity on throughout every chain of the log is fully signed |
| AuditChain.LogsCommit | app/core/audit_integrity.py:72-140 | with integrity on throughout, the last signature of an organization commits to everything that was logged for it, up to a digest collision |
| AuditChain.MissingFields | app/core/audit_integrity.py:36-42 | a missing payload is signed like an empty one, and a missing link like the start of the chain |
| AuditChain.LastHashIsPrevSig | app/core/audit_integrity.py:50-69 | the queried hash is the signature that verification will compare with |
| AuditChain.LastHashSkips | app/core/audit_integrity.py:65-66 | the row being signed does not count as its own predecessor |
| OAuthState.VerifyState | app/core/oauth_state.py:32-63 | accepted only if the state is a text of three colon-free parts followed by its own digest, names the expected organization, if any, is within the age limit, and has a free nonce in debug mode; every such state is accepted, for its own organization, and used up for the whole age limit; a refused state uses up nothing unless its organization is no number; a state accepted a second after its timestamp is never accepted again |
| OAuthState.FirstUse | app/core/oauth_state.py:23-59 | a freshly signed state with an unused nonce yields its own organization |
| OAuthState.SignedIsGenuine | app/core/oauth_state.py:23-29 | a freshly signed state is genuine, for its own organization |
| OAuthState.PassedIsGenuine | app/core/oauth_state.py:43-54 | whatever passes the checks is signed under the key, for the expected organization and in time |
| OAuthState.GenuinePasses | app/core/oauth_state.py:43-54 | whatever is so signed passes, and yields its nonce |
| OAuthState.BadStatesFail | app/core/oauth_state.py:48-54 | a state with another signature, for another organization, out of date or with a time that is no number does not pass |
| OAuthState.SplitJoined | app/core/oauth_state.py:44-47 | splitting at the first three colons takes a state apart again |
| OAuthState.NeverAgain | app/core/oauth_state.py:55-57 | while a late-accepted state is young enough to pass, its nonce is still remembered |
| OAuthState.NonceStore.ConsumeOnce | app/core/oauth_nonce.py:53-84 | below the cap a nonce is accepted exactly when no earlier use of it is unexpired, in debug mode only |
| OAuthState.NonceKeyInjective | app/core/oauth_nonce.py:60 | different namespaces share no key, as nonces hold no colon |
| OAuthState.UsesApart | app/core/oauth_nonce.py:58-84 | two uses of one nonce are apart by the age limit of the first one, and by a second at least |
| OAuthState.NonceStore.ConsumeInMemory | app/core/oauth_nonce.py:73-84 | the in-memory path of it |
| OAuthState.NonceStore.NonceSeen | app/core/oauth_nonce.py:87-103 | below the cap, seen exactly when an earlier use is unexpired, or always outside debug mode |
| OAuthState.NonceStore.ShrinkTo | app/core/oauth_nonce.py:75-80 | leaves room for one nonce; nothing unexpired is lost unless the cap was reached |
| OAuthState.NonceStore.Accept | app/core/oauth_nonce.py:83-84 | the use is remembered until it expires |
| OAuthState.PruneRemembers | app/core/oauth_nonce.py:106-109 | pruning keeps exactly the nonces that the history says are unexpired |
| OAuthState.UseRemembers | app/core/oauth_nonce.py:81-83 | an accepted nonce is remembered and no other is forgotten |
| OAuthState.UseKeepsSingle | app/core/oauth_nonce.py:81-83 | lifetimes of one key never overlap |
| Text.ParseDecimal | app/core/oauth_state.py:50-59 | reading a printed integer gives the integer back |
| RateLimiter.SlidingWindowLimiter.Dispatch | app/core/middleware.py:535-564 | admitted exactly when fewer than max_req earlier admissions of the address lie in the window; the remaining count, the counters and the buckets afterwards |
| RateLimiter.SlidingWindowLimiter.AtMostMaxPerWindow | app/core/middleware.py:535-564 | no closed interval of window length ever holds more than max_req admissions of an address |
| WindowBuckets.Judge | app/core/middleware.py:545-561 | a pruned bucket answers like the full history and keeps standing for it, within its limit |
| WindowBuckets.JudgeIn | app/core/middleware.py:446-451 | the same for one entry in the whole table: every key keeps standing for its history |
| WindowBuckets.SweepSane | app/core/middleware.py:536-542 | the sweep forgets only what no later decision can count |
| WindowBuckets.SaneClear | app/core/middleware.py:488-489 | forgetting a key with its history leaves every other key as it was |
| RateLimiter.RouteLimiter.CheckPerRoute | app/core/middleware.py:454-476 | the answer follows from the earlier calls for the same route and address alone |
| RateLimiter.JudgeRoute | app/core/middleware.py:468-475 | one call on a bucket, whatever windows earlier calls used |
| RateLimiter.JudgeRouteIn | app/core/middleware.py:467-476 | the same in the whole table: no other key is touched |
| RateLimiter.JudgeSwept | app/core/middleware.py:535-561 | one request of the global limiter on the table, swept first when it is crowded |
| RateLimiter.SweptAreLive | app/core/middleware.py:536-542 | after a sweep only addresses with an admission inside the window have a bucket |
| RateLimiter.FixedRouteJudgesWindow | app/core/middleware.py:467-476 | with fixed limits a call is admitted exactly when fewer than max_requests admissions lie in its window |
| RateLimiter.FixedRouteIsSlidingWindow | app/core/middleware.py:467-476 | with fixed limits all admissions of a route obey the sliding window |
| RateLimiter.RouteBound | app/core/middleware.py:454-476 | a route with fixed limits never admits more than max_requests in any window |
| RateLimiter.CutOfFixedWindow | app/core/middleware.py:469-470 | with a fixed window nothing younger than the window is ever dropped |
| TimeWindow.PopStale | app/core/middleware.py:545-546 | the popleft loop leaves exactly the part of the history inside the window |
| TimeWindow.PrunedIsSince | app/core/middleware.py:545-546 | a suffix that starts inside the window is the recent part of the history |
| TimeWindow.WindowBound | app/core/middleware.py:548-561 | if each entry was admitted below the limit, every window obeys the limit |
| TimeWindow.BetweenCounts | app/core/middleware.py:545-548 | what the bounds count are the entries between two times |
| TimeWindow.SinceCounts | app/core/middleware.py:545-548 | what the decisions count are the entries inside the window |
| LoginTracker.FailureTracker.CheckLoginAllowed | app/core/middleware.py:410-421 | answers exactly by the recorded, uncleared failures in the window, and may create an empty bucket |
| LoginTracker.FailureTracker.RecordLoginFailure | app/core/middleware.py:424-451 | recorded unless the address is at its limit or the cap is taken by other live addresses; afterwards the whole map is within the cap |
| LoginTracker.MakeRoom | app/core/middleware.py:437-445 | stale and empty buckets go when half the cap is used; a new address is turned away only when the cap is full of live ones |
| LoginTracker.RecordIn | app/core/middleware.py:436-451 | one failure in the whole table: recorded or turned away as the history demands, within the cap |
| LoginTracker.FailureTracker.ClearLoginFailures | app/core/middleware.py:479-489 | forgets the failures of that address and no others |
| LoginTracker.FailureTracker.Bounds | app/core/middleware.py:261-264 | between any two calls at most the cap of buckets is non-empty, none exceeds its limit, and no window holds more recorded failures of an address than the limit |
| LoginTracker.SweepKeepsLive | app/core/middleware.py:437-443 | what survives the sweep is exactly the set of addresses with a failure in the window |
| LoginTracker.LiveHaveBuckets | app/core/middleware.py:437-445 | every address with a failure in the window has a bucket |
| Idempotency.ResponseCache.GetCached | app/core/idempotency.py:142-171 | a hit is a fresh deep copy of the payload last accepted for the key, at most the TTL old, to a request whose fingerprint may see it; a miss means no such write, too old, or evicted for size; size is within the limit |
| Idempotency.ResponseCache.StoreResponse | app/core/idempotency.py:174-231 | a conflicting store changes no live entry; an accepted one replaces the entry of its key only; size is within the limit plus one |
| Idempotency.ResponseCache.Answer | app/core/idempotency.py:130-171 | the lookup after cleanup, with its hit, miss and conflict counts |
| Idempotency.ResponseCache.Tidy | app/core/idempotency.py:78-88 | cleanup keeps the cache true to the write history and evicts only oldest writes |
| Idempotency.ResponseCache.Put | app/core/idempotency.py:216-231 | the store after cleanup: refused exactly on a fingerprint clash |
| Idempotency.ResponseCache.StoreCopy | app/core/idempotency.py:214-231 | the part of a store under the lock |
| Idempotency.Cleanup | app/core/idempotency.py:78-88 | only unexpired entries stay, as many as the limit allows, the younger ones |
| Idempotency.Trim | app/core/idempotency.py:84-88 | exactly the surplus goes, and nothing older stays |
| Documents.JsonClone | app/core/idempotency.py:53-55 | an equal document that shares no dictionary or list with the original, at any depth |
| Documents.SameView | app/core/idempotency.py:53-55 | member-wise copies make equal documents |
| Documents.ViewShows | app/core/idempotency.py:53-55 | what is called equal: the same kind, and every member in order, with its key, at any depth |
| Idempotency.CorrectAfterCleanup | app/core/idempotency.py:78-88 | after cleanup every key still shows its last write or is missing for a recorded reason |
| Idempotency.OldestAreEvicted | app/core/idempotency.py:84-88 | a size eviction happens only to a full cache and only to writes no younger than any kept one |
| Idempotency.CorrectAfterWrite | app/core/idempotency.py:216-231 | a write makes its key show it and leaves every other key alone |
| Idempotency.KeysApart | app/core/idempotency.py:44-45 | scopes without colons share no cache keys |
| Oldest.DropOldest | app/core/oauth_nonce.py:78-80 | exactly n entries go, none of them younger than a kept one |
| SessionRegistry.Registry.RegisterSession | app/core/account_security.py:114-137 | evicts exactly when the limit of non-idle sessions is reached, and then the earliest one; raises exactly when the limit is not positive; an id may be registered again |
| SessionRegistry.Registry.IsSessionValid | app/core/account_security.py:150-159 | answers exactly as the history of register, touch, evict, remove, purge and clear demands |
| SessionRegistry.Registry.TouchSession | app/core/account_security.py:140-147 | refreshes the session in the list and the history alike |
| SessionRegistry.TouchIn | app/core/account_security.py:144-147 | the loop refreshes the first session with the id and no other |
| SessionRegistry.Registry.RemoveSession | app/core/account_security.py:162-166 | removes every session of that id |
| SessionRegistry.Registry.ActiveSessionCount | app/core/account_security.py:169-173 | counts the non-idle sessions, never more than the limit |
| SessionRegistry.Registry.ClearAllSessions | app/core/account_security.py:176-179 | no session of the user is valid afterwards |
| SessionRegistry.Registry.Bounds | app/core/account_security.py:114-137 | between any two calls a list is within the limit and in creation order; an id is in it no more often than it was registered, and purging changes no answer about an id registered once |
| SessionRegistry.TraceWithinRegistrations | app/core/account_security.py:114-189 | no sequence of calls makes an id more frequent than its registrations |
| SessionRegistry.PurgeAnswers | app/core/account_security.py:150-189 | purging never invalidates an id, and changes an answer exactly when its first session is idle and a later one is not |
| SessionRegistry.PurgeMayRevive | app/core/account_security.py:150-189 | two sessions of one id for which it does |
| SessionRegistry.PurgeShape | app/core/account_security.py:182-189 | only active sessions stay, in order |
| SessionRegistry.PurgeEffect | app/core/account_security.py:182-189 | what purging does to any one id |
| SessionRegistry.RemoveEffect | app/core/account_security.py:162-166 | what removal does to any one id |
| SessionRegistry.TouchEffect | app/core/account_security.py:140-147 | what a touch does to any one id; order and creation times stay |
| SessionRegistry.PopEffect | app/core/account_security.py:126-127 | what evicting the first session does to any one id |
| SessionRegistry.SeenAppend | app/core/account_security.py:131-135 | what appending a session does to any one id |
| SessionRegistry.AgreesRegister | app/core/account_security.py:131-135 | a registration below the limit keeps the list in agreement with its history |
| SessionRegistry.AgreesPurge | app/core/account_security.py:182-189 | so does a purge |
| ApiScopes.Phase1PreservesAuthorization | scripts/migrate_api_key_scopes.py:58-69 | phase 1 changes no decision, for any key and any request |
| ApiScopes.Phase2Authorization | scripts/migrate_api_key_scopes.py:72-93 | after phase 2 a request passes exactly when it passed before and the key is outside the legacy families, or its resource (or api) is listed |
| ApiScopes.Phase2Result | scripts/migrate_api_key_scopes.py:72-125 | what phase 2 leaves behind: the old text outside the legacy families, the joined scopes inside them |
| ApiScopes.Phase2IsSafe | scripts/migrate_api_key_scopes.py:72-93 | phase 2 never grants what was refused and agrees on every listed resource |
| ApiScopes.UnlistedIsLost | scripts/migrate_api_key_scopes.py:72-93 | a legacy key loses every request on a resource that is not listed |
| ApiScopes.DefaultListLosesDeals | scripts/migrate_api_key_scopes.py:8-44 | with the default list a key for reading loses GET /api/v1/deals |
| ApiScopes.ListedIsKept | scripts/migrate_api_key_scopes.py:8-44 | a migrated key of one action keeps it on every listed resource, however the path spells it |
| ApiScopes.DefaultsParse | scripts/migrate_api_key_scopes.py:172-187 | the default argument is read back as the default list |
| ApiScopes.Phase2AfterPhase1 | scripts/migrate_api_key_scopes.py:96-125 | running phase 1 first makes no difference to phase 2 |
| ApiScopes.LegacyAuthorization | app/core/deps.py:113-134 | a key of a legacy family is allowed exactly the actions of the family, on every resource |
| ApiScopes.OneScopeOnPath | app/core/deps.py:90-134 | what a key with one scope may do on a path, however the first segment is spelled and whatever follows it: its own resource, or all with the resource api; reading is GET, HEAD and OPTIONS |
| ApiScopes.OneScopeOnProfile | app/core/deps.py:94-96 | the same for the path /me, which belongs to the resource auth |
| ApiScopes.ScopeByScope | app/core/deps.py:113-134 | a key may do exactly what one of its scopes alone allows |
| ApiScopes.BareScopes | app/core/deps.py:119-124 | the scopes read and write allow their own action on everything |
| ApiScopes.StarAllowsAll | app/core/deps.py:117-118 | the scope * allows every request |
| ApiScopes.OtherWordsAllowNothing | app/core/deps.py:113-134 | any other word without a colon allows nothing |
| ApiScopes.SpelledResource | app/core/deps.py:86-107 | case, hyphens for underscores, white space and the rest of the path do not change the resource that a path names |
| ApiScopes.EverySegmentSpellsOne | app/core/deps.py:86-107 | every segment spells exactly one resource, which holds no hyphen, and that is the one needed |
| ApiScopes.UnnamedResource | app/core/deps.py:98-107 | a path outside the prefix, or with a blank first segment, needs the resource api |
| ApiScopes.ApiKeysForReading | app/core/deps.py:86-134 | GET /api/v1/api-keys is allowed to api_keys:read and to a migrated key for reading |
| ApiScopes.MigratedAuthorization | app/core/deps.py:113-134 | a migrated key is allowed exactly those actions on the listed resources |
| ApiScopes.ScopedPermits | app/core/deps.py:121-130 | which requests a list of resource:action scopes permits |
| ApiScopes.ParseScopes | app/core/deps.py:71-83 | the loop yields each scope once, in first-occurrence order |
| ApiScopes.ParseOfJoin | scripts/migrate_api_key_scopes.py:54-84 | parsing joined clean scopes gives them back |
| ApiScopes.NormalizeIsClean | scripts/migrate_api_key_scopes.py:54-55 | every parsed scope is non-empty, stripped, lower-case and free of commas |
| ApiScopes.KeepMembers | app/core/deps.py:71-74 | the scopes are the parts between commas, stripped, in lower case and not blank; nothing else |
| ApiScopes.NormalizeStripped | scripts/migrate_api_key_scopes.py:118 | stripping the stored text first does not change what is parsed |
| ApiScopes.Phase1Result | scripts/migrate_api_key_scopes.py:58-69 | what phase 1 leaves behind when it changes a key |
| ApiScopes.Phase1Renames | scripts/migrate_api_key_scopes.py:58-69 | phase 1 renames exactly the keys with the scopes read, write, or both |
| ApiScopes.Families | scripts/migrate_api_key_scopes.py:72-93 | which sets of scopes the legacy families are |
| ApiScopes.Phase2TargetOfFamily | scripts/migrate_api_key_scopes.py:72-93 | the phase 2 target depends on the legacy family alone |
| Text.SplitOfJoin | scripts/migrate_api_key_scopes.py:78-85 | splitting joined parts that hold no separator gives them back |
| SchemaClosure.CollectSchemas | scripts/generate_sdk_models.py:77-91 | terminates and selects exactly the defined schemas that references reach from the roots |
| SchemaClosure.Visit | scripts/generate_sdk_models.py:80-90 | one name from the worklist is selected and expanded, or dropped, and the invariant of the worklist is kept |
| SchemaClosure.PushRefs | scripts/generate_sdk_models.py:88-90 | pushes exactly the references not yet selected |
| SchemaClosure.RefsExactly | scripts/generate_sdk_models.py:32-43 | a name is found in a node if and only if some object inside it, at any depth, has a $ref under the schema prefix that ends in this name |
| SchemaClosure.PrintedNamesAreSelected | scripts/generate_sdk_models.py:178-243 | with well-formed references to defined schemas, every name printed for a selected schema is itself selected |
| SchemaClosure.NamesAreRefs | scripts/generate_sdk_models.py:94-175 | every name that either printer writes is a reference that the walk finds |
| SchemaClosure.ClosedHoldsReachable | scripts/generate_sdk_models.py:77-91 | a selection closed under references holds everything reachable |
| SchemaClosure.WantedIsReachable | scripts/generate_sdk_models.py:80-90 | whatever is on the worklist and defined is reachable |
| SchemaClosure.SelectKeepsPending | scripts/generate_sdk_models.py:87-90 | after a selection every wanted schema is selected or on the worklist |
| SchemaTypes.TypesAreSound | scripts/generate_sdk_models.py:94-175 | the printed type lets through every value that the schema admits, unless a union drops a member or further keys stand beside named ones |
| SchemaTypes.TypesAreExact | scripts/generate_sdk_models.py:94-175 | the printed type of a plain schema lets through exactly what the schema admits |
| SchemaTypes.PropertiesAreSound | scripts/generate_sdk_models.py:178-243 | the same for every property of a printed class, and no property is left out |
| SchemaTypes.DroppedAny | scripts/generate_sdk_models.py:126-129 | the choice between anything and another schema admits everything, but has the type of the other schema |
| SchemaTypes.ChoiceHasType | scripts/generate_sdk_models.py:124-136 | a union that drops nothing holds what its members hold |
| SchemaTypes.ChoiceType | scripts/generate_sdk_models.py:124-136 | both kinds of choice are printed as the union of their types |
| MarkerSplice.OverwriteOnly | scripts/generate_sdk_clients.py:256-263 | a second splice equals splicing the original text, if and only if the first text was free of the end marker; it always finds its markers |
| MarkerSplice.EndMarkerSurvives | scripts/generate_sdk_clients.py:256-263 | with the end marker in the generated text the second splice leaves a trace of the first |
| MarkerSplice.ScriptMarkersAreProper | scripts/generate_sdk_clients.py:280-291 | both pairs of markers in use meet what the theorems require |
| MarkerSplice.MarkersOnly | scripts/generate_sdk_clients.py:256-263 | a file of just two proper markers can be spliced |
| MarkerSplice.RegenerationIsStable | scripts/generate_sdk_clients.py:256-263 | regenerating the same text is a fixed point |
| MarkerSplice.SpliceThenExtract | scripts/generate_sdk_clients.py:261-263 | the spliced text can be read back and nothing outside the markers moves |
| MarkerSplice.WholeLinesAreTransparent | scripts/generate_sdk_clients.py:253-263 | text that ends its last line and does not hold the end marker is free of it also at the seam |
| MarkerSplice.MarkersAfterSplice | scripts/generate_sdk_clients.py:257-263 | where both markers stand after a splice |
| MarkerSplice.SecondSplice | scripts/generate_sdk_clients.py:256-263 | exactly what a second splice leaves of the first one |
| MarkerSplice.Find | scripts/generate_sdk_clients.py:257-258 | a found position is an occurrence inside the text |
| MarkerSplice.FoundFirst | scripts/generate_sdk_clients.py:257-258 | the first occurrence is found, and -1 means there is none |
| DailySummary.AtMostOnceExactly | app/jobs/intelligence.py:222-269 | over all runs of ticks, restarts and failed commits no organization gets two rows for a local day, exactly for zones, with or without daylight saving, whose offsets lie between the lag of the second clock read and nine hours |
| DailySummary.ZonesInUse | app/core/config.py:195 | with a lag of one second the default zone keeps the property; UTC and London do not |
| DailySummary.TwiceHappens | app/jobs/intelligence.py:227-242 | for every offset below zero or above nine hours a run with one restart writes two, whatever the lag |
| DailySummary.TwiceHappensAtMidnight | app/jobs/intelligence.py:228-242 | for every offset smaller than the lag a tick in the last second of the day writes a second one |
| DailySummary.RunKeepsOnce | app/jobs/intelligence.py:222-269 | the invariant over every run, in zones whose lead covers the lag |
| DailySummary.QueryDay | app/jobs/intelligence.py:228-234 | behind the 09:00 gate the UTC day of the query is the local day, when the lead of the zone covers the lag |
| DailySummary.EveryDayIsServed | app/jobs/intelligence.py:222-269 | in every run of ticks that finish before the next UTC midnight, a tick behind the gate that commits leaves a row for its organization and day if and only if no commit of that day was lost since the last restart; the row stays, and there is one per day |
| DailySummary.StuckSince | app/jobs/intelligence.py:232-233 | from a lost commit to the next tick of that day, memory names the day and no row appears |
| DailySummary.RunStaysGood | app/jobs/intelligence.py:222-269 | the invariant: memory names a day only if its row was written, or its commit lost since the last restart, and no row reaches into a later day |
| DailySummary.FoundRowIsToday | app/jobs/intelligence.py:234-245 | a row that the query finds is the row of this very day |
| DailySummary.TickServes | app/jobs/intelligence.py:222-269 | one tick serves its own day, whatever branch it takes |
| DailySummary.LostCommitSuppresses | app/jobs/intelligence.py:262-269 | a lost commit suppresses the rest of its day, and a restart ends that |
| DailySummary.LateFinishSuppressesNextDay | app/jobs/intelligence.py:234-245 | a run that ends after UTC midnight suppresses the next day |
| DailySummary.SummaryJob.MaybeGenerate | app/jobs/intelligence.py:222-269 | one tick is one step on memory and committed rows |
| DailySummary.SummaryJob.FindRow | app/jobs/intelligence.py:235-242 | found exactly when an ok row of the organization finished since then |
| DailySummary.SummaryJob.ProcessRestart | app/jobs/intelligence.py:232-233 | a restart loses the memory and no row |
| Redaction.PayloadNonInterference | app/core/privacy.py:150-159 | payloads that differ only in hidden places are persisted alike |
| Redaction.EditsUnderSecretsAreInvisible | app/core/privacy.py:121-159 | any value under a sensitive key, or more than eight levels down, can be exchanged without a trace |
| Redaction.SanitizeHides | app/core/privacy.py:121-147 | the same for any value, inherited key hint and depth |
| Redaction.HiddenEdit | app/core/privacy.py:121-147 | an edit at a hidden place changes nothing visible |
| Redaction.SanitizedHoldsNoSecrets | app/core/privacy.py:121-147 | in the output every value under a sensitive key is the redaction mark |
| Redaction.VisiblePlacesSurvive | app/core/privacy.py:121-159 | every place neither under a sensitive key nor more than eight levels down survives at its place: numbers, booleans and null as they are, objects with their keys, lists with their length, texts masked as the key around them demands |
| Redaction.PayloadSwitches | app/core/privacy.py:150-159 | a missing payload counts as an empty one; with redaction off the payload is persisted as it came, otherwise sanitized as a whole |
| Redaction.MaskByKey | app/core/privacy.py:135-146 | how a key, whatever its case and padding, chooses the mask of a text |
| SensitiveKeys.SensitiveExactly | app/core/sensitive_keys.py:35-43 | a key is sensitive if and only if, up to case and padding, a marker occurs in it or it is one of two session cookies, and it is not token_type |
| TokenConfig.ConfigRoundTrip | app/core/token_crypto.py:72-126 | decrypting an encrypted config gives it back without the diagnostic field, if and only if its secret values are stable |
| TokenConfig.ValueRoundTrip | app/core/token_crypto.py:83-121 | the same for one value; and what was just encrypted is never reported as invalid |
| TokenConfig.CiphertextIsOpened | app/core/token_crypto.py:84-89 | a secret that is itself a ciphertext of the key comes back opened |
| TokenConfig.PlainIsStable | app/core/token_crypto.py:31-32 | strings that do not look encrypted and other values that do not decrypt are stable |
| TokenConfig.EncryptingTwiceIsHarmless | app/core/token_crypto.py:84-97 | an encrypted value is normalised, so encrypting twice reads back like once |
| TokenConfig.NoneInvalid | app/core/token_crypto.py:113-125 | a config that was just encrypted has no invalid field |
| TokenConfig.MigrationMayRunTwice | alembic/versions/20260222_0012_encrypt_integration_tokens.py:47-50 | a run of the migration keeps what a stored config decrypts to exactly when the decrypted secrets are stable, and a second run then changes nothing |
| TokenConfig.EncryptConfig | app/core/token_crypto.py:72-98 | every non-empty string of a sensitive field is stored as a ciphertext of it, or of its plaintext if it was a ciphertext already; every other field is stored as it is, and the diagnostic field is dropped |
| TokenConfig.SecretsAreStored | app/core/token_crypto.py:72-98 | the same, for the function that the loop computes |
| TokenConfig.PlainTokenIsHidden | app/core/token_crypto.py:79-97 | a token that no key decrypts is never stored as it is, and decrypts to itself |
| TokenConfig.DecryptConfig | app/core/token_crypto.py:101-126 | the loop decrypts sensitive fields, clears undecryptable ciphertexts and lists them in order |
| TokenConfig.ReadIsExact | app/core/token_crypto.py:101-126 | what every field is read as, which ones are reported, and when the diagnostic field is written |
| TokenConfig.EncryptOne | app/core/token_crypto.py:83-97 | one field: an accidental ciphertext is opened before it is encrypted |
| TokenConfig.DecryptOne | app/core/token_crypto.py:110-123 | one field, and whether it is reported |
| ContextSelection.RankContextLayers | app/memory/retrieval.py:59-118 | the loop scores every layer and the result is the scored layers, sorted by key |
| ContextSelection.FresherRanksFirst | app/memory/retrieval.py:64-118 | of two layers that differ only in age the fresher one is never ranked behind, unless their sort keys are equal |
| ContextSelection.BoostedRanksFirst | app/memory/retrieval.py:64-118 | of two layers that differ in one respect only, the one from a critical source, the more urgent one, the daily one, or the one of an integration that reports a failure is always ranked in front |
| ContextSelection.FresherScoresMore | app/memory/retrieval.py:90-97 | a fresher layer scores no less; every hour costs three quarters of a point, for forty hours |
| ContextSelection.RankedFrom | app/memory/retrieval.py:75-107 | every ranked layer is an input layer with its score put on |
| ContextSelection.RankIsStableSort | app/memory/retrieval.py:109-118 | sorted by key, a permutation of the scored layers, layers of equal key in input order |
| ContextSelection.RankIgnoresInputOrder | app/memory/retrieval.py:59-118 | the key sequence does not depend on the order of the input |
| ContextSelection.KeySequenceIsDetermined | app/memory/retrieval.py:109-117 | any two sorted arrangements of the same layers show the same keys |
| ContextSelection.KeyTotal | app/memory/retrieval.py:109-117 | the sort key is a total order |
| ContextSelection.KeyTransitive | app/memory/retrieval.py:109-117 | the sort key order is transitive through all five components |
| ContextSelection.SelectWithin | app/memory/retrieval.py:297-306 | the loop keeps the selected layers: the longest ranked prefix whose total size fits the limit |
| ContextSelection.FittingIsLongestKept | app/memory/retrieval.py:297-306 | the number of layers selected is the longest fit |
| ContextSelection.SelectedContent | app/memory/retrieval.py:242-306 | the text of the selection meets the limit if and only if every ranked run that fits by its counts also fits by its text |
| ContextSelection.BuildSelection | app/memory/retrieval.py:242-306 | the selection of the ranked layers, its exact size, and when it meets the limit |
| ContextSelection.KeptContentMayExceedLimit | app/memory/retrieval.py:248-306 | ranking and selection keep a profile that just fits, although it exceeds the limit with its heading |
| ContextSelection.TrimToLimit | app/memory/retrieval.py:135-156 | the loop over the lines yields the trimmed text of TrimmedMeaning |
| ContextSelection.TrimmedMeaning | app/memory/retrieval.py:135-156 | the text itself, or its longest whole-line prefix within the limit plus the notice; and exactly when the result meets the limit |
| ContextSelection.TrimmedAtBoundary | app/memory/retrieval.py:139-156 | a text over the limit is cut at the last line boundary within the limit, and the notice follows |
| ContextSelection.BoundaryHasLine | app/memory/retrieval.py:147 | a line ends at every boundary |
| ContextSelection.LineHasBoundary | app/memory/retrieval.py:147 | and nowhere else; a return and a line feed are one break |
| ContextSelection.FittingIsLongest | app/memory/retrieval.py:147-154 | the number of lines kept is the longest fit |
| ContextSelection.LinesWithin | app/memory/retrieval.py:145-154 | the longest run of whole lines that fits |
| ContextSelection.LinesAddUp | app/memory/retrieval.py:147 | the lines of a text, with their breaks, add up to the text |
| ContextSelection.TrimmedTextMayExceedLimit | app/memory/retrieval.py:139-156 | a text of two characters, trimmed to one, comes back as the notice |

## Left out

- Redis branches, SQL sessions and queries, FastAPI dispatch, Slack and model calls: foreign I/O; tables are sequences or maps.
- The regular expression engine: a scanner is any function that splits a text into gaps and matches of the necessary shape (no brackets; a dash, an at sign, or the minimal length).
- HMAC, Fernet, `json.dumps`, two-decimal rounding, and the string masks of the redaction: function parameters.
- Lower-casing and `int()` beyond ASCII: `Text` maps ASCII letters and digits only.
- `RATE_LIMIT_ENABLED`, exempt paths and lock timeouts of the limiter: they bypass the modelled step.
- Interleavings inside one call: each lock-protected call and each scheduler tick is one step; the several clock reads of a session registration are one.
- Changing limits at run time: the limits of a limiter, tracker, cache or registry are fixed for its life (those of the per-route limiter are not).
- OAuthState.NonceStore.ConsumeOnce: promises nothing about replays once the cap has evicted an unexpired nonce; the ghost flag `overflowed` marks that.
- AuditChain.HeadCommitment: takes from `json.dumps` that a payload is an object text with bars and backslashes in strings only, and from `isoformat` that a time holds no bar.
- LoginTracker.FailureTracker.RecordLoginFailure: failures dropped at the limit or at the cap are not counted, as in the code.
- Idempotency.ResponseCache.GetCached: speaks of cache keys; a scope with a colon can share one with another scope. Legacy entries without a payload field are not modelled.
- DailySummary.AtMostOnceExactly: times are whole seconds; a zone is the set of its UTC offsets, and any tick may see any of them; ticks do not overlap.
- SchemaClosure.CollectSchemas: the roots are a parameter; the walk over the operations that yields part of them is not modelled.
- SchemaTypes.TypesAreExact: speaks of references, enumerations, kinds, elements, further keys and choices; the named properties of an object are left out, as they are printed as classes, and all numbers are one kind.
- SchemaClosure.PrintedNamesAreSelected: requires references to be strings under the schema prefix; does not speak of the hard-coded alias line at the end of both outputs, and unions are de-duplicated as trees rather than as printed strings.
- Redaction.PayloadNonInterference: dictionary keys are strings, so the clash of keys equal only after `str` does not arise.
- TokenConfig.DecryptConfig: the `str()` of the diagnostic list is written without quotes inside; that text only matters if it decrypts.
- ContextSelection.FresherRanksFirst: scores are real numbers, without floating-point error, and `round` is monotone and at most half a hundredth off; the explanations of debug mode are left out.
- ContextSelection.BuildSelection: headings are as long as the source name of the layer, so upper-casing must not change its length; the texts of the layers are parameters.
- Assembly of the layers, profile filters, lockout after failed passwords, password rules, and the digest jobs that follow the daily summary: they would add only easy members.
