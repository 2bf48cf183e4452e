# Abraxis: verified models of its stateful cores

Abraxis is a set of Go services for authentication and authorization: the `authz` policy agent,
the identity service Aegis and the gateway Prism. This project models the parts of it that hold
state or parse text, in Dafny, and proves what those parts guarantee over all inputs, all runs and all
interleavings. Where a guarantee one would expect does not hold of the code, the project proves that
too, and states the exact condition under which it does hold.

`dafny verify dfyconfig.toml` checks everything.

| file | what it models |
|---|---|
| `Text.dfy` | the string order behind `sort.Strings`, `strings.Join`, `strings.Split` |
| `NormalForm.dfy` | the printer behind the decision-cache key |
| `Fields.dfy`, `FieldHeap.dfy` | nested get/set and field filtering, on values and on Go's shared maps |
| `MemoryCache.dfy`, `KeyList.dfy` | the LRU/TTL store, its operations atomic, and the key list behind it |
| `Agent.dfy` | policy evaluation behind the cache; caching never shows, exactly when |
| `CacheRaces.dfy`, `CacheSchedules.dfy` | agent and store split at every lock boundary; what schedules can break, exactly when |
| `EventBus.dfy`, `BusRaces.dfy` | the fan-out bus, with serialised and with concurrent publishers |
| `SyncAuth.dfy`, `SyncExact.dfy`, `SyncSnapshot.dfy` | subscribe, snapshot, forward: as interleaved steps, what they deliver exactly, and the snapshot loop itself |
| `RateLimiter.dfy` | the fixed-window counter of the Redis script |
| `RateLimitConfigs.dfy`, `RateBounds.dfy` | configurations in two indexes, the load-driven rate, and when its bounds hold |
| `Violations.dfy` | the ring buffer of recent violations |
| `Permissions.dfy` | permission checks behind a result cache |
| `Jwks.dfy`, `Tokens.dfy` | key rotation at Aegis, the key set Prism fetches, token pairs and refreshing |
| `Base64.dfy`, `PasswordHasher.dfy`, `ApiKeys.dfy` | PHC strings and API keys, written and read back |

How the pieces fit: a class has the fields of the Go type and methods that follow the Go code; each
method is proved against a function or relation on values (`View()`, `Step`, `Next`), and the results about
whole runs are lemmas about that relation. What is not in the repository (the Rego compiler and evaluator,
SHA-256, Argon2, UUID parsing, the caller's transformers) is a function-valued parameter, so every
result holds for all of them; clocks, random draws and failures of the database, Redis or the
network are parameters of the operation they affect.

Where code and documentation differ the code is modelled. `NextVersion` returns the current version, so a
snapshot can be stamped ahead of the increments that follow it (`SyncExact.SnapshotOrderExactly`). The
snapshot, described as full, starts at the offset of page 1, which the repository computes as
`page * pageSize` (`SyncExact.FirstPageMissed`); and of several roles a pair
has it carries one (`SyncAuth.SnapshotKeepsOne`). A "manage" permission is described as implying
all actions, but not on the wildcard resource (`Permissions.ManageNotGlobal`). A refreshed access token is
of the refresh type and carries no roles (`Tokens.RefreshChain`).

## Model

| member | source | states |
|---|---|---|
| `Text.StrLeExactly` | authz/helper.go:55 | the order strings are sorted in: a prefix comes first, else the lower character where the two first differ |
| `Text.JoinSplit` | aegis/internal/common/passwordhasher/hasher.go:82 | joining what a text was split into gives the text back, and no part holds the separator |
| `NormalForm.CollectSortedKeys` | authz/helper.go:58-64 | whatever order the map is ranged over in, the keys come out sorted, each once |
| `NormalForm.NormalizeItems` | authz/helper.go:45-56 | an array is refused exactly when one of its items is, and otherwise printed from its sorted items |
| `NormalForm.NormalizeEntry` | authz/helper.go:66-72 | an entry of an object is printed as key, colon and the value's form, and refused exactly when the value is |
| `NormalForm.NormalizeFields` | authz/helper.go:57-74 | the same for an object, printed from its entries by sorted key |
| `NormalForm.NormalizeForHashing` | authz/helper.go:32-83 | fails exactly on values with a part json.Marshal refuses, and otherwise yields the normal form |
| `NormalForm.NormAtoms` | authz/helper.go:33-44 | null, booleans, numbers and foreign values print as JSON, strings as they are |
| `NormalForm.SameMeaningSameNorm` | authz/helper.go:45-74 | for all values: equal up to array order at any depth implies the same normal form |
| `NormalForm.SameNormSameMeaning` | authz/helper.go:32-83 | on clean values the printed form determines the value up to array order |
| `NormalForm.NormFaithful` | authz/helper.go:32-83 | on clean values, same normal form if and only if equal up to array order at any depth |
| `NormalForm.NormSuffix` | authz/helper.go:20-21 | behind any text and a colon, the form of a clean value that is no string with a colon is read back uniquely from the end |
| `NormalForm.SeamlessExactly` | authz/helper.go:20-21 | exactly the clean strings with a colon can be read as part of the text before them |
| `NormalForm.UnquotedClash` | authz/helper.go:43-44 | every value other than a string shares its form with the string that spells it |
| `NormalForm.CommaClash` | authz/helper.go:45-56 | an array of one string with a comma prints like the array of the two halves |
| `NormalForm.BracketClash` | authz/helper.go:45-56 | an array of two strings that hold an opening and a closing bracket prints like an array in an array |
| `NormalForm.BlankClash` | authz/helper.go:45-56 | the array of just the empty string prints like the empty array |
| `NormalForm.ColonClash` | authz/helper.go:66-74 | a colon inside a key reads as the one behind it |
| `Fields.GetExactly` | authz/helper.go:93-116 | a path reads a value other than nil if and only if maps lead along it to that value |
| `Fields.SetGet` | authz/helper.go:119-140 | what is written along a path is read back along it |
| `Fields.SetOther` | authz/helper.go:119-140 | a path that parts from the written one reads as before |
| `Fields.SetSame` | authz/helper.go:93-140 | writing back what a path reads changes nothing |
| `Fields.SetKeeps` | authz/helper.go:93-140 | copying one field of an input over keeps every field copied before, however the two paths overlap |
| `Fields.FilterReads` | authz/agent.go:463-482 | the filtered map reads like the input on every configured field, and is a part of the input |
| `Fields.FilterExact` | authz/agent.go:463-482 | two inputs get the same filtered map if and only if they agree on every configured field |
| `Fields.FilterExactAlike` | authz/agent.go:463-482 | the same up to array order |
| `Fields.FilteredClean` | authz/agent.go:463-482 | filtering keeps any input clean |
| `Fields.KeyFaithful` | authz/agent.go:485-499 | for inputs of any kind whose filtered part is clean and which are no strings with a colon, and for any queries: two requests feed the same text to the hash if and only if the query is the same and the inputs agree, up to array order, on every configured field or, where they are no maps or none is configured, altogether |
| `Fields.QueryClash` | authz/helper.go:20-21 | a string with a colon shares its text with another query on the part behind the colon |
| `FieldHeap.GetNestedValue` | authz/helper.go:93-116 | on shared maps, returns the very entry the path leads to, whose content is what the value-level read gives |
| `FieldHeap.EnsureNested` | authz/helper.go:130-136 | finds or makes the nested map without writing to any map of the input |
| `FieldHeap.PutEntry` | authz/helper.go:124-128 | writes the last segment only into an owned map; an aliased one already holds that value |
| `FieldHeap.SetNestedValue` | authz/helper.go:119-140 | in place: the owned tree then holds the updated value, and every map of the input is unchanged |
| `FieldHeap.FilterInputFields` | authz/agent.go:463-482 | the result represents the filtered value although it shares the input's nested maps, and the input's maps are untouched |
| `MemoryCache.Cache.constructor` | authz/cache/memory.go:25-34 | an empty store, capacity 1000 when none is given |
| `MemoryCache.Cache.Get` | authz/cache/memory.go:37-62 | a live entry is returned and touched, an expired one removed and pruned, a missing one reported |
| `MemoryCache.Cache.PruneKeyByTime` | authz/cache/memory.go:140-147 | drops the first occurrence of the key only |
| `MemoryCache.Cache.EvictLRU` | authz/cache/memory.go:111-137 | removes an entry of minimal lastAccess, whatever order the map is ranged over in |
| `MemoryCache.Cache.MakeRoom` | authz/cache/memory.go:75-78 | evicts exactly when the store is full; no entry is added or changed |
| `MemoryCache.Cache.Set` | authz/cache/memory.go:65-90 | evicts first when full, then stores the entry with its expiry and lists its key |
| `MemoryCache.Cache.Delete` | authz/cache/memory.go:93-99 | the entry is gone and one listing of its key with it |
| `MemoryCache.Cache.Clear` | authz/cache/memory.go:102-108 | nothing is cached or listed |
| `MemoryCache.Cache.CleanupExpired` | authz/cache/memory.go:150-161 | a key is cached afterwards if and only if it was and its expiration is 0 or not yet past, with its entry unchanged, in any iteration order |
| `MemoryCache.EvictionExact` | authz/cache/memory.go:111-137 | an eviction on a non-empty cache removes exactly one entry, of minimal lastAccess |
| `MemoryCache.LruInvariant` | authz/cache/memory.go:37-161 | over every run: within capacity, and every cached key is listed despite duplicates and first-occurrence pruning |
| `MemoryCache.CleanupInvisible` | authz/cache/memory.go:150-161 | in every run a cleanup changes the answer of no Get at that or any later instant |
| `MemoryCache.SetServes` | authz/cache/memory.go:37-90 | in every run a Get is answered with the decision last set under its key until that expires, as long as only Gets and cleanups come between |
| `MemoryCache.LastAccessIsLastUse` | authz/cache/memory.go:37-90 | over every run, lastAccess is the instant of the last Get or Set of the key |
| `MemoryCache.FullSetEvictsLeastUsed` | authz/cache/memory.go:65-137 | over every run, a Set on a full cache drops exactly the entry used longest ago |
| `MemoryCache.DuplicatesPileUp` | authz/cache/memory.go:88-89 | for every capacity but 1, n Sets of one key list it n times |
| `KeyList.ListExactly` | authz/cache/memory.go:65-161 | throughout a run the list names every cached key exactly once if and only if no Set finds its key still cached after making room |
| `KeyList.ListBoundedExactly` | authz/cache/memory.go:65-90 | the length of the list is bounded over all runs if and only if the capacity is 1 |
| `Agent.NewAgent` | authz/agent.go:181-233 | an agent exactly when there are policies and they compile, with them prepared under the default query and an empty cache |
| `Agent.AuthzAgent.GenerateCacheKey` | authz/agent.go:485-499 | the hash of query and filtered input, or none exactly when the input cannot be normalised |
| `Agent.AuthzAgent.ApplyTransformers` | authz/agent.go:281-289 | the composition of the transformers, stopping at the first that fails |
| `Agent.AuthzAgent.EvaluateQuery` | authz/agent.go:280-328 | a hit answers from the cache, a miss evaluates and stores, an error stores nothing |
| `Agent.AuthzAgent.EvaluateLocalPolicy` | authz/agent.go:330-371 | an error exactly if the query is not prepared or its evaluation fails; allowed exactly for a result of true or an object with allowed true; the reason of an object that has one |
| `Agent.AuthzAgent.UpdatePolicies` | authz/agent.go:441-460 | policies that compile are prepared and the cache cleared; others are recorded but change neither |
| `Agent.RunTransparent` | authz/agent.go:236-328 | a run whose policies in force answer alike any two requests with one key answers every request as plain evaluation would, through updates, evictions, expiries and cleanups |
| `Agent.AnswersMeanResults` | authz/agent.go:280-371 | in such a run every evaluation whose transformers succeed is allowed if and only if the policies in force evaluate the transformed input to true or to an object with allowed true, has that object's reason, and is an error if and only if that evaluation fails or the query is not the prepared one |
| `Agent.FailedTransformer` | authz/agent.go:281-289 | in every run an evaluation one of whose transformers fails is an error and changes nothing |
| `Agent.MarksExactly` | authz/agent.go:291-325 | a decision is marked cached if and only if a live entry served it; otherwise it carries the instant of evaluation and is stored for one TTL |
| `Agent.ClashRun` | authz/agent.go:291-325 | otherwise there is a run in which a request gets another request's answer |
| `Agent.TransparentExactly` | authz/agent.go:236-328 | caching never shows in any run if and only if it is off or every compiling policy set respects the key |
| `Agent.KeyOfExactly` | authz/agent.go:485-499 | under the conditions of KeyFaithful, requests share a key if and only if they are the same request or the hash collides |
| `CacheRaces.NextInv` | authz/cache/memory.go:37-90 | every single step of any goroutine keeps: each entry and each copy in flight stems from a genuine Set |
| `CacheRaces.SoloMiss` | authz/cache/memory.go:37-44 | undisturbed, the split Get misses as the atomic one does |
| `CacheRaces.SoloHit` | authz/cache/memory.go:37-62 | undisturbed, the split Get serves and touches a live entry as the atomic one does |
| `CacheRaces.SoloExpired` | authz/cache/memory.go:46-54 | undisturbed, the split Get removes an expired entry as the atomic one does |
| `CacheRaces.BoundedStaleness` | authz/cache/memory.go:37-90 | in every interleaving a hit carries a decision some evaluator stored under that key, at most one TTL earlier if there is a TTL, computed by a policy version installed before that store |
| `CacheSchedules.StaleHitAfterUpdate` | authz/agent.go:320-343 | whenever two policies decide requests with one key differently, some interleaving serves the old answer after the update has finished |
| `CacheSchedules.RaceTransparentExactly` | authz/agent.go:281-343 | whatever the TTL, every hit of every interleaving is what the latest policy decides for every request with its key, if and only if all policies decide alike all requests with one key that the transformers can yield |
| `CacheRaces.StepCapacity` | authz/cache/memory.go:37-161 | one step of any goroutine keeps the capacity unless it writes an absent entry back into a full store or adds a key to a full store that lists none |
| `CacheRaces.CapacityExactly` | authz/cache/memory.go:37-161 | an interleaved run stays within capacity throughout if and only if it has no such step |
| `CacheSchedules.GetReinstatesEvicted` | authz/cache/memory.go:38-62 | for every capacity there is an interleaving in which a Get writes an evicted entry back, one over capacity and unlisted |
| `CacheSchedules.GetReinstatesCleared` | authz/cache/memory.go:38-62 | through Clear any number of entries can be written back, none of them listed, so that the next Set has nothing to evict |
| `EventBus.Channel.Send` | aegis/internal/grpc/eventbus.go:49-52 | the event is appended if there is room and dropped otherwise; only on an open channel |
| `EventBus.EventBusImpl.Subscribe` | aegis/internal/grpc/eventbus.go:26-32 | the subscriber gets a fresh empty channel, every other buffer is as before |
| `EventBus.EventBusImpl.Unsubscribe` | aegis/internal/grpc/eventbus.go:34-41 | the channel is closed and forgotten, so that it is closed only once |
| `EventBus.EventBusImpl.SendAll` | aegis/internal/grpc/eventbus.go:48-53 | every subscriber is offered the event exactly once, in any iteration order |
| `EventBus.EventBusImpl.Publish` | aegis/internal/grpc/eventbus.go:43-54 | the next version is offered to every subscriber, and no closed channel is sent on |
| `EventBus.PublishedMeans` | aegis/internal/grpc/eventbus.go:43-54 | the version goes up by one, and exactly the subscribers with room get the event, stamped with that version, behind what they have |
| `BusRaces.NextInv` | aegis/internal/grpc/eventbus.go:26-54 | every step of any publisher, subscriber or receiver keeps the bus invariant |
| `BusRaces.SendTakes` | aegis/internal/grpc/eventbus.go:48-53 | in every reachable bus a send appends the publisher's own version to that channel if it has room, and changes no other channel |
| `BusRaces.SubscriptionSteps` | aegis/internal/grpc/eventbus.go:26-41 | subscribing makes a fresh open channel, unsubscribing closes the subscriber's, and no other channel changes |
| `BusRaces.BusSafety` | aegis/internal/grpc/eventbus.go:14-105 | in every interleaving: no send on and no second close of a closed channel, no buffer over capacity, every publication of the run has its own, increasing version, no event accepted twice |
| `BusRaces.VersionsOutOfOrder` | aegis/internal/grpc/eventbus.go:43-54 | with two publishers in flight a subscriber can receive version 2 before version 1, at any capacity |
| `BusRaces.OrderExactly` | aegis/internal/grpc/eventbus.go:43-54 | runs with at most k publishers in flight all deliver in version order if and only if k is at most 1 |
| `SyncAuth.NextPageOk` | aegis/internal/grpc/sync_auth.go:30-65 | every step keeps: the rows read belong to the page's users, and the client has heard of no later user in the snapshot |
| `SyncAuth.StampsExactly` | aegis/internal/grpc/sync_auth.go:44-58 | a page sends one message for each pair of each row, all stamped with the current version |
| `SyncExact.NextTold` | aegis/internal/grpc/sync_auth.go:20-105 | every role change, row read, send and forward keeps: buffer, page or client holds the last change the channel took, or else what the row carried |
| `SyncExact.ConvergesExactly` | aegis/internal/grpc/sync_auth.go:20-105 | in every interleaving, once drained, and unless the pair's latest change was dropped, client and server agree on it if and only if it changed since Subscribe, or has no role, or has a single one and its user stands at page 1's offset or later |
| `SyncExact.SnapshotCoversExactly` | aegis/internal/adapters/postgres/user_repository.go:251-333 | for a pair that does not change, client and server agree after the snapshot if and only if it has no role, or a single one and the user stands at page 1's offset or later |
| `SyncExact.FirstPageMissed` | aegis/internal/adapters/postgres/user_repository.go:251-262 | with the repository's offsets that is: no role, or a single one and a user from number 100 on |
| `SyncAuth.SnapshotKeepsOne` | aegis/internal/adapters/postgres/user_repository.go:316-330 | of several roles of an unchanged pair the client ends with one, and it can be any |
| `SyncAuth.EventConservation` | aegis/internal/grpc/sync_auth.go:77-90 | forwarded plus buffered is what was published since Subscribe less exactly the events that met a full buffer; versions strictly increase |
| `SyncAuth.SnapshotVersionRunsAhead` | aegis/internal/grpc/eventbus.go:56-58 | across the snapshot border versions are not monotone: a reachable stream sent 2 and then 1 |
| `SyncExact.SnapshotOrderExactly` | aegis/internal/grpc/sync_auth.go:67-90 | in every run, everything forwarded carries a later version than the end marker if and only if nothing was waiting when the snapshot ended |
| `SyncAuth.DropDiverges` | aegis/internal/grpc/eventbus.go:49-52 | one dropped event can leave the client with older roles than its snapshot had |
| `SyncExact.DrainedExactly` | aegis/internal/grpc/sync_auth.go:20-105 | in every run, once drained, the client holds the last change the channel took, or else what its row carried; so it agrees with the server if and only if that is what was written last |
| `SyncSnapshot.GetRoles` | aegis/internal/adapters/postgres/user_repository.go:316-330 | of each pair the role of its last row is kept |
| `SyncSnapshot.LastRoleExactly` | aegis/internal/adapters/postgres/user_repository.go:316-330 | the role kept of a pair is that of a row behind which no other row of the pair comes |
| `SyncSnapshot.RolesKept` | aegis/internal/adapters/postgres/user_repository.go:303-333 | so a user's RoleMap holds exactly its pairs, each with one of its roles |
| `SyncSnapshot.SendUser` | aegis/internal/grpc/sync_auth.go:39-58 | one message for each pair of the user, with one of its roles, in any iteration order |
| `SyncSnapshot.SendUsers` | aegis/internal/grpc/sync_auth.go:38-59 | one message for each pair of the page's users, with one of its roles |
| `SyncSnapshot.SendSnapshot` | aegis/internal/grpc/sync_auth.go:29-65 | the loop ends, having sent every pair of every user from page 1's offset on exactly once, with one of its roles, and no other |
| `RateLimiter.RateLimiterParams.Validate` | aegis/internal/adapters/ratelimiter/ratelimiter.go:88-102 | accepts exactly positive limit and burst with a key function for the custom strategy; fills in the default strategy and nothing else |
| `RateLimiter.RedisRateLimiter.Script` | aegis/internal/adapters/ratelimiter/ratelimiter.go:232-248 | admits exactly below burst; an admission counts in the running window or opens one |
| `RateLimiter.RedisRateLimiter.Allow` | aegis/internal/adapters/ratelimiter/ratelimiter.go:223-287 | the script's verdict with its counts and times; when Redis fails the request is allowed and nothing stored |
| `RateLimiter.RemainingInRange` | aegis/internal/adapters/ratelimiter/ratelimiter.go:271-278 | after any run Remaining is between 0 and burst, and 0 when a request is denied |
| `RateLimiter.RemainingExactly` | aegis/internal/adapters/ratelimiter/ratelimiter.go:271-278 | after every run exactly Remaining more requests for the key are admitted at that instant, if and only if the TTL is at least a whole second |
| `RateLimiter.WindowExact` | aegis/internal/adapters/ratelimiter/ratelimiter.go:232-248 | a window admits exactly the first burst requests for its key until it closes, whatever other keys do |
| `RateLimiter.WindowBoundExactly` | aegis/internal/adapters/ratelimiter/ratelimiter.go:232-250 | no interval of a window's length admits 2 * burst requests in any run, if and only if the TTL is at least a whole second |
| `RateLimiter.BoundIsTight` | aegis/internal/adapters/ratelimiter/ratelimiter.go:232-248 | for every burst there is a run that admits 2 * burst - 1 |
| `RateLimiter.NoWindowNoLimit` | aegis/internal/adapters/ratelimiter/ratelimiter.go:242-250 | with a whole-second TTL below 1 no request is ever denied |
| `RateLimiter.RetryHint` | aegis/internal/adapters/ratelimiter/ratelimiter.go:280-283 | the hint lies the whole seconds of 1/limit ahead; a retry at the hint is admitted if and only if it lies past the running window's expiry, so for limits above 1 never |
| `RateLimitConfigs.RateLimitService.Prepare` | aegis/internal/service/service_rate_limit.go:143-179 | accepts exactly the parameters whose completed configuration is valid, and fills in the defaults |
| `RateLimitConfigs.RateLimitService.CreateRateLimit` | aegis/internal/service/service_rate_limit.go:142-208 | on success one fresh object is in both indexes; on failure nothing changes |
| `RateLimitConfigs.RateLimitConfig.Apply` | aegis/internal/service/service_rate_limit.go:289-334 | accepts exactly valid updates; either way exactly the fields before the first invalid one are written |
| `RateLimitConfigs.RateLimitService.UpdateRateLimit` | aegis/internal/service/service_rate_limit.go:279-341 | through the shared object; an accepted update also points the key at this object |
| `RateLimitConfigs.RateLimitService.DeleteRateLimit` | aegis/internal/service/service_rate_limit.go:398-411 | the id is gone, and whatever its key led to is out of force |
| `RateLimitConfigs.RateLimitService.UpdateSystemLoad` | aegis/internal/service/service_rate_limit.go:665-688 | a load in [0,1] reaches every adaptive config and no other; any other load changes nothing |
| `RateLimitConfigs.RateLimitService.UpdateAdaptiveLoad` | aegis/internal/service/service_rate_limit.go:691-706 | the load of one adaptive config moves, clamped to [0,1] |
| `RateLimitConfigs.RateLimitService.UpdateAdaptiveRateLimits` | aegis/internal/service/service_rate_limit.go:735-764 | every adaptive config gets the rate its load calls for, in any iteration order |
| `RateLimitConfigs.CreateMeans` | aegis/internal/service/service_rate_limit.go:143-201 | which parameters are refused, and every field of the configuration the others make: active, at load 0.5, with the defaults for strategy, Min and Max |
| `RateLimitConfigs.CreatedMeans` | aegis/internal/service/service_rate_limit.go:203-208 | the new config is what its key and its id lead to, and nothing else changes |
| `RateLimitConfigs.UpdateMeans` | aegis/internal/service/service_rate_limit.go:289-334 | which updates are refused, and each field afterwards: written exactly if given and reached before the first invalid one |
| `RateLimitConfigs.UpdatedMeans` | aegis/internal/service/service_rate_limit.go:279-341 | only the config of that id is written; exactly an accepted update points its key at it |
| `RateLimitConfigs.DeletedMeans` | aegis/internal/service/service_rate_limit.go:398-411 | the id and the key of its config leave the indexes, and nothing else does |
| `RateLimitConfigs.LoadMeans` | aegis/internal/service/service_rate_limit.go:665-706 | a load in [0,1] becomes that of every adaptive config and no other; an added load is clamped to [0,1] |
| `RateLimitConfigs.PassMeans` | aegis/internal/service/service_rate_limit.go:735-764 | a pass sets an adaptive rate to the whole requests of the interpolated rate, cut toward zero, and changes nothing else |
| `RateLimitConfigs.RunInv` | aegis/internal/service/service_rate_limit.go:203-208 | over every run each config in the (type, target) index sits under its own key and is in the id index, and loads are in [0,1] |
| `RateLimitConfigs.BijectionExactly` | aegis/internal/service/service_rate_limit.go:203-208 | the two indexes stay in bijection throughout a run if and only if it never re-creates a live key |
| `RateLimitConfigs.DeleteOrphans` | aegis/internal/service/service_rate_limit.go:408-411 | re-creating a key and deleting the old config leaves the new one unreachable by its key |
| `RateLimitConfigs.KeyExact` | aegis/internal/service/service_rate_limit.go:769-771 | for types without a colon the index key determines type and target |
| `RateLimitConfigs.RefusedUpdateRenames` | aegis/internal/service/service_rate_limit.go:289-300 | a refused update keeps its earlier writes |
| `RateLimitConfigs.RefusedUpdateBreaksBounds` | aegis/internal/service/service_rate_limit.go:313-330 | Min < rate can be lost through a refused update |
| `RateBounds.UpdateBoundsExactly` | aegis/internal/service/service_rate_limit.go:289-334 | an update leaves Min < rate < Max if and only if the values it leaves are in order; an accepted one always does, a refused one only if it stopped at a field that is not positive |
| `RateLimitConfigs.RateBetween` | aegis/internal/service/service_rate_limit.go:746-748 | the truncated rate lies between Min and Max in either order, is Max at load 0 and Min at load 1 |
| `RateLimitConfigs.RateFalls` | aegis/internal/service/service_rate_limit.go:746-748 | when Min <= Max the rate never rises with the load |
| `RateBounds.PassBoundsExactly` | aegis/internal/service/service_rate_limit.go:744-754 | a pass leaves Min < rate < Max if and only if the interpolated rate keeps a whole request's distance from the end truncation rounds to |
| `RateBounds.PassBoundsPlain` | aegis/internal/service/service_rate_limit.go:744-754 | for a Min that is not negative: if and only if there is some load and at least one request's worth of range left |
| `RateBounds.PassPositiveExactly` | aegis/internal/service/service_rate_limit.go:744-754 | a pass leaves a positive rate if and only if the interpolated rate is at least 1 |
| `RateLimitConfigs.RunRateBound` | aegis/internal/service/service_rate_limit.go:665-764 | in every run, after each updater pass every adaptive config's load is in [0,1] and its rate between its Min and Max |
| `RateLimitConfigs.FullLoadRefuses` | aegis/internal/service/service_rate_limit.go:327-333 | at full load an adaptive config refuses every update that leaves rate, Min and strategy alone |
| `RateBounds.UpdateAfterPass` | aegis/internal/service/service_rate_limit.go:327-333 | after a pass an update that leaves strategy, rate and bounds alone is accepted if and only if its burst is valid and the pass kept the bounds |
| `RateBounds.BoundsExactly` | aegis/internal/service/service_rate_limit.go:279-341 | Min < rate < Max holds throughout a run if and only if no update leaves values out of order and no pass truncates a rate onto or past a bound |
| `RateLimitConfigs.RateReachesZero` | aegis/internal/service/service_rate_limit.go:166-172 | with the default Min, a rate of 1 becomes 0 at full load |
| `RateBounds.PositiveExactly` | aegis/internal/service/service_rate_limit.go:735-764 | every rate is positive throughout a run if and only if no pass interpolates one below 1 |
| `Violations.ViolationLog.constructor` | aegis/internal/service/service_rate_limit.go:105-115 | an empty log for every capacity of at least 1 |
| `Violations.ViolationLog.RecordViolation` | aegis/internal/service/service_rate_limit.go:582-620 | the log gains the violation, and the buffer still holds its last entries, each where its age says |
| `Violations.ViolationLog.GetRecentViolations` | aegis/internal/service/service_rate_limit.go:636-662 | ends, and returns the newest min(limit, recorded, capacity) violations, newest first |
| `Permissions.UnderIsPrefix` | aegis/internal/service/service_permission.go:293-298 | equality or prefix up to ':' is exactly: the ':' path of the one is a prefix of the path of the other |
| `Permissions.GrantsMonotone` | aegis/internal/service/service_permission.go:229-305 | what is granted on a resource is granted on everything below it, and with more roles |
| `Permissions.GrantsMeans` | aegis/internal/service/service_permission.go:229-305 | granted means: a parsable role of the call holds a permission whose action and resource cover what is asked |
| `Permissions.ManageNotGlobal` | aegis/internal/service/service_permission.go:287-298 | "manage" on "*" covers other actions only on a resource literally named "*" or below it |
| `Permissions.PermissionService.CreatePermission` | aegis/internal/service/service_permission.go:60-108 | succeeds exactly for a complete, new permission; then it is stored and the cache empty; otherwise nothing changes |
| `Permissions.PermissionService.UpdatePermission` | aegis/internal/service/service_permission.go:121-146 | only the description changes, and the cache is empty; a failure changes nothing |
| `Permissions.PermissionService.DeletePermission` | aegis/internal/service/service_permission.go:149-175 | refuses unknown and system permissions; otherwise it and its grants go, and the cache is empty |
| `Permissions.PermissionService.AddPermissionToRole` | aegis/internal/service/service_permission.go:198-208 | the grant is in the join and the cache empty; a failure changes nothing |
| `Permissions.PermissionService.RemovePermissionFromRole` | aegis/internal/service/service_permission.go:211-221 | the grant is gone and the cache empty; an absent grant is an error |
| `Permissions.PermissionService.MatchPermission` | aegis/internal/service/service_permission.go:263-298 | matched if and only if action and resource are each equal, "*" or, for the resource, below the permission's, or a "manage" permission is on that resource or one above it |
| `Permissions.PermissionService.RoleIds` | aegis/internal/service/service_permission.go:243-253 | exactly the ids of the parsable roles |
| `Permissions.PermissionService.AnyMatch` | aegis/internal/service/service_permission.go:262-299 | whether one of the listed permissions entitles the action on the resource |
| `Permissions.PermissionService.HasPermission` | aegis/internal/service/service_permission.go:229-305 | a hit, false for no roles, an uncached error, or the repository's answer, then cached |
| `Permissions.KeyInjective` | aegis/internal/service/service_permission.go:321-323 | on clean calls the cache key is injective up to the clash of no role with one empty role |
| `Permissions.CoherentExactly` | aegis/internal/service/service_permission.go:60-323 | every run of checks among given calls and of mutators answers by the current repository if and only if the key never merges calls some repository tells apart |
| `Permissions.CleanRunsTruthful` | aegis/internal/service/service_permission.go:60-323 | every run of clean checks answers exactly what the current repository grants |
| `Permissions.AnswersMeanPermissions` | aegis/internal/service/service_permission.go:60-323 | in every run of clean checks an error-free answer is true if and only if some role of the call then holds a permission for the asked action, "*" or "manage" on a resource that covers the asked one |
| `Permissions.ColonClash` | aegis/internal/service/service_permission.go:321-323 | one colon in an action is enough for a wrong answer |
| `Jwks.KidShape` | aegis/internal/domain/jwks.go:134-135 | every key id has 22 characters, so none is empty |
| `Jwks.KidReads` | aegis/internal/domain/jwks.go:134-135 | a key id reads back as the first 16 bytes of the public key's hash |
| `Jwks.FetchOfPublished` | prism/internal/domain/jwks.go:145-163 | whatever order Aegis lists its keys in, the fetcher reads back exactly its public keys |
| `Jwks.CollectExactly` | prism/internal/domain/jwks.go:145-163 | of any response, for each id the key of its last readable Ed25519 entry is kept |
| `Jwks.KeyManager.constructor` | aegis/internal/domain/jwks.go:31-42 | one key, active and filed under its id |
| `Jwks.KeyManager.RotateKey` | aegis/internal/domain/jwks.go:65-76 | the new key is active and added to the old ones; a failed draw changes nothing |
| `Jwks.KeyManager.JwksHandler` | aegis/internal/domain/jwks.go:102-116 | the response lists every key once, and nothing else |
| `Jwks.JwksFetcher.Fetch` | prism/internal/domain/jwks.go:119-174 | succeeds exactly when a readable Ed25519 key is in the response, and then holds exactly those; a failure changes nothing |
| `Jwks.JwksFetcher.Start` | prism/internal/domain/jwks.go:66-78 | ready exactly once a first fetch succeeded |
| `Jwks.ValidatorsAgree` | prism/internal/domain/jwt.go:77-102 | with the same keys Prism and Aegis accept exactly the same tokens |
| `Jwks.AcceptedIsOwn` | aegis/internal/domain/jwt.go:140-171 | any token Aegis accepts in a run is timely, names its signer's id, and was signed by a key Aegis drew before |
| `Jwks.KeysPermanentExactly` | aegis/internal/domain/jwks.go:63-76 | Aegis never loses or changes a key throughout a run if and only if no rotation draws another key's id |
| `Jwks.TokensStayValid` | aegis/internal/domain/jwt.go:140-171 | every token ever issued validates at Aegis exactly from its NotBefore until before its expiry, through any rotations |
| `Jwks.PrismIsSnapshot` | prism/internal/domain/jwks.go:119-174 | Prism's keys are none, or Aegis's public keys when the last successful fetch was served; lost responses change nothing |
| `Jwks.PrismNeverForgets` | prism/internal/domain/jwks.go:169-171 | a key Prism once knew it keeps, unchanged |
| `Jwks.PrismAcceptsExactly` | prism/internal/domain/jwt.go:77-102 | Prism accepts an issued token exactly from its NotBefore until before its expiry and while the last fetch found its key, which holds for every token issued before that fetch |
| `Jwks.PrismImpliesAegis` | prism/internal/domain/jwt.go:77-102 | any token Prism accepts in a run, Aegis accepts too |
| `Tokens.TokenManager.Sign` | aegis/internal/domain/jwt.go:120-126 | a signed token validates exactly from its NotBefore until before its expiry |
| `Tokens.TokenManager.ValidateToken` | aegis/internal/domain/jwt.go:140-171 | the claims exactly of a timely EdDSA token whose signer is the key filed under its kid |
| `Tokens.TokenValidator.ValidateToken` | prism/internal/domain/jwt.go:77-102 | the same by the fetched keys, a missing kid being looked up as the empty one |
| `Tokens.TokenManager.GenerateTokenPair` | aegis/internal/domain/jwt.go:96-137 | the claims of both tokens field by field: one id, issuer, subject, session and provider; the access token with the roles and their tenants as audience, the refresh token with neither; each validates from now until before its own expiry |
| `Tokens.TokenManager.Refresh` | aegis/internal/domain/jwt.go:175-206 | succeeds exactly on a valid token of the refresh type; both new tokens carry its claims, each with its own new expiry |
| `Tokens.RefreshChain` | aegis/internal/domain/jwt.go:175-240 | through any chain of refreshes user, session, id and provider stay; from the first refresh on no token is of the access type or carries roles |
| `Base64.DecodeEncode` | aegis/internal/common/passwordhasher/hasher.go:43-44 | decoding undoes encoding, in both alphabets |
| `Base64.EncodedShape` | prism/internal/domain/api_key.go:152-153 | length and alphabet of the unpadded and padded encodings |
| `Base64.AlphabetExactly` | aegis/internal/common/passwordhasher/hasher.go:43-44 | the alphabets of sections 4 and 5 of RFC 4648, in order |
| `Base64.PackInOrder` | aegis/internal/common/passwordhasher/hasher.go:43-44 | each group of bytes and its digits are the same number, the last group with zeros behind |
| `Base64.UnpackInOrder` | aegis/internal/common/passwordhasher/hasher.go:106-111 | decoding reads the bits in the same order |
| `Base64.LastDigits` | aegis/internal/common/passwordhasher/hasher.go:106-111 | of two or three last digits the bits left over are dropped |
| `Base64.DecodesExactly` | aegis/internal/common/passwordhasher/hasher.go:106-114 | a text decodes if and only if it is over alphabet and line breaks and leaves no single digit over |
| `PasswordHasher.HashFormat` | aegis/internal/common/passwordhasher/hasher.go:30-46 | what Hash prints, literally: Argon2id, version 19, 64 MB, 3 passes, 4 lanes, the salt and a 32-byte key |
| `PasswordHasher.ScanDecimal` | aegis/internal/common/passwordhasher/hasher.go:92 | scanning a printed number gives it back with the rest of the input |
| `PasswordHasher.SignsAndBlanks` | aegis/internal/common/passwordhasher/hasher.go:92 | the version may carry a sign; blanks in front are skipped, a newline there is refused |
| `PasswordHasher.OverflowRefused` | aegis/internal/common/passwordhasher/hasher.go:101 | a number too wide for its parameter is refused |
| `PasswordHasher.ScanParamsText` | aegis/internal/common/passwordhasher/hasher.go:101 | the parameter part scans back to the printed parameters |
| `PasswordHasher.PhcRoundTrip` | aegis/internal/common/passwordhasher/hasher.go:81-117 | decodeHash recovers exactly the parameters, salt and key that were printed, and ignores what stands before the first '$' |
| `PasswordHasher.DecodedExactly` | aegis/internal/common/passwordhasher/hasher.go:81-117 | a text decodes to d if and only if it is six parts between '$' signs: anything, argon2id, a text scanning to version 19, and texts of d's parameters, salt and key |
| `PasswordHasher.FirstError` | aegis/internal/common/passwordhasher/hasher.go:81-117 | which error a text gets, by the first thing wrong with it |
| `PasswordHasher.VerifyPhc` | aegis/internal/common/passwordhasher/hasher.go:50-65 | for every stored hash: accepted if and only if the key derived with the stored parameters, salt and length is the stored one |
| `PasswordHasher.VerifyHash` | aegis/internal/common/passwordhasher/hasher.go:30-65 | Verify(q, Hash(p)) is true if and only if p and q derive the same key; in particular for p itself |
| `ApiKeys.BodyShape` | prism/internal/domain/api_key.go:152-159 | every 32-byte secret spells 44 base64url characters |
| `ApiKeys.NewKeyMeans` | prism/internal/domain/api_key.go:144-164 | what is handed out and stored for a secret: the raw key, its first eleven characters, its hash, an active record |
| `ApiKeys.PrismPrefixExactly` | prism/internal/domain/api_key.go:361-381 | for every text: Prism looks up its first eleven characters if it starts with "ak_" and is longer, and nothing otherwise |
| `ApiKeys.AegisPrefixExactly` | aegis/internal/service/service_api_key.go:101-119 | Aegis does so exactly if moreover no further underscore follows |
| `ApiKeys.PrismFindsPrefix` | prism/internal/domain/api_key.go:361-381 | Prism's extractor recovers exactly the stored prefix |
| `ApiKeys.AegisFindsPrefixExactly` | aegis/internal/service/service_api_key.go:101-119 | Aegis's splitter reaches that prefix if and only if the body has no underscore, and otherwise refuses the key |
| `ApiKeys.PrismRoundTrip` | prism/internal/domain/api_key.go:340-357 | a generated key validates exactly while its record is active and unexpired |
| `ApiKeys.AegisRoundTrip` | aegis/internal/service/service_api_key.go:101-140 | at Aegis exactly when moreover the body has no underscore |
| `ApiKeys.PrismAcceptsExactly` | prism/internal/domain/api_key.go:340-357 | for every raw key, table and instant: Prism returns record k if and only if k is stored under the key's prefix, active, unexpired and of the raw key's hash |
| `ApiKeys.AegisAcceptsExactly` | aegis/internal/service/service_api_key.go:101-140 | Aegis does so if and only if moreover no further underscore follows |
| `ApiKeys.OtherKeysCollide` | aegis/internal/service/service_api_key.go:101-140 | against a record made from a secret any other raw key is accepted only if its hash collides, at either service |
| `ApiKeys.AegisImpliesPrism` | aegis/internal/service/service_api_key.go:101-140 | whatever raw key Aegis accepts, Prism accepts with the same record |
| `ApiKeys.UnderscoreBody` | aegis/internal/service/service_api_key.go:107-111 | there is a secret whose key Aegis refuses |
| `ApiKeys.HasScope` | aegis/internal/service/service_api_key.go:222-238 | found if and only if some scope equals the required one or is "x:*" with the required one below "x:" |

"Clean" values of the normal form are nulls, booleans, numbers as Go prints them, strings without `, [ ] { }` that
do not spell `null`, `true`, `false` or such a number, arrays other than that of just the empty string, and maps whose keys
hold none of `, : [ ] { }`. "Clean" permission calls have roles without `,` and `:` and an action without `:`.

## Left out

- HTTP handlers, middleware, routing, configuration, logging, audit events and metrics: no invariant of their own.
- External OPA evaluation, webhooks, external caches, the in-memory token-bucket limiter, OAuth flows and sessions: network or library behaviour.
- Role hierarchy, tenant and user updates, validators and id wrappers: they would only add easy members.
- The lastUsed time of a prepared query: written but never read.
- Two clock reads within one operation are taken as one instant, and instants are integers.
- Numbers in policy inputs are known by the text Go prints for them; typed slices and structs by what json.Marshal makes of them.
- Redis: the semantics of GET, INCR and EXPIRE are assumed as the module's comment states them; the rounding of a TTL beyond 2^53 nanoseconds to whole seconds is not modelled.
- Rate limit configurations leave out tenant and timestamps; violations leave out the per-type address and id fields, which copy the target.
- Loads and rates are reals, so float64 rounding is not modelled.
- Role names that are none of the three roles, on which listing users fails, and their letter case.
- SQL: the permission tables are a map and a relation with the constraints of their schema; a database error leaves them unchanged. A failed stream send, which ends the stream, is not a step.
- Of the JWT library, its checks of NotBefore and expiry are modelled as golang-jwt makes them without leeway, in whole instants; OAuth fields of claims and JSON encoding are not modelled.
- Argon2's own refusal of zero rounds or threads in a decoded hash is not modelled.
- Restarts of Aegis, which replace its key set.
- FieldHeap.SetNestedValue: on shared maps it is stated for the way filterInputFields, its only caller, uses it: the value written is the input's own entry at that path. The value-level function is unrestricted.
- FieldHeap.EnsureNested: as for FieldHeap.SetNestedValue, of which it is a part.
- FieldHeap.PutEntry: as for FieldHeap.SetNestedValue, of which it is a part.
- RateLimiter.RedisRateLimiter.Allow: needs a positive limit, which Validate has established before a limiter exists.
