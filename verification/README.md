# ORYCA verification

Dafny models of the stateful parts of the ORYCA API gateway (`gateway/`) and its management plane
(`control-plane/`), with proofs of what those parts promise. `dafny verify dfyconfig.toml` checks everything.

| file | what it models |
|---|---|
| `GoStrings.dfy`, `Decimal.dfy` | the bits of Go's `strings` and `strconv` the rest needs |
| `RouteIndex.dfy`, `RouteLaws.dfy` | the route trie, refined from a flat table of slots, and the laws of that table |
| `RouteAnswers.dfy` | what a lookup answers, said of slots and segments without the search |
| `RouteAmbiguity.dfy` | when a lookup has one answer, and when that answer is lexicographically best |
| `RateLimitTier.dfy`, `RateLimiter.dfy` | a tier; the sliding-window script and the multi-tier check |
| `RateLimitLaws.dfy`, `RateLimitSharing.dfy` | what they promise over every interleaved history, and what tiers that share a key do |
| `RateLimitCallers.dfy` | keys tell callers apart, other callers do not matter, and a failing Redis lets requests pass |
| `MemoryCache.dfy`, `MemoryRecency.dfy` | the byte-bounded LRU with expiry; what any run of calls leaves in it |
| `CacheEntry.dfy`, `CacheCodec.dfy` | the cached response and its binary form |
| `UpstreamCache.dfy`, `UpstreamServing.dfy` | memory over Redis, with back-fill and lost answers; what gets answer after a set |
| `LogShipping.dfy` | the log consumer as a protocol (`LogProtocol`) and as coded loops (`LogConsumer`) |
| `Transforms.dfy` | stable specificity sort, first-match lookup and what the score means |
| `ConfigSync.dfy` | ETag-conditional pulls (`Pulling`) and the sync steps that install them (`ConfigSync`) |
| `EventGuard.dfy`, `EventOrder.dfy` | version-guarded push events, and when their order does not matter |
| `UserFreshness.dfy` | the cache of users' rights, where pushed events race with refreshes and polls |
| `ObjectIds.dfy`, `LogPaging.dfy` | Mongo's ids; cursor paging through the access log |
| `Glob.dfy` | the wildcard search over variable names |
| `PathConflicts.dfy` | the control plane's path check, proved against the route table |
| `PackageUsers.dfy` | package membership and its counters |
| `Preset.dfy` | upstream prefix cover |
| `RateLimitPayload.dfy`, `RateLimitChoice.dfy` | which limits a resource gets |

Redis and Mongo are explicit state: maps, sorted sets, deadlines, streams. The clock is an argument, read where the
code reads it. JSON and hashes are abstract functions; where a proof needs a round trip or distinct hashes, the
member says so in a `requires`. What a network call comes to (answered, refused, answered but lost) is a parameter.

Each module has a functional specification; classes and methods that change state are proved equal to it, and the
theorems are about it. Some natural claims are false of the code. For these there is a concrete counterexample and,
where the code meets the claim under a condition, the exact condition:

- A lookup has one answer for every request exactly when no position has two patterns of one extension with routes
  below that fit one continuation (`OneAnswerExactly`). Its answer is always lexicographically best exactly when none
  of two such routes is the worse (`LexicographicExactly`): with {x}.png/* beside {y}.png/foo, t.png/foo may be
  answered by the wildcard (`WorseRouteWins`).
- Deleting a service is the same as reloading without it exactly when it took no slot from another service
  (`DeleteIsReload`).
- Tiers on one window share a key and charge each other, so a request can be denied that every tier admits: exactly
  when a tier that repeats a key has one place left (`SharedKeysExactly`), and for no content of Redis exactly when
  every such tier is undercut by another on its key, or some tier admits nothing (`LimitsDecideExactly`).
- The window bounds identifiers, not requests (`DeniedIffFull`, `EveryTierHolds`), and the identifier is the client's
  own X-Request-Id header whenever there is one. Requests that all share one escape every limit above one
  (`SharedMemberEscapes`); the requests themselves are bounded exactly when no identifier but the last repeats an
  earlier one (`LimitHoldsExactly`).
- Callers never share a limit while their ids have no colons, or addresses stand on paths that begin with a slash
  (`KeysTellCallers`, `OthersDoNotMatter`); ids with colons can (`ColonsCollide`).
- A cache write that memory refuses leaves the old value readable there (`StaleIsServed`). A key reads back right,
  over every later run, exactly when it is sound (`SoundExactly`), and a write leaves it sound exactly under the
  condition of `WriteIsSoundExactly`. Redis rounds a TTL to the nearest second, so a back-filled entry can outlive
  Redis by up to half a second (`BackfillOutlives`).
- The codec round-trips exactly the entries whose fields fit their widths (`RoundTrip`).
- The ETag is remembered before the body is decoded, so one broken body keeps the gateway on its old configuration
  until the server's changes again (`BrokenBodySticks`, `PullInstalls`).
- Users depend on delivery order exactly when some user's highest version was delivered with two payloads
  (`UsersIndependentExactly`); what is cached under a raw key, exactly when it is not settled
  (`ApiKeysIndependentExactly`), since a rotated api key leaves its old raw key cached in some orders
  (`ApiKeyEventsCommuteExactly`). A refused Redis write is not made up for by redelivery (`RefusedWriteIsLost`), so a
  key is cached at its newest exactly when, of the deliveries whose version exceeds every earlier one of the key, the
  last that Redis took carries the newest payload (`CacheIsNewestExactly`).
- A pushed user event can be undone by a refresh that read the server before it, and no redelivery brings it back
  (`LateRefreshUndoesPush`, `LateRefreshHappens`). Once changes stop, no older one is ever cached again exactly when
  none is cached, fetched, polled or still able to pass the guard (`StaysNewestExactly`). An invalidation may join a
  refresh that has read the server already, so it too settles a user exactly when nothing older is on its way
  (`InvalidationSettlesExactly`).
- Log delivery is at least once, and a second copy needs a reclaim (`CanStoreTwice`, `OnceUntilReclaimed`). A reclaim
  is harmless exactly when each log it claims comes once, is not stored and is held by no other loop
  (`ClaimIsHarmlessExactly`); as long as all are, every log is stored at most once (`OnceWhileHarmless`).
- A reclaim pass can end with idle messages left: exactly when a claim meets nothing but recent ones with more behind
  them (`EmptyWithCursorExactly`, `RecentHidesIdle`).
- Without a star at the end the glob search accepts only the strings no shorter prefix of which matches
  (`AcceptsShortestMatches`, `MissesLaterOccurrence`). The code's comment promises plain wildcards.
- An exact transform config can lose to a wildcard when the path ends in a slash (`ExactOutranksWildcards`).
- Paths that are not canonical slip through the conflict check (`TrailingSlashSlipsThrough`, `InnerStarSlipsThrough`);
  for canonical ones it is exact (`NormDecidesSlot`). For any paths it errs exactly when it reports nothing although
  two have one normal form once empty segments and all after a star are removed, or the base path has a star
  (`CheckErrsExactly`).
- Membership counters go wrong exactly when the old counts could not be read and somebody left a live package
  (`AssignKeepsCounts`).
- A resource gets one pattern's limits, not the best per package (`OtherPackagesAreDropped`, `OwnLimitExactly`). Every
  package keeps its own limit on every path exactly when every pattern lists the packages of the pattern with stars in
  its place and of all wildcards above it (`KeepsOwnExactly`).

## Model

| member | source | states |
|---|---|---|
| RouteIndex.PathTrie.InsertResource | gateway/trie/trie.go:63-97 | inserting a route changes its own slot and no other, and keeps the param names already there |
| RouteIndex.PathTrie.Insert | gateway/trie/trie.go:54-61 | inserting a service loads its resources in order, a later one taking a slot from an earlier one |
| RouteIndex.PathTrie.LoadBulk | gateway/trie/trie.go:127-137 | the whole index is replaced by the services' routes, last writer wins |
| RouteIndex.PathTrie.Delete | gateway/trie/trie.go:99-125 | exactly the slots held by the service are emptied |
| RouteIndex.PathTrie.Search | gateway/trie/trie.go:147-223 | the backtracking search answers with a best matching slot below the node, or nothing exactly when none matches |
| RouteIndex.PathTrie.SearchPatterns | gateway/trie/trie.go:183-196 | pattern children may be visited in any order and the answer is still best |
| RouteIndex.PathTrie.FindBestMatch | gateway/trie/trie.go:139-145 | a request path gets a best route with its parameters and the unmatched rest, nothing exactly when no live route matches |
| RouteAnswers.LookupExactly | gateway/trie/trie.go:139-260 | a lookup answers nothing exactly when no registered path reads the segments; otherwise what a best of those says: the slot's route, each parameter at its last binding on the way, and the segments left over |
| RouteAnswers.NotWorseExactly | gateway/trie/trie.go:163-222 | best means: where another matching path parts from it, the other does not go on exactly, nor by a pattern against a parameter; it never ends where the other goes on, nor by a wildcard against an exact end |
| RouteAnswers.RemainderEndsPath | gateway/trie/trie.go:209-219 | the remainder is the end of the path asked for, what stands before it being read segment by segment |
| RouteAnswers.LoneWildcard | gateway/trie/trie.go:209-219 | below a lone wildcard route under plain segments the remainder is the path asked for below them |
| RouteAnswers.AcceptsExactly | gateway/trie/trie.go:163-207 | a literal reads itself, a pattern with a brace what ends in its extension, a parameter anything |
| RouteAnswers.ValueAndExtension | gateway/trie/trie.go:256-262 | a pattern's value and its extension make up the segment, cut at the last dot |
| RouteAnswers.PatternNameIs | gateway/trie/trie.go:246-254 | a pattern binds the name of its first capture in braces, or an underscore |
| RouteAnswers.NameIsFirst | gateway/trie/trie.go:81-88 | after a load a position's parameter has the name the first path through it gave it |
| RouteAmbiguity.OneAnswerExactly | gateway/trie/trie.go:139-223 | a request has one answer in every order of visiting exactly when no two patterns of one extension at one position lead to routes with a common continuation |
| RouteAmbiguity.AnswersAgree | gateway/trie/trie.go:139-223 | then two answers agree up to parameter names, whatever history built the index |
| RouteAmbiguity.LexicographicExactly | gateway/trie/trie.go:163-222 | every answer is lexicographically best (exact, pattern, param, wildcard) exactly when no such pair puts a worse route against a better |
| RouteAmbiguity.WorseRouteWins | gateway/trie/trie.go:185-196 | a wildcard below one pattern can answer although an exact route below the other matches |
| RouteAmbiguity.BestExists | gateway/trie/trie.go:147-223 | whenever some route matches there is a best one |
| RouteAmbiguity.AfterAnyHistory | gateway/trie/trie.go:54-137 | whatever inserts, loads and deletes built an index, the conditions for one answer and for best answers are exact for it, and one answer is always best |
| RouteLaws.ExactPathWins | gateway/trie/trie.go:163-181 | a request spelled like a registered literal path gets that route whatever else is registered |
| RouteLaws.WildcardSlotApart | gateway/trie/trie.go:71-80 | /items and /items/* are different slots of one position |
| RouteLaws.EmptyPathNeverExact | gateway/trie/trie.go:139-145 | a resource whose whole path is empty is never matched exactly: without it every request gets the same answers |
| RouteLaws.LastWriterWins | gateway/trie/trie.go:127-137 | after a load every slot holds the last route registered for it |
| RouteLaws.EveryResourceIsLoaded | gateway/trie/trie.go:127-137 | every resource of every service is registered once, service by service and in each one's order |
| RouteLaws.DeleteIsReload | gateway/trie/trie.go:99-137 | delete equals a load without the service exactly when it took no slot from another |
| RouteLaws.DeletedServiceIsGone | gateway/trie/trie.go:99-145 | then every lookup after the delete is one of a gateway that never had the service, with the same bound values, and the other way round |
| SlidingWindow.DeniedIffFull | gateway/cache/rate_limit_cache.go:36-66 | over any run, with repeated identifiers and differing limits, a call is denied exactly when the window ending at it holds its limit of identifiers, and the sorted set holds exactly the last window's |
| SlidingWindow.NeverOverLimit | gateway/cache/rate_limit_cache.go:36-66 | no interval of one window's length holds more admitted identifiers than the limit, nor more admissions when every call has its own |
| SlidingWindow.RetryTooEarly | gateway/cache/rate_limit_cache.go:46-60 | before resetMs a retry is denied and does not push the deadline back |
| SlidingWindow.RetryOnTime | gateway/cache/rate_limit_cache.go:46-106 | after the reported seconds, with no other admission and however many denied retries in between, a retry is admitted |
| SlidingWindow.SharedMemberEscapes | gateway/cache/rate_limit_cache.go:62-92 | calls that share an identifier are never denied by a limit above one |
| SlidingWindow.LimitHoldsExactly | gateway/cache/rate_limit_cache.go:36-92 | requests with given identifiers stay within every limit in every window, at whatever times, exactly when none but the last repeats an earlier one; the handler takes the identifier from the client's header (gateway/handler/proxy_handler.go:293-303) |
| RateLimiter.KeyTellsWindow | gateway/cache/rate_limit_cache.go:23-25 | the window can be read back from the key, whatever the ids contain |
| RateLimitCallers.KeysTellCallers | gateway/cache/rate_limit_cache.go:20-25 | two callers, or two windows, never share a key, for ids without colons, and for addresses of any kind on paths that begin with a slash |
| RateLimitCallers.ColonsCollide | gateway/cache/rate_limit_cache.go:23-25 | ids with colons can share one |
| RateLimitCallers.StandInTells | gateway/cache/rate_limit_cache.go:89-92 | without a request id two requests count as one exactly when one user made them in one millisecond |
| RateLimiter.RateLimitStore.AllowRequest | gateway/cache/rate_limit_cache.go:36-80 | one run of the script answers as if keys never expired |
| RateLimiter.RateLimitStore.Expire | gateway/cache/rate_limit_cache.go:41-65 | dropping a key at its deadline is invisible in the ideal sets |
| RateLimiter.RateLimitStore.Allow | gateway/cache/rate_limit_cache.go:85-115 | the tiers are checked in order up to the first denial; a failing Redis admits |
| RateLimitCallers.LeavesOthersAlone | gateway/cache/rate_limit_cache.go:85-115 | a request leaves every sorted set of every other caller as it was |
| RateLimitCallers.OthersDoNotMatter | gateway/cache/rate_limit_cache.go:85-115 | whatever all callers asked before, the decision is the one after the own caller's requests alone |
| RateLimitCallers.FailsOpen | gateway/cache/rate_limit_cache.go:82-100 | when Redis fails at a tier the request passes and no later tier is asked, unless an earlier tier denied it |
| RateLimitLaws.ArgMinIsLeast | gateway/cache/rate_limit_cache.go:108-112 | the tier reported as remaining is the first with the least left |
| RateLimitLaws.Round.TierByTier | gateway/cache/rate_limit_cache.go:85-115 | with a key per tier a request is admitted exactly when every tier admits it; a denial has charged the tiers before it and no later one |
| RateLimitLaws.OwnKeysTierByTier | gateway/cache/rate_limit_cache.go:85-115 | the same for any request met by tiers with their own keys, whatever Redis holds |
| RateLimitLaws.DistinctWindowsDistinctKeys | gateway/cache/rate_limit_cache.go:23-25 | tiers with different windows have different keys |
| RateLimitLaws.EveryTierHolds | gateway/cache/rate_limit_cache.go:36-115 | however the requests of all callers interleave, no window of any tier holds more admitted requests than its limit |
| RateLimitLaws.CheckIsVisit | gateway/cache/rate_limit_cache.go:85-115 | a check of the tiers without interruption is one of those requests, admitted exactly when the decision says so |
| RateLimitSharing.Ask.JointExactly | gateway/cache/rate_limit_cache.go:23-115 | for any tiers a request is admitted exactly when each has room, counting the request itself where an earlier tier has the key |
| RateLimitSharing.Ask.SharedKeysExactly | gateway/cache/rate_limit_cache.go:93-106 | the joint answer differs from the tiers' own exactly when all admit and a tier that repeats a key has one place left |
| RateLimitSharing.Ask.SharedWindowExactly | gateway/cache/rate_limit_cache.go:93-106 | for two tiers on one window: exactly when the first has room and the window the second finds holds one less than its limit |
| RateLimitSharing.Ask.LimitsDecideExactly | gateway/cache/rate_limit_cache.go:93-106 | the answers agree whatever Redis holds exactly when every tier that repeats a key is undercut on it, or some tier admits nothing |
| MemoryCache.MemoryCache.Get | gateway/cache/memory_cache.go:36-61 | a hit moves the item to the front and reports its age, an expired item is removed, map and list stay in step |
| MemoryCache.MemoryCache.Set | gateway/cache/memory_cache.go:64-90 | the item goes to the front and the tail is evicted; the total is right and within the bound afterwards |
| MemoryCache.MemoryCache.RemoveLocked | gateway/cache/memory_cache.go:92-97 | removes one item from list, map and total |
| MemoryCache.EvictIsShortest | gateway/cache/memory_cache.go:82-89 | eviction drops the shortest least-recently-used suffix that makes the rest fit |
| MemoryRecency.InOrderOfUse | gateway/cache/memory_cache.go:36-90 | after any run of calls the list is in the order in which keys were last stored or asked for |
| MemoryRecency.EvictsLeastRecent | gateway/cache/memory_cache.go:82-89 | what a set evicts was last used before everything that stays |
| MemoryRecency.EvictsForRoom | gateway/cache/memory_cache.go:82-89 | the latest used of what a set evicts would not fit beside what stays |
| MemoryRecency.GetKeeps | gateway/cache/memory_cache.go:36-61 | a get loses nothing but its own key's expired item |
| MemoryRecency.BytesAreBounded | gateway/cache/memory_cache.go:64-90 | the bodies, with 1024 bytes for each entry, never take more than the bound |
| MemoryRecency.HoldsLastStored | gateway/cache/memory_cache.go:64-90 | every item is the one its key was last stored with |
| MemoryRecency.HitIsLastStored | gateway/cache/memory_cache.go:36-61 | a hit is the entry last stored, within its lifetime, and its age the time since then in seconds, rounded up |
| MemoryRecency.HitsExactly | gateway/cache/memory_cache.go:36-61 | there is a hit exactly while an item of the key is held and has not expired |
| MemoryCache.SetThenGet | gateway/cache/memory_cache.go:64-90 | an item just stored survives its own eviction and is found until it expires |
| MemoryCache.OthersKeep | gateway/cache/memory_cache.go:64-90 | storing one key changes no other key's value, at most evicts it |
| MemoryCache.RefusedSetKeepsOld | gateway/cache/memory_cache.go:64-71 | a refused store leaves the old value in place |
| CacheCodec.MarshalBinary | gateway/cache/upstream_cache.go:42-76 | the buffer filled step by step is the specified encoding |
| CacheCodec.LayoutIs | gateway/cache/upstream_cache.go:42-76 | the mark, status and TTL, the ETag and the headers after their lengths, and the body, each at its place and the numbers with the highest byte first |
| CacheCodec.UnmarshalBinary | gateway/cache/upstream_cache.go:79-118 | the decoder's branches, including the JSON of older entries and the read past the end it does not check |
| CacheCodec.UintRoundTrip | gateway/cache/upstream_cache.go:53-70 | a number comes back exactly when it fits its width |
| CacheCodec.RoundTrip | gateway/cache/upstream_cache.go:42-118 | decoding undoes encoding exactly when status, TTL, ETag and headers fit their widths |
| CacheCodec.NeverOutOfRange | gateway/cache/upstream_cache.go:79-118 | on encoder output the decoder never reads past the end |
| UpstreamCache.BackfillOutlives | gateway/cache/upstream_cache.go:249-277 | a back-filled entry outlives Redis by at most half a second, and exactly when the remainder rounds up |
| UpstreamCache.NeverYounger | gateway/cache/upstream_cache.go:226-257 | an entry in memory never looks younger than in Redis |
| UpstreamCache.EveryRunIsFresh | gateway/cache/upstream_cache.go:226-307 | over any run of sets, gets, restarts and losses whose writes survive the codec and are mirrored, every get answers with the last write in time |
| UpstreamCache.SoundExactly | gateway/cache/upstream_cache.go:226-307 | a key is sound exactly when every later get answers right, whatever run comes before it |
| UpstreamCache.WriteIsSoundExactly | gateway/cache/upstream_cache.go:284-307 | when exactly a write that reached Redis leaves its key sound |
| UpstreamCache.WholeRunsStayWhole | gateway/cache/upstream_cache.go:249-277 | on whole seconds nothing outlives its deadline in Redis |
| UpstreamCache.StaleIsServed | gateway/cache/upstream_cache.go:284-307 | a second value that does not fit memory is answered by the first |
| UpstreamCache.UpstreamCache.Get | gateway/cache/upstream_cache.go:226-264 | memory first, then Redis with back-fill: the answer and both levels are those of a fetch |
| UpstreamCache.UpstreamCache.SaveL0 | gateway/cache/upstream_cache.go:267-277 | back-filling stores the entry for what it has left to live |
| UpstreamCache.UpstreamCache.Set | gateway/cache/upstream_cache.go:284-307 | stores in Redis then memory: both levels afterwards are those of a put with what Redis answered |
| UpstreamServing.SetIsServed | gateway/cache/upstream_cache.go:226-307 | after a mirrored set that survives the codec, and until the next, a hit has the status, body, ETag and unstripped headers handed in; there is one for the lifetime handed in or the default, none half a second after it, and its age is right to within two seconds |
| UpstreamServing.BackfillIsHit | gateway/cache/upstream_cache.go:249-277 | what Redis answered is a hit in memory for the rest of its life, even when Redis drops it |
| UpstreamCache.SurvivesBinary | gateway/cache/upstream_cache.go:42-118 | the entries that survive storage are those whose fields fit |
| LogProtocol.EveryRunKeeps | control-plane/consumer/log_consumer.go:113-246 | the protocol's invariant holds in every reachable state, over crashes, lost replies, partial inserts and lost acknowledgements |
| LogProtocol.NothingIsLost | control-plane/consumer/log_consumer.go:45-47 | an acknowledged message is stored or undecodable, a delivered one is stored or still pending, and nothing else is stored |
| LogProtocol.BuffersStaySmall | control-plane/consumer/log_consumer.go:21-31 | a read buffer never exceeds flushSize + readCount - 1 ids |
| LogProtocol.DrainedIsStored | control-plane/consumer/log_consumer.go:165-218 | once nothing is pending every decodable delivered message is stored |
| LogProtocol.OnceUntilReclaimed | control-plane/consumer/log_consumer.go:165-246 | as long as nothing is reclaimed every log is stored at most once |
| LogProtocol.OnceWhileHarmless | control-plane/consumer/log_consumer.go:165-246 | as long as every claim is of fresh logs alone, no log is in two places |
| LogProtocol.ClaimIsHarmlessExactly | control-plane/consumer/log_consumer.go:181-246 | nothing that can follow a claim short of another one stores a log twice exactly when each claimed log comes once, is not stored and is held by no loop |
| LogProtocol.CanStoreTwice | control-plane/consumer/log_consumer.go:238-243 | a lost acknowledgement and a reclaim store a log twice |
| LogConsumer.LogLoop.Flush | control-plane/consumer/log_consumer.go:222-246 | the steps of a flush: nothing is acknowledged unless the whole batch was stored, and the buffer is empty afterwards |
| LogConsumer.LogLoop.Append | control-plane/consumer/log_consumer.go:148-156 | decodable messages join the batch, every id is kept for acknowledgement |
| LogConsumer.LogLoop.ReadTurn | control-plane/consumer/log_consumer.go:119-162 | exactly which protocol steps one turn of the read loop takes, on shutdown and with a lost reply too, and that it leaves less than a full buffer |
| LogConsumer.TickWritesFirst | control-plane/consumer/log_consumer.go:125-129 | on a tick the buffer is written, and acknowledged if all of it was stored, before anything is read |
| LogConsumer.TurnReadsOnce | control-plane/consumer/log_consumer.go:131-162 | a turn reads at most once, and what was read stays buffered exactly when the reply came and the buffer is not full |
| LogConsumer.AutoClaimCovers | control-plane/consumer/log_consumer.go:181-205 | a claim takes exactly the pending messages it passes over that were not delivered recently, and moves its cursor on |
| LogConsumer.EmptyWithCursorExactly | control-plane/consumer/log_consumer.go:191-195 | a claim is empty with a cursor exactly when everything it looked at was recent and more is pending |
| LogConsumer.ReclaimIsHarmlessExactly | control-plane/consumer/log_consumer.go:181-205 | the same for what a claim really hands out: exactly when none of it is stored or held already |
| LogConsumer.LogLoop.ReclaimPage | control-plane/consumer/log_consumer.go:181-212 | one page is a claim and a flush of what was claimed; a good one takes exactly the claimed ids off the pending list |
| LogConsumer.LogLoop.ReclaimPass | control-plane/consumer/log_consumer.go:168-218 | a pass always ends; a good one leaves only messages found recent or behind the page at which it gave up, and only idle ones are gone |
| LogConsumer.LeavesNothingExactly | control-plane/consumer/log_consumer.go:168-218 | a good pass leaves nothing pending exactly when nothing pending was recent |
| LogConsumer.RecentHidesIdle | control-plane/consumer/log_consumer.go:191-195 | a claim's worth of recent messages ends the pass with an idle one left |
| StableSort.Sort | gateway/trie/hybrid.go:218-224 | insertion sort in place equals the specified sort |
| StableSort.SortedIsStable | gateway/trie/hybrid.go:216-224 | the result is a permutation in non-increasing order that keeps ties in place |
| Transforms.SortBySpecificity | gateway/trie/hybrid.go:218-232 | configs are sorted by path score |
| Transforms.FindTransformConfig | gateway/trie/hybrid.go:178-189 | the first config that applies is returned |
| Transforms.AppliesExactly | gateway/trie/hybrid.go:192-214 | a config applies to its very path, to what begins with what stands before a star at the end, or to all, and to any method or those listed in any case |
| Transforms.FirstIsBest | gateway/trie/hybrid.go:178-224 | the first match of the sorted list is the highest-scoring match, the earliest of equals, none exactly when none matches |
| Transforms.LookupFindsBest | gateway/trie/hybrid.go:178-232 | the same for configs, paths and methods |
| Transforms.ExactOutranksWildcards | gateway/trie/hybrid.go:192-232 | an exact config outranks every matching wildcard exactly when its path does not end in too many slashes |
| Transforms.LongerPrefixOutranks | gateway/trie/hybrid.go:216-232 | a longer wildcard prefix never scores less and scores more exactly when it adds a slash |
| Pulling.EveryRunAgrees | gateway/sync/http_provider.go:87-150 | over any run without broken bodies the remembered ETag names the installed list |
| Pulling.PullInstalls | gateway/sync/http_provider.go:87-150 | exactly when a pull leaves the server's list installed |
| Pulling.Converges | gateway/trie/hybrid.go:83-92 | a pull that starts after the last change and is answered installs exactly the server's list, whatever failed before |
| Pulling.BrokenBodySticks | gateway/sync/http_provider.go:111-117 | a body broken after its ETag is never asked for again while the server's list stays |
| ConfigSync.HTTPSyncProvider.DoRequest | gateway/sync/http_provider.go:87-119 | one conditional request and what it remembers, for its own path only |
| ConfigSync.HTTPSyncProvider.GetWithRetry | gateway/sync/http_provider.go:123-150 | attempts until one does not fail |
| ConfigSync.HybridTrie.SyncSources | gateway/trie/hybrid.go:94-121 | a non-empty list replaces the sources, the last of an alias winning |
| ConfigSync.HybridTrie.SyncServices | gateway/trie/hybrid.go:123-143 | a non-empty list is loaded into the route index, an empty one keeps what is there |
| ConfigSync.HybridTrie.SyncTransformConfigs | gateway/trie/hybrid.go:145-175 | any list, even empty, replaces the configs, grouped by service and sorted |
| ConfigSync.HybridTrie.DoSync | gateway/trie/hybrid.go:83-92 | each of the three pulls moves its own channel and no other |
| ConfigSync.HybridTrie.FindBestMatch | gateway/trie/hybrid.go:267-269 | requests are routed by the services last installed |
| ConfigSync.HybridTrie.FindTransformConfig | gateway/trie/hybrid.go:178-189 | a request gets the best of the service's enabled configs as synced |
| ConfigSync.Group | gateway/trie/hybrid.go:157-166 | the enabled configs of each service in the order synced |
| ConfigSync.BestIsServed | gateway/trie/hybrid.go:145-189 | of everything synced a request gets, among its service's enabled configs for its path and method, one with the highest score, the first of those, and nothing exactly when there is none |
| ConfigSync.ForServiceExactly | gateway/trie/hybrid.go:157-166 | a service's configs are the enabled ones that name it, as often and in the order synced |
| ConfigSync.AliasIsLast | gateway/trie/hybrid.go:110-121 | an alias stands for the last source that has it |
| EventGuard.EventVersionGuard.Allow | gateway/service/sync_event_service.go:126-134 | an event passes when its version is newer than the last seen for its key |
| EventGuard.SyncEventService.ApplyUser | gateway/service/sync_event_service.go:79-93 | the cache stays what the deliveries so far come to |
| EventGuard.SyncEventService.ApplyApiKey | gateway/service/sync_event_service.go:62-74 | the same for api keys, with writes Redis may refuse |
| EventGuard.GuardKeyTells | gateway/service/sync_event_service.go:68-88 | users and api keys never share a guard key |
| EventGuard.UsersAreNewest | gateway/service/sync_event_service.go:79-93 | every cached user is the delivered one with the highest version, whatever else arrived |
| EventGuard.ApiKeysAreNewest | gateway/service/sync_event_service.go:62-74 | so is every api key that keeps its raw key and whose own writes succeed |
| EventGuard.CacheIsNewestExactly | gateway/service/sync_event_service.go:62-74 | whatever writes were refused, a key is cached at its newest exactly when, of the deliveries whose version exceeds every earlier one of the key, the last that Redis took carries the newest payload |
| EventGuard.AppliedIncrease | gateway/service/sync_event_service.go:114-134 | the versions applied per entity strictly increase up to the newest delivered |
| EventGuard.UsersIndependentExactly | gateway/service/sync_event_service.go:79-134 | users are independent of delivery order and repetition exactly when each one's highest version has one payload |
| EventGuard.ApiKeyEventsCommuteExactly | gateway/cache/api_key_cache.go:41-52 | when two events of an api key leave the same in either order: the newer must overwrite what the older leaves |
| EventOrder.ApiKeysIndependentExactly | gateway/service/sync_event_service.go:62-134 | what a raw key holds is independent of order exactly when nothing is put there, or some key surely ends there and all that can remain agrees |
| EventGuard.RefusedWriteIsLost | gateway/service/sync_event_service.go:68-73 | after a refused write what the raw key holds stays as it was until a newer version arrives, however often the event does |
| UserFreshness.UserFreshnessCache.Get | gateway/cache/user_cache.go:62-77 | what is there is answered at once; a refresh is scheduled exactly when nothing is there or it has expired |
| UserFreshness.UserFreshnessCache.ScheduleRefresh | gateway/cache/user_cache.go:82-97 | a refresh under way is joined, and no other user's is touched |
| UserFreshness.UserFreshnessCache.FinishRefresh | gateway/cache/user_cache.go:89-93 | what was fetched, a failure too, replaces whatever has been stored meanwhile |
| UserFreshness.UserFreshnessCache.Set | gateway/cache/user_cache.go:100-104 | a pushed or polled user replaces what is stored and leaves a refresh under way |
| UserFreshness.UserFreshnessCache.InvalidateAndRefresh | gateway/cache/user_cache.go:119-128 | exactly the listed users are dropped and refreshed, those under refresh already being joined |
| UserFreshness.StaysNewestExactly | gateway/cache/user_cache.go:82-104 | after a user's last change no older one is ever cached, whatever events, refreshes, polls and invalidations come in whatever order, exactly when none is cached, fetched, polled or able to pass the guard |
| UserFreshness.InvalidationSettlesExactly | gateway/cache/user_cache.go:111-128 | an invalidation makes the last change hold for good exactly when nothing older is on its way |
| UserFreshness.NextRefreshSettles | gateway/cache/user_cache.go:82-97 | with nothing older on its way one refresh brings the last change for good |
| UserFreshness.PushesRepairExactly | gateway/service/sync_event_service.go:79-134 | events alone can bring the last change exactly when it is cached or its event can still pass the guard |
| UserFreshness.LateRefreshUndoesPush | gateway/cache/user_cache.go:89-93 | a refresh that read before the last change and lands after its event takes it back, and no further events repair it |
| UserFreshness.LateRefreshHappens | gateway/cache/user_cache.go:62-97 | from any state without a refresh an expired entry and one change can lead there |
| LogPaging.Logs | control-plane/service/dashboard_service.go:148-174 | a page holds the next of the wanted logs and a cursor exactly when more follow; an inverted range gets none |
| LogPaging.PageIsWanted | control-plane/repository/access_log_repository.go:98-118 | the page shows the newest of exactly the logs the caller may see and asked for by service, range and cursor, no more than asked for, and ends in a cursor exactly when more are wanted |
| LogPaging.ListedGoesBack | control-plane/repository/access_log_repository.go:266-268 | a listing goes back in time, and from the greater id to the smaller at one time |
| LogPaging.FoundIsRest | control-plane/repository/access_log_repository.go:257-283 | filtering by the cursor, then sorting, finds what the sorted list holds after the cursor |
| LogPaging.CursorRoundTrip | control-plane/service/dashboard_service.go:176-201 | a cursor read back is the position it was made from |
| LogPaging.NextPageContinues | control-plane/service/dashboard_service.go:148-201 | following a page's cursor asks for exactly what was left |
| LogPaging.WalkIsSound | control-plane/repository/access_log_repository.go:257-283 | with logs arriving anywhere meanwhile, a walk repeats none, skips none that was there, and stays in order |
| LogPaging.WalkIsExact | control-plane/service/dashboard_service.go:148-174 | with arrivals newer than the cursor the pages together are exactly the list the walk began with |
| LogPaging.CollectionWalk | control-plane/repository/access_log_repository.go:257-283 | a walk over a growing collection lists matching logs newest first and once, all that matched when it began, and nothing else |
| LogPaging.WalkEnds | control-plane/service/dashboard_service.go:152-166 | such a walk ends once as many pages as the list fills have been read |
| LogPaging.RangeIsBounded | control-plane/service/dashboard_service.go:58-75 | the searched range is never empty or longer than the maximum, and rejected exactly when inverted |
| LogPaging.OnlyOwnLogs | control-plane/service/dashboard_service.go:45-56 | a plain user's pages hold only that user's logs whatever filter was asked for |
| Glob.MatchParts | control-plane/handler/transform_config_handler.go:382-398 | the loop computes the leftmost search |
| Glob.MatchWildcard | control-plane/handler/transform_config_handler.go:375-380 | without a star the pattern must occur in the string |
| Glob.GreedyIsShortest | control-plane/handler/transform_config_handler.go:382-398 | the search ends at the shortest prefix that matches, if any does |
| Glob.TrailingStarIsComplete | control-plane/handler/transform_config_handler.go:374-398 | with a star at the end acceptance is exactly a glob match |
| Glob.AcceptsShortestMatches | control-plane/handler/transform_config_handler.go:374-398 | without one acceptance is a glob match no shorter prefix of which matches |
| Glob.MissesLaterOccurrence | control-plane/handler/transform_config_handler.go:382-398 | a true match that is turned down |
| PathConflicts.NormalizePath | control-plane/service/gateway_service_service.go:614-622 | segments in braces are replaced in place |
| PathConflicts.CheckInternalPathConflicts | control-plane/service/gateway_service_service.go:583-602 | the groups of more than one path, in order of first appearance |
| PathConflicts.NothingReported | control-plane/service/gateway_service_service.go:582-602 | nothing is reported exactly when the normal forms differ pairwise |
| PathConflicts.ReportedExactly | control-plane/service/gateway_service_service.go:583-602 | reported is exactly every group of several paths with one normal form |
| PathConflicts.GroupIsAll | control-plane/service/gateway_service_service.go:583-602 | a group is all the paths with one normal form, in order |
| PathConflicts.GroupsShareSlots | control-plane/service/gateway_service_service.go:582-602 | each reported group maps to one slot of the gateway's index |
| PathConflicts.SameSlot | gateway/trie/trie.go:63-97 | exactly when two resources of a service share a slot |
| PathConflicts.NormDecidesSlot | control-plane/service/gateway_service_service.go:624-628 | one normal form means one slot, and for canonical paths only that does |
| PathConflicts.CheckedServiceKeepsAllRoutes | control-plane/service/gateway_service_service.go:583-622 | a canonical service passes exactly when every resource has a slot of its own |
| PathConflicts.CollideExactly | gateway/trie/trie.go:63-97 | two resources share a slot exactly when one normal form is left of their paths without empty segments and what follows a star, or the base path has a star |
| PathConflicts.CheckErrsExactly | control-plane/service/gateway_service_service.go:583-622 | for any paths the check is wrong exactly when it reports nothing although two collide, and never reports too much |
| PathConflicts.DistinctSlotsSurvive | gateway/trie/trie.go:54-97 | resources with slots of their own all keep their route after loading |
| PathConflicts.TrailingSlashSlipsThrough | control-plane/service/gateway_service_service.go:614-622 | a path and the same with a slash at the end are not reported but share a slot |
| PathConflicts.InnerStarSlipsThrough | control-plane/service/gateway_service_service.go:110-118 | a wildcard path continued up to another star passes both checks and shares the first one's slot |
| PackageUsers.ParseIds | control-plane/service/package_user_service.go:83-96 | the distinct well-formed ids, and the number of malformed ones |
| ObjectIds.ParseExactly | control-plane/service/package_user_service.go:83-88 | a text is read as an id exactly when it is the id's 24 hexadecimal digits in upper or lower case |
| PackageUsers.MalformedCounts | control-plane/service/package_user_service.go:83-88 | the malformed ids are counted one by one |
| PackageUsers.AssignsTheNamed | control-plane/repository/user_repository.go:320-368 | exactly the named live users outside the package join it, everybody else is as before, and every count moves by those who came and left |
| PackageUsers.RemovesTheNamed | control-plane/repository/user_repository.go:370-381 | exactly the named live members leave, everybody else is as before, and the package counts as many fewer |
| PackageUsers.Database.AssignUsers | control-plane/service/package_user_service.go:73-121 | users, counters and the reported numbers after an assignment, by the ids handed in |
| PackageUsers.Database.RemoveUsers | control-plane/service/package_user_service.go:142-177 | users, counters and the reported numbers after a removal, by the ids handed in |
| PackageUsers.Database.IncrUserCount | control-plane/repository/package_repository.go:170-177 | a deleted or unknown package is left alone |
| PackageUsers.AssignKeepsCounts | control-plane/service/package_user_service.go:102-111 | the counters stay right exactly when the old counts were read or nobody left a live package |
| PackageUsers.RemoveKeepsCounts | control-plane/service/package_user_service.go:170-174 | removing users keeps the counters right |
| PackageUsers.EveryRunKeepsCounts | control-plane/service/package_user_service.go:73-177 | over any run every live package's counter is the number of its live users |
| PackageUsers.DecrementsBalance | control-plane/repository/user_repository.go:320-368 | what the old packages lose plus the users without one is what the new package gains |
| Preset.UpstreamRoots | control-plane/preset/preset.go:167-196 | the cleaned addresses that lie under no other, in order |
| Preset.CleanedMembers | control-plane/preset/preset.go:168-181 | cleaning loses nothing but empty and repeated addresses |
| Preset.RootsAreLeastCover | control-plane/preset/preset.go:155-166 | the roots cover every address, none lies under another, and every cover contains them |
| Preset.RootsKeepOrder | control-plane/preset/preset.go:183-196 | the roots come in the order of the addresses |
| Preset.Rewrite | control-plane/preset/preset.go:134-147 | a rule that mentions the address is copied for every root, any other kept once |
| Preset.RewrittenRuleByRule | control-plane/preset/preset.go:134-147 | a rule that mentions the address becomes a copy for each root in order, any other stays, one rule after the other |
| Preset.EveryAddressIsRewritten | control-plane/preset/preset.go:131-147 | every address is rewritten at or above itself by every rule that mentions it |
| RateLimitPayload.BuildRateLimitMap | control-plane/handler/rate_limit_payload.go:44-88 | a package's tiers for a pattern are those of its last link and path that give any valid ones |
| RateLimitChoice.ListedIsLastGiven | control-plane/handler/rate_limit_payload.go:44-88 | a package is listed with the usable tiers of the last path, of the last link, that has any for the pattern, its own limit going before the package's |
| RateLimitChoice.KeepsUsable | control-plane/handler/rate_limit_payload.go:67-88 | of a limit's tiers the usable ones are kept in order |
| RateLimitPayload.StarParamsBySegment | control-plane/handler/rate_limit_payload.go:10-10 | in every segment the regular expression turns what stands between the first and the last brace into a star and keeps the rest |
| RateLimitPayload.FindBestRateLimit | control-plane/handler/rate_limit_payload.go:119-147 | exact, then with stars for params, then the longest matching wildcard, in whatever order the map is visited |
| RateLimitChoice.BestBySegments | control-plane/handler/rate_limit_payload.go:119-147 | said of segments: the path's own limits, or those with a star for each parameter, or those of the deepest wildcard above |
| RateLimitPayload.CandidatesDiffer | control-plane/handler/rate_limit_payload.go:133-145 | two matching wildcards of one length are the same pattern |
| RateLimitPayload.ChoiceIsUnique | control-plane/handler/rate_limit_payload.go:123-147 | the choice does not depend on the order of visiting |
| RateLimitPayload.OwnLimitExactly | control-plane/handler/rate_limit_payload.go:123-147 | at every stage a package keeps the limit of its own best pattern exactly when the chosen pattern lists it |
| RateLimitPayload.KeepsOwnExactly | control-plane/handler/rate_limit_payload.go:119-147 | every package keeps its own limit on every path exactly when every pattern lists the packages of the pattern with stars in its place and of all wildcards above it |
| RateLimitPayload.NoOwnNoLimit | control-plane/handler/rate_limit_payload.go:123-147 | a package without a matching pattern gets no limit from another's |
| RateLimitPayload.OtherPackagesAreDropped | control-plane/handler/rate_limit_payload.go:123-147 | below any longer pattern a package limited through the catch-all gets no limit |

## Left out

- RouteIndex.PathTrie.FindBestMatch: locking and the method filter of the handler are not modelled; a lookup sees one state of the index.
- RouteIndex.PathTrie.Search: nothing is promised about the order in which pattern siblings are tried, as the code ranges over a map; `RouteAmbiguity` says when that shows.
- RateLimiter.RateLimitStore.Allow: clocks never run backwards and windows are positive; pods with clocks that disagree, and the meaning of a window of zero, are not modelled.
- UpstreamCache.UpstreamCache.Get: operations of one pod do not overlap; the singleflight and the write-behind of the handler are not modelled.
- UpstreamCache.UpstreamCache.Set: the headers-format error cannot happen, since header encoding is a total function here.
- CacheCodec.UnmarshalBinary: how JSON text is read is an abstract function.
- UpstreamCache: a cache without a memory level, and which entries are cacheable at all.
- LogConsumer.LogLoop.ReadTurn: the loops of one process run one operation at a time here; that they interleave is the protocol's part.
- LogProtocol: trimming of the stream, the owner kept in the pending list, and idle times, of which only "delivered recently" is left.
- Pulling.Converges: pushed reload events that join a running sync through singleflight; only pulls that start after the change count.
- ConfigSync.HybridTrie.DoSync: start-up from the Redis copy, writing that copy back, and polling jitter; a payload of JSON null and an empty ETag, which the server never sends.
- ConfigSync.HTTPSyncProvider.GetWithRetry: the breaker's own state; an open breaker is a pull without attempts.
- EventGuard.UsersAreNewest: what events alone leave; the background refresh of an expired or missing user, the polled api keys and invalidations, which also write the entries, are `UserFreshness`.
- EventGuard: the two-hour expiry of cached api keys, and the polled list of them, which also writes their keys.
- UserFreshness: a restart of the gateway, which empties the cache and the guard; the semaphore that delays refreshes; and a user's rights themselves, represented by the change they show.
- LogPaging.Logs: logs that expire during a walk.
- RateLimitLaws.EveryTierHolds: requests on which Redis fails are admitted and not counted, and requests with one identifier count once.
- RateLimitSharing.Ask.JointExactly: nothing else reaches the keys while the tiers are checked, and the check takes less than any window.
- EventOrder.ApiKeysIndependentExactly: all writes succeed there; refused ones are what CacheIsNewestExactly is about.
- Transforms: EqualFold beyond the Latin letters, and the fingerprint of the rules.
- PathConflicts: collisions between resources of different services.
- PackageUsers.Database.AssignUsers: failing updates and concurrent requests; only the failing count query is modelled.
- Preset.UpstreamRoots: cutting the query off an address is an abstract function, as URL parsing is not part of this model.
- Preset.Rewrite: substitution and quoting inside a rule are abstract functions.
- HTTP handlers, routing, configuration files, logging, shutdown, the portal, authentication, the transform engines and CRUD services.
