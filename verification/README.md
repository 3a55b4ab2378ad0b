# goupter: verified model of its own logic

goupter is a Go framework for microservices. Most of it connects libraries; this project models
the parts that carry logic of their own and proves what they promise. The text of a `.dfy` file
follows the Go file it models: a struct whose methods update its fields is a class, a loop is a
loop, and every such method is proved against a specification function. The theorems are lemmas
about those functions, and about all runs of them.

| file | models |
|---|---|
| `TokenBucket.dfy`, `GreedyAdmission.dfy`, `NoRefill.dfy`, `IPRateLimiter.dfy`, `LimiterSchedules.dfy`, `WindowCounter.dfy` | the rate limiters, and the window sampler of the logger |
| `MemoryCache.dfy`, `MultiLevelCache.dfy`, `CacheLaws.dfy` | the expiring map, the stack of caches over it, and what their callers see |
| `JwtRevocation.dfy` | token revocation on top of the cache (expiry: section 4.1.4 of RFC 7519) |
| `BufferedWriter.dfy`, `TimeoutProtocol.dfy` | the buffering response writer, and the goroutines of the timeout middleware as a state machine |
| `Wkt.dfy`, `WktDocs.dfy` | the parser of well-known text (section 7.2 of OGC 06-103r4) that is written into new projects |
| `Imports.dfy`, `Routes.dfy`, `RouteBlocks.dfy`, `RouteFiles.dfy` | the generator of route files |
| `Masker.dfy`, `PhoneRule.dfy` | the redactor of the logger, and its default phone rule |
| `RoundRobin.dfy`, `Metrics.dfy` | the balancer's wrapping index and the request counters |
| `Prelude.dfy`, `TextOps.dfy` | what the others share |

`dafny verify dfyconfig.toml` checks everything.

Time, randomness and the libraries enter as parameters: every call is given the clock reading it
takes, a regular expression is a function from text to ranges, a signature check is a function from
tokens to claims, a number format is a pair of a reader and a writer. In the limiters time is a
real; in the caches and for tokens it is in integer nanoseconds.

## What fails, and exactly when it holds

Some laws one would expect of the code are false of it. Each is kept as the code has it, with the
input that breaks it and the condition under which it holds.

- Greedy admission admits as many calls as can be admitted if and only if at most one of the amounts
  asked for lies between 1 and the capacity (`GreedyIsBestIff`, for a bucket that refills; at rate 0 the
  condition is weaker, `GreedyIsBestWithoutRefillIff`, `TwoAmountsWithoutRefillIff`).
- Dropping full buckets is invisible, for calls that run as one step, if and only if the rate is not
  negative (`PermanentBuckets`). `getLimiter` and `AllowN` are two critical sections, though; a sweep is
  harmless if and only if it drops no bucket that a call has obtained and not yet charged
  (`SweepIsHarmlessIff`, `OrphanedBucketDoublesTheBurst`).
- The comment on `cleanup` of the per-key limiter (ratelimit.go:199) says that expired limiters are
  cleaned up. It looks at the tokens stored by the last call; a key whose last call was granted stays
  however long it is idle, and the keys that do go are told exactly (`IdleKeyIsDroppedIff`).
- The comment on `matchPattern` (memory.go:294) allows for a star at the beginning; the code takes such
  a pattern literally (`LiteralPatterns`).
- The comment on `SlidingWindowLimiter` (ratelimit.go:75) calls the limit the maximum in a window. The
  windows do not slide: within any time however short, 2 * limit - 1 can pass (`AlmostTwiceAtOnce`), and
  2 * limit when calls for nothing are made (`EmptyCallsGiveTwice`). When every call asks for something,
  the maximum holds over every interval shorter than the window if and only if it is at most one
  (`LimitHoldsIff`); over all calls for non-negative amounts, if and only if it is
  zero (`LimitHoldsForAllIff`).
- Unlike those of the token bucket, rejected calls of the window limiter can leave a trace: they leave
  none if and only if the amounts asked for are all within the limit or all beyond it
  (`RejectedLeaveNoTraceIff`).
- `Expire` revives an entry that has expired but was not swept; the memory cache refines a timed map
  exactly up to that (`ExpireRefinesUnlessItRevives`, `RevivalIsVisible`).
- `Incr`, `Expire` and an `MSet` with values that cannot be encoded keep the levels of the stacked cache
  coherent if and only if `IncrSafe`, `ExpireSafe`, respectively `MSetSafe` holds (`IncrExact`,
  `ExpireExact`, `MSetExact`).
- A revoked token gets past `Authenticate` if and only if it is parsed before its expiry and looked up
  after its blacklist entry has lapsed (`RevokedPassesIff`); the entry lapses at the expiry, or later by
  as long as `RevokeToken` takes between computing the time left and storing it. A token without an
  expiry or an issue time makes `Authenticate` panic instead of accepting it (`AcceptsIffNotRevoked`).
- A committed buffer and a direct writer deliver the same response if and only if status and headers
  agree (`BufferingIsTransparentIff`). They do not when a handler only adds to, or finally deletes, a
  header that earlier middleware has set (`AddingLosesWhatWasThere`, `DeletingDoesNotDelete`), when
  earlier middleware has set a status (`WritingResetsTheStatus`), or when a header is set after the
  first write (`LateHeaderIsKept`).
- Empty lines, rings and polygons do not survive the WKT round trip; everything else does
  (`RingsRoundTrip`, `PolygonsRoundTrip`).
- The route generator is idempotent if and only if no struct name among the tables holds an opening
  parenthesis or a line break (`IdempotentIff`). A block declares just its function if and only if,
  besides, no line of the table's comment or name declares one (`NamesAfterBlockIff`). Inserting imports
  keeps the declarations of a file if and only if the first one missing does not disturb the line it
  comes to stand on (`ImportsKeepNamesIff`, `DeclaresForAllIff`); the other laws are about such files.
  The generator declares a function twice if and only if one run asks twice for a function that is
  missing (`NothingTwiceIff`, `TableListedTwice`).
- Round robin is fair over all stretches of calls if and only if the number of instances divides
  2^32 (`FairIffDivides`).
- One round of masking settles a text if and only if whatever a rule still matches afterwards is masked
  as that rule would mask it (`OneRoundSettlesIff`). For the phone rule that can be told from the text
  itself: every number in it, overlapping ones included, must meet a stretch that the first pass hides
  (`PhoneSettlesIff`, `DefaultRulesSettleIff`, `DefaultRulesNeedTwoRounds`). As many rounds as a text has
  bytes always settle it, and fewer may not (`FixpointWithinLength`, `FewerRoundsAreNotEnough`).
- A masked address keeps its length if and only if it starts with an ASCII byte or is masked whole
  (`EmailRedacts`).

## Model

| member | source | states |
|---|---|---|
| TokenBuckets.TokenBucket.constructor | pkg/server/middleware/ratelimit.go:31-38 | a new bucket is full at the time of its creation |
| TokenBuckets.TokenBucket.AllowN | pkg/server/middleware/ratelimit.go:46-67 | the update in place and the answer are one step of the specification bucket: refill, cap, compare, charge |
| TokenBuckets.TokenBucket.Allow | pkg/server/middleware/ratelimit.go:41-43 | the step for one token |
| TokenBuckets.GrantedIff | pkg/server/middleware/ratelimit.go:46-67 | with x tokens held at its last call, at time u, a call for n at t is granted if and only if n <= min(capacity, x + (t - u) * rate), and is charged for what it grants and nothing else |
| TokenBuckets.NewBucketThenTwo | pkg/server/middleware/ratelimit.go:31-67 | after a first call on a new bucket the second can have what is left and what the time in between has earned |
| TokenBuckets.TokensStayInRange | pkg/server/middleware/ratelimit.go:46-67 | through every run of non-negative requests tokens stay in [0, capacity] |
| TokenBuckets.RefillsCompose | pkg/server/middleware/ratelimit.go:50-58 | refilling in two goes is refilling once, cap included |
| TokenBuckets.IntervalBound | pkg/server/middleware/ratelimit.go:46-67 | in every run and every closed interval [s, t] the total admitted is at most capacity + (t - s) * rate, even with negative amounts |
| TokenBuckets.RejectedCallsLeaveNoTrace | pkg/server/middleware/ratelimit.go:46-67 | dropping any rejected calls from a run changes no other answer |
| TokenBuckets.GreedyIsOptimal | pkg/server/middleware/ratelimit.go:46-67 | when one amount only is positive and within the capacity, whatever else is asked for, no policy under the same refill, cap and no-overdraft rules admits more calls in any prefix of any run, from any bucket |
| GreedyAdmission.GreedyIsBestIff | pkg/server/middleware/ratelimit.go:46-67 | from a full bucket that refills, over all runs with amounts from a given set, no policy ever admits more calls if and only if at most one amount of the set lies between 1 and the capacity |
| GreedyAdmission.TwoAmountsBeat | pkg/server/middleware/ratelimit.go:46-67 | for any two such amounts, the run on which a rival admits more |
| NoRefill.GreedyIsBestWithoutRefillIff | pkg/server/middleware/ratelimit.go:46-67 | at rate 0, over all runs with non-negative amounts from a given set: if and only if no two packings of the capacity are such that the smaller leaves no room for any of what only the larger has |
| NoRefill.TwoAmountsWithoutRefillIff | pkg/server/middleware/ratelimit.go:46-67 | with two amounts a < b: if and only if no number of calls of b taken first, with the calls of a that still fit, comes to fewer calls than fit of a alone |
| TokenBuckets.MixedAmountsAreNotOptimal | pkg/server/middleware/ratelimit.go:46-67 | the shortest run on which a rival wins at rate 0 |
| IPRateLimiters.IPRateLimiter.constructor | pkg/server/middleware/ratelimit.go:155-164 | no buckets at first |
| IPRateLimiters.IPRateLimiter.GetLimiter | pkg/server/middleware/ratelimit.go:167-187 | returns the stored bucket, or stores and returns a new full one; nothing else changes |
| IPRateLimiters.IPRateLimiter.AllowN | pkg/server/middleware/ratelimit.go:195-197 | charges the key's bucket only; all others stay as they are |
| IPRateLimiters.IPRateLimiter.Allow | pkg/server/middleware/ratelimit.go:190-192 | the step for one token |
| IPRateLimiters.IPRateLimiter.Cleanup | pkg/server/middleware/ratelimit.go:200-216 | drops exactly the buckets stored full |
| IPRateLimiters.SweptIff | pkg/server/middleware/ratelimit.go:200-216 | a sweep drops a key if and only if its bucket is stored full, and changes no other |
| IPRateLimiters.IdleKeyIsDroppedIff | pkg/server/middleware/ratelimit.go:200-216 | sweeps look at stored tokens, not at what has been earned since: an idle key whose last call asked for something is ever dropped if and only if that call asked for more than the capacity and found the bucket full |
| IPRateLimiters.PermanentBuckets | pkg/server/middleware/ratelimit.go:155-216 | for all runs of atomic calls and sweeps each key is answered as by one permanent, initially full bucket, if and only if the rate is not negative |
| IPRateLimiters.NegativeRateDiffers | pkg/server/middleware/ratelimit.go:200-216 | the run that tells them apart for a negative rate |
| IPRateLimiters.PerKeyIntervalBound | pkg/server/middleware/ratelimit.go:195-216 | the interval bound for every key, whatever other keys and sweeps do |
| IPRateLimiters.OrphanedBucketDoublesTheBurst | pkg/server/middleware/ratelimit.go:195-216 | with a sweep between obtaining a full bucket and charging it, two full bursts pass at one instant |
| LimiterSchedules.ServedAsOne | pkg/server/middleware/ratelimit.go:167-216 | with obtaining and charging as separate steps of concurrent calls: as long as no sweep drops a key's bucket from under a call, the key is answered as by one bucket |
| LimiterSchedules.PermanentWhenSpared | pkg/server/middleware/ratelimit.go:155-216 | in particular, from an empty limiter, as by its permanent, initially full bucket |
| LimiterSchedules.OrphanOverspends | pkg/server/middleware/ratelimit.go:167-216 | after a sweep that does drop it there is a continuation answered otherwise |
| LimiterSchedules.SweepIsHarmlessIff | pkg/server/middleware/ratelimit.go:200-216 | so a sweep leaves a key with one bucket, for all that may follow, if and only if it does not drop a full bucket that a call has obtained and not yet charged |
| WindowCounters.SlidingWindowLimiter.constructor | pkg/server/middleware/ratelimit.go:85-94 | no windows at first |
| WindowCounters.SlidingWindowLimiter.AllowN | pkg/server/middleware/ratelimit.go:102-125 | one step of the key's window counter, all other keys untouched |
| WindowCounters.SlidingWindowLimiter.Allow | pkg/server/middleware/ratelimit.go:97-99 | the step for one request |
| WindowCounters.SlidingWindowLimiter.Cleanup | pkg/server/middleware/ratelimit.go:128-142 | drops exactly the windows begun two window lengths ago or earlier |
| WindowCounters.WindowSampler.constructor | pkg/log/sampler.go:49-60 | no counts at first; a maximum below one becomes one |
| WindowCounters.WindowSampler.Sample | pkg/log/sampler.go:63-91 | the same step with the strict boundary |
| WindowCounters.WindowSampler.Cleanup | pkg/log/sampler.go:93-107 | drops exactly the windows that are over |
| WindowCounters.LimiterDecides | pkg/server/middleware/ratelimit.go:102-125 | the limiter's answer and window after a hit, from limit, length, count and start |
| WindowCounters.SamplerDecides | pkg/log/sampler.go:63-91 | the sampler's, which still counts a message at the very end of the window |
| WindowCounters.OtherKeysUntouched | pkg/server/middleware/ratelimit.go:102-125 | a hit changes the window of its key alone |
| WindowCounters.SweptIff | pkg/server/middleware/ratelimit.go:128-142 | the limiter drops windows two lengths after they began, the sampler once they are over, and neither any other |
| WindowCounters.WindowBound | pkg/server/middleware/ratelimit.go:102-142 | over any closed interval no longer than j windows at most (j + 1) * limit is admitted, for both boundaries |
| WindowCounters.WindowBoundIsTight | pkg/server/middleware/ratelimit.go:102-125 | the limiter reaches that bound for every j, counting both end points of the interval |
| WindowCounters.PositiveBound | pkg/log/sampler.go:63-91 | when every call asks for something, one less: over an interval shorter than j windows, for the sampler up to j windows, at most (j + 1) * limit - 1 |
| WindowCounters.AlmostTwiceAtOnce | pkg/server/middleware/ratelimit.go:102-125 | calls of one each reach that bound for j = 1 in as little time as one likes |
| WindowCounters.LimitHoldsIff | pkg/server/middleware/ratelimit.go:102-125 | when every call asks for something, the configured maximum holds over every interval shorter than the window, for limiter and sampler, if and only if it is at most one |
| WindowCounters.EmptyCallsGiveTwice | pkg/server/middleware/ratelimit.go:102-125 | after a call for nothing even two full limits pass around the end of its window |
| WindowCounters.LimitHoldsForAllIff | pkg/server/middleware/ratelimit.go:102-125 | so over all calls for non-negative amounts the maximum holds if and only if it is zero |
| WindowCounters.LargeCallShutsOut | pkg/server/middleware/ratelimit.go:109-116 | a first call beyond the limit is rejected but opens a window it fills, so that the next call is rejected too |
| WindowCounters.RejectedLeaveNoTraceIff | pkg/server/middleware/ratelimit.go:102-125 | over all runs with non-negative amounts from a given set, dropping rejected calls changes no other answer if and only if the amounts are all within the limit or all beyond it |
| WindowCounters.FullLimitIsGranted | pkg/server/middleware/ratelimit.go:102-125 | a key whose window is over or absent gets all that fits the limit within the next window |
| WindowCounters.SweepsAreUnobservable | pkg/log/sampler.go:63-107 | each key is answered as by a counter of its own that is never swept |
| WindowCounters.PerKeyWindowBound | pkg/server/middleware/ratelimit.go:102-142 | the window bound for every key of a limiter that starts empty, under any sweeps and other calls |
| MemoryCaches.MemoryCache.constructor | pkg/cache/memory.go:47-61 | empty |
| MemoryCaches.MemoryCache.Get | pkg/cache/memory.go:82-92 | the live value, not found, or an error if it does not decode into the caller's variable; nothing changes |
| MemoryCaches.MemoryCache.GetRaw | pkg/cache/memory.go:94-103 | the stored encoding under the same rule |
| MemoryCaches.MemoryCache.Exists | pkg/cache/memory.go:132-141 | present and not expired |
| MemoryCaches.MemoryCache.MGet | pkg/cache/memory.go:143-158 | maps exactly the live keys asked for to their values |
| MemoryCaches.MemoryCache.TTL | pkg/cache/memory.go:251-267 | -2, -1 or the time left |
| MemoryCaches.MemoryCache.Keys | pkg/cache/memory.go:274-288 | exactly the live keys that match |
| MemoryCaches.MemoryCache.Set | pkg/cache/memory.go:105-123 | stores with a deadline only for a positive ttl; an unencodable value changes nothing |
| MemoryCaches.MemoryCache.MSet | pkg/cache/memory.go:160-180 | stores all; stops at the first unencodable value with an arbitrary set of the others stored |
| MemoryCaches.MemoryCache.Delete | pkg/cache/memory.go:125-130 | removes exactly the key |
| MemoryCaches.MemoryCache.MDelete | pkg/cache/memory.go:182-189 | removes exactly the keys |
| MemoryCaches.MemoryCache.IncrBy | pkg/cache/memory.go:195-209 | adds in 64 bits to the live number, or to 0, and stores the sum without a deadline |
| MemoryCaches.MemoryCache.DecrBy | pkg/cache/memory.go:215-217 | the same with the negated operand, wrap-around included |
| MemoryCaches.MemoryCache.SetNX | pkg/cache/memory.go:219-239 | stores only if nothing live is there, and says so |
| MemoryCaches.MemoryCache.Expire | pkg/cache/memory.go:241-249 | moves the deadline of a present entry, expired or not |
| MemoryCaches.MemoryCache.Cleanup | pkg/cache/memory.go:64-80 | removes exactly the expired entries |
| MemoryCaches.TtlMeaning | pkg/cache/memory.go:251-267 | TTL is -2 iff the key does not exist, -1 iff it exists without a deadline, and not negative iff with one |
| MemoryCaches.PrefixPatterns | pkg/cache/memory.go:290-300 | a pattern ending in a star matches exactly the keys with that prefix |
| CacheLaws.GetMeans | pkg/cache/memory.go:82-103 | a read finds what is there with a deadline not yet passed |
| CacheLaws.TtlIsTimeLeft | pkg/cache/memory.go:251-267 | TTL is exactly the time left |
| CacheLaws.SetThenGet | pkg/cache/memory.go:105-123 | what is set is there for as long as a positive ttl, forever without one, under TTL as under Get, and no other key changes |
| CacheLaws.SetNXThenGet | pkg/cache/memory.go:219-239 | the same where nothing was alive; otherwise nothing changes |
| CacheLaws.MSetThenGet | pkg/cache/memory.go:160-180 | the same for every item |
| CacheLaws.MSetFails | pkg/cache/memory.go:160-180 | with a value that cannot be encoded each item is stored in full or not at all, and nothing else changes |
| CacheLaws.DeleteMeans | pkg/cache/memory.go:125-130 | the keys are gone and all others untouched |
| CacheLaws.CountingAddsUp | pkg/cache/memory.go:195-209 | the answer is an int64 equal to what the counter stood at plus the operand, modulo 2^64; it is there from then on without a deadline |
| CacheLaws.CountingRepeatedly | pkg/cache/memory.go:191-193 | n calls of Incr in a row count n |
| CacheLaws.ExpireMeans | pkg/cache/memory.go:241-249 | whatever is present, dead or alive, lives until now + ttl |
| CacheLaws.LiteralPatterns | pkg/cache/memory.go:290-300 | a pattern that does not end in a star matches itself alone, a star at its beginning included |
| CacheLaws.KeysMeans | pkg/cache/memory.go:274-288 | exactly the live keys with that name or prefix |
| CacheLaws.MGetMeans | pkg/cache/memory.go:143-158 | exactly the live keys asked for, with their values |
| CacheLaws.SweepMeans | pkg/cache/memory.go:64-80 | exactly what is no longer alive goes |
| CacheLaws.EncodedOnlyKept | pkg/cache/memory.go:105-180 | nothing that cannot be encoded is ever stored |
| MemoryCaches.Wrap64Range | pkg/cache/memory.go:195-209 | the counter arithmetic is that of int64 |
| MemoryCaches.RefinesTimedMap | pkg/cache/memory.go:64-300 | in every run without revival all operations answer as a map that forgets an entry the moment it expires |
| MemoryCaches.ExpireRefinesUnlessItRevives | pkg/cache/memory.go:241-249 | Expire keeps to that map if and only if it does not revive an expired entry |
| MemoryCaches.SweepsAreInvisible | pkg/cache/memory.go:64-80 | sweeps put anywhere into a run without revival change no answer |
| MemoryCaches.RevivalIsVisible | pkg/cache/memory.go:241-249 | with revival, a sweep before Expire changes what Exists answers after it |
| MultiLevelCaches.MultiLevelCache.constructor | pkg/cache/multi.go:25-35 | the levels given, in order |
| MultiLevelCaches.MultiLevelCache.Get | pkg/cache/multi.go:47-65 | answers from the first level that holds the key alive with a value that decodes, and copies it, with the time it has left, to all levels above |
| MultiLevelCaches.MultiLevelCache.GetRaw | pkg/cache/multi.go:67-78 | the same answer without copying |
| MultiLevelCaches.MultiLevelCache.Exists | pkg/cache/multi.go:102-109 | some level holds the key alive |
| MultiLevelCaches.MultiLevelCache.MGet | pkg/cache/multi.go:111-138 | the loop over remaining keys gives each key the value of the first level that holds it, and omits exactly the keys no level holds |
| MultiLevelCaches.MultiLevelCache.TTL | pkg/cache/multi.go:217-223 | the last level's answer |
| MultiLevelCaches.MultiLevelCache.Keys | pkg/cache/multi.go:235-241 | the last level's answer |
| MultiLevelCaches.MultiLevelCache.Set | pkg/cache/multi.go:80-89 | every level is written, or none |
| MultiLevelCaches.MultiLevelCache.MSet | pkg/cache/multi.go:140-148 | every level is written, each possibly in part if a value cannot be encoded |
| MultiLevelCaches.MultiLevelCache.Delete | pkg/cache/multi.go:91-100 | removed from every level |
| MultiLevelCaches.MultiLevelCache.MDelete | pkg/cache/multi.go:150-158 | removed from every level |
| MultiLevelCaches.MultiLevelCache.IncrBy | pkg/cache/multi.go:168-173 | only the last level changes |
| MultiLevelCaches.MultiLevelCache.SetNX | pkg/cache/multi.go:189-205 | the last level decides, and the upper levels are written only when it stored |
| MultiLevelCaches.MultiLevelCache.Expire | pkg/cache/multi.go:207-215 | applied to every level |
| CacheLaws.GetCopiesUp | pkg/cache/multi.go:47-65 | Get answers from the first level that can; with a deadline ahead all levels above then hold the value until the same deadline, otherwise none changes; no other key and no level from there on is ever touched |
| CacheLaws.GetFindsNothing | pkg/cache/multi.go:47-65 | when no level answers nothing changes |
| CacheLaws.NextGetFromTheTop | pkg/cache/multi.go:47-65 | the next Get is answered by the first level, until the deadline |
| CacheLaws.CountingUnderACopy | pkg/cache/multi.go:47-65 | so counting right after a Get answered by the last level goes unseen until then |
| CacheLaws.ReadsLookFromTheTop | pkg/cache/multi.go:67-109 | GetRaw and Exists look for the first level that holds the key |
| CacheLaws.BatchLooksFromTheTop | pkg/cache/multi.go:111-138 | so does MGet, for each key |
| CacheLaws.LastLevelAnswers | pkg/cache/multi.go:217-241 | TTL and Keys are the last level's |
| CacheLaws.NoLevels | pkg/cache/multi.go:25-35 | what a stack without levels answers |
| CacheLaws.WritesReachEveryLevel | pkg/cache/multi.go:80-158 | Set, MSet, Delete, MDelete and Expire do to every level what they do to a cache |
| CacheLaws.CountingIsInTheLast | pkg/cache/multi.go:160-187 | counting changes the last level alone |
| CacheLaws.SetNXAsksTheLast | pkg/cache/multi.go:189-205 | where the last level stores all others are set too, otherwise none changes |
| MultiLevelCaches.CoherentMeansAgreement | pkg/cache/multi.go:47-65 | from coherence on, a live upper entry has the value of a live last-level entry and does not outlive it, at any later time |
| MultiLevelCaches.CoherencePreserved | pkg/cache/multi.go:47-215 | every operation, any level's sweep and the passage of time keep the levels coherent; counting, Expire and MSet under their guards, which are exact |
| MultiLevelCaches.IncrExact | pkg/cache/multi.go:160-187 | counting keeps coherence if and only if no upper level has the key, save with the same number |
| MultiLevelCaches.CountingBelowACopyIsNotSeen | pkg/cache/multi.go:160-187 | while an upper level answers for the key Get goes on answering with its copy |
| MultiLevelCaches.ExpireExact | pkg/cache/multi.go:207-215 | Expire keeps coherence if and only if the ttl is negative, the last level still holds the key, or no other level does |
| MultiLevelCaches.MSetExact | pkg/cache/multi.go:140-148 | MSet keeps coherence, wherever each level stops, if and only if all values can be encoded, there is one level, or for each value that can be encoded the last level has it for as long already and the copies above have it for no longer |
| MultiLevelCaches.UnsafePut | pkg/cache/multi.go:140-148 | otherwise there is a way of stopping that breaks it |
| MultiLevelCaches.PartialMSetBreaksCoherence | pkg/cache/multi.go:140-148 | for instance on two empty levels |
| MultiLevelCaches.AnswersAsLastLevel | pkg/cache/multi.go:47-241 | on coherent levels each operation answers, and changes the last level, as on the last level alone, save that a value that does not decode counts as not found |
| MultiLevelCaches.RefinesLastLevel | pkg/cache/multi.go:47-241 | over every guarded run the stack cannot be told from its last level, save for that |
| MultiLevelCaches.CoherentThroughout | pkg/cache/multi.go:47-241 | coherence holds at the end of every guarded run |
| MultiLevelCaches.StackRefinesTimedMap | pkg/cache/multi.go:47-241 | end to end: without revival the stack answers as the timed map, save for that |
| MultiLevelCaches.CountersAreNeverBackfilled | pkg/cache/multi.go:47-65 | a key that is only counted, read and deleted never gets into an upper level |
| JwtRevocation.Authenticator.constructor | pkg/auth/jwt/jwt.go:103-109 | the configuration and the blacklist given |
| JwtRevocation.Authenticator.Authenticate | pkg/auth/jwt/jwt.go:119-151 | invalid, revoked, accepted or panicking, decided in that order on separate clock readings |
| JwtRevocation.Authenticator.RevokeToken | pkg/auth/jwt/jwt.go:195-218 | lists the token for the time it has left, or reports why not |
| JwtRevocation.ParsesIff | pkg/auth/jwt/jwt.go:120-134 | signature, not-before time and expiry decide whether a token parses |
| JwtRevocation.WhatRevokeDoes | pkg/auth/jwt/jwt.go:195-218 | what RevokeToken answers and lists, on any list and any clock readings |
| JwtRevocation.WhatAuthenticateDoes | pkg/auth/jwt/jwt.go:119-151 | what Authenticate answers on any list |
| JwtRevocation.KeysDiffer | pkg/auth/jwt/jwt.go:137 | different tokens have different blacklist keys |
| JwtRevocation.RevocationIsFinal | pkg/auth/jwt/jwt.go:119-218 | after a successful revocation, onto any list, no Authenticate that does not straddle the expiry accepts the token, in any run with any other revocations and sweeps |
| JwtRevocation.WhatAuthenticateAnswers | pkg/auth/jwt/jwt.go:119-151 | from an empty blacklist, in any run, the answer on two clock readings is determined by the token and the revocations of this token: invalid, revoked until the last listed entry lapses, then accepted, or a panic |
| JwtRevocation.RevokedPassesIff | pkg/auth/jwt/jwt.go:119-218 | a revoked token gets past if and only if it parses at the first reading and its entry has lapsed at the second, which is not before its expiry |
| JwtRevocation.StraddlingTheExpiry | pkg/auth/jwt/jwt.go:119-218 | when RevokeToken computes and stores the deadline on one reading: if and only if it parses at the first and the expiry lies before the second |
| JwtRevocation.AcceptsIffNotRevoked | pkg/auth/jwt/jwt.go:119-218 | with one reading per call a token is accepted if and only if it parses, has not been revoked in this run, and has an expiry and an issue time; Authenticate panics if and only if one of these two is missing |
| JwtRevocation.RevocationWithoutBlacklist | pkg/auth/jwt/jwt.go:195-198 | without a blacklist revocation succeeds and has no effect: a token is accepted if and only if it parses and has both times |
| BufferedWriters.BufferedResponseWriter.constructor | pkg/server/middleware/timeout.go:120-127 | empty, status 200, nothing written |
| BufferedWriters.BufferedResponseWriter.WriteHeader | pkg/server/middleware/timeout.go:133-143 | stores a positive status while nothing has been written, timed out or not |
| BufferedWriters.BufferedResponseWriter.WriteHeaderNow | pkg/server/middleware/timeout.go:145-152 | size leaves -1 |
| BufferedWriters.BufferedResponseWriter.Write | pkg/server/middleware/timeout.go:154-168 | appends, or fails with nothing written after the timeout |
| BufferedWriters.BufferedResponseWriter.WriteString | pkg/server/middleware/timeout.go:170-184 | the same for strings |
| BufferedWriters.BufferedResponseWriter.Flush | pkg/server/middleware/timeout.go:204-206 | starts the response |
| BufferedWriters.BufferedResponseWriter.MarkTimedOut | pkg/server/middleware/timeout.go:220-224 | only the flag changes |
| BufferedWriters.BufferedResponseWriter.CommitToOriginal | pkg/server/middleware/timeout.go:226-253 | after the timeout the original is untouched; otherwise headers, status and body are copied in this order |
| BufferedWriters.StatusFreezes | pkg/server/middleware/timeout.go:133-184 | the first write freezes the status; the body only grows; size is -1 or the body's length |
| BufferedWriters.NoTextAfterTimeout | pkg/server/middleware/timeout.go:154-184 | once timed out a write leaves the buffer exactly as it is, and no sequence of actions changes its body |
| BufferedWriters.CommitDelivers | pkg/server/middleware/timeout.go:226-253 | committing delivers the buffer's status, if it has one to hand on, its headers over those the writer had, and its body; on a writer already written to, the body alone |
| BufferedWriters.WhatIsDelivered | pkg/server/middleware/timeout.go:133-253 | for every sequence of actions and every writer below, written to or not: what the committed buffer delivers and what writing directly delivers |
| BufferedWriters.BufferingIsTransparentIff | pkg/server/middleware/timeout.go:133-253 | the bodies are always the same; status, headers and the whole response if and only if the status and each header key agree, which is told from the actions and what the writer held |
| BufferedWriters.KeyAgreement | pkg/server/middleware/timeout.go:240-244 | a header key agrees if and only if it is left alone, was not there, or is set or deleted and not deleted last; or, when edited after the first write, if the values happen to be the same |
| BufferedWriters.OrdinaryRequests | pkg/server/middleware/timeout.go:133-253 | with headers first and a writer still at 200, the responses are equal if and only if no key the writer has is deleted last, or only added to while it holds a value |
| BufferedWriters.AddingLosesWhatWasThere | pkg/server/middleware/timeout.go:240-244 | adding to a key the writer has replaces its values |
| BufferedWriters.DeletingDoesNotDelete | pkg/server/middleware/timeout.go:240-244 | deleting it leaves it there |
| BufferedWriters.WritingResetsTheStatus | pkg/server/middleware/timeout.go:246-248 | a status set on the writer earlier becomes 200 |
| BufferedWriters.LateHeaderIsKept | pkg/server/middleware/timeout.go:226-253 | a header set after the first write is lost on the wire and kept by the buffer |
| TimeoutProtocol.SingleResponse | pkg/server/middleware/timeout.go:255-292 | under every interleaving the writer holds, at return, exactly the worker's whole response or exactly the timeout response; on a panic it is untouched and the panic is the worker's |
| TimeoutProtocol.NothingReachesTheWriterLater | pkg/server/middleware/timeout.go:154-184 | after that no step of the worker changes the writer |
| TimeoutProtocol.LateWritesFail | pkg/server/middleware/timeout.go:220-224 | from the moment the timeout response is begun the worker's writes add nothing to its buffer |
| TimeoutProtocol.PanicsAreNeverCommitted | pkg/server/middleware/timeout.go:255-292 | a worker that panicked is never committed, and its send never blocks |
| TimeoutProtocol.NeverStuck | pkg/server/middleware/timeout.go:255-292 | the caller always has a step once the worker is gone or time is up |
| TimeoutProtocol.CallerFinishes | pkg/server/middleware/timeout.go:255-292 | in every run it takes at most six steps more than the timeout response has actions, and has none left exactly when it has returned or panicked |
| TimeoutProtocol.InTimeOccurs | pkg/server/middleware/timeout.go:255-292 | whatever the handler does there is a run in which it is done in time and its response is committed |
| TimeoutProtocol.LateOccurs | pkg/server/middleware/timeout.go:255-292 | one in which the timeout response is given instead |
| TimeoutProtocol.PanicOccurs | pkg/server/middleware/timeout.go:255-292 | and one in which it panics with any value, which is raised again |
| TimeoutProtocol.ClientSeesOneOfTwo | pkg/server/middleware/timeout.go:226-292 | end to end, on any writer: the client gets what the timeout handler alone would have sent, or the worker's committed response, which is what the handler alone would have sent if and only if its actions are transparent |
| Wkt.ParseCoordList | cmd/goupter/internal/cmd/new.go:566 | the loop yields the readable pairs in order |
| Wkt.ParseRings | cmd/goupter/internal/cmd/new.go:566 | for any text, balanced or not, all slices are in range and the loop yields the non-empty top-level groups |
| Wkt.ParsePolygons | cmd/goupter/internal/cmd/new.go:566 | the same, with rings inside the groups |
| Wkt.PairReadsBack | cmd/goupter/internal/cmd/new.go:566 | a printed pair reads back with any non-empty run of blanks, tabs, line feeds, form feeds and carriage returns between its numbers and any white space around it |
| Wkt.PairNotRead | cmd/goupter/internal/cmd/new.go:566 | text without such a separator is no pair |
| Wkt.PartNotRead | cmd/goupter/internal/cmd/new.go:566 | nor is one of whose two parts one is no number |
| Wkt.CoordListReadsBack | cmd/goupter/internal/cmd/new.go:566 | a printed list reads back, the empty one included, with any white space around it and its commas |
| Wkt.GroupsReadBack | cmd/goupter/internal/cmd/new.go:566 | any balanced contents in parentheses, with anything but parentheses around and between, are found again as the top-level groups |
| Wkt.OpenGroupIsLost | cmd/goupter/internal/cmd/new.go:566 | a group that is never closed is lost |
| Wkt.GroupAfterStrayIsLost | cmd/goupter/internal/cmd/new.go:566 | a stray closing parenthesis loses the next group; one wrapped once more is found |
| Wkt.RingsRoundTrip | cmd/goupter/internal/cmd/new.go:566 | printing, in any layout of white space, and parsing lines or rings yields the non-empty ones; all of them if and only if none is empty |
| Wkt.PolygonsRoundTrip | cmd/goupter/internal/cmd/new.go:566 | the same for polygons |
| Wkt.ParsingNormalises | cmd/goupter/internal/cmd/new.go:566 | what is found in arbitrary text is found again in its own printed form |
| WktDocs.KindRecognised | cmd/goupter/internal/cmd/new.go:566 | the order of the switch never takes one tag for another |
| WktDocs.ContentExtracted | cmd/goupter/internal/cmd/new.go:566 | with the tag in any case and anything but parentheses after it, exactly what stands between the outermost parentheses is extracted |
| WktDocs.ContentReadsBack | cmd/goupter/internal/cmd/new.go:566 | both ways of writing a multipoint read back |
| WktDocs.WktRoundTrip | cmd/goupter/internal/cmd/new.go:566 | every geometry of the six kinds comes back from its text with the same coordinates in the same nesting: each letter of the tag in either case, any run of separators between numbers, and any white space at both ends, around commas and inside parentheses |
| WktDocs.OtherTexts | cmd/goupter/internal/cmd/new.go:566 | a text with none of the six tags comes back as it is, trimmed |
| WktDocs.NothingReadable | cmd/goupter/internal/cmd/new.go:566 | a tag without parentheses gives [] |
| Imports.AddImportAdds | cmd/goupter/internal/gen/crud.go:554-575 | the import is in the result |
| Imports.AddImportKeeps | cmd/goupter/internal/gen/crud.go:554-575 | every text without a parenthesis and a line break that was there still is |
| Imports.AddImportLeavesAPlace | cmd/goupter/internal/gen/crud.go:554-575 | the next import finds a place too |
| Imports.NoPlaceNoChange | cmd/goupter/internal/gen/crud.go:554-575 | otherwise the text comes back as it was |
| RouteFiles.AddedAtTheEndOfTheBlock | cmd/goupter/internal/gen/crud.go:564-574 | into a file with an import block an import is put at the end of the first one, before its parenthesis |
| RouteFiles.AddedAfterTheFirstLine | cmd/goupter/internal/gen/crud.go:556-563 | into any other it is put in a block of its own after the first line |
| RouteBlocks.RequiredAre | cmd/goupter/internal/gen/crud.go:530-540 | which imports are required |
| Imports.EnsureImportsComplete | cmd/goupter/internal/gen/crud.go:522-575 | one pass leaves every required import present if and only if they were there or there was a place |
| Imports.EnsureImportsFixpoint | cmd/goupter/internal/gen/crud.go:522-575 | a second pass changes nothing, for any text |
| Imports.InsertionsOnly | cmd/goupter/internal/gen/crud.go:522-575 | the result is the original plus at most one insertion per import, each holding an import |
| Routes.CRUDGenerator.constructor | cmd/goupter/internal/gen/crud.go:442-450 | the configuration and the file as they are found |
| Routes.CRUDGenerator.ParseExistingRouteFuncs | cmd/goupter/internal/gen/crud.go:498-519 | exactly the names declared in the file |
| Routes.CRUDGenerator.EnsureFileImports | cmd/goupter/internal/gen/crud.go:522-551 | the loop is the insertion function proved above |
| Routes.CRUDGenerator.AppendRouteFuncs | cmd/goupter/internal/gen/crud.go:613-654 | the old contents and one block for each table, in order |
| Routes.CRUDGenerator.GenerateRoutes | cmd/goupter/internal/gen/crud.go:442-496 | package and handler import follow from the service name; the file is untouched if nothing is missing; otherwise a header or the missing imports, then the missing functions |
| Routes.FuncLineDeclares | cmd/goupter/internal/gen/crud.go:507-515 | from the printed line the name is recovered, cut at a parenthesis in the struct name |
| RouteFiles.RegisterFunctionIsRecognised | cmd/goupter/internal/gen/crud.go:507-515 | in any file a line that declares a register function is recognised, with its whole name, whatever follows the parenthesis |
| RouteFiles.OtherLinesDeclareNothing | cmd/goupter/internal/gen/crud.go:508 | and no other line is |
| Routes.RecoveredIffNoParen | cmd/goupter/internal/gen/crud.go:507-515 | the whole name if and only if the struct name has none |
| Routes.NamesAfterBlockIff | cmd/goupter/internal/gen/crud.go:613-654 | a block appended to any file adds the name of its function and nothing else if and only if the struct name holds no opening parenthesis and no line break, and no line of comment or name declares a function |
| Routes.OneLineIsPrintable | cmd/goupter/internal/gen/crud.go:625-638 | which is so for names and comments on one line |
| RouteBlocks.RouteReadsBack | cmd/goupter/internal/gen/crud.go:626-631 | a line that registers a route reads back as method, path and handler |
| RouteBlocks.BlockRegisters | cmd/goupter/internal/gen/crud.go:621-634 | the block of any table on one line registers exactly POST "" to Create, GET "/:id" to Get, GET "" to List, PUT "/:id" to Update and DELETE "/:id" to Delete, in this order |
| RouteBlocks.BlockNames | cmd/goupter/internal/gen/crud.go:621-625 | in a group named after the table, on the handler constructed for the struct, of package handler exactly when asked to |
| RouteBlocks.SettingsMean | cmd/goupter/internal/gen/crud.go:443-450 | which is when there is a service name, and then the routes lie in package main |
| RouteBlocks.HeaderReads | cmd/goupter/internal/gen/crud.go:589-600 | the header line by line: package, imports, and the handlers' import if there is one |
| Routes.HeaderHasImports | cmd/goupter/internal/gen/crud.go:578-610 | the header satisfies the import check |
| Routes.HeaderDeclaresNothing | cmd/goupter/internal/gen/crud.go:578-610 | and declares no function |
| Routes.RunPrintsTheMissing | cmd/goupter/internal/gen/crud.go:442-519 | for such tables one run prints exactly the functions that are missing, in the order asked for |
| Routes.DistinctIff | cmd/goupter/internal/gen/crud.go:461-471 | it leaves the declared names distinct if and only if they were and no missing function is asked for twice |
| Routes.TableListedTwice | cmd/goupter/internal/gen/crud.go:461-471 | a table listed twice has its function printed twice |
| Routes.NothingTwiceIff | cmd/goupter/internal/gen/crud.go:442-496 | over any runs: nothing is declared twice if and only if nothing was and no run asks twice for what it finds missing |
| Routes.DistinctTablesSuffice | cmd/goupter/internal/gen/crud.go:461-471 | which is so when no run lists a table twice |
| Routes.EachFunctionOnce | cmd/goupter/internal/gen/crud.go:442-519 | any number of runs over any tables keep the file and append one block for each function printed; all asked for are declared, and none twice under that condition |
| Routes.FromNothing | cmd/goupter/internal/gen/crud.go:442-654 | the same from no file at all: none is made until something is asked for, then the header once |
| Routes.FoundIff | cmd/goupter/internal/gen/crud.go:498-519 | for any tables, a file just generated declares every function asked for if and only if no struct name holds an opening parenthesis or a line break |
| Routes.IdempotentIff | cmd/goupter/internal/gen/crud.go:442-519 | so the same tables again, repeated or not and whatever their comments, change nothing if and only if none does |
| RouteFiles.AddImportKeepsNamesIff | cmd/goupter/internal/gen/crud.go:554-575 | inserting an import keeps the declared names if and only if it keeps what the line with the closing parenthesis declares |
| RouteFiles.SettledIsSame | cmd/goupter/internal/gen/crud.go:554-575 | it does when no function starts before the parenthesis on that line, or its whole name stands there |
| RouteFiles.NextPlaceIsSettled | cmd/goupter/internal/gen/crud.go:554-575 | as is the case for every import after the first |
| RouteFiles.ImportsKeepNamesIff | cmd/goupter/internal/gen/crud.go:522-551 | so the whole pass keeps the names if and only if the first missing import does |
| RouteFiles.EachFunctionOnceInAnyFile | cmd/goupter/internal/gen/crud.go:442-654 | on a file somebody else wrote that has a place for imports, or has them: left alone until something is missing, then it gets its imports, keeps its declarations, and each function printed follows |
| RouteFiles.BlocksMakeAPlace | cmd/goupter/internal/gen/crud.go:554-575 | blocks printed onto any file leave a place for imports |
| RouteFiles.DeclaresForAllIff | cmd/goupter/internal/gen/crud.go:442-654 | on such a file all runs keep the declarations and add what is missing if and only if the first missing import does not disturb the line it comes to stand on |
| RouteFiles.NamesAreKeptAnywhere | cmd/goupter/internal/gen/crud.go:442-654 | on any file, empty ones and ones without a place for imports included, the declarations are kept and what is missing is added, provided that the first missing import does not disturb a name, in a file without a place after the first print |
| RouteFiles.ClosedTablesDisturbNothing | cmd/goupter/internal/gen/crud.go:554-575 | it then disturbs none when all is on one line and no struct name holds a parenthesis |
| RouteFiles.IdempotentOnAnyFile | cmd/goupter/internal/gen/crud.go:442-654 | and the same tables again change nothing if and only if no struct name holds an opening parenthesis or a line break |
| Masker.DefaultMasker.constructor | pkg/log/masker.go:75-164 | the four default rules in order |
| Masker.DefaultMasker.AddRule | pkg/log/masker.go:249-264 | the rule is appended, or nothing changes if its pattern does not compile |
| Masker.DefaultMasker.MaskText | pkg/log/masker.go:172-181 | the loop applies all rules in order |
| Masker.PhoneRedacts | pkg/log/masker.go:119-124 | positions 3 to 6 of eleven bytes become the mask character and all others stay; text of another length is masked whole |
| Masker.CardRedacts | pkg/log/masker.go:131-136 | of ten bytes or more all but the first six and the last four become the mask character; shorter text is masked whole |
| Masker.EmailRedacts | pkg/log/masker.go:143-150 | redacts if and only if masked whole or starting with an ASCII byte; then all between the first byte and the at sign is masked |
| Masker.OtherAddressGrows | pkg/log/masker.go:143-150 | an address that starts with another byte grows by one, the byte coming out as the two that encode it |
| Masker.ReplacedMasks | pkg/log/masker.go:172-181 | what a match covers is what the mask function makes of it |
| Masker.ReplacedLeaves | pkg/log/masker.go:172-181 | what no match covers stays |
| Masker.MaskRedacts | pkg/log/masker.go:172-181 | for any rules whose matches are ordered and whose mask functions redact: length kept, every byte the original or the mask character, bytes no rule matched untouched |
| Masker.MaskedStaysMasked | pkg/log/masker.go:172-181 | what one rule masks no later rule uncovers |
| Masker.DefaultRulesRedact | pkg/log/masker.go:114-164 | the default rules are such rules |
| Masker.DefaultRulesHide | pkg/log/masker.go:114-164 | the four default rules in their order, each on the text its expression sees: in the end the mask character stands on start + 3 to start + 7 of every phone match, start + 6 to end - 4 of every card match, and strictly between the first byte and the at sign of every address match |
| Masker.FixpointWithinLength | pkg/log/masker.go:172-181 | iterating Mask on s reaches a fixpoint within as many rounds as s is long |
| Masker.FewerRoundsAreNotEnough | pkg/log/masker.go:172-181 | and for every length there is a text for which no smaller number of rounds is enough, under one redacting rule |
| Masker.MaskLeavesIff | pkg/log/masker.go:172-181 | a text is settled if and only if every rule leaves it alone: no rule undoes another |
| Masker.OneRoundSettlesIff | pkg/log/masker.go:172-181 | for any redacting rules and any text, one round settles it if and only if whatever a rule still matches afterwards is masked as that rule would mask it |
| PhoneRule.PhoneAtIff | pkg/log/masker.go:118 | what the phone expression matches: a one, a digit from three to nine and nine digits more |
| PhoneRule.EveryNumberIsCovered | pkg/log/masker.go:116-125 | the matches are the leftmost ones: every number begins in one of them |
| PhoneRule.PhoneAfterPass | pkg/log/masker.go:116-125 | with the phone expression written out: after a pass a number stands where one stood and meets nothing the pass has hidden |
| PhoneRule.PhoneSettlesIff | pkg/log/masker.go:116-125 | one pass of the phone rule settles a text if and only if every number in it, overlapping ones included, meets a stretch that the pass hides |
| PhoneRule.DefaultRulesSettleIff | pkg/log/masker.go:114-164 | so does one round of the default rules, for every text in which the phone rule leaves no fifteen digits in a row and no at sign |
| PhoneRule.DefaultRulesNeedTwoRounds | pkg/log/masker.go:116-163 | 138000013900000000 is a text where that fails: it needs two rounds |
| PhoneRule.PhoneIsWellMatched | pkg/log/masker.go:117-125 | the expression written out is one the laws above apply to |
| RoundRobin.RoundRobinBalancer.constructor | pkg/discovery/discovery.go:58-60 | the index starts at 0 |
| RoundRobin.RoundRobinBalancer.Select | pkg/discovery/discovery.go:63-69 | the instance at the index modulo the length, both in 32 bits; the index moves on by one |
| RoundRobin.FairPerStretch | pkg/discovery/discovery.go:63-69 | over any k calls two instances differ by at most one for each stretch between wraps: 1 without a wrap, 2 across one |
| RoundRobin.FairIffDivides | pkg/discovery/discovery.go:63-69 | by at most 1 whatever the wraps, if and only if the number of instances divides 2^32 |
| RoundRobin.UnfairAcrossTheWrap | pkg/discovery/discovery.go:63-69 | otherwise the calls around a wrap pick one instance twice and another not at all |
| Metrics.RequestMetrics.constructor | pkg/server/middleware/metrics.go:30-38 | all counters fresh |
| Metrics.RequestMetrics.Record | pkg/server/middleware/metrics.go:41-65 | every counter takes the sample in |
| Metrics.RequestMetrics.Reset | pkg/server/middleware/metrics.go:110-124 | all counters fresh again |
| Metrics.RequestMetrics.GetSnapshot | pkg/server/middleware/metrics.go:74-107 | the copying loops copy the maps; the average is the integer quotient |
| Metrics.RunCounts | pkg/server/middleware/metrics.go:41-124 | after any run the counters are the tallies of the samples since the last reset |
| Metrics.LatencyClasses | pkg/server/middleware/metrics.go:159-175 | which latencies each of the six labels stands for |
| Metrics.SnapshotSays | pkg/server/middleware/metrics.go:41-124 | after any run a snapshot holds the number of samples since the last reset, of those with a status from 200 to 399, with each status and each method, and the average rounded down |
| Metrics.LatenciesAreClassed | pkg/server/middleware/metrics.go:41-65 | and the number of samples in each class of latency |
| Metrics.TallyCounts | pkg/server/middleware/metrics.go:41-65 | each count is the number of samples with that key, and keys without samples are absent |
| Metrics.TallyAddsUp | pkg/server/middleware/metrics.go:41-65 | the counts of each map add up to the number of samples |
| Metrics.LeastIsLeast | pkg/server/middleware/metrics.go:41-65 | min and max are attained bounds of the latencies |
| Metrics.SnapshotsConserve | pkg/server/middleware/metrics.go:41-175 | after any run total = success + failed = sum of statuses = sum of methods = sum of buckets, and min <= avg <= max |

## Left out

- Floating point: tokens, rates and the limiters' time are reals, so rounding is not captured.
- One atomic step and one clock reading per call, for limiters and caches; LimiterSchedules takes the two critical sections of the per-key limiter apart, JwtRevocation the clock readings of a call.
- IPRateLimiters.PermanentBuckets: is about calls that run as one step; LimiterSchedules takes the two critical sections apart, for rates that are not negative.
- NoRefill.GreedyIsBestWithoutRefillIff: is for non-negative amounts; calls for negative ones would refill the bucket.
- PhoneRule.DefaultRulesSettleIff: tells the condition from the text only where the other three rules find nothing; for all other texts OneRoundSettlesIff tells it from the text after one round.
- MemoryCaches.MemoryCache.Expire: replaces the map's entry where the source moves the deadline of a shared object, so reads of the deadline outside the lock are not captured.
- MemoryCaches.MemoryCache.Get: takes a value that decodes to come back as it was stored. Incr and Decr are IncrBy with 1 and -1; Keys is a set; Close and Ping are left out.
- MultiLevelCaches.MultiLevelCache.constructor: takes different memory caches as levels; redis and a cache listed twice are not modelled.
- JwtRevocation.RevocationIsFinal: signatures and HMAC are an abstract function from tokens to claims; GenerateToken, RefreshToken, which does not consult the blacklist, and Plugin.Init are left out.
- BufferedWriters.WhatIsDelivered: gin's own writer is not part of the repository and is modelled by the rules the buffer copies from it. Hijack, Pusher and CloseNotify are left out.
- TimeoutProtocol.SingleResponse: ends where executeWithTimeout returns; handlers gin runs afterwards, cloneContext and a handler that never ends are left out.
- Wkt and WktDocs: parsing of floats and encoding of JSON are parameters; upper-casing is that of ASCII.
- Routes.CRUDGenerator.GenerateRoutes: the file is a field, so errors of the file system and the scanner's limit on the length of a line are not captured; the templates for other files are left out.
- Routes.EachFunctionOnce: is for tables whose blocks declare just their functions, which is told by NamesAfterBlockIff.
- Masker: regular expressions other than the phone rule's are abstract matchers; MaskField and mask characters of several bytes are left out.
- Metrics: counters are unbounded; requests in flight, the rates and the Prometheus output are left out.
- RateSampler, compression, security headers, configuration, the consul, nats, redis and database clients: connecting code, or facts of a single branch.
