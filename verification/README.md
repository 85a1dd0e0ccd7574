# pgredis and bun-listen: a verified model

This project models the stateful core of two packages, `pgredis` (Redis-shaped tools on PostgreSQL tables) and
`bun-listen` (a LISTEN/NOTIFY client that speaks the PostgreSQL wire protocol), and proves what they keep over
whole runs. `dafny verify dfyconfig.toml` checks everything.

| part | files | what is proved |
|---|---|---|
| two-level cache | `L1`, `Lru`, `KvOps`, `KvCache`, `KvEffects`, `KvCoherence`, `KvTransparency`, `KvStore`, `KvExpiry`, `KvStaleness`, `KvScan`, `KvPages`, `KvHistory` | coherence of any number of instances under every interleaving, and exactly which operations keep it; transparency of the in-process level; refinement of a plain expiring key-value store; every write readable exactly until its TTL ends; bounded staleness; complete scans; least-recently-used eviction |
| patterns | `SqlLike`, `TextOrder` | the glob translation means the same in SQL LIKE; prefix patterns select what the remote handler drops |
| rate limiters | `TokenBucket`, `TokenAccount`, `WindowCounters`, `WindowBounds`, `WindowReplies` | quantitative bounds over every run, the exact decision of every token-bucket call from the calls before it, what count, remaining and resetAt mean, exact retry times of the fixed window and the token bucket, when a sliding-window retry succeeds, unobservable denials and cleanups |
| outbox | `Outbox`, `OutboxLeases`, `OutboxStreams` | lease exclusivity of concurrent claims, bounded redelivery, conservation, progress, exactly when an appended message is offered |
| lists | `PositionList`, `ListDeque` | timestamp positions refine a deque, and when a push appends or prepends |
| lock keys | `AdvisoryKeys` | the published FNV-1a values; each FNV-1a round is a permutation of words; keys of similar strings differ |
| listener | `WireProtocol`, `Listener`, `ListenerSafety`, `ListenerProgress` | framing does not depend on chunks; every query settles once, rightly and in order, across reconnects; an open listener always can come back and settle what waits |

## How the model is built

Each SQL table is explicit state and each SQL statement one atomic step. A class holds the fields the source
mutates, its methods have the source's loops and branches, and each method is proved equal to a specification
function (`KvOps.Apply`, `TokenBucket.After`, `WindowCounters.HitRows`, `PositionList.Pushed`, `Outbox.Next`,
`WireProtocol.Dispatched`, `Listener.Step`). The theorems are about runs of those functions.

Assumptions:

- `now()` and `NOW()` are one clock in whole milliseconds; it never goes back where a statement says so.
- The cache: a SQL statement and the L1 update after it are one step, and the publication is a later step of its
  own. Values are opaque and not null, and storing one and reading it back gives the same value.
- `rename` deletes the target in a `WITH` part of an UPDATE. Section 7.8.4 of the PostgreSQL 16 documentation leaves the
  order of the two open, and an UPDATE that comes first violates the primary key of an occupied target. Which one comes
  first is a parameter of the operation.
- The `WITH` queries of the sliding window and the token bucket are read so that the upsert, or the seeded row, is
  seen by the read after it, as `packages/pgredis/src/rate-limit.test.ts:120-146` expects. Section 7.8.4 of the
  PostgreSQL 16 documentation describes a snapshot under which it is not seen.
- Which rows a `LIMIT` without an order picks, and the order of rows without `ORDER BY`, are parameters: every
  choice of the server is covered.
- Tokens are exact reals; positions, times and counts are exact integers.
- One live connection at a time; the server answers the startup message and each simple query with exactly one
  ReadyForQuery, in order, and may send ErrorResponse at any time. A query's promise is modelled by the log entry
  that settles it.

## What the code does not do

Where a property does not hold on all inputs, the exact condition is proved:

- An operation keeps every coherent system coherent exactly if it announces what it can disturb
  (`KvCoherence.KeepsCoherenceIff`). `rename` to another key, `unlink`, `notify: false` of the operation or of its
  instance on most writes, and an empty key or prefix do not; `persist`, `nx` writes and swaps of a value for itself without expiry disturb nothing. In a system
  reached by a run from empty caches, where every slot ends within its instance's `l1TtlMs`, an unannounced `expire`, or
  swap of a value for itself, is harmless too if its TTL is no shorter than those (`KvCoherence.ReachableKeepsCoherenceIff`).
- A rename does what an expiring key-value store does exactly if the server does not update first onto an occupied target,
  and an expired row that is still stored occupies it too (`KvStore.RenameRefinesIff`).
- L1 is transparent for every operation except an `mget` that names the empty key (`KvTransparency.TransparentIff`).
- Without a local TTL a hit can be stale by any time (`KvStaleness.WithoutTtlStalenessIsUnbounded`).
- The replies of `delete`, `clearNamespace`, `clearPrefix` and `unlink` count expired rows that were not cleaned up yet
  (`KvStore.DeleteRepliesIff`, `KvStore.ClearRepliesIff`, `KvStore.ClearPrefixRepliesIff`, `KvStore.UnlinkRepliesIff`).
- `lrange` is Redis's LRANGE on every list exactly for `start >= 0` and `stop >= -1` (`ListDeque.RangeIsRedisRangeIff`).
- A right push appends exactly if no row's position exceeds the clock, a left push prepends exactly if every row
  lies above `-(clock + 1)`; pushes that collide in time interleave (`PositionList`).
- A push onto a list whose rows have expired inherits that expiry and does not appear (`ListDeque.PushIsSeenIff`). `persist`
  and `expire` bring it back, and with it all the items that had expired before (`ListDeque.NewExpiryBringsBack`).
- The sliding window's `retryAfterMs` can be too short (`WindowBounds.SlidingRetryIsTooShort`); when a later hit is admitted
  is stated by `WindowBounds.SlidingRetryIff`.
- The message loop ends exactly if no buffer it reaches has length field -1 or one that points before the buffer
  (`WireProtocol.LoopEndsIff`). The messages and the rest of a stream do not depend on its chunks exactly if it has no
  negative length field, or its first one is one of -5 to -2 and stands in its last five bytes
  (`WireProtocol.ChunksDoNotMatterIff`).
- A listener without channels can leave a query waiting on a ready connection (`ListenerSafety.IdleWithoutChannels`).

## Model

| member | source | states |
|---|---|---|
| L1.LookupHitsIff | packages/pgredis/src/kv-cache.ts:698-709 | A lookup hits exactly on an unexpired slot of the key if L1 is on; the slot then is the newest, unchanged, and the others keep their order; a miss leaves no slot of the key |
| L1.PutIsNewest | packages/pgredis/src/kv-cache.ts:711-749 | A stored write is the newest slot, in front of it stand the newest of the other keys' slots that fit, in order; a write already stale only drops the key |
| L1.EvictIsSuffix | packages/pgredis/src/kv-cache.ts:743-749 | Eviction keeps exactly the newest l1Max slots, in order |
| L1.HitUntilEitherEnds | packages/pgredis/src/kv-cache.ts:698-728 | What was cached at `now` and not used since is hit at a later time exactly before now + l1TtlMs, if there is a local TTL, and before the row's expiry, if it has one |
| Lru.Shape | packages/pgredis/src/kv-cache.ts:698-749 | Every L1 call only filters the slots, appends the used one at the end and evicts from the front what exceeds l1Max; slots it does not concern stay |
| Lru.SizeIsBounded | packages/pgredis/src/kv-cache.ts:711-749 | After every history of calls L1 holds at most l1Max slots |
| Lru.MapOrderIsUseOrder | packages/pgredis/src/kv-cache.ts:698-721 | After every history the Map's order is the order of last hit or stored write, and every slot is as that use left it |
| Lru.SurvivesUntilMaxOthers | packages/pgredis/src/kv-cache.ts:698-749 | A slot neither invalidated nor found expired since its last use is missing only if l1Max distinct other keys were used since |
| KvHistory.OpIsCalls | packages/pgredis/src/kv-cache.ts:208-655 | Every cache operation changes L1 only by the listed sequence of L1 calls |
| KvHistory.OpKeepsUnique | packages/pgredis/src/kv-cache.ts:208-655 | No operation gives a key two slots |
| KvHistory.RunIsHistory | packages/pgredis/src/kv-cache.ts:208-655 | The L1 after any run of operations, whatever tables they meet, is the L1 of the history of calls they make |
| KvHistory.ReachableCacheIsLru | packages/pgredis/src/kv-cache.ts:698-749 | Every reachable L1 is within l1Max, in order of last use, and keeps an uninvalidated, unexpired slot until l1Max other keys were used |
| KvOps.SelectedKeys | packages/pgredis/src/kv-cache.ts:247-255 | The rows mget receives are exactly the live rows among the wanted keys, in whatever order |
| KvOps.SelectedOnce | packages/pgredis/src/kv-cache.ts:247-255 | Each of them comes once |
| KvCache.PgKvCache.GetL1 | packages/pgredis/src/kv-cache.ts:698-709 | Hit and new L1 are those of the specified lookup |
| KvCache.PgKvCache.SetL1 | packages/pgredis/src/kv-cache.ts:711-721 | New L1 is that of the specified write |
| KvCache.PgKvCache.EnforceL1Max | packages/pgredis/src/kv-cache.ts:743-749 | The eviction loop ends and keeps the newest l1Max slots |
| KvCache.PgKvCache.DeleteL1 | packages/pgredis/src/kv-cache.ts:730-733 | Drops the key's slot if L1 is on |
| KvCache.PgKvCache.DeleteRowsL1 | packages/pgredis/src/kv-cache.ts:364 | Dropping the returned rows one by one drops the slots of exactly that set of keys |
| KvCache.PgKvCache.CleanupL1 | packages/pgredis/src/kv-cache.ts:735-741 | Deleting while walking the Map leaves exactly the unexpired slots, in order |
| KvCache.PgKvCache.DeletePrefixL1 | packages/pgredis/src/kv-cache.ts:537-542 | Deleting while walking the Map leaves exactly the slots without the prefix, in order |
| KvCache.PgKvCache.PublishEvent | packages/pgredis/src/kv-cache.ts:667-675 | Appends the event with namespace and sender to the channel, if notifications are on |
| KvCache.PgKvCache.Get | packages/pgredis/src/kv-cache.ts:208-230 | L1, table, channel and reply are those of the specified get |
| KvCache.PgKvCache.MGet | packages/pgredis/src/kv-cache.ts:232-269 | The three loops give the specified reply and L1, for every row order |
| KvCache.PgKvCache.Set | packages/pgredis/src/kv-cache.ts:271-314 | Reply, row, L1 and event of each mode, and the error for nx with xx |
| KvCache.PgKvCache.MSet | packages/pgredis/src/kv-cache.ts:316-343 | All rows written or none, every entry cached, the whole namespace invalidated; a repeated key fails |
| KvCache.PgKvCache.SetEntriesL1 | packages/pgredis/src/kv-cache.ts:338-341 | The loop caches the entries in order |
| KvCache.PgKvCache.Delete | packages/pgredis/src/kv-cache.ts:345-355 | The row and the slot are gone; the reply says whether there was a row, live or not; published either way |
| KvCache.PgKvCache.ClearPrefix | packages/pgredis/src/kv-cache.ts:357-367 | Deletes and drops exactly the keys the LIKE pattern selects, and counts them |
| KvCache.PgKvCache.ClearNamespace | packages/pgredis/src/kv-cache.ts:369-379 | Empties table and L1 and counts the rows |
| KvCache.PgKvCache.CleanupExpired | packages/pgredis/src/kv-cache.ts:381-398 | Deletes the picked expired rows, drops their slots and every expired slot |
| KvCache.PgKvCache.CompareAndSwap | packages/pgredis/src/kv-cache.ts:400-451 | Writes exactly on a dead row when missing is expected, or on a live row holding the expected value; otherwise drops the slot |
| KvCache.PgKvCache.Expire | packages/pgredis/src/kv-cache.ts:453-473 | A live row gets the new expiry and is cached with it; otherwise the slot is dropped |
| KvCache.PgKvCache.Persist | packages/pgredis/src/kv-cache.ts:475-494 | A live row loses its expiry and is cached without one; otherwise the slot is dropped |
| KvCache.PgKvCache.Touch | packages/pgredis/src/kv-cache.ts:496-507 | Says whether the row is live and changes nothing |
| KvCache.PgKvCache.Ttl | packages/pgredis/src/kv-cache.ts:509-523 | The remaining time of a live row with an expiry, otherwise null |
| KvCache.PgKvCache.Keys | packages/pgredis/src/kv-cache.ts:552-562 | The first live keys the glob selects, in key order |
| KvCache.PgKvCache.Scan | packages/pgredis/src/kv-cache.ts:564-579 | The page beyond the cursor and the next cursor |
| KvCache.PgKvCache.Rename | packages/pgredis/src/kv-cache.ts:581-610 | A live row moves to the new key and both slots are dropped; the same key is a get; if the server updates first, an occupied target makes the statement fail and nothing changes |
| KvCache.PgKvCache.Type | packages/pgredis/src/kv-cache.ts:612-615 | Presence as get sees it |
| KvCache.PgKvCache.Unlink | packages/pgredis/src/kv-cache.ts:617-628 | Deletes and drops exactly the named rows and publishes nothing |
| KvCache.PgKvCache.Invalidate | packages/pgredis/src/kv-cache.ts:525-527 | Drops the slot, nothing else |
| KvCache.PgKvCache.HandleNotification | packages/pgredis/src/kv-cache.ts:529-549 | Ignores other namespaces, its own events and empty names; otherwise drops the key, the prefix or everything |
| KvEffects.OpLocalEffect | packages/pgredis/src/kv-cache.ts:208-655 | After any operation every slot of its instance is an old one whose row was not disturbed, or a copy of a live row that outlives neither the row nor l1TtlMs |
| KvEffects.OpRemoteEffect | packages/pgredis/src/kv-cache.ts:271-494 | For every local TTL and every instance, with notifications or without, a row an operation disturbs that announces what it can disturb, as seen by slots of that TTL, is dropped by whoever receives its event |
| KvEffects.SilentOpDisturbs | packages/pgredis/src/kv-cache.ts:581-628 | Every other operation has a row whose fresh copy, of that local TTL, it makes wrong, and that no receiver would drop |
| KvEffects.PrefixIsSelected | packages/pgredis/src/kv-cache.ts:357-367 | clearPrefix deletes in SQL exactly the keys whose slots the remote handler's startsWith drops |
| KvEffects.ReceiveSlots | packages/pgredis/src/kv-cache.ts:529-549 | A handled notification leaves no slot of a key its event covers |
| KvEffects.GetEffect | packages/pgredis/src/kv-cache.ts:208-230 | What get leaves in L1 is old or a copy of the row just read |
| KvEffects.MGetEffect | packages/pgredis/src/kv-cache.ts:232-269 | What mget leaves in L1 is old or a copy of a row just read |
| KvEffects.WriteEffect | packages/pgredis/src/kv-cache.ts:305-313 | Writing a row and caching what was written leaves agreeing slots only |
| KvCoherence.StepKeepsCoherence | packages/pgredis/src/kv-cache.ts:208-549 | Operations that announce what they can disturb, ticks, publications and deliveries keep every fresh slot agreeing or covered by an invalidation on its way |
| KvCoherence.RunKeepsBounded | packages/pgredis/src/kv-cache.ts:698-728 | In every run every slot ends within its instance's l1TtlMs |
| KvCoherence.RunKeepsCoherence | packages/pgredis/src/kv-cache.ts:208-549 | The same over every interleaving of any number of instances, from any coherent state and, with less to announce, from any state that respects the local TTLs |
| KvCoherence.DeliveredMeansAgreement | packages/pgredis/src/kv-cache.ts:529-549 | From empty caches, once everything sent to an instance is delivered all its fresh slots repeat the table |
| KvCoherence.SilentOpBreaksOneCopy | packages/pgredis/src/kv-cache.ts:581-628 | With one copy of its victim in any other instance that caches, an unannounced operation leaves a fresh slot that is wrong and uncovered |
| KvCoherence.KeepsCoherenceIff | packages/pgredis/src/kv-cache.ts:667-675 | An operation of any instance keeps every coherent system coherent exactly if it announces what it can disturb, wherever another instance caches |
| KvCoherence.ReachableKeepsCoherenceIff | packages/pgredis/src/kv-cache.ts:667-728 | It keeps every coherent reachable system coherent exactly if it announces what it can disturb within the other instances' l1TtlMs: an unannounced new expiry, or swap of a value for itself, does harm only below one of them |
| KvTransparency.GetReadsTheTable | packages/pgredis/src/kv-cache.ts:208-230 | With an agreeing L1, get returns the live row's value |
| KvTransparency.MGetReadsTheTable | packages/pgredis/src/kv-cache.ts:232-269 | With an agreeing L1, mget returns exactly the live rows among its keys, in any row order |
| KvTransparency.OpIsTransparent | packages/pgredis/src/kv-cache.ts:208-655 | With an agreeing L1 every operation has the reply, table and event it has without L1 |
| KvTransparency.OpKeepsAgreement | packages/pgredis/src/kv-cache.ts:208-655 | Every operation of the only writer keeps its L1 agreeing |
| KvTransparency.RunIsTransparent | packages/pgredis/src/kv-cache.ts:208-655 | Every run from an agreeing L1 shows what the run without L1 shows |
| KvTransparency.L1IsTransparent | packages/pgredis/src/kv-cache.ts:208-749 | A new cache that is its namespace's only writer gives the same replies, events and table with and without L1, under any clock advance, eviction, TTL and received notification |
| KvTransparency.EmptyKeyShowsThrough | packages/pgredis/src/kv-cache.ts:257-266 | mget of the empty key answers from L1 what it would skip without L1 |
| KvTransparency.TransparentIff | packages/pgredis/src/kv-cache.ts:232-269 | An operation is transparent in every agreeing state exactly if it is not an mget of the empty key |
| KvStore.OpRefinesStore | packages/pgredis/src/kv-cache.ts:208-655 | With an agreeing L1 every operation, except a rename that is refused, does to the live rows what an expiring key-value store does, and gives its reply: set modes, swaps, expiries, globs, scan pages, renames; expired rows and their cleanup are invisible |
| KvStore.RenameRefinesIff | packages/pgredis/src/kv-cache.ts:581-610 | A rename does what the store does exactly if it is not refused: the server updates first, the keys differ, the source is live and a row of the target is stored |
| KvStore.RunRefinesStore | packages/pgredis/src/kv-cache.ts:208-655 | Every run of the only writer in which no rename is refused, from any table, with any clock advance, replies as the store does and ends with the same live rows |
| KvStore.DeleteRepliesIff | packages/pgredis/src/kv-cache.ts:345-355 | delete says whether the key was live exactly if no expired row of it is still stored |
| KvStore.ClearRepliesIff | packages/pgredis/src/kv-cache.ts:369-379 | clearNamespace counts the live keys exactly if no expired row is still stored |
| KvStore.ClearPrefixRepliesIff | packages/pgredis/src/kv-cache.ts:357-367 | clearPrefix counts the live keys with the prefix exactly if no expired row with it is still stored |
| KvStore.UnlinkRepliesIff | packages/pgredis/src/kv-cache.ts:617-628 | unlink counts the live named keys exactly if no expired row of them is still stored |
| KvExpiry.WrittenUntilItsEnd | packages/pgredis/src/kv-cache.ts:129-133 | What a set, mset, swap, expire or persist of the only writer wrote at `now`, judged by its reply, and no later operation of the run touched: get returns it at a later time exactly if no TTL was given or the time is before now + max(0, floor(ttlMs)); touch says the same, and ttl answers the difference, or null without a TTL |
| KvExpiry.RunLeavesAlone | packages/pgredis/src/kv-cache.ts:208-655 | Through every run of reads, writes of other keys, cleanups, invalidations, notifications and clock ticks a row stays as it is, and is gone only after its expiry |
| KvExpiry.CleanupTakesExpired | packages/pgredis/src/kv-cache.ts:381-398 | cleanupExpired removes exactly the expired rows among those the server picks, counts the rows that are gone, publishes nothing and leaves no expired slot in L1 |
| KvExpiry.CleanupLeavesNoneExpired | packages/pgredis/src/kv-cache.ts:381-398 | If the server picks every expired row, no row of the table is expired afterwards |
| KvExpiry.EventOfOperation | packages/pgredis/src/kv-cache.ts:301-494 | A write that took place publishes the event of its key, a delete that of its key either way, clearPrefix its prefix, mset and clearNamespace everything; nothing else publishes, and none does unless both the operation's and the cache's switch are on |
| KvExpiry.HandledIff | packages/pgredis/src/kv-cache.ts:529-549 | The handler answers yes exactly to a known event of its namespace from another sender, other than clearing an empty prefix |
| KvStaleness.SlotsAreBacked | packages/pgredis/src/kv-cache.ts:698-728 | In every reachable state each slot expires at most l1TtlMs after an instant at which it held the live value |
| KvStaleness.HitIsRecent | packages/pgredis/src/kv-cache.ts:698-728 | Every L1 hit at t was the live value at an instant in (t - l1TtlMs, t], with all operations and any loss of notifications |
| KvStaleness.GetIsRecent | packages/pgredis/src/kv-cache.ts:208-230 | The same for every value get returns |
| KvStaleness.MGetIsRecent | packages/pgredis/src/kv-cache.ts:232-269 | The same for every value mget returns |
| KvStaleness.WithoutTtlStalenessIsUnbounded | packages/pgredis/src/kv-cache.ts:723-726 | With l1TtlMs <= 0 there is no bound: for every n a run ends in a hit on a value last live n milliseconds before |
| KvScan.PageIsPrefix | packages/pgredis/src/kv-cache.ts:564-579 | A page is the beginning of what is selected beyond the cursor, and a null cursor means it is all of it |
| KvScan.WalkAscends | packages/pgredis/src/kv-cache.ts:564-579 | However the table changes between pages, a walk's keys strictly increase |
| KvScan.NoKeyTwice | packages/pgredis/src/kv-cache.ts:564-579 | No walk returns a key twice, or the empty key |
| KvScan.ReturnedWasSelected | packages/pgredis/src/kv-cache.ts:564-579 | Every returned key was live and matching when some page was read |
| KvScan.ScanIsComplete | packages/pgredis/src/kv-cache.ts:564-579 | A walk from null to null returns every non-empty key that was live and matching throughout exactly once |
| KvScan.StaticWalkEnds | packages/pgredis/src/kv-cache.ts:564-579 | On a static table a walk reaches the null cursor after exactly floor(selected / page) + 1 pages |
| KvPages.KeysAreFirst | packages/pgredis/src/kv-cache.ts:552-562 | keys answers, in increasing order by index, the first max(1, floor(limit)) live keys that the glob matches, or all of them |
| KvPages.PageIsFirst | packages/pgredis/src/kv-cache.ts:564-579 | A page holds, in that order, the first max(1, floor(count)) live matching non-empty keys beyond the cursor, or all of them; the next cursor is the last key of a full page and null otherwise |
| TextOrder.TextOrderIsTotal | packages/pgredis/src/kv-cache.ts:570-572 | The key order of ORDER BY and of the cursor comparison is a strict total order |
| TextOrder.TextBeforeIsPrecedes | packages/pgredis/src/kv-cache.ts:570-572 | One key comes before another exactly if, at the first place where they differ, it ends or holds the smaller unit |
| TextOrder.SortedKeysFacts | packages/pgredis/src/kv-cache.ts:572 | ORDER BY key returns each selected key once, in increasing order, also read index by index |
| SqlLike.RedisPatternToSqlLike | packages/pgredis/src/kv-cache.ts:139-147 | The loop computes the character-wise translation |
| SqlLike.TranslationPreservesMeaning | packages/pgredis/src/kv-cache.ts:139-147 | LIKE on the translated pattern matches exactly what the glob with only `*` and `?` special matches |
| SqlLike.TranslationIsWellFormed | packages/pgredis/src/kv-cache.ts:135-147 | No translated pattern ends in a lone escape |
| SqlLike.PrefixPattern | packages/pgredis/src/kv-cache.ts:135-137 | LIKE on an escaped prefix followed by % matches exactly the strings with that prefix |
| TokenBucket.PgTokenBucketRateLimiter.Consume | packages/pgredis/src/rate-limit.ts:303-361 | Row and reply of every consume, and the error for a cost that is not positive |
| TokenBucket.CallKeepsTokensInRange | packages/pgredis/src/rate-limit.ts:316-333 | One consume keeps tokens within [0, capacity] |
| TokenBucket.TokensStayInRange | packages/pgredis/src/rate-limit.ts:303-361 | So does every run, whatever the clock does |
| TokenBucket.AdmittedIsBounded | packages/pgredis/src/rate-limit.ts:303-361 | With a monotone clock the cost admitted in [s, t] is at most capacity + refillTokens * (t - s) / refillIntervalMs |
| TokenBucket.DenialLeavesRowAlike | packages/pgredis/src/rate-limit.ts:316-333 | A denied consume leaves a row no later consume can tell from the old one: capped refill composes |
| TokenBucket.DenialsAreUnobservable | packages/pgredis/src/rate-limit.ts:303-361 | Deleting any denied consumes from a run leaves every other decision as it was |
| TokenBucket.WaitForTokens | packages/pgredis/src/rate-limit.ts:350-352 | The refill covers the missing tokens exactly from the computed number of milliseconds on |
| TokenBucket.RetryAfterIsExact | packages/pgredis/src/rate-limit.ts:349-352 | After a denial the same cost succeeds exactly if it is at most the capacity and at least retryAfterMs have passed |
| TokenAccount.OffersIffFits | packages/pgredis/src/rate-limit.ts:303-361 | After every run with a monotone clock the row offers x tokens at a later time exactly if x fits the capacity, the first tokens and all refill less everything admitted, and for each call the capacity and the refill since less what was admitted from it on |
| TokenAccount.AdmittedIffFits | packages/pgredis/src/rate-limit.ts:316-333 | Every call of a run is admitted exactly if its cost fits in that sense, given the earlier calls and decisions alone |
| TokenAccount.AbsentIsFull | packages/pgredis/src/rate-limit.ts:307-311 | A key without a row behaves as one with a full bucket |
| TokenAccount.WithinTokensIsAdmitted | packages/pgredis/src/rate-limit.ts:316-333 | A call whose cost is at most the first tokens less what was admitted before is admitted |
| TokenAccount.FullBucketAdmits | packages/pgredis/src/rate-limit.ts:307-333 | From a full bucket, stored or absent, every call whose cost is at most the capacity less what was admitted before is admitted |
| TokenAccount.AdmittedAtOnceIff | packages/pgredis/src/rate-limit.ts:316-333 | Among calls at one instant a call is admitted exactly if its cost is at most the tokens less what was admitted before |
| TokenAccount.BurstIsAdmittedIff | packages/pgredis/src/rate-limit.ts:316-333 | Calls at one instant are all admitted exactly if their total cost is at most the tokens |
| TokenAccount.TokensAreConserved | packages/pgredis/src/rate-limit.ts:316-333 | Over a run whose refill never exceeds the cap, the first tokens + refillTokens * elapsed / refillIntervalMs less the admitted cost decide every call and are what is left |
| WindowCounters.Floor | packages/pgredis/src/rate-limit.ts:112 | The start of the window that contains a time, also for negative times |
| WindowCounters.PgWindowRateLimiter.Hit | packages/pgredis/src/rate-limit.ts:107-249 | Table and reply of a hit of either limiter, with the call's own limit and window if it gives them, and the error for a limit, window or cost that is not positive |
| WindowCounters.PgWindowRateLimiter.UpsertRow | packages/pgredis/src/rate-limit.ts:115-131 | Adds to the row of key and start, or inserts it, and returns its count |
| WindowCounters.PgWindowRateLimiter.SumRowsAfter | packages/pgredis/src/rate-limit.ts:231-235 | The sum over the key's rows after the cutoff |
| WindowCounters.PgWindowRateLimiter.CleanupExpired | packages/pgredis/src/rate-limit.ts:146-159 | Deletes exactly the picked rows that have expired and counts them |
| WindowBounds.Ledger | packages/pgredis/src/rate-limit.ts:115-159 | Rows that can still matter hold the cost of every hit ever made in them, cleanups or not |
| WindowBounds.ReportedIsCost | packages/pgredis/src/rate-limit.ts:107-249 | The reported count is the cost of all hits in the current window, or in the buckets that start inside the sliding window |
| WindowBounds.CleanupNeverChangesADecision | packages/pgredis/src/rate-limit.ts:251-264 | Removing every cleanup from a run changes no count and no decision, for both limiters |
| WindowBounds.CleanupSparesOpenWindows | packages/pgredis/src/rate-limit.ts:146-159 | Cleanup never deletes a row whose window is still open |
| WindowBounds.SlidingSandwich | packages/pgredis/src/rate-limit.ts:207-249 | The reported count lies between the cost in [now - windowMs + precisionMs, now] and that in (now - windowMs, now] |
| WindowBounds.SlidingBound | packages/pgredis/src/rate-limit.ts:207-249 | Any closed interval of length windowMs - precisionMs admits at most the limit |
| WindowBounds.FixedWindowBound | packages/pgredis/src/rate-limit.ts:107-144 | One window admits at most the limit |
| WindowBounds.FixedIntervalBound | packages/pgredis/src/rate-limit.ts:107-144 | Any half-open interval of length windowMs admits at most twice the limit |
| WindowBounds.FixedRetryIsExact | packages/pgredis/src/rate-limit.ts:133-135 | After a denial, a cost within the limit with no other hit of the key in between is admitted exactly from now + retryAfterMs on |
| WindowBounds.SlidingRetryIff | packages/pgredis/src/rate-limit.ts:207-249 | After a sliding-window denial, a later hit with no other hit of the key in between is admitted exactly if the cost of the buckets that still start inside its window, and its own if its bucket does, is at most the limit |
| WindowBounds.SlidingRetryIsTooShort | packages/pgredis/src/rate-limit.ts:247 | A hit retryAfterMs after a sliding-window denial can be denied again |
| WindowReplies.ReplyIsCost | packages/pgredis/src/rate-limit.ts:107-249 | In every run count is the cost of the key's hits whose own resetAt is still to come, allowed says whether that is within the limit, and remaining is what it leaves of the limit, at least 0 |
| WindowReplies.RemainingIsExact | packages/pgredis/src/rate-limit.ts:136-143 | The next hit of the key at the same instant is admitted exactly if its cost is at most remaining; if buckets are longer than the window and resetAt is past, it is as the last one was |
| WindowReplies.CountsUntilReset | packages/pgredis/src/rate-limit.ts:112-113 | A hit stays in the window of a later one exactly until its resetAt |
| WindowReplies.ResetIsLater | packages/pgredis/src/rate-limit.ts:112-141 | The fixed window's resetAt is the first multiple of windowMs after now; the sliding window's is windowMs after the multiple of precisionMs at or below now |
| WindowReplies.OwnLimitsDecide | packages/pgredis/src/rate-limit.ts:207-213 | A call's own limit and window, rounded down, decide in place of the limiter's, and the precision stays |
| WindowReplies.CleanupTakesExpired | packages/pgredis/src/rate-limit.ts:146-159 | In every run cleanup deletes exactly the expired rows among those the server picks and counts them; if it picks all, none expired is left |
| WindowReplies.RowsExpire | packages/pgredis/src/rate-limit.ts:115-131 | In every run all rows have expired windowMs after the last event |
| Outbox.FirstNSize | packages/pgredis/src/stream.ts:184-185 | LIMIT takes as many rows as it may |
| Outbox.FirstNIsFirst | packages/pgredis/src/stream.ts:184-185 | Whatever LIMIT leaves out has a larger id than everything it takes |
| Outbox.PgOutboxStream.Append | packages/pgredis/src/stream.ts:134-142 | Inserts an unclaimed, unprocessed message under the next id |
| Outbox.PgOutboxStream.Claim | packages/pgredis/src/stream.ts:169-200 | Takes the smallest eligible ids and leases exactly them |
| Outbox.PgOutboxStream.Ack | packages/pgredis/src/stream.ts:202-216 | Marks exactly the named unprocessed rows and counts them |
| Outbox.PgOutboxStream.Pending | packages/pgredis/src/stream.ts:218-232 | Counts the unprocessed rows and those under a running lease |
| Outbox.PgOutboxStream.Trim | packages/pgredis/src/stream.ts:234-258 | Deletes the smallest matching processed rows and counts them |
| OutboxLeases.RunKeepsInv | packages/pgredis/src/stream.ts:134-258 | Locks are exclusive, leases separated and counters right in every reachable state of every interleaving |
| OutboxLeases.InFlightClaimsAreDisjoint | packages/pgredis/src/stream.ts:176-187 | Two claims in flight never hold the same message |
| OutboxLeases.LeasesAreExclusive | packages/pgredis/src/stream.ts:183-191 | Of two committed claims that return one message, the later picked it at or after the end of the earlier lease |
| OutboxLeases.DeliveriesAreBounded | packages/pgredis/src/stream.ts:169-200 | In elapsed time D with leases of at least v, a message is delivered at most floor(D / v) + 1 times |
| OutboxLeases.AckMakesDone | packages/pgredis/src/stream.ts:202-216 | An acknowledged row is done |
| OutboxLeases.NeverDeliveredAfterAck | packages/pgredis/src/stream.ts:181-216 | A message that is done is never delivered again |
| OutboxLeases.MessagesAreConserved | packages/pgredis/src/stream.ts:134-258 | appended = unprocessed + processed in the table + trimmed; pending = appended - acknowledged; delivery_count is the number of claims that returned the message |
| OutboxLeases.TrimKeepsInv | packages/pgredis/src/stream.ts:234-258 | Trim removes no unprocessed message and keeps the invariant |
| OutboxLeases.PickTakesFree | packages/pgredis/src/stream.ts:176-187 | With any other claims in flight a pick takes the first L rows that are eligible and not locked, and exactly those stop being free |
| OutboxLeases.ClaimedRowsAreNotOffered | packages/pgredis/src/stream.ts:188-194 | A commit at once does not free them again: the lease takes over from the lock |
| OutboxLeases.DeliveredInTurn | packages/pgredis/src/stream.ts:184-185 | Over any offers that only shrink, a message with e smaller ids is taken by the (floor(e / L) + 1)-th pick |
| OutboxLeases.ClaimsReachEveryMessage | packages/pgredis/src/stream.ts:169-200 | With any number of other claims in flight, a message with e free smaller ids which nobody else takes is picked by the (floor(e / L) + 1)-th successive claim at the latest, if no row becomes free between a pick and the next |
| OutboxLeases.OpenClaimDelivers | packages/pgredis/src/stream.ts:188-196 | Whatever happens between a pick and its commit, the commit delivers each picked message once more |
| OutboxLeases.ClaimsDeliverEveryMessage | packages/pgredis/src/stream.ts:169-200 | So the commit of one of the first floor(e / L) + 1 claims, whenever it comes, delivers the message |
| OutboxStreams.PicksAreDue | packages/pgredis/src/stream.ts:176-187 | In every reachable state a pick takes only messages of its stream that are unprocessed and available, whose leases have all ended, and which no claim in flight holds |
| OutboxStreams.OfferedIff | packages/pgredis/src/stream.ts:134-216 | A message appended in a reachable state is offered in a later one to a claim of a stream exactly if it was appended on that stream, its availability has come, no step since acknowledged it, its last lease is over and no claim in flight holds it; its row carries the stream and payload it was appended with |
| OutboxStreams.NeverPickedEarly | packages/pgredis/src/stream.ts:134-187 | Before its availability, and on any other stream, an appended message is in no pick |
| OutboxStreams.ClaimWrites | packages/pgredis/src/stream.ts:176-196 | A claim takes as many free messages as max(1, limit) allows, counts one delivery more of each, names the consumer and leases them for max(1, timeout); no other row changes |
| OutboxStreams.AckIsFinal | packages/pgredis/src/stream.ts:202-216 | Acknowledging a waiting message of a reachable state stamps it with the time and ends its lease, and nothing changes the row after that for as long as it is stored |
| OutboxStreams.TrimTakesWhatIsAsked | packages/pgredis/src/stream.ts:234-258 | Trim deletes the first max(1, limit) of the processed rows that meet every filter it was given, counts them, and changes no other row |
| PositionList.PgList.Push | packages/pgredis/src/list.ts:162-181 | Inserts the rows with their positions and inherited expiry and returns the visible length |
| PositionList.PgList.Llen | packages/pgredis/src/list.ts:141-150 | The number of visible rows |
| PositionList.PgList.Pop | packages/pgredis/src/list.ts:183-205 | Returns and deletes the first visible rows from its end |
| PositionList.PgList.Lrange | packages/pgredis/src/list.ts:126-139 | The OFFSET/LIMIT slice of the visible values |
| PositionList.PgList.SetExpiry | packages/pgredis/src/list.ts:249-269 | Sets the expiry of every row of the key, expired ones included |
| PositionList.RightPushAppendsIff | packages/pgredis/src/list.ts:164-169 | A right push appends exactly if no row's position exceeds the clock |
| PositionList.LeftPushPrependsIff | packages/pgredis/src/list.ts:164-169 | A left push prepends its batch in the given order exactly if every row lies above -(clock + 1) |
| PositionList.CollidingPushesInterleave | packages/pgredis/src/list.ts:164-169 | Of two right pushes in one millisecond the second is appended exactly if the first had at most one value |
| PositionList.MaxExpiryIsLatest | packages/pgredis/src/list.ts:162-181 | The expiry a push inherits is the latest among the rows of the key, and none exactly if no row has one |
| ListDeque.RowsRefineDeque | packages/pgredis/src/list.ts:162-205 | Over every run whose pushes are spaced by their sizes, each key's rows read back as the deque the run describes |
| ListDeque.RepliesAreDequeReplies | packages/pgredis/src/list.ts:126-205 | After every such run the next pop and lrange reply as the deque does |
| ListDeque.PushIsSeenIff | packages/pgredis/src/list.ts:162-181 | At the push, the list shows the pushed values and the returned length counts them exactly if the key had no rows or its rows were not expired |
| ListDeque.ExpiredListShowsNothing | packages/pgredis/src/list.ts:126-205 | An expired list shows nothing, whatever is pushed and popped, until its expiry is set anew |
| ListDeque.NewExpiryBringsBack | packages/pgredis/src/list.ts:249-269 | After a later persist or expire the list shows all its items, those pushed while it was expired and those expired before, exactly while the new expiry is not past |
| ListDeque.RangeIsRedisRangeIff | packages/pgredis/src/list.ts:126-139 | lrange agrees with LRANGE on every list exactly for start >= 0 and stop >= -1 |
| ListDeque.RangeIsSlice | packages/pgredis/src/list.ts:126-139 | lrange as a slice for every start and stop: a negative start begins at the first item but counts stop - start + 1 items, a negative stop means to the end |
| AdvisoryKeys.ToInt32 | packages/pgredis/src/advisory-lock.ts:26-28 | The signed 32-bit integer congruent to the value modulo 2^32 |
| AdvisoryKeys.Fnv1a32 | packages/pgredis/src/advisory-lock.ts:30-37 | The loop computes the hash of the units, read as a signed integer |
| AdvisoryKeys.AdvisoryLockKeyToSqlArgs | packages/pgredis/src/advisory-lock.ts:39-70 | The arguments of each kind of key, and the error for unsafe numbers |
| AdvisoryKeys.PrimeIsInvertible | packages/pgredis/src/advisory-lock.ts:34 | Multiplying by 16777619 modulo 2^32 is undone by multiplying by its inverse |
| AdvisoryKeys.RoundIsBijective | packages/pgredis/src/advisory-lock.ts:32-35 | Each round has an inverse on 32-bit words |
| AdvisoryKeys.RoundSeparatesUnits | packages/pgredis/src/advisory-lock.ts:32-35 | Different units take one word to different words |
| AdvisoryKeys.HashKeepsWordsApart | packages/pgredis/src/advisory-lock.ts:30-37 | Equal units keep different seeds different, and equal ones equal |
| AdvisoryKeys.StringComponentsDiffer | packages/pgredis/src/advisory-lock.ts:62-67 | The two integers of a string key always differ |
| AdvisoryKeys.OneUnitChangesHash | packages/pgredis/src/advisory-lock.ts:30-37 | Replacing one unit of a string changes its hash under every seed |
| AdvisoryKeys.OneUnitChangesBothComponents | packages/pgredis/src/advisory-lock.ts:62-67 | Strings of one length that differ in one unit differ in both integers |
| AdvisoryKeys.PairKeysCollideModuloWords | packages/pgredis/src/advisory-lock.ts:40-45 | Two pair keys take the same lock exactly if the integer parts of both places agree modulo 2^32 |
| AdvisoryKeys.Seeds | packages/pgredis/src/advisory-lock.ts:62-67 | The seeds are the FNV-1a offset basis and its exclusive or with 0x9e3779b9, as words |
| AdvisoryKeys.KnownHashes | packages/pgredis/src/advisory-lock.ts:30-67 | The hash has the published FNV-1a values of the empty string, "a" and "fo", and the key "a" its two signed integers |
| WireProtocol.ReadWordIsWhole | packages/bun-listen/src/index.ts:264-266 | The signed number read holds all four bytes: writing it back gives them again |
| WireProtocol.ConcatBytes | packages/bun-listen/src/index.ts:247-256 | The parts in order, nothing else |
| WireProtocol.IndexOfZero | packages/bun-listen/src/index.ts:268-273 | The first zero from a position on, or -1 if there is none |
| WireProtocol.Deframer.OnData | packages/bun-listen/src/index.ts:447-456 | For every pending buffer and chunk on which the loop ends: dispatches its messages and keeps what it leaves |
| WireProtocol.Deframer.ProcessMessages | packages/bun-listen/src/index.ts:621-648 | For any length fields, negative ones included, on which the loop ends: dispatches the message of every pass in order and keeps the rest |
| WireProtocol.PassShrinks | packages/bun-listen/src/index.ts:622-646 | A pass leaves the buffer as it is exactly on length field -1 or one that points before the buffer, and otherwise shortens it |
| WireProtocol.LoopEndsIff | packages/bun-listen/src/index.ts:621-648 | The loop ends exactly if no buffer it reaches has such a length field, which is what the handler demands |
| WireProtocol.FramesAreDispatched | packages/bun-listen/src/index.ts:621-648 | On a stream without negative length fields the loop ends, dispatches its complete frames in order and leaves its incomplete end |
| WireProtocol.FramesOfConcat | packages/bun-listen/src/index.ts:621-648 | Deframing a stream in two parts gives the frames and the rest of the whole |
| WireProtocol.ChunkingIsIrrelevant | packages/bun-listen/src/index.ts:447-456 | For every split into chunks of a stream without negative length fields every loop ends, and messages and rest are those of the whole stream |
| WireProtocol.ChunksDoNotMatterIff | packages/bun-listen/src/index.ts:447-456 | The loop ends on a stream and every split gives its messages and rest exactly if no length field is negative, or the first negative one is one of -5 to -2 in the last five bytes |
| WireProtocol.CutIsSeen | packages/bun-listen/src/index.ts:621-648 | Otherwise a cut behind the header of the first negative length field comes out differently |
| WireProtocol.NegativeLengthsDependOnChunks | packages/bun-listen/src/index.ts:646 | For instance, length field -2 in a stream of six bytes |
| WireProtocol.LengthRoundTrip | packages/bun-listen/src/index.ts:264-266 | A written length reads back as itself exactly below 2^31, and otherwise as what it wraps to |
| WireProtocol.BuiltMessagesDecode | packages/bun-listen/src/index.ts:301-335 | A message of type byte, length and payload followed by anything decodes to its type and payload exactly if its length fits |
| WireProtocol.SimpleQueryDecodes | packages/bun-listen/src/index.ts:328-335 | A query message decodes to type Q exactly if it fits, and its text reads back exactly if it holds no zero byte |
| WireProtocol.CleartextAuthResponseDecodes | packages/bun-listen/src/index.ts:319-326 | The same for a password message |
| WireProtocol.SASLInitialResponseDecodes | packages/bun-listen/src/index.ts:351-366 | The SASL opening decodes to type p exactly if it fits; mechanism and message parse back exactly if the name holds no zero byte and the message length fits |
| WireProtocol.SASLResponseDecodes | packages/bun-listen/src/index.ts:368-375 | The SASL answer decodes to its message exactly if it fits |
| WireProtocol.TerminateMessageDecodes | packages/bun-listen/src/index.ts:301-306 | The terminate message decodes to type X and nothing |
| WireProtocol.BuiltStreamDecodes | packages/bun-listen/src/index.ts:301-375 | Any sequence of built messages that fit decodes to the same sequence |
| WireProtocol.HandleNotification | packages/bun-listen/src/index.ts:714-732 | Reports channel and payload exactly for the bodies that have both terminators |
| WireProtocol.NotificationIsUnique | packages/bun-listen/src/index.ts:714-722 | A body determines its channel and payload |
| Listener.PgListener.constructor | packages/bun-listen/src/index.ts:402-411 | The initial state |
| Listener.PgListener.EnqueueQuery | packages/bun-listen/src/index.ts:571-579 | Enqueues at the front or the back and flushes; rejects at once when closed |
| Listener.PgListener.FlushQueryQueue | packages/bun-listen/src/index.ts:581-587 | Writes the front query if the connection is free |
| Listener.PgListener.ProcessReadyForQuery | packages/bun-listen/src/index.ts:602-619 | Settles the active query, or starts LISTEN, or flushes |
| Listener.PgListener.RegisterListenChannels | packages/bun-listen/src/index.ts:546-558 | Enqueues LISTEN in front if there are channels, and otherwise marks the listener connected |
| Listener.PgListener.MarkConnected | packages/bun-listen/src/index.ts:560-569 | Connected, unless closed |
| Listener.PgListener.OnListening | packages/bun-listen/src/index.ts:552-553 | The continuation of a resolved LISTEN marks the listener connected |
| Listener.PgListener.HandlePostgresError | packages/bun-listen/src/index.ts:734-742 | Stores the error in the active query |
| Listener.PgListener.RejectActiveQuery | packages/bun-listen/src/index.ts:589-593 | Rejects and clears the active query |
| Listener.PgListener.RejectQueuedQueries | packages/bun-listen/src/index.ts:595-600 | Rejects the active query and then the queue in order |
| Listener.PgListener.HandleSocketClose | packages/bun-listen/src/index.ts:777-792 | Rejects the active query, and everything when closed; otherwise a reconnect becomes due |
| Listener.PgListener.ConnectNow | packages/bun-listen/src/index.ts:744-759 | Resets the connection state and keeps the queue |
| Listener.PgListener.OnOpen | packages/bun-listen/src/index.ts:427-436 | The startup message is owed an answer |
| Listener.PgListener.OnConnectFailed | packages/bun-listen/src/index.ts:755-758 | A reconnect becomes due unless closed |
| Listener.PgListener.OnHealthTimer | packages/bun-listen/src/index.ts:797-804 | Enqueues a health query only if connected and none is active or queued |
| Listener.PgListener.Close | packages/bun-listen/src/index.ts:815-829 | Closes once and rejects everything that waits |
| ListenerSafety.StepKeepsInv | packages/bun-listen/src/index.ts:546-619 | Every handler keeps the protocol invariant |
| ListenerSafety.RunKeepsInv | packages/bun-listen/src/index.ts:546-829 | The protocol invariant holds in every reachable state |
| ListenerSafety.OneQueryOutstanding | packages/bun-listen/src/index.ts:581-619 | At most one request is outstanding, and while open it is the active query's |
| ListenerSafety.AnswersSettleTheirQuery | packages/bun-listen/src/index.ts:602-611 | In every reachable state the next ReadyForQuery answers and settles the active query, the one written last: resolved exactly if no ErrorResponse came since it was written, rejected exactly if one did; no query settles twice, and the log shows it of every earlier answer |
| ListenerSafety.WritesAreInOrder | packages/bun-listen/src/index.ts:546-587 | Queries other than LISTEN are written in enqueue order across reconnects; with channels LISTEN is first on every connection |
| ListenerSafety.ConnectClearsNothing | packages/bun-listen/src/index.ts:499-508 | Whenever connect clears the active query there is none |
| ListenerSafety.CloseSettlesEverything | packages/bun-listen/src/index.ts:815-829 | After close every query ever enqueued has settled, exactly once |
| ListenerSafety.NoQueryIsLost | packages/bun-listen/src/index.ts:571-600 | A query that has not settled is active or queued |
| ListenerSafety.NeverIdleWithChannels | packages/bun-listen/src/index.ts:602-619 | With channels no query waits on a ready connection |
| ListenerSafety.IdleWithoutChannels | packages/bun-listen/src/index.ts:546-550 | Without channels one can |
| ListenerProgress.OpenMeansOn | packages/bun-listen/src/index.ts:744-792 | In every reachable state an open listener has a connection, is making one or has one due, and a closed one has none due |
| ListenerProgress.ReconnectIsReachable | packages/bun-listen/src/index.ts:546-792 | From every reachable open state at most a connect, an open and an answer lead to a started connection, with channels one on which LISTEN was written; losing or failing a connection makes the next one due |
| ListenerProgress.LossIsRecovered | packages/bun-listen/src/index.ts:546-792 | From every reachable open state the listener is connected again after one loss and one connection that goes well |
| ListenerProgress.EveryQueryCanSettle | packages/bun-listen/src/index.ts:571-619 | With channels, from every reachable open state connects, opens and answers alone lead to a state where every query enqueued has settled once and nothing waits |
| ListenerProgress.HealthTickAsks | packages/bun-listen/src/index.ts:797-804 | With channels, a health tick on a free connected listener writes a health query at once, and changes nothing on a free one that is not connected |
| ListenerProgress.ConnectedMeansStarted | packages/bun-listen/src/index.ts:560-569 | As long as every LISTEN continuation runs while its connection stands, the status is connected only on a live connection that has started up |

## Left out

- KvCache.PgKvCache.MGet: the result is a map without the insertion order of a JavaScript Map, which depends on what L1 held.
- KvCache.PgKvCache.CleanupExpired: which expired rows the LIMIT picks is a parameter, so the limit itself is not in the contract.
- KvCoherence.RunKeepsCoherence: a SQL statement and its L1 update are one step; the split version, with another writer in between, is not claimed.
- KvStore.RunRefinesStore: the counts that `delete`, `clearPrefix`, `clearNamespace`, `unlink` and `cleanupExpired` return are not in the store; the first four are compared by their own lemmas.
- KvTransparency.L1IsTransparent: `stats`, which reports the size of L1, is not among the operations.
- TextOrder.TextOrderIsTotal: keys compare as in the C collation; a database whose collation is another total order with the empty key first is not covered.
- WindowCounters.PgWindowRateLimiter.CleanupExpired: which expired rows the LIMIT picks is a parameter, so the limit itself is not in the contract.
- WindowCounters.PgWindowRateLimiter.Hit: a call's own limit or window strictly between 0 and 1, which the source floors to 0, is not covered, and the bounds of `WindowBounds` are for runs of one limit and one window.
- PositionList.PgList.Pop: rows of equal position come back in id order; the source's outer ORDER BY leaves their order open.
- Outbox.PgOutboxStream.Claim: the class method is one whole statement; claims that overlap are the Pick, Commit and Rollback steps of `Outbox.Next`.
- WireProtocol.Deframer.OnData: the phases before the message loop (SSL negotiation and its leftover bytes), and a handler that throws out of the loop (an authentication body of fewer than four bytes), are not modelled.
- Listener.PgListener.ProcessReadyForQuery: health and event callbacks are not modelled, and of `status` only whether it is "connected".
- `batch`, `getset`, `getdel`, `setex`, `psetex`, `setnx`: compositions of the modelled cache operations.
- JSON encoding of values and notifications, and serialisers: a payload is either parsed or not.
- Numbers that are not finite: TTLs (the source throws) and lock keys (`| 0` makes them 0).
- `blockingPop`, `lscan`, `lclear`, `ttl` and `cleanupExpired` of lists: a polling loop over the modelled pop, and single statements.
- `read` of the outbox, message mapping, and the aliases with Redis names.
- `withPgAdvisoryLock` and the locker class: one transaction around a callback.
- Startup and SSL request messages, MD5 and SCRAM computations, DSN parsing, timers, delays, sockets and loggers.
- Identifier and literal quoting, schema creation and index names.
- Hash, set, sorted-set and counter classes, the Redis facades, pub/sub wrappers, queue, metrics and adapters.
- Floating-point rounding of tokens and positions.
