/**
  The cache with its two levels, its expired rows and its statements refines a plain expiring key-value store:
  a map from keys to values with an expiry, out of which every key falls when its time comes.
*/
module KvStore {
  import opened Arithmetic
  import opened Wrappers
  import opened L1
  import opened KvOps
  import opened KvEffects
  import opened KvTransparency
  import opened SqlLike
  import opened TextOrder

  /** The store a client sees: the live rows. */
  function LiveRows(t: Table, now: int): Table {
    map k | k in t && Live(t[k], now) :: t[k]
  }

  /** When a TTL given at `now` ends: after its whole milliseconds, at once if there are none. */
  function EndOf(now: int, ttlMs: Option<real>): Option<int> {
    if ttlMs.None? then None else Some(now + Max(0, ttlMs.value.Floor))
  }

  /** Whether a TTL given at `now` still runs at `later`. */
  predicate Lasts(now: int, ttlMs: Option<real>, later: int) {
    ttlMs.None? || later < now + Max(0, ttlMs.value.Floor)
  }

  /** Write a key, unless its TTL ends at once. */
  function Stored(v: Table, now: int, key: string, value: Value, ttlMs: Option<real>): Table {
    if !Lasts(now, ttlMs, now) then v - {key} else v[key := Row(value, EndOf(now, ttlMs))]
  }

  function StoredAll(v: Table, now: int, entries: seq<(string, Value)>, ttlMs: Option<real>): Table {
    if entries == [] then v
    else
      var (key, value) := entries[|entries| - 1];
      Stored(StoredAll(v, now, entries[..|entries| - 1], ttlMs), now, key, value, ttlMs)
  }

  function Current(v: Table, key: string): Option<Value> {
    if key in v then Some(v[key].value) else None
  }

  predicate SetApplies(v: Table, op: Op)
    requires op.Set?
  {
    !(op.nx && op.xx)
    && (op.nx || (!op.xx && op.mode.Nx?) ==> op.key !in v)
    && (op.xx || (!op.nx && op.mode.Xx?) ==> op.key in v)
  }

  predicate SwapApplies(v: Table, op: Op)
    requires op.CompareAndSwap?
  {
    if op.expectedMissing == Some(true) || (op.expectedMissing.None? && op.expected.None?) then op.key !in v
    else op.expected.Some? && Current(v, op.key) == op.expected
  }

  /** The server updates first, and the target of the rename is occupied, if only by an expired row. */
  predicate Refused(t: Table, now: int, op: Op) {
    op.Rename? && op.refused && op.key != op.newKey && LiveKey(t, op.key, now) && op.newKey in t
  }

  /** The store after an operation. */
  function StoreAfter(v: Table, now: int, op: Op): Table {
    match op
    case Set(key, value, ttlMs, _, _, _, _) => if SetApplies(v, op) then Stored(v, now, key, value, ttlMs) else v
    case MSet(entries, ttlMs, _) => if DistinctKeys(entries) then StoredAll(v, now, entries, ttlMs) else v
    case Delete(key, _) => v - {key}
    case ClearPrefix(prefix, _) => map k | k in v && !(prefix <= k) :: v[k]
    case ClearNamespace(_) => map[]
    case CompareAndSwap(key, _, next, _, ttlMs, _) => if SwapApplies(v, op) then Stored(v, now, key, next, ttlMs) else v
    case Expire(key, ms, _) => if key in v then Stored(v, now, key, v[key].value, Some(ms)) else v
    case Persist(key, _) => if key in v then v[key := Row(v[key].value, None)] else v
    case Rename(key, newKey, _) => if key in v && key != newKey then (v - {key})[newKey := v[key]] else v
    case Unlink(keys) => map k | k in v && k !in keys :: v[k]
    case _ => v
  }

  function FirstKeys(sorted: seq<string>, limit: nat): seq<string> {
    if |sorted| <= limit then sorted else sorted[..limit]
  }

  /** The keys a glob selects. */
  ghost function Matching(v: Table, pattern: string): set<string> {
    set k | k in v && Glob(pattern, k)
  }

  /** The keys a glob selects after a cursor. */
  ghost function MatchingAfter(v: Table, pattern: string, cursor: Option<string>): set<string> {
    set k | k in v && Glob(pattern, k) && TextBefore(if cursor.None? then "" else cursor.value, k)
  }

  function PageOf(keys: seq<string>, limit: nat): Reply
    requires limit >= 1
  {
    Page(if |keys| == limit then Some(keys[|keys| - 1]) else None, keys)
  }

  /** What the store answers; None where the reply counts deleted rows, or is about a notification. */
  ghost function StoreReply(v: Table, now: int, op: Op): Option<Reply> {
    match op
    case Get(key) => Some(Found(Current(v, key)))
    case Type(key) => Some(Flag(key in v))
    case Touch(key) => Some(Flag(key in v))
    case MGet(keys, _) => Some(Values(map k | k in keys && k in v :: v[k].value))
    case Set(_, _, _, nx, xx, _, _) =>
      Some(if nx && xx then Failed("PgKvCache.set cannot use both nx and xx") else Flag(SetApplies(v, op)))
    case CompareAndSwap(_, _, _, _, _, _) => Some(Flag(SwapApplies(v, op)))
    case Expire(key, _, _) => Some(Flag(key in v))
    case Persist(key, _) => Some(Flag(key in v))
    case Rename(key, _, _) => Some(Flag(key in v))
    case Ttl(key) => Some(Remaining(if key in v && v[key].expiresAt.Some? then Some(v[key].expiresAt.value - now) else None))
    case Keys(pattern, limit) => Some(KeyList(FirstKeys(SortedKeys(Matching(v, pattern)), PageSize(limit))))
    case Scan(cursor, count, pattern) =>
      Some(PageOf(FirstKeys(SortedKeys(MatchingAfter(v, pattern, cursor)), PageSize(count)), PageSize(count)))
    case MSet(entries, _, _) =>
      Some(if DistinctKeys(entries) then Done else Failed("ON CONFLICT DO UPDATE command cannot affect row a second time"))
    case Invalidate(_) => Some(Done)
    case _ => None
  }

  // ---- one operation ----

  lemma WriteIsStored(t: Table, now: int, key: string, value: Value, ttlMs: Option<real>)
    ensures LiveRows(t[key := Row(value, ExpiryAfter(now, NormalizeTtlMs(ttlMs)))], now)
      == Stored(LiveRows(t, now), now, key, value, ttlMs)
  {
    TtlEnds(now, ttlMs);
    hide NormalizeTtlMs, ExpiryAfter;
  }

  lemma TtlEnds(now: int, ttlMs: Option<real>)
    ensures ExpiryAfter(now, NormalizeTtlMs(ttlMs)) == EndOf(now, ttlMs)
  {}

  lemma {:induction false} EntriesAreStored(t: Table, now: int, entries: seq<(string, Value)>, ttlMs: Option<real>)
    ensures LiveRows(WithEntries(t, entries, ExpiryAfter(now, NormalizeTtlMs(ttlMs))), now)
      == StoredAll(LiveRows(t, now), now, entries, ttlMs)
  {
    hide NormalizeTtlMs, Stored, LiveRows, ExpiryAfter;
    if entries != [] {
      var front := entries[..|entries| - 1];
      EntriesAreStored(t, now, front, ttlMs);
      var (key, value) := entries[|entries| - 1];
      WriteIsStored(WithEntries(t, front, ExpiryAfter(now, NormalizeTtlMs(ttlMs))), now, key, value, ttlMs);
    }
  }

  lemma GlobIsLike(t: Table, now: int, pattern: string)
    ensures SelectedAfter(t, now, pattern, "", false) == Matching(LiveRows(t, now), pattern)
  {
    hide Like, Glob, Translate;
    forall k ensures Like(Translate(pattern), k) <==> Glob(pattern, k) { TranslationPreservesMeaning(pattern, k); }
  }

  lemma GlobIsLikeAfter(t: Table, now: int, pattern: string, cursor: Option<string>)
    ensures SelectedAfter(t, now, pattern, if cursor.None? then "" else cursor.value, true)
      == MatchingAfter(LiveRows(t, now), pattern, cursor)
  {
    hide Like, Glob, Translate, TextBefore;
    forall k ensures Like(Translate(pattern), k) <==> Glob(pattern, k) { TranslationPreservesMeaning(pattern, k); }
  }

  ghost predicate Refines(o: Outcome, t: Table, now: int, op: Op) {
    var v := LiveRows(t, now);
    LiveRows(o.table, now) == StoreAfter(v, now, op) && (StoreReply(v, now, op).Some? ==> o.reply == StoreReply(v, now, op).value)
  }

  lemma SetRefines(cfg: Config, l1: Slots, t: Table, now: int, op: Op)
    requires op.Set?
    ensures Refines(AfterSet(cfg, l1, t, now, op), t, now, op)
  {
    hide Put, Drop, Stored, NormalizeTtlMs, ExpiryAfter;
    WriteIsStored(t, now, op.key, op.value, op.ttlMs);
  }

  lemma MSetRefines(cfg: Config, l1: Slots, t: Table, now: int, op: Op)
    requires op.MSet?
    ensures Refines(AfterMSet(cfg, l1, t, now, op), t, now, op)
  {
    hide PutAll, LiveRows, NormalizeTtlMs, ExpiryAfter, Stored, Publish, SetApplies, SwapApplies, Current, FirstKeys;
    if op.entries == [] { assert DistinctKeys(op.entries); }
    hide DistinctKeys;
    EntriesAreStored(t, now, op.entries, op.ttlMs);
  }

  lemma SwapRefines(cfg: Config, l1: Slots, t: Table, now: int, op: Op)
    requires op.CompareAndSwap?
    ensures Refines(AfterCompareAndSwap(cfg, l1, t, now, op), t, now, op)
  {
    hide Put, Drop, Stored, NormalizeTtlMs, ExpiryAfter;
    WriteIsStored(t, now, op.key, op.next, op.ttlMs);
  }

  lemma ExpiryRefines(cfg: Config, l1: Slots, t: Table, now: int, op: Op)
    requires op.Expire? || op.Persist?
    ensures Refines(Apply(cfg, l1, t, now, op), t, now, op)
  {
    hide Put, Drop, Stored, NormalizeTtlMs, ExpiryAfter;
    if op.Expire? && op.key in t { WriteIsStored(t, now, op.key, t[op.key].value, Some(op.ms)); }
  }

  lemma RemovedRows(t: Table, now: int, keys: set<string>)
    ensures LiveRows(t - keys, now) == LiveRows(t, now) - keys
    ensures forall k :: k in LiveRows(t, now) <==> LiveKey(t, k, now)
  {}

  lemma DeleteRefines(cfg: Config, l1: Slots, t: Table, now: int, op: Op)
    requires op.Delete?
    ensures Refines(Apply(cfg, l1, t, now, op), t, now, op)
  {
    hide Drop, LiveRows, SetApplies, SwapApplies, Stored, StoredAll, Current, DistinctKeys, FirstKeys;
    RemovedRows(t, now, {op.key});
  }

  lemma ClearRefines(cfg: Config, l1: Slots, t: Table, now: int, op: Op)
    requires op.ClearNamespace?
    ensures Refines(Apply(cfg, l1, t, now, op), t, now, op)
  {
    hide SetApplies, SwapApplies, Stored, StoredAll, Current, DistinctKeys, FirstKeys;
    assert LiveRows(map[], now) == map[];
  }

  lemma UnlinkRefines(cfg: Config, l1: Slots, t: Table, now: int, op: Op)
    requires op.Unlink?
    ensures Refines(Apply(cfg, l1, t, now, op), t, now, op)
  {
    hide Drop, DropKeys, LiveRows, SetApplies, SwapApplies, Stored, StoredAll, Current, DistinctKeys, FirstKeys;
    var removed := set k | k in op.keys && k in t;
    RemovedRows(t, now, removed);
    assert LiveRows(t, now) - removed == StoreAfter(LiveRows(t, now), now, op);
  }

  lemma CleanupRefines(cfg: Config, l1: Slots, t: Table, now: int, op: Op)
    requires op.ClearPrefix? || op.CleanupExpired?
    ensures Refines(Apply(cfg, l1, t, now, op), t, now, op)
  {
    hide Cleanup, DropKeys, KeysWithPrefix, LiveRows, SetApplies, SwapApplies, Stored, StoredAll, Current, DistinctKeys, FirstKeys;
    var removed := if op.ClearPrefix? then KeysWithPrefix(t, op.prefix) else ExpiredAmong(t, now, op.picked);
    RemovedRows(t, now, removed);
    if op.ClearPrefix? {
      forall k ensures k in removed <==> k in t && op.prefix <= k { PrefixIsSelected(t, op.prefix, k); }
    }
    assert LiveRows(t, now) - removed == StoreAfter(LiveRows(t, now), now, op);
  }

  lemma ReadsRefine(cfg: Config, l1: Slots, t: Table, now: int, op: Op)
    requires WithinMax(cfg, l1) && AllAgree(l1, t, now)
    requires op.Get? || op.Type? || op.Touch? || op.Ttl? || (op.Rename? && !Refused(t, now, op))
    ensures Refines(Apply(cfg, l1, t, now, op), t, now, op)
  {
    hide AfterGet, Drop, AllAgree, WithinMax;
    if op.Get? || op.Type? || op.Rename? { GetReadsTheTable(cfg, l1, t, now, op.key); }
  }

  lemma MGetRefines(cfg: Config, l1: Slots, t: Table, now: int, op: Op)
    requires WithinMax(cfg, l1) && AllAgree(l1, t, now) && op.MGet? && NamesKeys(op)
    ensures Refines(Apply(cfg, l1, t, now, op), t, now, op)
  {
    hide AfterMGet, AllAgree, WithinMax;
    MGetReadsTheTable(cfg, l1, t, now, op.keys, op.order);
    assert LiveValues(t, now, op.keys) == map k | k in op.keys && k in LiveRows(t, now) :: LiveRows(t, now)[k].value;
  }

  lemma ScanRefines(cfg: Config, l1: Slots, t: Table, now: int, op: Op)
    requires op.Scan?
    ensures Refines(Apply(cfg, l1, t, now, op), t, now, op)
  {
    hide LiveRows, SelectedAfter, SortedKeys, PageSize, MatchingAfter;
    GlobIsLikeAfter(t, now, op.pattern, op.cursor);
  }

  lemma KeysRefine(cfg: Config, l1: Slots, t: Table, now: int, op: Op)
    requires op.Keys?
    ensures Refines(Apply(cfg, l1, t, now, op), t, now, op)
  {
    hide LiveRows, SelectedAfter, SortedKeys, PageSize, Matching;
    GlobIsLike(t, now, op.pattern);
  }

  /** With an agreeing L1, an operation does to the live rows, and answers, what the store does and answers. */
  lemma OpRefinesStore(cfg: Config, l1: Slots, t: Table, now: int, op: Op)
    requires WithinMax(cfg, l1) && AllAgree(l1, t, now) && NamesKeys(op) && !Refused(t, now, op)
    ensures Refines(Apply(cfg, l1, t, now, op), t, now, op)
  {
    hide AfterGet, AfterMGet, AfterSet, AfterMSet, AfterDelete, AfterClearPrefix, AfterCleanupExpired, AfterCompareAndSwap,
         AfterNewExpiry, AfterRename, AfterUnlink, AfterReceive, AfterKeys, AfterScan, Drop, AllAgree, LiveRows, RemainingMs;
    match op
    case Set(_, _, _, _, _, _, _) => SetRefines(cfg, l1, t, now, op);
    case MSet(_, _, _) => MSetRefines(cfg, l1, t, now, op);
    case CompareAndSwap(_, _, _, _, _, _) => SwapRefines(cfg, l1, t, now, op);
    case Expire(_, _, _) => ExpiryRefines(cfg, l1, t, now, op);
    case Persist(_, _) => ExpiryRefines(cfg, l1, t, now, op);
    case MGet(_, _) => MGetRefines(cfg, l1, t, now, op);
    case Keys(_, _) => KeysRefine(cfg, l1, t, now, op);
    case Scan(_, _, _) => ScanRefines(cfg, l1, t, now, op);
    case _ =>
      if op.Delete? {
        DeleteRefines(cfg, l1, t, now, op);
      } else if op.ClearNamespace? {
        ClearRefines(cfg, l1, t, now, op);
      } else if op.Unlink? {
        UnlinkRefines(cfg, l1, t, now, op);
      } else if op.ClearPrefix? || op.CleanupExpired? {
        CleanupRefines(cfg, l1, t, now, op);
      } else if op.Get? || op.Type? || op.Touch? || op.Ttl? || op.Rename? {
        ReadsRefine(cfg, l1, t, now, op);
      }
  }

  /** A rename does what the store does exactly if it is not refused. */
  lemma RenameRefinesIff(cfg: Config, l1: Slots, t: Table, now: int, op: Op)
    requires WithinMax(cfg, l1) && AllAgree(l1, t, now) && op.Rename?
    ensures Refines(Apply(cfg, l1, t, now, op), t, now, op) <==> !Refused(t, now, op)
  {
    hide AfterGet, Drop, AllAgree, WithinMax;
    if Refused(t, now, op) {
      assert op.key in LiveRows(t, now);
    } else {
      ReadsRefine(cfg, l1, t, now, op);
    }
  }

  // ---- runs ----

  /** No rename of the run is refused where the run makes it. */
  predicate NoneRefused(cfg: Config, l1: Slots, t: Table, now: int, acts: seq<Act>)
    decreases |acts|
  {
    acts == [] ||
    match acts[0]
    case Tick(ms) => NoneRefused(cfg, l1, t, now + ms, acts[1..])
    case Do(op) =>
      var o := Apply(cfg, l1, t, now, op);
      !Refused(t, now, op) && NoneRefused(cfg, o.l1, o.table, now, acts[1..])
  }

  /** A run of the store: replies, and the store it ends with. Keys fall out as the clock ticks. */
  ghost function StoreTrace(v: Table, now: int, acts: seq<Act>): (seq<Option<Reply>>, Table)
    decreases |acts|
  {
    if acts == [] then ([], v)
    else
      match acts[0]
      case Tick(ms) => StoreTrace(LiveRows(v, now + ms), now + ms, acts[1..])
      case Do(op) =>
        var (rest, v') := StoreTrace(StoreAfter(v, now, op), now, acts[1..]);
        ([StoreReply(v, now, op)] + rest, v')
  }

  function Elapsed(now: int, acts: seq<Act>): int
    decreases |acts|
  {
    if acts == [] then now else Elapsed(if acts[0].Tick? then now + acts[0].ms else now, acts[1..])
  }

  predicate Answers(seen: Observed, expected: Option<Reply>) {
    expected.Some? ==> seen.reply == expected.value
  }

  lemma LiveLater(t: Table, now: int, later: int)
    requires now <= later
    ensures LiveRows(LiveRows(t, now), later) == LiveRows(t, later)
  {}

  /** Every run of the only writer of a namespace, from any table, replies as the store does and ends with the same live rows. */
  lemma {:induction false} RunRefinesStore(cfg: Config, l1: Slots, t: Table, now: int, acts: seq<Act>)
    requires WithinMax(cfg, l1) && AllAgree(l1, t, now)
    requires forall i :: 0 <= i < |acts| && acts[i].Do? ==> NamesKeys(acts[i].op)
    requires NoneRefused(cfg, l1, t, now, acts)
    ensures var (seen, t') := Trace(cfg, l1, t, now, acts);
      var (expected, v') := StoreTrace(LiveRows(t, now), now, acts);
      && |seen| == |expected|
      && (forall i :: 0 <= i < |seen| ==> Answers(seen[i], expected[i]))
      && LiveRows(t', Elapsed(now, acts)) == v'
    decreases |acts|
  {
    hide Apply, AllAgree, WithinMax, NamesKeys, LiveRows, StoreAfter, StoreReply, Refused;
    if acts != [] {
      match acts[0]
      case Tick(ms) =>
        TickKeepsAgreement(l1, t, now, now + ms);
        LiveLater(t, now, now + ms);
        RunRefinesStore(cfg, l1, t, now + ms, acts[1..]);
      case Do(op) =>
        OpRefinesStore(cfg, l1, t, now, op);
        OpKeepsAgreement(cfg, l1, t, now, op);
        var o := Apply(cfg, l1, t, now, op);
        RunRefinesStore(cfg, o.l1, o.table, now, acts[1..]);
    }
  }

  // ---- replies that count rows ----

  /** delete answers whether the store had the key exactly if no expired row of it is still stored. */
  lemma DeleteRepliesIff(cfg: Config, l1: Slots, t: Table, now: int, key: string, notify: bool)
    ensures Apply(cfg, l1, t, now, Delete(key, notify)).reply == Flag(key in LiveRows(t, now)) <==> !(key in t && !Live(t[key], now))
  {
    hide Drop;
  }

  lemma LiveAmong(t: Table, now: int, picked: set<string>)
    requires picked <= t.Keys
    ensures |set k | k in picked && k in LiveRows(t, now)| == |picked| <==> forall k :: k in picked ==> Live(t[k], now)
  {
    var live, dead := set k | k in picked && k in LiveRows(t, now), set k | k in picked && !Live(t[k], now);
    assert picked == live + dead && live !! dead;
    if |dead| == 0 {
      forall k | k in picked ensures Live(t[k], now) { assert k !in dead; }
    }
    if forall k :: k in picked ==> Live(t[k], now) { assert dead == {}; }
  }

  /** clearNamespace counts the keys of the store exactly if no expired row is still stored. */
  lemma ClearRepliesIff(cfg: Config, l1: Slots, t: Table, now: int, notify: bool)
    ensures Apply(cfg, l1, t, now, ClearNamespace(notify)).reply == Count(|LiveRows(t, now)|)
      <==> forall k :: k in t ==> Live(t[k], now)
  {
    LiveAmong(t, now, t.Keys);
    assert (set k | k in t.Keys && k in LiveRows(t, now)) == LiveRows(t, now).Keys;
    assert |t| == |t.Keys| && |LiveRows(t, now)| == |LiveRows(t, now).Keys|;
  }

  /** clearPrefix counts the keys of the store with the prefix exactly if no expired row with it is still stored. */
  lemma ClearPrefixRepliesIff(cfg: Config, l1: Slots, t: Table, now: int, prefix: string, notify: bool)
    ensures Apply(cfg, l1, t, now, ClearPrefix(prefix, notify)).reply == Count(|set k | k in LiveRows(t, now) && prefix <= k|)
      <==> forall k :: k in t && prefix <= k ==> Live(t[k], now)
  {
    hide DropKeys, KeysWithPrefix;
    var picked := KeysWithPrefix(t, prefix);
    forall k ensures k in picked <==> k in t && prefix <= k { PrefixIsSelected(t, prefix, k); }
    LiveAmong(t, now, picked);
    assert (set k | k in picked && k in LiveRows(t, now)) == set k | k in LiveRows(t, now) && prefix <= k;
  }

  /** unlink counts the named keys of the store exactly if no expired row of them is still stored. */
  lemma UnlinkRepliesIff(cfg: Config, l1: Slots, t: Table, now: int, keys: seq<string>)
    ensures Apply(cfg, l1, t, now, Unlink(keys)).reply == Count(|set k | k in keys && k in LiveRows(t, now)|)
      <==> forall k :: k in keys && k in t ==> Live(t[k], now)
  {
    hide DropKeys;
    var picked := set k | k in keys && k in t;
    LiveAmong(t, now, picked);
    assert (set k | k in picked && k in LiveRows(t, now)) == set k | k in keys && k in LiveRows(t, now);
  }
}
