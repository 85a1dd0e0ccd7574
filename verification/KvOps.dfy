/**
  What each operation of the cache does to the shared table, to the caller's own L1 and to its reply, and which
  invalidation it publishes. The table is one namespace of pg_kv_cache; `now` is both NOW() and the local clock.
  A SQL statement and the L1 update that follows it are one step.
*/
module KvOps {
  import opened Wrappers
  import opened L1
  import opened SqlLike
  import opened TextOrder

  datatype Row = Row(value: Value, expiresAt: Option<int>)

  type Table = map<string, Row>

  predicate Live(row: Row, now: int) {
    row.expiresAt.None? || row.expiresAt.value > now
  }

  predicate LiveKey(t: Table, key: string, now: int) {
    key in t && Live(t[key], now)
  }

  datatype Mode = Always | Nx | Xx

  datatype Event = SetKey(key: string) | DeleteKey(key: string) | ClearPrefixOf(prefix: string) | ClearAll | UnknownEvent

  datatype Notification = Notification(ns: string, senderId: string, event: Event)

  datatype Op =
    | Get(key: string)
    | MGet(keys: seq<string>, order: seq<string>)   // order: how the server happens to order the rows it returns
    | Set(key: string, value: Value, ttlMs: Option<real>, nx: bool, xx: bool, mode: Mode, notify: bool)
    | MSet(entries: seq<(string, Value)>, ttlMs: Option<real>, notify: bool)
    | Delete(key: string, notify: bool)
    | ClearPrefix(prefix: string, notify: bool)
    | ClearNamespace(notify: bool)
    | CleanupExpired(picked: set<string>, elsewhere: nat)   // the rows the server's LIMIT picks, here and in other namespaces
    | CompareAndSwap(key: string, expected: Option<Value>, next: Value, expectedMissing: Option<bool>, ttlMs: Option<real>, notify: bool)
    | Expire(key: string, ms: real, notify: bool)
    | Persist(key: string, notify: bool)
    | Touch(key: string)
    | Ttl(key: string)
    | Invalidate(key: string)
    | Receive(payload: Option<Notification>)   // None: a payload that does not parse
    | Keys(pattern: string, limit: real)
    | Scan(cursor: Option<string>, count: real, pattern: string)
    | Rename(key: string, newKey: string, refused: bool)   // refused: the server updates before it deletes the target
    | Type(key: string)
    | Unlink(keys: seq<string>)

  datatype Reply =
    | Found(value: Option<Value>)
    | Values(values: map<string, Value>)
    | Flag(flag: bool)
    | Count(count: nat)
    | Remaining(ms: Option<int>)
    | KeyList(keys: seq<string>)
    | Page(cursor: Option<string>, keys: seq<string>)
    | Done
    | Failed(error: string)

  datatype Outcome = Outcome(l1: Slots, table: Table, reply: Reply, publish: Option<Event>)

  // ---- arguments ----

  function NormalizeTtlMs(ttlMs: Option<real>): (r: Option<int>)
    ensures r.Some? ==> r.value >= 0
  {
    if ttlMs.None? then None else if ttlMs.value.Floor < 0 then Some(0) else Some(ttlMs.value.Floor)
  }

  function ExpiryAfter(now: int, ttlMs: Option<int>): Option<int> {
    if ttlMs.None? then None else Some(now + ttlMs.value)
  }

  function ResolveSetMode(nx: bool, xx: bool, mode: Mode): Result<Mode> {
    if nx && xx then Err("PgKvCache.set cannot use both nx and xx")
    else if nx then Ok(Nx)
    else if xx then Ok(Xx)
    else Ok(mode)
  }

  function PageSize(count: real): (n: nat)
    ensures n >= 1
  {
    if count.Floor < 1 then 1 else count.Floor
  }

  function Publish(cfg: Config, notify: bool, event: Event): Option<Event> {
    if notify && cfg.notifyEnabled then Some(event) else None
  }

  // ---- reads ----

  function AfterGet(cfg: Config, l1: Slots, t: Table, now: int, key: string): (Option<Value>, Slots) {
    var (hit, l1') := Lookup(cfg, l1, now, key);
    if hit.Some? then (hit, l1')
    else if !LiveKey(t, key, now) then (None, Drop(cfg, l1', key))
    else (Some(t[key].value), Put(cfg, l1', now, key, t[key].value, t[key].expiresAt))
  }

  datatype Partial = Partial(found: map<string, Value>, missing: seq<string>, l1: Slots)

  /** mget, first loop: what L1 answers. */
  function FromL1(cfg: Config, l1: Slots, now: int, keys: seq<string>): Partial {
    if keys == [] then Partial(map[], [], l1)
    else
      var p := FromL1(cfg, l1, now, keys[..|keys| - 1]);
      var key := keys[|keys| - 1];
      var (hit, l1') := Lookup(cfg, p.l1, now, key);
      if hit.Some? then Partial(p.found[key := hit.value], p.missing, l1')
      else Partial(p.found, p.missing + [key], l1')
  }

  /** SELECT ... WHERE key IN wanted: each live row once, in the order of `candidates`. */
  function SelectIn(t: Table, now: int, wanted: seq<string>, candidates: seq<string>): seq<string> {
    if candidates == [] then []
    else
      var rows := SelectIn(t, now, wanted, candidates[..|candidates| - 1]);
      var key := candidates[|candidates| - 1];
      if key in wanted && LiveKey(t, key, now) && key !in rows then rows + [key] else rows
  }

  lemma {:induction false} SelectedKeys(t: Table, now: int, wanted: seq<string>, candidates: seq<string>, key: string)
    ensures key in SelectIn(t, now, wanted, candidates) <==> key in candidates && key in wanted && LiveKey(t, key, now)
  {
    if candidates != [] {
      var front := candidates[..|candidates| - 1];
      SelectedKeys(t, now, wanted, front, key);
      assert candidates == front + [candidates[|candidates| - 1]];
    }
  }

  predicate Distinct(keys: seq<string>) {
    forall i, j :: 0 <= i < j < |keys| ==> keys[i] != keys[j]
  }

  /** Each row comes once. */
  lemma {:induction false} SelectedOnce(t: Table, now: int, wanted: seq<string>, candidates: seq<string>)
    ensures Distinct(SelectIn(t, now, wanted, candidates))
  {
    if candidates != [] {
      SelectedOnce(t, now, wanted, candidates[..|candidates| - 1]);
      DistinctWith(SelectIn(t, now, wanted, candidates[..|candidates| - 1]), candidates[|candidates| - 1]);
    }
  }

  lemma DistinctWith(keys: seq<string>, key: string)
    requires Distinct(keys)
    ensures key !in keys ==> Distinct(keys + [key])
  {}

  /** mget, second loop: a row without a key is skipped, every other one is returned and cached. */
  function FromRows(cfg: Config, p: Partial, t: Table, now: int, rows: seq<string>): Partial
    requires forall k :: k in rows ==> k in t
  {
    if rows == [] then p
    else
      var key := rows[|rows| - 1];
      var q := FromRows(cfg, p, t, now, rows[..|rows| - 1]);
      if key == "" then q
      else q.(found := q.found[key := t[key].value], l1 := Put(cfg, q.l1, now, key, t[key].value, t[key].expiresAt))
  }

  /** mget, third loop: what neither level has is dropped from L1. */
  function DropAbsent(cfg: Config, l1: Slots, missing: seq<string>, found: map<string, Value>): Slots {
    if missing == [] then l1
    else
      var l1' := DropAbsent(cfg, l1, missing[..|missing| - 1], found);
      var key := missing[|missing| - 1];
      if key in found then l1' else Drop(cfg, l1', key)
  }

  lemma SelectedAreLive(t: Table, now: int, wanted: seq<string>, candidates: seq<string>)
    ensures forall k :: k in SelectIn(t, now, wanted, candidates) ==> LiveKey(t, k, now)
  {
    forall k | k in SelectIn(t, now, wanted, candidates) ensures LiveKey(t, k, now) {
      SelectedKeys(t, now, wanted, candidates, k);
    }
  }

  function AfterMGet(cfg: Config, l1: Slots, t: Table, now: int, keys: seq<string>, order: seq<string>): (map<string, Value>, Slots) {
    var p := FromL1(cfg, l1, now, keys);
    var rows := SelectIn(t, now, p.missing, order + p.missing);
    SelectedAreLive(t, now, p.missing, order + p.missing);
    var q := FromRows(cfg, p, t, now, rows);
    (q.found, DropAbsent(cfg, q.l1, p.missing, q.found))
  }

  /** The live keys a glob pattern selects after a cursor. */
  function SelectedAfter(t: Table, now: int, pattern: string, after: string, bounded: bool): set<string> {
    set k | k in t && Like(Translate(pattern), k) && (bounded ==> TextBefore(after, k)) && Live(t[k], now)
  }

  function AfterKeys(t: Table, now: int, pattern: string, limit: real): seq<string> {
    var sorted := SortedKeys(SelectedAfter(t, now, pattern, "", false));
    if |sorted| <= PageSize(limit) then sorted else sorted[..PageSize(limit)]
  }

  function AfterScan(t: Table, now: int, cursor: Option<string>, count: real, pattern: string): (Option<string>, seq<string>) {
    var limit := PageSize(count);
    var sorted := SortedKeys(SelectedAfter(t, now, pattern, if cursor.None? then "" else cursor.value, true));
    var keys := if |sorted| <= limit then sorted else sorted[..limit];
    (if |keys| == limit then Some(keys[|keys| - 1]) else None, keys)
  }

  // ---- writes ----

  function AfterSet(cfg: Config, l1: Slots, t: Table, now: int, op: Op): Outcome
    requires op.Set?
  {
    match ResolveSetMode(op.nx, op.xx, op.mode)
    case Err(error) => Outcome(l1, t, Failed(error), None)
    case Ok(mode) =>
      if mode.Xx? && !LiveKey(t, op.key, now) then Outcome(Drop(cfg, l1, op.key), t, Flag(false), None)
      else if mode.Nx? && LiveKey(t, op.key, now) then Outcome(l1, t, Flag(false), None)
      else
        var expiresAt := ExpiryAfter(now, NormalizeTtlMs(op.ttlMs));
        Outcome(Put(cfg, l1, now, op.key, op.value, expiresAt), t[op.key := Row(op.value, expiresAt)], Flag(true),
                Publish(cfg, op.notify, SetKey(op.key)))
  }

  predicate DistinctKeys(entries: seq<(string, Value)>) {
    forall i, j :: 0 <= i < j < |entries| ==> entries[i].0 != entries[j].0
  }

  function WithEntries(t: Table, entries: seq<(string, Value)>, expiresAt: Option<int>): Table {
    if entries == [] then t
    else
      var (key, value) := entries[|entries| - 1];
      WithEntries(t, entries[..|entries| - 1], expiresAt)[key := Row(value, expiresAt)]
  }

  function PutAll(cfg: Config, l1: Slots, now: int, entries: seq<(string, Value)>, expiresAt: Option<int>): Slots {
    if entries == [] then l1
    else
      var (key, value) := entries[|entries| - 1];
      Put(cfg, PutAll(cfg, l1, now, entries[..|entries| - 1], expiresAt), now, key, value, expiresAt)
  }

  /** One INSERT cannot write the same row twice: PostgreSQL rejects the statement. */
  function AfterMSet(cfg: Config, l1: Slots, t: Table, now: int, op: Op): Outcome
    requires op.MSet?
  {
    if op.entries == [] then Outcome(l1, t, Done, None)
    else if !DistinctKeys(op.entries) then
      Outcome(l1, t, Failed("ON CONFLICT DO UPDATE command cannot affect row a second time"), None)
    else
      var expiresAt := ExpiryAfter(now, NormalizeTtlMs(op.ttlMs));
      Outcome(PutAll(cfg, l1, now, op.entries, expiresAt), WithEntries(t, op.entries, expiresAt), Done,
              Publish(cfg, op.notify, ClearAll))
  }

  function AfterDelete(cfg: Config, l1: Slots, t: Table, key: string, notify: bool): Outcome {
    Outcome(Drop(cfg, l1, key), t - {key}, Flag(key in t), Publish(cfg, notify, DeleteKey(key)))
  }

  function KeysWithPrefix(t: Table, prefix: string): set<string> {
    set k | k in t && Like(EscapeLike(prefix) + "%", k)
  }

  function AfterClearPrefix(cfg: Config, l1: Slots, t: Table, prefix: string, notify: bool): Outcome {
    var deleted := KeysWithPrefix(t, prefix);
    Outcome(DropKeys(cfg, l1, deleted), t - deleted, Count(|deleted|), Publish(cfg, notify, ClearPrefixOf(prefix)))
  }

  /** The expired rows among those the server picks. */
  function ExpiredAmong(t: Table, now: int, picked: set<string>): set<string> {
    set k | k in picked && k in t && !Live(t[k], now)
  }

  function AfterCleanupExpired(cfg: Config, l1: Slots, t: Table, now: int, picked: set<string>, elsewhere: nat): Outcome {
    var deleted := ExpiredAmong(t, now, picked);
    Outcome(Cleanup(cfg, DropKeys(cfg, l1, deleted), now), t - deleted, Count(|deleted| + elsewhere), None)
  }

  /** Whether the swap's statement writes: an absent or expired row, or a live row that holds the expected value. */
  predicate SwapWrites(t: Table, now: int, op: Op)
    requires op.CompareAndSwap?
  {
    var missing := if op.expectedMissing.Some? then op.expectedMissing.value else op.expected.None?;
    if missing then !LiveKey(t, op.key, now)
    else LiveKey(t, op.key, now) && op.expected == Some(t[op.key].value)
  }

  function AfterCompareAndSwap(cfg: Config, l1: Slots, t: Table, now: int, op: Op): Outcome
    requires op.CompareAndSwap?
  {
    if !SwapWrites(t, now, op) then Outcome(Drop(cfg, l1, op.key), t, Flag(false), None)
    else
      var expiresAt := ExpiryAfter(now, NormalizeTtlMs(op.ttlMs));
      Outcome(Put(cfg, l1, now, op.key, op.next, expiresAt), t[op.key := Row(op.next, expiresAt)], Flag(true),
              Publish(cfg, op.notify, SetKey(op.key)))
  }

  /** expire and persist: give a live row a new expiry. */
  function AfterNewExpiry(cfg: Config, l1: Slots, t: Table, now: int, key: string, expiresAt: Option<int>, notify: bool): Outcome {
    if !LiveKey(t, key, now) then Outcome(Drop(cfg, l1, key), t, Flag(false), None)
    else
      Outcome(Put(cfg, l1, now, key, t[key].value, expiresAt), t[key := Row(t[key].value, expiresAt)], Flag(true),
              Publish(cfg, notify, SetKey(key)))
  }

  /**
    rename: the live source row takes over the target's key, and nothing is published. PostgreSQL leaves open which of
    the two parts of the statement comes first; if it is the UPDATE, an occupied target key, expired or not, is a
    unique violation.
  */
  function AfterRename(cfg: Config, l1: Slots, t: Table, now: int, key: string, newKey: string, refused: bool): Outcome {
    if key == newKey then
      var (found, l1') := AfterGet(cfg, l1, t, now, key);
      Outcome(l1', t, Flag(found.Some?), None)
    else if !LiveKey(t, key, now) then Outcome(l1, t, Flag(false), None)
    else if refused && newKey in t then Outcome(l1, t, Failed("duplicate key value violates unique constraint"), None)
    else Outcome(Drop(cfg, Drop(cfg, l1, key), newKey), (t - {key})[newKey := t[key]], Flag(true), None)
  }

  /** unlink: like delete, but nothing is published. */
  function AfterUnlink(cfg: Config, l1: Slots, t: Table, keys: seq<string>): Outcome {
    var deleted := set k | k in keys && k in t;
    Outcome(DropKeys(cfg, l1, deleted), t - deleted, Count(|deleted|), None)
  }

  // ---- notifications ----

  /** Whether the handler drops a key for an event. An empty key or prefix counts as missing. */
  predicate Drops(event: Event, key: string) {
    match event
    case SetKey(k) => k != "" && k == key
    case DeleteKey(k) => k != "" && k == key
    case ClearPrefixOf(prefix) => prefix != "" && prefix <= key
    case ClearAll => true
    case UnknownEvent => false
  }

  predicate Heeds(cfg: Config, n: Notification) {
    n.ns == cfg.ns && n.senderId != cfg.instanceId
  }

  function AfterReceive(cfg: Config, l1: Slots, payload: Option<Notification>): (bool, Slots) {
    if payload.None? || !Heeds(cfg, payload.value) then (false, l1)
    else
      match payload.value.event
      case SetKey(key) => (true, if key != "" then Drop(cfg, l1, key) else l1)
      case DeleteKey(key) => (true, if key != "" then Drop(cfg, l1, key) else l1)
      case ClearPrefixOf(prefix) => if prefix == "" then (false, l1) else (true, RemovePrefix(l1, prefix))
      case ClearAll => (true, [])
      case UnknownEvent => (false, l1)
  }

  // ---- one operation ----

  function Read(l1: Slots, t: Table, reply: Reply): Outcome { Outcome(l1, t, reply, None) }

  function RemainingMs(t: Table, now: int, key: string): Option<int> {
    if LiveKey(t, key, now) && t[key].expiresAt.Some? then Some(t[key].expiresAt.value - now) else None
  }

  function Apply(cfg: Config, l1: Slots, t: Table, now: int, op: Op): Outcome {
    match op
    case Get(key) => var (found, l1') := AfterGet(cfg, l1, t, now, key); Read(l1', t, Found(found))
    case MGet(keys, order) => var (found, l1') := AfterMGet(cfg, l1, t, now, keys, order); Read(l1', t, Values(found))
    case Set(_, _, _, _, _, _, _) => AfterSet(cfg, l1, t, now, op)
    case MSet(_, _, _) => AfterMSet(cfg, l1, t, now, op)
    case Delete(key, notify) => AfterDelete(cfg, l1, t, key, notify)
    case ClearPrefix(prefix, notify) => AfterClearPrefix(cfg, l1, t, prefix, notify)
    case ClearNamespace(notify) => Outcome([], map[], Count(|t|), Publish(cfg, notify, ClearAll))
    case CleanupExpired(picked, elsewhere) => AfterCleanupExpired(cfg, l1, t, now, picked, elsewhere)
    case CompareAndSwap(_, _, _, _, _, _) => AfterCompareAndSwap(cfg, l1, t, now, op)
    case Expire(key, ms, notify) =>
      AfterNewExpiry(cfg, l1, t, now, key, ExpiryAfter(now, NormalizeTtlMs(Some(ms))), notify)
    case Persist(key, notify) => AfterNewExpiry(cfg, l1, t, now, key, None, notify)
    case Touch(key) => Read(l1, t, Flag(LiveKey(t, key, now)))
    case Ttl(key) => Read(l1, t, Remaining(RemainingMs(t, now, key)))
    case Invalidate(key) => Read(Drop(cfg, l1, key), t, Done)
    case Receive(payload) => var (heeded, l1') := AfterReceive(cfg, l1, payload); Read(l1', t, Flag(heeded))
    case Keys(pattern, limit) => Read(l1, t, KeyList(AfterKeys(t, now, pattern, limit)))
    case Scan(cursor, count, pattern) =>
      var (next, keys) := AfterScan(t, now, cursor, count, pattern); Read(l1, t, Page(next, keys))
    case Rename(key, newKey, refused) => AfterRename(cfg, l1, t, now, key, newKey, refused)
    case Type(key) => var (found, l1') := AfterGet(cfg, l1, t, now, key); Read(l1', t, Flag(found.Some?))
    case Unlink(keys) => AfterUnlink(cfg, l1, t, keys)
  }
}
