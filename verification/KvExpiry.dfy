/** How long what was written can be read: from a write until its TTL ends, as long as nothing else touches the key. */
module KvExpiry {
  import opened Arithmetic
  import opened Wrappers
  import opened L1
  import opened KvOps
  import opened KvEffects
  import opened KvTransparency
  import opened KvStore

  datatype Moment = Moment(l1: Slots, table: Table, now: int)

  /** Where a run leads. */
  function Later(cfg: Config, m: Moment, acts: seq<Act>): Moment
    decreases |acts|
  {
    if acts == [] then m
    else
      match acts[0]
      case Tick(ms) => Later(cfg, m.(now := m.now + ms), acts[1..])
      case Do(op) =>
        var o := Apply(cfg, m.l1, m.table, m.now, op);
        Later(cfg, Moment(o.l1, o.table, m.now), acts[1..])
  }

  /** Operations that neither write nor remove the key, whatever the table: reads, cleanup, and those of other keys. */
  predicate LeavesAlone(op: Op, key: string) {
    match op
    case Set(k, _, _, _, _, _, _) => k != key
    case MSet(entries, _, _) => forall i :: 0 <= i < |entries| ==> entries[i].0 != key
    case Delete(k, _) => k != key
    case ClearPrefix(prefix, _) => !(prefix <= key)
    case ClearNamespace(_) => false
    case CompareAndSwap(k, _, _, _, _, _) => k != key
    case Expire(k, _, _) => k != key
    case Persist(k, _) => k != key
    case Rename(k, newKey, _) => k == newKey || (k != key && newKey != key)
    case Unlink(keys) => key !in keys
    case _ => true
  }

  /** The operation wrote this value under the key with this TTL, as its caller can tell from its reply. */
  predicate Wrote(t: Table, now: int, op: Op, reply: Reply, key: string, value: Value, ttlMs: Option<real>) {
    match op
    case Set(k, v, ttl, _, _, _, _) => reply == Flag(true) && k == key && v == value && ttl == ttlMs
    case MSet(entries, ttl, _) => reply == Done && (key, value) in entries && ttl == ttlMs
    case CompareAndSwap(k, _, next, _, ttl, _) => reply == Flag(true) && k == key && next == value && ttl == ttlMs
    case Expire(k, ms, _) => reply == Flag(true) && k == key && LiveValue(t, now, key) == Some(value) && ttlMs == Some(ms)
    case Persist(k, _) => reply == Flag(true) && k == key && LiveValue(t, now, key) == Some(value) && ttlMs == None
    case _ => false
  }

  /** The table holds the row, or has lost it after its expiry. */
  predicate Stands(t: Table, now: int, key: string, row: Row) {
    (key in t ==> t[key] == row) && (Live(row, now) ==> key in t)
  }

  lemma {:induction false} OthersAreKept(t: Table, entries: seq<(string, Value)>, expiresAt: Option<int>, key: string)
    requires forall i :: 0 <= i < |entries| ==> entries[i].0 != key
    ensures var t' := WithEntries(t, entries, expiresAt); (key in t' <==> key in t) && (key in t ==> t'[key] == t[key])
  {
    if entries != [] { OthersAreKept(t, entries[..|entries| - 1], expiresAt, key); }
  }

  lemma WriteStands(cfg: Config, m: Moment, op: Op, key: string, value: Value, ttlMs: Option<real>)
    requires Wrote(m.table, m.now, op, Apply(cfg, m.l1, m.table, m.now, op).reply, key, value, ttlMs)
    ensures Stands(Apply(cfg, m.l1, m.table, m.now, op).table, m.now, key, Row(value, EndOf(m.now, ttlMs)))
  {
    hide Put, PutAll, Drop, NormalizeTtlMs, ExpiryAfter, LiveKey, WithEntries, SwapWrites, Publish;
    TtlEnds(m.now, ttlMs);
    if op.MSet? { MSetStands(cfg, m, op, key, value); }
  }

  lemma MSetStands(cfg: Config, m: Moment, op: Op, key: string, value: Value)
    requires op.MSet? && AfterMSet(cfg, m.l1, m.table, m.now, op).reply == Done && (key, value) in op.entries
    ensures Stands(AfterMSet(cfg, m.l1, m.table, m.now, op).table, m.now, key, Row(value, EndOf(m.now, op.ttlMs)))
  {
    hide PutAll, NormalizeTtlMs, ExpiryAfter, WithEntries, Publish;
    TtlEnds(m.now, op.ttlMs);
    var i :| 0 <= i < |op.entries| && op.entries[i] == (key, value);
    EntryIsWritten(m.table, op.entries, EndOf(m.now, op.ttlMs), i);
  }

  /** The key has its old row or, if that is expired, possibly none. */
  predicate Untouched(t: Table, now: int, t': Table, key: string) {
    (key in t' ==> key in t && t'[key] == t[key]) && (LiveKey(t, key, now) ==> key in t')
  }

  lemma WriteLeavesAlone(cfg: Config, m: Moment, op: Op, key: string)
    requires LeavesAlone(op, key) && (op.Set? || op.MSet? || op.CompareAndSwap? || op.Expire? || op.Persist?)
    ensures Untouched(m.table, m.now, Apply(cfg, m.l1, m.table, m.now, op).table, key)
  {
    hide Put, PutAll, Drop, WithEntries, SwapWrites, Publish, NormalizeTtlMs, ExpiryAfter, ResolveSetMode;
    if op.MSet? { OthersAreKept(m.table, op.entries, ExpiryAfter(m.now, NormalizeTtlMs(op.ttlMs)), key); }
  }

  lemma RemovalLeavesAlone(cfg: Config, m: Moment, op: Op, key: string)
    requires LeavesAlone(op, key) && (op.Delete? || op.ClearPrefix? || op.CleanupExpired? || op.Rename? || op.Unlink?)
    ensures Untouched(m.table, m.now, Apply(cfg, m.l1, m.table, m.now, op).table, key)
  {
    hide AfterGet, Drop, DropKeys, Cleanup, Publish, KeysWithPrefix;
    if op.ClearPrefix? { PrefixIsSelected(m.table, op.prefix, key); }
  }

  /** Expired rows may be cleaned up; nothing else happens to a key left alone. */
  lemma LeftAlone(cfg: Config, m: Moment, op: Op, key: string)
    requires LeavesAlone(op, key)
    ensures Untouched(m.table, m.now, Apply(cfg, m.l1, m.table, m.now, op).table, key)
  {
    hide AfterGet, AfterMGet, AfterReceive, AfterKeys, AfterScan, AfterSet, AfterMSet, AfterDelete, AfterClearPrefix,
         AfterCleanupExpired, AfterCompareAndSwap, AfterNewExpiry, AfterRename, AfterUnlink, Drop, RemainingMs;
    match op {
      case Set(_, _, _, _, _, _, _) => WriteLeavesAlone(cfg, m, op, key);
      case MSet(_, _, _) => WriteLeavesAlone(cfg, m, op, key);
      case CompareAndSwap(_, _, _, _, _, _) => WriteLeavesAlone(cfg, m, op, key);
      case Expire(_, _, _) => WriteLeavesAlone(cfg, m, op, key);
      case Persist(_, _) => WriteLeavesAlone(cfg, m, op, key);
      case Delete(_, _) => RemovalLeavesAlone(cfg, m, op, key);
      case ClearPrefix(_, _) => RemovalLeavesAlone(cfg, m, op, key);
      case CleanupExpired(_, _) => RemovalLeavesAlone(cfg, m, op, key);
      case Rename(_, _, _) => RemovalLeavesAlone(cfg, m, op, key);
      case Unlink(_) => RemovalLeavesAlone(cfg, m, op, key);
      case _ =>
    }
  }

  lemma {:induction false} RunLeavesAlone(cfg: Config, m: Moment, acts: seq<Act>, key: string, row: Row)
    requires WithinMax(cfg, m.l1) && AllAgree(m.l1, m.table, m.now) && Stands(m.table, m.now, key, row)
    requires forall i :: 0 <= i < |acts| && acts[i].Do? ==> LeavesAlone(acts[i].op, key)
    ensures var n := Later(cfg, m, acts);
      WithinMax(cfg, n.l1) && AllAgree(n.l1, n.table, n.now) && Stands(n.table, n.now, key, row) && n.now == Elapsed(m.now, acts)
    decreases |acts|
  {
    hide Apply, AllAgree, WithinMax, LeavesAlone;
    if acts != [] {
      match acts[0]
      case Tick(ms) =>
        TickKeepsAgreement(m.l1, m.table, m.now, m.now + ms);
        RunLeavesAlone(cfg, m.(now := m.now + ms), acts[1..], key, row);
      case Do(op) =>
        OpKeepsAgreement(cfg, m.l1, m.table, m.now, op);
        LeftAlone(cfg, m, op, key);
        var o := Apply(cfg, m.l1, m.table, m.now, op);
        RunLeavesAlone(cfg, Moment(o.l1, o.table, m.now), acts[1..], key, row);
    }
  }

  /** What the reads answer of a row that stands. */
  lemma StandingIsRead(cfg: Config, m: Moment, key: string, row: Row)
    requires WithinMax(cfg, m.l1) && AllAgree(m.l1, m.table, m.now) && Stands(m.table, m.now, key, row)
    ensures LiveKey(m.table, key, m.now) <==> Live(row, m.now)
    ensures Apply(cfg, m.l1, m.table, m.now, Get(key)).reply == Found(if Live(row, m.now) then Some(row.value) else None)
    ensures Apply(cfg, m.l1, m.table, m.now, Touch(key)).reply == Flag(Live(row, m.now))
    ensures Apply(cfg, m.l1, m.table, m.now, Ttl(key)).reply
      == Remaining(if Live(row, m.now) && row.expiresAt.Some? then Some(row.expiresAt.value - m.now) else None)
  {
    hide AfterGet, AllAgree, WithinMax;
    GetReadsTheTable(cfg, m.l1, m.table, m.now, key);
  }

  /**
    What the only writer of a namespace wrote at m.now with a TTL, and then left alone, is what get returns at `later`
    exactly if no TTL was given or `later` is before m.now + max(0, floor(ttlMs)); ttl answers the difference.
  */
  lemma WrittenUntilItsEnd(cfg: Config, m: Moment, op: Op, key: string, value: Value, ttlMs: Option<real>, acts: seq<Act>)
    requires WithinMax(cfg, m.l1) && AllAgree(m.l1, m.table, m.now)
    requires Wrote(m.table, m.now, op, Apply(cfg, m.l1, m.table, m.now, op).reply, key, value, ttlMs)
    requires forall i :: 0 <= i < |acts| && acts[i].Do? ==> LeavesAlone(acts[i].op, key)
    ensures var o := Apply(cfg, m.l1, m.table, m.now, op);
      var n := Later(cfg, Moment(o.l1, o.table, m.now), acts);
      var there := ttlMs.None? || n.now < m.now + Max(0, ttlMs.value.Floor);
      && n.now == Elapsed(m.now, acts)
      && Apply(cfg, n.l1, n.table, n.now, Get(key)).reply == Found(if there then Some(value) else None)
      && Apply(cfg, n.l1, n.table, n.now, Touch(key)).reply == Flag(there)
      && Apply(cfg, n.l1, n.table, n.now, Ttl(key)).reply
        == Remaining(if there && ttlMs.Some? then Some(m.now + Max(0, ttlMs.value.Floor) - n.now) else None)
  {
    hide Apply, AllAgree, WithinMax, LeavesAlone, Wrote, Later, Stands;
    var o := Apply(cfg, m.l1, m.table, m.now, op);
    var row := Row(value, EndOf(m.now, ttlMs));
    WriteStands(cfg, m, op, key, value, ttlMs);
    OpKeepsAgreement(cfg, m.l1, m.table, m.now, op);
    RunLeavesAlone(cfg, Moment(o.l1, o.table, m.now), acts, key, row);
    StandingIsRead(cfg, Later(cfg, Moment(o.l1, o.table, m.now), acts), key, row);
  }

  // ---- cleanup ----

  /** The expired rows of a table. */
  function ExpiredRows(t: Table, now: int): set<string> {
    set k | k in t && t[k].expiresAt.Some? && t[k].expiresAt.value <= now
  }

  lemma RowsGone(t: Table, gone: set<string>)
    requires gone <= t.Keys
    ensures (t - gone).Keys == t.Keys - gone && |gone| == |t| - |t - gone|
  {
    assert (t - gone).Keys == t.Keys - gone;
    assert t.Keys == (t.Keys - gone) + gone;
  }

  lemma AmongExpired(t: Table, now: int, picked: set<string>)
    ensures ExpiredAmong(t, now, picked) == ExpiredRows(t, now) * picked && ExpiredAmong(t, now, picked) <= t.Keys
  {}

  /**
    cleanupExpired takes rows that have expired and no others: those the server picks, all of them if it picks them
    all. It counts the rows gone, those of other namespaces included, and leaves no expired slot in L1.
  */
  lemma CleanupTakesExpired(cfg: Config, l1: Slots, t: Table, now: int, picked: set<string>, elsewhere: nat)
    requires WithinMax(cfg, l1)
    ensures var o := AfterCleanupExpired(cfg, l1, t, now, picked, elsewhere);
      && t.Keys - o.table.Keys == ExpiredRows(t, now) * picked
      && (forall k :: k in o.table ==> k in t && o.table[k] == t[k])
      && o.reply == Count(|t| - |o.table| + elsewhere) && o.publish == None
      && forall s :: s in o.l1 ==> Fresh(s, now)
  {
    hide Cleanup, DropKeys, WithinMax, ExpiredAmong, ExpiredRows, Fresh;
    var deleted := ExpiredAmong(t, now, picked);
    AmongExpired(t, now, picked);
    RowsGone(t, deleted);
    assert t.Keys - (t.Keys - deleted) == deleted;
    DropKeysSlots(cfg, l1, deleted);
    CleanupSlots(cfg, DropKeys(cfg, l1, deleted), now);
  }

  /** If the server picks every expired row, none is left. */
  lemma CleanupLeavesNoneExpired(cfg: Config, l1: Slots, t: Table, now: int, picked: set<string>, elsewhere: nat)
    requires ExpiredRows(t, now) <= picked
    ensures ExpiredRows(AfterCleanupExpired(cfg, l1, t, now, picked, elsewhere).table, now) == {}
  {
    hide Cleanup, DropKeys;
  }

  // ---- events ----

  /** Which event an operation that gave this reply publishes: about the key it wrote, its prefix or everything. */
  function EventFor(op: Op, reply: Reply): Option<Event> {
    match op
    case Set(key, _, _, _, _, _, _) => if reply == Flag(true) then Some(SetKey(key)) else None
    case CompareAndSwap(key, _, _, _, _, _) => if reply == Flag(true) then Some(SetKey(key)) else None
    case Expire(key, _, _) => if reply == Flag(true) then Some(SetKey(key)) else None
    case Persist(key, _) => if reply == Flag(true) then Some(SetKey(key)) else None
    case MSet(entries, _, _) => if entries != [] && reply == Done then Some(ClearAll) else None
    case Delete(key, _) => Some(DeleteKey(key))
    case ClearPrefix(prefix, _) => Some(ClearPrefixOf(prefix))
    case ClearNamespace(_) => Some(ClearAll)
    case _ => None
  }

  /** The operation's own switch for its event. */
  predicate Asks(op: Op) {
    match op
    case Set(_, _, _, _, _, _, notify) => notify
    case CompareAndSwap(_, _, _, _, _, notify) => notify
    case Expire(_, _, notify) => notify
    case Persist(_, notify) => notify
    case MSet(_, _, notify) => notify
    case Delete(_, notify) => notify
    case ClearPrefix(_, notify) => notify
    case ClearNamespace(notify) => notify
    case _ => false
  }

  predicate RightEvent(cfg: Config, op: Op, o: Outcome) {
    o.publish == if Asks(op) && cfg.notifyEnabled then EventFor(op, o.reply) else None
  }

  lemma EventOfWrite(cfg: Config, l1: Slots, t: Table, now: int, op: Op)
    ensures op.Set? ==> RightEvent(cfg, op, AfterSet(cfg, l1, t, now, op))
    ensures op.MSet? ==> RightEvent(cfg, op, AfterMSet(cfg, l1, t, now, op))
    ensures op.CompareAndSwap? ==> RightEvent(cfg, op, AfterCompareAndSwap(cfg, l1, t, now, op))
  {
    hide Put, PutAll, Drop, WithEntries, SwapWrites, NormalizeTtlMs, ExpiryAfter, LiveKey, DistinctKeys, ResolveSetMode;
  }

  lemma EventOfNewExpiry(cfg: Config, l1: Slots, t: Table, now: int, key: string, expiresAt: Option<int>, notify: bool)
    ensures var o := AfterNewExpiry(cfg, l1, t, now, key, expiresAt, notify);
      o.publish == if notify && cfg.notifyEnabled && o.reply == Flag(true) then Some(SetKey(key)) else None
  {
    hide Put, Drop, LiveKey;
  }

  lemma RenamePublishesNothing(cfg: Config, l1: Slots, t: Table, now: int, key: string, newKey: string, refused: bool)
    ensures AfterRename(cfg, l1, t, now, key, newKey, refused).publish == None
  {
    hide AfterGet, Drop;
  }

  /** An operation publishes that event exactly if its own switch and the cache's are on. */
  lemma EventOfOperation(cfg: Config, l1: Slots, t: Table, now: int, op: Op)
    ensures var o := Apply(cfg, l1, t, now, op);
      o.publish == if Asks(op) && cfg.notifyEnabled then EventFor(op, o.reply) else None
  {
    hide AfterGet, AfterMGet, AfterReceive, AfterKeys, AfterScan, AfterSet, AfterMSet, AfterCompareAndSwap, AfterNewExpiry, AfterRename,
         Drop, DropKeys, Cleanup, KeysWithPrefix, ExpiredAmong, LiveKey, RemainingMs, NormalizeTtlMs, ExpiryAfter;
    match op
    case Expire(key, ms, notify) => EventOfNewExpiry(cfg, l1, t, now, key, ExpiryAfter(now, NormalizeTtlMs(Some(ms))), notify);
    case Persist(key, notify) => EventOfNewExpiry(cfg, l1, t, now, key, None, notify);
    case Rename(key, newKey, refused) => RenamePublishesNothing(cfg, l1, t, now, key, newKey, refused);
    case _ => EventOfWrite(cfg, l1, t, now, op);
  }

  /** The handler says yes exactly to another instance's known event of its namespace that does not clear an empty prefix. */
  lemma HandledIff(cfg: Config, l1: Slots, t: Table, now: int, payload: Option<Notification>)
    ensures Apply(cfg, l1, t, now, Receive(payload)).reply == Flag(
      && payload.Some? && payload.value.ns == cfg.ns && payload.value.senderId != cfg.instanceId
      && payload.value.event != UnknownEvent && payload.value.event != ClearPrefixOf(""))
  {
    hide Drop, RemovePrefix;
  }
}
