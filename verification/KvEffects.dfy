/**
  What one cache operation can do to the agreement between L1 slots and table rows, for the instance that runs
  it (LocalEffect) and for every other instance of the namespace (RemoteEffect). The theorems about
  transparency, coherence and staleness are built on these two facts.
*/
module KvEffects {
  import opened Wrappers
  import opened L1
  import opened KvOps
  import opened SqlLike

  /** The slot repeats the live row and expires no later than it. */
  predicate Agrees(s: Slot, t: Table, now: int) {
    && LiveKey(t, s.key, now)
    && t[s.key].value == s.value
    && (t[s.key].expiresAt.Some? ==> s.expiresAt.Some? && s.expiresAt.value <= t[s.key].expiresAt.value)
  }

  ghost predicate AllAgree(l1: Slots, t: Table, now: int) {
    forall s :: s in l1 && Fresh(s, now) ==> Agrees(s, t, now)
  }

  /** Whatever agreed with the row of the key still does. */
  predicate KeyKept(t: Table, t': Table, now: int, key: string) {
    LiveKey(t, key, now) ==>
      LiveKey(t', key, now) && t'[key].value == t[key].value &&
      (t'[key].expiresAt.Some? ==> t[key].expiresAt.Some? && t[key].expiresAt.value <= t'[key].expiresAt.value)
  }

  /** The slot lives at most localTtlMs from now; a local TTL that is not positive bounds nothing. */
  predicate EndsWithin(s: Slot, now: int, localTtlMs: int) {
    localTtlMs > 0 ==> s.expiresAt.Some? && s.expiresAt.value <= now + localTtlMs
  }

  predicate OldSlot(l1: Slots, t: Table, now: int, t': Table, s: Slot) {
    s in l1 && KeyKept(t, t', now, s.key)
  }

  predicate NewlyFilled(cfg: Config, now: int, t': Table, s: Slot) {
    Agrees(s, t', now) && EndsWithin(s, now, cfg.l1TtlMs)
  }

  /** Every slot left is either an old one whose row was not disturbed or a copy of a row made just now. */
  ghost predicate LocalEffect(cfg: Config, l1: Slots, t: Table, now: int, l1': Slots, t': Table) {
    && WithinMax(cfg, l1')
    && forall s :: s in l1' ==> OldSlot(l1, t, now, t', s) || NewlyFilled(cfg, now, t', s)
  }

  /** Whatever agreed with the row of the key, and ends within the local TTL, still does. */
  predicate KeptWithin(t: Table, t': Table, now: int, key: string, localTtlMs: int) {
    LiveKey(t, key, now) ==>
      LiveKey(t', key, now) && t'[key].value == t[key].value &&
      (t'[key].expiresAt.Some? ==>
        (t[key].expiresAt.Some? && t[key].expiresAt.value <= t'[key].expiresAt.value)
        || (localTtlMs > 0 && now + localTtlMs <= t'[key].expiresAt.value))
  }

  lemma KeptSlotAgrees(s: Slot, t: Table, t': Table, now: int, localTtlMs: int)
    requires Agrees(s, t, now) && KeptWithin(t, t', now, s.key, localTtlMs) && EndsWithin(s, now, localTtlMs)
    ensures Agrees(s, t', now)
  {}

  /** Every key whose row was disturbed, for slots of that local TTL, is dropped by whoever receives the published event. */
  ghost predicate RemoteEffect(t: Table, now: int, t': Table, event: Option<Event>, localTtlMs: int) {
    forall k: string :: KeptWithin(t, t', now, k, localTtlMs) || (event.Some? && Drops(event.value, k))
  }

  // ---- building blocks ----

  lemma Compose(cfg: Config, l1: Slots, t: Table, now: int, l1': Slots, t': Table, l1'': Slots, t'': Table)
    requires LocalEffect(cfg, l1, t, now, l1', t') && LocalEffect(cfg, l1', t', now, l1'', t'')
    ensures LocalEffect(cfg, l1, t, now, l1'', t'')
  {
    forall s | s in l1'' ensures OldSlot(l1, t, now, t'', s) || NewlyFilled(cfg, now, t'', s) {
      if OldSlot(l1', t', now, t'', s) {
        assert OldSlot(l1, t, now, t', s) || NewlyFilled(cfg, now, t', s);
      }
    }
  }

  /** Dropping slots, and disturbing only rows whose slots are gone. */
  lemma OnlyKept(cfg: Config, l1: Slots, t: Table, now: int, l1': Slots, t': Table)
    requires WithinMax(cfg, l1')
    requires forall s :: s in l1' ==> s in l1 && KeyKept(t, t', now, s.key)
    ensures LocalEffect(cfg, l1, t, now, l1', t')
  {
    forall s | s in l1' ensures OldSlot(l1, t, now, t', s) {}
  }

  /** A copy of a row never outlives the row or the local TTL. */
  lemma FilledSlotAgrees(cfg: Config, t: Table, now: int, key: string)
    requires key in t
    requires Fresh(NewSlot(cfg, now, key, t[key].value, t[key].expiresAt), now)
    ensures NewlyFilled(cfg, now, t, NewSlot(cfg, now, key, t[key].value, t[key].expiresAt))
  {}

  /** Writing a row and caching what was written. */
  lemma WriteEffect(cfg: Config, l1: Slots, t: Table, now: int, key: string, row: Row)
    requires WithinMax(cfg, l1)
    ensures LocalEffect(cfg, l1, t, now, Put(cfg, l1, now, key, row.value, row.expiresAt), t[key := row])
  {
    hide Put, NewSlot, WithinMax, Agrees, EndsWithin;
    PutSlots(cfg, l1, now, key, row.value, row.expiresAt);
    var t' := t[key := row];
    var l1' := Put(cfg, l1, now, key, row.value, row.expiresAt);
    forall s | s in l1' ensures OldSlot(l1, t, now, t', s) || NewlyFilled(cfg, now, t', s) {
      if s in l1 && s.key != key {
      } else {
        FilledSlotAgrees(cfg, t', now, key);
      }
    }
  }

  /** Caching a row that was just read. */
  lemma FillEffect(cfg: Config, l1: Slots, t: Table, now: int, key: string)
    requires WithinMax(cfg, l1) && key in t
    ensures LocalEffect(cfg, l1, t, now, Put(cfg, l1, now, key, t[key].value, t[key].expiresAt), t)
  {
    assert t[key := t[key]] == t;
    WriteEffect(cfg, l1, t, now, key, t[key]);
  }

  lemma DropEffect(cfg: Config, l1: Slots, t: Table, now: int, key: string, t': Table)
    requires WithinMax(cfg, l1)
    requires forall k: string :: k != key ==> KeyKept(t, t', now, k)
    ensures LocalEffect(cfg, l1, t, now, Drop(cfg, l1, key), t')
  {
    DropSlots(cfg, l1, key);
    OnlyKept(cfg, l1, t, now, Drop(cfg, l1, key), t');
  }

  lemma DropKeysEffect(cfg: Config, l1: Slots, t: Table, now: int, keys: set<string>)
    requires WithinMax(cfg, l1)
    ensures LocalEffect(cfg, l1, t, now, DropKeys(cfg, l1, keys), t - keys)
  {
    DropKeysSlots(cfg, l1, keys);
    OnlyKept(cfg, l1, t, now, DropKeys(cfg, l1, keys), t - keys);
  }

  lemma LookupEffect(cfg: Config, l1: Slots, t: Table, now: int, key: string)
    requires WithinMax(cfg, l1)
    ensures LocalEffect(cfg, l1, t, now, Lookup(cfg, l1, now, key).1, t)
  {
    LookupSlots(cfg, l1, now, key);
    OnlyKept(cfg, l1, t, now, Lookup(cfg, l1, now, key).1, t);
  }

  lemma NoEffect(cfg: Config, l1: Slots, t: Table, now: int)
    requires WithinMax(cfg, l1)
    ensures LocalEffect(cfg, l1, t, now, l1, t)
  {
    OnlyKept(cfg, l1, t, now, l1, t);
  }

  // ---- reads ----

  lemma GetEffect(cfg: Config, l1: Slots, t: Table, now: int, key: string)
    requires WithinMax(cfg, l1)
    ensures LocalEffect(cfg, l1, t, now, AfterGet(cfg, l1, t, now, key).1, t)
  {
    hide Lookup, Drop, Put, LocalEffect;
    LookupEffect(cfg, l1, t, now, key);
    LookupSlots(cfg, l1, now, key);
    var (hit, l1') := Lookup(cfg, l1, now, key);
    if hit.Some? {
    } else if !LiveKey(t, key, now) {
      DropEffect(cfg, l1', t, now, key, t);
      Compose(cfg, l1, t, now, l1', t, Drop(cfg, l1', key), t);
    } else {
      FillEffect(cfg, l1', t, now, key);
      Compose(cfg, l1, t, now, l1', t, Put(cfg, l1', now, key, t[key].value, t[key].expiresAt), t);
    }
  }

  lemma {:induction false} FromL1Effect(cfg: Config, l1: Slots, t: Table, now: int, keys: seq<string>)
    requires WithinMax(cfg, l1)
    ensures LocalEffect(cfg, l1, t, now, FromL1(cfg, l1, now, keys).l1, t)
    ensures WithinMax(cfg, FromL1(cfg, l1, now, keys).l1)
  {
    hide Lookup;
    if keys == [] {
      NoEffect(cfg, l1, t, now);
    } else {
      var front, key := keys[..|keys| - 1], keys[|keys| - 1];
      FromL1Effect(cfg, l1, t, now, front);
      var l1' := FromL1(cfg, l1, now, front).l1;
      LookupEffect(cfg, l1', t, now, key);
      Compose(cfg, l1, t, now, l1', t, Lookup(cfg, l1', now, key).1, t);
    }
  }

  lemma {:induction false} FromRowsEffect(cfg: Config, p: Partial, t: Table, now: int, rows: seq<string>)
    requires WithinMax(cfg, p.l1) && forall k :: k in rows ==> k in t
    ensures LocalEffect(cfg, p.l1, t, now, FromRows(cfg, p, t, now, rows).l1, t)
  {
    hide Put;
    if rows == [] {
      NoEffect(cfg, p.l1, t, now);
    } else {
      var front, key := rows[..|rows| - 1], rows[|rows| - 1];
      FromRowsEffect(cfg, p, t, now, front);
      var l1' := FromRows(cfg, p, t, now, front).l1;
      FillEffect(cfg, l1', t, now, key);
      Compose(cfg, p.l1, t, now, l1', t, Put(cfg, l1', now, key, t[key].value, t[key].expiresAt), t);
    }
  }

  lemma {:induction false} DropAbsentEffect(cfg: Config, l1: Slots, t: Table, now: int, missing: seq<string>, found: map<string, Value>)
    requires WithinMax(cfg, l1)
    ensures LocalEffect(cfg, l1, t, now, DropAbsent(cfg, l1, missing, found), t)
  {
    hide Drop;
    if missing == [] {
      NoEffect(cfg, l1, t, now);
    } else {
      var front, key := missing[..|missing| - 1], missing[|missing| - 1];
      DropAbsentEffect(cfg, l1, t, now, front, found);
      var l1' := DropAbsent(cfg, l1, front, found);
      DropEffect(cfg, l1', t, now, key, t);
      Compose(cfg, l1, t, now, l1', t, Drop(cfg, l1', key), t);
    }
  }

  lemma MGetEffect(cfg: Config, l1: Slots, t: Table, now: int, keys: seq<string>, order: seq<string>)
    requires WithinMax(cfg, l1)
    ensures LocalEffect(cfg, l1, t, now, AfterMGet(cfg, l1, t, now, keys, order).1, t)
  {
    hide FromL1, FromRows, DropAbsent, SelectIn;
    var p := FromL1(cfg, l1, now, keys);
    FromL1Effect(cfg, l1, t, now, keys);
    var rows := SelectIn(t, now, p.missing, order + p.missing);
    SelectedAreLive(t, now, p.missing, order + p.missing);
    FromRowsEffect(cfg, p, t, now, rows);
    var q := FromRows(cfg, p, t, now, rows);
    DropAbsentEffect(cfg, q.l1, t, now, p.missing, q.found);
    Compose(cfg, l1, t, now, p.l1, t, q.l1, t);
    Compose(cfg, l1, t, now, q.l1, t, DropAbsent(cfg, q.l1, p.missing, q.found), t);
  }

  // ---- writes ----

  lemma {:induction false} PutAllEffect(cfg: Config, l1: Slots, t: Table, now: int, entries: seq<(string, Value)>, expiresAt: Option<int>)
    requires WithinMax(cfg, l1)
    ensures LocalEffect(cfg, l1, t, now, PutAll(cfg, l1, now, entries, expiresAt), WithEntries(t, entries, expiresAt))
  {
    hide Put;
    if entries == [] {
      NoEffect(cfg, l1, t, now);
    } else {
      var front := entries[..|entries| - 1];
      var (key, value) := entries[|entries| - 1];
      PutAllEffect(cfg, l1, t, now, front, expiresAt);
      var l1', t' := PutAll(cfg, l1, now, front, expiresAt), WithEntries(t, front, expiresAt);
      WriteEffect(cfg, l1', t', now, key, Row(value, expiresAt));
      Compose(cfg, l1, t, now, l1', t', Put(cfg, l1', now, key, value, expiresAt), t'[key := Row(value, expiresAt)]);
    }
  }

  lemma SetEffect(cfg: Config, l1: Slots, t: Table, now: int, op: Op)
    requires WithinMax(cfg, l1) && op.Set?
    ensures var o := AfterSet(cfg, l1, t, now, op); LocalEffect(cfg, l1, t, now, o.l1, o.table)
  {
    hide Put, Drop, LocalEffect, WithinMax;
    NoEffect(cfg, l1, t, now);
    DropEffect(cfg, l1, t, now, op.key, t);
    WriteEffect(cfg, l1, t, now, op.key, Row(op.value, ExpiryAfter(now, NormalizeTtlMs(op.ttlMs))));
  }

  lemma MSetEffect(cfg: Config, l1: Slots, t: Table, now: int, op: Op)
    requires WithinMax(cfg, l1) && op.MSet?
    ensures var o := AfterMSet(cfg, l1, t, now, op); LocalEffect(cfg, l1, t, now, o.l1, o.table)
  {
    hide PutAll, WithEntries, LocalEffect, WithinMax, DistinctKeys;
    NoEffect(cfg, l1, t, now);
    PutAllEffect(cfg, l1, t, now, op.entries, ExpiryAfter(now, NormalizeTtlMs(op.ttlMs)));
  }

  lemma SwapEffect(cfg: Config, l1: Slots, t: Table, now: int, op: Op)
    requires WithinMax(cfg, l1) && op.CompareAndSwap?
    ensures var o := AfterCompareAndSwap(cfg, l1, t, now, op); LocalEffect(cfg, l1, t, now, o.l1, o.table)
  {
    hide Put, Drop, LocalEffect, WithinMax, SwapWrites;
    DropEffect(cfg, l1, t, now, op.key, t);
    WriteEffect(cfg, l1, t, now, op.key, Row(op.next, ExpiryAfter(now, NormalizeTtlMs(op.ttlMs))));
  }

  lemma NewExpiryEffect(cfg: Config, l1: Slots, t: Table, now: int, key: string, expiresAt: Option<int>, notify: bool)
    requires WithinMax(cfg, l1)
    ensures var o := AfterNewExpiry(cfg, l1, t, now, key, expiresAt, notify); LocalEffect(cfg, l1, t, now, o.l1, o.table)
  {
    hide Put, Drop, LocalEffect, WithinMax;
    DropEffect(cfg, l1, t, now, key, t);
    if LiveKey(t, key, now) { WriteEffect(cfg, l1, t, now, key, Row(t[key].value, expiresAt)); }
  }

  lemma RenameEffect(cfg: Config, l1: Slots, t: Table, now: int, key: string, newKey: string, refused: bool)
    requires WithinMax(cfg, l1)
    ensures var o := AfterRename(cfg, l1, t, now, key, newKey, refused); LocalEffect(cfg, l1, t, now, o.l1, o.table)
  {
    hide AfterGet, WithinMax;
    if key == newKey {
      GetEffect(cfg, l1, t, now, key);
    } else if !LiveKey(t, key, now) || (refused && newKey in t) {
      NoEffect(cfg, l1, t, now);
    } else {
      DropSlots(cfg, l1, key);
      DropSlots(cfg, Drop(cfg, l1, key), newKey);
      OnlyKept(cfg, l1, t, now, Drop(cfg, Drop(cfg, l1, key), newKey), (t - {key})[newKey := t[key]]);
    }
  }

  lemma ReceiveSlots(cfg: Config, l1: Slots, payload: Option<Notification>)
    requires WithinMax(cfg, l1)
    ensures WithinMax(cfg, AfterReceive(cfg, l1, payload).1)
    ensures forall s :: s in AfterReceive(cfg, l1, payload).1 ==> s in l1
    ensures payload.Some? && Heeds(cfg, payload.value) ==>
      forall s :: s in AfterReceive(cfg, l1, payload).1 ==> !Drops(payload.value.event, s.key)
  {
    var l1' := AfterReceive(cfg, l1, payload).1;
    if payload.Some? && Heeds(cfg, payload.value) {
      match payload.value.event
      case SetKey(key) => DropSlots(cfg, l1, key);
      case DeleteKey(key) => DropSlots(cfg, l1, key);
      case ClearPrefixOf(prefix) =>
        forall s | s in RemovePrefix(l1, prefix) ensures s in l1 && !(prefix <= s.key) { InRemovePrefix(l1, prefix, s); }
        if l1 != [] { InRemovePrefix(l1, prefix, l1[0]); }
      case ClearAll =>
      case UnknownEvent =>
    }
  }

  lemma CleanupEffect(cfg: Config, l1: Slots, t: Table, now: int, picked: set<string>, elsewhere: nat)
    requires WithinMax(cfg, l1)
    ensures var o := AfterCleanupExpired(cfg, l1, t, now, picked, elsewhere); LocalEffect(cfg, l1, t, now, o.l1, o.table)
  {
    hide DropKeys, Cleanup, WithinMax;
    var deleted := ExpiredAmong(t, now, picked);
    DropKeysSlots(cfg, l1, deleted);
    CleanupSlots(cfg, DropKeys(cfg, l1, deleted), now);
    OnlyKept(cfg, l1, t, now, Cleanup(cfg, DropKeys(cfg, l1, deleted), now), t - deleted);
  }

  // ---- every operation ----

  lemma OpLocalEffect(cfg: Config, l1: Slots, t: Table, now: int, op: Op)
    requires WithinMax(cfg, l1)
    ensures var o := Apply(cfg, l1, t, now, op); LocalEffect(cfg, l1, t, now, o.l1, o.table)
  {
    hide AfterGet, AfterMGet, AfterSet, AfterMSet, AfterDelete, AfterClearPrefix, AfterCleanupExpired, AfterCompareAndSwap,
         AfterNewExpiry, AfterRename, AfterUnlink, AfterReceive, AfterKeys, AfterScan, LocalEffect, WithinMax, Drop;
    match op
    case Get(key) => GetEffect(cfg, l1, t, now, key);
    case Type(key) => GetEffect(cfg, l1, t, now, key);
    case MGet(keys, order) => MGetEffect(cfg, l1, t, now, keys, order);
    case Set(_, _, _, _, _, _, _) => SetEffect(cfg, l1, t, now, op);
    case MSet(_, _, _) => MSetEffect(cfg, l1, t, now, op);
    case Delete(key, notify) => DeleteEffect(cfg, l1, t, now, key, notify);
    case ClearPrefix(prefix, notify) => ClearPrefixEffect(cfg, l1, t, now, prefix, notify);
    case ClearNamespace(notify) => ClearEffect(cfg, l1, t, now);
    case CleanupExpired(picked, elsewhere) => CleanupEffect(cfg, l1, t, now, picked, elsewhere);
    case CompareAndSwap(_, _, _, _, _, _) => SwapEffect(cfg, l1, t, now, op);
    case Expire(key, ms, notify) => NewExpiryEffect(cfg, l1, t, now, key, ExpiryAfter(now, NormalizeTtlMs(Some(ms))), notify);
    case Persist(key, notify) => NewExpiryEffect(cfg, l1, t, now, key, None, notify);
    case Invalidate(key) => DropEffect(cfg, l1, t, now, key, t);
    case Receive(payload) => ReceiveEffect(cfg, l1, t, now, payload);
    case Rename(key, newKey, refused) => RenameEffect(cfg, l1, t, now, key, newKey, refused);
    case Unlink(keys) => UnlinkEffect(cfg, l1, t, now, keys);
    case _ => NoEffect(cfg, l1, t, now);
  }

  lemma DeleteEffect(cfg: Config, l1: Slots, t: Table, now: int, key: string, notify: bool)
    requires WithinMax(cfg, l1)
    ensures var o := AfterDelete(cfg, l1, t, key, notify); LocalEffect(cfg, l1, t, now, o.l1, o.table)
  {
    DropEffect(cfg, l1, t, now, key, t - {key});
  }

  lemma ClearPrefixEffect(cfg: Config, l1: Slots, t: Table, now: int, prefix: string, notify: bool)
    requires WithinMax(cfg, l1)
    ensures var o := AfterClearPrefix(cfg, l1, t, prefix, notify); LocalEffect(cfg, l1, t, now, o.l1, o.table)
  {
    DropKeysEffect(cfg, l1, t, now, KeysWithPrefix(t, prefix));
  }

  lemma ClearEffect(cfg: Config, l1: Slots, t: Table, now: int)
    ensures LocalEffect(cfg, l1, t, now, [], map[])
  {
    OnlyKept(cfg, l1, t, now, [], map[]);
  }

  lemma UnlinkEffect(cfg: Config, l1: Slots, t: Table, now: int, keys: seq<string>)
    requires WithinMax(cfg, l1)
    ensures var o := AfterUnlink(cfg, l1, t, keys); LocalEffect(cfg, l1, t, now, o.l1, o.table)
  {
    DropKeysEffect(cfg, l1, t, now, set k | k in keys && k in t);
  }

  lemma ReceiveEffect(cfg: Config, l1: Slots, t: Table, now: int, payload: Option<Notification>)
    requires WithinMax(cfg, l1)
    ensures LocalEffect(cfg, l1, t, now, AfterReceive(cfg, l1, payload).1, t)
  {
    hide AfterReceive;
    ReceiveSlots(cfg, l1, payload);
    OnlyKept(cfg, l1, t, now, AfterReceive(cfg, l1, payload).1, t);
  }

  // ---- the other instances ----

  /** A row written with this TTL outlasts every slot of the local TTL: it never expires, or not before they do. */
  predicate Outlasts(ttlMs: Option<real>, localTtlMs: int) {
    ttlMs.None? || (localTtlMs > 0 && ttlMs.value.Floor >= localTtlMs)
  }

  /**
    Operations that can disturb a live row some slot of the local TTL repeats. nx writes and persist cannot; neither
    can a new expiry, or a swap of a value for itself, that outlasts the slots.
  */
  predicate CanDisturb(op: Op, localTtlMs: int) {
    match op
    case Set(_, _, _, nx, xx, mode, _) => var m := ResolveSetMode(nx, xx, mode); m.Ok? && !m.value.Nx?
    case MSet(entries, _, _) => entries != [] && DistinctKeys(entries)
    case Delete(_, _) => true
    case ClearPrefix(_, _) => true
    case ClearNamespace(_) => true
    case CompareAndSwap(_, expected, next, expectedMissing, ttlMs, _) =>
      expected.Some? && expectedMissing != Some(true) && (next != expected.value || !Outlasts(ttlMs, localTtlMs))
    case Expire(_, ms, _) => !Outlasts(Some(ms), localTtlMs)
    case Rename(key, newKey, _) => key != newKey
    case Unlink(keys) => keys != []
    case _ => false
  }

  /** Operations that publish nothing, or an event whose empty name the handler ignores. */
  predicate Silent(op: Op) {
    match op
    case Set(key, _, _, _, _, _, notify) => !notify || key == ""
    case MSet(_, _, notify) => !notify
    case Delete(key, notify) => !notify || key == ""
    case ClearPrefix(prefix, notify) => !notify || prefix == ""
    case ClearNamespace(notify) => !notify
    case CompareAndSwap(key, _, _, _, _, notify) => !notify || key == ""
    case Expire(key, _, notify) => !notify || key == ""
    case _ => true
  }

  /** The operation publishes something that covers whatever it can disturb; an instance without notifications cannot. */
  predicate Announces(cfg: Config, op: Op, localTtlMs: int) {
    CanDisturb(op, localTtlMs) ==> cfg.notifyEnabled && !Silent(op)
  }

  lemma NothingDisturbed(t: Table, now: int, event: Option<Event>, localTtlMs: int)
    ensures RemoteEffect(t, now, t, event, localTtlMs)
  {}

  lemma AllDropped(t: Table, now: int, t': Table, localTtlMs: int)
    ensures RemoteEffect(t, now, t', Some(ClearAll), localTtlMs)
  {
    hide KeptWithin;
  }

  lemma WritesAreAnnounced(cfg: Config, l1: Slots, t: Table, now: int, op: Op, localTtlMs: int)
    requires Announces(cfg, op, localTtlMs) && (op.Set? || op.CompareAndSwap? || op.Expire? || op.Persist?)
    ensures var o := Apply(cfg, l1, t, now, op); RemoteEffect(t, now, o.table, o.publish, localTtlMs)
  {
    hide Put, Drop;
    var o := Apply(cfg, l1, t, now, op);
    forall k: string ensures KeptWithin(t, o.table, now, k, localTtlMs) || (o.publish.Some? && Drops(o.publish.value, k)) {
      if k != op.key { assert KeptWithin(t, o.table, now, k, localTtlMs); }
    }
  }

  lemma BulkIsAnnounced(cfg: Config, l1: Slots, t: Table, now: int, op: Op, localTtlMs: int)
    requires Announces(cfg, op, localTtlMs) && (op.MSet? || op.ClearNamespace?)
    ensures var o := Apply(cfg, l1, t, now, op); RemoteEffect(t, now, o.table, o.publish, localTtlMs)
  {
    hide PutAll, WithEntries, DistinctKeys, RemoteEffect;
    var o := Apply(cfg, l1, t, now, op);
    NothingDisturbed(t, now, o.publish, localTtlMs);
    AllDropped(t, now, o.table, localTtlMs);
  }

  lemma PrefixIsAnnounced(cfg: Config, l1: Slots, t: Table, now: int, op: Op, localTtlMs: int)
    requires Announces(cfg, op, localTtlMs) && op.ClearPrefix?
    ensures var o := Apply(cfg, l1, t, now, op); RemoteEffect(t, now, o.table, o.publish, localTtlMs)
  {
    hide DropKeys, KeysWithPrefix;
    var o := Apply(cfg, l1, t, now, op);
    forall k: string ensures KeptWithin(t, o.table, now, k, localTtlMs) || (o.publish.Some? && Drops(o.publish.value, k)) {
      PrefixIsSelected(t, op.prefix, k);
    }
  }

  lemma DeletesAreAnnounced(cfg: Config, l1: Slots, t: Table, now: int, op: Op, localTtlMs: int)
    requires Announces(cfg, op, localTtlMs) && (op.Delete? || op.CleanupExpired? || op.Unlink? || op.Rename?)
    ensures var o := Apply(cfg, l1, t, now, op); RemoteEffect(t, now, o.table, o.publish, localTtlMs)
  {
    hide AfterGet, Drop, DropKeys, Cleanup;
  }

  /** clearPrefix deletes in SQL exactly the rows the remote handler would drop. */
  lemma PrefixIsSelected(t: Table, prefix: string, key: string)
    ensures key in KeysWithPrefix(t, prefix) <==> key in t && prefix <= key
  {
    PrefixPattern(prefix, key);
  }

  lemma OpRemoteEffect(cfg: Config, l1: Slots, t: Table, now: int, op: Op, localTtlMs: int)
    requires Announces(cfg, op, localTtlMs)
    ensures var o := Apply(cfg, l1, t, now, op); RemoteEffect(t, now, o.table, o.publish, localTtlMs)
  {
    hide AfterGet, AfterMGet, AfterSet, AfterMSet, AfterDelete, AfterClearPrefix, AfterCleanupExpired, AfterCompareAndSwap,
         AfterNewExpiry, AfterRename, AfterUnlink, AfterReceive, AfterKeys, AfterScan, Drop, Announces, RemainingMs, NormalizeTtlMs,
         ExpiryAfter;
    if op.Set? || op.CompareAndSwap? || op.Expire? || op.Persist? {
      WritesAreAnnounced(cfg, l1, t, now, op, localTtlMs);
    } else if op.MSet? || op.ClearNamespace? {
      BulkIsAnnounced(cfg, l1, t, now, op, localTtlMs);
    } else if op.ClearPrefix? {
      PrefixIsAnnounced(cfg, l1, t, now, op, localTtlMs);
    } else if op.Delete? || op.CleanupExpired? || op.Unlink? || op.Rename? {
      DeletesAreAnnounced(cfg, l1, t, now, op, localTtlMs);
    }
  }

  lemma {:induction false} EntryIsWritten(t: Table, entries: seq<(string, Value)>, expiresAt: Option<int>, i: nat)
    requires DistinctKeys(entries) && i < |entries|
    ensures entries[i].0 in WithEntries(t, entries, expiresAt)
    ensures WithEntries(t, entries, expiresAt)[entries[i].0] == Row(entries[i].1, expiresAt)
  {
    if i < |entries| - 1 { EntryIsWritten(t, entries[..|entries| - 1], expiresAt, i); }
  }

  /** A live row that the operation disturbs. */
  function Victim(op: Op, localTtlMs: int): (string, Row)
    requires CanDisturb(op, localTtlMs)
  {
    match op
    case Set(key, value, _, _, _, _, _) => (key, Row(value + "'", None))
    case MSet(entries, _, _) => (entries[0].0, Row(entries[0].1 + "'", None))
    case Delete(key, _) => (key, Row("", None))
    case ClearPrefix(prefix, _) => (prefix, Row("", None))
    case ClearNamespace(_) => ("", Row("", None))
    case CompareAndSwap(key, expected, _, _, _, _) => (key, Row(expected.value, None))
    case Expire(key, _, _) => (key, Row("", None))
    case Rename(key, _, _) => (key, Row("", None))
    case Unlink(keys) => (keys[0], Row("", None))
  }

  /** The slot an instance with that local TTL fills from a row without expiry. */
  function CopyOf(key: string, row: Row, now: int, localTtlMs: int): Slot {
    Slot(key, row.value, if localTtlMs > 0 then Some(now + localTtlMs) else None)
  }

  /** An unannounced operation leaves a fresh copy of its victim wrong, and no receiver of its event would drop it. */
  lemma SilentOpDisturbs(cfg: Config, l1: Slots, now: int, op: Op, localTtlMs: int)
    requires !Announces(cfg, op, localTtlMs)
    ensures var (key, row) := Victim(op, localTtlMs);
      var o, slot := Apply(cfg, l1, map[key := row], now, op), CopyOf(key, row, now, localTtlMs);
      && Agrees(slot, map[key := row], now) && Fresh(slot, now)
      && !Agrees(slot, o.table, now) && (o.publish.None? || !Drops(o.publish.value, key))
  {
    hide AfterGet, AfterMGet, AfterReceive, AfterKeys, AfterScan, Put, PutAll, Drop, DropKeys, Cleanup, WithEntries,
         DistinctKeys, Like, EscapeLike;
    var (key, row) := Victim(op, localTtlMs);
    if op.MSet? { EntryIsWritten(map[key := row], op.entries, ExpiryAfter(now, NormalizeTtlMs(op.ttlMs)), 0); }
    if op.ClearPrefix? { PrefixPattern(op.prefix, op.prefix); }
  }
}
