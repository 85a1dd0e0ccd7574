/**
  One instance that is the only writer of its namespace: with or without L1, every run gives the same replies,
  publishes the same events and leaves the same table.
*/
module KvTransparency {
  import opened Wrappers
  import opened L1
  import opened KvOps
  import opened KvEffects

  datatype Act = Tick(ms: nat) | Do(op: Op)

  datatype Observed = Observed(reply: Reply, publish: Option<Event>)

  /** What a run shows its caller, and the table it leaves. */
  function Trace(cfg: Config, l1: Slots, t: Table, now: int, acts: seq<Act>): (seq<Observed>, Table)
    decreases |acts|
  {
    if acts == [] then ([], t)
    else
      match acts[0]
      case Tick(ms) => Trace(cfg, l1, t, now + ms, acts[1..])
      case Do(op) =>
        var o := Apply(cfg, l1, t, now, op);
        var (rest, t') := Trace(cfg, o.l1, o.table, now, acts[1..]);
        ([Observed(o.reply, o.publish)] + rest, t')
  }

  function WithoutL1(cfg: Config): Config { cfg.(l1Enabled := false) }

  /** mget skips rows with an empty key, so it must not be asked for one. */
  predicate NamesKeys(op: Op) { op.MGet? ==> "" !in op.keys }

  // ---- agreement is kept ----

  lemma EffectKeepsAgreement(cfg: Config, l1: Slots, t: Table, now: int, l1': Slots, t': Table)
    requires LocalEffect(cfg, l1, t, now, l1', t') && AllAgree(l1, t, now)
    ensures AllAgree(l1', t', now)
  {
    forall s | s in l1' && Fresh(s, now) ensures Agrees(s, t', now) {
      assert OldSlot(l1, t, now, t', s) || NewlyFilled(cfg, now, t', s);
    }
  }

  lemma TickKeepsAgreement(l1: Slots, t: Table, now: int, later: int)
    requires AllAgree(l1, t, now) && now <= later
    ensures AllAgree(l1, t, later)
  {
    forall s | s in l1 && Fresh(s, later) ensures Agrees(s, t, later) {
      assert Fresh(s, now) && Agrees(s, t, now);
    }
  }

  // ---- reads ----

  function LiveValue(t: Table, now: int, key: string): Option<Value> {
    if LiveKey(t, key, now) then Some(t[key].value) else None
  }

  function LiveValues(t: Table, now: int, keys: seq<string>): map<string, Value> {
    map k | k in keys && LiveKey(t, k, now) :: t[k].value
  }

  lemma LookupIsLive(cfg: Config, l1: Slots, t: Table, now: int, key: string)
    requires WithinMax(cfg, l1) && AllAgree(l1, t, now)
    ensures var hit := Lookup(cfg, l1, now, key).0; hit.Some? ==> hit == LiveValue(t, now, key)
  {
    LookupSlots(cfg, l1, now, key);
  }

  /** get returns the live row's value, whatever L1 holds. */
  lemma GetReadsTheTable(cfg: Config, l1: Slots, t: Table, now: int, key: string)
    requires WithinMax(cfg, l1) && AllAgree(l1, t, now)
    ensures AfterGet(cfg, l1, t, now, key).0 == LiveValue(t, now, key)
  {
    hide Lookup, AllAgree, WithinMax;
    LookupIsLive(cfg, l1, t, now, key);
  }

  lemma {:induction false} FromL1IsLive(cfg: Config, l1: Slots, t: Table, now: int, keys: seq<string>)
    requires WithinMax(cfg, l1) && AllAgree(l1, t, now)
    ensures var p := FromL1(cfg, l1, now, keys);
      && WithinMax(cfg, p.l1) && AllAgree(p.l1, t, now)
      && (forall k :: k in p.found ==> k in keys && LiveValue(t, now, k) == Some(p.found[k]))
      && (forall k :: k in keys ==> k in p.found || k in p.missing)
      && (forall k :: k in p.missing ==> k in keys)
  {
    hide Lookup, AllAgree, WithinMax, LocalEffect;
    if keys != [] {
      var front, key := keys[..|keys| - 1], keys[|keys| - 1];
      assert keys == front + [key];
      FromL1IsLive(cfg, l1, t, now, front);
      var p := FromL1(cfg, l1, now, front);
      LookupIsLive(cfg, p.l1, t, now, key);
      FromL1Effect(cfg, l1, t, now, keys);
      EffectKeepsAgreement(cfg, l1, t, now, FromL1(cfg, l1, now, keys).l1, t);
    }
  }

  lemma {:induction false} FromRowsFound(cfg: Config, p: Partial, t: Table, now: int, rows: seq<string>)
    requires forall k :: k in rows ==> k in t
    ensures var q := FromRows(cfg, p, t, now, rows);
      && (forall k :: k in q.found <==> k in p.found || (k in rows && k != ""))
      && (forall k :: k in q.found ==> q.found[k] == if k in rows && k != "" then t[k].value else p.found[k])
  {
    hide Put;
    if rows != [] {
      var front, key := rows[..|rows| - 1], rows[|rows| - 1];
      assert rows == front + [key];
      FromRowsFound(cfg, p, t, now, front);
    }
  }

  /** mget returns exactly the live rows among its keys, whatever L1 holds and whatever order the rows come in. */
  lemma MGetReadsTheTable(cfg: Config, l1: Slots, t: Table, now: int, keys: seq<string>, order: seq<string>)
    requires WithinMax(cfg, l1) && AllAgree(l1, t, now) && "" !in keys
    ensures AfterMGet(cfg, l1, t, now, keys, order).0 == LiveValues(t, now, keys)
  {
    hide FromL1, FromRows, DropAbsent, SelectIn, AllAgree, WithinMax;
    FromL1IsLive(cfg, l1, t, now, keys);
    var p := FromL1(cfg, l1, now, keys);
    var rows := SelectIn(t, now, p.missing, order + p.missing);
    SelectedAreLive(t, now, p.missing, order + p.missing);
    FromRowsFound(cfg, p, t, now, rows);
    var found := AfterMGet(cfg, l1, t, now, keys, order).0;
    forall k ensures k in found <==> k in LiveValues(t, now, keys) {
      SelectedKeys(t, now, p.missing, order + p.missing, k);
    }
    forall k | k in found ensures found[k] == LiveValues(t, now, keys)[k] {
      SelectedKeys(t, now, p.missing, order + p.missing, k);
    }
  }

  // ---- one operation ----

  lemma NothingAgrees(t: Table, now: int)
    ensures AllAgree([], t, now)
  {}

  predicate Same(o: Outcome, bare: Outcome) {
    o.reply == bare.reply && o.table == bare.table && o.publish == bare.publish
  }

  /** Writes never look at L1. */
  lemma WriteIsBlind(cfg: Config, l1: Slots, t: Table, now: int, op: Op)
    ensures op.Set? ==> Same(AfterSet(cfg, l1, t, now, op), AfterSet(WithoutL1(cfg), [], t, now, op))
    ensures op.MSet? ==> Same(AfterMSet(cfg, l1, t, now, op), AfterMSet(WithoutL1(cfg), [], t, now, op))
    ensures op.CompareAndSwap? ==> Same(AfterCompareAndSwap(cfg, l1, t, now, op), AfterCompareAndSwap(WithoutL1(cfg), [], t, now, op))
  {
    hide Put, PutAll, Drop, WithEntries, DistinctKeys, SwapWrites, LiveKey, ResolveSetMode, NormalizeTtlMs, ExpiryAfter;
  }

  lemma DeleteIsBlind(cfg: Config, l1: Slots, t: Table, now: int, op: Op)
    ensures op.Delete? ==> Same(AfterDelete(cfg, l1, t, op.key, op.notify), AfterDelete(WithoutL1(cfg), [], t, op.key, op.notify))
    ensures op.ClearPrefix? ==>
      Same(AfterClearPrefix(cfg, l1, t, op.prefix, op.notify), AfterClearPrefix(WithoutL1(cfg), [], t, op.prefix, op.notify))
    ensures op.CleanupExpired? ==> Same(AfterCleanupExpired(cfg, l1, t, now, op.picked, op.elsewhere),
      AfterCleanupExpired(WithoutL1(cfg), [], t, now, op.picked, op.elsewhere))
    ensures op.Unlink? ==> Same(AfterUnlink(cfg, l1, t, op.keys), AfterUnlink(WithoutL1(cfg), [], t, op.keys))
  {
    hide Drop, DropKeys, Cleanup, KeysWithPrefix, ExpiredAmong;
  }

  lemma ExpiryIsBlind(cfg: Config, l1: Slots, t: Table, now: int, key: string, expiresAt: Option<int>, notify: bool)
    ensures Same(AfterNewExpiry(cfg, l1, t, now, key, expiresAt, notify), AfterNewExpiry(WithoutL1(cfg), [], t, now, key, expiresAt, notify))
  {
    hide Put, Drop;
  }

  lemma RenameIsTransparent(cfg: Config, l1: Slots, t: Table, now: int, key: string, newKey: string, refused: bool)
    requires WithinMax(cfg, l1) && AllAgree(l1, t, now)
    ensures Same(AfterRename(cfg, l1, t, now, key, newKey, refused), AfterRename(WithoutL1(cfg), [], t, now, key, newKey, refused))
  {
    hide AfterGet, Drop, LiveKey, AllAgree;
    NothingAgrees(t, now);
    GetReadsTheTable(cfg, l1, t, now, key);
    GetReadsTheTable(WithoutL1(cfg), [], t, now, key);
  }

  lemma ReceiveIsBlind(cfg: Config, l1: Slots, payload: Option<Notification>)
    ensures AfterReceive(cfg, l1, payload).0 == AfterReceive(WithoutL1(cfg), [], payload).0
  {
    hide Drop, RemovePrefix;
  }

  lemma ReadIsTransparent(cfg: Config, l1: Slots, t: Table, now: int, op: Op)
    requires WithinMax(cfg, l1) && AllAgree(l1, t, now) && NamesKeys(op) && (op.Get? || op.Type? || op.MGet?)
    ensures Same(Apply(cfg, l1, t, now, op), Apply(WithoutL1(cfg), [], t, now, op))
  {
    hide AfterGet, AfterMGet, AllAgree, LiveValue, LiveValues;
    NothingAgrees(t, now);
    if op.MGet? {
      MGetReadsTheTable(cfg, l1, t, now, op.keys, op.order);
      MGetReadsTheTable(WithoutL1(cfg), [], t, now, op.keys, op.order);
    } else {
      GetReadsTheTable(cfg, l1, t, now, op.key);
      GetReadsTheTable(WithoutL1(cfg), [], t, now, op.key);
    }
  }

  /** With an agreeing L1 an operation shows exactly what it shows without one. */
  lemma OpIsTransparent(cfg: Config, l1: Slots, t: Table, now: int, op: Op)
    requires WithinMax(cfg, l1) && AllAgree(l1, t, now) && NamesKeys(op)
    ensures Same(Apply(cfg, l1, t, now, op), Apply(WithoutL1(cfg), [], t, now, op))
  {
    hide AfterGet, AfterMGet, AfterSet, AfterMSet, AfterDelete, AfterClearPrefix, AfterCleanupExpired, AfterCompareAndSwap,
         AfterNewExpiry, AfterRename, AfterUnlink, AfterReceive, AfterKeys, AfterScan, Drop, AllAgree, LiveKey, RemainingMs,
         NormalizeTtlMs, ExpiryAfter;
    if op.Get? || op.Type? || op.MGet? {
      ReadIsTransparent(cfg, l1, t, now, op);
    } else if op.Set? || op.MSet? || op.CompareAndSwap? {
      WriteIsBlind(cfg, l1, t, now, op);
    } else if op.Rename? {
      RenameIsTransparent(cfg, l1, t, now, op.key, op.newKey, op.refused);
    } else if op.Expire? {
      ExpiryIsBlind(cfg, l1, t, now, op.key, ExpiryAfter(now, NormalizeTtlMs(Some(op.ms))), op.notify);
    } else if op.Persist? {
      ExpiryIsBlind(cfg, l1, t, now, op.key, None, op.notify);
    } else if op.Receive? {
      ReceiveIsBlind(cfg, l1, op.payload);
    } else {
      DeleteIsBlind(cfg, l1, t, now, op);
    }
  }

  lemma BareL1StaysEmpty(cfg: Config, t: Table, now: int, op: Op)
    ensures Apply(WithoutL1(cfg), [], t, now, op).l1 == []
  {
    hide Apply, LocalEffect;
    assert WithinMax(WithoutL1(cfg), []);
    OpLocalEffect(WithoutL1(cfg), [], t, now, op);
    assert WithinMax(WithoutL1(cfg), Apply(WithoutL1(cfg), [], t, now, op).l1) by { EffectKeepsMax(WithoutL1(cfg), t, now, op); }
  }

  lemma EffectKeepsMax(cfg: Config, t: Table, now: int, op: Op)
    requires WithinMax(cfg, [])
    ensures WithinMax(cfg, Apply(cfg, [], t, now, op).l1)
  {
    hide Apply;
    OpLocalEffect(cfg, [], t, now, op);
  }

  lemma OpKeepsAgreement(cfg: Config, l1: Slots, t: Table, now: int, op: Op)
    requires WithinMax(cfg, l1) && AllAgree(l1, t, now)
    ensures var o := Apply(cfg, l1, t, now, op); WithinMax(cfg, o.l1) && AllAgree(o.l1, o.table, now)
  {
    hide Apply, WithinMax;
    OpLocalEffect(cfg, l1, t, now, op);
    var o := Apply(cfg, l1, t, now, op);
    EffectKeepsAgreement(cfg, l1, t, now, o.l1, o.table);
  }

  // ---- runs ----

  /** L1 is transparent over every run: any operations, clock advances, evictions and received notifications. */
  lemma {:induction false} RunIsTransparent(cfg: Config, l1: Slots, t: Table, now: int, acts: seq<Act>)
    requires WithinMax(cfg, l1) && AllAgree(l1, t, now)
    requires forall i :: 0 <= i < |acts| && acts[i].Do? ==> NamesKeys(acts[i].op)
    ensures Trace(cfg, l1, t, now, acts) == Trace(WithoutL1(cfg), [], t, now, acts)
    decreases |acts|
  {
    hide Apply, AllAgree, WithinMax, NamesKeys;
    if acts != [] {
      match acts[0]
      case Tick(ms) =>
        TickKeepsAgreement(l1, t, now, now + ms);
        RunIsTransparent(cfg, l1, t, now + ms, acts[1..]);
      case Do(op) =>
        OpIsTransparent(cfg, l1, t, now, op);
        OpKeepsAgreement(cfg, l1, t, now, op);
        BareL1StaysEmpty(cfg, t, now, op);
        var o := Apply(cfg, l1, t, now, op);
        RunIsTransparent(cfg, o.l1, o.table, now, acts[1..]);
    }
  }

  /** A new cache over any table. */
  lemma L1IsTransparent(cfg: Config, t: Table, now: int, acts: seq<Act>)
    requires forall i :: 0 <= i < |acts| && acts[i].Do? ==> NamesKeys(acts[i].op)
    ensures Trace(cfg, [], t, now, acts) == Trace(WithoutL1(cfg), [], t, now, acts)
  {
    NothingAgrees(t, now);
    RunIsTransparent(cfg, [], t, now, acts);
  }

  /** The one read L1 shows through: after get(""), mget finds the empty key in L1 but would skip its row. */
  lemma EmptyKeyShowsThrough(cfg: Config, op: Op, now: int)
    requires cfg.l1Enabled && cfg.l1Max > 0 && !NamesKeys(op)
    ensures var l1 := [NewSlot(cfg, now, "", "v", None)];
      var t := map["" := Row("v", None)];
      && Apply(cfg, [], t, now, Get("")).l1 == l1
      && WithinMax(cfg, l1) && AllAgree(l1, t, now)
      && Apply(cfg, l1, t, now, op).reply != Apply(WithoutL1(cfg), [], t, now, op).reply
  {
    hide DropAbsent, SelectIn, FromRows, FromL1, WithinMax;
    var l1, t := [NewSlot(cfg, now, "", "v", None)], map["" := Row("v", None)];
    EmptyKeyIsCached(cfg, now);
    FromL1Finds(cfg, now, op.keys);
    var p := FromL1(cfg, l1, now, op.keys);
    SelectedAreLive(t, now, p.missing, op.order + p.missing);
    FromRowsFound(cfg, p, t, now, SelectIn(t, now, p.missing, op.order + p.missing));
    NothingFoundBare(cfg, now, op.keys);
    var bare := FromL1(WithoutL1(cfg), [], now, op.keys);
    SelectedAreLive(t, now, bare.missing, op.order + bare.missing);
    FromRowsFound(WithoutL1(cfg), bare, t, now, SelectIn(t, now, bare.missing, op.order + bare.missing));
    assert "" in AfterMGet(cfg, l1, t, now, op.keys, op.order).0;
    assert "" !in AfterMGet(WithoutL1(cfg), [], t, now, op.keys, op.order).0;
  }

  /** Transparency of an operation in every agreeing state is exactly NamesKeys. */
  lemma TransparentIff(cfg: Config, op: Op)
    requires cfg.l1Enabled && cfg.l1Max > 0
    ensures NamesKeys(op) <==> forall l1, t, now :: WithinMax(cfg, l1) && AllAgree(l1, t, now) ==>
      Apply(cfg, l1, t, now, op).reply == Apply(WithoutL1(cfg), [], t, now, op).reply
  {
    hide Apply, AllAgree, WithinMax, NamesKeys;
    if NamesKeys(op) {
      forall l1, t, now | WithinMax(cfg, l1) && AllAgree(l1, t, now)
        ensures Apply(cfg, l1, t, now, op).reply == Apply(WithoutL1(cfg), [], t, now, op).reply
      {
        OpIsTransparent(cfg, l1, t, now, op);
      }
    } else {
      EmptyKeyShowsThrough(cfg, op, 0);
    }
  }

  lemma EmptyKeyIsCached(cfg: Config, now: int)
    requires cfg.l1Enabled && cfg.l1Max > 0
    ensures Apply(cfg, [], map["" := Row("v", None)], now, Get("")).l1 == [NewSlot(cfg, now, "", "v", None)]
    ensures WithinMax(cfg, [NewSlot(cfg, now, "", "v", None)])
  {
    assert Find([], "") == None && Remove([], "") == [];
    var slot := NewSlot(cfg, now, "", "v", None);
    assert [] + [slot] == [slot] && |[slot]| <= cfg.l1Max;
  }

  lemma {:induction false} FromL1Finds(cfg: Config, now: int, keys: seq<string>)
    requires cfg.l1Enabled
    ensures var p := FromL1(cfg, [NewSlot(cfg, now, "", "v", None)], now, keys);
      p.l1 == [NewSlot(cfg, now, "", "v", None)] && ("" in keys ==> "" in p.found)
  {
    var l1 := [NewSlot(cfg, now, "", "v", None)];
    if keys != [] {
      var front, key := keys[..|keys| - 1], keys[|keys| - 1];
      assert keys == front + [key];
      FromL1Finds(cfg, now, front);
      assert l1[1..] == [] && Find([], key) == None && Remove([], key) == [];
      assert key == "" ==> Remove(l1, key) + l1 == l1;
    }
  }

  lemma {:induction false} NothingFoundBare(cfg: Config, now: int, keys: seq<string>)
    ensures FromL1(WithoutL1(cfg), [], now, keys).found == map[]
  {
    if keys != [] { NothingFoundBare(cfg, now, keys[..|keys| - 1]); FromL1BareEmpty(cfg, now, keys[..|keys| - 1]); }
  }

  lemma {:induction false} FromL1BareEmpty(cfg: Config, now: int, keys: seq<string>)
    ensures FromL1(WithoutL1(cfg), [], now, keys).l1 == []
  {
    if keys != [] { FromL1BareEmpty(cfg, now, keys[..|keys| - 1]); }
  }
}
