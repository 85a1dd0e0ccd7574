/**
  The cache object: a Map in process, the table behind it and the notifications it sends. Every method is proved
  to do what KvOps says its operation does.
*/
module KvCache {
  import opened Wrappers
  import opened L1
  import opened KvOps
  import opened Ordering
  import opened SqlLike
  import opened TextOrder

  /** What the instances of a namespace share: the rows, the clock and the notification channel. */
  class Database {
    var rows: Table
    var now: int
    var sent: seq<Notification>

    constructor (now: int)
      ensures rows == map[] && this.now == now && sent == []
    {
      rows, this.now, sent := map[], now, [];
    }
  }

  lemma RemoveOldest(l1: Slots)
    requires UniqueKeys(l1) && l1 != []
    ensures Remove(l1, l1[0].key) == l1[1..]
  {
    KeepAll(l1[1..], NotKey(l1[0].key));
  }

  lemma KeepOne(s: Slot, stays: Slot -> bool)
    ensures Keep([s], stays) == if stays(s) then [s] else []
  {}

  /** Deleting the slot at hand, while walking over the slots of a Map. */
  lemma RemoveAt(done: Slots, s: Slot, rest: Slots)
    requires forall x :: x in done || x in rest ==> x.key != s.key
    ensures Remove(done + [s] + rest, s.key) == done + rest
  {
    hide Keep;
    KeepConcat(done + [s], rest, NotKey(s.key));
    KeepConcat(done, [s], NotKey(s.key));
    KeepOne(s, NotKey(s.key));
    KeepAll(done, NotKey(s.key));
    KeepAll(rest, NotKey(s.key));
  }

  /** One step of a walk over the slots of a Map that deletes those that do not stay. */
  lemma WalkStep(slots: Slots, i: nat, stays: Slot -> bool)
    requires UniqueKeys(slots) && i < |slots|
    ensures var now, next := Keep(slots[..i], stays) + slots[i..], Keep(slots[..i + 1], stays) + slots[i + 1..];
      next == if stays(slots[i]) then now else Remove(now, slots[i].key)
  {
    var s, done, rest := slots[i], Keep(slots[..i], stays), slots[i + 1..];
    assert slots[..i + 1] == slots[..i] + [s] && slots[i..] == [s] + rest;
    KeepConcat(slots[..i], [s], stays);
    assert done + slots[i..] == done + [s] + rest;
    forall x | x in done || x in rest ensures x.key != s.key { InKeep(slots[..i], stays, x); }
    RemoveAt(done, s, rest);
  }

  lemma {:induction false} RemoveMore(l1: Slots, keys: set<string>, key: string)
    ensures Remove(RemoveKeys(l1, keys), key) == RemoveKeys(l1, keys + {key})
  {
    if l1 != [] { RemoveMore(l1[1..], keys, key); }
  }

  lemma KeepNothing(stays: Slot -> bool)
    ensures Keep([], stays) == []
  {}

  class PgKvCache {
    const cfg: Config
    const db: Database
    var l1: Slots

    constructor (cfg: Config, db: Database)
      ensures this.cfg == cfg && this.db == db && l1 == [] && Valid()
    {
      this.cfg, this.db, l1 := cfg, db, [];
    }

    ghost predicate Valid()
      reads this
    {
      UniqueKeys(l1)
    }

    /** The operation had exactly its effect on L1, the table, the channel and the reply. */
    twostate predicate Did(op: Op, reply: Reply)
      reads this, db
    {
      var o := Apply(cfg, old(l1), old(db.rows), old(db.now), op);
      && Valid()
      && l1 == o.l1 && db.rows == o.table && reply == o.reply && db.now == old(db.now)
      && db.sent == old(db.sent) + if o.publish.Some? then [Notification(cfg.ns, cfg.instanceId, o.publish.value)] else []
    }

    // ---- L1 ----

    method GetL1(key: string) returns (hit: Option<Value>)
      requires Valid()
      modifies this
      ensures Valid() && (hit, l1) == Lookup(cfg, old(l1), db.now, key)
    {
      LookupUnique(cfg, l1, db.now, key);
      if !cfg.l1Enabled { return None; }
      var entry := Find(l1, key);
      if entry.None? { return None; }
      if entry.value.expiresAt.Some? && entry.value.expiresAt.value <= db.now {
        l1 := Remove(l1, key);
        return None;
      }
      l1 := Remove(l1, key);
      l1 := l1 + [entry.value];
      return Some(entry.value.value);
    }

    method SetL1(key: string, value: Value, l2ExpiresAt: Option<int>)
      requires Valid()
      modifies this
      ensures Valid() && l1 == Put(cfg, old(l1), db.now, key, value, l2ExpiresAt)
    {
      PutUnique(cfg, l1, db.now, key, value, l2ExpiresAt);
      if !cfg.l1Enabled || cfg.l1Max <= 0 { return; }
      var l1ExpiresAt := ComputeL1ExpiresAt(cfg, db.now, l2ExpiresAt);
      KeepUnique(l1, NotKey(key));
      forall s | s in Remove(l1, key) ensures s.key != key { InRemove(l1, key, s); }
      if l1ExpiresAt.Some? && l1ExpiresAt.value <= db.now {
        l1 := Remove(l1, key);
        return;
      }
      l1 := Remove(l1, key);
      l1 := l1 + [Slot(key, value, l1ExpiresAt)];
      EnforceL1Max();
    }

    method EnforceL1Max()
      requires Valid()
      modifies this
      ensures Valid() && l1 == Evict(old(l1), cfg.l1Max)
    {
      while |l1| > cfg.l1Max
        invariant Valid() && Evict(l1, cfg.l1Max) == Evict(old(l1), cfg.l1Max)
        decreases |l1|
      {
        if l1 == [] { return; }
        RemoveOldest(l1);
        var oldest := l1[0].key;
        l1 := Remove(l1, oldest);
      }
    }

    method DeleteL1(key: string)
      requires Valid()
      modifies this
      ensures Valid() && l1 == Drop(cfg, old(l1), key)
    {
      KeepUnique(l1, NotKey(key));
      if !cfg.l1Enabled { return; }
      l1 := Remove(l1, key);
    }

    /** Drops the slots of the rows a statement returned, one after the other. */
    method DeleteRowsL1(rows: seq<string>)
      requires Valid()
      modifies this
      ensures Valid() && l1 == DropKeys(cfg, old(l1), Elements(rows))
    {
      KeepAll(l1, NotIn({}));
      assert Elements(rows[..0]) == {};
      for i := 0 to |rows|
        invariant Valid() && l1 == DropKeys(cfg, old(l1), Elements(rows[..i]))
      {
        RemoveMore(old(l1), Elements(rows[..i]), rows[i]);
        assert Elements(rows[..i + 1]) == Elements(rows[..i]) + {rows[i]};
        DeleteL1(rows[i]);
      }
      assert rows[..|rows|] == rows;
    }

    method CleanupL1()
      requires Valid()
      modifies this
      ensures Valid() && l1 == Cleanup(cfg, old(l1), db.now)
    {
      hide Keep, UniqueKeys;
      KeepUnique(l1, FreshAt(db.now));
      KeepNothing(FreshAt(db.now));
      if !cfg.l1Enabled { return; }
      var entries, now := l1, db.now;
      assert entries[..0] == [] && [] + entries[0..] == entries;
      for i := 0 to |entries|
        invariant l1 == RemoveStale(entries[..i], now) + entries[i..]
      {
        WalkStep(entries, i, FreshAt(now));
        if entries[i].expiresAt.Some? && entries[i].expiresAt.value <= now { l1 := Remove(l1, entries[i].key); }
      }
      assert entries[..|entries|] == entries && entries[|entries|..] == [];
      assert l1 == RemoveStale(entries, now);
    }

    method DeletePrefixL1(prefix: string)
      requires Valid()
      modifies this
      ensures Valid() && l1 == RemovePrefix(old(l1), prefix)
    {
      hide Keep, UniqueKeys;
      KeepUnique(l1, NotUnder(prefix));
      KeepNothing(NotUnder(prefix));
      var entries := l1;
      assert entries[..0] == [] && [] + entries[0..] == entries;
      for i := 0 to |entries|
        invariant l1 == RemovePrefix(entries[..i], prefix) + entries[i..]
      {
        WalkStep(entries, i, NotUnder(prefix));
        if prefix <= entries[i].key { l1 := Remove(l1, entries[i].key); }
      }
      assert entries[..|entries|] == entries && entries[|entries|..] == [];
      assert l1 == RemovePrefix(entries, prefix);
    }

    method PublishEvent(event: Event)
      modifies db
      ensures db.rows == old(db.rows) && db.now == old(db.now)
      ensures db.sent == old(db.sent) + if cfg.notifyEnabled then [Notification(cfg.ns, cfg.instanceId, event)] else []
    {
      if !cfg.notifyEnabled { return; }
      db.sent := db.sent + [Notification(cfg.ns, cfg.instanceId, event)];
    }

    // ---- reads ----

    method Get(key: string) returns (value: Option<Value>)
      requires Valid()
      modifies this, db
      ensures Did(KvOps.Get(key), Found(value))
    {
      hide Lookup, Put, Drop;
      var cached := GetL1(key);
      if cached.Some? { return cached; }
      if !LiveKey(db.rows, key, db.now) {
        DeleteL1(key);
        return None;
      }
      var row := db.rows[key];
      SetL1(key, row.value, row.expiresAt);
      return Some(row.value);
    }

    method MGet(keys: seq<string>, order: seq<string>) returns (result: map<string, Value>)
      requires Valid()
      modifies this, db
      ensures Did(KvOps.MGet(keys, order), Values(result))
    {
      hide Lookup, Put, Drop;
      var was := l1;
      var missing: seq<string> := [];
      result := map[];
      for i := 0 to |keys|
        invariant Valid() && Partial(result, missing, l1) == FromL1(cfg, was, db.now, keys[..i])
        invariant db.rows == old(db.rows) && db.now == old(db.now) && db.sent == old(db.sent)
      {
        assert keys[..i + 1][..i] == keys[..i];
        var cached := GetL1(keys[i]);
        if cached.Some? { result := result[keys[i] := cached.value]; } else { missing := missing + [keys[i]]; }
      }
      assert keys[..|keys|] == keys;
      ghost var p := Partial(result, missing, l1);
      if |missing| == 0 {
        NothingMissing(cfg, p, db.rows, db.now, order + missing);
        return;
      }

      var t, now := db.rows, db.now;
      var rows := SelectIn(t, now, missing, order + missing);
      SelectedAreLive(t, now, missing, order + missing);
      assert forall k :: k in rows ==> k in t;
      for i := 0 to |rows|
        invariant db.rows == old(db.rows) && db.now == old(db.now) && db.sent == old(db.sent)
        invariant Valid() && Partial(result, missing, l1) == FromRows(cfg, p, t, now, rows[..i])
      {
        assert rows[..i + 1][..i] == rows[..i];
        var key := rows[i];
        if key == "" { continue; }
        var row := t[key];
        result := result[key := row.value];
        SetL1(key, row.value, row.expiresAt);
      }
      assert rows[..|rows|] == rows;

      var filled := l1;
      for i := 0 to |missing|
        invariant Valid() && l1 == DropAbsent(cfg, filled, missing[..i], result)
        invariant db.rows == old(db.rows) && db.now == old(db.now) && db.sent == old(db.sent)
      {
        assert missing[..i + 1][..i] == missing[..i];
        if missing[i] !in result { DeleteL1(missing[i]); }
      }
      assert missing[..|missing|] == missing;
    }

    method Touch(key: string) returns (found: bool)
      requires Valid()
      ensures Did(KvOps.Touch(key), Flag(found))
    {
      found := LiveKey(db.rows, key, db.now);
    }

    method Ttl(key: string) returns (ms: Option<int>)
      requires Valid()
      ensures Did(KvOps.Ttl(key), Remaining(ms))
    {
      if !LiveKey(db.rows, key, db.now) || db.rows[key].expiresAt.None? { return None; }
      var left := db.rows[key].expiresAt.value - db.now;
      ms := Some(if left < 0 then 0 else left);
    }

    method Type(key: string) returns (present: bool)
      requires Valid()
      modifies this, db
      ensures Did(KvOps.Type(key), Flag(present))
    {
      hide AfterGet;
      var value := Get(key);
      present := value.Some?;
    }

    method Keys(pattern: string, limit: real) returns (keys: seq<string>)
      requires Valid()
      ensures Did(KvOps.Keys(pattern, limit), KeyList(keys))
    {
      hide Like, Translate, TextBefore, Live, SortedKeys, PageSize;
      var like := RedisPatternToSqlLike(pattern);
      var selected := set k | k in db.rows && Like(like, k) && Live(db.rows[k], db.now);
      assert selected == SelectedAfter(db.rows, db.now, pattern, "", false);
      keys := SortedKeys(selected);
      if |keys| > PageSize(limit) { keys := keys[..PageSize(limit)]; }
    }

    method Scan(cursor: Option<string>, count: real, pattern: string) returns (next: Option<string>, keys: seq<string>)
      requires Valid()
      ensures Did(KvOps.Scan(cursor, count, pattern), Page(next, keys))
    {
      hide Like, Translate, TextBefore, Live, SortedKeys, PageSize;
      var like := RedisPatternToSqlLike(pattern);
      var limit := PageSize(count);
      var after := if cursor.None? then "" else cursor.value;
      var selected := set k | k in db.rows && Like(like, k) && TextBefore(after, k) && Live(db.rows[k], db.now);
      assert selected == SelectedAfter(db.rows, db.now, pattern, after, true);
      keys := SortedKeys(selected);
      if |keys| > limit { keys := keys[..limit]; }
      next := if |keys| == limit then Some(keys[|keys| - 1]) else None;
    }

    // ---- writes ----

    method Set(key: string, value: Value, ttlMs: Option<real>, nx: bool, xx: bool, mode: Mode, notify: bool)
      returns (reply: Result<bool>)
      requires Valid()
      modifies this, db
      ensures Did(KvOps.Set(key, value, ttlMs, nx, xx, mode, notify), if reply.Ok? then Flag(reply.value) else Failed(reply.error))
    {
      hide Put, Drop, LiveKey;
      var ttl := NormalizeTtlMs(ttlMs);
      var resolved := ResolveSetMode(nx, xx, mode);
      if resolved.Err? { return Err(resolved.error); }
      var expiresAt := ExpiryAfter(db.now, ttl);
      var written := if resolved.value.Xx? then LiveKey(db.rows, key, db.now)
                     else resolved.value.Always? || !LiveKey(db.rows, key, db.now);
      if !written {
        if resolved.value.Xx? { DeleteL1(key); }
        return Ok(false);
      }
      db.rows := db.rows[key := Row(value, expiresAt)];
      SetL1(key, value, expiresAt);
      if notify { PublishEvent(SetKey(key)); }
      return Ok(true);
    }

    method MSet(entries: seq<(string, Value)>, ttlMs: Option<real>, notify: bool) returns (reply: Result<()>)
      requires Valid()
      modifies this, db
      ensures Did(KvOps.MSet(entries, ttlMs, notify), if reply.Ok? then Done else Failed(reply.error))
    {
      hide PutAll, WithEntries, DistinctKeys, NormalizeTtlMs, ExpiryAfter;
      if |entries| == 0 { return Ok(()); }
      var expiresAt := ExpiryAfter(db.now, NormalizeTtlMs(ttlMs));
      if !DistinctKeys(entries) { return Err("ON CONFLICT DO UPDATE command cannot affect row a second time"); }
      db.rows := WithEntries(db.rows, entries, expiresAt);
      SetEntriesL1(entries, expiresAt);
      if notify { PublishEvent(ClearAll); }
      return Ok(());
    }

    /** Caches the entries one after the other. */
    method SetEntriesL1(entries: seq<(string, Value)>, expiresAt: Option<int>)
      requires Valid()
      modifies this
      ensures Valid() && l1 == PutAll(cfg, old(l1), db.now, entries, expiresAt)
    {
      hide Put;
      for i := 0 to |entries|
        invariant Valid() && l1 == PutAll(cfg, old(l1), db.now, entries[..i], expiresAt)
      {
        assert entries[..i + 1][..i] == entries[..i];
        SetL1(entries[i].0, entries[i].1, expiresAt);
      }
      assert entries[..|entries|] == entries;
    }

    method Delete(key: string, notify: bool) returns (deleted: bool)
      requires Valid()
      modifies this, db
      ensures Did(KvOps.Delete(key, notify), Flag(deleted))
    {
      hide Drop;
      deleted := key in db.rows;
      db.rows := db.rows - {key};
      DeleteL1(key);
      if notify { PublishEvent(DeleteKey(key)); }
    }

    method ClearPrefix(prefix: string, notify: bool) returns (deleted: nat)
      requires Valid()
      modifies this, db
      ensures Did(KvOps.ClearPrefix(prefix, notify), Count(deleted))
    {
      hide DropKeys;
      var picked := KeysWithPrefix(db.rows, prefix);
      var rows := SortedKeys(picked);
      SortedKeysFacts(picked);
      db.rows := db.rows - picked;
      DeleteRowsL1(rows);
      if notify { PublishEvent(ClearPrefixOf(prefix)); }
      deleted := |rows|;
    }

    method ClearNamespace(notify: bool) returns (deleted: nat)
      requires Valid()
      modifies this, db
      ensures Did(KvOps.ClearNamespace(notify), Count(deleted))
    {
      deleted := |db.rows|;
      db.rows := map[];
      l1 := [];
      if notify { PublishEvent(ClearAll); }
    }

    /** `picked` and `elsewhere`: the expired rows the server's LIMIT picks, in this namespace and in others. */
    method CleanupExpired(picked: set<string>, elsewhere: nat) returns (deleted: nat)
      requires Valid()
      modifies this, db
      ensures Did(KvOps.CleanupExpired(picked, elsewhere), Count(deleted))
    {
      hide DropKeys, Cleanup;
      var expired := ExpiredAmong(db.rows, db.now, picked);
      var rows := SortedKeys(expired);
      SortedKeysFacts(expired);
      db.rows := db.rows - expired;
      DeleteRowsL1(rows);
      CleanupL1();
      deleted := |rows| + elsewhere;
    }

    method CompareAndSwap(key: string, expected: Option<Value>, next: Value, expectedMissing: Option<bool>, ttlMs: Option<real>,
        notify: bool) returns (swapped: bool)
      requires Valid()
      modifies this, db
      ensures Did(KvOps.CompareAndSwap(key, expected, next, expectedMissing, ttlMs, notify), Flag(swapped))
    {
      hide Put, Drop;
      var expiresAt := ExpiryAfter(db.now, NormalizeTtlMs(ttlMs));
      var missing := if expectedMissing.Some? then expectedMissing.value else expected.None?;
      var live := LiveKey(db.rows, key, db.now);
      var written := if missing then !live else live && LiveHolds(db.rows, key, expected);
      if !written {
        DeleteL1(key);
        return false;
      }
      db.rows := db.rows[key := Row(next, expiresAt)];
      SetL1(key, next, expiresAt);
      if notify { PublishEvent(SetKey(key)); }
      return true;
    }

    method Expire(key: string, ms: real, notify: bool) returns (updated: bool)
      requires Valid()
      modifies this, db
      ensures Did(KvOps.Expire(key, ms, notify), Flag(updated))
    {
      hide Put, Drop;
      if !LiveKey(db.rows, key, db.now) {
        DeleteL1(key);
        return false;
      }
      var row := Row(db.rows[key].value, ExpiryAfter(db.now, NormalizeTtlMs(Some(ms))));
      db.rows := db.rows[key := row];
      SetL1(key, row.value, row.expiresAt);
      if notify { PublishEvent(SetKey(key)); }
      return true;
    }

    method Persist(key: string, notify: bool) returns (updated: bool)
      requires Valid()
      modifies this, db
      ensures Did(KvOps.Persist(key, notify), Flag(updated))
    {
      hide Put, Drop;
      if !LiveKey(db.rows, key, db.now) {
        DeleteL1(key);
        return false;
      }
      var row := Row(db.rows[key].value, None);
      db.rows := db.rows[key := row];
      SetL1(key, row.value, None);
      if notify { PublishEvent(SetKey(key)); }
      return true;
    }

    method Rename(key: string, newKey: string, refused: bool) returns (reply: Result<bool>)
      requires Valid()
      modifies this, db
      ensures Did(KvOps.Rename(key, newKey, refused), if reply.Ok? then Flag(reply.value) else Failed(reply.error))
    {
      hide AfterGet, Drop;
      if key == newKey {
        var value := Get(key);
        return Ok(value.Some?);
      }
      if !LiveKey(db.rows, key, db.now) { return Ok(false); }
      if refused && newKey in db.rows { return Err("duplicate key value violates unique constraint"); }
      var row := db.rows[key];
      db.rows := db.rows - {newKey};
      db.rows := (db.rows - {key})[newKey := row];
      assert db.rows == (old(db.rows) - {key})[newKey := row];
      DeleteL1(key);
      DeleteL1(newKey);
      return Ok(true);
    }

    method Unlink(keys: seq<string>) returns (deleted: nat)
      requires Valid()
      modifies this, db
      ensures Did(KvOps.Unlink(keys), Count(deleted))
    {
      hide DropKeys, SortedKeys, AfterUnlink;
      var found := set k | k in keys && k in db.rows;
      UnlinkDeletes(cfg, l1, db.rows, keys, found);
      if |keys| == 0 { return 0; }
      var rows := SortedKeys(found);
      SortedKeysFacts(found);
      db.rows := db.rows - found;
      DeleteRowsL1(rows);
      deleted := |rows|;
    }

    // ---- invalidation ----

    method Invalidate(key: string)
      requires Valid()
      modifies this
      ensures Did(KvOps.Invalidate(key), Done)
    {
      hide Drop;
      DeleteL1(key);
    }

    method HandleNotification(payload: Option<Notification>) returns (handled: bool)
      requires Valid()
      modifies this
      ensures Did(Receive(payload), Flag(handled))
    {
      hide Drop, RemovePrefix;
      if payload.None? || payload.value.ns != cfg.ns || payload.value.senderId == cfg.instanceId { return false; }
      var event := payload.value.event;
      match event {
        case SetKey(key) =>
          if key != "" { DeleteL1(key); }
          return true;
        case DeleteKey(key) =>
          if key != "" { DeleteL1(key); }
          return true;
        case ClearPrefixOf(prefix) =>
          if prefix == "" { return false; }
          DeletePrefixL1(prefix);
          return true;
        case ClearAll =>
          l1 := [];
          return true;
        case UnknownEvent =>
          return false;
      }
    }
  }

  /** value = $3::jsonb; a NULL parameter equals nothing. */
  predicate LiveHolds(t: Table, key: string, expected: Option<Value>) {
    key in t && expected == Some(t[key].value)
  }

  lemma NothingMissing(cfg: Config, p: Partial, t: Table, now: int, candidates: seq<string>)
    requires p.missing == []
    ensures SelectIn(t, now, p.missing, candidates) == [] && DropAbsent(cfg, p.l1, p.missing, p.found) == p.l1
  {
    var rows := SelectIn(t, now, p.missing, candidates);
    if rows != [] { SelectedKeys(t, now, p.missing, candidates, rows[0]); }
  }

  /** What the statement deletes; naming no key changes nothing. */
  lemma UnlinkDeletes(cfg: Config, l1: Slots, t: Table, keys: seq<string>, found: set<string>)
    requires found == set k | k in keys && k in t
    ensures AfterUnlink(cfg, l1, t, keys) == Outcome(DropKeys(cfg, l1, found), t - found, Count(|found|), None)
    ensures keys == [] ==> AfterUnlink(cfg, l1, t, keys) == Outcome(l1, t, Count(0), None)
  {
    if keys == [] {
      assert found == {} && t - {} == t;
      NothingDropped(cfg, l1);
    }
  }

  lemma NothingDropped(cfg: Config, l1: Slots)
    ensures DropKeys(cfg, l1, {}) == l1
  {
    KeepAll(l1, NotIn({}));
  }
}
