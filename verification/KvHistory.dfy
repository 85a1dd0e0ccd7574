/**
  The L1 calls each cache operation makes, in order; through them the eviction theorems hold for every
  reachable cache.
*/
module KvHistory {
  import opened Wrappers
  import opened L1
  import opened Lru
  import opened KvOps

  function Ran(cfg: Config, l1: Slots, now: int, calls: seq<Call>): Slots {
    if calls == [] then l1 else After(cfg, Ran(cfg, l1, now, calls[..|calls| - 1]), now, calls[|calls| - 1])
  }

  lemma {:induction false} RanConcat(cfg: Config, l1: Slots, now: int, a: seq<Call>, b: seq<Call>)
    ensures Ran(cfg, l1, now, a + b) == Ran(cfg, Ran(cfg, l1, now, a), now, b)
  {
    hide After;
    if b == [] {
      assert a + b == a;
    } else {
      assert (a + b)[..|a + b| - 1] == a + b[..|b| - 1];
      RanConcat(cfg, l1, now, a, b[..|b| - 1]);
    }
  }

  function GetCalls(keys: seq<string>): seq<Call> {
    if keys == [] then [] else GetCalls(keys[..|keys| - 1]) + [GetL1(keys[|keys| - 1])]
  }

  function RowCalls(t: Table, rows: seq<string>): seq<Call>
    requires forall k :: k in rows ==> k in t
  {
    if rows == [] then []
    else
      var key := rows[|rows| - 1];
      RowCalls(t, rows[..|rows| - 1]) + if key == "" then [] else [SetL1(key, t[key].value, t[key].expiresAt)]
  }

  function AbsentCalls(missing: seq<string>, found: map<string, Value>): seq<Call> {
    if missing == [] then []
    else
      var key := missing[|missing| - 1];
      AbsentCalls(missing[..|missing| - 1], found) + if key in found then [] else [DeleteL1(key)]
  }

  function EntryCalls(entries: seq<(string, Value)>, expiresAt: Option<int>): seq<Call> {
    if entries == [] then []
    else EntryCalls(entries[..|entries| - 1], expiresAt) + [SetL1(entries[|entries| - 1].0, entries[|entries| - 1].1, expiresAt)]
  }

  function ReadCalls(cfg: Config, l1: Slots, t: Table, now: int, key: string): seq<Call> {
    [GetL1(key)]
    + if Lookup(cfg, l1, now, key).0.Some? then []
      else if LiveKey(t, key, now) then [SetL1(key, t[key].value, t[key].expiresAt)]
      else [DeleteL1(key)]
  }

  function BatchCalls(cfg: Config, l1: Slots, t: Table, now: int, keys: seq<string>, order: seq<string>): seq<Call> {
    var p := FromL1(cfg, l1, now, keys);
    var rows := SelectIn(t, now, p.missing, order + p.missing);
    SelectedAreLive(t, now, p.missing, order + p.missing);
    GetCalls(keys) + RowCalls(t, rows) + AbsentCalls(p.missing, FromRows(cfg, p, t, now, rows).found)
  }

  function WriteCalls(t: Table, now: int, op: Op): seq<Call> {
    match op
    case Set(key, value, ttlMs, nx, xx, mode, _) =>
      var m := ResolveSetMode(nx, xx, mode);
      if m.Err? then []
      else if m.value.Xx? && !LiveKey(t, key, now) then [DeleteL1(key)]
      else if m.value.Nx? && LiveKey(t, key, now) then []
      else [SetL1(key, value, ExpiryAfter(now, NormalizeTtlMs(ttlMs)))]
    case MSet(entries, ttlMs, _) =>
      if DistinctKeys(entries) then EntryCalls(entries, ExpiryAfter(now, NormalizeTtlMs(ttlMs))) else []
    case CompareAndSwap(key, _, next, _, ttlMs, _) =>
      if SwapWrites(t, now, op) then [SetL1(key, next, ExpiryAfter(now, NormalizeTtlMs(ttlMs)))] else [DeleteL1(key)]
    case Expire(key, ms, _) =>
      if LiveKey(t, key, now) then [SetL1(key, t[key].value, ExpiryAfter(now, NormalizeTtlMs(Some(ms))))] else [DeleteL1(key)]
    case Persist(key, _) => if LiveKey(t, key, now) then [SetL1(key, t[key].value, None)] else [DeleteL1(key)]
    case Delete(key, _) => [DeleteL1(key)]
    case ClearPrefix(prefix, _) => [DeleteKeys(KeysWithPrefix(t, prefix))]
    case ClearNamespace(_) => [ClearL1]
    case CleanupExpired(picked, _) => [DeleteKeys(ExpiredAmong(t, now, picked)), CleanupL1]
    case Invalidate(key) => [DeleteL1(key)]
    case Unlink(keys) => [DeleteKeys(set k | k in keys && k in t)]
    case _ => []
  }

  function EventCalls(event: Event): seq<Call> {
    match event
    case SetKey(key) => if key == "" then [] else [DeleteL1(key)]
    case DeleteKey(key) => if key == "" then [] else [DeleteL1(key)]
    case ClearPrefixOf(prefix) => if prefix == "" then [] else [DeletePrefix(prefix)]
    case ClearAll => [ClearL1]
    case UnknownEvent => []
  }

  /** The L1 calls of an operation. */
  function CallsOf(cfg: Config, l1: Slots, t: Table, now: int, op: Op): seq<Call> {
    match op
    case Get(key) => ReadCalls(cfg, l1, t, now, key)
    case Type(key) => ReadCalls(cfg, l1, t, now, key)
    case MGet(keys, order) => BatchCalls(cfg, l1, t, now, keys, order)
    case Rename(key, newKey, refused) =>
      if key == newKey then ReadCalls(cfg, l1, t, now, key)
      else if LiveKey(t, key, now) && !(refused && newKey in t) then [DeleteL1(key), DeleteL1(newKey)]
      else []
    case Receive(payload) => if payload.Some? && Heeds(cfg, payload.value) then EventCalls(payload.value.event) else []
    case _ => WriteCalls(t, now, op)
  }

  // ---- each loop is its calls ----

  lemma {:induction false} FromL1IsCalls(cfg: Config, l1: Slots, now: int, keys: seq<string>)
    ensures FromL1(cfg, l1, now, keys).l1 == Ran(cfg, l1, now, GetCalls(keys))
  {
    hide Lookup;
    if keys != [] {
      FromL1IsCalls(cfg, l1, now, keys[..|keys| - 1]);
      RanConcat(cfg, l1, now, GetCalls(keys[..|keys| - 1]), [GetL1(keys[|keys| - 1])]);
      RanOne(cfg, FromL1(cfg, l1, now, keys[..|keys| - 1]).l1, now, GetL1(keys[|keys| - 1]));
    }
  }

  lemma RanOne(cfg: Config, l1: Slots, now: int, call: Call)
    ensures Ran(cfg, l1, now, [call]) == After(cfg, l1, now, call)
  {
    hide After;
    assert [call][..0] == [];
  }

  lemma {:induction false} FromRowsIsCalls(cfg: Config, p: Partial, t: Table, now: int, rows: seq<string>)
    requires forall k :: k in rows ==> k in t
    ensures FromRows(cfg, p, t, now, rows).l1 == Ran(cfg, p.l1, now, RowCalls(t, rows))
  {
    hide Put;
    if rows != [] {
      var front, key := rows[..|rows| - 1], rows[|rows| - 1];
      FromRowsIsCalls(cfg, p, t, now, front);
      if key != "" {
        var call := SetL1(key, t[key].value, t[key].expiresAt);
        RanConcat(cfg, p.l1, now, RowCalls(t, front), [call]);
        RanOne(cfg, FromRows(cfg, p, t, now, front).l1, now, call);
      } else {
        assert RowCalls(t, rows) == RowCalls(t, front);
      }
    }
  }

  lemma {:induction false} DropAbsentIsCalls(cfg: Config, l1: Slots, now: int, missing: seq<string>, found: map<string, Value>)
    ensures DropAbsent(cfg, l1, missing, found) == Ran(cfg, l1, now, AbsentCalls(missing, found))
  {
    hide Drop;
    if missing != [] {
      var front, key := missing[..|missing| - 1], missing[|missing| - 1];
      DropAbsentIsCalls(cfg, l1, now, front, found);
      if key !in found {
        RanConcat(cfg, l1, now, AbsentCalls(front, found), [DeleteL1(key)]);
        RanOne(cfg, DropAbsent(cfg, l1, front, found), now, DeleteL1(key));
      } else {
        assert AbsentCalls(missing, found) == AbsentCalls(front, found);
      }
    }
  }

  lemma {:induction false} PutAllIsCalls(cfg: Config, l1: Slots, now: int, entries: seq<(string, Value)>, expiresAt: Option<int>)
    ensures PutAll(cfg, l1, now, entries, expiresAt) == Ran(cfg, l1, now, EntryCalls(entries, expiresAt))
  {
    hide Put;
    if entries != [] {
      var front := entries[..|entries| - 1];
      var call := SetL1(entries[|entries| - 1].0, entries[|entries| - 1].1, expiresAt);
      PutAllIsCalls(cfg, l1, now, front, expiresAt);
      RanConcat(cfg, l1, now, EntryCalls(front, expiresAt), [call]);
      RanOne(cfg, PutAll(cfg, l1, now, front, expiresAt), now, call);
    }
  }

  lemma RanTwo(cfg: Config, l1: Slots, now: int, a: Call, b: Call)
    ensures Ran(cfg, l1, now, [a, b]) == After(cfg, After(cfg, l1, now, a), now, b)
  {
    hide After;
    assert [a, b] == [a] + [b];
    RanConcat(cfg, l1, now, [a], [b]);
    RanOne(cfg, l1, now, a);
    RanOne(cfg, After(cfg, l1, now, a), now, b);
  }

  lemma ReadIsCalls(cfg: Config, l1: Slots, t: Table, now: int, key: string)
    ensures AfterGet(cfg, l1, t, now, key).1 == Ran(cfg, l1, now, ReadCalls(cfg, l1, t, now, key))
  {
    hide Lookup, Put, Drop, Ran;
    if Lookup(cfg, l1, now, key).0.Some? {
      assert ReadCalls(cfg, l1, t, now, key) == [GetL1(key)];
      RanOne(cfg, l1, now, GetL1(key));
    } else if LiveKey(t, key, now) {
      assert ReadCalls(cfg, l1, t, now, key) == [GetL1(key), SetL1(key, t[key].value, t[key].expiresAt)];
      RanTwo(cfg, l1, now, GetL1(key), SetL1(key, t[key].value, t[key].expiresAt));
    } else {
      assert ReadCalls(cfg, l1, t, now, key) == [GetL1(key), DeleteL1(key)];
      RanTwo(cfg, l1, now, GetL1(key), DeleteL1(key));
    }
  }

  lemma BatchIsCalls(cfg: Config, l1: Slots, t: Table, now: int, keys: seq<string>, order: seq<string>)
    ensures AfterMGet(cfg, l1, t, now, keys, order).1 == Ran(cfg, l1, now, BatchCalls(cfg, l1, t, now, keys, order))
  {
    hide FromL1, FromRows, DropAbsent, SelectIn, Ran, GetCalls, RowCalls, AbsentCalls;
    var p := FromL1(cfg, l1, now, keys);
    var rows := SelectIn(t, now, p.missing, order + p.missing);
    SelectedAreLive(t, now, p.missing, order + p.missing);
    var q := FromRows(cfg, p, t, now, rows);
    FromL1IsCalls(cfg, l1, now, keys);
    FromRowsIsCalls(cfg, p, t, now, rows);
    DropAbsentIsCalls(cfg, q.l1, now, p.missing, q.found);
    RanConcat(cfg, l1, now, GetCalls(keys), RowCalls(t, rows));
    RanConcat(cfg, l1, now, GetCalls(keys) + RowCalls(t, rows), AbsentCalls(p.missing, q.found));
  }

  lemma RanNone(cfg: Config, l1: Slots, now: int)
    ensures Ran(cfg, l1, now, []) == l1
  {}

  lemma SetIsCalls(cfg: Config, l1: Slots, t: Table, now: int, op: Op)
    requires op.Set? || op.CompareAndSwap? || op.Expire? || op.Persist?
    ensures Apply(cfg, l1, t, now, op).l1 == Ran(cfg, l1, now, WriteCalls(t, now, op))
  {
    hide Put, Drop, Ran, SwapWrites, LiveKey, ResolveSetMode, NormalizeTtlMs, ExpiryAfter;
    RanNone(cfg, l1, now);
    var calls := WriteCalls(t, now, op);
    if calls != [] { RanOne(cfg, l1, now, calls[0]); }
  }

  lemma MSetIsCalls(cfg: Config, l1: Slots, t: Table, now: int, op: Op)
    requires op.MSet?
    ensures Apply(cfg, l1, t, now, op).l1 == Ran(cfg, l1, now, WriteCalls(t, now, op))
  {
    hide PutAll, Ran, EntryCalls, WithEntries, DistinctKeys, NormalizeTtlMs, ExpiryAfter;
    RanNone(cfg, l1, now);
    PutAllIsCalls(cfg, l1, now, op.entries, ExpiryAfter(now, NormalizeTtlMs(op.ttlMs)));
    if op.entries == [] { NoEntryCalls(op.entries, ExpiryAfter(now, NormalizeTtlMs(op.ttlMs))); }
  }

  lemma DeleteIsCalls(cfg: Config, l1: Slots, t: Table, now: int, op: Op)
    requires op.Delete? || op.ClearNamespace? || op.Invalidate?
    ensures Apply(cfg, l1, t, now, op).l1 == Ran(cfg, l1, now, WriteCalls(t, now, op))
  {
    hide Drop, Ran;
    RanOne(cfg, l1, now, if op.ClearNamespace? then ClearL1 else DeleteL1(op.key));
  }

  lemma ClearPrefixIsCalls(cfg: Config, l1: Slots, t: Table, now: int, op: Op)
    requires op.ClearPrefix?
    ensures Apply(cfg, l1, t, now, op).l1 == Ran(cfg, l1, now, WriteCalls(t, now, op))
  {
    hide DropKeys, Ran, KeysWithPrefix;
    RanOne(cfg, l1, now, DeleteKeys(KeysWithPrefix(t, op.prefix)));
  }

  lemma UnlinkIsCalls(cfg: Config, l1: Slots, t: Table, now: int, op: Op)
    requires op.Unlink?
    ensures Apply(cfg, l1, t, now, op).l1 == Ran(cfg, l1, now, WriteCalls(t, now, op))
  {
    hide DropKeys, Ran;
    RanOne(cfg, l1, now, WriteCalls(t, now, op)[0]);
  }

  lemma CleanupIsCalls(cfg: Config, l1: Slots, t: Table, now: int, op: Op)
    requires op.CleanupExpired?
    ensures Apply(cfg, l1, t, now, op).l1 == Ran(cfg, l1, now, WriteCalls(t, now, op))
  {
    hide DropKeys, Cleanup, Ran, ExpiredAmong;
    RanTwo(cfg, l1, now, DeleteKeys(ExpiredAmong(t, now, op.picked)), CleanupL1);
  }

  lemma WriteIsCalls(cfg: Config, l1: Slots, t: Table, now: int, op: Op)
    requires !op.Get? && !op.Type? && !op.MGet? && !op.Rename? && !op.Receive?
    ensures Apply(cfg, l1, t, now, op).l1 == Ran(cfg, l1, now, WriteCalls(t, now, op))
  {
    hide AfterSet, AfterMSet, AfterDelete, AfterClearPrefix, AfterCleanupExpired, AfterCompareAndSwap, AfterNewExpiry, AfterUnlink,
         AfterKeys, AfterScan, Drop, Ran, RemainingMs, EntryCalls, DistinctKeys, KeysWithPrefix, ExpiredAmong, SwapWrites, LiveKey,
         ResolveSetMode, NormalizeTtlMs, ExpiryAfter;
    RanNone(cfg, l1, now);
    if op.Set? || op.CompareAndSwap? || op.Expire? || op.Persist? {
      SetIsCalls(cfg, l1, t, now, op);
    } else if op.MSet? {
      MSetIsCalls(cfg, l1, t, now, op);
    } else if op.CleanupExpired? {
      CleanupIsCalls(cfg, l1, t, now, op);
    } else if op.ClearPrefix? {
      ClearPrefixIsCalls(cfg, l1, t, now, op);
    } else if op.Unlink? {
      UnlinkIsCalls(cfg, l1, t, now, op);
    } else if op.Delete? || op.ClearNamespace? || op.Invalidate? {
      DeleteIsCalls(cfg, l1, t, now, op);
    }
  }

  lemma NoEntryCalls(entries: seq<(string, Value)>, expiresAt: Option<int>)
    requires entries == []
    ensures EntryCalls(entries, expiresAt) == []
  {}

  lemma ReceiveIsCalls(cfg: Config, l1: Slots, now: int, n: Notification)
    requires Heeds(cfg, n)
    ensures AfterReceive(cfg, l1, Some(n)).1 == Ran(cfg, l1, now, EventCalls(n.event))
  {
    hide Drop, RemovePrefix, Ran;
    RanNone(cfg, l1, now);
    var calls := EventCalls(n.event);
    if calls != [] {
      RanOne(cfg, l1, now, calls[0]);
      assert calls == [calls[0]];
    }
  }

  /** An operation reaches L1 only through these calls. */
  lemma OpIsCalls(cfg: Config, l1: Slots, t: Table, now: int, op: Op)
    ensures Apply(cfg, l1, t, now, op).l1 == Ran(cfg, l1, now, CallsOf(cfg, l1, t, now, op))
  {
    hide AfterGet, AfterMGet, Ran, ReadCalls, BatchCalls, WriteCalls, EventCalls, Drop, LiveKey, Heeds;
    RanNone(cfg, l1, now);
    match op
    case Get(key) => ReadIsCalls(cfg, l1, t, now, key);
    case Type(key) => ReadIsCalls(cfg, l1, t, now, key);
    case MGet(keys, order) => BatchIsCalls(cfg, l1, t, now, keys, order);
    case Rename(key, newKey, _) =>
      ReadIsCalls(cfg, l1, t, now, key);
      RanTwo(cfg, l1, now, DeleteL1(key), DeleteL1(newKey));
    case Receive(payload) => if payload.Some? && Heeds(cfg, payload.value) { ReceiveIsCalls(cfg, l1, now, payload.value); }
    case _ => WriteIsCalls(cfg, l1, t, now, op);
  }

  lemma {:induction false} RanKeepsUnique(cfg: Config, l1: Slots, now: int, calls: seq<Call>)
    requires UniqueKeys(l1)
    ensures UniqueKeys(Ran(cfg, l1, now, calls))
  {
    hide After, UniqueKeys;
    if calls != [] {
      RanKeepsUnique(cfg, l1, now, calls[..|calls| - 1]);
      CallKeepsUnique(cfg, Ran(cfg, l1, now, calls[..|calls| - 1]), now, calls[|calls| - 1]);
    }
  }

  /** L1 stays a map: no key has two slots. */
  lemma OpKeepsUnique(cfg: Config, l1: Slots, t: Table, now: int, op: Op)
    requires UniqueKeys(l1)
    ensures UniqueKeys(Apply(cfg, l1, t, now, op).l1)
  {
    hide Apply, Ran, CallsOf, UniqueKeys;
    OpIsCalls(cfg, l1, t, now, op);
    RanKeepsUnique(cfg, l1, now, CallsOf(cfg, l1, t, now, op));
  }

  // ---- runs of operations ----

  /** An operation, its time and the table it meets, which other instances may have changed meanwhile. */
  datatype Timed = Timed(now: int, table: Table, op: Op)

  function Extend(h: History, now: int, calls: seq<Call>): History {
    if calls == [] then h else Then(Extend(h, now, calls[..|calls| - 1]), now, calls[|calls| - 1])
  }

  lemma {:induction false} ExtendIsRan(cfg: Config, h: History, now: int, calls: seq<Call>)
    ensures Cache(cfg, Extend(h, now, calls)) == Ran(cfg, Cache(cfg, h), now, calls)
  {
    hide After;
    if calls != [] { ExtendIsRan(cfg, h, now, calls[..|calls| - 1]); }
  }

  /** The L1 of one instance after a run of its operations. */
  function RunOps(cfg: Config, l1: Slots, run: seq<Timed>): Slots
    decreases |run|
  {
    if run == [] then l1
    else RunOps(cfg, Apply(cfg, l1, run[0].table, run[0].now, run[0].op).l1, run[1..])
  }

  function RunHistory(cfg: Config, h: History, run: seq<Timed>): History
    decreases |run|
  {
    if run == [] then h
    else
      var Timed(now, t, op) := run[0];
      RunHistory(cfg, Extend(h, now, CallsOf(cfg, Cache(cfg, h), t, now, op)), run[1..])
  }

  /** Every reachable cache is the result of its history of calls. */
  lemma {:induction false} RunIsHistory(cfg: Config, h: History, run: seq<Timed>)
    ensures RunOps(cfg, Cache(cfg, h), run) == Cache(cfg, RunHistory(cfg, h, run))
    decreases |run|
  {
    hide Apply, CallsOf, After;
    if run != [] {
      var Timed(now, t, op) := run[0];
      var l1 := Cache(cfg, h);
      OpIsCalls(cfg, l1, t, now, op);
      ExtendIsRan(cfg, h, now, CallsOf(cfg, l1, t, now, op));
      RunIsHistory(cfg, Extend(h, now, CallsOf(cfg, l1, t, now, op)), run[1..]);
    }
  }

  /**
    Least-recently-used eviction of every reachable cache: at most l1Max slots, in the order of last use, and a
    slot that was neither invalidated nor found expired is missing only if l1Max other keys were used since.
  */
  lemma ReachableCacheIsLru(cfg: Config, run: seq<Timed>, key: string)
    ensures var l1, h := RunOps(cfg, [], run), RunHistory(cfg, Start, run);
      && WithinMax(cfg, l1) && InUseOrder(cfg, h, l1) && UniqueKeys(l1)
      && (LastSlot(cfg, h, key).Some? && SparedSince(cfg, h, key) && |UsedSince(cfg, h, key)| < cfg.l1Max
          ==> LastSlot(cfg, h, key).value in l1)
  {
    hide RunOps, RunHistory, LastUse, LastSlot, SparedSince, UsedSince;
    var h := RunHistory(cfg, Start, run);
    RunIsHistory(cfg, Start, run);
    SizeIsBounded(cfg, h);
    MapOrderIsUseOrder(cfg, h);
    if LastSlot(cfg, h, key).Some? && SparedSince(cfg, h, key) { SurvivesUntilMaxOthers(cfg, h, key); }
  }
}
