/**
  Bounded staleness without any help from notifications: over every run of any number of instances, with every
  operation and with notifications lost, late or never published, a value served from L1 was the live row's
  value less than l1TtlMs ago.
*/
module KvStaleness {
  import opened Wrappers
  import opened L1
  import opened KvOps
  import opened KvEffects
  import opened KvCoherence

  /** A run from empty caches, newest act last. */
  datatype Run = Begin(table: Table, now: int) | Next(before: Run, act: Act)

  /** The state a run ends in, if each of its acts was possible. */
  function Final(cfgs: seq<Config>, run: Run): (r: Option<System>)
    ensures r.Some? ==> Shaped(cfgs, r.value)
  {
    match run
    case Begin(table, now) => Some(Cold(cfgs, table, now))
    case Next(before, act) =>
      var s := Final(cfgs, before);
      if s.None? || !Enabled(cfgs, s.value, act) then None else Some(Step(cfgs, s.value, act))
  }

  predicate LiveValueIs(s: System, key: string, value: Value) {
    LiveKey(s.table, key, s.now) && s.table[key].value == value
  }

  /** At some instant of the run, no earlier than `since`, the live row of the key held the value. */
  predicate WasLive(cfgs: seq<Config>, run: Run, key: string, value: Value, since: int) {
    var s := Final(cfgs, run);
    s.Some? && ((since <= s.value.now && LiveValueIs(s.value, key, value))
      || (run.Next? && WasLive(cfgs, run.before, key, value, since)))
  }

  predicate Backed(cfgs: seq<Config>, run: Run, ttlMs: int, slot: Slot) {
    slot.expiresAt.Some? && WasLive(cfgs, run, slot.key, slot.value, slot.expiresAt.value - ttlMs)
  }

  ghost predicate AllBacked(cfgs: seq<Config>, run: Run, i: nat, l1: Slots)
    requires i < |cfgs|
  {
    WithinMax(cfgs[i], l1) && forall slot :: slot in l1 ==> Backed(cfgs, run, cfgs[i].l1TtlMs, slot)
  }

  lemma {:induction false} EarlierIsWeaker(cfgs: seq<Config>, run: Run, key: string, value: Value, since: int, earlier: int)
    requires WasLive(cfgs, run, key, value, since) && earlier <= since
    ensures WasLive(cfgs, run, key, value, earlier)
  {
    hide Final, LiveValueIs;
    if run.Next? && WasLive(cfgs, run.before, key, value, since) { EarlierIsWeaker(cfgs, run.before, key, value, since, earlier); }
  }

  lemma StaysBacked(cfgs: seq<Config>, run: Run, ttlMs: int, slot: Slot)
    requires run.Next? && Final(cfgs, run).Some? && Backed(cfgs, run.before, ttlMs, slot)
    ensures Backed(cfgs, run, ttlMs, slot)
  {
    hide Final, LiveValueIs;
  }

  /** A copy made now is backed by the row it copies. */
  lemma FilledIsBacked(cfgs: seq<Config>, run: Run, cfg: Config, slot: Slot)
    requires Final(cfgs, run).Some? && cfg.l1TtlMs > 0
    requires var s := Final(cfgs, run).value; NewlyFilled(cfg, s.now, s.table, slot)
    ensures Backed(cfgs, run, cfg.l1TtlMs, slot)
  {
    hide Final;
  }

  lemma StepKeepsBacked(cfgs: seq<Config>, run: Run, i: nat)
    requires run.Next? && Final(cfgs, run).Some? && i < |cfgs| && cfgs[i].l1TtlMs > 0
    requires AllBacked(cfgs, run.before, i, Final(cfgs, run.before).value.l1s[i])
    ensures AllBacked(cfgs, run, i, Final(cfgs, run).value.l1s[i])
  {
    hide Apply, AfterReceive, Backed, WithinMax, NewlyFilled;
    var s, t := Final(cfgs, run.before).value, Final(cfgs, run).value;
    assert t == Step(cfgs, s, run.act);
    var old', new' := s.l1s[i], t.l1s[i];
    if run.act.Do? && run.act.i == i {
      OpLocalEffect(cfgs[i], old', s.table, s.now, run.act.op);
    } else if run.act.Deliver? && run.act.i == i {
      ReceiveSlots(cfgs[i], old', Some(run.act.n));
    } else {
      assert new' == old';
    }
    forall slot | slot in new' ensures Backed(cfgs, run, cfgs[i].l1TtlMs, slot) {
      if slot in old' {
        StaysBacked(cfgs, run, cfgs[i].l1TtlMs, slot);
      } else {
        assert OldSlot(old', s.table, s.now, t.table, slot) || NewlyFilled(cfgs[i], s.now, t.table, slot);
        FilledIsBacked(cfgs, run, cfgs[i], slot);
      }
    }
  }

  /** Every slot of every reachable cache expires at most l1TtlMs after an instant at which it was true. */
  lemma {:induction false} SlotsAreBacked(cfgs: seq<Config>, run: Run, i: nat)
    requires Final(cfgs, run).Some? && i < |cfgs| && cfgs[i].l1TtlMs > 0
    ensures AllBacked(cfgs, run, i, Final(cfgs, run).value.l1s[i])
  {
    hide Backed, Step;
    if run.Next? {
      SlotsAreBacked(cfgs, run.before, i);
      StepKeepsBacked(cfgs, run, i);
    }
  }

  lemma FreshIsRecent(cfgs: seq<Config>, run: Run, i: nat, slot: Slot)
    requires Final(cfgs, run).Some? && i < |cfgs| && cfgs[i].l1TtlMs > 0
    requires slot in Final(cfgs, run).value.l1s[i] && Fresh(slot, Final(cfgs, run).value.now)
    ensures WasLive(cfgs, run, slot.key, slot.value, Final(cfgs, run).value.now - cfgs[i].l1TtlMs + 1)
  {
    hide Final, WasLive;
    SlotsAreBacked(cfgs, run, i);
    var ttlMs, now := cfgs[i].l1TtlMs, Final(cfgs, run).value.now;
    assert Backed(cfgs, run, ttlMs, slot);
    EarlierIsWeaker(cfgs, run, slot.key, slot.value, slot.expiresAt.value - ttlMs, now - ttlMs + 1);
  }

  /** A hit at time t was the live value at an instant in (t - l1TtlMs, t]. */
  lemma HitIsRecent(cfgs: seq<Config>, run: Run, i: nat, key: string)
    requires Final(cfgs, run).Some? && i < |cfgs| && cfgs[i].l1TtlMs > 0
    ensures var s := Final(cfgs, run).value;
      var hit := Lookup(cfgs[i], s.l1s[i], s.now, key).0;
      hit.Some? ==> WasLive(cfgs, run, key, hit.value, s.now - cfgs[i].l1TtlMs + 1)
  {
    hide Final, WasLive, Lookup;
    SlotsAreBacked(cfgs, run, i);
    var s := Final(cfgs, run).value;
    LookupSlots(cfgs[i], s.l1s[i], s.now, key);
    var hit := Lookup(cfgs[i], s.l1s[i], s.now, key).0;
    if hit.Some? {
      var slot :| slot in s.l1s[i] && slot.key == key && Fresh(slot, s.now) && slot.value == hit.value;
      FreshIsRecent(cfgs, run, i, slot);
    }
  }

  lemma LiveNowIsRecent(cfgs: seq<Config>, run: Run, key: string, value: Value, ttlMs: int)
    requires Final(cfgs, run).Some? && ttlMs > 0 && LiveValueIs(Final(cfgs, run).value, key, value)
    ensures WasLive(cfgs, run, key, value, Final(cfgs, run).value.now - ttlMs + 1)
  {
    hide Final, LiveValueIs;
  }

  /** What get returns was the live value at an instant in (t - l1TtlMs, t]. */
  lemma GetIsRecent(cfgs: seq<Config>, run: Run, i: nat, key: string)
    requires Final(cfgs, run).Some? && i < |cfgs| && cfgs[i].l1TtlMs > 0
    ensures var s := Final(cfgs, run).value;
      var value := AfterGet(cfgs[i], s.l1s[i], s.table, s.now, key).0;
      value.Some? ==> WasLive(cfgs, run, key, value.value, s.now - cfgs[i].l1TtlMs + 1)
  {
    hide Final, WasLive, Lookup, Put, Drop;
    HitIsRecent(cfgs, run, i, key);
    var s := Final(cfgs, run).value;
    if LiveKey(s.table, key, s.now) { LiveNowIsRecent(cfgs, run, key, s.table[key].value, cfgs[i].l1TtlMs); }
  }

  /** L1 answers in mget are fresh slots of the cache before it. */
  lemma {:induction false} BatchHits(cfg: Config, l1: Slots, now: int, keys: seq<string>, key: string)
    requires WithinMax(cfg, l1)
    ensures var p := FromL1(cfg, l1, now, keys);
      && WithinMax(cfg, p.l1) && (forall s :: s in p.l1 ==> s in l1)
      && (key in p.found ==> exists s :: s in l1 && s.key == key && Fresh(s, now) && s.value == p.found[key])
  {
    hide Lookup, WithinMax, Fresh;
    if keys != [] {
      var front, last := keys[..|keys| - 1], keys[|keys| - 1];
      BatchHits(cfg, l1, now, front, key);
      var p := FromL1(cfg, l1, now, front);
      LookupSlots(cfg, p.l1, now, last);
    }
  }

  lemma {:induction false} RowsFound(cfg: Config, p: Partial, t: Table, now: int, rows: seq<string>, key: string)
    requires forall k :: k in rows ==> k in t
    ensures var q := FromRows(cfg, p, t, now, rows);
      key in q.found ==> ((key in p.found && q.found[key] == p.found[key]) || (key in rows && q.found[key] == t[key].value))
  {
    hide Put;
    if rows != [] { RowsFound(cfg, p, t, now, rows[..|rows| - 1], key); }
  }

  /** Every value mget returns was the live value of its key at an instant in (t - l1TtlMs, t]. */
  lemma MGetIsRecent(cfgs: seq<Config>, run: Run, i: nat, keys: seq<string>, order: seq<string>, key: string)
    requires Final(cfgs, run).Some? && i < |cfgs| && cfgs[i].l1TtlMs > 0
    ensures var s := Final(cfgs, run).value;
      var found := AfterMGet(cfgs[i], s.l1s[i], s.table, s.now, keys, order).0;
      key in found ==> WasLive(cfgs, run, key, found[key], s.now - cfgs[i].l1TtlMs + 1)
  {
    hide Final, WasLive, FromL1, FromRows, DropAbsent, SelectIn, WithinMax;
    var s := Final(cfgs, run).value;
    SlotsAreBacked(cfgs, run, i);
    BatchHits(cfgs[i], s.l1s[i], s.now, keys, key);
    var p := FromL1(cfgs[i], s.l1s[i], s.now, keys);
    var rows := SelectIn(s.table, s.now, p.missing, order + p.missing);
    SelectedAreLive(s.table, s.now, p.missing, order + p.missing);
    RowsFound(cfgs[i], p, s.table, s.now, rows, key);
    var found := AfterMGet(cfgs[i], s.l1s[i], s.table, s.now, keys, order).0;
    if key in found {
      if key in rows && found[key] == s.table[key].value {
        LiveNowIsRecent(cfgs, run, key, s.table[key].value, cfgs[i].l1TtlMs);
      } else {
        var slot :| slot in s.l1s[i] && slot.key == key && Fresh(slot, s.now) && slot.value == p.found[key];
        FreshIsRecent(cfgs, run, i, slot);
      }
    }
  }

  // ---- without a local TTL ----

  /** Instance i reads a row, instance j unlinks it, and n milliseconds pass. */
  function UnlinkedRun(key: string, value: Value, now: int, i: nat, j: nat, n: nat): Run {
    Next(Next(Next(Begin(map[key := Row(value, None)], now), Do(i, Get(key))), Do(j, Unlink([key]))), Tick(n))
  }

  lemma FinalNext(cfgs: seq<Config>, run: Run)
    requires run.Next? && Final(cfgs, run.before).Some? && Enabled(cfgs, Final(cfgs, run.before).value, run.act)
    ensures Final(cfgs, run) == Some(Step(cfgs, Final(cfgs, run.before).value, run.act))
  {
    hide Step;
  }

  lemma FinalBegin(cfgs: seq<Config>, run: Run)
    requires run.Begin?
    ensures Final(cfgs, run) == Some(Cold(cfgs, run.table, run.now))
  {}

  lemma UnlinkStep(cfgs: seq<Config>, s: System, key: string, i: nat, j: nat)
    requires Shaped(cfgs, s) && i < |cfgs| && j < |cfgs| && i != j && s.table.Keys == {key}
    ensures var t := Step(cfgs, s, Do(j, Unlink([key]))); t.table == map[] && t.now == s.now && t.l1s[i] == s.l1s[i]
  {
    hide DropKeys;
  }

  lemma UnlinkedState(cfgs: seq<Config>, key: string, value: Value, now: int, i: nat, j: nat, n: nat)
    requires i < |cfgs| && j < |cfgs| && i != j && Caches(cfgs[i]) && cfgs[i].l1TtlMs <= 0
    ensures var run := UnlinkedRun(key, value, now, i, j, n);
      && Final(cfgs, run.before).Some? && Final(cfgs, run.before).value.table == map[]
      && Final(cfgs, run.before.before).Some? && Final(cfgs, run.before.before).value.now == now
      && Final(cfgs, run).Some? && Final(cfgs, run).value.table == map[] && Final(cfgs, run).value.now == now + n
      && Final(cfgs, run).value.l1s[i] == [Slot(key, value, None)]
  {
    hide Final, Apply, Caches;
    var row, run := Row(value, None), UnlinkedRun(key, value, now, i, j, n);
    var read := OneCopy(cfgs, key, row, now, i, Slot(key, value, None));
    FirstRead(cfgs, key, row, now, i);
    FinalBegin(cfgs, run.before.before.before);
    FinalNext(cfgs, run.before.before);
    FinalNext(cfgs, run.before);
    FinalNext(cfgs, run);
    UnlinkStep(cfgs, read, key, i, j);
  }

  /** Without a local TTL there is no bound: for every n a run ends in a hit on a value that was last live n milliseconds before. */
  lemma WithoutTtlStalenessIsUnbounded(cfgs: seq<Config>, key: string, value: Value, now: int, i: nat, j: nat, n: nat)
    requires i < |cfgs| && j < |cfgs| && i != j && Caches(cfgs[i]) && cfgs[i].l1TtlMs <= 0 && n >= 1
    ensures var run := UnlinkedRun(key, value, now, i, j, n);
      && Final(cfgs, run).Some?
      && var s := Final(cfgs, run).value;
      && Lookup(cfgs[i], s.l1s[i], s.now, key).0 == Some(value)
      && !WasLive(cfgs, run, key, value, s.now - n + 1)
  {
    hide Final;
    UnlinkedState(cfgs, key, value, now, i, j, n);
    var run := UnlinkedRun(key, value, now, i, j, n);
    var read := run.before.before;
    FirstIsEarly(cfgs, read.before, key, value, now);
    assert !WasLive(cfgs, read, key, value, now + 1);
    assert !WasLive(cfgs, run.before, key, value, now + 1);
  }

  lemma FirstIsEarly(cfgs: seq<Config>, run: Run, key: string, value: Value, now: int)
    requires run.Begin? && run.now == now
    ensures !WasLive(cfgs, run, key, value, now + 1)
  {}
}
