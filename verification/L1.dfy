/**
  The in-process level of the cache: a JavaScript Map, which is a list of slots in insertion order. A hit
  deletes its slot and inserts it again, so the oldest slot is the least recently used one.
*/
module L1 {
  import opened Wrappers

  type Value = string

  datatype Slot = Slot(key: string, value: Value, expiresAt: Option<int>)

  type Slots = seq<Slot>

  datatype Config = Config(ns: string, instanceId: string, l1Enabled: bool, l1Max: int, l1TtlMs: int, notifyEnabled: bool)

  predicate Fresh(s: Slot, now: int) {
    s.expiresAt.None? || s.expiresAt.value > now
  }

  function Find(l1: Slots, key: string): Option<Slot> {
    if l1 == [] then None else if l1[0].key == key then Some(l1[0]) else Find(l1[1..], key)
  }

  /** The slots that satisfy `stays`, in order. */
  function Keep(l1: Slots, stays: Slot -> bool): Slots {
    if l1 == [] then [] else if stays(l1[0]) then [l1[0]] + Keep(l1[1..], stays) else Keep(l1[1..], stays)
  }

  function NotKey(key: string): Slot -> bool { (s: Slot) => s.key != key }

  function NotIn(keys: set<string>): Slot -> bool { (s: Slot) => s.key !in keys }

  function NotUnder(prefix: string): Slot -> bool { (s: Slot) => !(prefix <= s.key) }

  function FreshAt(now: int): Slot -> bool { (s: Slot) => Fresh(s, now) }

  /** Map.delete(key). */
  function Remove(l1: Slots, key: string): Slots { Keep(l1, NotKey(key)) }

  function RemoveKeys(l1: Slots, keys: set<string>): Slots { Keep(l1, NotIn(keys)) }

  function RemovePrefix(l1: Slots, prefix: string): Slots { Keep(l1, NotUnder(prefix)) }

  function RemoveStale(l1: Slots, now: int): Slots { Keep(l1, FreshAt(now)) }

  /** enforceL1Max: drop the oldest slots. */
  function Evict(l1: Slots, max: int): Slots {
    if |l1| <= max || l1 == [] then l1 else Evict(l1[1..], max)
  }

  /** getL1: a fresh slot is a hit and moves to the end; a stale one is deleted. */
  function Lookup(cfg: Config, l1: Slots, now: int, key: string): (Option<Value>, Slots) {
    var slot := Find(l1, key);
    if !cfg.l1Enabled || slot.None? then (None, l1)
    else if !Fresh(slot.value, now) then (None, Remove(l1, key))
    else (Some(slot.value.value), Remove(l1, key) + [slot.value])
  }

  /** computeL1ExpiresAt: the earlier of the local TTL and the row's expiry. */
  function ComputeL1ExpiresAt(cfg: Config, now: int, l2ExpiresAt: Option<int>): Option<int> {
    var local := if cfg.l1TtlMs > 0 then Some(now + cfg.l1TtlMs) else None;
    if l2ExpiresAt.None? then local
    else if local.None? then l2ExpiresAt
    else if local.value < l2ExpiresAt.value then local else l2ExpiresAt
  }

  function NewSlot(cfg: Config, now: int, key: string, value: Value, l2ExpiresAt: Option<int>): Slot {
    Slot(key, value, ComputeL1ExpiresAt(cfg, now, l2ExpiresAt))
  }

  /** setL1 */
  function Put(cfg: Config, l1: Slots, now: int, key: string, value: Value, l2ExpiresAt: Option<int>): Slots {
    var slot := NewSlot(cfg, now, key, value, l2ExpiresAt);
    if !cfg.l1Enabled || cfg.l1Max <= 0 then l1
    else if !Fresh(slot, now) then Remove(l1, key)
    else Evict(Remove(l1, key) + [slot], cfg.l1Max)
  }

  /** deleteL1 */
  function Drop(cfg: Config, l1: Slots, key: string): Slots {
    if cfg.l1Enabled then Remove(l1, key) else l1
  }

  function DropKeys(cfg: Config, l1: Slots, keys: set<string>): Slots {
    if cfg.l1Enabled then RemoveKeys(l1, keys) else l1
  }

  /** cleanupL1 */
  function Cleanup(cfg: Config, l1: Slots, now: int): Slots {
    if cfg.l1Enabled then RemoveStale(l1, now) else l1
  }

  /** An instance without an L1 holds no slots; one with an L1 holds at most l1Max. */
  predicate WithinMax(cfg: Config, l1: Slots) {
    |l1| <= (if cfg.l1Enabled && cfg.l1Max > 0 then cfg.l1Max else 0)
  }

  // ---- membership ----

  lemma {:induction false} InKeep(l1: Slots, stays: Slot -> bool, s: Slot)
    ensures s in Keep(l1, stays) <==> s in l1 && stays(s)
    ensures |Keep(l1, stays)| <= |l1|
  {
    if l1 != [] { InKeep(l1[1..], stays, s); }
  }

  lemma {:induction false} KeepConcat(a: Slots, b: Slots, stays: Slot -> bool)
    ensures Keep(a + b, stays) == Keep(a, stays) + Keep(b, stays)
  {
    if a == [] {
      assert a + b == b;
    } else {
      assert (a + b)[0] == a[0] && (a + b)[1..] == a[1..] + b;
      KeepConcat(a[1..], b, stays);
    }
  }

  lemma {:induction false} KeepAll(l1: Slots, stays: Slot -> bool)
    requires forall s :: s in l1 ==> stays(s)
    ensures Keep(l1, stays) == l1
  {
    if l1 != [] { KeepAll(l1[1..], stays); }
  }

  lemma InRemove(l1: Slots, key: string, s: Slot)
    ensures s in Remove(l1, key) <==> s in l1 && s.key != key
    ensures |Remove(l1, key)| <= |l1|
  {
    InKeep(l1, NotKey(key), s);
  }

  lemma InRemoveKeys(l1: Slots, keys: set<string>, s: Slot)
    ensures s in RemoveKeys(l1, keys) <==> s in l1 && s.key !in keys
    ensures |RemoveKeys(l1, keys)| <= |l1|
  {
    InKeep(l1, NotIn(keys), s);
  }

  lemma InRemovePrefix(l1: Slots, prefix: string, s: Slot)
    ensures s in RemovePrefix(l1, prefix) <==> s in l1 && !(prefix <= s.key)
    ensures |RemovePrefix(l1, prefix)| <= |l1|
  {
    InKeep(l1, NotUnder(prefix), s);
  }

  lemma InRemoveStale(l1: Slots, now: int, s: Slot)
    ensures s in RemoveStale(l1, now) <==> s in l1 && Fresh(s, now)
    ensures |RemoveStale(l1, now)| <= |l1|
  {
    InKeep(l1, FreshAt(now), s);
  }

  lemma {:induction false} InEvict(l1: Slots, max: int, s: Slot)
    ensures s in Evict(l1, max) ==> s in l1
    ensures max >= 0 ==> |Evict(l1, max)| <= max
    ensures |Evict(l1, max)| <= |l1|
  {
    if |l1| > max && l1 != [] { InEvict(l1[1..], max, s); }
  }

  lemma {:induction false} FindIsMember(l1: Slots, key: string)
    ensures Find(l1, key).Some? ==> Find(l1, key).value in l1 && Find(l1, key).value.key == key
    ensures Find(l1, key).None? ==> forall s :: s in l1 ==> s.key != key
  {
    if l1 != [] { FindIsMember(l1[1..], key); }
  }

  /** A removed key frees a place. */
  lemma {:induction false} RemoveShrinks(l1: Slots, key: string, s: Slot)
    requires s in l1 && s.key == key
    ensures |Remove(l1, key)| < |l1|
  {
    var i :| 0 <= i < |l1| && l1[i] == s;
    var stays := NotKey(key);
    assert l1 == l1[..i] + ([s] + l1[i + 1..]);
    KeepConcat(l1[..i], [s] + l1[i + 1..], stays);
    KeepConcat([s], l1[i + 1..], stays);
    InKeep(l1[..i], stays, s);
    InKeep(l1[i + 1..], stays, s);
  }

  /** A lookup keeps only old slots, and a hit is the value of a fresh slot of that key. */
  lemma LookupSlots(cfg: Config, l1: Slots, now: int, key: string)
    requires WithinMax(cfg, l1)
    ensures var (hit, l1') := Lookup(cfg, l1, now, key);
      && WithinMax(cfg, l1')
      && (forall s :: s in l1' ==> s in l1)
      && (hit.Some? ==> exists s :: s in l1 && s.key == key && Fresh(s, now) && s.value == hit.value)
  {
    FindIsMember(l1, key);
    var slot := Find(l1, key);
    if slot.Some? { RemoveShrinks(l1, key, slot.value); }
    forall s | s in Remove(l1, key) ensures s in l1 { InRemove(l1, key, s); }
  }

  /** A write leaves no older slot of its key, and at most the new slot besides the others. */
  lemma PutSlots(cfg: Config, l1: Slots, now: int, key: string, value: Value, l2ExpiresAt: Option<int>)
    requires WithinMax(cfg, l1)
    ensures var l1' := Put(cfg, l1, now, key, value, l2ExpiresAt);
      && WithinMax(cfg, l1')
      && (forall s :: s in l1' ==> ((s in l1 && s.key != key) || (s == NewSlot(cfg, now, key, value, l2ExpiresAt) && Fresh(s, now))))
  {
    if cfg.l1Enabled && cfg.l1Max > 0 {
      var slot := NewSlot(cfg, now, key, value, l2ExpiresAt);
      var l1' := Put(cfg, l1, now, key, value, l2ExpiresAt);
      InRemove(l1, key, slot);
      InEvict(Remove(l1, key) + [slot], cfg.l1Max, slot);
      forall s | s in l1' ensures (s in l1 && s.key != key) || (s == slot && Fresh(s, now)) {
        InRemove(l1, key, s);
        InEvict(Remove(l1, key) + [slot], cfg.l1Max, s);
      }
    } else {
      assert l1 == [];
    }
  }

  lemma DropSlots(cfg: Config, l1: Slots, key: string)
    requires WithinMax(cfg, l1)
    ensures WithinMax(cfg, Drop(cfg, l1, key))
    ensures forall s :: s in Drop(cfg, l1, key) ==> s in l1 && s.key != key
  {
    forall s | s in Drop(cfg, l1, key) ensures s in l1 && s.key != key { InRemove(l1, key, s); }
    if l1 != [] { InRemove(l1, key, l1[0]); } else { assert Remove(l1, key) == []; }
  }

  lemma DropKeysSlots(cfg: Config, l1: Slots, keys: set<string>)
    requires WithinMax(cfg, l1)
    ensures WithinMax(cfg, DropKeys(cfg, l1, keys))
    ensures forall s :: s in DropKeys(cfg, l1, keys) ==> s in l1 && s.key !in keys
  {
    forall s | s in DropKeys(cfg, l1, keys) ensures s in l1 && s.key !in keys { InRemoveKeys(l1, keys, s); }
    if l1 != [] { InRemoveKeys(l1, keys, l1[0]); } else { assert RemoveKeys(l1, keys) == []; }
  }

  lemma CleanupSlots(cfg: Config, l1: Slots, now: int)
    requires WithinMax(cfg, l1)
    ensures WithinMax(cfg, Cleanup(cfg, l1, now))
    ensures forall s :: s in Cleanup(cfg, l1, now) ==> s in l1 && Fresh(s, now)
  {
    forall s | s in Cleanup(cfg, l1, now) ensures s in l1 && Fresh(s, now) { InRemoveStale(l1, now, s); }
    if l1 != [] { InRemoveStale(l1, now, l1[0]); } else { assert RemoveStale(l1, now) == []; }
  }

  // ---- a Map holds each key once ----

  predicate UniqueKeys(l1: Slots) {
    forall i, j :: 0 <= i < j < |l1| ==> l1[i].key != l1[j].key
  }

  lemma {:induction false} KeepUnique(l1: Slots, stays: Slot -> bool)
    requires UniqueKeys(l1)
    ensures UniqueKeys(Keep(l1, stays))
  {
    if l1 != [] {
      KeepUnique(l1[1..], stays);
      var rest := Keep(l1[1..], stays);
      forall s | s in rest ensures s.key != l1[0].key { InKeep(l1[1..], stays, s); }
    }
  }

  lemma {:induction false} EvictIsSuffix(l1: Slots, max: nat)
    ensures Evict(l1, max) == l1[if |l1| <= max then 0 else |l1| - max..]
  {
    if |l1| > max {
      EvictIsSuffix(l1[1..], max);
      assert l1[1..][|l1| - 1 - max..] == l1[|l1| - max..];
    }
  }

  lemma LookupUnique(cfg: Config, l1: Slots, now: int, key: string)
    requires UniqueKeys(l1)
    ensures UniqueKeys(Lookup(cfg, l1, now, key).1)
  {
    KeepUnique(l1, NotKey(key));
    FindIsMember(l1, key);
    forall s | s in Remove(l1, key) ensures s.key != key { InRemove(l1, key, s); }
  }

  lemma PutUnique(cfg: Config, l1: Slots, now: int, key: string, value: Value, l2ExpiresAt: Option<int>)
    requires UniqueKeys(l1)
    ensures UniqueKeys(Put(cfg, l1, now, key, value, l2ExpiresAt))
  {
    KeepUnique(l1, NotKey(key));
    forall s | s in Remove(l1, key) ensures s.key != key { InRemove(l1, key, s); }
    if cfg.l1Max > 0 { EvictIsSuffix(Remove(l1, key) + [NewSlot(cfg, now, key, value, l2ExpiresAt)], cfg.l1Max); }
  }

  /** A lookup hits exactly on a fresh slot of the key, which then is the newest, unchanged; the others keep their order. */
  lemma LookupHitsIff(cfg: Config, l1: Slots, now: int, key: string, s: Slot)
    requires UniqueKeys(l1)
    ensures var (hit, l1') := Lookup(cfg, l1, now, key);
      && (hit.Some? <==> cfg.l1Enabled && exists x :: x in l1 && x.key == key && Fresh(x, now))
      && (cfg.l1Enabled && s in l1 && s.key == key && Fresh(s, now) ==> hit == Some(s.value) && l1' == Remove(l1, key) + [s])
      && (cfg.l1Enabled && hit.None? ==> l1' == Remove(l1, key))
  {
    FindIsMember(l1, key);
    if Find(l1, key).None? { KeepAll(l1, NotKey(key)); }
  }

  /** A write that is stored is the newest slot; one that is already stale only drops the key. */
  lemma PutIsNewest(cfg: Config, l1: Slots, now: int, key: string, value: Value, l2ExpiresAt: Option<int>)
    requires cfg.l1Enabled && cfg.l1Max > 0
    ensures var slot, l1' := NewSlot(cfg, now, key, value, l2ExpiresAt), Put(cfg, l1, now, key, value, l2ExpiresAt);
      var others := Remove(l1, key);
      if Fresh(slot, now) then
        l1' == others[if |others| < cfg.l1Max then 0 else |others| + 1 - cfg.l1Max..] + [slot]
      else l1' == others
  {
    var others, slot := Remove(l1, key), NewSlot(cfg, now, key, value, l2ExpiresAt);
    EvictIsSuffix(others + [slot], cfg.l1Max);
  }

  lemma {:induction false} FindLast(others: Slots, s: Slot)
    requires forall x :: x in others ==> x.key != s.key
    ensures Find(others + [s], s.key) == Some(s)
  {
    if others != [] {
      assert (others + [s])[1..] == others[1..] + [s];
      FindLast(others[1..], s);
    }
  }

  /** What was cached at `now` is hit at `later` exactly until the local TTL or the row's expiry, whichever comes first. */
  lemma HitUntilEitherEnds(cfg: Config, l1: Slots, now: int, key: string, value: Value, l2ExpiresAt: Option<int>, later: int)
    requires cfg.l1Enabled && cfg.l1Max > 0 && now <= later
    ensures Lookup(cfg, Put(cfg, l1, now, key, value, l2ExpiresAt), later, key).0 ==
      if (cfg.l1TtlMs > 0 ==> later < now + cfg.l1TtlMs) && (l2ExpiresAt.Some? ==> later < l2ExpiresAt.value)
      then Some(value) else None
  {
    hide Remove, Evict;
    var slot, others := NewSlot(cfg, now, key, value, l2ExpiresAt), Remove(l1, key);
    PutIsNewest(cfg, l1, now, key, value, l2ExpiresAt);
    forall x | x in others ensures x.key != key { InRemove(l1, key, x); }
    if Fresh(slot, now) {
      FindLast(others[if |others| < cfg.l1Max then 0 else |others| + 1 - cfg.l1Max..], slot);
    } else {
      FindIsMember(others, key);
    }
  }
}
