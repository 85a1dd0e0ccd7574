/**
  Least-recently-used eviction over whole histories of L1 calls. A use of a key is a hit or a write that is
  stored; every other call only removes slots.
*/
module Lru {
  import opened Arithmetic
  import opened Wrappers
  import opened L1

  datatype Call =
    | GetL1(key: string)
    | SetL1(key: string, value: Value, l2ExpiresAt: Option<int>)
    | DeleteL1(key: string)
    | DeleteKeys(keys: set<string>)
    | DeletePrefix(prefix: string)
    | ClearL1
    | CleanupL1

  function After(cfg: Config, l1: Slots, now: int, call: Call): Slots {
    match call
    case GetL1(key) => Lookup(cfg, l1, now, key).1
    case SetL1(key, value, l2ExpiresAt) => Put(cfg, l1, now, key, value, l2ExpiresAt)
    case DeleteL1(key) => Drop(cfg, l1, key)
    case DeleteKeys(keys) => DropKeys(cfg, l1, keys)
    case DeletePrefix(prefix) => RemovePrefix(l1, prefix)
    case ClearL1 => []
    case CleanupL1 => Cleanup(cfg, l1, now)
  }

  /** The calls a cache received, newest last, each at its time. */
  datatype History = Start | Then(before: History, now: int, call: Call)

  function Cache(cfg: Config, h: History): Slots {
    if h.Start? then [] else After(cfg, Cache(cfg, h.before), h.now, h.call)
  }

  /** The slot a call uses, if it is a hit or a stored write. */
  function UsedSlot(cfg: Config, l1: Slots, now: int, call: Call): Option<Slot> {
    match call
    case GetL1(key) =>
      var slot := Find(l1, key);
      if cfg.l1Enabled && slot.Some? && Fresh(slot.value, now) then slot else None
    case SetL1(key, value, l2ExpiresAt) =>
      var slot := NewSlot(cfg, now, key, value, l2ExpiresAt);
      if cfg.l1Enabled && cfg.l1Max > 0 && Fresh(slot, now) then Some(slot) else None
    case _ => None
  }

  predicate Uses(cfg: Config, h: History, key: string)
    requires h.Then?
  {
    var used := UsedSlot(cfg, Cache(cfg, h.before), h.now, h.call);
    used.Some? && used.value.key == key
  }

  function Length(h: History): nat { if h.Start? then 0 else Length(h.before) + 1 }

  /** When the key was last used, as a position in the history; 0 if never. */
  function LastUse(cfg: Config, h: History, key: string): (n: nat)
    ensures n <= Length(h)
  {
    if h.Start? then 0 else if Uses(cfg, h, key) then Length(h) else LastUse(cfg, h.before, key)
  }

  /** The slot as its last use left it. */
  function LastSlot(cfg: Config, h: History, key: string): Option<Slot> {
    if h.Start? then None
    else if Uses(cfg, h, key) then UsedSlot(cfg, Cache(cfg, h.before), h.now, h.call)
    else LastSlot(cfg, h.before, key)
  }

  /** The other keys used since the key's last use. */
  function UsedSince(cfg: Config, h: History, key: string): set<string> {
    if h.Start? || Uses(cfg, h, key) then {}
    else
      var used := UsedSlot(cfg, Cache(cfg, h.before), h.now, h.call);
      UsedSince(cfg, h.before, key) + if used.Some? then {used.value.key} else {}
  }

  /** The call neither concerns the slot's key nor finds the slot expired. */
  predicate Spares(call: Call, now: int, s: Slot) {
    match call
    case GetL1(key) => key != s.key
    case SetL1(key, _, _) => key != s.key
    case DeleteL1(key) => key != s.key
    case DeleteKeys(keys) => s.key !in keys
    case DeletePrefix(prefix) => !(prefix <= s.key)
    case ClearL1 => false
    case CleanupL1 => Fresh(s, now)
  }

  /** Since its last use the key's slot was neither invalidated nor found expired. */
  predicate SparedSince(cfg: Config, h: History, key: string) {
    h.Start? || Uses(cfg, h, key)
    || (SparedSince(cfg, h.before, key)
        && (LastSlot(cfg, h.before, key).Some? ==> Spares(h.call, h.now, LastSlot(cfg, h.before, key).value)))
  }

  // ---- one call ----

  /** Every call filters the slots, appends the used one, and evicts from the front only what exceeds l1Max. */
  lemma Shape(cfg: Config, l1: Slots, now: int, call: Call) returns (stays: Slot -> bool, n: nat)
    requires WithinMax(cfg, l1)
    ensures var used := UsedSlot(cfg, l1, now, call);
      var all := Keep(l1, stays) + if used.Some? then [used.value] else [];
      && n <= |all| && After(cfg, l1, now, call) == all[n..]
      && (n > 0 ==> used.Some? && cfg.l1Max > 0 && |all| - n == cfg.l1Max)
      && (used.Some? ==> cfg.l1Max > 0 && forall s :: stays(s) ==> s.key != used.value.key)
    ensures forall s :: Spares(call, now, s) ==> stays(s)
  {
    n := 0;
    var everything := (s: Slot) => true;
    KeepAll(l1, everything);
    match call {
      case GetL1(key) =>
        var slot := Find(l1, key);
        FindIsMember(l1, key);
        stays := if cfg.l1Enabled && slot.Some? then NotKey(key) else everything;
      case SetL1(key, value, l2ExpiresAt) =>
        stays := if cfg.l1Enabled && cfg.l1Max > 0 then NotKey(key) else everything;
        var all := Remove(l1, key) + [NewSlot(cfg, now, key, value, l2ExpiresAt)];
        if cfg.l1Enabled && cfg.l1Max > 0 && Fresh(NewSlot(cfg, now, key, value, l2ExpiresAt), now) {
          EvictIsSuffix(all, cfg.l1Max);
          n := if |all| <= cfg.l1Max then 0 else |all| - cfg.l1Max;
        }
      case DeleteL1(key) => stays := if cfg.l1Enabled then NotKey(key) else everything;
      case DeleteKeys(keys) => stays := if cfg.l1Enabled then NotIn(keys) else everything;
      case DeletePrefix(prefix) => stays := NotUnder(prefix);
      case ClearL1 => stays := (s: Slot) => false; KeepNone(l1, stays);
      case CleanupL1 => stays := if cfg.l1Enabled then FreshAt(now) else everything;
    }
  }

  lemma {:induction false} KeepNone(l1: Slots, stays: Slot -> bool)
    requires forall s :: !stays(s)
    ensures Keep(l1, stays) == []
  {
    if l1 != [] { KeepNone(l1[1..], stays); }
  }

  lemma CallKeepsWithinMax(cfg: Config, l1: Slots, now: int, call: Call)
    requires WithinMax(cfg, l1)
    ensures WithinMax(cfg, After(cfg, l1, now, call))
  {
    match call
    case GetL1(key) => LookupSlots(cfg, l1, now, key);
    case SetL1(key, value, l2ExpiresAt) => PutSlots(cfg, l1, now, key, value, l2ExpiresAt);
    case DeleteL1(key) => DropSlots(cfg, l1, key);
    case DeleteKeys(keys) => DropKeysSlots(cfg, l1, keys);
    case DeletePrefix(prefix) => if l1 != [] { InRemovePrefix(l1, prefix, l1[0]); } else { assert RemovePrefix(l1, prefix) == []; }
    case ClearL1 =>
    case CleanupL1 => CleanupSlots(cfg, l1, now);
  }

  lemma CallKeepsUnique(cfg: Config, l1: Slots, now: int, call: Call)
    requires UniqueKeys(l1)
    ensures UniqueKeys(After(cfg, l1, now, call))
  {
    hide Lookup, Put, UniqueKeys;
    match call
    case GetL1(key) => LookupUnique(cfg, l1, now, key);
    case SetL1(key, value, l2ExpiresAt) => PutUnique(cfg, l1, now, key, value, l2ExpiresAt);
    case DeleteL1(key) => KeepUnique(l1, NotKey(key));
    case DeleteKeys(keys) => KeepUnique(l1, NotIn(keys));
    case DeletePrefix(prefix) => KeepUnique(l1, NotUnder(prefix));
    case ClearL1 => NothingRepeats();
    case CleanupL1 => KeepUnique(l1, FreshAt(now));
  }

  lemma NothingRepeats()
    ensures UniqueKeys([])
  {}

  // ---- every history ----

  /** L1 never holds more than l1Max slots. */
  lemma {:induction false} SizeIsBounded(cfg: Config, h: History)
    ensures WithinMax(cfg, Cache(cfg, h))
  {
    hide After, WithinMax;
    if h.Start? {
      NothingIsWithinMax(cfg);
    } else {
      SizeIsBounded(cfg, h.before);
      CallKeepsWithinMax(cfg, Cache(cfg, h.before), h.now, h.call);
    }
  }

  lemma NothingIsWithinMax(cfg: Config)
    ensures WithinMax(cfg, [])
  {}

  ghost predicate InUseOrder(cfg: Config, h: History, l1: Slots) {
    && (forall i, j :: 0 <= i < j < |l1| ==> LastUse(cfg, h, l1[i].key) < LastUse(cfg, h, l1[j].key))
    && (forall s :: s in l1 ==> LastSlot(cfg, h, s.key) == Some(s))
  }

  lemma {:induction false} KeepInUseOrder(cfg: Config, h: History, l1: Slots, stays: Slot -> bool)
    requires InUseOrder(cfg, h, l1)
    ensures InUseOrder(cfg, h, Keep(l1, stays))
  {
    hide LastUse, LastSlot;
    if l1 != [] {
      KeepInUseOrder(cfg, h, l1[1..], stays);
      var rest := Keep(l1[1..], stays);
      forall s | s in rest ensures LastUse(cfg, h, l1[0].key) < LastUse(cfg, h, s.key) && LastSlot(cfg, h, s.key) == Some(s) {
        InKeep(l1[1..], stays, s);
        var j :| 0 <= j < |l1[1..]| && l1[1..][j] == s;
        assert l1[j + 1] == s;
      }
    }
  }

  lemma UsesOnly(cfg: Config, h: History, key: string)
    requires h.Then?
    ensures !Uses(cfg, h, key) ==> LastUse(cfg, h, key) == LastUse(cfg, h.before, key) && LastSlot(cfg, h, key) == LastSlot(cfg, h.before, key)
    ensures Uses(cfg, h, key) ==> LastUse(cfg, h, key) == Length(h)
    ensures Uses(cfg, h, key) ==> LastSlot(cfg, h, key) == UsedSlot(cfg, Cache(cfg, h.before), h.now, h.call)
    ensures LastUse(cfg, h.before, key) < Length(h)
  {}

  /** A call leaves the kept slots it does not use in their order. */
  lemma CallKeepsUseOrder(cfg: Config, h: History, kept: Slots)
    requires h.Then? && InUseOrder(cfg, h.before, kept) && forall s :: s in kept ==> !Uses(cfg, h, s.key)
    ensures InUseOrder(cfg, h, kept) && forall s :: s in kept ==> LastUse(cfg, h, s.key) < Length(h)
  {
    hide LastUse, LastSlot, Uses, Length;
    forall s | s in kept
      ensures LastUse(cfg, h, s.key) == LastUse(cfg, h.before, s.key) < Length(h) && LastSlot(cfg, h, s.key) == Some(s)
    {
      UsesOnly(cfg, h, s.key);
      LengthGrows(h);
    }
  }

  lemma LengthGrows(h: History)
    requires h.Then?
    ensures Length(h.before) < Length(h)
  {}

  /** The slot used last goes to the end. */
  lemma UsedIsLast(cfg: Config, h: History, kept: Slots, s: Slot)
    requires InUseOrder(cfg, h, kept) && forall x :: x in kept ==> LastUse(cfg, h, x.key) < LastUse(cfg, h, s.key)
    requires LastSlot(cfg, h, s.key) == Some(s)
    ensures InUseOrder(cfg, h, kept + [s])
  {
    hide LastUse, LastSlot;
  }

  lemma SuffixInUseOrder(cfg: Config, h: History, all: Slots, n: nat)
    requires InUseOrder(cfg, h, all) && n <= |all|
    ensures InUseOrder(cfg, h, all[n..])
  {
    hide LastUse, LastSlot;
  }

  /** Map order is the order of last use, and every slot is as its last use left it. */
  lemma {:induction false} MapOrderIsUseOrder(cfg: Config, h: History)
    ensures InUseOrder(cfg, h, Cache(cfg, h))
  {
    hide LastUse, LastSlot, UsedSlot, After, Spares, WithinMax, Length, InUseOrder;
    if h.Then? {
      var old' := Cache(cfg, h.before);
      MapOrderIsUseOrder(cfg, h.before);
      SizeIsBounded(cfg, h.before);
      var stays, n := Shape(cfg, old', h.now, h.call);
      KeepInUseOrder(cfg, h.before, old', stays);
      var kept := Keep(old', stays);
      var used := UsedSlot(cfg, old', h.now, h.call);
      forall s | s in kept ensures !Uses(cfg, h, s.key) { InKeep(old', stays, s); }
      CallKeepsUseOrder(cfg, h, kept);
      if used.Some? {
        UsesOnly(cfg, h, used.value.key);
        UsedIsLast(cfg, h, kept, used.value);
        SuffixInUseOrder(cfg, h, kept + [used.value], n);
      } else {
        assert kept + [] == kept;
        SuffixInUseOrder(cfg, h, kept, n);
      }
    } else {
      NothingIsInUseOrder(cfg, h);
    }
  }

  lemma NothingIsInUseOrder(cfg: Config, h: History)
    ensures InUseOrder(cfg, h, [])
  {}

  lemma {:induction false} KeysAreCounted(b: Slots, keys: set<string>)
    requires UniqueKeys(b) && forall s :: s in b ==> s.key in keys
    ensures |b| <= |keys|
  {
    if b != [] {
      forall s | s in b[1..] ensures s.key in keys - {b[0].key} {
        var j :| 0 <= j < |b[1..]| && b[1..][j] == s;
        assert b[j + 1] == s;
      }
      KeysAreCounted(b[1..], keys - {b[0].key});
    }
  }

  /** A call that filters, appends and evicts to `max` leaves a slot with fewer than `max` other keys behind it. */
  lemma StaysInFrontOf(a: Slots, s: Slot, b: Slots, stays: Slot -> bool, tail: Slots, n: nat, max: int, keys: set<string>)
    returns (a': Slots, b': Slots)
    requires stays(s) && UniqueKeys(Keep(b, stays) + tail) && |keys| < max
    requires forall x :: x in Keep(b, stays) + tail ==> x.key in keys
    requires var all := Keep(a + [s] + b, stays) + tail; n <= |all| && (n > 0 ==> |all| - n == max)
    ensures (Keep(a + [s] + b, stays) + tail)[n..] == a' + [s] + b'
    ensures forall x :: x in b' ==> x.key in keys
  {
    KeepSplit(a, s, b, stays);
    b' := Keep(b, stays) + tail;
    KeysAreCounted(b', keys);
    var all := Keep(a, stays) + [s] + b';
    assert Keep(a + [s] + b, stays) + tail == all;
    assert n <= |Keep(a, stays)|;
    a' := Keep(a, stays)[n..];
    assert all[n..] == a' + [s] + b';
  }

  /** Where the last used slot of a key stands: everything behind it was used since. */
  lemma {:induction false} StandsBefore(cfg: Config, h: History, key: string) returns (a: Slots, b: Slots)
    requires LastSlot(cfg, h, key).Some? && SparedSince(cfg, h, key) && |UsedSince(cfg, h, key)| < cfg.l1Max
    ensures Cache(cfg, h) == a + [LastSlot(cfg, h, key).value] + b
    ensures forall x :: x in b ==> x.key in UsedSince(cfg, h, key)
  {
    hide UsedSlot, After, Spares, WithinMax, UniqueKeys, Keep, InUseOrder;
    var old' := Cache(cfg, h.before);
    SizeIsBounded(cfg, h.before);
    var stays, n := Shape(cfg, old', h.now, h.call);
    var used := UsedSlot(cfg, old', h.now, h.call);
    var tail := if used.Some? then [used.value] else [];
    var s := LastSlot(cfg, h, key).value;
    if Uses(cfg, h, key) {
      a, b := Keep(old', stays)[n..], [];
      assert (Keep(old', stays) + [s])[n..] == a + [s];
    } else {
      StillFewer(cfg, h, key);
      var a0, b0 := StandsBefore(cfg, h.before, key);
      MapOrderIsUseOrder(cfg, h.before);
      StillUnique(cfg, h.before, old', a0 + [s], b0, stays, used);
      var keys := UsedSince(cfg, h, key);
      forall x | x in Keep(b0, stays) + tail ensures x.key in keys {
        if x in Keep(b0, stays) { InKeep(b0, stays, x); }
      }
      a, b := StaysInFrontOf(a0, s, b0, stays, tail, n, cfg.l1Max, keys);
    }
  }

  lemma StillFewer(cfg: Config, h: History, key: string)
    requires h.Then? && !Uses(cfg, h, key)
    ensures |UsedSince(cfg, h.before, key)| <= |UsedSince(cfg, h, key)|
  {
    SubsetSize(UsedSince(cfg, h.before, key), UsedSince(cfg, h, key));
  }

  lemma KeepSplit(a: Slots, s: Slot, b: Slots, stays: Slot -> bool)
    requires stays(s)
    ensures Keep(a + [s] + b, stays) == Keep(a, stays) + [s] + Keep(b, stays)
  {
    KeepConcat(a + [s], b, stays);
    KeepConcat(a, [s], stays);
  }

  lemma StillUnique(cfg: Config, h: History, l1: Slots, a: Slots, b: Slots, stays: Slot -> bool, used: Option<Slot>)
    requires InUseOrder(cfg, h, l1) && l1 == a + b
    requires used.Some? ==> forall s :: stays(s) ==> s.key != used.value.key
    ensures UniqueKeys(Keep(b, stays) + if used.Some? then [used.value] else [])
  {
    hide LastUse, LastSlot;
    forall i, j | 0 <= i < j < |b| ensures b[i].key != b[j].key {
      assert l1[|a| + i] == b[i] && l1[|a| + j] == b[j];
      assert LastUse(cfg, h, l1[|a| + i].key) < LastUse(cfg, h, l1[|a| + j].key);
    }
    KeepUnique(b, stays);
    if used.Some? {
      forall x | x in Keep(b, stays) ensures x.key != used.value.key { InKeep(b, stays, x); }
    }
  }

  /**
    A slot that is not invalidated and not found expired stays in L1 until at least l1Max distinct other keys
    have been hit or written since its last use.
  */
  lemma SurvivesUntilMaxOthers(cfg: Config, h: History, key: string)
    requires LastSlot(cfg, h, key).Some? && SparedSince(cfg, h, key)
    ensures |UsedSince(cfg, h, key)| < cfg.l1Max ==> LastSlot(cfg, h, key).value in Cache(cfg, h)
    ensures LastSlot(cfg, h, key).value !in Cache(cfg, h) ==> |UsedSince(cfg, h, key)| >= cfg.l1Max
  {
    if |UsedSince(cfg, h, key)| < cfg.l1Max {
      var a, b := StandsBefore(cfg, h, key);
      assert (a + [LastSlot(cfg, h, key).value] + b)[|a|] == LastSlot(cfg, h, key).value;
    }
  }
}
