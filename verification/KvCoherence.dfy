/**
  Any number of instances of one namespace over one table, exchanging invalidations. Every interleaving of
  operations, clock ticks, publications and deliveries is a run; a publication is a step of its own, after the
  write it announces, and notifications are delivered in any order.
*/
module KvCoherence {
  import opened Wrappers
  import opened L1
  import opened KvOps
  import opened KvEffects

  /** unsent: written but not yet published; inbox: published but not yet handled, per instance. */
  datatype System = System(table: Table, now: int, l1s: seq<Slots>, unsent: multiset<Notification>, inbox: seq<multiset<Notification>>)

  datatype Act =
    | Tick(ms: nat)
    | Do(i: nat, op: Op)
    | Send(n: Notification)
    | Deliver(i: nat, n: Notification)

  /** The instances share a namespace and have ids of their own. */
  predicate Instances(cfgs: seq<Config>) {
    && (forall i, j :: 0 <= i < |cfgs| && 0 <= j < |cfgs| ==> cfgs[i].ns == cfgs[j].ns)
    && (forall i, j :: 0 <= i < j < |cfgs| ==> cfgs[i].instanceId != cfgs[j].instanceId)
  }

  predicate Shaped(cfgs: seq<Config>, s: System) {
    |s.l1s| == |cfgs| == |s.inbox|
  }

  predicate Enabled(cfgs: seq<Config>, s: System, act: Act)
    requires Shaped(cfgs, s)
  {
    match act
    case Tick(_) => true
    case Do(i, _) => i < |cfgs|
    case Send(n) => n in s.unsent
    case Deliver(i, n) => i < |cfgs| && n in s.inbox[i]
  }

  /** publish: the event with the namespace and the sender's id. */
  function Announced(cfg: Config, event: Option<Event>): multiset<Notification> {
    if event.None? then multiset{} else multiset{Notification(cfg.ns, cfg.instanceId, event.value)}
  }

  function Step(cfgs: seq<Config>, s: System, act: Act): (t: System)
    requires Shaped(cfgs, s) && Enabled(cfgs, s, act)
    ensures Shaped(cfgs, t)
  {
    match act
    case Tick(ms) => s.(now := s.now + ms)
    case Do(i, op) =>
      var o := Apply(cfgs[i], s.l1s[i], s.table, s.now, op);
      s.(table := o.table, l1s := s.l1s[i := o.l1], unsent := s.unsent + Announced(cfgs[i], o.publish))
    case Send(n) =>
      s.(unsent := s.unsent - multiset{n}, inbox := seq(|cfgs|, i requires 0 <= i < |cfgs| => s.inbox[i] + multiset{n}))
    case Deliver(i, n) =>
      s.(l1s := s.l1s[i := AfterReceive(cfgs[i], s.l1s[i], Some(n)).1], inbox := s.inbox[i := s.inbox[i] - multiset{n}])
  }

  predicate Pending(s: System, i: nat, n: Notification)
    requires i < |s.inbox|
  {
    n in s.unsent || n in s.inbox[i]
  }

  /** An invalidation that will drop the key is on its way to instance i. */
  ghost predicate Covered(cfgs: seq<Config>, s: System, i: nat, key: string)
    requires Shaped(cfgs, s) && i < |cfgs|
  {
    exists n :: Pending(s, i, n) && Heeds(cfgs[i], n) && Drops(n.event, key)
  }

  ghost predicate SlotSafe(cfgs: seq<Config>, s: System, i: nat, slot: Slot)
    requires Shaped(cfgs, s) && i < |cfgs|
  {
    Fresh(slot, s.now) ==> Agrees(slot, s.table, s.now) || Covered(cfgs, s, i, slot.key)
  }

  ghost predicate InstanceSafe(cfgs: seq<Config>, s: System, i: nat)
    requires Shaped(cfgs, s) && i < |cfgs|
  {
    WithinMax(cfgs[i], s.l1s[i]) && forall slot :: slot in s.l1s[i] ==> SlotSafe(cfgs, s, i, slot)
  }

  /** Every fresh slot agrees with its live row or is covered by an invalidation on its way. */
  ghost predicate Coherent(cfgs: seq<Config>, s: System) {
    Shaped(cfgs, s) && forall i :: 0 <= i < |cfgs| ==> InstanceSafe(cfgs, s, i)
  }

  ghost predicate Reaches(cfgs: seq<Config>, s: System, acts: seq<Act>, t: System)
    requires Shaped(cfgs, s)
    decreases |acts|
  {
    if acts == [] then s == t
    else Enabled(cfgs, s, acts[0]) && Reaches(cfgs, Step(cfgs, s, acts[0]), acts[1..], t)
  }

  // ---- one step ----

  lemma AgreesLater(slot: Slot, t: Table, now: int, later: int)
    requires now <= later && Agrees(slot, t, now) && Fresh(slot, later)
    ensures Agrees(slot, t, later)
  {}

  /** What is on its way stays on its way. */
  lemma StaysCovered(cfgs: seq<Config>, s: System, t: System, i: nat, key: string)
    requires Shaped(cfgs, s) && Shaped(cfgs, t) && i < |cfgs|
    requires forall n :: Pending(s, i, n) ==> Pending(t, i, n)
    requires Covered(cfgs, s, i, key)
    ensures Covered(cfgs, t, i, key)
  {}

  lemma TickKeeps(cfgs: seq<Config>, s: System, ms: nat)
    requires Coherent(cfgs, s)
    ensures Coherent(cfgs, Step(cfgs, s, Tick(ms)))
  {
    hide WithinMax, Agrees, Heeds, Drops;
    var t := Step(cfgs, s, Tick(ms));
    forall i | 0 <= i < |cfgs| ensures InstanceSafe(cfgs, t, i) {
      assert InstanceSafe(cfgs, s, i);
      forall slot | slot in t.l1s[i] ensures SlotSafe(cfgs, t, i, slot) {
        assert SlotSafe(cfgs, s, i, slot);
        if Fresh(slot, t.now) {
          if Agrees(slot, s.table, s.now) { AgreesLater(slot, s.table, s.now, t.now); } else { StaysCovered(cfgs, s, t, i, slot.key); }
        }
      }
    }
  }

  lemma SendKeeps(cfgs: seq<Config>, s: System, n: Notification)
    requires Coherent(cfgs, s) && n in s.unsent
    ensures Coherent(cfgs, Step(cfgs, s, Send(n)))
  {
    hide WithinMax, Agrees, Heeds, Drops;
    var t := Step(cfgs, s, Send(n));
    forall i | 0 <= i < |cfgs| ensures InstanceSafe(cfgs, t, i) {
      assert InstanceSafe(cfgs, s, i);
      forall m | Pending(s, i, m) ensures Pending(t, i, m) {}
      forall slot | slot in t.l1s[i] ensures SlotSafe(cfgs, t, i, slot) {
        assert SlotSafe(cfgs, s, i, slot);
      }
    }
  }

  lemma DeliverKeeps(cfgs: seq<Config>, s: System, i: nat, n: Notification)
    requires Coherent(cfgs, s) && i < |cfgs| && n in s.inbox[i]
    ensures Coherent(cfgs, Step(cfgs, s, Deliver(i, n)))
  {
    hide WithinMax, Agrees, Heeds, Drops, AfterReceive, Fresh;
    var t := Step(cfgs, s, Deliver(i, n));
    forall j | 0 <= j < |cfgs| ensures InstanceSafe(cfgs, t, j) {
      assert InstanceSafe(cfgs, s, j);
      if j == i {
        ReceiveSlots(cfgs[i], s.l1s[i], Some(n));
        forall slot | slot in t.l1s[i] ensures SlotSafe(cfgs, t, i, slot) {
          assert SlotSafe(cfgs, s, i, slot);
          if Fresh(slot, s.now) && !Agrees(slot, s.table, s.now) {
            var m :| Pending(s, i, m) && Heeds(cfgs[i], m) && Drops(m.event, slot.key);
            assert m != n && Pending(t, i, m);
          }
        }
      } else {
        forall slot | slot in t.l1s[j] ensures SlotSafe(cfgs, t, j, slot) {
          assert SlotSafe(cfgs, s, j, slot);
          if Covered(cfgs, s, j, slot.key) { StaysCovered(cfgs, s, t, j, slot.key); }
        }
      }
    }
  }

  lemma OwnSlotsKeep(cfgs: seq<Config>, s: System, i: nat, op: Op)
    requires Coherent(cfgs, s) && i < |cfgs|
    ensures InstanceSafe(cfgs, Step(cfgs, s, Do(i, op)), i)
  {
    hide WithinMax, Heeds, Drops, Apply, Fresh, LiveKey, EndsWithin;
    var t := Step(cfgs, s, Do(i, op));
    assert InstanceSafe(cfgs, s, i);
    OpLocalEffect(cfgs[i], s.l1s[i], s.table, s.now, op);
    forall slot | slot in t.l1s[i] ensures SlotSafe(cfgs, t, i, slot) {
      assert OldSlot(s.l1s[i], s.table, s.now, t.table, slot) || NewlyFilled(cfgs[i], s.now, t.table, slot);
      if slot in s.l1s[i] { assert SlotSafe(cfgs, s, i, slot); }
      if slot in s.l1s[i] && Covered(cfgs, s, i, slot.key) { StaysCovered(cfgs, s, t, i, slot.key); }
    }
  }

  /** An instance that can hold slots. */
  predicate Caches(cfg: Config) { cfg.l1Enabled && cfg.l1Max > 0 }

  /**
    The local TTL of an instance as far as a state is known to respect it: every reachable state does, an
    arbitrary coherent one need not.
  */
  function TtlOf(cfg: Config, reachable: bool): int { if reachable then cfg.l1TtlMs else 0 }

  /** The operation of instance i announces what it disturbs to every other instance that can hold slots. */
  ghost predicate AnnouncedTo(cfgs: seq<Config>, i: nat, op: Op, reachable: bool) {
    i < |cfgs| && forall j: nat :: j < |cfgs| && j != i && Caches(cfgs[j]) ==> Announces(cfgs[i], op, TtlOf(cfgs[j], reachable))
  }

  ghost predicate InstanceBounded(cfgs: seq<Config>, s: System, i: nat)
    requires Shaped(cfgs, s) && i < |cfgs|
  {
    WithinMax(cfgs[i], s.l1s[i]) && forall slot :: slot in s.l1s[i] ==> EndsWithin(slot, s.now, cfgs[i].l1TtlMs)
  }

  /** Every slot ends within its instance's local TTL. */
  ghost predicate Bounded(cfgs: seq<Config>, s: System) {
    Shaped(cfgs, s) && forall i :: 0 <= i < |cfgs| ==> InstanceBounded(cfgs, s, i)
  }

  lemma StepKeepsBounded(cfgs: seq<Config>, s: System, act: Act)
    requires Bounded(cfgs, s) && Enabled(cfgs, s, act)
    ensures Bounded(cfgs, Step(cfgs, s, act))
  {
    hide Apply, AfterReceive, WithinMax, Agrees, KeyKept;
    var t := Step(cfgs, s, act);
    forall i | 0 <= i < |cfgs| ensures InstanceBounded(cfgs, t, i) {
      assert InstanceBounded(cfgs, s, i);
      if act.Do? && act.i == i {
        OpLocalEffect(cfgs[i], s.l1s[i], s.table, s.now, act.op);
        forall slot | slot in t.l1s[i] ensures EndsWithin(slot, t.now, cfgs[i].l1TtlMs) {
          assert OldSlot(s.l1s[i], s.table, s.now, t.table, slot) || NewlyFilled(cfgs[i], s.now, t.table, slot);
        }
      } else if act.Deliver? && act.i == i {
        ReceiveSlots(cfgs[i], s.l1s[i], Some(act.n));
      }
    }
  }

  lemma OtherSlotsKeep(cfgs: seq<Config>, s: System, i: nat, op: Op, j: nat, reachable: bool)
    requires Instances(cfgs) && Coherent(cfgs, s) && i < |cfgs| && j < |cfgs| && i != j
    requires Announces(cfgs[i], op, TtlOf(cfgs[j], reachable)) && (reachable ==> Bounded(cfgs, s))
    ensures InstanceSafe(cfgs, Step(cfgs, s, Do(i, op)), j)
  {
    hide WithinMax, Drops, Apply, Fresh, LiveKey, Announces, KeptWithin, Agrees;
    var t, ttl := Step(cfgs, s, Do(i, op)), TtlOf(cfgs[j], reachable);
    var o := Apply(cfgs[i], s.l1s[i], s.table, s.now, op);
    OpRemoteEffect(cfgs[i], s.l1s[i], s.table, s.now, op, ttl);
    assert InstanceSafe(cfgs, s, j);
    assert reachable ==> InstanceBounded(cfgs, s, j);
    forall slot | slot in t.l1s[j] ensures SlotSafe(cfgs, t, j, slot) {
      assert SlotSafe(cfgs, s, j, slot);
      if Covered(cfgs, s, j, slot.key) {
        StaysCovered(cfgs, s, t, j, slot.key);
      } else if !KeptWithin(s.table, o.table, s.now, slot.key, ttl) {
        var n := Notification(cfgs[i].ns, cfgs[i].instanceId, o.publish.value);
        assert Pending(t, j, n) && Heeds(cfgs[j], n);
      } else if Fresh(slot, s.now) {
        KeptSlotAgrees(slot, s.table, o.table, s.now, ttl);
      }
    }
  }

  lemma NoSlotsAreSafe(cfgs: seq<Config>, s: System, t: System, j: nat)
    requires Coherent(cfgs, s) && Shaped(cfgs, t) && j < |cfgs| && t.l1s[j] == s.l1s[j] && !Caches(cfgs[j])
    ensures InstanceSafe(cfgs, t, j)
  {
    assert InstanceSafe(cfgs, s, j);
    assert t.l1s[j] == [];
  }

  lemma StepKeepsCoherence(cfgs: seq<Config>, s: System, act: Act, reachable: bool)
    requires Instances(cfgs) && Coherent(cfgs, s) && Enabled(cfgs, s, act) && (reachable ==> Bounded(cfgs, s))
    requires act.Do? ==> AnnouncedTo(cfgs, act.i, act.op, reachable)
    ensures Coherent(cfgs, Step(cfgs, s, act))
  {
    hide Announces, InstanceSafe, Bounded, Apply, AfterReceive;
    match act
    case Tick(ms) => TickKeeps(cfgs, s, ms);
    case Send(n) => SendKeeps(cfgs, s, n);
    case Deliver(i, n) => DeliverKeeps(cfgs, s, i, n);
    case Do(i, op) =>
      forall j: nat | j < |cfgs| ensures InstanceSafe(cfgs, Step(cfgs, s, act), j) {
        if j == i {
          OwnSlotsKeep(cfgs, s, i, op);
        } else if Caches(cfgs[j]) {
          OtherSlotsKeep(cfgs, s, i, op, j, reachable);
        } else {
          NoSlotsAreSafe(cfgs, s, Step(cfgs, s, act), j);
        }
      }
  }

  // ---- runs ----

  function Cold(cfgs: seq<Config>, table: Table, now: int): (s: System)
    ensures Shaped(cfgs, s)
  {
    System(table, now, seq(|cfgs|, _ => []), multiset{}, seq(|cfgs|, _ => multiset{}))
  }

  lemma ColdIsCoherent(cfgs: seq<Config>, table: Table, now: int)
    ensures Coherent(cfgs, Cold(cfgs, table, now)) && Bounded(cfgs, Cold(cfgs, table, now))
  {
    var s := Cold(cfgs, table, now);
    forall i | 0 <= i < |cfgs| ensures InstanceSafe(cfgs, s, i) && InstanceBounded(cfgs, s, i) { assert s.l1s[i] == []; }
  }

  /** In every reachable state every slot ends within its instance's local TTL, whatever was announced. */
  lemma {:induction false} RunKeepsBounded(cfgs: seq<Config>, s: System, acts: seq<Act>, t: System)
    requires Bounded(cfgs, s) && Reaches(cfgs, s, acts, t)
    ensures Bounded(cfgs, t)
    decreases |acts|
  {
    hide InstanceBounded, Step;
    if acts != [] {
      StepKeepsBounded(cfgs, s, acts[0]);
      RunKeepsBounded(cfgs, Step(cfgs, s, acts[0]), acts[1..], t);
    }
  }

  /**
    Multi-instance coherence, over every interleaving: from any coherent state if every operation announces what it
    can disturb at all, and from a state that respects the local TTLs if it announces what it can disturb within them.
  */
  lemma {:induction false} RunKeepsCoherence(cfgs: seq<Config>, s: System, acts: seq<Act>, t: System, reachable: bool)
    requires Instances(cfgs) && Coherent(cfgs, s) && Reaches(cfgs, s, acts, t) && (reachable ==> Bounded(cfgs, s))
    requires forall k :: 0 <= k < |acts| && acts[k].Do? ==> AnnouncedTo(cfgs, acts[k].i, acts[k].op, reachable)
    ensures Coherent(cfgs, t)
    decreases |acts|
  {
    hide AnnouncedTo, InstanceSafe, InstanceBounded, Step;
    if acts != [] {
      StepKeepsCoherence(cfgs, s, acts[0], reachable);
      if reachable { StepKeepsBounded(cfgs, s, acts[0]); }
      RunKeepsCoherence(cfgs, Step(cfgs, s, acts[0]), acts[1..], t, reachable);
    }
  }

  /** From empty caches, once every notification for an instance is delivered, all its fresh slots repeat the table. */
  lemma DeliveredMeansAgreement(cfgs: seq<Config>, table: Table, now: int, acts: seq<Act>, t: System, i: nat)
    requires Instances(cfgs) && Reaches(cfgs, Cold(cfgs, table, now), acts, t) && i < |cfgs|
    requires forall k :: 0 <= k < |acts| && acts[k].Do? ==> AnnouncedTo(cfgs, acts[k].i, acts[k].op, true)
    requires Shaped(cfgs, t) && t.unsent == multiset{} && t.inbox[i] == multiset{}
    ensures AllAgree(t.l1s[i], t.table, t.now)
    ensures WithinMax(cfgs[i], t.l1s[i])
  {
    hide AnnouncedTo, Reaches, Agrees, WithinMax, Bounded;
    ColdIsCoherent(cfgs, table, now);
    RunKeepsCoherence(cfgs, Cold(cfgs, table, now), acts, t, true);
    assert InstanceSafe(cfgs, t, i);
    forall slot | slot in t.l1s[i] && Fresh(slot, t.now) ensures Agrees(slot, t.table, t.now) {
      assert SlotSafe(cfgs, t, i, slot);
    }
  }

  // ---- exactly these operations ----

  /** A table of one row, and one instance that holds one slot. */
  function OneCopy(cfgs: seq<Config>, key: string, row: Row, now: int, j: nat, slot: Slot): (s: System)
    requires j < |cfgs|
    ensures Shaped(cfgs, s)
  {
    var cold := Cold(cfgs, map[key := row], now);
    cold.(l1s := cold.l1s[j := [slot]])
  }

  lemma OneCopyIsCoherent(cfgs: seq<Config>, key: string, row: Row, now: int, j: nat, slot: Slot)
    requires j < |cfgs| && Caches(cfgs[j]) && Agrees(slot, map[key := row], now)
    ensures Coherent(cfgs, OneCopy(cfgs, key, row, now, j, slot))
  {
    hide Agrees;
    var s := OneCopy(cfgs, key, row, now, j, slot);
    forall i: nat | i < |cfgs| ensures InstanceSafe(cfgs, s, i) {
      if i != j { assert s.l1s[i] == []; }
      forall x | x in s.l1s[i] ensures SlotSafe(cfgs, s, i, x) { assert i == j && x == slot; }
    }
  }

  /** An unannounced operation leaves the one copy fresh, wrong and uncovered. */
  lemma SilentOpBreaksOneCopy(cfgs: seq<Config>, i: nat, op: Op, now: int, j: nat, localTtlMs: int)
    requires i < |cfgs| && j < |cfgs| && i != j && Caches(cfgs[j]) && !Announces(cfgs[i], op, localTtlMs)
    ensures var (key, row) := Victim(op, localTtlMs);
      var s := OneCopy(cfgs, key, row, now, j, CopyOf(key, row, now, localTtlMs));
      Coherent(cfgs, s) && !Coherent(cfgs, Step(cfgs, s, Do(i, op)))
  {
    hide CanDisturb, Silent, Apply, Agrees, Fresh, Drops, WithinMax;
    var (key, row) := Victim(op, localTtlMs);
    var slot := CopyOf(key, row, now, localTtlMs);
    var s := OneCopy(cfgs, key, row, now, j, slot);
    SilentOpDisturbs(cfgs[i], s.l1s[i], now, op, localTtlMs);
    OneCopyIsCoherent(cfgs, key, row, now, j, slot);
    var t := Step(cfgs, s, Do(i, op));
    assert t.l1s[j] == [slot] && slot in t.l1s[j];
    assert !Covered(cfgs, t, j, key) && !SlotSafe(cfgs, t, j, slot);
    assert !InstanceSafe(cfgs, t, j);
  }

  /** An operation keeps every coherent system coherent exactly if it announces what it can disturb. */
  lemma KeepsCoherenceIff(cfgs: seq<Config>, i: nat, op: Op)
    requires Instances(cfgs) && i < |cfgs|
    ensures AnnouncedTo(cfgs, i, op, false) <==> forall s :: Coherent(cfgs, s) ==> Coherent(cfgs, Step(cfgs, s, Do(i, op)))
  {
    hide Announces, CanDisturb, Step, InstanceSafe, OneCopy;
    if AnnouncedTo(cfgs, i, op, false) {
      forall s | Coherent(cfgs, s) ensures Coherent(cfgs, Step(cfgs, s, Do(i, op))) { StepKeepsCoherence(cfgs, s, Do(i, op), false); }
    } else {
      var j: nat :| j < |cfgs| && j != i && Caches(cfgs[j]) && !Announces(cfgs[i], op, TtlOf(cfgs[j], false));
      SilentOpBreaksOneCopy(cfgs, i, op, 0, j, 0);
    }
  }

  /** A first read of a row without expiry leaves its copy in L1. */
  lemma FirstRead(cfgs: seq<Config>, key: string, row: Row, now: int, j: nat)
    requires j < |cfgs| && Caches(cfgs[j]) && row.expiresAt.None?
    ensures Step(cfgs, Cold(cfgs, map[key := row], now), Do(j, Get(key)))
      == OneCopy(cfgs, key, row, now, j, CopyOf(key, row, now, cfgs[j].l1TtlMs))
  {
    var slot := CopyOf(key, row, now, cfgs[j].l1TtlMs);
    assert Find([], key) == None && Remove([], key) == [];
    assert [] + [slot] == [slot] && |[slot]| <= cfgs[j].l1Max;
    assert Apply(cfgs[j], [], map[key := row], now, Get(key)).l1 == [slot];
  }

  lemma OneStep(cfgs: seq<Config>, s: System, act: Act)
    requires Shaped(cfgs, s) && Enabled(cfgs, s, act)
    ensures Reaches(cfgs, s, [act], Step(cfgs, s, act))
  {
    hide Step;
    assert [act][1..] == [];
  }

  /**
    An operation keeps every coherent reachable system coherent exactly if it announces what it can disturb within
    the local TTLs: an unannounced new expiry, or swap of a value for itself, does harm only if it falls below the
    local TTL of some other instance.
  */
  lemma ReachableKeepsCoherenceIff(cfgs: seq<Config>, i: nat, op: Op)
    requires Instances(cfgs) && i < |cfgs|
    ensures AnnouncedTo(cfgs, i, op, true)
      <==> forall table, now, acts, s :: Reaches(cfgs, Cold(cfgs, table, now), acts, s) && Coherent(cfgs, s) ==>
             Coherent(cfgs, Step(cfgs, s, Do(i, op)))
  {
    hide CanDisturb, Silent, Step, InstanceSafe, InstanceBounded, OneCopy, Cold, Reaches;
    if AnnouncedTo(cfgs, i, op, true) {
      forall table, now, acts, s | Reaches(cfgs, Cold(cfgs, table, now), acts, s) && Coherent(cfgs, s)
        ensures Coherent(cfgs, Step(cfgs, s, Do(i, op)))
      {
        ColdIsCoherent(cfgs, table, now);
        RunKeepsBounded(cfgs, Cold(cfgs, table, now), acts, s);
        StepKeepsCoherence(cfgs, s, Do(i, op), true);
      }
    } else {
      var j: nat :| j < |cfgs| && j != i && Caches(cfgs[j]) && !Announces(cfgs[i], op, TtlOf(cfgs[j], true));
      var ttl := cfgs[j].l1TtlMs;
      var (key, row) := Victim(op, ttl);
      SilentOpBreaksOneCopy(cfgs, i, op, 0, j, ttl);
      VictimNeverExpires(op, ttl);
      FirstRead(cfgs, key, row, 0, j);
      OneStep(cfgs, Cold(cfgs, map[key := row], 0), Do(j, Get(key)));
    }
  }

  lemma VictimNeverExpires(op: Op, localTtlMs: int)
    requires CanDisturb(op, localTtlMs)
    ensures Victim(op, localTtlMs).1.expiresAt.None?
  {}
}
