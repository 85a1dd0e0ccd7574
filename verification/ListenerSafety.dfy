/**
  Safety of the LISTEN client over every run: user calls, health ticks, connections, server messages, connection
  losses and close() in any order the environment allows.
*/
module ListenerSafety {
  import opened Wrappers
  import opened Listener

  // ---- reading the log ----

  /** How often a query's promise has been settled. */
  function SettledCount(log: Log, id: nat): nat {
    match log
    case Start => 0
    case Then(before, e) => SettledCount(before, id) + if e == Resolved(id) || e == Rejected(id) then 1 else 0
  }

  /** The query written last. */
  function LastWritten(log: Log): Option<nat> {
    match log
    case Start => None
    case Then(before, e) => if e.Wrote? then Some(e.id) else LastWritten(before)
  }

  predicate ErrorSinceWrite(log: Log) {
    log.Then? && !log.entry.Wrote? && (log.entry.GotError? || ErrorSinceWrite(log.before))
  }

  predicate WroteSinceOpen(log: Log) {
    log.Then? && !log.entry.Opened? && (log.entry.Wrote? || WroteSinceOpen(log.before))
  }

  /** One more than the largest id of a query other than LISTEN written so far. */
  function WrittenUpTo(log: Log): nat {
    match log
    case Start => 0
    case Then(before, e) => if e.Wrote? && e.kind != Listen then e.id + 1 else WrittenUpTo(before)
  }

  /** Queries other than LISTEN are written in the order they were enqueued, each once. */
  predicate WrittenInOrder(log: Log) {
    log.Then? ==>
      && WrittenInOrder(log.before)
      && (log.entry.Wrote? && log.entry.kind != Listen ==> log.entry.id >= WrittenUpTo(log.before))
  }

  /** The first query of every connection is LISTEN. */
  predicate ListenFirst(log: Log) {
    log.Then? ==>
      && ListenFirst(log.before)
      && (log.entry.Wrote? && !WroteSinceOpen(log.before) ==> log.entry.kind == Listen)
  }

  /**
    A query resolves only on the ReadyForQuery that answers it, being the query written last, with no
    ErrorResponse since; a query rejected by a ReadyForQuery had one.
  */
  predicate SettledRightly(log: Log) {
    log.Then? ==>
      && SettledRightly(log.before)
      && (log.entry.Resolved? ==>
            && log.before.Then? && log.before.entry == GotReady(Simple(log.entry.id))
            && LastWritten(log.before) == Some(log.entry.id) && !ErrorSinceWrite(log.before))
      && (log.entry.Rejected? && log.before.Then? && log.before.entry.GotReady? ==>
            && log.before.entry == GotReady(Simple(log.entry.id))
            && LastWritten(log.before) == Some(log.entry.id) && ErrorSinceWrite(log.before))
  }

  /** Every query answered by a ReadyForQuery so far has settled. */
  predicate AnsweredAreSettled(log: Log, all: Log) {
    log.Then? ==>
      && AnsweredAreSettled(log.before, all)
      && (log.entry.GotReady? && log.entry.to.Simple? ==> SettledCount(all, log.entry.to.id) == 1)
  }

  // ---- the invariant ----

  function QueuedCount(queue: seq<Query>, id: nat): nat {
    if queue == [] then 0 else (if queue[0].id == id then 1 else 0) + QueuedCount(queue[1..], id)
  }

  function ActiveCount(active: Option<Query>, id: nat): nat {
    if active.Some? && active.value.id == id then 1 else 0
  }

  /** Every query ever enqueued is settled once, or active, or queued, and only one of these. */
  ghost predicate Accounted(s: State) {
    forall id: nat ::
      SettledCount(s.log, id) + ActiveCount(s.active, id) + QueuedCount(s.queue, id) == if id < s.nextId then 1 else 0
  }

  predicate QueueInOrder(s: State) {
    && (forall i :: 0 <= i < |s.queue| ==> s.queue[i].kind != Listen && !s.queue[i].failed)
    && (forall i :: 0 <= i < |s.queue| ==> WrittenUpTo(s.log) <= s.queue[i].id < s.nextId)
    && (forall i, j :: 0 <= i < j < |s.queue| ==> s.queue[i].id < s.queue[j].id)
    && WrittenUpTo(s.log) <= s.nextId
  }

  /** What the connection owes the client, and what the client waits for. */
  predicate Connection(s: State) {
    && (!s.phase.Live? ==> s.active.None? && !s.ready && s.owed == [])
    && (s.phase.Connecting? ==> !s.startupReady)
    && (s.phase.Live? && !s.startupReady ==> s.active.None? && !s.ready && s.owed == [Startup])
    && (s.phase.Live? && s.startupReady && s.ready ==> s.active.None? && s.owed == [])
    && (s.phase.Live? && s.startupReady && !s.ready ==>
          |s.owed| == 1 && s.owed[0].Simple?
          && (if s.closed then s.active.None? else s.active.Some? && s.active.value.id == s.owed[0].id))
    && (s.closed ==> s.active.None? && s.queue == [] && !s.phase.Waiting?)
    && (s.phase.Live? && s.closed && s.startupReady && !s.ready ==> SettledCount(s.log, s.owed[0].id) == 1)
  }

  predicate ActiveMatchesLog(s: State) {
    s.active.Some? ==> LastWritten(s.log) == Some(s.active.value.id) && ErrorSinceWrite(s.log) == s.active.value.failed
  }

  predicate ListenStarted(s: State) {
    s.channels ==> ListenFirst(s.log) && (s.phase.Live? && s.startupReady && !s.closed ==> WroteSinceOpen(s.log))
  }

  /** What every handler keeps, also between its own steps. */
  ghost predicate Core(s: State) {
    && Accounted(s)
    && QueueInOrder(s)
    && Connection(s)
    && ActiveMatchesLog(s)
    && ListenStarted(s)
    && WrittenInOrder(s.log)
    && SettledRightly(s.log)
    && AnsweredAreSettled(s.log, s.log)
  }

  /** With channels, a connection that is free to take a query leaves none waiting. */
  predicate NeverIdle(s: State) {
    s.channels && s.ready ==> s.queue == []
  }

  ghost predicate Inv(s: State) { Core(s) && NeverIdle(s) }

  lemma InitialInv(channels: bool)
    ensures Inv(Initial(channels))
  {
  }

  // ---- counting ----

  lemma {:induction false} MoreSettled(log: Log, a: Log, b: Log)
    requires AnsweredAreSettled(log, a) && forall id :: SettledCount(a, id) == 1 ==> SettledCount(b, id) == 1
    ensures AnsweredAreSettled(log, b)
  {
    if log.Then? { MoreSettled(log.before, a, b); }
  }

  lemma {:induction false} QueuedAtBack(queue: seq<Query>, q: Query, id: nat)
    ensures QueuedCount(queue + [q], id) == QueuedCount(queue, id) + if q.id == id then 1 else 0
  {
    if queue == [] {
      assert queue + [q] == [q];
      assert [q][1..] == [];
    } else {
      QueuedAtBack(queue[1..], q, id);
      assert (queue + [q])[1..] == queue[1..] + [q];
    }
  }

  lemma {:induction false} NotQueued(queue: seq<Query>, id: nat)
    requires forall i :: 0 <= i < |queue| ==> queue[i].id != id
    ensures QueuedCount(queue, id) == 0
  {
    if queue != [] { NotQueued(queue[1..], id); }
  }

  /** What rejecting a queue adds to the log. */
  lemma {:induction false} RejectIdsCounts(log: Log, queue: seq<Query>, id: nat)
    ensures SettledCount(RejectIds(log, queue), id) == SettledCount(log, id) + QueuedCount(queue, id)
    decreases |queue|
  {
    if queue != [] { RejectIdsCounts(Then(log, Rejected(queue[0].id)), queue[1..], id); }
  }

  lemma {:induction false} RejectIdsKeeps(log: Log, queue: seq<Query>, all: Log)
    requires log.Then? && !log.entry.GotReady?
    requires WrittenInOrder(log) && SettledRightly(log) && AnsweredAreSettled(log, all)
    ensures var after := RejectIds(log, queue);
      && WrittenInOrder(after) && SettledRightly(after) && AnsweredAreSettled(after, all)
      && WrittenUpTo(after) == WrittenUpTo(log) && (ListenFirst(log) ==> ListenFirst(after))
    decreases |queue|
  {
    if queue != [] { RejectIdsKeeps(Then(log, Rejected(queue[0].id)), queue[1..], all); }
  }

  // ---- writing and enqueueing ----

  lemma FlushKeepsInv(s: State)
    requires Core(s)
    ensures Inv(Flushed(s))
  {
    if CanWrite(s) {
      var t := Flushed(s);
      MoreSettled(s.log, s.log, t.log);
    }
  }

  lemma EnqueueKeepsCore(s: State, kind: Kind)
    requires Core(s) && !s.closed && kind != Listen
    ensures var q := Query(s.nextId, kind, false);
      Core(s.(queue := s.queue + [q], nextId := s.nextId + 1, log := Then(s.log, Enqueued(q.id, kind))))
  {
    var q := Query(s.nextId, kind, false);
    var t := s.(queue := s.queue + [q], nextId := s.nextId + 1, log := Then(s.log, Enqueued(q.id, kind)));
    forall id: nat
      ensures SettledCount(t.log, id) + ActiveCount(t.active, id) + QueuedCount(t.queue, id) == if id < t.nextId then 1 else 0
    {
      QueuedAtBack(s.queue, q, id);
    }
    MoreSettled(s.log, s.log, t.log);
  }

  lemma WithQueryKeepsInv(s: State, kind: Kind)
    requires Inv(s) && kind != Listen
    ensures Inv(WithQuery(s, kind, false))
  {
    if !s.closed {
      EnqueueKeepsCore(s, kind);
      var q := Query(s.nextId, kind, false);
      FlushKeepsInv(s.(queue := s.queue + [q], nextId := s.nextId + 1, log := Then(s.log, Enqueued(q.id, kind))));
    }
  }

  // ---- server messages ----

  /** The first ReadyForQuery with channels: LISTEN goes in front of the queue and out at once. */
  lemma ListenIsWritten(s: State)
    requires Inv(s) && s.phase.Live? && !s.startupReady && s.channels && !s.closed
    ensures var q, log := Query(s.nextId, Listen, false), Then(s.log, GotReady(Startup));
      AfterReady(s) == s.(ready := false, startupReady := true, active := Some(q), nextId := s.nextId + 1, owed := [Simple(q.id)],
                          log := Then(Then(log, Enqueued(q.id, Listen)), Wrote(q.id, Listen)))
  {
    hide Accounted, QueueInOrder, ActiveMatchesLog, ListenStarted, WrittenInOrder, SettledRightly, AnsweredAreSettled;
    var q := Query(s.nextId, Listen, false);
    assert ([q] + s.queue)[1..] == s.queue;
  }

  lemma StartupAccounted(s: State)
    requires Inv(s) && s.phase.Live? && !s.startupReady
    ensures Accounted(AfterReady(s))
  {
    hide QueueInOrder, ActiveMatchesLog, ListenStarted, WrittenInOrder, SettledRightly, AnsweredAreSettled, AfterReady;
    var after := AfterReady(s);
    if s.channels && !s.closed {
      ListenIsWritten(s);
      assert QueueInOrder(s);
      NotQueuedYet(s);
    } else {
      StartupIsQuiet(s);
    }
    forall id: nat
      ensures SettledCount(after.log, id) + ActiveCount(after.active, id) + QueuedCount(after.queue, id)
        == if id < after.nextId then 1 else 0
    {
      AccountedMeans(s, id);
      StartupSettlesNothing(s, id);
    }
  }

  lemma StartupSettlesNothing(s: State, id: nat)
    requires Inv(s) && s.phase.Live? && !s.startupReady
    ensures SettledCount(AfterReady(s).log, id) == SettledCount(s.log, id)
  {
    hide Accounted, QueueInOrder, ActiveMatchesLog, ListenStarted, WrittenInOrder, SettledRightly, AnsweredAreSettled, AfterReady;
    if s.channels && !s.closed { ListenIsWritten(s); } else { StartupIsQuiet(s); }
    var ready := Then(s.log, GotReady(Startup));
    var enqueued := Then(ready, Enqueued(s.nextId, Listen));
    assert SettledCount(ready, id) == SettledCount(s.log, id);
    assert SettledCount(enqueued, id) == SettledCount(ready, id);
  }

  lemma NotQueuedYet(s: State)
    requires QueueInOrder(s)
    ensures QueuedCount(s.queue, s.nextId) == 0
  {
    NotQueued(s.queue, s.nextId);
  }

  lemma StartupIsQuiet(s: State)
    requires Inv(s) && s.phase.Live? && !s.startupReady && (s.closed || !s.channels)
    ensures AfterReady(s) == MarkedConnected(s.(ready := true, startupReady := true, owed := [], log := Then(s.log, GotReady(Startup))))
  {
    hide Accounted, QueueInOrder, ActiveMatchesLog, ListenStarted, WrittenInOrder, SettledRightly, AnsweredAreSettled;
  }

  /** The first ReadyForQuery of a connection. */
  lemma StartupReadyKeepsInv(s: State)
    requires Inv(s) && s.phase.Live? && !s.startupReady
    ensures Inv(AfterReady(s))
  {
    hide Accounted, AfterReady;
    StartupAccounted(s);
    if s.channels && !s.closed { ListenIsWritten(s); } else { StartupIsQuiet(s); }
    forall id: nat ensures SettledCount(AfterReady(s).log, id) == SettledCount(s.log, id) { StartupSettlesNothing(s, id); }
    MoreSettled(s.log, s.log, AfterReady(s).log);
    if s.channels && !s.closed {
      var ready := Then(s.log, GotReady(Startup));
      var enqueued := Then(ready, Enqueued(s.nextId, Listen));
      assert AnsweredAreSettled(ready, AfterReady(s).log) && AnsweredAreSettled(enqueued, AfterReady(s).log);
      assert ListenFirst(ready) && ListenFirst(enqueued);
      assert WrittenUpTo(ready) == WrittenUpTo(s.log) == WrittenUpTo(enqueued);
      assert WrittenInOrder(ready) && WrittenInOrder(enqueued);
      assert SettledRightly(ready) && SettledRightly(enqueued);
    }
  }

  /** A ReadyForQuery with a query in flight settles that query. */
  lemma QueryReadyKeepsInv(s: State)
    requires Inv(s) && s.active.Some? && s.owed != []
    ensures Inv(AfterReady(s))
  {
    hide Core;
    var t := Answered(s);
    AnsweredKeepsCore(s);
    StatusIsFree(t, t.connected, true);
    FlushKeepsInv(t);
    FlushKeepsInv(t.(connected := t.connected, listening := true));
    OneAnswerOwed(s);
  }

  lemma OneAnswerOwed(s: State)
    requires Inv(s) && s.active.Some?
    ensures s.owed != [] ==> s.owed[1..] == []
  {}

  /** The active query settled by the ReadyForQuery that answers it, before the next one is written. */
  function Answered(s: State): State
    requires s.active.Some? && s.owed != []
  {
    var q := s.active.value;
    s.(ready := true, owed := [], active := None,
       log := Then(Then(s.log, GotReady(s.owed[0])), if q.failed then Rejected(q.id) else Resolved(q.id)))
  }

  lemma AnsweredKeepsCore(s: State)
    requires Inv(s) && s.active.Some? && s.owed != []
    ensures Core(Answered(s))
  {
    var q, t := s.active.value, Answered(s);
    AccountedMeans(s, q.id);
    forall id: nat
      ensures SettledCount(t.log, id) + ActiveCount(t.active, id) + QueuedCount(t.queue, id) == if id < t.nextId then 1 else 0
      ensures SettledCount(s.log, id) == 1 ==> SettledCount(t.log, id) == 1
    {
      AccountedMeans(s, id);
    }
    MoreSettled(s.log, s.log, t.log);
  }

  /** The protocol does not depend on the status. */
  lemma StatusIsFree(s: State, connected: bool, listening: bool)
    requires Core(s)
    ensures Core(s.(connected := connected, listening := listening))
  {
    hide SettledCount, WrittenUpTo, WrittenInOrder, ListenFirst, SettledRightly, AnsweredAreSettled;
  }

  lemma ReadyKeepsInv(s: State)
    requires Inv(s) && Enabled(s, ServerReady)
    ensures Inv(AfterReady(s))
  {
    if s.active.Some? {
      QueryReadyKeepsInv(s);
    } else if !s.startupReady {
      StartupReadyKeepsInv(s);
    } else {
      var t := s.(ready := true, owed := s.owed[1..], log := Then(s.log, GotReady(s.owed[0])));
      MoreSettled(s.log, s.log, t.log);
      FlushKeepsInv(t);
    }
  }

  lemma ErrorKeepsInv(s: State)
    requires Inv(s)
    ensures Inv(AfterError(s))
  {
    hide Accounted;
    ErrorAccounts(s);
    MoreSettled(s.log, s.log, AfterError(s).log);
  }

  lemma ErrorAccounts(s: State)
    requires Accounted(s)
    ensures Accounted(AfterError(s)) && forall id: nat :: SettledCount(AfterError(s).log, id) == SettledCount(s.log, id)
  {
    hide QueuedCount;
    var t := AfterError(s);
    forall id: nat
      ensures SettledCount(t.log, id) + ActiveCount(t.active, id) + QueuedCount(t.queue, id) == if id < t.nextId then 1 else 0
    {
      AccountedMeans(s, id);
    }
  }

  // ---- rejections ----

  lemma AccountedMeans(s: State, id: nat)
    requires Accounted(s)
    ensures SettledCount(s.log, id) + ActiveCount(s.active, id) + QueuedCount(s.queue, id) == if id < s.nextId then 1 else 0
  {
  }

  /** Rejecting everything that waits, after an entry that settles nothing. */
  lemma RejectedAllSettles(s: State, e: Entry)
    requires Core(s) && (e.Lost? || e.UserClosed?)
    ensures var t := RejectedAll(s.(log := Then(s.log, e)));
      && Accounted(t) && WrittenInOrder(t.log) && SettledRightly(t.log) && AnsweredAreSettled(t.log, t.log)
      && WrittenUpTo(t.log) == WrittenUpTo(s.log) && (ListenFirst(s.log) ==> ListenFirst(t.log))
      && t.active.None? && t.queue == []
  {
    var log0 := Then(s.log, e);
    var log1 := RejectedActive(s.(log := log0)).log;
    var t := RejectedAll(s.(log := log0));
    forall id: nat
      ensures SettledCount(t.log, id) == SettledCount(s.log, id) + ActiveCount(s.active, id) + QueuedCount(s.queue, id)
    {
      RejectIdsCounts(log1, s.queue, id);
    }
    forall id: nat
      ensures SettledCount(t.log, id) + ActiveCount(t.active, id) + QueuedCount(t.queue, id) == if id < t.nextId then 1 else 0
      ensures SettledCount(s.log, id) == 1 ==> SettledCount(t.log, id) == 1
    {
      AccountedMeans(s, id);
    }
    MoreSettled(s.log, s.log, t.log);
    assert ListenFirst(s.log) ==> ListenFirst(log0);
    assert ListenFirst(log0) ==> ListenFirst(log1);
    RejectIdsKeeps(log1, s.queue, t.log);
  }

  lemma UserCloseKeepsInv(s: State)
    requires Inv(s)
    ensures Inv(AfterUserClose(s))
  {
    if !s.closed {
      RejectedAllSettles(s, UserClosed);
      var t := AfterUserClose(s);
      if s.active.Some? {
        AccountedMeans(s, s.active.value.id);
        AccountedMeans(t, s.active.value.id);
      }
    }
  }

  /** Losing the connection: the active query is rejected, and everything if the listener is closed. */
  lemma SocketClosedAccounts(s: State)
    requires Inv(s) && s.phase.Live?
    ensures var t := AfterSocketClosed(s);
      && Accounted(t) && (forall id: nat :: SettledCount(s.log, id) == 1 ==> SettledCount(t.log, id) == 1)
  {
    hide QueueInOrder, ActiveMatchesLog, ListenStarted, WrittenInOrder, SettledRightly, AnsweredAreSettled;
    var t := AfterSocketClosed(s);
    forall id: nat
      ensures SettledCount(t.log, id) + ActiveCount(t.active, id) + QueuedCount(t.queue, id) == if id < t.nextId then 1 else 0
      ensures SettledCount(s.log, id) == 1 ==> SettledCount(t.log, id) == 1
    {
      AccountedMeans(s, id);
    }
  }

  lemma SocketClosedKeepsInv(s: State)
    requires Inv(s) && s.phase.Live?
    ensures Inv(AfterSocketClosed(s))
  {
    hide Accounted, QueuedCount, ActiveCount;
    SocketClosedAccounts(s);
    MoreSettled(s.log, s.log, AfterSocketClosed(s).log);
    var t, lost := AfterSocketClosed(s), Then(s.log, Lost);
    assert AnsweredAreSettled(lost, t.log) && SettledRightly(lost) && WrittenInOrder(lost) && WrittenUpTo(lost) == WrittenUpTo(s.log);
    assert ListenFirst(s.log) ==> ListenFirst(lost);
    assert WrittenInOrder(t.log) && SettledRightly(t.log) && AnsweredAreSettled(t.log, t.log);
  }

  lemma OpenKeepsInv(s: State)
    requires Inv(s) && s.phase.Connecting?
    ensures Inv(Step(s, Open))
  {
    MoreSettled(s.log, s.log, Then(s.log, Opened));
  }

  /** Connecting and failing to connect write nothing. */
  lemma ConnectKeepsInv(s: State)
    requires Inv(s)
    ensures s.phase.Waiting? ==> Inv(AfterConnect(s))
    ensures s.phase.Connecting? ==> Inv(Step(s, ConnectFailed))
  {
    hide SettledCount, WrittenUpTo, WrittenInOrder, ListenFirst, SettledRightly, AnsweredAreSettled;
  }

  lemma StepKeepsInv(s: State, e: Event)
    requires Inv(s) && Enabled(s, e)
    ensures Inv(Step(s, e))
  {
    hide Core, NeverIdle, AfterReady, AfterError, AfterSocketClosed, AfterConnect, AfterUserClose, WithQuery;
    match e
    case Connect => ConnectKeepsInv(s);
    case Open => OpenKeepsInv(s);
    case ConnectFailed => ConnectKeepsInv(s);
    case SocketClosed => SocketClosedKeepsInv(s);
    case ServerReady => ReadyKeepsInv(s);
    case ServerError => ErrorKeepsInv(s);
    case UserNotify => WithQueryKeepsInv(s, Notify);
    case Continue => StatusKeepsInv(s, s.connected || !s.closed, false);
    case HealthTick => if HealthCheckDue(s) { WithQueryKeepsInv(s, Health); }
    case UserClose => UserCloseKeepsInv(s);
  }

  lemma StatusKeepsInv(s: State, connected: bool, listening: bool)
    requires Inv(s)
    ensures Inv(s.(connected := connected, listening := listening))
  {
    hide Core;
    StatusIsFree(s, connected, listening);
  }

  lemma {:induction false} RunKeepsInv(s: State, events: seq<Event>, t: State)
    requires Inv(s) && Reaches(s, events, t)
    ensures Inv(t)
    decreases |events|
  {
    if events != [] {
      StepKeepsInv(s, events[0]);
      RunKeepsInv(Step(s, events[0]), events[1..], t);
    }
  }

  // ---- the promises ----

  /** At most one request is outstanding; while the listener is open an outstanding query is the active one. */
  lemma OneQueryOutstanding(channels: bool, events: seq<Event>, t: State)
    requires Reaches(Initial(channels), events, t)
    ensures |t.owed| <= 1
    ensures !t.closed && t.owed != [] && t.owed[0].Simple? ==> t.active.Some? && t.active.value.id == t.owed[0].id
    ensures t.active.Some? ==> t.owed == [Simple(t.active.value.id)]
  {
    InitialInv(channels);
    RunKeepsInv(Initial(channels), events, t);
  }

  predicate Logged(log: Log, e: Entry) {
    log.Then? && (log.entry == e || Logged(log.before, e))
  }

  lemma {:induction false} UnsettledIsNotLogged(log: Log, id: nat)
    requires SettledCount(log, id) == 0
    ensures !Logged(log, Resolved(id)) && !Logged(log, Rejected(id))
  {
    if log.Then? { UnsettledIsNotLogged(log.before, id); }
  }

  /** A ReadyForQuery settles the active query, which it answers: resolved exactly if no ErrorResponse came since it was written. */
  lemma ReadySettlesActive(s: State)
    requires Inv(s) && s.active.Some? && Enabled(s, ServerReady)
    ensures var id, after := s.active.value.id, Step(s, ServerReady).log;
      && s.owed == [Simple(id)] && LastWritten(s.log) == Some(id)
      && SettledCount(s.log, id) == 0 && SettledCount(after, id) == 1
      && (Logged(after, Resolved(id)) <==> !ErrorSinceWrite(s.log))
      && (Logged(after, Rejected(id)) <==> ErrorSinceWrite(s.log))
  {
    hide WrittenInOrder, WrittenUpTo, ListenFirst, SettledRightly, AnsweredAreSettled, QueuedCount;
    var q := s.active.value;
    AccountedMeans(s, q.id);
    UnsettledIsNotLogged(s.log, q.id);
    var answered := Answered(s).log;
    assert SettledCount(answered.before, q.id) == 0 && SettledCount(answered, q.id) == 1;
    assert Logged(answered, Resolved(q.id)) <==> !q.failed;
    assert Logged(answered, Rejected(q.id)) <==> q.failed;
    OneAnswerOwed(s);
  }

  /**
    In every reachable state: the next ReadyForQuery settles the active query, resolved exactly if no ErrorResponse
    came since it was written; so did every earlier one, as the log shows; and no query settles twice.
  */
  lemma AnswersSettleTheirQuery(channels: bool, events: seq<Event>, t: State)
    requires Reaches(Initial(channels), events, t)
    ensures t.active.Some? && Enabled(t, ServerReady) ==>
      var id, after := t.active.value.id, Step(t, ServerReady).log;
      && t.owed == [Simple(id)] && LastWritten(t.log) == Some(id) && SettledCount(after, id) == 1
      && (Logged(after, Resolved(id)) <==> !ErrorSinceWrite(t.log))
      && (Logged(after, Rejected(id)) <==> ErrorSinceWrite(t.log))
    ensures SettledRightly(t.log)
    ensures AnsweredAreSettled(t.log, t.log)
    ensures forall id: nat :: SettledCount(t.log, id) <= 1
  {
    hide Step;
    InitialInv(channels);
    RunKeepsInv(Initial(channels), events, t);
    forall id: nat ensures SettledCount(t.log, id) <= 1 { AccountedMeans(t, id); }
    if t.active.Some? && Enabled(t, ServerReady) { ReadySettlesActive(t); }
  }

  /** Queries other than LISTEN are written in enqueue order across reconnects; with channels LISTEN opens every connection. */
  lemma WritesAreInOrder(channels: bool, events: seq<Event>, t: State)
    requires Reaches(Initial(channels), events, t)
    ensures WrittenInOrder(t.log)
    ensures channels ==> ListenFirst(t.log)
  {
    InitialInv(channels);
    RunKeepsInv(Initial(channels), events, t);
    ChannelsNeverChange(Initial(channels), events, t);
  }

  lemma FlushKeepsChannels(s: State)
    ensures Flushed(s).channels == s.channels
  {}

  lemma WithQueryKeepsChannels(s: State, kind: Kind, front: bool)
    ensures WithQuery(s, kind, front).channels == s.channels
  {
    hide Flushed;
    if !s.closed {
      var q := Query(s.nextId, kind, false);
      FlushKeepsChannels(s.(queue := if front then [q] + s.queue else s.queue + [q],
                            nextId := s.nextId + 1, log := Then(s.log, Enqueued(q.id, kind))));
    }
  }

  lemma ReadyKeepsChannels(s: State)
    requires s.owed != []
    ensures AfterReady(s).channels == s.channels
  {
    hide Flushed, WithQuery;
    var t := s.(ready := true, owed := s.owed[1..], log := Then(s.log, GotReady(s.owed[0])));
    if t.active.Some? {
      var q := t.active.value;
      var u := t.(active := None, log := Then(t.log, if q.failed then Rejected(q.id) else Resolved(q.id)));
      FlushKeepsChannels(if q.kind == Listen && !q.failed then u.(listening := true) else u);
    } else {
      FlushKeepsChannels(t);
      WithQueryKeepsChannels(t.(startupReady := true), Listen, true);
    }
  }

  lemma StepKeepsChannels(s: State, e: Event)
    requires Enabled(s, e)
    ensures Step(s, e).channels == s.channels
  {
    hide AfterReady, WithQuery, HealthCheckDue, RejectIds;
    match e
    case ServerReady => ReadyKeepsChannels(s);
    case UserNotify => WithQueryKeepsChannels(s, Notify, false);
    case HealthTick => WithQueryKeepsChannels(s, Health, false);
    case _ =>
  }

  lemma {:induction false} ChannelsNeverChange(s: State, events: seq<Event>, t: State)
    requires Reaches(s, events, t)
    ensures t.channels == s.channels
    decreases |events|
  {
    hide Step;
    if events != [] {
      StepKeepsChannels(s, events[0]);
      ChannelsNeverChange(Step(s, events[0]), events[1..], t);
    }
  }

  /** No query is dropped: connect() clears an active query only when there is none. */
  lemma ConnectClearsNothing(channels: bool, events: seq<Event>, t: State)
    requires Reaches(Initial(channels), events, t) && Enabled(t, Connect)
    ensures t.active.None? && AfterConnect(t).queue == t.queue && AfterConnect(t).log == t.log
  {
    InitialInv(channels);
    RunKeepsInv(Initial(channels), events, t);
  }

  /** After close() every query ever enqueued has settled, exactly once. */
  lemma CloseSettlesEverything(channels: bool, events: seq<Event>, t: State)
    requires Reaches(Initial(channels), events, t) && t.closed
    ensures forall id: nat :: id < t.nextId ==> SettledCount(t.log, id) == 1
  {
    InitialInv(channels);
    RunKeepsInv(Initial(channels), events, t);
    forall id: nat | id < t.nextId ensures SettledCount(t.log, id) == 1 { AccountedMeans(t, id); }
  }

  /** While open, a query that has not settled is active or still queued: none is lost. */
  lemma NoQueryIsLost(channels: bool, events: seq<Event>, t: State, id: nat)
    requires Reaches(Initial(channels), events, t) && id < t.nextId && SettledCount(t.log, id) == 0
    ensures (t.active.Some? && t.active.value.id == id) || exists i :: 0 <= i < |t.queue| && t.queue[i].id == id
  {
    InitialInv(channels);
    RunKeepsInv(Initial(channels), events, t);
    AccountedMeans(t, id);
    if forall i :: 0 <= i < |t.queue| ==> t.queue[i].id != id { NotQueued(t.queue, id); }
  }

  /** With at least one channel the client is never idle while queries wait on a ready connection. */
  lemma NeverIdleWithChannels(events: seq<Event>, t: State)
    requires Reaches(Initial(true), events, t) && t.ready
    ensures t.queue == []
  {
    InitialInv(true);
    RunKeepsInv(Initial(true), events, t);
    ChannelsNeverChange(Initial(true), events, t);
  }

  /** Without channels the startup branch does not flush: a query enqueued while connecting waits on a ready connection. */
  lemma IdleWithoutChannels()
    ensures exists events, t :: Reaches(Initial(false), events, t) && t.ready && t.phase.Live? && !t.closed && t.queue != []
  {
    var s0 := Initial(false);
    var s1 := Step(s0, Connect);
    var s2 := Step(s1, UserNotify);
    var s3 := Step(s2, Open);
    var s4 := Step(s3, ServerReady);
    assert Reaches(s4, [], s4);
    ReachesBefore(s3, ServerReady, [], s4);
    ReachesBefore(s2, Open, [ServerReady], s4);
    ReachesBefore(s1, UserNotify, [Open, ServerReady], s4);
    ReachesBefore(s0, Connect, [UserNotify, Open, ServerReady], s4);
    assert s4.ready && s4.queue == [Query(0, Notify, false)];
  }

  lemma ReachesBefore(s: State, e: Event, events: seq<Event>, t: State)
    requires Enabled(s, e) && Reaches(Step(s, e), events, t)
    ensures Reaches(s, [e] + events, t)
  {
    assert ([e] + events)[1..] == events;
  }
}
