/**
  Progress of the LISTEN client: an open listener never stops trying to connect, and from every reachable open state
  the environment alone can bring it back to a connection on which LISTEN is written and every waiting query settles.
*/
module ListenerProgress {
  import opened Wrappers
  import opened Listener
  import opened ListenerSafety

  /** An open listener has a connection, or is making one, or has one due. */
  predicate StaysOn(s: State) { !s.closed ==> !s.phase.Off? }

  lemma FlushKeepsOn(s: State)
    ensures Flushed(s).phase == s.phase && Flushed(s).closed == s.closed && Flushed(s).startupReady == s.startupReady
    ensures Flushed(s).nextId == s.nextId && Flushed(s).connected == s.connected
  {}

  lemma WithQueryKeepsOn(s: State, kind: Kind, front: bool)
    ensures WithQuery(s, kind, front).phase == s.phase && WithQuery(s, kind, front).closed == s.closed
    ensures WithQuery(s, kind, front).startupReady == s.startupReady && WithQuery(s, kind, front).nextId >= s.nextId
  {
    hide Flushed;
    if !s.closed {
      var q := Query(s.nextId, kind, false);
      FlushKeepsOn(s.(queue := if front then [q] + s.queue else s.queue + [q],
                      nextId := s.nextId + 1, log := Then(s.log, Enqueued(q.id, kind))));
    }
  }

  lemma ReadyKeepsOn(s: State)
    requires s.owed != []
    ensures AfterReady(s).phase == s.phase && AfterReady(s).closed == s.closed
    ensures s.startupReady || s.active.None? ==> AfterReady(s).startupReady
    ensures AfterReady(s).nextId >= s.nextId
  {
    hide Flushed, WithQuery;
    var t := s.(ready := true, owed := s.owed[1..], log := Then(s.log, GotReady(s.owed[0])));
    if t.active.Some? {
      var q := t.active.value;
      var u := t.(active := None, log := Then(t.log, if q.failed then Rejected(q.id) else Resolved(q.id)));
      FlushKeepsOn(if q.kind == Listen && !q.failed then u.(listening := true) else u);
    } else {
      FlushKeepsOn(t);
      WithQueryKeepsOn(t.(startupReady := true), Listen, true);
    }
  }

  lemma StepKeepsOn(s: State, e: Event)
    requires Enabled(s, e) && StaysOn(s)
    ensures StaysOn(Step(s, e)) && Step(s, e).nextId >= s.nextId
  {
    hide AfterReady, WithQuery, HealthCheckDue, RejectIds;
    match e
    case ServerReady => ReadyKeepsOn(s);
    case UserNotify => WithQueryKeepsOn(s, Notify, false);
    case HealthTick => WithQueryKeepsOn(s, Health, false);
    case _ =>
  }

  lemma {:induction false} RunKeepsOn(s: State, events: seq<Event>, t: State)
    requires Reaches(s, events, t) && StaysOn(s)
    ensures StaysOn(t) && t.nextId >= s.nextId
    decreases |events|
  {
    hide Step, StaysOn;
    if events != [] {
      StepKeepsOn(s, events[0]);
      RunKeepsOn(Step(s, events[0]), events[1..], t);
    }
  }

  /** In every reachable state, only a closed listener is without a connection and without one to come. */
  lemma OpenMeansOn(channels: bool, events: seq<Event>, t: State)
    requires Reaches(Initial(channels), events, t)
    ensures !t.closed ==> !t.phase.Off?
    ensures t.closed ==> !t.phase.Waiting?
  {
    RunKeepsOn(Initial(channels), events, t);
    InitialInv(channels);
    RunKeepsInv(Initial(channels), events, t);
  }

  // ---- back to a connection ----

  /** LISTEN was written on the connection opened last. */
  predicate ListenSinceOpen(log: Log) {
    log.Then? && !log.entry.Opened? && ((log.entry.Wrote? && log.entry.kind == Listen) || ListenSinceOpen(log.before))
  }

  lemma {:induction false} FirstWriteIsListen(log: Log)
    requires ListenFirst(log) && WroteSinceOpen(log)
    ensures ListenSinceOpen(log)
  {
    if WroteSinceOpen(log.before) { FirstWriteIsListen(log.before); }
  }

  /** What the environment still has to do until the connection has started up. */
  function UntilStarted(s: State): seq<Event> {
    match s.phase
    case Off => []
    case Waiting => [Connect, Open, ServerReady]
    case Connecting => [Open, ServerReady]
    case Live => if s.startupReady then [] else [ServerReady]
  }

  lemma StartsUp(s: State)
    requires Inv(s) && StaysOn(s) && !s.closed
    ensures exists u ::
      Reaches(s, UntilStarted(s), u) && Inv(u) && u.phase.Live? && u.startupReady && !u.closed && u.channels == s.channels
    decreases |UntilStarted(s)|
  {
    hide Inv, AfterReady, AfterSocketClosed, AfterUserClose, AfterError, WithQuery;
    if UntilStarted(s) == [] {
      assert Reaches(s, [], s);
    } else {
      var e := UntilStarted(s)[0];
      PhaseMeans(s);
      var next := Step(s, e);
      StepKeepsInv(s, e);
      StepKeepsOn(s, e);
      StepKeepsChannels(s, e);
      if e == ServerReady { ReadyKeepsOn(s); }
      StartsUp(next);
      var u :| Reaches(next, UntilStarted(next), u) && Inv(u) && u.phase.Live? && u.startupReady && !u.closed && u.channels == next.channels;
      ReachesBefore(s, e, UntilStarted(next), u);
      assert UntilStarted(s) == [e] + UntilStarted(next);
    }
  }

  /** What the invariant says of a connection that has not started up. */
  lemma PhaseMeans(s: State)
    requires Inv(s)
    ensures s.phase.Live? && !s.startupReady ==> s.active.None? && s.owed == [Startup]
    ensures s.phase.Connecting? ==> !s.startupReady
  {
    hide Accounted, QueueInOrder, ActiveMatchesLog, ListenStarted, WrittenInOrder, SettledRightly, AnsweredAreSettled;
  }

  /**
    From every reachable open state the connection's own events alone lead to a started connection, and with channels
    to one on which LISTEN has been written.
  */
  lemma ReconnectIsReachable(channels: bool, events: seq<Event>, t: State)
    requires Reaches(Initial(channels), events, t) && !t.closed
    ensures exists u ::
      Reaches(t, UntilStarted(t), u) && u.phase.Live? && u.startupReady && !u.closed && (channels ==> ListenSinceOpen(u.log))
    ensures t.phase.Live? ==> Step(t, SocketClosed).phase.Waiting? && !Step(t, SocketClosed).closed
    ensures t.phase.Connecting? ==> Step(t, ConnectFailed).phase.Waiting? && !Step(t, ConnectFailed).closed
  {
    hide Inv, Step;
    InitialInv(channels);
    RunKeepsInv(Initial(channels), events, t);
    RunKeepsOn(Initial(channels), events, t);
    ChannelsNeverChange(Initial(channels), events, t);
    LostMeansWaiting(t);
    StartsUp(t);
    var u :| Reaches(t, UntilStarted(t), u) && Inv(u) && u.phase.Live? && u.startupReady && !u.closed && u.channels == t.channels;
    if channels { StartedMeansListen(u); }
  }

  lemma StartedMeansListen(s: State)
    requires Inv(s) && s.channels && s.phase.Live? && s.startupReady && !s.closed
    ensures ListenSinceOpen(s.log)
  {
    hide Accounted, QueueInOrder, ActiveMatchesLog, WrittenInOrder, SettledRightly, AnsweredAreSettled;
    FirstWriteIsListen(s.log);
  }

  // ---- everything that waits gets its answer ----

  function Waiting(s: State): nat { |s.queue| + if s.active.Some? then 1 else 0 }

  /** One answer: one query less waits, and with channels the next one is out. */
  lemma AnswerLeavesOneLess(s: State)
    requires Inv(s) && s.channels && s.phase.Live? && s.startupReady && !s.closed && Waiting(s) > 0
    ensures Enabled(s, ServerReady)
    ensures var t := AfterReady(s);
      && Waiting(t) == Waiting(s) - 1 && t.phase.Live? && t.startupReady && !t.closed && t.channels
      && t.nextId == s.nextId && (s.connected ==> t.connected)
      && (s.active.Some? && s.active.value.kind == Listen && !s.active.value.failed ==> t.listening)
  {
    hide Accounted, QueueInOrder, ActiveMatchesLog, ListenStarted, WrittenInOrder, SettledRightly, AnsweredAreSettled;
  }

  lemma NothingWaitsMeans(s: State)
    requires Inv(s) && Waiting(s) == 0
    ensures forall id: nat :: id < s.nextId ==> SettledCount(s.log, id) == 1
  {
    forall id: nat | id < s.nextId ensures SettledCount(s.log, id) == 1 { AccountedMeans(s, id); }
  }

  function Answers(n: nat): seq<Event> { seq(n, i => ServerReady) }

  lemma {:induction false} AnswersDrain(s: State)
    requires Inv(s) && s.channels && s.phase.Live? && s.startupReady && !s.closed
    ensures exists u ::
      && Reaches(s, Answers(Waiting(s)), u) && Inv(u) && Waiting(u) == 0 && u.nextId == s.nextId && u.phase.Live? && !u.closed
      && (s.connected ==> u.connected)
    decreases Waiting(s)
  {
    hide Inv, AfterReady;
    if Waiting(s) == 0 {
      assert Reaches(s, [], s);
    } else {
      AnswerLeavesOneLess(s);
      StepKeepsInv(s, ServerReady);
      var t := Step(s, ServerReady);
      AnswersDrain(t);
      var u :| && Reaches(t, Answers(Waiting(t)), u) && Inv(u) && Waiting(u) == 0 && u.nextId == t.nextId && u.phase.Live? && !u.closed
               && (t.connected ==> u.connected);
      ReachesBefore(s, ServerReady, Answers(Waiting(t)), u);
      assert Answers(Waiting(s)) == [ServerReady] + Answers(Waiting(t));
    }
  }

  lemma {:induction false} ReachesThrough(s: State, first: seq<Event>, t: State, second: seq<Event>, u: State)
    requires Reaches(s, first, t) && Reaches(t, second, u)
    ensures Reaches(s, first + second, u)
    decreases |first|
  {
    hide Step;
    if first == [] {
      assert first + second == second;
    } else {
      ReachesThrough(Step(s, first[0]), first[1..], t, second, u);
      assert first + second == [first[0]] + (first[1..] + second);
      ReachesBefore(s, first[0], first[1..] + second, u);
    }
  }

  /**
    With channels, from every reachable open state a run of connects, opens and answers settles every query enqueued so
    far and leaves nothing waiting.
  */
  lemma EveryQueryCanSettle(events: seq<Event>, t: State)
    requires Reaches(Initial(true), events, t) && !t.closed
    ensures exists more, u ::
      && Reaches(t, more, u) && (forall e :: e in more ==> e in {Connect, Open, ServerReady})
      && u.phase.Live? && !u.closed && t.nextId <= u.nextId && Waiting(u) == 0
      && (forall id: nat :: id < u.nextId ==> SettledCount(u.log, id) == 1)
  {
    hide Inv, Step, AfterReady;
    InitialInv(true);
    RunKeepsInv(Initial(true), events, t);
    RunKeepsOn(Initial(true), events, t);
    ChannelsNeverChange(Initial(true), events, t);
    StartsUp(t);
    var v :| Reaches(t, UntilStarted(t), v) && Inv(v) && v.phase.Live? && v.startupReady && !v.closed && v.channels == t.channels;
    AnswersDrain(v);
    var u :| Reaches(v, Answers(Waiting(v)), u) && Inv(u) && Waiting(u) == 0 && u.phase.Live? && !u.closed;
    var more := UntilStarted(t) + Answers(Waiting(v));
    ReachesThrough(t, UntilStarted(t), v, Answers(Waiting(v)), u);
    NothingWaitsMeans(u);
    RunKeepsOn(t, more, u);
  }

  // ---- connected again ----

  /** The loss of what there is of a connection. */
  function UntilLost(s: State): seq<Event> {
    match s.phase
    case Connecting => [ConnectFailed]
    case Live => [SocketClosed]
    case _ => []
  }

  lemma LosesConnection(s: State)
    requires Inv(s) && StaysOn(s) && !s.closed
    ensures exists u :: Reaches(s, UntilLost(s), u) && Inv(u) && u.phase.Waiting? && !u.closed && u.channels == s.channels
  {
    hide Inv;
    if UntilLost(s) == [] {
      assert Reaches(s, [], s);
    } else {
      var e := UntilLost(s)[0];
      var u := Step(s, e);
      StepKeepsInv(s, e);
      StepKeepsOn(s, e);
      StepKeepsChannels(s, e);
      LostMeansWaiting(s);
      assert Reaches(u, [], u);
      ReachesBefore(s, e, [], u);
      assert [e] + [] == UntilLost(s);
    }
  }

  lemma LostMeansWaiting(s: State)
    requires !s.closed
    ensures s.phase.Live? ==> Step(s, SocketClosed).phase.Waiting? && !Step(s, SocketClosed).closed
    ensures s.phase.Connecting? ==> Step(s, ConnectFailed).phase.Waiting? && !Step(s, ConnectFailed).closed
  {
    hide RejectIds;
  }

  /** What the first answer on a connection does. */
  lemma StartupAnswered(s: State)
    requires Inv(s) && s.phase.Live? && !s.startupReady && !s.closed
    ensures var t := AfterReady(s);
      && t.startupReady && t.phase.Live? && !t.closed && t.channels == s.channels
      && (s.channels ==> t.active.Some? && t.active.value.kind == Listen && !t.active.value.failed)
      && (!s.channels ==> t.connected)
  {
    hide Accounted, QueueInOrder, ActiveMatchesLog, ListenStarted, WrittenInOrder, SettledRightly, AnsweredAreSettled;
    if s.channels { ListenIsWritten(s); } else { StartupIsQuiet(s); }
  }

  lemma ConnectAndOpen(s: State)
    requires s.phase.Waiting? && !s.closed
    ensures var t := Step(Step(s, Connect), Open);
      && Enabled(s, Connect) && Enabled(Step(s, Connect), Open) && Enabled(t, ServerReady)
      && t.phase.Live? && !t.startupReady && !t.closed && t.channels == s.channels
  {}

  /** The events of a connection that goes well. */
  function GoesWell(channels: bool): seq<Event> {
    if channels then [Connect, Open, ServerReady, ServerReady, Continue] else [Connect, Open, ServerReady]
  }

  lemma WaitingReconnects(s: State)
    requires Inv(s) && s.phase.Waiting? && !s.closed
    ensures exists u :: Reaches(s, GoesWell(s.channels), u) && u.connected && u.phase.Live? && !u.closed
  {
    hide Inv, AfterReady;
    ConnectAndOpen(s);
    var t := Step(Step(s, Connect), Open);
    StepKeepsInv(s, Connect);
    StepKeepsInv(Step(s, Connect), Open);
    StartupAnswered(t);
    StepKeepsInv(t, ServerReady);
    var v := Step(t, ServerReady);
    if s.channels {
      AnswerLeavesOneLess(v);
      var w := Step(v, ServerReady);
      var u := Step(w, Continue);
      assert Reaches(u, [], u);
      ReachesBefore(w, Continue, [], u);
      ReachesBefore(v, ServerReady, [Continue], u);
      ReachesBefore(t, ServerReady, [ServerReady, Continue], u);
      ReachesBefore(Step(s, Connect), Open, [ServerReady, ServerReady, Continue], u);
      ReachesBefore(s, Connect, [Open, ServerReady, ServerReady, Continue], u);
    } else {
      assert Reaches(v, [], v);
      ReachesBefore(t, ServerReady, [], v);
      ReachesBefore(Step(s, Connect), Open, [ServerReady], v);
      ReachesBefore(s, Connect, [Open, ServerReady], v);
    }
  }

  /** Whatever the state of its connection, an open listener is connected again after one loss and one connection that goes well. */
  lemma LossIsRecovered(channels: bool, events: seq<Event>, t: State)
    requires Reaches(Initial(channels), events, t) && !t.closed
    ensures exists u :: Reaches(t, UntilLost(t) + GoesWell(channels), u) && u.connected && u.phase.Live? && !u.closed
  {
    hide Inv, Step;
    InitialInv(channels);
    RunKeepsInv(Initial(channels), events, t);
    RunKeepsOn(Initial(channels), events, t);
    ChannelsNeverChange(Initial(channels), events, t);
    LosesConnection(t);
    var v :| Reaches(t, UntilLost(t), v) && Inv(v) && v.phase.Waiting? && !v.closed && v.channels == t.channels;
    WaitingReconnects(v);
    var u :| Reaches(v, GoesWell(v.channels), u) && u.connected && u.phase.Live? && !u.closed;
    ReachesThrough(t, UntilLost(t), v, GoesWell(channels), u);
  }

  // ---- the health check ----

  /** With channels, a health tick on a connected listener that is free writes a health query at once; otherwise a free listener ignores it. */
  lemma HealthTickAsks(events: seq<Event>, t: State)
    requires Reaches(Initial(true), events, t) && t.ready
    ensures Step(t, HealthTick) ==
      if t.closed || !t.connected then t
      else t.(active := Some(Query(t.nextId, Health, false)), ready := false, owed := [Simple(t.nextId)], nextId := t.nextId + 1,
              log := Then(Then(t.log, Enqueued(t.nextId, Health)), Wrote(t.nextId, Health)))
  {
    hide Inv;
    InitialInv(true);
    RunKeepsInv(Initial(true), events, t);
    ChannelsNeverChange(Initial(true), events, t);
    ReadyMeans(t);
    assert [Query(t.nextId, Health, false)][1..] == [];
  }

  lemma ReadyMeans(s: State)
    requires Inv(s) && s.channels && s.ready
    ensures s.phase.Live? && s.active.None? && s.queue == [] && s.owed == []
  {
    hide Accounted, QueueInOrder, ActiveMatchesLog, ListenStarted, WrittenInOrder, SettledRightly, AnsweredAreSettled;
  }

  // ---- the status ----

  /** Connected means that the connection is there and has started up. */
  predicate StatusOk(s: State) { s.connected ==> s.phase.Live? && s.startupReady }

  /** Every continuation of a resolved LISTEN runs while the connection it came from still stands. */
  predicate Prompt(s: State, events: seq<Event>)
    decreases |events|
  {
    events == [] ||
    (Enabled(s, events[0]) && (events[0].Continue? ==> s.phase.Live? && s.startupReady) && Prompt(Step(s, events[0]), events[1..]))
  }

  lemma ReadyKeepsStatus(s: State)
    requires Inv(s) && Enabled(s, ServerReady) && StatusOk(s)
    ensures StatusOk(AfterReady(s))
  {
    hide Accounted, QueueInOrder, ActiveMatchesLog, ListenStarted, WrittenInOrder, SettledRightly, AnsweredAreSettled;
  }

  lemma WithQueryKeepsStatus(s: State, kind: Kind, front: bool)
    ensures WithQuery(s, kind, front).connected == s.connected
  {
    hide Flushed;
    if !s.closed {
      var q := Query(s.nextId, kind, false);
      FlushKeepsOn(s.(queue := if front then [q] + s.queue else s.queue + [q],
                      nextId := s.nextId + 1, log := Then(s.log, Enqueued(q.id, kind))));
    }
  }

  lemma StepKeepsStatus(s: State, e: Event)
    requires Inv(s) && Enabled(s, e) && StatusOk(s) && (e.Continue? ==> s.phase.Live? && s.startupReady)
    ensures StatusOk(Step(s, e))
  {
    hide Inv, AfterReady, WithQuery, HealthCheckDue, RejectIds;
    match e
    case ServerReady => ReadyKeepsStatus(s);
    case UserNotify => WithQueryKeepsStatus(s, Notify, false); WithQueryKeepsOn(s, Notify, false);
    case HealthTick => WithQueryKeepsStatus(s, Health, false); WithQueryKeepsOn(s, Health, false);
    case _ =>
  }

  lemma {:induction false} RunKeepsStatus(s: State, events: seq<Event>, t: State)
    requires Reaches(s, events, t) && Prompt(s, events) && Inv(s) && StatusOk(s)
    ensures StatusOk(t)
    decreases |events|
  {
    hide Step, Inv, StatusOk;
    if events != [] {
      StepKeepsStatus(s, events[0]);
      StepKeepsInv(s, events[0]);
      RunKeepsStatus(Step(s, events[0]), events[1..], t);
    }
  }

  /** The status says connected only while the connection stands and has started up. */
  lemma ConnectedMeansStarted(channels: bool, events: seq<Event>, t: State)
    requires Reaches(Initial(channels), events, t) && Prompt(Initial(channels), events) && t.connected
    ensures t.phase.Live? && t.startupReady
  {
    hide Inv;
    InitialInv(channels);
    RunKeepsStatus(Initial(channels), events, t);
  }
}
