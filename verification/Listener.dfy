/**
  The LISTEN client's query queue and reconnect state machine, composed with a server that answers the startup
  message and each simple query with exactly one ReadyForQuery, in order, and may send ErrorResponse at any time.
  One connection lives at a time. Promises are modelled by the log: a query's promise settles when its
  Resolved or Rejected entry is written.
*/
module Listener {
  import opened Wrappers

  datatype Kind = Listen | Notify | Health

  /** A pending query; ids number the queries in the order they were enqueued. `failed`: an ErrorResponse was stored in it. */
  datatype Query = Query(id: nat, kind: Kind, failed: bool)

  /** Off: no socket and no timer. Waiting: connect() is due. Live: activeSocket is set. */
  datatype Phase = Off | Waiting | Connecting | Live

  /** What the server still has to answer with ReadyForQuery. */
  datatype Request = Startup | Simple(id: nat)

  datatype Entry =
    | Opened
    | Lost
    | UserClosed
    | Enqueued(id: nat, kind: Kind)
    | Wrote(id: nat, kind: Kind)
    | GotError
    | GotReady(to: Request)
    | Resolved(id: nat)
    | Rejected(id: nat)

  /** Everything that happened, newest entry last. */
  datatype Log = Start | Then(before: Log, entry: Entry)

  datatype State = State(
    channels: bool, closed: bool, phase: Phase, startupReady: bool, ready: bool, connected: bool, listening: bool,
    active: Option<Query>, queue: seq<Query>, nextId: nat, owed: seq<Request>, log: Log)

  datatype Event =
    | Connect        // the initial call, or the reconnect timer
    | Open
    | ConnectFailed
    | SocketClosed
    | ServerReady
    | ServerError
    | UserNotify
    | Continue       // the continuation of a resolved LISTEN
    | HealthTick
    | UserClose

  function Initial(channels: bool): State {
    State(channels, false, Waiting, false, false, false, false, None, [], 0, [], Start)
  }

  predicate Enabled(s: State, e: Event) {
    match e
    case Connect => s.phase.Waiting?
    case Open => s.phase.Connecting?
    case ConnectFailed => s.phase.Connecting?
    case SocketClosed => s.phase.Live?
    case ServerReady => s.phase.Live? && s.owed != []
    case ServerError => s.phase.Live?
    case Continue => s.listening
    case _ => true
  }

  // ---- what each handler does ----

  predicate CanWrite(s: State) {
    !s.closed && s.phase.Live? && s.ready && s.active.None? && s.queue != []
  }

  /** flushQueryQueue: write the front query if the connection is free. */
  function Flushed(s: State): State {
    if !CanWrite(s) then s
    else
      var q := s.queue[0];
      s.(active := Some(q), queue := s.queue[1..], ready := false,
         owed := s.owed + [Simple(q.id)], log := Then(s.log, Wrote(q.id, q.kind)))
  }

  /** enqueueQuery: a closed listener rejects at once, without enqueueing. */
  function WithQuery(s: State, kind: Kind, front: bool): State {
    if s.closed then s
    else
      var q := Query(s.nextId, kind, false);
      Flushed(s.(queue := if front then [q] + s.queue else s.queue + [q],
                 nextId := s.nextId + 1, log := Then(s.log, Enqueued(q.id, kind))))
  }

  /** markConnected: what the health timer goes by. */
  function MarkedConnected(s: State): State {
    if s.closed then s else s.(connected := true)
  }

  function AfterReady(s: State): State
    requires s.owed != []
  {
    var t := s.(ready := true, owed := s.owed[1..], log := Then(s.log, GotReady(s.owed[0])));
    match t.active
    case Some(q) =>
      var u := t.(active := None, log := Then(t.log, if q.failed then Rejected(q.id) else Resolved(q.id)));
      Flushed(if q.kind == Listen && !q.failed then u.(listening := true) else u)
    case None =>
      if t.startupReady then Flushed(t)
      else if t.channels then WithQuery(t.(startupReady := true), Listen, true)
      else MarkedConnected(t.(startupReady := true))
  }

  function AfterError(s: State): State {
    var t := s.(log := Then(s.log, GotError));
    match t.active
    case Some(q) => t.(active := Some(q.(failed := true)))
    case None => t
  }

  function RejectedActive(s: State): State {
    match s.active
    case None => s
    case Some(q) => s.(active := None, log := Then(s.log, Rejected(q.id)))
  }

  function RejectIds(log: Log, queue: seq<Query>): Log
    decreases |queue|
  {
    if queue == [] then log else RejectIds(Then(log, Rejected(queue[0].id)), queue[1..])
  }

  /** rejectQueuedQueries: the active query, then the queue from the front. */
  function RejectedAll(s: State): State {
    var t := RejectedActive(s);
    t.(queue := [], log := RejectIds(t.log, t.queue))
  }

  function AfterSocketClosed(s: State): State {
    var t := RejectedActive(s.(phase := Off, ready := false, connected := false, owed := [], log := Then(s.log, Lost)));
    if t.closed then RejectedAll(t) else t.(phase := Waiting)
  }

  function AfterConnect(s: State): State {
    if s.closed then s
    else s.(phase := Connecting, startupReady := false, ready := false, connected := false, active := None)
  }

  function AfterUserClose(s: State): State {
    if s.closed then s
    else RejectedAll(s.(closed := true, phase := if s.phase.Waiting? then Off else s.phase, log := Then(s.log, UserClosed)))
  }

  predicate HealthCheckDue(s: State) {
    !s.closed && s.connected && s.active.None? && forall i :: 0 <= i < |s.queue| ==> s.queue[i].kind != Health
  }

  function Step(s: State, e: Event): State
    requires Enabled(s, e)
  {
    match e
    case Connect => AfterConnect(s)
    case Open => s.(phase := Live, owed := [Startup], log := Then(s.log, Opened))
    case ConnectFailed => s.(phase := if s.closed then Off else Waiting)
    case SocketClosed => AfterSocketClosed(s)
    case ServerReady => AfterReady(s)
    case ServerError => AfterError(s)
    case UserNotify => WithQuery(s, Notify, false)
    case Continue => MarkedConnected(s.(listening := false))
    case HealthTick => if HealthCheckDue(s) then WithQuery(s, Health, false) else s
    case UserClose => AfterUserClose(s)
  }

  /** A run of events, each possible when it happens. */
  ghost predicate Reaches(s: State, events: seq<Event>, t: State)
    decreases |events|
  {
    if events == [] then s == t else Enabled(s, events[0]) && Reaches(Step(s, events[0]), events[1..], t)
  }

  // ---- the client ----

  /** The closure variables of the client; `owed` is the server's side and `log` the history. */
  class PgListener {
    const channels: bool
    var closed: bool
    var phase: Phase
    var startupReady: bool
    var readyForQuery: bool
    /** status === "connected" */
    var connected: bool
    /** A resolved LISTEN whose continuation has not run yet. */
    var listening: bool
    var activeQuery: Option<Query>
    var queryQueue: seq<Query>
    /** How many queries were enqueued so far; names the next one. */
    var issued: nat
    ghost var owed: seq<Request>
    ghost var log: Log

    constructor (channels: bool)
      ensures View() == Initial(channels)
    {
      this.channels := channels;
      closed, phase, startupReady, readyForQuery := false, Waiting, false, false;
      connected, listening := false, false;
      activeQuery, queryQueue, issued := None, [], 0;
      owed, log := [], Start;
    }

    ghost function View(): State
      reads this
    {
      State(channels, closed, phase, startupReady, readyForQuery, connected, listening, activeQuery, queryQueue, issued, owed, log)
    }

    method FlushQueryQueue()
      modifies this
      ensures View() == Flushed(old(View()))
    {
      if closed || !phase.Live? || !readyForQuery || activeQuery.Some? || |queryQueue| == 0 {
        return;
      }
      var q := queryQueue[0];
      activeQuery, queryQueue := Some(q), queryQueue[1..];
      readyForQuery := false;
      owed := owed + [Simple(q.id)];
      log := Then(log, Wrote(q.id, q.kind));
    }

    method EnqueueQuery(kind: Kind, front: bool) returns (accepted: bool)
      modifies this
      ensures View() == WithQuery(old(View()), kind, front)
      ensures accepted == !old(closed)
    {
      if closed {
        return false;
      }
      var q := Query(issued, kind, false);
      issued := issued + 1;
      log := Then(log, Enqueued(q.id, kind));
      if front {
        queryQueue := [q] + queryQueue;
      } else {
        queryQueue := queryQueue + [q];
      }
      FlushQueryQueue();
      return true;
    }

    method ProcessReadyForQuery()
      requires owed != []
      modifies this
      ensures View() == AfterReady(old(View()))
    {
      hide Flushed, WithQuery, MarkedConnected;
      readyForQuery := true;
      log := Then(log, GotReady(owed[0]));
      owed := owed[1..];
      if activeQuery.Some? {
        var completed := activeQuery.value;
        activeQuery := None;
        if completed.failed {
          log := Then(log, Rejected(completed.id));
        } else {
          log := Then(log, Resolved(completed.id));
          if completed.kind == Listen { listening := true; }
        }
        FlushQueryQueue();
        return;
      }
      if !startupReady {
        startupReady := true;
        RegisterListenChannels();
        return;
      }
      FlushQueryQueue();
    }

    method MarkConnected()
      modifies this
      ensures View() == MarkedConnected(old(View()))
    {
      if closed { return; }
      connected := true;
    }

    /** The continuation of a resolved LISTEN. */
    method OnListening()
      requires listening
      modifies this
      ensures View() == Step(old(View()), Continue)
    {
      listening := false;
      MarkConnected();
    }

    method RegisterListenChannels()
      modifies this
      ensures View() == if channels then WithQuery(old(View()), Listen, true) else MarkedConnected(old(View()))
    {
      if !channels {
        MarkConnected();
        return;
      }
      var accepted := EnqueueQuery(Listen, true);
    }

    method HandlePostgresError()
      modifies this
      ensures View() == AfterError(old(View()))
    {
      log := Then(log, GotError);
      if activeQuery.Some? {
        activeQuery := Some(activeQuery.value.(failed := true));
      }
    }

    method RejectActiveQuery()
      modifies this
      ensures View() == RejectedActive(old(View()))
    {
      if activeQuery.None? {
        return;
      }
      log := Then(log, Rejected(activeQuery.value.id));
      activeQuery := None;
    }

    method RejectQueuedQueries()
      modifies this
      ensures View() == RejectedAll(old(View()))
    {
      RejectActiveQuery();
      ghost var t := View();
      while |queryQueue| > 0
        invariant View() == t.(queue := queryQueue, log := log)
        invariant RejectIds(log, queryQueue) == RejectIds(t.log, t.queue)
        decreases |queryQueue|
      {
        log := Then(log, Rejected(queryQueue[0].id));
        queryQueue := queryQueue[1..];
      }
    }

    method HandleSocketClose()
      modifies this
      ensures View() == AfterSocketClosed(old(View()))
    {
      hide RejectedAll;
      phase := Off;
      readyForQuery := false;
      connected := false;
      owed := [];
      log := Then(log, Lost);
      if activeQuery.Some? {
        RejectActiveQuery();
      }
      if closed {
        RejectQueuedQueries();
        return;
      }
      phase := Waiting;
    }

    method ConnectNow()
      modifies this
      ensures View() == AfterConnect(old(View()))
    {
      if closed {
        return;
      }
      startupReady := false;
      readyForQuery := false;
      connected := false;
      activeQuery := None;
      phase := Connecting;
    }

    method OnOpen()
      requires phase.Connecting?
      modifies this
      ensures View() == Step(old(View()), Open)
    {
      phase := Live;
      owed := [Startup];
      log := Then(log, Opened);
    }

    method OnConnectFailed()
      requires phase.Connecting?
      modifies this
      ensures View() == Step(old(View()), ConnectFailed)
    {
      phase := if closed then Off else Waiting;
    }

    method OnHealthTimer()
      modifies this
      ensures View() == Step(old(View()), HealthTick)
    {
      if closed || !connected {
        return;
      }
      if activeQuery.Some? {
        return;
      }
      for i := 0 to |queryQueue|
        invariant View() == old(View())
        invariant forall j :: 0 <= j < i ==> queryQueue[j].kind != Health
      {
        if queryQueue[i].kind == Health {
          return;
        }
      }
      var accepted := EnqueueQuery(Health, false);
    }

    method Close()
      modifies this
      ensures View() == AfterUserClose(old(View()))
    {
      if closed {
        return;
      }
      closed := true;
      if phase.Waiting? {
        phase := Off;
      }
      log := Then(log, UserClosed);
      RejectQueuedQueries();
    }
  }
}
