/**
  The outbox stream: lease-based claims by concurrent consumers over one message table. A claim statement is
  two steps, picking and locking rows (FOR UPDATE SKIP LOCKED) and then committing or rolling back its update;
  every other statement is one step. NOW() in a claim is the time of its pick.
*/
module Outbox {
  import opened Wrappers
  import opened Ordering

  datatype Message = Message(
    stream: string, payload: string, consumer: Option<string>, deliveryCount: nat,
    availableAt: int, lockedUntil: Option<int>, processedAt: Option<int>, createdAt: int)

  type Rows = map<int, Message>

  /** A claim between its pick and its commit: the rows it locks, and the values its update will write. */
  datatype Flight = Flight(ids: set<int>, consumer: string, at: int, until: int)

  /** One committed hand-out of a message: picked at `at`, leased until `until`. */
  datatype Delivery = Delivery(id: int, at: int, until: int)

  /** Deliveries, newest last. */
  datatype Log = Nothing | Then(before: Log, delivery: Delivery)

  datatype State = State(
    rows: Rows, nextId: int, now: int, flights: map<int, Flight>,
    log: Log, appended: nat, acked: nat, trimmed: nat)

  datatype Step =
    | Tick(ms: nat)
    | Append(stream: string, payload: string, availableAt: Option<int>)
    | Pick(claim: int, stream: string, consumer: string, limit: int, timeoutMs: int)
    | Commit(claim: int)
    | Rollback(claim: int)
    | Ack(ids: set<int>)
    | Trim(ofStream: Option<string>, beforeId: Option<int>, maxAgeMs: Option<int>, limit: int)

  predicate Below(a: int, b: int) { a < b }

  lemma BelowIsTotal()
    ensures StrictTotalOrder(Below)
  {
  }

  /** ORDER BY id ASC LIMIT n. */
  function FirstN(ids: set<int>, n: nat): (first: set<int>)
    ensures first <= ids
    decreases n
  {
    if n == 0 || ids == {} then {}
    else
      BelowIsTotal();
      var m := Least(ids, Below);
      {m} + FirstN(ids - {m}, n - 1)
  }

  lemma FirstNUnfolds(ids: set<int>, n: nat) returns (m: int)
    ensures n == 0 || ids == {} ==> FirstN(ids, n) == {}
    ensures n > 0 && ids != {} ==> m in ids && FirstN(ids, n) == {m} + FirstN(ids - {m}, n - 1)
  {
    BelowIsTotal();
    m := if ids == {} then 0 else Least(ids, Below);
  }

  lemma {:induction false} FirstNSize(ids: set<int>, n: nat)
    ensures |FirstN(ids, n)| == if n <= |ids| then n else |ids|
    ensures n >= |ids| ==> FirstN(ids, n) == ids
    decreases n
  {
    hide FirstN;
    var m := FirstNUnfolds(ids, n);
    if n > 0 && ids != {} {
      OneSmaller(ids, m, FirstN(ids - {m}, n - 1));
      FirstNSize(ids - {m}, n - 1);
    }
  }

  lemma OneSmaller(ids: set<int>, m: int, rest: set<int>)
    requires m in ids && rest <= ids - {m}
    ensures |ids - {m}| == |ids| - 1
    ensures |{m} + rest| == 1 + |rest|
    ensures {m} + (ids - {m}) == ids
  {
  }

  /** What LIMIT leaves out comes after everything it takes. */
  lemma {:induction false} FirstNIsFirst(ids: set<int>, n: nat, taken: int, left: int)
    requires taken in FirstN(ids, n) && left in ids && left !in FirstN(ids, n)
    ensures taken < left
    decreases n
  {
    BelowIsTotal();
    var m := Least(ids, Below);
    if taken != m {
      FirstNIsFirst(ids - {m}, n - 1, taken, left);
    }
  }

  /** `normalizeLimit`: at least 1. */
  function AtLeastOne(n: int): nat { if n < 1 then 1 else n }

  predicate Unprocessed(m: Message) { m.processedAt.None? }

  predicate Eligible(m: Message, stream: string, now: int) {
    && m.stream == stream
    && Unprocessed(m)
    && m.availableAt <= now
    && (m.lockedUntil.None? || m.lockedUntil.value <= now)
  }

  function EligibleIds(rows: Rows, stream: string, now: int): set<int> {
    set id | id in rows && Eligible(rows[id], stream, now)
  }

  function Locked(flights: map<int, Flight>): set<int> {
    set c, id | c in flights && id in flights[c].ids :: id
  }

  /** The rows a pick takes: the smallest eligible ids that no claim in flight has locked. */
  function PickedIds(s: State, stream: string, limit: int): set<int> {
    FirstN(EligibleIds(s.rows, stream, s.now) - Locked(s.flights), AtLeastOne(limit))
  }

  function PendingIds(rows: Rows): set<int> {
    set id | id in rows && Unprocessed(rows[id])
  }

  function ProcessedIds(rows: Rows): set<int> {
    set id | id in rows && !Unprocessed(rows[id])
  }

  predicate Trimmable(id: int, m: Message, step: Step, now: int)
    requires step.Trim?
  {
    && (step.ofStream.None? || m.stream == step.ofStream.value)
    && m.processedAt.Some?
    && (step.beforeId.None? || id < step.beforeId.value)
    && (step.maxAgeMs.None? || m.processedAt.value <= now - step.maxAgeMs.value)
  }

  function TrimmedIds(rows: Rows, step: Step, now: int): set<int>
    requires step.Trim?
  {
    FirstN((set id | id in rows && Trimmable(id, rows[id], step, now)), AtLeastOne(step.limit))
  }

  function Leased(rows: Rows, claim: Flight): Rows {
    map id | id in rows ::
      if id in claim.ids then
        rows[id].(consumer := Some(claim.consumer), deliveryCount := rows[id].deliveryCount + 1, lockedUntil := Some(claim.until))
      else rows[id]
  }

  function Acked(rows: Rows, ids: set<int>, now: int): Rows {
    map id | id in rows ::
      if id in ids && Unprocessed(rows[id]) then rows[id].(processedAt := Some(now), lockedUntil := None) else rows[id]
  }

  /** The log with one delivery per id of the claim, in some order. */
  function Delivered(log: Log, ids: set<int>, at: int, until: int): Log
    decreases |ids|
  {
    if ids == {} then log
    else
      BelowIsTotal();
      var id := Least(ids, Below);
      assert |ids - {id}| < |ids|;
      Then(Delivered(log, ids - {id}, at, until), Delivery(id, at, until))
  }

  /** An acknowledgement waits for the claims that hold its rows; a claim id in use cannot be reused. */
  predicate Enabled(s: State, step: Step) {
    match step
    case Pick(c, _, _, _, _) => c !in s.flights
    case Commit(c) => c in s.flights
    case Rollback(c) => c in s.flights
    case Ack(ids) => ids * PendingIds(s.rows) !! Locked(s.flights)
    case _ => true
  }

  function Next(s: State, step: Step): State
    requires Enabled(s, step)
  {
    match step
    case Tick(ms) => s.(now := s.now + ms)
    case Append(stream, payload, availableAt) =>
      s.(rows := s.rows[s.nextId := Message(stream, payload, None, 0,
                                            if availableAt.Some? then availableAt.value else s.now, None, None, s.now)],
         nextId := s.nextId + 1, appended := s.appended + 1)
    case Pick(c, stream, consumer, limit, timeoutMs) =>
      s.(flights := s.flights[c := Flight(PickedIds(s, stream, limit), consumer, s.now, s.now + AtLeastOne(timeoutMs))])
    case Commit(c) =>
      var claim := s.flights[c];
      s.(rows := Leased(s.rows, claim), flights := s.flights - {c},
         log := Delivered(s.log, claim.ids, claim.at, claim.until))
    case Rollback(c) => s.(flights := s.flights - {c})
    case Ack(ids) =>
      s.(rows := Acked(s.rows, ids, s.now), acked := s.acked + |ids * PendingIds(s.rows)|)
    case Trim(_, _, _, _) =>
      var gone := TrimmedIds(s.rows, step, s.now);
      s.(rows := s.rows - gone, trimmed := s.trimmed + |gone|)
  }

  function Initial(now: int): State {
    State(map[], 1, now, map[], Nothing, 0, 0, 0)
  }

  /** The state after a run of steps, each enabled when it is taken. */
  ghost predicate Reaches(s: State, steps: seq<Step>, t: State)
    decreases |steps|
  {
    if steps == [] then s == t else Enabled(s, steps[0]) && Reaches(Next(s, steps[0]), steps[1..], t)
  }

  /** One consumer's view of the table, as the class's statements see it when nobody else is in flight. */
  class PgOutboxStream {
    var rows: Rows
    var nextId: int
    var now: int

    constructor (now: int)
      ensures rows == map[] && nextId == 1 && this.now == now
    {
      rows, nextId, this.now := map[], 1, now;
    }

    /** The table as a state with no claim in flight and empty counters. */
    function View(): State
      reads this
    {
      State(rows, nextId, now, map[], Nothing, 0, 0, 0)
    }

    method Append(stream: string, payload: string, availableAt: Option<int>) returns (id: int)
      modifies this
      ensures id == old(nextId) && now == old(now)
      ensures var after := Next(old(View()), Step.Append(stream, payload, availableAt));
        rows == after.rows && nextId == after.nextId
    {
      id := nextId;
      nextId := nextId + 1;
      var available := now;
      if availableAt.Some? { available := availableAt.value; }
      rows := rows[id := Message(stream, payload, None, 0, available, None, None, now)];
    }

    /** A claim whose pick and commit nothing separates. */
    method Claim(stream: string, consumer: string, limit: int, visibilityTimeoutMs: int) returns (claimed: set<int>)
      modifies this`rows
      ensures var picked := Next(old(View()), Pick(0, stream, consumer, limit, visibilityTimeoutMs));
        && claimed == picked.flights[0].ids
        && rows == Next(picked, Commit(0)).rows
    {
      var timeoutMs := AtLeastOne(visibilityTimeoutMs);
      assert Locked(map[]) == {};
      var eligible := EligibleIds(rows, stream, now);
      assert eligible - Locked(map[]) == eligible;
      claimed := FirstN(eligible, AtLeastOne(limit));
      rows := Leased(rows, Flight(claimed, consumer, now, now + timeoutMs));
    }

    method Ack(ids: set<int>) returns (count: nat)
      modifies this`rows
      ensures rows == Acked(old(rows), ids, now)
      ensures count == |ids * PendingIds(old(rows))|
    {
      if ids == {} {
        assert ids * PendingIds(rows) == {};
        return 0;
      }
      count := |ids * PendingIds(rows)|;
      rows := Acked(rows, ids, now);
    }

    method Pending(stream: Option<string>) returns (pending: nat, locked: nat)
      ensures pending == |set id | id in rows && Unprocessed(rows[id]) && (stream.None? || rows[id].stream == stream.value)|
      ensures locked == |set id | id in rows && Unprocessed(rows[id]) && (stream.None? || rows[id].stream == stream.value)
                                    && rows[id].lockedUntil.Some? && rows[id].lockedUntil.value > now|
    {
      var selected := set id | id in rows && Unprocessed(rows[id]) && (stream.None? || rows[id].stream == stream.value);
      var held := set id | id in selected && rows[id].lockedUntil.Some? && rows[id].lockedUntil.value > now;
      pending := |selected|;
      locked := |held|;
      assert held == set id | id in rows && Unprocessed(rows[id]) && (stream.None? || rows[id].stream == stream.value)
                              && rows[id].lockedUntil.Some? && rows[id].lockedUntil.value > now;
    }

    method Trim(stream: Option<string>, beforeId: Option<int>, maxAgeMs: Option<int>, limit: int) returns (count: nat)
      modifies this`rows
      ensures var step := Step.Trim(stream, beforeId, maxAgeMs, limit);
        && rows == Next(old(View()), step).rows
        && count == |TrimmedIds(old(rows), step, now)|
    {
      var gone := TrimmedIds(rows, Step.Trim(stream, beforeId, maxAgeMs, limit), now);
      rows := rows - gone;
      count := |gone|;
    }
  }
}
