/**
  Which messages a claim is offered, told from the history alone: what was appended on which stream, when it becomes
  available, which leases were handed out and what was acknowledged.
*/
module OutboxStreams {
  import opened Arithmetic
  import opened Wrappers
  import opened Ordering
  import opened Outbox
  import opened OutboxLeases

  // ---- a row's lease is the last one handed out ----

  /** When the last lease of a message ends, if it was ever delivered. */
  function LastLease(log: Log, id: int): Option<int> {
    match log
    case Nothing => None
    case Then(before, d) => if d.id == id then Some(d.until) else LastLease(before, id)
  }

  ghost predicate LeasesKnown(s: State) {
    forall id :: id in s.rows && s.rows[id].processedAt.None? ==> s.rows[id].lockedUntil == LastLease(s.log, id)
  }

  lemma {:induction false} NeverLeased(log: Log, id: int)
    requires Count(log, id) == 0
    ensures LastLease(log, id) == None
  {
    if log.Then? { NeverLeased(log.before, id); }
  }

  lemma {:induction false} DeliveredLease(log: Log, ids: set<int>, at: int, until: int, id: int)
    ensures LastLease(Delivered(log, ids, at, until), id) == if id in ids then Some(until) else LastLease(log, id)
    decreases |ids|
  {
    if ids != {} {
      BelowIsTotal();
      var least := Least(ids, Below);
      DeliveredLease(log, ids - {least}, at, until, id);
    }
  }

  lemma NextKeepsLeases(s: State, step: Step)
    requires Enabled(s, step) && Inv(s, 0) && LeasesKnown(s)
    ensures LeasesKnown(Next(s, step))
  {
    hide FlightsOk, Conserved, PickedIds, TrimmedIds, Locked, PendingIds;
    match step
    case Append(_, _, _) => NeverLeased(s.log, s.nextId);
    case Commit(c) =>
      var claim := s.flights[c];
      forall id ensures LastLease(Next(s, step).log, id) == if id in claim.ids then Some(claim.until) else LastLease(s.log, id) {
        DeliveredLease(s.log, claim.ids, claim.at, claim.until, id);
      }
    case _ =>
  }

  lemma {:induction false} RunKeepsLeases(s: State, steps: seq<Step>, t: State)
    requires Reaches(s, steps, t) && Inv(s, 0) && LeasesKnown(s)
    ensures Inv(t, 0) && LeasesKnown(t)
    decreases |steps|
  {
    hide Next, Inv, LeasesKnown, Enabled;
    if steps != [] {
      NextKeepsLeases(s, steps[0]);
      NextKeepsInv(s, steps[0], 0);
      RunKeepsLeases(Next(s, steps[0]), steps[1..], t);
    }
  }

  lemma ReachableLeases(now: int, steps: seq<Step>, t: State)
    requires Reaches(Initial(now), steps, t)
    ensures Inv(t, 0) && LeasesKnown(t)
  {
    hide Inv;
    InitialInv(now, 0);
    RunKeepsLeases(Initial(now), steps, t);
  }

  // ---- what a pick takes ----

  /**
    In every reachable state a pick takes only messages of its own stream that are not processed, are available, whose
    every lease so far has ended, and which no claim in flight holds.
  */
  lemma PicksAreDue(now: int, steps: seq<Step>, t: State, stream: string, limit: int, id: int)
    requires Reaches(Initial(now), steps, t) && id in PickedIds(t, stream, limit)
    ensures id in t.rows && t.rows[id].stream == stream && t.rows[id].processedAt == None && t.rows[id].availableAt <= t.now
    ensures t.rows[id].lockedUntil.None? || t.rows[id].lockedUntil.value <= t.now
    ensures EndsBy(t.log, id, t.now) && forall c :: c in t.flights ==> id !in t.flights[c].ids
  {
    ReachableLeases(now, steps, t);
    PickedAreFree(t, stream, limit, 0);
  }

  // ---- from append to offer ----

  /** The stored row, if any, is the one appended with these values. */
  predicate AppendedAs(s: State, id: int, stream: string, payload: string, availableAt: int) {
    && id < s.nextId
    && (id in s.rows ==> s.rows[id].stream == stream && s.rows[id].payload == payload && s.rows[id].availableAt == availableAt)
  }

  /** One of the steps acknowledges the message. */
  predicate AcksIn(steps: seq<Step>, id: int) {
    exists i :: 0 <= i < |steps| && steps[i].Ack? && id in steps[i].ids
  }

  /** Stored and unprocessed. */
  predicate Waits(s: State, id: int) { id in s.rows && s.rows[id].processedAt.None? }

  lemma NextKeepsMessage(s: State, step: Step, id: int, stream: string, payload: string, availableAt: int)
    requires Enabled(s, step) && AppendedAs(s, id, stream, payload, availableAt)
    ensures var t := Next(s, step);
      && AppendedAs(t, id, stream, payload, availableAt)
      && (Waits(t, id) <==> Waits(s, id) && !(step.Ack? && id in step.ids))
  {
    hide PickedIds, Locked, FirstN;
    if step.Trim? { TrimMovesRows(s.rows, step, s.now); }
  }

  lemma {:induction false} RunKeepsMessage(s: State, steps: seq<Step>, t: State, id: int, stream: string, payload: string, availableAt: int)
    requires Reaches(s, steps, t) && AppendedAs(s, id, stream, payload, availableAt)
    ensures AppendedAs(t, id, stream, payload, availableAt)
    ensures Waits(t, id) <==> Waits(s, id) && !AcksIn(steps, id)
    decreases |steps|
  {
    hide Next, Enabled, AppendedAs, Waits;
    if steps != [] {
      var step := steps[0];
      NextKeepsMessage(s, step, id, stream, payload, availableAt);
      RunKeepsMessage(Next(s, step), steps[1..], t, id, stream, payload, availableAt);
      AcksSplit(steps, id);
    }
  }

  lemma AcksSplit(steps: seq<Step>, id: int)
    requires steps != []
    ensures AcksIn(steps, id) <==> (steps[0].Ack? && id in steps[0].ids) || AcksIn(steps[1..], id)
  {
    if AcksIn(steps[1..], id) {
      var i :| 0 <= i < |steps| - 1 && steps[1..][i].Ack? && id in steps[1..][i].ids;
      assert steps[i + 1] == steps[1..][i];
    }
    if AcksIn(steps, id) && !(steps[0].Ack? && id in steps[0].ids) {
      var i :| 0 <= i < |steps| && steps[i].Ack? && id in steps[i].ids;
      assert steps[1..][i - 1] == steps[i];
    }
  }

  /**
    A message appended in a reachable state is offered to a claim of a stream in a later state exactly if it was appended
    on that stream, its availability has come, no step since has acknowledged it, its last lease is over, and no claim in
    flight holds it. The row still carries what was appended.
  */
  lemma OfferedIff(now: int, first: seq<Step>, s: State, append: Step, steps: seq<Step>, t: State, stream: string)
    requires Reaches(Initial(now), first, s) && append.Append? && Reaches(Next(s, append), steps, t)
    ensures var id := s.nextId;
      var due := if append.availableAt.Some? then append.availableAt.value else s.now;
      && (id in t.rows ==> t.rows[id].stream == append.stream && t.rows[id].payload == append.payload)
      && (id in Free(t, stream) <==>
            && stream == append.stream && due <= t.now && !AcksIn(steps, id)
            && (LastLease(t.log, id).None? || LastLease(t.log, id).value <= t.now)
            && forall c :: c in t.flights ==> id !in t.flights[c].ids)
  {
    hide Inv, Next;
    var id := s.nextId;
    var due := if append.availableAt.Some? then append.availableAt.value else s.now;
    ReachableLeases(now, first, s);
    AppendStarts(s, append);
    NextKeepsLeases(s, append);
    NextKeepsInv(s, append, 0);
    RunKeepsLeases(Next(s, append), steps, t);
    RunKeepsMessage(Next(s, append), steps, t, id, append.stream, append.payload, due);
    FreeMeans(t, stream, id);
  }

  lemma AppendStarts(s: State, append: Step)
    requires append.Append?
    ensures Enabled(s, append) && Waits(Next(s, append), s.nextId)
    ensures AppendedAs(Next(s, append), s.nextId, append.stream, append.payload,
                       if append.availableAt.Some? then append.availableAt.value else s.now)
  {}

  lemma FreeMeans(s: State, stream: string, id: int)
    ensures id in Free(s, stream) <==>
      && Waits(s, id) && s.rows[id].stream == stream && s.rows[id].availableAt <= s.now
      && (s.rows[id].lockedUntil.None? || s.rows[id].lockedUntil.value <= s.now)
      && forall c :: c in s.flights ==> id !in s.flights[c].ids
  {}

  /** Before its availability, and on any other stream, an appended message is in no pick. */
  lemma NeverPickedEarly(now: int, first: seq<Step>, s: State, append: Step, steps: seq<Step>, t: State, stream: string, limit: int)
    requires Reaches(Initial(now), first, s) && append.Append? && Reaches(Next(s, append), steps, t)
    requires stream != append.stream || t.now < if append.availableAt.Some? then append.availableAt.value else s.now
    ensures s.nextId !in PickedIds(t, stream, limit)
  {
    hide Next, Reaches, Inv;
    OfferedIff(now, first, s, append, steps, t, stream);
    assert PickedIds(t, stream, limit) <= Free(t, stream);
  }

  function HandedOut(m: Message, consumer: string, until: int): Message {
    m.(consumer := Some(consumer), deliveryCount := m.deliveryCount + 1, lockedUntil := Some(until))
  }

  /**
    A claim hands out as many free messages as its limit, at least 1, allows; it counts one more delivery of each, names
    the consumer, and leases them for its timeout, at least 1 ms.
  */
  lemma ClaimWrites(s: State, c: int, stream: string, consumer: string, limit: int, timeoutMs: int)
    requires c !in s.flights
    ensures var picked := Next(s, Pick(c, stream, consumer, limit, timeoutMs));
      var done, free, taken := Next(picked, Commit(c)), |Free(s, stream)|, picked.flights[c].ids;
      && |taken| == (if free <= Max(1, limit) then free else Max(1, limit))
      && done.rows.Keys == s.rows.Keys
      && (forall id :: id in s.rows && id !in taken ==> done.rows[id] == s.rows[id])
      && (forall id :: id in taken ==> id in s.rows && done.rows[id] == HandedOut(s.rows[id], consumer, s.now + Max(1, timeoutMs)))
  {
    hide FirstN, Locked, Leased, Free, PickedIds, HandedOut;
    var taken := PickedIds(s, stream, limit);
    TakenAreFree(s, stream, limit);
    FirstNSize(Free(s, stream), AtLeastOne(limit));
    LeasedRows(s.rows, Flight(taken, consumer, s.now, s.now + AtLeastOne(timeoutMs)));
  }

  lemma TakenAreFree(s: State, stream: string, limit: int)
    ensures PickedIds(s, stream, limit) == FirstN(Free(s, stream), AtLeastOne(limit)) && Free(s, stream) <= s.rows.Keys
  {
    hide FirstN, Locked;
  }

  lemma LeasedRows(rows: Rows, claim: Flight)
    ensures Leased(rows, claim).Keys == rows.Keys
    ensures forall id :: id in rows ==>
      Leased(rows, claim)[id] == if id in claim.ids then HandedOut(rows[id], claim.consumer, claim.until) else rows[id]
  {}

  // ---- from acknowledgement on ----

  lemma NextKeepsProcessed(s: State, step: Step, id: int)
    requires Enabled(s, step) && Inv(s, 0) && id in s.rows && s.rows[id].processedAt.Some?
    ensures id in Next(s, step).rows ==> Next(s, step).rows[id] == s.rows[id]
  {
    hide PickedIds, TrimmedIds, Conserved, Locked, PendingIds;
    if step.Append? { assert id < s.nextId; }
  }

  lemma {:induction false} RunKeepsProcessed(s: State, steps: seq<Step>, t: State, id: int)
    requires Reaches(s, steps, t) && Inv(s, 0) && id < s.nextId
    requires id in s.rows ==> s.rows[id].processedAt.Some?
    ensures id in t.rows ==> id in s.rows && t.rows[id] == s.rows[id]
    decreases |steps|
  {
    hide Inv, Next;
    if steps != [] {
      var u := Next(s, steps[0]);
      NextKeepsInv(s, steps[0], 0);
      NextAddsOnlyNew(s, steps[0], id);
      if id in s.rows { NextKeepsProcessed(s, steps[0], id); }
      RunKeepsProcessed(u, steps[1..], t, id);
    }
  }

  lemma NextAddsOnlyNew(s: State, step: Step, id: int)
    requires Enabled(s, step) && id < s.nextId
    ensures id < Next(s, step).nextId && (id in Next(s, step).rows ==> id in s.rows)
  {
    hide PickedIds, TrimmedIds, Locked, PendingIds;
  }

  /**
    Acknowledging a waiting message of a reachable state stamps its row with the time and ends its lease; after that, for
    as long as it is stored, nothing changes the row.
  */
  lemma AckIsFinal(now: int, first: seq<Step>, s: State, ids: set<int>, id: int, steps: seq<Step>, t: State)
    requires Reaches(Initial(now), first, s) && Enabled(s, Ack(ids)) && id in ids && Waits(s, id)
    requires Reaches(Next(s, Ack(ids)), steps, t) && id in t.rows
    ensures t.rows[id] == s.rows[id].(processedAt := Some(s.now), lockedUntil := None)
  {
    hide Inv, Enabled;
    ReachableLeases(now, first, s);
    NextKeepsInv(s, Ack(ids), 0);
    IdsAreBelow(s, id);
    RunKeepsProcessed(Next(s, Ack(ids)), steps, t, id);
  }

  lemma IdsAreBelow(s: State, id: int)
    requires Inv(s, 0) && id in s.rows
    ensures id < s.nextId
  {}

  // ---- trim ----

  /** What a trim asks for. */
  predicate Asked(rows: Rows, step: Step, now: int, id: int)
    requires step.Trim?
  {
    && id in rows && rows[id].processedAt.Some?
    && (step.ofStream.Some? ==> rows[id].stream == step.ofStream.value)
    && (step.beforeId.Some? ==> id < step.beforeId.value)
    && (step.maxAgeMs.Some? ==> now - rows[id].processedAt.value >= step.maxAgeMs.value)
  }

  /** Trim deletes the first max(1, limit) of the processed rows that meet every filter it was given, and nothing else. */
  lemma TrimTakesWhatIsAsked(s: State, step: Step)
    requires step.Trim?
    ensures var t := Next(s, step);
      var gone := s.rows.Keys - t.rows.Keys;
      && (forall id :: id in t.rows ==> id in s.rows && t.rows[id] == s.rows[id])
      && (forall id :: id in gone ==> Asked(s.rows, step, s.now, id))
      && |gone| <= Max(1, step.limit) && t.trimmed == s.trimmed + |gone|
      && forall id :: id in t.rows && Asked(s.rows, step, s.now, id) ==>
           |gone| == Max(1, step.limit) && forall taken :: taken in gone ==> taken < id
  {
    hide FirstN, TrimmedIds, Asked, FirstOfAsked;
    var gone := TrimmedIds(s.rows, step, s.now);
    TrimmedAreFirst(s.rows, step, s.now);
    FirstOfAskedMeans(s.rows, step, s.now, gone);
    assert s.rows.Keys - (s.rows - gone).Keys == gone;
  }

  ghost predicate FirstOfAsked(rows: Rows, step: Step, now: int, gone: set<int>)
    requires step.Trim?
  {
    && (forall id :: id in gone ==> Asked(rows, step, now, id))
    && |gone| <= Max(1, step.limit)
    && forall id :: Asked(rows, step, now, id) && id !in gone ==>
         |gone| == Max(1, step.limit) && forall taken :: taken in gone ==> taken < id
  }

  lemma FirstOfAskedMeans(rows: Rows, step: Step, now: int, gone: set<int>)
    requires step.Trim? && FirstOfAsked(rows, step, now, gone)
    ensures gone <= rows.Keys && |gone| <= Max(1, step.limit)
    ensures forall id :: id in gone ==> Asked(rows, step, now, id)
    ensures forall id :: Asked(rows, step, now, id) && id !in gone ==>
      |gone| == Max(1, step.limit) && forall taken :: taken in gone ==> taken < id
  {
    forall id | id in gone ensures id in rows { assert Asked(rows, step, now, id); }
  }

  lemma AskedIsTrimmable(rows: Rows, step: Step, now: int, id: int)
    requires step.Trim?
    ensures Asked(rows, step, now, id) <==> id in rows && Trimmable(id, rows[id], step, now)
  {}

  lemma TrimmedAreFirst(rows: Rows, step: Step, now: int)
    requires step.Trim?
    ensures FirstOfAsked(rows, step, now, TrimmedIds(rows, step, now))
  {
    hide FirstN, Asked, Trimmable;
    var asked := set id | id in rows && Trimmable(id, rows[id], step, now);
    var gone := TrimmedIds(rows, step, now);
    forall id ensures id in asked <==> Asked(rows, step, now, id) { AskedIsTrimmable(rows, step, now, id); }
    FirstNSize(asked, AtLeastOne(step.limit));
    forall id, taken | id in asked && id !in gone && taken in gone ensures taken < id {
      FirstNIsFirst(asked, AtLeastOne(step.limit), taken, id);
    }
  }
}
