/** What the answers of the window limiters mean to their caller, and what cleanup deletes. */
module WindowReplies {
  import opened Arithmetic
  import opened Wrappers
  import opened WindowCounters
  import opened WindowBounds

  /** The reply to the last hit of a run. */
  function LastReply(l: Limiter, run: Run): Reply
    requires l.Valid() && run.Then? && run.event.Hit?
  {
    HitReply(l, Reported(l, run), run.event.now)
  }

  /** The resetAt a hit at `now` is told. */
  function ResetAt(l: Limiter, now: int): int
    requires l.Valid()
  {
    HitReply(l, 0, now).resetAt
  }

  /** Total cost of the hits of `key` whose own resetAt is still to come at t. */
  function CostNotReset(l: Limiter, run: Run, key: string, t: int): int
    requires l.Valid()
  {
    match run
    case Empty => 0
    case Then(before, e) => CostNotReset(l, before, key, t) + if e.Hit? && e.key == key && t < ResetAt(l, e.now) then e.cost else 0
  }

  predicate AllBy(run: Run, t: int) {
    run.Then? ==> AllBy(run.before, t) && run.event.now <= t
  }

  lemma {:induction false} OrderedIsAllBy(run: Run, t: int)
    requires Ordered(run) && (run.Then? ==> run.event.now <= t)
    ensures AllBy(run, t)
  {
    if run.Then? { OrderedIsAllBy(run.before, t); }
  }

  /** A hit stays in the window of a later one exactly until its resetAt. */
  lemma CountsUntilReset(l: Limiter, now: int, t: int)
    requires l.Valid() && now <= t
    ensures l.Fixed? ==> (Floor(t, l.windowMs) <= Floor(now, l.Grain()) < Floor(t, l.windowMs) + 1 <==> t < ResetAt(l, now))
    ensures l.Sliding? ==> (t - l.windowMs + 1 <= Floor(now, l.Grain()) < t + 1 <==> t < ResetAt(l, now))
  {
    if l.Fixed? {
      var w, start := l.windowMs, Floor(now, l.windowMs);
      if t < start + w { DivisionIsUnique(t, w, now / w); }
    }
  }

  lemma {:induction false} RowsNotReset(l: Limiter, run: Run, key: string, t: int)
    requires l.Valid() && AllBy(run, t)
    ensures CostNotReset(l, run, key, t) ==
      if l.Fixed? then CostOfRows(l, run, key, Floor(t, l.windowMs), Floor(t, l.windowMs) + 1)
      else CostOfRows(l, run, key, t - l.windowMs + 1, t + 1)
  {
    hide Floor, ResetAt;
    if run.Then? {
      RowsNotReset(l, run.before, key, t);
      CountsUntilReset(l, run.event.now, t);
    }
  }

  /** A hit is told the cost of all hits not yet reset, itself included, and what that leaves of the limit. */
  lemma ReplyIsCost(l: Limiter, run: Run)
    requires l.Valid() && Ordered(run) && run.Then? && run.event.Hit?
    ensures var cost := CostNotReset(l, run, run.event.key, run.event.now);
      var reply := LastReply(l, run);
      && reply.count == cost && reply.limit == l.limit
      && (reply.allowed <==> cost <= l.limit)
      && reply.remaining == Max(0, l.limit - cost)
  {
    hide CostNotReset, CostOfRows, Reported, Ordered;
    OrderedIsAllBy(run, run.event.now);
    RowsNotReset(l, run, run.event.key, run.event.now);
    ReportedIsCost(l, run);
  }

  /**
    The next hit of the key at the same instant is admitted exactly if its cost is at most `remaining`; with buckets
    longer than the window, a hit whose resetAt is past already is not counted at all.
  */
  lemma RemainingIsExact(l: Limiter, run: Run, cost: int)
    requires l.Valid() && Ordered(run) && run.Then? && run.event.Hit? && cost >= 1
    ensures var next, reply := Then(run, Hit(run.event.key, run.event.now, cost)), LastReply(l, run);
      Admitted(l, next) <==> if run.event.now < reply.resetAt then cost <= reply.remaining else reply.allowed
  {
    hide Reported, CostNotReset;
    var now, next := run.event.now, Then(run, Hit(run.event.key, run.event.now, cost));
    ReplyIsCost(l, run);
    ReplyIsCost(l, next);
    NextCost(l, run, run.event.key, now, cost);
  }

  lemma NextCost(l: Limiter, run: Run, key: string, now: int, cost: int)
    requires l.Valid()
    ensures CostNotReset(l, Then(run, Hit(key, now, cost)), key, now)
      == CostNotReset(l, run, key, now) + if now < ResetAt(l, now) then cost else 0
  {}

  /** The fixed window resets at its own end, the sliding one when the bucket of the hit leaves it. */
  lemma ResetIsLater(l: Limiter, now: int)
    requires l.Valid()
    ensures l.Fixed? ==> ResetAt(l, now) % l.windowMs == 0 && now < ResetAt(l, now) <= now + l.windowMs
    ensures l.Sliding? ==>
      (ResetAt(l, now) - l.windowMs) % l.precisionMs == 0 && now - l.precisionMs < ResetAt(l, now) - l.windowMs <= now
    ensures l.Fixed? || l.precisionMs <= l.windowMs ==> now < ResetAt(l, now)
  {
    var start := Floor(now, l.Grain());
    MultipleDivides(now / l.Grain(), l.Grain());
    MultipleDivides(now / l.Grain() + 1, l.Grain());
    assert start == now / l.Grain() * l.Grain();
    assert l.Fixed? ==> ResetAt(l, now) == (now / l.Grain() + 1) * l.Grain();
  }

  lemma MultipleDivides(q: int, d: int)
    requires d >= 1
    ensures q * d % d == 0
  {
    DivisionIsUnique(q * d, d, q);
  }

  /** A limit and a window of the call's own take the place of the limiter's, rounded down; nothing else changes. */
  lemma OwnLimitsDecide(l: Limiter, limit: Option<real>, windowMs: Option<real>, count: int, now: int)
    requires l.With(limit, windowMs).Valid()
    ensures var reply := HitReply(l.With(limit, windowMs), count, now);
      var max := if limit.Some? then limit.value.Floor else l.limit;
      var window := if windowMs.Some? then windowMs.value.Floor else l.windowMs;
      && reply.limit == max && (reply.allowed <==> count <= max)
      && (l.Fixed? ==> now < reply.resetAt <= now + window && reply.resetAt % window == 0)
      && (l.Sliding? ==> now - l.precisionMs < reply.resetAt - window <= now && (reply.resetAt - window) % l.precisionMs == 0)
  {
    ResetIsLater(l.With(limit, windowMs), now);
  }

  // ---- cleanup ----

  function ExpiredIds(rows: seq<Row>, now: int): set<RowId> {
    set i | 0 <= i < |rows| && rows[i].expiresAt <= now :: Id(rows[i])
  }

  lemma {:induction false} DeletedRows(rows: seq<Row>, picked: set<RowId>, now: int, r: Row)
    ensures r in Delete(rows, picked, now) <==> r in rows && !(Id(r) in picked && r.expiresAt <= now)
  {
    if rows != [] { DeletedRows(rows[1..], picked, now, r); }
  }

  lemma ExpiredTail(rows: seq<Row>, now: int)
    requires DistinctIds(rows) && rows != []
    ensures Id(rows[0]) !in ExpiredIds(rows[1..], now)
    ensures ExpiredIds(rows, now) == (if rows[0].expiresAt <= now then {Id(rows[0])} else {}) + ExpiredIds(rows[1..], now)
  {
    var tail := rows[1..];
    forall i | 0 <= i < |tail| ensures tail[i] == rows[i + 1] && Id(tail[i]) != Id(rows[0]) {
      assert Id(rows[0]) != Id(rows[i + 1]);
    }
    forall i | 1 <= i < |rows| && rows[i].expiresAt <= now ensures Id(rows[i]) in ExpiredIds(tail, now) {
      assert rows[i] == tail[i - 1];
    }
    forall id | id in ExpiredIds(tail, now) ensures id in ExpiredIds(rows, now) {
      var i :| 0 <= i < |tail| && tail[i].expiresAt <= now && id == Id(tail[i]);
      assert rows[i + 1] == tail[i];
    }
  }

  lemma {:induction false} DeletedCount(rows: seq<Row>, picked: set<RowId>, now: int)
    requires DistinctIds(rows)
    ensures |rows| - |Delete(rows, picked, now)| == |picked * ExpiredIds(rows, now)|
  {
    hide DistinctIds, ExpiredIds;
    if rows == [] {
      NoneExpired(now);
      assert picked * {} == {};
    } else {
      DistinctTail(rows);
      ExpiredTail(rows, now);
      DeletedCount(rows[1..], picked, now);
      var rest := picked * ExpiredIds(rows[1..], now);
      if Id(rows[0]) in picked && rows[0].expiresAt <= now {
        assert picked * ExpiredIds(rows, now) == {Id(rows[0])} + rest;
      } else {
        assert picked * ExpiredIds(rows, now) == rest;
      }
    }
  }

  lemma NoneExpired(now: int)
    ensures ExpiredIds([], now) == {}
  {}

  /** In every run: cleanup deletes exactly the expired rows among those the server picks, all of them if it picks them all. */
  lemma CleanupTakesExpired(l: Limiter, run: Run, picked: set<RowId>, now: int)
    requires l.Valid() && Ordered(run)
    ensures var rows := Table(l, run);
      var left := Table(l, Then(run, Cleanup(now, picked)));
      && (forall r :: r in left <==> r in rows && !(Id(r) in picked && r.expiresAt <= now))
      && |rows| - |left| == |picked * ExpiredIds(rows, now)|
      && (ExpiredIds(rows, now) <= picked ==> forall r :: r in left ==> r.expiresAt > now)
  {
    hide DistinctIds, Delete;
    var rows := Table(l, run);
    TableIsOk(l, run);
    DeletedCount(rows, picked, now);
    forall r ensures r in Delete(rows, picked, now) <==> r in rows && !(Id(r) in picked && r.expiresAt <= now) {
      DeletedRows(rows, picked, now, r);
    }
    forall r | r in rows && r.expiresAt <= now ensures Id(r) in ExpiredIds(rows, now) {
      var i :| 0 <= i < |rows| && rows[i] == r;
    }
  }

  lemma {:induction false} UpsertExpires(rows: seq<Row>, key: string, start: int, cost: int, expiresAt: int, bound: int)
    requires expiresAt <= bound && forall r :: r in rows ==> r.expiresAt <= bound
    ensures forall r :: r in Upsert(rows, key, start, cost, expiresAt) ==> r.expiresAt <= bound
  {
    if rows != [] && Id(rows[0]) != (key, start) { UpsertExpires(rows[1..], key, start, cost, expiresAt, bound); }
  }

  /** In every run, windowMs after the last event every row has expired. */
  lemma {:induction false} RowsExpire(l: Limiter, run: Run, t: int)
    requires l.Valid() && AllBy(run, t)
    ensures forall r :: r in Table(l, run) ==> r.expiresAt <= t + l.windowMs
  {
    hide Upsert, Delete, Floor;
    match run
    case Empty =>
    case Then(before, Hit(key, now, cost)) =>
      RowsExpire(l, before, t);
      UpsertExpires(Table(l, before), key, Floor(now, l.Grain()), cost, now + l.windowMs, t + l.windowMs);
    case Then(before, Cleanup(now, picked)) =>
      RowsExpire(l, before, t);
      forall r | r in Delete(Table(l, before), picked, now) ensures r in Table(l, before) { DeletedRows(Table(l, before), picked, now, r); }
  }
}
