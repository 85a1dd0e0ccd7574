/**
  The fixed-window and sliding-window limiters. Both keep counter rows (key, start, count, expires_at) and
  write them with the same upsert; they differ in the grain of `start` and in which rows are summed.
  The sliding limiter's `WITH` query is read so that the upsert is visible to the sum after it
  (the reading packages/pgredis/src/rate-limit.test.ts:120-146 expects).
*/
module WindowCounters {
  import opened Arithmetic
  import opened RateLimitOptions
  import opened Wrappers

  datatype Row = Row(key: string, start: int, count: int, expiresAt: int)

  type RowId = (string, int)

  function Id(r: Row): RowId { (r.key, r.start) }

  /** `windowMs` and `limit` are the ones in force for the run; the sliding limiter adds its precision. */
  datatype Limiter =
    | Fixed(limit: int, windowMs: int)
    | Sliding(limit: int, windowMs: int, precisionMs: int)
  {
    predicate Valid() {
      limit >= 1 && windowMs >= 1 && (Sliding? ==> precisionMs >= 1)
    }

    /** The limiter with a call's own limit and window. */
    function With(limit: Option<real>, windowMs: Option<real>): Limiter {
      var l := if limit.Some? then this.(limit := limit.value.Floor) else this;
      if windowMs.Some? then l.(windowMs := windowMs.value.Floor) else l
    }

    /** Rows start at multiples of the grain. */
    function Grain(): (g: int)
      requires Valid()
      ensures g >= 1
    {
      if Fixed? then windowMs else precisionMs
    }
  }

  /** The multiple of `grain` at or below `t` (JavaScript's Math.floor, also for negative times). */
  function Floor(t: int, grain: int): (start: int)
    requires grain >= 1
    ensures start <= t < start + grain
  {
    t / grain * grain
  }

  /** INSERT ... ON CONFLICT DO UPDATE: add to the row of (key, start), or append it. */
  function Upsert(rows: seq<Row>, key: string, start: int, cost: int, expiresAt: int): seq<Row> {
    if rows == [] then [Row(key, start, cost, expiresAt)]
    else if Id(rows[0]) == (key, start) then
      [Row(key, start, rows[0].count + cost, Max(rows[0].expiresAt, expiresAt))] + rows[1..]
    else [rows[0]] + Upsert(rows[1..], key, start, cost, expiresAt)
  }

  /** DELETE of the picked rows that have expired. Which ones a LIMIT picks is the server's choice. */
  function Delete(rows: seq<Row>, picked: set<RowId>, now: int): seq<Row> {
    if rows == [] then []
    else (if Id(rows[0]) in picked && rows[0].expiresAt <= now then [] else [rows[0]]) + Delete(rows[1..], picked, now)
  }

  /** SUM(count) over the rows of `key` with lo <= start < hi. */
  function SumRange(rows: seq<Row>, key: string, lo: int, hi: int): int {
    if rows == [] then 0
    else (if rows[0].key == key && lo <= rows[0].start < hi then rows[0].count else 0) + SumRange(rows[1..], key, lo, hi)
  }

  /** SUM(count) over the rows of `key` with start > cutoff. */
  function SumAfter(rows: seq<Row>, key: string, cutoff: int): int {
    if rows == [] then 0
    else (if rows[0].key == key && rows[0].start > cutoff then rows[0].count else 0) + SumAfter(rows[1..], key, cutoff)
  }

  /** The count of the row of (key, start), as RETURNING gives it back. */
  function CountOf(rows: seq<Row>, key: string, start: int): int {
    if rows == [] then 0
    else if Id(rows[0]) == (key, start) then rows[0].count
    else CountOf(rows[1..], key, start)
  }

  datatype Reply = Reply(allowed: bool, limit: int, count: int, remaining: int, resetAt: int, retryAfterMs: int)

  /** The table after a hit. */
  function HitRows(l: Limiter, rows: seq<Row>, key: string, cost: int, now: int): seq<Row>
    requires l.Valid()
  {
    Upsert(rows, key, Floor(now, l.Grain()), cost, now + l.windowMs)
  }

  /** The count a hit reports, read from the table after the upsert. */
  function HitCount(l: Limiter, after: seq<Row>, key: string, now: int): int
    requires l.Valid()
  {
    match l
    case Fixed(_, windowMs) => CountOf(after, key, Floor(now, windowMs))
    case Sliding(_, windowMs, _) => SumAfter(after, key, now - windowMs)
  }

  function HitReply(l: Limiter, count: int, now: int): Reply
    requires l.Valid()
  {
    var allowed := count <= l.limit;
    var start := Floor(now, l.Grain());
    Reply(allowed, l.limit, count, Max(0, l.limit - count), start + l.windowMs,
          if allowed then 0 else if l.Fixed? then Max(0, start + l.windowMs - now) else l.precisionMs)
  }

  predicate Accepts(cost: real, limit: Option<real>, windowMs: Option<real>) {
    cost > 0.0 && (limit.Some? ==> limit.value > 0.0) && (windowMs.Some? ==> windowMs.value > 0.0)
  }

  /** One limiter over one table; the two source classes differ only in `limiter`. */
  class PgWindowRateLimiter {
    const limiter: Limiter
    var rows: seq<Row>

    constructor (limiter: Limiter)
      requires limiter.Valid()
      ensures this.limiter == limiter && rows == []
    {
      this.limiter := limiter;
      rows := [];
    }

    /** A hit; a limit and a window of its own take the place of the limiter's for this call. */
    method Hit(key: string, cost: real, now: int, limit: Option<real>, windowMs: Option<real>) returns (reply: Result<Reply>)
      requires limiter.Valid()
      requires (limit.Some? ==> !(0.0 < limit.value < 1.0)) && (windowMs.Some? ==> !(0.0 < windowMs.value < 1.0))
      modifies this
      ensures !Accepts(cost, limit, windowMs) ==> reply.Err? && rows == old(rows)
      ensures Accepts(cost, limit, windowMs) ==>
        var l := limiter.With(limit, windowMs);
        && rows == HitRows(l, old(rows), key, cost.Floor, now)
        && reply == Ok(HitReply(l, HitCount(l, rows, key, now), now))
    {
      var normalizedLimit := if limit.Some? then NormalizePositiveInteger(limit.value) else Ok(limiter.limit);
      if normalizedLimit.Err? { return Err(normalizedLimit.error); }
      var normalizedWindow := if windowMs.Some? then NormalizePositiveInteger(windowMs.value) else Ok(limiter.windowMs);
      if normalizedWindow.Err? { return Err(normalizedWindow.error); }
      var normalized := NormalizePositiveInteger(cost);
      if normalized.Err? { return Err(normalized.error); }
      var max, window := normalizedLimit.value, normalizedWindow.value;
      var grain := if limiter.Fixed? then window else limiter.precisionMs;
      var start := Floor(now, grain);
      var at := UpsertRow(key, start, normalized.value, now + window);
      var count := rows[at].count;
      if limiter.Sliding? {
        count := SumRowsAfter(key, now - window);
      }
      var allowed := count <= max;
      var retryAfterMs := 0;
      if !allowed {
        retryAfterMs := if limiter.Fixed? then Max(0, start + window - now) else limiter.precisionMs;
      }
      reply := Ok(Reply(allowed, max, count, Max(0, max - count), start + window, retryAfterMs));
    }

    /** The upsert statement, scanning for the conflicting row. */
    method UpsertRow(key: string, start: int, cost: int, expiresAt: int) returns (at: nat)
      modifies this
      ensures rows == Upsert(old(rows), key, start, cost, expiresAt)
      ensures at < |rows| && Id(rows[at]) == (key, start) && rows[at].count == CountOf(rows, key, start)
    {
      hide Upsert;
      at := 0;
      assert rows[0..] == rows && rows[..0] == [];
      while at < |rows| && Id(rows[at]) != (key, start)
        invariant at <= |rows| && rows == old(rows)
        invariant Upsert(rows, key, start, cost, expiresAt) == rows[..at] + Upsert(rows[at..], key, start, cost, expiresAt)
        invariant forall i :: 0 <= i < at ==> Id(rows[i]) != (key, start)
      {
        UpsertAt(rows, at, key, start, cost, expiresAt);
        assert rows[..at + 1] == rows[..at] + [rows[at]];
        at := at + 1;
      }
      if at < |rows| {
        UpsertAt(rows, at, key, start, cost, expiresAt);
        rows := rows[at := Row(key, start, rows[at].count + cost, Max(rows[at].expiresAt, expiresAt))];
      } else {
        assert rows[at..] == [] && rows[..at] == rows;
        UpsertIntoNothing(key, start, cost, expiresAt);
        rows := rows + [Row(key, start, cost, expiresAt)];
      }
      CountOfFirst(rows, key, start, at);
    }

    method SumRowsAfter(key: string, cutoff: int) returns (sum: int)
      ensures sum == SumAfter(rows, key, cutoff)
    {
      sum := 0;
      for i := 0 to |rows|
        invariant sum + SumAfter(rows[i..], key, cutoff) == SumAfter(rows, key, cutoff)
      {
        assert rows[i..][0] == rows[i] && rows[i..][1..] == rows[i + 1..];
        if rows[i].key == key && rows[i].start > cutoff {
          sum := sum + rows[i].count;
        }
      }
    }

    /** `picked` are the rows the server's LIMIT chooses among the expired ones. */
    method CleanupExpired(picked: set<RowId>, now: int) returns (deleted: nat)
      modifies this
      ensures rows == Delete(old(rows), picked, now)
      ensures deleted == |old(rows)| - |rows|
    {
      hide Delete;
      deleted := 0;
      var i := 0;
      assert rows[..0] == [] && rows[0..] == rows;
      while i < |rows|
        invariant i <= |rows| && deleted == |old(rows)| - |rows|
        invariant rows[..i] + Delete(rows[i..], picked, now) == Delete(old(rows), picked, now)
        decreases |rows| - i
      {
        DeleteAt(rows, i, picked, now);
        if Id(rows[i]) in picked && rows[i].expiresAt <= now {
          ghost var tail := rows[i + 1..];
          ghost var front := rows[..i];
          rows := rows[..i] + rows[i + 1..];
          assert rows[i..] == tail && rows[..i] == front;
          deleted := deleted + 1;
        } else {
          assert rows[..i + 1] == rows[..i] + [rows[i]];
          i := i + 1;
        }
      }
      DeleteNothing(picked, now);
      assert rows[..i] == rows && rows[i..] == [];
    }
  }

  lemma UpsertIntoNothing(key: string, start: int, cost: int, expiresAt: int)
    ensures Upsert([], key, start, cost, expiresAt) == [Row(key, start, cost, expiresAt)]
  {}

  lemma UpsertAt(rows: seq<Row>, at: nat, key: string, start: int, cost: int, expiresAt: int)
    requires at < |rows|
    ensures Id(rows[at]) != (key, start) ==>
      Upsert(rows[at..], key, start, cost, expiresAt) == [rows[at]] + Upsert(rows[at + 1..], key, start, cost, expiresAt)
    ensures Id(rows[at]) == (key, start) ==>
      Upsert(rows[at..], key, start, cost, expiresAt)
        == [Row(key, start, rows[at].count + cost, Max(rows[at].expiresAt, expiresAt))] + rows[at + 1..]
  {
    assert rows[at..][0] == rows[at] && rows[at..][1..] == rows[at + 1..];
  }

  lemma DeleteNothing(picked: set<RowId>, now: int)
    ensures Delete([], picked, now) == []
  {}

  lemma DeleteAt(rows: seq<Row>, i: nat, picked: set<RowId>, now: int)
    requires i < |rows|
    ensures Delete(rows[i..], picked, now)
      == (if Id(rows[i]) in picked && rows[i].expiresAt <= now then [] else [rows[i]]) + Delete(rows[i + 1..], picked, now)
  {
    assert rows[i..][0] == rows[i] && rows[i..][1..] == rows[i + 1..];
  }

  lemma {:induction false} CountOfFirst(rows: seq<Row>, key: string, start: int, at: nat)
    requires at < |rows| && Id(rows[at]) == (key, start)
    requires forall i :: 0 <= i < at ==> Id(rows[i]) != (key, start)
    ensures CountOf(rows, key, start) == rows[at].count
  {
    if at > 0 { CountOfFirst(rows[1..], key, start, at - 1); }
  }
}
