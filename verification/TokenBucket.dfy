/**
  The token-bucket limiter. Tokens are exact reals. The `WITH` query is read so that the seeded row is
  visible to the read after it (the reading packages/pgredis/src/rate-limit.test.ts:120-146 expects).
*/
module TokenBucket {
  import opened Arithmetic
  import opened RateLimitOptions
  import opened Wrappers

  datatype Params = Params(capacity: int, refillTokens: int, refillIntervalMs: int) {
    predicate Valid() { capacity >= 1 && refillTokens >= 1 && refillIntervalMs >= 1 }
  }

  datatype Bucket = Bucket(tokens: real, lastRefillMs: int)

  datatype Reply = Reply(allowed: bool, tokens: real, remaining: int, retryAfterMs: int)

  function Least(a: real, b: real): real { if a <= b then a else b }

  function Ceil(x: real): int { -((-x).Floor) }

  /** Tokens earned in `ms` milliseconds, before the cap. */
  function Gain(p: Params, ms: int): real
    requires p.Valid()
  {
    ms as real / p.refillIntervalMs as real * p.refillTokens as real
  }

  /** Tokens available to a call at `now`; an absent row is seeded full. */
  function Available(p: Params, row: Option<Bucket>, now: int): real
    requires p.Valid()
  {
    match row
    case None => Least(p.capacity as real, p.capacity as real + Gain(p, 0))
    case Some(b) => Least(p.capacity as real, b.tokens + Gain(p, Max(0, now - b.lastRefillMs)))
  }

  predicate Allowed(p: Params, row: Option<Bucket>, now: int, cost: int)
    requires p.Valid()
  {
    Available(p, row, now) >= cost as real
  }

  /** The stored row after a call. */
  function After(p: Params, row: Option<Bucket>, now: int, cost: int): Bucket
    requires p.Valid()
  {
    var available := Available(p, row, now);
    Bucket(if available >= cost as real then available - cost as real else available, now)
  }

  /** Milliseconds until `missing` tokens are earned. */
  function WaitMs(p: Params, missing: real): int
    requires p.Valid()
  {
    Ceil(missing / p.refillTokens as real * p.refillIntervalMs as real)
  }

  function RetryAfterMs(p: Params, row: Option<Bucket>, now: int, cost: int): int
    requires p.Valid()
  {
    if Allowed(p, row, now, cost) then 0
    else
      var missing := cost as real - Available(p, row, now);
      WaitMs(p, if missing > 0.0 then missing else 0.0)
  }

  class PgTokenBucketRateLimiter {
    const params: Params
    var rows: map<string, Bucket>

    constructor (params: Params)
      requires params.Valid()
      ensures this.params == params && rows == map[]
    {
      this.params := params;
      rows := map[];
    }

    function Row(key: string): Option<Bucket>
      reads this
    {
      if key in rows then Some(rows[key]) else None
    }

    method Consume(key: string, cost: real, now: int) returns (reply: Result<Reply>)
      requires params.Valid()
      modifies this
      ensures cost <= 0.0 ==> reply.Err? && rows == old(rows)
      ensures cost > 0.0 ==>
        && rows == old(rows)[key := After(params, old(Row(key)), now, cost.Floor)]
        && reply.Ok?
        && reply.value.allowed == Allowed(params, old(Row(key)), now, cost.Floor)
        && reply.value.tokens == After(params, old(Row(key)), now, cost.Floor).tokens
        && reply.value.remaining == Max(0, reply.value.tokens.Floor)
        && reply.value.retryAfterMs == RetryAfterMs(params, old(Row(key)), now, cost.Floor)
    {
      var normalized := NormalizePositiveInteger(cost);
      if normalized.Err? {
        return Err(normalized.error);
      }
      var normalizedCost := normalized.value;
      ghost var before := Row(key);
      // seeded
      if key !in rows {
        rows := rows[key := Bucket(params.capacity as real, now)];
      }
      // computed
      var state := rows[key];
      var elapsed := Max(0, now - state.lastRefillMs);
      var available := Least(params.capacity as real, state.tokens + Gain(params, elapsed));
      assert available == Available(params, before, now);
      // updated
      var allowed := available >= normalizedCost as real;
      rows := rows[key := Bucket(if allowed then available - normalizedCost as real else available, now)];
      var retryAfterMs := 0;
      if !allowed {
        var missing := normalizedCost as real - available;
        if missing < 0.0 { missing := 0.0; }
        retryAfterMs := WaitMs(params, missing);
      }
      reply := Ok(Reply(allowed, rows[key].tokens, Max(0, rows[key].tokens.Floor), retryAfterMs));
    }
  }

  // ---- arithmetic of the refill ----

  function Rate(p: Params): (r: real)
    requires p.Valid()
    ensures r > 0.0
  {
    p.refillTokens as real / p.refillIntervalMs as real
  }

  lemma GainIsLinear(p: Params, ms: int)
    requires p.Valid()
    ensures Gain(p, ms) == Rate(p) * ms as real
  {
  }

  lemma Scale(rate: real, a: real, b: real)
    requires rate > 0.0
    ensures rate * (a + b) == rate * a + rate * b
    ensures a <= b ==> rate * a <= rate * b
  {
  }

  lemma GainAdds(p: Params, a: int, b: int)
    requires p.Valid()
    ensures Gain(p, a + b) == Gain(p, a) + Gain(p, b)
  {
    GainIsLinear(p, a);
    GainIsLinear(p, b);
    GainIsLinear(p, a + b);
    Scale(Rate(p), a as real, b as real);
  }

  lemma GainIsMonotone(p: Params, a: int, b: int)
    requires p.Valid() && a <= b
    ensures Gain(p, a) <= Gain(p, b)
    ensures Gain(p, 0) == 0.0
  {
    GainIsLinear(p, a);
    GainIsLinear(p, b);
    GainIsLinear(p, 0);
    Scale(Rate(p), a as real, b as real);
  }

  // ---- runs on one key ----

  datatype Call = Call(now: int, cost: int)

  ghost predicate Monotone(calls: seq<Call>, from: int) {
    && (forall i :: 0 <= i < |calls| ==> from <= calls[i].now)
    && (forall i, j :: 0 <= i <= j < |calls| ==> calls[i].now <= calls[j].now)
  }

  predicate RowOk(p: Params, row: Option<Bucket>) {
    row.Some? ==> 0.0 <= row.value.tokens <= p.capacity as real
  }

  /** The time of the last refill, or any time if there is no row yet. */
  predicate RefilledBy(row: Option<Bucket>, now: int) {
    row.Some? ==> row.value.lastRefillMs <= now
  }

  function RowAfter(p: Params, row: Option<Bucket>, calls: seq<Call>): Option<Bucket>
    requires p.Valid()
    decreases |calls|
  {
    if calls == [] then row
    else RowAfter(p, Some(After(p, row, calls[0].now, calls[0].cost)), calls[1..])
  }

  /** The decision of every call of a run, in order. */
  function Decisions(p: Params, row: Option<Bucket>, calls: seq<Call>): (d: seq<bool>)
    requires p.Valid()
    ensures |d| == |calls|
    decreases |calls|
  {
    if calls == [] then []
    else
      [Allowed(p, row, calls[0].now, calls[0].cost)]
      + Decisions(p, Some(After(p, row, calls[0].now, calls[0].cost)), calls[1..])
  }

  /** The cost admitted by the calls of a run whose time lies in [from, to]. */
  function AdmittedIn(p: Params, row: Option<Bucket>, calls: seq<Call>, from: int, to: int): int
    requires p.Valid()
    decreases |calls|
  {
    if calls == [] then 0
    else
      (if from <= calls[0].now <= to && Allowed(p, row, calls[0].now, calls[0].cost) then calls[0].cost else 0)
      + AdmittedIn(p, Some(After(p, row, calls[0].now, calls[0].cost)), calls[1..], from, to)
  }

  lemma TailIsMonotone(calls: seq<Call>, from: int)
    requires Monotone(calls, from) && calls != []
    ensures from <= calls[0].now && Monotone(calls[1..], calls[0].now)
  {
  }

  /** One call keeps the stored tokens within [0, capacity]. */
  lemma CallKeepsTokensInRange(p: Params, row: Option<Bucket>, now: int, cost: int)
    requires p.Valid() && RowOk(p, row) && cost >= 0
    ensures 0.0 <= Available(p, row, now) <= p.capacity as real
    ensures RowOk(p, Some(After(p, row, now, cost)))
  {
    GainIsMonotone(p, 0, 0);
    if row.Some? {
      GainIsMonotone(p, 0, Max(0, now - row.value.lastRefillMs));
    }
  }

  /** Stored tokens stay within [0, capacity] over every run, whatever the clock does. */
  lemma {:induction false} TokensStayInRange(p: Params, row: Option<Bucket>, calls: seq<Call>)
    requires p.Valid() && RowOk(p, row)
    requires forall i :: 0 <= i < |calls| ==> calls[i].cost >= 0
    ensures RowOk(p, RowAfter(p, row, calls))
    decreases |calls|
  {
    if calls != [] {
      CallKeepsTokensInRange(p, row, calls[0].now, calls[0].cost);
      TokensStayInRange(p, Some(After(p, row, calls[0].now, calls[0].cost)), calls[1..]);
    }
  }

  /** Once a row is stored at time `start`, a run admits no more than its tokens plus the refill. */
  lemma {:induction false} AdmittedFromRow(p: Params, b: Bucket, calls: seq<Call>, from: int, to: int)
    requires p.Valid() && RowOk(p, Some(b))
    requires Monotone(calls, b.lastRefillMs) && forall i :: 0 <= i < |calls| ==> calls[i].cost >= 0
    ensures b.lastRefillMs <= to ==>
      AdmittedIn(p, Some(b), calls, from, to) as real <= b.tokens + Gain(p, to - b.lastRefillMs)
    ensures b.lastRefillMs > to ==> AdmittedIn(p, Some(b), calls, from, to) == 0
    decreases |calls|
  {
    if calls == [] {
      if b.lastRefillMs <= to { GainIsMonotone(p, 0, to - b.lastRefillMs); }
    } else {
      var now, cost := calls[0].now, calls[0].cost;
      var b' := After(p, Some(b), now, cost);
      CallKeepsTokensInRange(p, Some(b), now, cost);
      TailIsMonotone(calls, b.lastRefillMs);
      AdmittedFromRow(p, b', calls[1..], from, to);
      if b.lastRefillMs <= to {
        GainIsMonotone(p, 0, to - b.lastRefillMs);
        GainIsMonotone(p, 0, now - b.lastRefillMs);
        if now <= to {
          GainAdds(p, now - b.lastRefillMs, to - now);
          assert Available(p, Some(b), now) <= b.tokens + Gain(p, now - b.lastRefillMs);
        }
      }
    }
  }

  /**
    Over any run with a monotone clock, the cost admitted in [from, to] is at most
    capacity + (to - from) / refillIntervalMs * refillTokens.
  */
  lemma {:induction false} AdmittedIsBounded(p: Params, row: Option<Bucket>, calls: seq<Call>, from: int, to: int)
    requires p.Valid() && RowOk(p, row) && from <= to
    requires forall i :: 0 <= i < |calls| ==> calls[i].cost >= 0
    requires forall i, j :: 0 <= i <= j < |calls| ==> calls[i].now <= calls[j].now
    ensures AdmittedIn(p, row, calls, from, to) as real <= p.capacity as real + Gain(p, to - from)
    decreases |calls|
  {
    hide Gain;
    GainIsMonotone(p, 0, to - from);
    if calls != [] {
      var now, cost := calls[0].now, calls[0].cost;
      var b' := After(p, row, now, cost);
      CallKeepsTokensInRange(p, row, now, cost);
      if now < from {
        AdmittedIsBounded(p, Some(b'), calls[1..], from, to);
      } else {
        TailIsMonotone(calls, now);
        AdmittedFromRow(p, b', calls[1..], from, to);
        if now <= to { GainIsMonotone(p, to - now, to - from); }
      }
    }
  }

  // ---- denials are unobservable ----

  /** Two rows no later call can tell apart: from `now` on, both offer the same tokens. */
  ghost predicate Alike(p: Params, a: Option<Bucket>, b: Option<Bucket>, now: int)
    requires p.Valid()
  {
    forall later :: later >= now ==> Available(p, a, later) == Available(p, b, later)
  }

  /** Capped refill composes: refilling at `now` and again later is one refill. */
  lemma DenialLeavesRowAlike(p: Params, row: Option<Bucket>, now: int, cost: int)
    requires p.Valid() && RefilledBy(row, now) && !Allowed(p, row, now, cost)
    ensures Alike(p, row, Some(After(p, row, now, cost)), now)
  {
    var b' := After(p, row, now, cost);
    forall later | later >= now
      ensures Available(p, row, later) == Available(p, Some(b'), later)
    {
      GainIsMonotone(p, 0, later - now);
      match row {
        case None =>
        case Some(b) => GainAdds(p, now - b.lastRefillMs, later - now);
      }
    }
  }

  lemma SameCallKeepsAlike(p: Params, a: Option<Bucket>, b: Option<Bucket>, now: int, cost: int)
    requires p.Valid() && Alike(p, a, b, now)
    ensures Allowed(p, a, now, cost) == Allowed(p, b, now, cost)
    ensures After(p, a, now, cost) == After(p, b, now, cost)
  {
  }

  lemma AlikeLater(p: Params, a: Option<Bucket>, b: Option<Bucket>, c: Option<Bucket>, now: int, later: int)
    requires p.Valid() && Alike(p, a, b, now) && Alike(p, b, c, later) && now <= later
    ensures Alike(p, a, c, later)
  {
  }

  lemma StillAlike(p: Params, a: Option<Bucket>, b: Option<Bucket>, now: int, later: int)
    requires p.Valid() && (a == b || Alike(p, a, b, now)) && now <= later
    ensures Alike(p, a, b, later)
  {
  }

  /** The elements of `s` whose place in `mask` is true. */
  function Kept<T>(s: seq<T>, mask: seq<bool>): seq<T>
    requires |mask| == |s|
  {
    if s == [] then [] else (if mask[0] then [s[0]] else []) + Kept(s[1..], mask[1..])
  }

  /** Every call the mask drops was denied in the run. */
  predicate DropsOnlyDenials(p: Params, row: Option<Bucket>, calls: seq<Call>, mask: seq<bool>)
    requires p.Valid() && |mask| == |calls|
    decreases |calls|
  {
    calls == [] ||
    ((mask[0] || !Allowed(p, row, calls[0].now, calls[0].cost))
     && DropsOnlyDenials(p, Some(After(p, row, calls[0].now, calls[0].cost)), calls[1..], mask[1..]))
  }

  lemma KeptHead<T>(s: seq<T>, mask: seq<bool>)
    requires |mask| == |s| > 0
    ensures mask[0] ==> Kept(s, mask) != [] && Kept(s, mask)[0] == s[0] && Kept(s, mask)[1..] == Kept(s[1..], mask[1..])
    ensures !mask[0] ==> Kept(s, mask) == Kept(s[1..], mask[1..])
  {
    if mask[0] {
      assert Kept(s, mask) == [s[0]] + Kept(s[1..], mask[1..]);
    }
  }

  lemma DecisionsHead(p: Params, row: Option<Bucket>, calls: seq<Call>)
    requires p.Valid() && calls != []
    ensures Decisions(p, row, calls)[0] == Allowed(p, row, calls[0].now, calls[0].cost)
    ensures Decisions(p, row, calls)[1..] == Decisions(p, Some(After(p, row, calls[0].now, calls[0].cost)), calls[1..])
  {
  }

  lemma SplitHead<T>(s: seq<T>, t: seq<T>)
    requires s != [] && t != [] && s[0] == t[0] && s[1..] == t[1..]
    ensures s == t
  {
    assert s == [s[0]] + s[1..] && t == [t[0]] + t[1..];
  }

  /**
    Deleting any denied calls from a run leaves every other decision as it was: for any mask that
    drops denied calls only, the run of the kept calls decides exactly what the whole run decided of them.
  */
  lemma {:induction false} DenialsAreUnobservable(
      p: Params, row: Option<Bucket>, shadow: Option<Bucket>, calls: seq<Call>, mask: seq<bool>, from: int)
    requires p.Valid() && |mask| == |calls| && Monotone(calls, from)
    requires RefilledBy(row, from) && Alike(p, shadow, row, from)
    requires DropsOnlyDenials(p, row, calls, mask)
    ensures Decisions(p, shadow, Kept(calls, mask)) == Kept(Decisions(p, row, calls), mask)
    decreases |calls|
  {
    hide Gain, Available, Allowed, Alike, Kept, Decisions, Monotone;
    if calls == [] {
      KeptNothing(p, row, shadow);
    } else {
      var now, cost := calls[0].now, calls[0].cost;
      var row' := Some(After(p, row, now, cost));
      TailIsMonotone(calls, from);
      StillAlike(p, shadow, row, from, now);
      DecisionsHead(p, row, calls);
      KeptHead(calls, mask);
      KeptHead(Decisions(p, row, calls), mask);
      if mask[0] {
        SameCallKeepsAlike(p, shadow, row, now, cost);
        StillAlike(p, row', row', now, now);
        DenialsAreUnobservable(p, row', row', calls[1..], mask[1..], now);
        DecisionsHead(p, shadow, Kept(calls, mask));
        SplitHead(Decisions(p, shadow, Kept(calls, mask)), Kept(Decisions(p, row, calls), mask));
      } else {
        DenialLeavesRowAlike(p, row, now, cost);
        AlikeLater(p, shadow, row, row', from, now);
        DenialsAreUnobservable(p, row', shadow, calls[1..], mask[1..], now);
      }
    }
  }

  lemma KeptNothing(p: Params, row: Option<Bucket>, shadow: Option<Bucket>)
    requires p.Valid()
    ensures Decisions(p, shadow, Kept([], [])) == Kept(Decisions(p, row, []), [])
  {
  }

  // ---- retryAfterMs is exact ----

  lemma CeilIsLeast(x: real, n: int)
    ensures n as real >= x <==> n >= Ceil(x)
  {
  }

  /** `missing` tokens are earned after exactly WaitMs milliseconds. */
  lemma WaitForTokens(p: Params, missing: real, ms: int)
    requires p.Valid() && missing > 0.0 && ms >= 0
    ensures Gain(p, ms) >= missing <==> ms >= WaitMs(p, missing)
  {
    var wait := missing / p.refillTokens as real * p.refillIntervalMs as real;
    CeilIsLeast(wait, ms);
    GainIsLinear(p, ms);
    RateTimesWait(p, missing);
    Scale(Rate(p), wait, ms as real);
    if ms as real < wait { StrictScale(Rate(p), ms as real, wait); }
  }

  lemma RateTimesWait(p: Params, missing: real)
    requires p.Valid()
    ensures Rate(p) * (missing / p.refillTokens as real * p.refillIntervalMs as real) == missing
  {
    Cancel(p.refillTokens as real, p.refillIntervalMs as real, missing);
  }

  lemma Cancel(a: real, b: real, x: real)
    requires a > 0.0 && b > 0.0
    ensures (a / b) * (x / a * b) == x
  {
    var y := x / a;
    assert y * a == x;
    var r := a / b;
    assert r * b == a;
    assert r * (y * b) == (r * b) * y;
  }

  lemma StrictScale(rate: real, a: real, b: real)
    requires rate > 0.0 && a < b
    ensures rate * a < rate * b
  {
  }

  /**
    After a denial at `now` and no call in between, the same cost is admitted at `later` exactly when it
    fits the capacity at all and `later` is at or after now + retryAfterMs.
  */
  lemma RetryAfterIsExact(p: Params, row: Option<Bucket>, now: int, cost: int, later: int)
    requires p.Valid() && RowOk(p, row) && RefilledBy(row, now) && cost >= 0
    requires !Allowed(p, row, now, cost) && later >= now
    ensures Allowed(p, Some(After(p, row, now, cost)), later, cost)
      <==> cost <= p.capacity && later >= now + RetryAfterMs(p, row, now, cost)
  {
    var available := Available(p, row, now);
    var missing := cost as real - available;
    CallKeepsTokensInRange(p, row, now, cost);
    WaitForTokens(p, missing, later - now);
  }
}
