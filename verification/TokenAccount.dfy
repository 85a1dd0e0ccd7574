/**
  What a token bucket must admit: every decision of a run and the tokens left, from the calls and the earlier
  decisions alone.
*/
module TokenAccount {
  import opened Arithmetic
  import opened Wrappers
  import opened TokenBucket

  /** refillTokens tokens every refillIntervalMs milliseconds. */
  function Refill(p: Params, ms: int): real
    requires p.Valid()
  {
    (p.refillTokens * ms) as real / p.refillIntervalMs as real
  }

  /** The cost of the admitted calls among calls[j..i]. */
  function Spent(calls: seq<Call>, decisions: seq<bool>, j: nat, i: nat): int
    requires j <= i <= |calls| == |decisions|
    decreases i - j
  {
    if j == i then 0 else (if decisions[j] then calls[j].cost else 0) + Spent(calls, decisions, j + 1, i)
  }

  /**
    Whether a demand for x tokens at time t fits after the first i calls: it fits the capacity; with what was admitted
    since any earlier call, it fits a bucket full at that call and its refill; and with everything admitted, it fits
    the tokens b there were at first and their refill.
  */
  ghost predicate Fits(p: Params, b: Bucket, calls: seq<Call>, decisions: seq<bool>, i: nat, t: int, x: real)
    requires p.Valid() && i <= |calls| == |decisions|
  {
    && x <= p.capacity as real
    && x + Spent(calls, decisions, 0, i) as real <= b.tokens + Refill(p, t - b.lastRefillMs)
    && forall j :: 0 <= j < i ==> x + Spent(calls, decisions, j, i) as real <= p.capacity as real + Refill(p, t - calls[j].now)
  }

  lemma GainIsRefill(p: Params, ms: int)
    requires p.Valid()
    ensures Gain(p, ms) == Refill(p, ms)
  {
    var r, n, d := p.refillTokens as real, ms as real, p.refillIntervalMs as real;
    assert (p.refillTokens * ms) as real == r * n;
    var q := n / d;
    assert q * d == n;
    assert r * n == (r * q) * d;
  }

  lemma RefillAdds(p: Params, a: int, b: int)
    requires p.Valid()
    ensures Refill(p, a + b) == Refill(p, a) + Refill(p, b)
    ensures Refill(p, 0) == 0.0
  {
    GainAdds(p, a, b);
    GainIsRefill(p, a);
    GainIsRefill(p, b);
    GainIsRefill(p, a + b);
    GainIsRefill(p, 0);
    GainIsMonotone(p, 0, 0);
  }

  lemma RefillIsNonnegative(p: Params, ms: nat)
    requires p.Valid()
    ensures Refill(p, ms) >= 0.0
  {
    GainIsMonotone(p, 0, ms);
    GainIsRefill(p, ms);
  }

  lemma AvailableOf(p: Params, b: Bucket, t: int)
    requires p.Valid() && b.lastRefillMs <= t
    ensures Available(p, Some(b), t) == Least(p.capacity as real, b.tokens + Refill(p, t - b.lastRefillMs))
  {
    GainIsRefill(p, t - b.lastRefillMs);
  }

  lemma {:induction false} SpentOfTail(calls: seq<Call>, decisions: seq<bool>, j: nat, i: nat)
    requires 1 <= j <= i <= |calls| == |decisions|
    ensures Spent(calls, decisions, j, i) == Spent(calls[1..], decisions[1..], j - 1, i - 1)
    decreases i - j
  {
    if j < i { SpentOfTail(calls, decisions, j + 1, i); }
  }

  /** The demand fits after all calls exactly if it fits the tail of the run, begun with the row the first call leaves. */
  lemma FitsTail(p: Params, b: Bucket, calls: seq<Call>, decisions: seq<bool>, t: int, x: real)
    requires p.Valid() && |calls| == |decisions| > 0 && b.lastRefillMs <= calls[0].now <= t
    requires decisions[0] <==> Allowed(p, Some(b), calls[0].now, calls[0].cost)
    ensures var next := After(p, Some(b), calls[0].now, calls[0].cost);
      Fits(p, b, calls, decisions, |calls|, t, x) <==> Fits(p, next, calls[1..], decisions[1..], |calls| - 1, t, x)
  {
    hide Refill;
    var n, next := |calls|, After(p, Some(b), calls[0].now, calls[0].cost);
    var first := if decisions[0] then calls[0].cost else 0;
    AvailableOf(p, b, calls[0].now);
    assert next.tokens == Available(p, Some(b), calls[0].now) - first as real;
    RefillAdds(p, calls[0].now - b.lastRefillMs, t - calls[0].now);
    assert Spent(calls, decisions, 0, n) == first + Spent(calls, decisions, 1, n);
    SpentOfTail(calls, decisions, 1, n);
    forall j | 0 <= j < n - 1
      ensures Spent(calls, decisions, j + 1, n) == Spent(calls[1..], decisions[1..], j, n - 1) && calls[1..][j] == calls[j + 1]
    {
      SpentOfTail(calls, decisions, j + 1, n);
    }
  }

  /** What the row a run leaves offers at t: x tokens exactly if the demand fits. */
  lemma {:induction false} OffersIffFits(p: Params, b: Bucket, calls: seq<Call>, t: int, x: real)
    requires p.Valid() && Monotone(calls, b.lastRefillMs)
    requires b.lastRefillMs <= t && forall i :: 0 <= i < |calls| ==> calls[i].now <= t
    ensures Available(p, RowAfter(p, Some(b), calls), t) >= x
      <==> Fits(p, b, calls, Decisions(p, Some(b), calls), |calls|, t, x)
    decreases |calls|
  {
    hide Refill, After, Allowed, Available, Monotone;
    if calls == [] {
      AvailableOf(p, b, t);
    } else {
      hide Fits;
      TailIsMonotone(calls, b.lastRefillMs);
      AfterIsNow(p, Some(b), calls[0].now, calls[0].cost);
      DecisionsHead(p, Some(b), calls);
      FitsTail(p, b, calls, Decisions(p, Some(b), calls), t, x);
      OffersIffFits(p, After(p, Some(b), calls[0].now, calls[0].cost), calls[1..], t, x);
    }
  }

  lemma AfterIsNow(p: Params, row: Option<Bucket>, now: int, cost: int)
    requires p.Valid()
    ensures After(p, row, now, cost).lastRefillMs == now
  {}

  lemma {:induction false} DecisionsOfPrefix(p: Params, row: Option<Bucket>, calls: seq<Call>, i: nat)
    requires p.Valid() && i <= |calls|
    ensures Decisions(p, row, calls)[..i] == Decisions(p, row, calls[..i])
    ensures i < |calls| ==>
      Decisions(p, row, calls)[i] == Allowed(p, RowAfter(p, row, calls[..i]), calls[i].now, calls[i].cost)
    decreases i
  {
    hide Allowed, After;
    if i > 0 {
      var next := Some(After(p, row, calls[0].now, calls[0].cost));
      DecisionsOfPrefix(p, next, calls[1..], i - 1);
      assert calls[..i][1..] == calls[1..][..i - 1];
    }
  }

  lemma {:induction false} SpentOfPrefix(calls: seq<Call>, decisions: seq<bool>, j: nat, i: nat, n: nat)
    requires j <= i <= n <= |calls| == |decisions|
    ensures Spent(calls, decisions, j, i) == Spent(calls[..n], decisions[..n], j, i)
    decreases i - j
  {
    if j < i { SpentOfPrefix(calls, decisions, j + 1, i, n); }
  }

  lemma FitsOfPrefix(p: Params, b: Bucket, calls: seq<Call>, decisions: seq<bool>, i: nat, t: int, x: real)
    requires p.Valid() && i <= |calls| == |decisions|
    ensures Fits(p, b, calls, decisions, i, t, x) <==> Fits(p, b, calls[..i], decisions[..i], i, t, x)
  {
    hide Refill;
    forall j | 0 <= j <= i ensures Spent(calls, decisions, j, i) == Spent(calls[..i], decisions[..i], j, i) {
      SpentOfPrefix(calls, decisions, j, i, i);
    }
  }

  /** A call is admitted exactly if its cost fits. */
  lemma AdmittedIffFits(p: Params, b: Bucket, calls: seq<Call>, i: nat)
    requires p.Valid() && Monotone(calls, b.lastRefillMs) && i < |calls|
    ensures Decisions(p, Some(b), calls)[i]
      <==> Fits(p, b, calls, Decisions(p, Some(b), calls), i, calls[i].now, calls[i].cost as real)
  {
    hide Refill, After, Available, Fits;
    DecisionsOfPrefix(p, Some(b), calls, i);
    FitsOfPrefix(p, b, calls, Decisions(p, Some(b), calls), i, calls[i].now, calls[i].cost as real);
    OffersIffFits(p, b, calls[..i], calls[i].now, calls[i].cost as real);
  }

  lemma {:induction false} AbsentIsFull(p: Params, calls: seq<Call>)
    requires p.Valid() && calls != []
    ensures var full := Some(Bucket(p.capacity as real, calls[0].now));
      Decisions(p, None, calls) == Decisions(p, full, calls) && RowAfter(p, None, calls) == RowAfter(p, full, calls)
  {
    GainIsMonotone(p, 0, 0);
  }

  // ---- what follows ----

  lemma {:induction false} SpentIsNonnegative(calls: seq<Call>, decisions: seq<bool>, j: nat, i: nat)
    requires j <= i <= |calls| == |decisions|
    requires forall k :: 0 <= k < |calls| ==> calls[k].cost >= 0
    ensures Spent(calls, decisions, j, i) >= 0
    decreases i - j
  {
    if j < i { SpentIsNonnegative(calls, decisions, j + 1, i); }
  }

  lemma {:induction false} SpentSplits(calls: seq<Call>, decisions: seq<bool>, j: nat, k: nat, i: nat)
    requires j <= k <= i <= |calls| == |decisions|
    ensures Spent(calls, decisions, j, i) == Spent(calls, decisions, j, k) + Spent(calls, decisions, k, i)
    decreases k - j
  {
    if j < k { SpentSplits(calls, decisions, j + 1, k, i); }
  }

  /** A call whose cost fits within the first tokens minus what was admitted before is admitted. */
  lemma WithinTokensIsAdmitted(p: Params, b: Bucket, calls: seq<Call>, i: nat)
    requires p.Valid() && RowOk(p, Some(b)) && Monotone(calls, b.lastRefillMs) && i < |calls|
    requires forall k :: 0 <= k < |calls| ==> calls[k].cost >= 0
    requires calls[i].cost as real <= b.tokens - Spent(calls, Decisions(p, Some(b), calls), 0, i) as real
    ensures Decisions(p, Some(b), calls)[i]
  {
    hide Refill, After, Allowed, Available, Decisions;
    var d, x := Decisions(p, Some(b), calls), calls[i].cost as real;
    AdmittedIffFits(p, b, calls, i);
    RefillIsNonnegative(p, calls[i].now - b.lastRefillMs);
    forall j | 0 <= j <= i ensures 0 <= Spent(calls, d, j, i) <= Spent(calls, d, 0, i) {
      SpentIsNonnegative(calls, d, 0, j);
      SpentIsNonnegative(calls, d, j, i);
      SpentSplits(calls, d, 0, j, i);
    }
    forall j | 0 <= j < i ensures x + Spent(calls, d, j, i) as real <= p.capacity as real + Refill(p, calls[i].now - calls[j].now) {
      RefillIsNonnegative(p, calls[i].now - calls[j].now);
    }
  }

  /** From a full bucket, stored or absent, every call whose cost fits within the capacity minus what was admitted before is admitted. */
  lemma FullBucketAdmits(p: Params, row: Option<Bucket>, calls: seq<Call>, i: nat)
    requires p.Valid() && i < |calls| && (row.Some? ==> row.value.tokens == p.capacity as real)
    requires Monotone(calls, if row.Some? then row.value.lastRefillMs else calls[0].now)
    requires forall k :: 0 <= k < |calls| ==> calls[k].cost >= 0
    requires calls[i].cost <= p.capacity - Spent(calls, Decisions(p, row, calls), 0, i)
    ensures Decisions(p, row, calls)[i]
  {
    hide Decisions, Gain;
    var full := if row.Some? then row.value else Bucket(p.capacity as real, calls[0].now);
    if row.None? { AbsentIsFull(p, calls); }
    WithinTokensIsAdmitted(p, full, calls, i);
  }

  /** At one instant: a call is admitted exactly if its cost fits within the tokens minus what was admitted before. */
  lemma AdmittedAtOnceIff(p: Params, b: Bucket, calls: seq<Call>, i: nat)
    requires p.Valid() && RowOk(p, Some(b)) && i < |calls|
    requires forall k :: 0 <= k < |calls| ==> calls[k].now == b.lastRefillMs && calls[k].cost >= 0
    ensures Decisions(p, Some(b), calls)[i]
      <==> calls[i].cost as real <= b.tokens - Spent(calls, Decisions(p, Some(b), calls), 0, i) as real
  {
    hide Refill, After, Allowed, Available, Decisions;
    if calls[i].cost as real <= b.tokens - Spent(calls, Decisions(p, Some(b), calls), 0, i) as real {
      WithinTokensIsAdmitted(p, b, calls, i);
    }
    AdmittedIffFits(p, b, calls, i);
    RefillAdds(p, 0, 0);
  }

  /** The cost of all calls. */
  function Total(calls: seq<Call>): int {
    if calls == [] then 0 else calls[0].cost + Total(calls[1..])
  }

  lemma {:induction false} AllSpent(calls: seq<Call>, decisions: seq<bool>, j: nat, i: nat)
    requires j <= i <= |calls| == |decisions| && forall k :: j <= k < i ==> decisions[k]
    ensures Spent(calls, decisions, j, i) == Total(calls[j..i])
    decreases i - j
  {
    if j < i {
      AllSpent(calls, decisions, j + 1, i);
      assert calls[j..i][1..] == calls[j + 1..i];
    }
  }

  lemma {:induction false} TotalOfPrefix(calls: seq<Call>, i: nat)
    requires i < |calls| && forall k :: 0 <= k < |calls| ==> calls[k].cost >= 0
    ensures 0 <= Total(calls[..i]) && Total(calls[..i]) + calls[i].cost <= Total(calls)
    decreases i
  {
    if i == 0 {
      TotalIsNonnegative(calls[1..]);
    } else {
      TotalOfPrefix(calls[1..], i - 1);
      assert calls[..i][1..] == calls[1..][..i - 1];
    }
  }

  lemma {:induction false} TotalIsNonnegative(calls: seq<Call>)
    requires forall k :: 0 <= k < |calls| ==> calls[k].cost >= 0
    ensures Total(calls) >= 0
  {
    if calls != [] { TotalIsNonnegative(calls[1..]); }
  }

  predicate AllTrue(s: seq<bool>) { forall i :: 0 <= i < |s| ==> s[i] }

  /** Calls at one instant are all admitted exactly if their total cost is at most the tokens. */
  lemma BurstIsAdmittedIff(p: Params, b: Bucket, calls: seq<Call>)
    requires p.Valid() && RowOk(p, Some(b))
    requires forall k :: 0 <= k < |calls| ==> calls[k].now == b.lastRefillMs && calls[k].cost >= 0
    ensures AllTrue(Decisions(p, Some(b), calls)) <==> Total(calls) as real <= b.tokens
  {
    hide Decisions, RowAfter, Total;
    var d, n := Decisions(p, Some(b), calls), |calls|;
    if AllTrue(d) {
      AllSpent(calls, d, 0, n);
      assert calls[0..n] == calls;
      SpentIsWithin(p, b, calls, n);
      assert Total(calls) as real <= b.tokens;
    }
    if Total(calls) as real <= b.tokens { BurstIsAdmitted(p, b, calls, n); }
  }

  lemma SpentIsWithin(p: Params, b: Bucket, calls: seq<Call>, n: nat)
    requires p.Valid() && RowOk(p, Some(b)) && n <= |calls|
    requires forall k :: 0 <= k < |calls| ==> calls[k].now == b.lastRefillMs && calls[k].cost >= 0
    ensures Spent(calls, Decisions(p, Some(b), calls), 0, n) as real <= b.tokens
    decreases n
  {
    hide Decisions;
    if n > 0 {
      var d := Decisions(p, Some(b), calls);
      SpentIsWithin(p, b, calls, n - 1);
      AdmittedAtOnceIff(p, b, calls, n - 1);
      SpentSplits(calls, d, 0, n - 1, n);
      assert Spent(calls, d, n - 1, n) == if d[n - 1] then calls[n - 1].cost else 0;
    }
  }

  lemma BurstIsAdmitted(p: Params, b: Bucket, calls: seq<Call>, n: nat)
    requires p.Valid() && RowOk(p, Some(b)) && n <= |calls| && Total(calls) as real <= b.tokens
    requires forall k :: 0 <= k < |calls| ==> calls[k].now == b.lastRefillMs && calls[k].cost >= 0
    ensures forall i :: 0 <= i < n ==> Decisions(p, Some(b), calls)[i]
    decreases n
  {
    hide Decisions, Total;
    if n > 0 {
      BurstIsAdmitted(p, b, calls, n - 1);
      AdmittedAtOnceIff(p, b, calls, n - 1);
      AllSpent(calls, Decisions(p, Some(b), calls), 0, n - 1);
      assert calls[0..n - 1] == calls[..n - 1];
      TotalOfPrefix(calls, n - 1);
    }
  }

  /** The tokens there would be after i calls at t without the cap: the first ones and their refill less what was admitted. */
  function Uncapped(p: Params, b: Bucket, calls: seq<Call>, decisions: seq<bool>, i: nat, t: int): real
    requires p.Valid() && i <= |calls| == |decisions|
  {
    b.tokens + Refill(p, t - b.lastRefillMs) - Spent(calls, decisions, 0, i) as real
  }

  lemma {:induction false} RowAfterNext(p: Params, row: Option<Bucket>, calls: seq<Call>, i: nat)
    requires p.Valid() && i < |calls|
    ensures RowAfter(p, row, calls[..i + 1]) == Some(After(p, RowAfter(p, row, calls[..i]), calls[i].now, calls[i].cost))
    decreases i
  {
    hide After;
    if i > 0 {
      RowAfterNext(p, Some(After(p, row, calls[0].now, calls[0].cost)), calls[1..], i - 1);
      assert calls[..i][1..] == calls[1..][..i - 1] && calls[..i + 1][1..] == calls[1..][..i];
    } else {
      assert calls[..1] == [calls[0]];
    }
  }

  lemma SpentNext(calls: seq<Call>, decisions: seq<bool>, i: nat)
    requires i < |calls| == |decisions|
    ensures Spent(calls, decisions, 0, i + 1) == Spent(calls, decisions, 0, i) + if decisions[i] then calls[i].cost else 0
  {
    SpentSplits(calls, decisions, 0, i, i + 1);
  }

  /** The row before call i, when the balance before it is below the cap. */
  lemma CallSettles(p: Params, b: Bucket, last: Bucket, calls: seq<Call>, decisions: seq<bool>, i: nat)
    requires p.Valid() && i < |calls| == |decisions|
    requires b.lastRefillMs <= last.lastRefillMs <= calls[i].now
    requires last.tokens == Uncapped(p, b, calls, decisions, i, last.lastRefillMs)
    requires Uncapped(p, b, calls, decisions, i, calls[i].now) <= p.capacity as real
    requires decisions[i] <==> Allowed(p, Some(last), calls[i].now, calls[i].cost)
    ensures decisions[i] <==> calls[i].cost as real <= Uncapped(p, b, calls, decisions, i, calls[i].now)
    ensures After(p, Some(last), calls[i].now, calls[i].cost)
      == Bucket(Uncapped(p, b, calls, decisions, i + 1, calls[i].now), calls[i].now)
  {
    hide Refill;
    RefillAdds(p, last.lastRefillMs - b.lastRefillMs, calls[i].now - last.lastRefillMs);
    AvailableOf(p, last, calls[i].now);
    SpentNext(calls, decisions, i);
  }

  lemma {:induction false} SettledUpTo(p: Params, b: Bucket, calls: seq<Call>, i: nat)
    requires p.Valid() && i <= |calls| && Monotone(calls, b.lastRefillMs)
    requires var d := Decisions(p, Some(b), calls);
      forall k :: 0 <= k < |calls| ==> Uncapped(p, b, calls, d, k, calls[k].now) <= p.capacity as real
    ensures var d, last := Decisions(p, Some(b), calls), if i == 0 then b.lastRefillMs else calls[i - 1].now;
      && (forall k :: 0 <= k < i ==> (d[k] <==> calls[k].cost as real <= Uncapped(p, b, calls, d, k, calls[k].now)))
      && RowAfter(p, Some(b), calls[..i]) == Some(Bucket(Uncapped(p, b, calls, d, i, last), last))
    decreases i
  {
    hide Refill, After, Allowed, Available, Spent;
    var d := Decisions(p, Some(b), calls);
    if i == 0 {
      NothingSpent(p, b, calls, d);
    } else {
      SettledUpTo(p, b, calls, i - 1);
      DecisionsOfPrefix(p, Some(b), calls, i - 1);
      RowAfterNext(p, Some(b), calls, i - 1);
      CallSettles(p, b, RowAfter(p, Some(b), calls[..i - 1]).value, calls, d, i - 1);
    }
  }

  lemma NothingSpent(p: Params, b: Bucket, calls: seq<Call>, decisions: seq<bool>)
    requires p.Valid() && |calls| == |decisions|
    ensures Uncapped(p, b, calls, decisions, 0, b.lastRefillMs) == b.tokens
  {
    RefillAdds(p, 0, 0);
  }

  /** Over a run whose refill never exceeds the cap tokens are conserved: the uncapped balance alone decides and is what is left. */
  lemma TokensAreConserved(p: Params, b: Bucket, calls: seq<Call>)
    requires p.Valid() && calls != [] && Monotone(calls, b.lastRefillMs)
    requires var d := Decisions(p, Some(b), calls);
      forall i :: 0 <= i < |calls| ==> Uncapped(p, b, calls, d, i, calls[i].now) <= p.capacity as real
    ensures var d, n := Decisions(p, Some(b), calls), |calls|;
      && (forall i :: 0 <= i < n ==> (d[i] <==> calls[i].cost as real <= Uncapped(p, b, calls, d, i, calls[i].now)))
      && RowAfter(p, Some(b), calls) == Some(Bucket(Uncapped(p, b, calls, d, n, calls[n - 1].now), calls[n - 1].now))
  {
    hide Refill, Uncapped, RowAfter, Decisions;
    SettledUpTo(p, b, calls, |calls|);
    assert calls[..|calls|] == calls;
  }
}
