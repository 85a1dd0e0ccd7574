/**
  What the fixed-window and sliding-window limiters guarantee over whole runs: hits of any keys and
  cleanups interleaved at non-decreasing times, starting from an empty table.
*/
module WindowBounds {
  import opened Arithmetic
  import opened WindowCounters

  datatype Event =
    | Hit(key: string, now: int, cost: int)
    | Cleanup(now: int, picked: set<RowId>)

  /** A run, newest event last. */
  datatype Run = Empty | Then(before: Run, event: Event)

  function Table(l: Limiter, run: Run): seq<Row>
    requires l.Valid()
  {
    match run
    case Empty => []
    case Then(before, Hit(key, now, cost)) => HitRows(l, Table(l, before), key, cost, now)
    case Then(before, Cleanup(now, picked)) => Delete(Table(l, before), picked, now)
  }

  /** Times never decrease and costs are not negative. */
  predicate Ordered(run: Run) {
    match run
    case Empty => true
    case Then(before, event) =>
      && Ordered(before)
      && (before.Then? ==> before.event.now <= event.now)
      && (event.Hit? ==> event.cost >= 0)
  }

  /** The count the last hit of the run reports. */
  function Reported(l: Limiter, run: Run): int
    requires l.Valid() && run.Then? && run.event.Hit?
  {
    HitCount(l, Table(l, run), run.event.key, run.event.now)
  }

  predicate Admitted(l: Limiter, run: Run)
    requires l.Valid() && run.Then? && run.event.Hit?
  {
    HitReply(l, Reported(l, run), run.event.now).allowed
  }

  /** Total cost of the hits of `key` with from <= time <= to. */
  function CostBetween(run: Run, key: string, from: int, to: int): int {
    match run
    case Empty => 0
    case Then(before, e) =>
      CostBetween(before, key, from, to) + (if e.Hit? && e.key == key && from <= e.now <= to then e.cost else 0)
  }

  /** Total cost of the admitted hits of `key` with from <= time <= to. */
  function AdmittedBetween(l: Limiter, run: Run, key: string, from: int, to: int): int
    requires l.Valid()
  {
    match run
    case Empty => 0
    case Then(before, e) =>
      AdmittedBetween(l, before, key, from, to)
      + (if e.Hit? && e.key == key && from <= e.now <= to && Admitted(l, run) then e.cost else 0)
  }

  /** Total cost of the hits of `key` whose row starts in [lo, hi). */
  function CostOfRows(l: Limiter, run: Run, key: string, lo: int, hi: int): int
    requires l.Valid()
  {
    match run
    case Empty => 0
    case Then(before, e) =>
      CostOfRows(l, before, key, lo, hi)
      + (if e.Hit? && e.key == key && lo <= Floor(e.now, l.Grain()) < hi then e.cost else 0)
  }

  // ---- the table is a ledger of the hits that still matter ----

  predicate RowsOk(l: Limiter, rows: seq<Row>)
    requires l.Valid()
  {
    forall r :: r in rows ==> r.expiresAt >= r.start + l.windowMs
  }

  predicate DistinctIds(rows: seq<Row>) {
    forall i, j :: 0 <= i < j < |rows| ==> Id(rows[i]) != Id(rows[j])
  }

  lemma {:induction false} UpsertRows(rows: seq<Row>, key: string, start: int, cost: int, expiresAt: int, lo: int, hi: int, k: string)
    ensures SumRange(Upsert(rows, key, start, cost, expiresAt), k, lo, hi)
      == SumRange(rows, k, lo, hi) + (if k == key && lo <= start < hi then cost else 0)
  {
    if rows != [] && Id(rows[0]) != (key, start) {
      UpsertRows(rows[1..], key, start, cost, expiresAt, lo, hi, k);
    }
  }

  lemma {:induction false} UpsertMember(rows: seq<Row>, key: string, start: int, cost: int, expiresAt: int, r: Row)
    requires r in Upsert(rows, key, start, cost, expiresAt)
    ensures r in rows || (Id(r) == (key, start) && r.expiresAt >= expiresAt)
  {
    if rows != [] && Id(rows[0]) != (key, start) && r != rows[0] {
      UpsertMember(rows[1..], key, start, cost, expiresAt, r);
    }
  }

  lemma {:induction false} DeleteMember(rows: seq<Row>, picked: set<RowId>, now: int, r: Row)
    requires r in Delete(rows, picked, now)
    ensures r in rows
  {
    if rows != [] && r != rows[0] { DeleteMember(rows[1..], picked, now, r); }
  }

  lemma DistinctTail(rows: seq<Row>)
    requires DistinctIds(rows) && rows != []
    ensures DistinctIds(rows[1..]) && forall r :: r in rows[1..] ==> Id(r) != Id(rows[0])
  {
    forall r | r in rows[1..] ensures Id(r) != Id(rows[0]) {
      var j :| 0 <= j < |rows[1..]| && rows[1..][j] == r;
      assert rows[j + 1] == r;
    }
  }

  lemma DistinctFront(r: Row, rows: seq<Row>)
    requires DistinctIds(rows) && forall x :: x in rows ==> Id(x) != Id(r)
    ensures DistinctIds([r] + rows)
  {}

  lemma NoRowsDistinct()
    ensures DistinctIds([])
  {}

  lemma {:induction false} UpsertKeepsDistinct(rows: seq<Row>, key: string, start: int, cost: int, expiresAt: int)
    requires DistinctIds(rows)
    ensures DistinctIds(Upsert(rows, key, start, cost, expiresAt))
  {
    hide DistinctIds;
    NoRowsDistinct();
    if rows == [] {
      var row := Row(key, start, cost, expiresAt);
      DistinctFront(row, []);
      assert Upsert(rows, key, start, cost, expiresAt) == [row] && [row] + [] == [row];
    } else {
      DistinctTail(rows);
      var after := Upsert(rows, key, start, cost, expiresAt);
      var rest := if Id(rows[0]) == (key, start) then rows[1..] else Upsert(rows[1..], key, start, cost, expiresAt);
      assert after == [after[0]] + rest && Id(after[0]) == Id(rows[0]);
      if Id(rows[0]) != (key, start) {
        UpsertKeepsDistinct(rows[1..], key, start, cost, expiresAt);
        forall x | x in rest ensures Id(x) != Id(rows[0]) { UpsertMember(rows[1..], key, start, cost, expiresAt, x); }
      }
      DistinctFront(after[0], rest);
    }
  }

  lemma {:induction false} DeleteKeepsDistinct(rows: seq<Row>, picked: set<RowId>, now: int)
    requires DistinctIds(rows)
    ensures DistinctIds(Delete(rows, picked, now))
  {
    hide DistinctIds;
    if rows == [] {
      NoRowsDistinct();
    } else {
      DistinctTail(rows);
      var rest := Delete(rows[1..], picked, now);
      DeleteKeepsDistinct(rows[1..], picked, now);
      forall x | x in rest ensures Id(x) != Id(rows[0]) { DeleteMember(rows[1..], picked, now, x); }
      DistinctFront(rows[0], rest);
      assert Delete(rows, picked, now) == [rows[0]] + rest || Delete(rows, picked, now) == rest;
    }
  }

  /** A deleted row starts no later than now - windowMs, so sums over later rows do not see the deletion. */
  lemma {:induction false} DeleteRows(l: Limiter, rows: seq<Row>, picked: set<RowId>, now: int, key: string, lo: int, hi: int)
    requires l.Valid() && RowsOk(l, rows) && lo > now - l.windowMs
    ensures SumRange(Delete(rows, picked, now), key, lo, hi) == SumRange(rows, key, lo, hi)
  {
    if rows != [] {
      var tail := Delete(rows[1..], picked, now);
      DeleteRows(l, rows[1..], picked, now, key, lo, hi);
      if Delete(rows, picked, now) != tail {
        assert ([rows[0]] + tail)[1..] == tail;
      }
    }
  }

  lemma {:induction false} TableIsOk(l: Limiter, run: Run)
    requires l.Valid() && Ordered(run)
    ensures RowsOk(l, Table(l, run)) && DistinctIds(Table(l, run))
  {
    hide DistinctIds, Upsert, Delete;
    match run
    case Empty => NoRowsDistinct();
    case Then(before, Hit(key, now, cost)) =>
      TableIsOk(l, before);
      var rows, start := Table(l, before), Floor(now, l.Grain());
      UpsertKeepsDistinct(rows, key, start, cost, now + l.windowMs);
      forall r | r in Table(l, run) ensures r.expiresAt >= r.start + l.windowMs {
        UpsertMember(rows, key, start, cost, now + l.windowMs, r);
      }
    case Then(before, Cleanup(now, picked)) =>
      TableIsOk(l, before);
      DeleteKeepsDistinct(Table(l, before), picked, now);
      forall r | r in Table(l, run) ensures r.expiresAt >= r.start + l.windowMs {
        DeleteMember(Table(l, before), picked, now, r);
      }
  }

  /** Rows that start after now - windowMs hold the cost of every hit ever made in them, cleanups or not. */
  lemma {:induction false} Ledger(l: Limiter, run: Run, key: string, lo: int, hi: int)
    requires l.Valid() && Ordered(run)
    requires run.Then? ==> lo > run.event.now - l.windowMs
    ensures SumRange(Table(l, run), key, lo, hi) == CostOfRows(l, run, key, lo, hi)
  {
    match run
    case Empty =>
    case Then(before, Hit(k, now, cost)) =>
      Ledger(l, before, key, lo, hi);
      UpsertRows(Table(l, before), k, Floor(now, l.Grain()), cost, now + l.windowMs, lo, hi, key);
    case Then(before, Cleanup(now, picked)) =>
      Ledger(l, before, key, lo, hi);
      TableIsOk(l, before);
      DeleteRows(l, Table(l, before), picked, now, key, lo, hi);
  }

  lemma {:induction false} CountOfIsSum(rows: seq<Row>, key: string, start: int)
    requires DistinctIds(rows)
    ensures CountOf(rows, key, start) == SumRange(rows, key, start, start + 1)
  {
    if rows != [] {
      if Id(rows[0]) == (key, start) {
        NoRowNoSum(rows[1..], key, start);
      } else {
        CountOfIsSum(rows[1..], key, start);
      }
    }
  }

  lemma {:induction false} NoRowNoSum(rows: seq<Row>, key: string, start: int)
    requires forall i :: 0 <= i < |rows| ==> Id(rows[i]) != (key, start)
    ensures SumRange(rows, key, start, start + 1) == 0
  {
    if rows != [] { NoRowNoSum(rows[1..], key, start); }
  }

  lemma {:induction false} SumAfterIsSum(rows: seq<Row>, key: string, cutoff: int, hi: int)
    requires forall i :: 0 <= i < |rows| ==> rows[i].start < hi
    ensures SumAfter(rows, key, cutoff) == SumRange(rows, key, cutoff + 1, hi)
  {
    if rows != [] { SumAfterIsSum(rows[1..], key, cutoff, hi); }
  }

  lemma {:induction false} RowsStartInThePast(l: Limiter, run: Run, now: int, r: Row)
    requires l.Valid() && Ordered(run) && (run.Then? ==> run.event.now <= now) && r in Table(l, run)
    ensures r.start <= now
  {
    hide Upsert, Delete;
    match run
    case Empty =>
    case Then(before, Hit(key, t, cost)) =>
      UpsertMember(Table(l, before), key, Floor(t, l.Grain()), cost, t + l.windowMs, r);
      if r in Table(l, before) { RowsStartInThePast(l, before, now, r); }
    case Then(before, Cleanup(t, picked)) =>
      DeleteMember(Table(l, before), picked, t, r);
      RowsStartInThePast(l, before, now, r);
  }

  /**
    What a hit reports: for the fixed window the cost of every hit so far in the current window, for the
    sliding window the cost of every hit so far whose bucket starts after now - windowMs.
  */
  lemma ReportedIsCost(l: Limiter, run: Run)
    requires l.Valid() && Ordered(run) && run.Then? && run.event.Hit?
    ensures var now, key := run.event.now, run.event.key;
      Reported(l, run) ==
        if l.Fixed? then CostOfRows(l, run, key, Floor(now, l.windowMs), Floor(now, l.windowMs) + 1)
        else CostOfRows(l, run, key, now - l.windowMs + 1, now + 1)
  {
    var now, key := run.event.now, run.event.key;
    TableIsOk(l, run);
    if l.Fixed? {
      var start := Floor(now, l.windowMs);
      CountOfIsSum(Table(l, run), key, start);
      Ledger(l, run, key, start, start + 1);
    } else {
      forall i | 0 <= i < |Table(l, run)| ensures Table(l, run)[i].start < now + 1 { RowsStartInThePast(l, run, now, Table(l, run)[i]); }
      SumAfterIsSum(Table(l, run), key, now - l.windowMs, now + 1);
      Ledger(l, run, key, now - l.windowMs + 1, now + 1);
    }
  }

  // ---- cleanup is unobservable ----

  function WithoutCleanups(run: Run): Run {
    match run
    case Empty => Empty
    case Then(before, e) => if e.Hit? then Then(WithoutCleanups(before), e) else WithoutCleanups(before)
  }

  lemma {:induction false} WithoutCleanupsCosts(l: Limiter, run: Run, key: string, lo: int, hi: int)
    requires l.Valid() && Ordered(run)
    ensures CostOfRows(l, WithoutCleanups(run), key, lo, hi) == CostOfRows(l, run, key, lo, hi)
    ensures Ordered(WithoutCleanups(run))
    ensures WithoutCleanups(run).Then? ==> run.Then? && WithoutCleanups(run).event.now <= run.event.now
  {
    match run
    case Empty =>
    case Then(before, e) => WithoutCleanupsCosts(l, before, key, lo, hi);
  }

  /** Removing every cleanup from a run changes no reported count and no decision. */
  lemma CleanupNeverChangesADecision(l: Limiter, run: Run)
    requires l.Valid() && Ordered(run) && run.Then? && run.event.Hit?
    ensures Reported(l, WithoutCleanups(run)) == Reported(l, run)
    ensures Admitted(l, WithoutCleanups(run)) == Admitted(l, run)
  {
    hide Table, CostOfRows, HitCount, HitReply, Floor, Ordered;
    var now, key := run.event.now, run.event.key;
    var start := Floor(now, l.windowMs);
    WithoutCleanupsCosts(l, run, key, start, start + 1);
    WithoutCleanupsCosts(l, run, key, now - l.windowMs + 1, now + 1);
    ReportedIsCost(l, run);
    ReportedIsCost(l, WithoutCleanups(run));
  }

  /** Cleanup never deletes a row whose window is still open. */
  lemma {:induction false} CleanupSparesOpenWindows(l: Limiter, run: Run, picked: set<RowId>, now: int, i: nat)
    requires l.Valid() && Ordered(run) && i < |Table(l, run)| && now < Table(l, run)[i].start + l.windowMs
    ensures Table(l, run)[i] in Delete(Table(l, run), picked, now)
  {
    TableIsOk(l, run);
    DeleteSpares(Table(l, run), picked, now, i);
  }

  lemma {:induction false} DeleteSpares(rows: seq<Row>, picked: set<RowId>, now: int, i: nat)
    requires i < |rows| && now < rows[i].expiresAt
    ensures rows[i] in Delete(rows, picked, now)
  {
    if i > 0 { DeleteSpares(rows[1..], picked, now, i - 1); }
  }

  // ---- bounds ----

  lemma {:induction false} AdmittedIsPartOfCost(l: Limiter, run: Run, key: string, from: int, to: int)
    requires l.Valid() && Ordered(run)
    ensures 0 <= AdmittedBetween(l, run, key, from, to) <= CostBetween(run, key, from, to)
  {
    match run
    case Empty =>
    case Then(before, _) => AdmittedIsPartOfCost(l, before, key, from, to);
  }

  /** Hits in [from, to] lie in rows of [lo, hi) when every time in [from, to] floors into it. */
  lemma {:induction false} CostIsInRows(l: Limiter, run: Run, last: int, key: string, from: int, to: int, lo: int, hi: int)
    requires l.Valid() && Ordered(run) && (run.Then? ==> run.event.now <= last)
    requires forall t :: from <= t <= to && t <= last ==> lo <= Floor(t, l.Grain()) < hi
    ensures CostBetween(run, key, from, to) <= CostOfRows(l, run, key, lo, hi)
  {
    match run
    case Empty =>
    case Then(before, _) => CostIsInRows(l, before, last, key, from, to, lo, hi);
  }

  lemma {:induction false} RowsAreInCost(l: Limiter, run: Run, last: int, key: string, from: int, to: int, lo: int, hi: int)
    requires l.Valid() && Ordered(run) && (run.Then? ==> run.event.now <= last)
    requires forall t :: lo <= Floor(t, l.Grain()) < hi && t <= last ==> from <= t <= to
    ensures CostOfRows(l, run, key, lo, hi) <= CostBetween(run, key, from, to)
  {
    match run
    case Empty =>
    case Then(before, _) => RowsAreInCost(l, before, last, key, from, to, lo, hi);
  }

  /**
    Sliding window: the reported count lies between the cost of the hits in [now - windowMs + precisionMs, now]
    and the cost of those in (now - windowMs, now], the current hit included.
  */
  lemma SlidingSandwich(l: Limiter, run: Run)
    requires l.Valid() && l.Sliding? && Ordered(run) && run.Then? && run.event.Hit?
    ensures var now, key := run.event.now, run.event.key;
      CostBetween(run, key, now - l.windowMs + l.precisionMs, now) <= Reported(l, run)
        <= CostBetween(run, key, now - l.windowMs + 1, now)
  {
    var now, key := run.event.now, run.event.key;
    var lo := now - l.windowMs;
    ReportedIsCost(l, run);
    forall t | lo + l.precisionMs <= t <= now ensures lo + 1 <= Floor(t, l.Grain()) < now + 1 {}
    CostIsInRows(l, run, run.event.now, key, lo + l.precisionMs, now, lo + 1, now + 1);
    forall t | lo + 1 <= Floor(t, l.Grain()) < now + 1 && t <= now ensures lo + 1 <= t <= now {}
    RowsAreInCost(l, run, run.event.now, key, lo + 1, now, lo + 1, now + 1);
  }

  /** Sliding window: in any closed interval of length windowMs - precisionMs the admitted cost is at most the limit. */
  lemma {:induction false} SlidingBound(l: Limiter, run: Run, key: string, from: int)
    requires l.Valid() && l.Sliding? && Ordered(run)
    ensures AdmittedBetween(l, run, key, from, from + l.windowMs - l.precisionMs) <= l.limit
  {
    var to := from + l.windowMs - l.precisionMs;
    match run
    case Empty =>
    case Then(before, e) =>
      if e.Hit? && e.key == key && from <= e.now <= to && Admitted(l, run) {
        AdmittedIsPartOfCost(l, run, key, from, to);
        CostIsMonotone(run, key, from, to, e.now - l.windowMs + l.precisionMs, e.now);
        SlidingSandwich(l, run);
      } else {
        SlidingBound(l, before, key, from);
      }
  }

  /** Costs of a wider interval; hits after the run's last time do not exist. */
  lemma {:induction false} CostIsMonotone(run: Run, key: string, from: int, to: int, from': int, to': int)
    requires Ordered(run) && from' <= from
    requires run.Then? ==> to <= to' || run.event.now <= to'
    ensures CostBetween(run, key, from, to) <= CostBetween(run, key, from', to')
  {
    match run
    case Empty =>
    case Then(before, _) => CostIsMonotone(before, key, from, to, from', to');
  }

  lemma FloorInWindow(t: int, grain: int, start: int)
    requires grain >= 1 && start % grain == 0
    ensures start <= t < start + grain <==> Floor(t, grain) == start
  {
    var q := start / grain;
    if start <= t < start + grain {
      DivisionIsUnique(t, grain, q);
    }
  }

  /** Fixed window: the cost admitted in one window is at most the limit. */
  lemma {:induction false} FixedWindowBound(l: Limiter, run: Run, key: string, start: int)
    requires l.Valid() && l.Fixed? && Ordered(run) && start % l.windowMs == 0
    ensures AdmittedBetween(l, run, key, start, start + l.windowMs - 1) <= l.limit
  {
    var to := start + l.windowMs - 1;
    match run
    case Empty =>
    case Then(before, e) =>
      if e.Hit? && e.key == key && start <= e.now <= to && Admitted(l, run) {
        AdmittedIsPartOfCost(l, run, key, start, to);
        FloorInWindow(e.now, l.windowMs, start);
        forall t | start <= t <= to ensures start <= Floor(t, l.Grain()) < start + 1 {
          FloorInWindow(t, l.windowMs, start);
        }
        CostIsInRows(l, run, run.event.now, key, start, to, start, start + 1);
        ReportedIsCost(l, run);
      } else {
        FixedWindowBound(l, before, key, start);
      }
  }

  lemma {:induction false} AdmittedSplits(l: Limiter, run: Run, key: string, from: int, to: int, a: int, b: int, c: int)
    requires l.Valid() && Ordered(run) && a <= from && to <= c
    ensures AdmittedBetween(l, run, key, from, to)
      <= AdmittedBetween(l, run, key, a, b) + AdmittedBetween(l, run, key, b + 1, c)
  {
    match run
    case Empty =>
    case Then(before, _) => AdmittedSplits(l, before, key, from, to, a, b, c);
  }

  /** Fixed window: any half-open interval of length windowMs admits at most twice the limit. */
  lemma FixedIntervalBound(l: Limiter, run: Run, key: string, from: int)
    requires l.Valid() && l.Fixed? && Ordered(run)
    ensures AdmittedBetween(l, run, key, from, from + l.windowMs - 1) <= 2 * l.limit
  {
    var start := Floor(from, l.windowMs);
    MultipleHasNoRemainder(from / l.windowMs, l.windowMs);
    MultipleHasNoRemainder(from / l.windowMs + 1, l.windowMs);
    FixedWindowBound(l, run, key, start);
    FixedWindowBound(l, run, key, start + l.windowMs);
    AdmittedSplits(l, run, key, from, from + l.windowMs - 1, start, start + l.windowMs - 1, start + 2 * l.windowMs - 1);
  }

  lemma MultipleHasNoRemainder(q: int, d: int)
    requires d >= 1
    ensures q * d % d == 0 && (q + 1) * d == q * d + d
  {
    DivisionIsUnique(q * d, d, q);
  }

  /** `run` is `base` followed by cleanups and hits of other keys only. */
  predicate QuietSince(run: Run, base: Run, key: string) {
    run == base || (run.Then? && !(run.event.Hit? && run.event.key == key) && QuietSince(run.before, base, key))
  }

  lemma {:induction false} QuietCostsNothing(l: Limiter, run: Run, base: Run, key: string, lo: int, hi: int)
    requires l.Valid() && QuietSince(run, base, key)
    ensures CostOfRows(l, run, key, lo, hi) == CostOfRows(l, base, key, lo, hi)
  {
    if run != base { QuietCostsNothing(l, run.before, base, key, lo, hi); }
  }

  lemma {:induction false} QuietIsLater(run: Run, base: Run, key: string)
    requires QuietSince(run, base, key) && Ordered(run) && base.Then?
    ensures Ordered(base) && run.Then? && base.event.now <= run.event.now
  {
    if run != base { QuietIsLater(run.before, base, key); }
  }

  /**
    Fixed window: after a denial, a hit of cost <= limit with no other hit of the key in between is admitted
    exactly from now + retryAfterMs on.
  */
  lemma FixedRetryIsExact(l: Limiter, denied: Run, between: Run, later: int, cost: int)
    requires l.Valid() && l.Fixed? && denied.Then? && denied.event.Hit? && QuietSince(between, denied, denied.event.key)
    requires Ordered(Then(between, Hit(denied.event.key, later, cost))) && cost <= l.limit
    requires !Admitted(l, denied)
    ensures var retryAfterMs := HitReply(l, Reported(l, denied), denied.event.now).retryAfterMs;
      Admitted(l, Then(between, Hit(denied.event.key, later, cost))) <==> later >= denied.event.now + retryAfterMs
  {
    var now, key := denied.event.now, denied.event.key;
    var again := Then(between, Hit(key, later, cost));
    var start, next := Floor(now, l.windowMs), Floor(later, l.windowMs);
    QuietIsLater(between, denied, key);
    QuietCostsNothing(l, between, denied, key, start, start + 1);
    QuietCostsNothing(l, between, denied, key, next, next + 1);
    ReportedIsCost(l, denied);
    ReportedIsCost(l, again);
    LaterWindow(now, later, l.windowMs);
    if later >= start + l.windowMs { NoCostInTheFuture(l, denied, key, next); }
  }

  /**
    Sliding window: a later hit with no other hit of the key in between is admitted exactly if the cost of the buckets
    that still start inside its window, and its own if its bucket does, is at most the limit.
  */
  lemma SlidingRetryIff(l: Limiter, denied: Run, between: Run, later: int, cost: int)
    requires l.Valid() && l.Sliding? && denied.Then? && denied.event.Hit? && QuietSince(between, denied, denied.event.key)
    requires Ordered(Then(between, Hit(denied.event.key, later, cost)))
    ensures var key := denied.event.key;
      var counted := CostOfRows(l, denied, key, later - l.windowMs + 1, later + 1);
      var own := if Floor(later, l.precisionMs) > later - l.windowMs then cost else 0;
      Admitted(l, Then(between, Hit(key, later, cost))) <==> counted + own <= l.limit
  {
    var key := denied.event.key;
    QuietCostsNothing(l, between, denied, key, later - l.windowMs + 1, later + 1);
    ReportedIsCost(l, Then(between, Hit(key, later, cost)));
  }

  /** So its retryAfterMs, the precision, can be too short: the hit it announces is denied again. */
  lemma SlidingRetryIsTooShort()
    ensures var l := Sliding(1, 10000, 1000);
      var denied := Then(Then(Empty, Hit("k", 0, 1)), Hit("k", 0, 1));
      && !Admitted(l, denied) && HitReply(l, Reported(l, denied), 0).retryAfterMs == 1000
      && !Admitted(l, Then(denied, Hit("k", 1000, 1)))
  {
    var l := Sliding(1, 10000, 1000);
    var first := Then(Empty, Hit("k", 0, 1));
    var denied := Then(first, Hit("k", 0, 1));
    assert Floor(0, 1000) == 0 && Floor(1000, 1000) == 1000;
    assert CostOfRows(l, Empty, "k", -9999, 1) == 0 && CostOfRows(l, Empty, "k", -8999, 1001) == 0;
    assert CostOfRows(l, first, "k", -9999, 1) == 1 && CostOfRows(l, first, "k", -8999, 1001) == 1;
    ReportedIsCost(l, denied);
    SlidingRetryIff(l, denied, denied, 1000, 1);
  }

  lemma LaterWindow(now: int, later: int, grain: int)
    requires grain >= 1 && now <= later
    ensures later < Floor(now, grain) + grain ==> Floor(later, grain) == Floor(now, grain)
    ensures later >= Floor(now, grain) + grain ==> Floor(later, grain) > now
  {
    var start := Floor(now, grain);
    MultipleHasNoRemainder(now / grain, grain);
    FloorInWindow(later, grain, start);
    if later >= start + grain {
      NextWindow(now / grain, later / grain, later, grain);
    }
  }

  lemma NextWindow(q: int, p: int, t: int, d: int)
    requires d >= 1 && p * d <= t < p * d + d && t >= q * d + d
    ensures p * d >= q * d + d
  {
    if p <= q { Stretch(p, q, d); } else { Stretch(q + 1, p, d); }
  }

  lemma {:induction false} NoCostInTheFuture(l: Limiter, run: Run, key: string, start: int)
    requires l.Valid() && Ordered(run) && (run.Then? ==> run.event.now < start)
    ensures CostOfRows(l, run, key, start, start + 1) == 0
  {
    match run
    case Empty =>
    case Then(before, _) => NoCostInTheFuture(l, before, key, start);
  }
}
