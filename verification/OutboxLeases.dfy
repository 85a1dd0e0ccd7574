/**
  What the outbox guarantees over every interleaving of appends, concurrent claims, acknowledgements and trims.
*/
module OutboxLeases {
  import opened Arithmetic
  import opened Wrappers
  import opened Ordering
  import opened Outbox

  // ---- reading the log ----

  function Count(log: Log, id: int): nat {
    match log
    case Nothing => 0
    case Then(before, d) => Count(before, id) + if d.id == id then 1 else 0
  }

  /** Every lease of `id` in the log ends by `bound`. */
  predicate EndsBy(log: Log, id: int, bound: int) {
    match log
    case Nothing => true
    case Then(before, d) => EndsBy(before, id, bound) && (d.id == id ==> d.until <= bound)
  }

  /** Every delivery comes after all the earlier leases of its message have ended. */
  predicate Separated(log: Log) {
    match log
    case Nothing => true
    case Then(before, d) => Separated(before) && EndsBy(before, d.id, d.at)
  }

  predicate LeasesLast(log: Log, v: int) {
    match log
    case Nothing => true
    case Then(before, d) => LeasesLast(before, v) && d.until - d.at >= v
  }

  /** Deliveries of `id` picked at or after `from` and at or before `to`. */
  function CountBetween(log: Log, id: int, from: int, to: int): nat {
    match log
    case Nothing => 0
    case Then(before, d) => CountBetween(before, id, from, to) + if d.id == id && from <= d.at <= to then 1 else 0
  }

  lemma {:induction false} EndsByIsMonotone(log: Log, id: int, a: int, b: int)
    requires EndsBy(log, id, a) && a <= b
    ensures EndsBy(log, id, b)
  {
    match log
    case Nothing =>
    case Then(before, _) => EndsByIsMonotone(before, id, a, b);
  }

  lemma {:induction false} NeverDelivered(log: Log, id: int, bound: int)
    requires Count(log, id) == 0
    ensures EndsBy(log, id, bound)
  {
    match log
    case Nothing =>
    case Then(before, _) => NeverDelivered(before, id, bound);
  }

  lemma {:induction false} DeliveredCounts(log: Log, ids: set<int>, at: int, until: int, id: int)
    ensures Count(Delivered(log, ids, at, until), id) == Count(log, id) + if id in ids then 1 else 0
    decreases |ids|
  {
    if ids != {} {
      BelowIsTotal();
      var least := Least(ids, Below);
      DeliveredCounts(log, ids - {least}, at, until, id);
    }
  }

  lemma {:induction false} DeliveredEndsBy(log: Log, ids: set<int>, at: int, until: int, id: int, bound: int)
    requires EndsBy(log, id, bound) && (id in ids ==> until <= bound)
    ensures EndsBy(Delivered(log, ids, at, until), id, bound)
    decreases |ids|
  {
    if ids != {} {
      BelowIsTotal();
      var least := Least(ids, Below);
      DeliveredEndsBy(log, ids - {least}, at, until, id, bound);
    }
  }

  lemma {:induction false} DeliveredIsSeparated(log: Log, ids: set<int>, at: int, until: int, v: int)
    requires Separated(log) && LeasesLast(log, v) && until - at >= v
    requires forall id :: id in ids ==> EndsBy(log, id, at)
    ensures Separated(Delivered(log, ids, at, until)) && LeasesLast(Delivered(log, ids, at, until), v)
    decreases |ids|
  {
    if ids != {} {
      BelowIsTotal();
      var least := Least(ids, Below);
      DeliveredIsSeparated(log, ids - {least}, at, until, v);
      DeliveredEndsBy(log, ids - {least}, at, until, least, at);
    }
  }

  // ---- the invariant ----

  predicate LeaseOk(log: Log, id: int, m: Message) {
    match m.lockedUntil
    case None => Count(log, id) == 0
    case Some(u) => EndsBy(log, id, u)
  }

  /** No two claims in flight hold the same id, and every held id is an unprocessed row. */
  ghost predicate FlightsOk(s: State, v: int) {
    && (forall c, d, id :: c in s.flights && d in s.flights && c != d && id in s.flights[c].ids ==> id !in s.flights[d].ids)
    && (forall c, id :: c in s.flights && id in s.flights[c].ids ==> id in s.rows && Unprocessed(s.rows[id]))
    && (forall c, id :: c in s.flights && id in s.flights[c].ids ==> EndsBy(s.log, id, s.flights[c].at))
    && (forall c :: c in s.flights ==> s.flights[c].until - s.flights[c].at >= v)
  }

  ghost predicate RowsOk(s: State) {
    && (forall id :: id in s.rows && Unprocessed(s.rows[id]) ==> LeaseOk(s.log, id, s.rows[id]))
    && (forall id :: id in s.rows ==> s.rows[id].deliveryCount == Count(s.log, id))
    && (forall id :: id in s.rows ==> id < s.nextId)
    && (forall id :: id >= s.nextId ==> Count(s.log, id) == 0)
  }

  /** Appended messages are unprocessed, processed and still stored, or trimmed; pending ones are those not acknowledged. */
  ghost predicate Conserved(s: State) {
    && s.appended == |PendingIds(s.rows)| + |ProcessedIds(s.rows)| + s.trimmed
    && |PendingIds(s.rows)| == s.appended - s.acked
  }

  ghost predicate Inv(s: State, v: int) {
    && FlightsOk(s, v)
    && RowsOk(s)
    && Separated(s.log) && LeasesLast(s.log, v)
    && Conserved(s)
  }

  /** Every claim of the step asks for a lease of at least v. */
  predicate LeaseAtLeast(step: Step, v: int) {
    step.Pick? ==> AtLeastOne(step.timeoutMs) >= v
  }

  lemma InitialInv(now: int, v: int)
    ensures Inv(Initial(now), v)
  {
    assert PendingIds(map[]) == {} && ProcessedIds(map[]) == {};
  }

  lemma PickedAreFree(s: State, stream: string, limit: int, v: int)
    requires Inv(s, v)
    ensures forall id :: id in PickedIds(s, stream, limit) ==>
      id in s.rows && Unprocessed(s.rows[id]) && EndsBy(s.log, id, s.now)
    ensures forall c, id :: c in s.flights && id in s.flights[c].ids ==> id !in PickedIds(s, stream, limit)
  {
    var picked := PickedIds(s, stream, limit);
    assert picked <= EligibleIds(s.rows, stream, s.now) - Locked(s.flights);
    forall id | id in picked ensures id in s.rows && Unprocessed(s.rows[id]) && EndsBy(s.log, id, s.now) {
      assert id in EligibleIds(s.rows, stream, s.now);
      if s.rows[id].lockedUntil.Some? {
        EndsByIsMonotone(s.log, id, s.rows[id].lockedUntil.value, s.now);
      } else {
        NeverDelivered(s.log, id, s.now);
      }
    }
    assert forall c, id :: c in s.flights && id in s.flights[c].ids ==> id in Locked(s.flights);
  }

  lemma PickKeepsInv(s: State, step: Step, v: int)
    requires step.Pick? && Enabled(s, step) && Inv(s, v) && LeaseAtLeast(step, v)
    ensures Inv(Next(s, step), v)
  {
    hide PickedIds, Locked, EligibleIds;
    PickedAreFree(s, step.stream, step.limit, v);
    assert FlightsOk(Next(s, step), v);
  }

  lemma CommitKeepsFlights(s: State, c: int, v: int)
    requires c in s.flights && Inv(s, v)
    ensures FlightsOk(Next(s, Commit(c)), v)
  {
    var claim := s.flights[c];
    var t := Next(s, Commit(c));
    forall d, id | d in t.flights && id in t.flights[d].ids
      ensures EndsBy(t.log, id, t.flights[d].at)
    {
      DeliveredEndsBy(s.log, claim.ids, claim.at, claim.until, id, t.flights[d].at);
    }
  }

  lemma CommitKeepsRows(s: State, c: int, v: int)
    requires c in s.flights && Inv(s, v) && v >= 0
    ensures RowsOk(Next(s, Commit(c)))
  {
    var claim := s.flights[c];
    var t := Next(s, Commit(c));
    forall id ensures Count(t.log, id) == Count(s.log, id) + if id in claim.ids then 1 else 0 {
      DeliveredCounts(s.log, claim.ids, claim.at, claim.until, id);
    }
    forall id | id in t.rows && Unprocessed(t.rows[id]) ensures LeaseOk(t.log, id, t.rows[id]) {
      if id in claim.ids {
        EndsByIsMonotone(s.log, id, claim.at, claim.until);
        DeliveredEndsBy(s.log, claim.ids, claim.at, claim.until, id, claim.until);
      } else if s.rows[id].lockedUntil.Some? {
        DeliveredEndsBy(s.log, claim.ids, claim.at, claim.until, id, s.rows[id].lockedUntil.value);
      }
    }
  }

  lemma CommitKeepsInv(s: State, c: int, v: int)
    requires c in s.flights && Inv(s, v) && v >= 0
    ensures Inv(Next(s, Commit(c)), v)
  {
    hide FlightsOk, RowsOk;
    CommitKeepsFlights(s, c, v);
    CommitKeepsRows(s, c, v);
    ClaimEnds(s, c, v);
    var claim := s.flights[c];
    DeliveredIsSeparated(s.log, claim.ids, claim.at, claim.until, v);
    var t := Next(s, Commit(c));
    assert PendingIds(t.rows) == PendingIds(s.rows) && ProcessedIds(t.rows) == ProcessedIds(s.rows);
  }

  lemma ClaimEnds(s: State, c: int, v: int)
    requires c in s.flights && FlightsOk(s, v)
    ensures s.flights[c].until - s.flights[c].at >= v
    ensures forall id :: id in s.flights[c].ids ==> EndsBy(s.log, id, s.flights[c].at)
  {
  }

  lemma AppendKeepsInv(s: State, step: Step, v: int)
    requires step.Append? && Inv(s, v)
    ensures Inv(Next(s, step), v)
  {
    var t := Next(s, step);
    assert PendingIds(t.rows) == PendingIds(s.rows) + {s.nextId};
    assert ProcessedIds(t.rows) == ProcessedIds(s.rows);
    assert FlightsOk(t, v);
  }

  lemma AckMovesRows(rows: Rows, ids: set<int>, now: int)
    ensures var acked := ids * PendingIds(rows);
      && PendingIds(Acked(rows, ids, now)) == PendingIds(rows) - acked
      && ProcessedIds(Acked(rows, ids, now)) == ProcessedIds(rows) + acked
      && |PendingIds(rows) - acked| == |PendingIds(rows)| - |acked|
      && |ProcessedIds(rows) + acked| == |ProcessedIds(rows)| + |acked|
  {
    var acked := ids * PendingIds(rows);
    var rows' := Acked(rows, ids, now);
    forall id ensures id in PendingIds(rows') <==> id in PendingIds(rows) - acked {}
    forall id ensures id in ProcessedIds(rows') <==> id in ProcessedIds(rows) + acked {}
    assert acked !! ProcessedIds(rows);
  }

  lemma AckKeepsFlights(s: State, ids: set<int>, v: int)
    requires Enabled(s, Ack(ids)) && FlightsOk(s, v)
    ensures FlightsOk(Next(s, Ack(ids)), v)
  {
    forall c, id | c in s.flights && id in s.flights[c].ids
      ensures id in s.rows && Acked(s.rows, ids, s.now)[id] == s.rows[id]
    {
      assert id in Locked(s.flights) && id in PendingIds(s.rows);
      assert id !in ids * PendingIds(s.rows);
    }
  }

  lemma AckKeepsRows(s: State, ids: set<int>, v: int)
    requires Enabled(s, Ack(ids)) && RowsOk(s)
    ensures RowsOk(Next(s, Ack(ids)))
  {
  }

  lemma AckKeepsInv(s: State, ids: set<int>, v: int)
    requires Enabled(s, Ack(ids)) && Inv(s, v)
    ensures Inv(Next(s, Ack(ids)), v)
  {
    hide FlightsOk, RowsOk, Locked, PendingIds, ProcessedIds, Acked;
    AckKeepsRows(s, ids, v);
    AckKeepsFlights(s, ids, v);
    AckMovesRows(s.rows, ids, s.now);
  }

  lemma TrimMovesRows(rows: Rows, step: Step, now: int)
    requires step.Trim?
    ensures var gone := TrimmedIds(rows, step, now);
      && gone <= ProcessedIds(rows)
      && PendingIds(rows - gone) == PendingIds(rows)
      && ProcessedIds(rows - gone) == ProcessedIds(rows) - gone
      && |ProcessedIds(rows) - gone| == |ProcessedIds(rows)| - |gone|
  {
    hide FirstN;
    var gone := TrimmedIds(rows, step, now);
    assert gone <= ProcessedIds(rows);
    forall id ensures id in PendingIds(rows - gone) <==> id in PendingIds(rows) {}
    forall id ensures id in ProcessedIds(rows - gone) <==> id in ProcessedIds(rows) - gone {}
  }

  lemma TrimKeepsInv(s: State, step: Step, v: int)
    requires step.Trim? && Inv(s, v)
    ensures Inv(Next(s, step), v)
    ensures PendingIds(Next(s, step).rows) == PendingIds(s.rows)
  {
    hide TrimmedIds;
    TrimMovesRows(s.rows, step, s.now);
    forall c, id | c in s.flights && id in s.flights[c].ids ensures id !in TrimmedIds(s.rows, step, s.now) {
      assert id !in ProcessedIds(s.rows);
    }
    assert FlightsOk(Next(s, step), v);
  }

  lemma NextKeepsInv(s: State, step: Step, v: int)
    requires Enabled(s, step) && Inv(s, v) && v >= 0 && LeaseAtLeast(step, v)
    ensures Inv(Next(s, step), v)
  {
    match step
    case Tick(_) => assert FlightsOk(Next(s, step), v);
    case Append(_, _, _) => AppendKeepsInv(s, step, v);
    case Pick(_, _, _, _, _) => PickKeepsInv(s, step, v);
    case Commit(c) => CommitKeepsInv(s, c, v);
    case Rollback(_) => assert FlightsOk(Next(s, step), v);
    case Ack(ids) => AckKeepsInv(s, ids, v);
    case Trim(_, _, _, _) => TrimKeepsInv(s, step, v);
  }

  /** The invariant holds in every state of every run whose leases are at least v. */
  lemma {:induction false} RunKeepsInv(s: State, steps: seq<Step>, t: State, v: int)
    requires Reaches(s, steps, t) && Inv(s, v) && v >= 0
    requires forall i :: 0 <= i < |steps| ==> LeaseAtLeast(steps[i], v)
    ensures Inv(t, v)
    decreases |steps|
  {
    if steps != [] {
      NextKeepsInv(s, steps[0], v);
      RunKeepsInv(Next(s, steps[0]), steps[1..], t, v);
    }
  }

  // ---- the promises ----

  /** Two claims in flight never hold the same message. */
  lemma InFlightClaimsAreDisjoint(now: int, steps: seq<Step>, t: State, c: int, d: int)
    requires Reaches(Initial(now), steps, t) && c in t.flights && d in t.flights && c != d
    ensures t.flights[c].ids !! t.flights[d].ids
  {
    InitialInv(now, 0);
    RunKeepsInv(Initial(now), steps, t, 0);
    assert forall id :: id in t.flights[c].ids ==> id !in t.flights[d].ids;
  }

  function NthNewest(log: Log, n: nat): Option<Delivery> {
    match log
    case Nothing => None
    case Then(before, d) => if n == 0 then Some(d) else NthNewest(before, n - 1)
  }

  lemma {:induction false} EarlierEndsBy(log: Log, n: nat, id: int, bound: int)
    requires EndsBy(log, id, bound) && NthNewest(log, n).Some? && NthNewest(log, n).value.id == id
    ensures NthNewest(log, n).value.until <= bound
  {
    if n > 0 { EarlierEndsBy(log.before, n - 1, id, bound); }
  }

  lemma {:induction false} SeparatedPair(log: Log, newer: nat, older: nat)
    requires Separated(log) && newer < older && NthNewest(log, older).Some?
    ensures NthNewest(log, newer).Some?
    ensures NthNewest(log, newer).value.id == NthNewest(log, older).value.id ==>
      NthNewest(log, newer).value.at >= NthNewest(log, older).value.until
  {
    if newer == 0 {
      if log.delivery.id == NthNewest(log, older).value.id {
        EarlierEndsBy(log.before, older - 1, log.delivery.id, log.delivery.at);
      }
    } else {
      SeparatedPair(log.before, newer - 1, older - 1);
    }
  }

  /** Of two committed claims returning one message, the later picked it at or after the end of the earlier lease. */
  lemma LeasesAreExclusive(now: int, steps: seq<Step>, t: State, newer: nat, older: nat)
    requires Reaches(Initial(now), steps, t) && newer < older && NthNewest(t.log, older).Some?
    ensures NthNewest(t.log, newer).Some?
    ensures var a, b := NthNewest(t.log, older).value, NthNewest(t.log, newer).value;
      a.id == b.id ==> b.at >= a.until >= a.at + 1
  {
    InitialInv(now, 1);
    RunKeepsInv(Initial(now), steps, t, 1);
    SeparatedPair(t.log, newer, older);
    LeaseLength(t.log, older, 1);
  }

  lemma {:induction false} LeaseLength(log: Log, n: nat, v: int)
    requires LeasesLast(log, v) && NthNewest(log, n).Some?
    ensures NthNewest(log, n).value.until - NthNewest(log, n).value.at >= v
  {
    if n > 0 { LeaseLength(log.before, n - 1, v); }
  }

  /** Deliveries of one message whose leases have ended by `bound`: v apart, they fill at least (n - 1) * v. */
  lemma {:induction false} DeliveriesTakeTime(log: Log, id: int, from: int, to: int, v: int, bound: int)
    requires Separated(log) && LeasesLast(log, v) && v >= 1 && EndsBy(log, id, bound)
    ensures var n := CountBetween(log, id, from, to); n >= 1 ==> from + n * v <= bound
  {
    match log
    case Nothing =>
    case Then(before, d) =>
      DeliveriesTakeTime(before, id, from, to, v, bound);
      if d.id == id && from <= d.at <= to {
        DeliveriesTakeTime(before, id, from, to, v, d.at);
        var n := CountBetween(before, id, from, to);
        assert (n + 1) * v == n * v + v;
      }
  }

  lemma {:induction false} DeliveriesFit(log: Log, id: int, from: int, to: int, v: int)
    requires Separated(log) && LeasesLast(log, v) && v >= 1
    ensures var n := CountBetween(log, id, from, to); n >= 1 ==> from + (n - 1) * v <= to
  {
    match log
    case Nothing =>
    case Then(before, d) =>
      if d.id == id && from <= d.at <= to {
        DeliveriesTakeTime(before, id, from, to, v, d.at);
      } else {
        DeliveriesFit(before, id, from, to, v);
      }
  }

  /** In elapsed time D, with every lease at least v, one message is delivered at most floor(D / v) + 1 times. */
  lemma DeliveriesAreBounded(now: int, steps: seq<Step>, t: State, id: int, from: int, D: nat, v: int)
    requires Reaches(Initial(now), steps, t) && v >= 1
    requires forall i :: 0 <= i < |steps| ==> LeaseAtLeast(steps[i], v)
    ensures CountBetween(t.log, id, from, from + D) <= D / v + 1
  {
    hide FlightsOk, RowsOk, Conserved, Reaches, CountBetween, LeaseAtLeast, Separated, LeasesLast;
    InitialInv(now, v);
    RunKeepsInv(Initial(now), steps, t, v);
    DeliveriesFit(t.log, id, from, from + D, v);
    var n := CountBetween(t.log, id, from, from + D);
    if n >= 1 { QuotientBound(n - 1, v, D); }
  }

  lemma QuotientBound(n: nat, v: int, D: nat)
    requires v >= 1 && n * v <= D
    ensures n <= D / v
  {
    var q := D / v;
    if n > q {
      assert n >= q + 1;
      Stretch(q + 1, n, v);
    }
  }

  /** The message was appended and has since been acknowledged (and perhaps trimmed). */
  predicate Done(s: State, id: int) {
    id < s.nextId && (id in s.rows ==> !Unprocessed(s.rows[id]))
  }

  lemma AckMakesDone(s: State, ids: set<int>, id: int)
    requires Enabled(s, Ack(ids)) && RowsOk(s) && id in ids && id in s.rows
    ensures Done(Next(s, Ack(ids)), id)
  {
  }

  lemma NextKeepsDone(s: State, step: Step, id: int, v: int)
    requires Enabled(s, step) && Inv(s, v) && Done(s, id)
    ensures Done(Next(s, step), id) && Count(Next(s, step).log, id) == Count(s.log, id)
  {
    match step
    case Commit(c) =>
      DeliveredCounts(s.log, s.flights[c].ids, s.flights[c].at, s.flights[c].until, id);
    case _ =>
  }

  /** Once acknowledged, a message is never delivered again. */
  lemma {:induction false} NeverDeliveredAfterAck(s: State, steps: seq<Step>, t: State, id: int)
    requires Reaches(s, steps, t) && Inv(s, 0) && Done(s, id)
    ensures Done(t, id) && Count(t.log, id) == Count(s.log, id)
    decreases |steps|
  {
    if steps != [] {
      NextKeepsDone(s, steps[0], id, 0);
      NextKeepsInv(s, steps[0], 0);
      NeverDeliveredAfterAck(Next(s, steps[0]), steps[1..], t, id);
    }
  }

  /** Nothing is lost or counted twice, over every run. */
  lemma MessagesAreConserved(now: int, steps: seq<Step>, t: State)
    requires Reaches(Initial(now), steps, t)
    ensures t.appended == |PendingIds(t.rows)| + |ProcessedIds(t.rows)| + t.trimmed
    ensures |PendingIds(t.rows)| == t.appended - t.acked
    ensures forall id :: id in t.rows ==> t.rows[id].deliveryCount == Count(t.log, id)
  {
    InitialInv(now, 0);
    RunKeepsInv(Initial(now), steps, t, 0);
  }

  // ---- progress ----

  /** The ids below `id` in a set. */
  function Smaller(ids: set<int>, id: int): set<int> { set x | x in ids && x < id }

  /** A pick of limit L either takes the message or takes L ids smaller than it. */
  lemma PickTakesSmaller(ids: set<int>, id: int, L: nat)
    requires id in ids && id !in FirstN(ids, L)
    ensures FirstN(ids, L) <= Smaller(ids, id) && |FirstN(ids, L)| == L
  {
    forall a | a in FirstN(ids, L) ensures a < id { FirstNIsFirst(ids, L, a, id); }
    FirstNSize(ids, L);
  }

  /**
    What a stream offers to successive claims of limit L: between two claims nothing becomes eligible, and
    a claim's messages stay leased.
  */
  ghost predicate OnlyShrinks(offered: seq<set<int>>, L: nat) {
    forall i :: 0 <= i < |offered| - 1 ==> offered[i + 1] <= offered[i] - FirstN(offered[i], L)
  }

  lemma {:induction false} WaitingShrinks(offered: seq<set<int>>, L: nat, id: int, k: nat)
    requires OnlyShrinks(offered, L) && k < |offered|
    requires forall i :: 0 <= i <= k ==> id in offered[i]
    ensures |Smaller(offered[k], id)| + k * L <= |Smaller(offered[0], id)|
  {
    hide FirstN, Smaller;
    if k > 0 {
      WaitingShrinks(offered, L, id, k - 1);
      var ids := offered[k - 1];
      assert offered[k - 1 + 1] <= ids - FirstN(ids, L);
      PickTakesSmaller(ids, id, L);
      SmallerShrinks(ids, FirstN(ids, L), offered[k], id);
      assert k * L == (k - 1) * L + L;
    } else {
      assert k * L == 0;
    }
  }

  lemma SmallerShrinks(ids: set<int>, taken: set<int>, next: set<int>, id: int)
    requires taken <= Smaller(ids, id) && next <= ids - taken
    ensures |Smaller(next, id)| + |taken| <= |Smaller(ids, id)|
  {
    SubsetSize(Smaller(next, id) + taken, Smaller(ids, id));
    assert Smaller(next, id) !! taken;
  }

  /**
    A message with e eligible smaller ids is delivered by the (floor(e / L) + 1)-th successive claim of
    limit L: if it is still offered to that claim, that claim takes it.
  */
  lemma DeliveredInTurn(offered: seq<set<int>>, L: nat, id: int, k: nat)
    requires L >= 1 && k < |offered| && OnlyShrinks(offered, L)
    requires k == |Smaller(offered[0], id)| / L
    requires forall i :: 0 <= i <= k ==> id in offered[i]
    ensures id in FirstN(offered[k], L)
  {
    hide OnlyShrinks, FirstN, Smaller;
    WaitingShrinks(offered, L, id, k);
    RemainderBound(|Smaller(offered[0], id)|, L);
    if id !in FirstN(offered[k], L) {
      PickTakesSmaller(offered[k], id, L);
      SubsetSize(FirstN(offered[k], L), Smaller(offered[k], id));
    }
  }

  lemma RemainderBound(e: nat, L: nat)
    requires L >= 1
    ensures e < (e / L) * L + L
  {
  }

  /** The rows of a stream a pick can take: eligible, and locked by no claim in flight. */
  function Free(s: State, stream: string): set<int> {
    EligibleIds(s.rows, stream, s.now) - Locked(s.flights)
  }

  /** A pick takes the first L free ids, and with any other claims in flight exactly those stop being free. */
  lemma PickTakesFree(s: State, c: int, stream: string, consumer: string, limit: int, timeoutMs: int)
    requires c !in s.flights
    ensures var picked := Next(s, Pick(c, stream, consumer, limit, timeoutMs));
      && picked.flights[c].ids == PickedIds(s, stream, limit) == FirstN(Free(s, stream), AtLeastOne(limit))
      && Free(picked, stream) == Free(s, stream) - PickedIds(s, stream, limit)
  {
    hide FirstN, EligibleIds;
    var picked := Next(s, Pick(c, stream, consumer, limit, timeoutMs));
    LockedWith(s.flights, c, picked.flights[c]);
  }

  lemma LockedWith(flights: map<int, Flight>, c: int, claim: Flight)
    requires c !in flights
    ensures Locked(flights[c := claim]) == Locked(flights) + claim.ids
  {
    var after := flights[c := claim];
    forall id ensures id in Locked(after) <==> id in Locked(flights) + claim.ids {
      if d :| d in flights && id in flights[d].ids { assert after[d] == flights[d]; }
      if id in claim.ids { assert after[c] == claim; }
    }
  }

  /** Committing at once does not free them again: the lease takes over from the lock. */
  lemma ClaimedRowsAreNotOffered(s: State, c: int, stream: string, consumer: string, limit: int, timeoutMs: int)
    requires c !in s.flights
    ensures var done := Next(Next(s, Pick(c, stream, consumer, limit, timeoutMs)), Commit(c));
      Free(done, stream) == Free(s, stream) - PickedIds(s, stream, limit)
  {
    hide FirstN;
    var picked := Next(s, Pick(c, stream, consumer, limit, timeoutMs));
    var claim := picked.flights[c];
    assert picked.flights - {c} == s.flights;
    forall id ensures id in EligibleIds(Leased(s.rows, claim), stream, s.now)
      <==> id in EligibleIds(s.rows, stream, s.now) - claim.ids {}
  }

  /**
    The states in which one consumer makes successive claims of limit L on a stream. Between a pick and the next
    one anything may happen, with any number of other claims in flight, as long as no row of the stream becomes free.
  */
  ghost predicate ClaimMoments(states: seq<State>, claims: seq<int>, stream: string, consumer: string, L: int, timeoutMs: int) {
    && |claims| == |states|
    && (forall i :: 0 <= i < |states| ==> claims[i] !in states[i].flights)
    && (forall i :: 0 <= i < |states| - 1 ==>
          Free(states[i + 1], stream) <= Free(Next(states[i], Pick(claims[i], stream, consumer, L, timeoutMs)), stream))
  }

  /** A message with e free smaller ids, which nobody else takes, is picked by the (floor(e / L) + 1)-th claim at the latest. */
  lemma ClaimsReachEveryMessage(
      states: seq<State>, claims: seq<int>, stream: string, consumer: string, L: int, timeoutMs: int, id: int, k: nat)
    returns (n: nat)
    requires L >= 1 && k < |states| && ClaimMoments(states, claims, stream, consumer, L, timeoutMs)
    requires id in Free(states[0], stream) && k == |Smaller(Free(states[0], stream), id)| / L
    requires forall i :: 0 <= i < k ==> id in Free(states[i + 1], stream) || id in PickedIds(states[i], stream, L)
    ensures n <= k && id in PickedIds(states[n], stream, L)
  {
    hide Free, PickedIds, FirstN, Smaller, Next;
    n := 0;
    while n < k && id !in PickedIds(states[n], stream, L)
      invariant n <= k && forall i :: 0 <= i <= n ==> id in Free(states[i], stream)
    {
      n := n + 1;
    }
    if n == k {
      var offered := seq(|states|, i requires 0 <= i < |states| => Free(states[i], stream));
      forall i | 0 <= i < |offered| - 1 ensures offered[i + 1] <= offered[i] - FirstN(offered[i], L) {
        PickTakesFree(states[i], claims[i], stream, consumer, L, timeoutMs);
      }
      DeliveredInTurn(offered, L, id, k);
      PickTakesFree(states[k], claims[k], stream, consumer, L, timeoutMs);
    }
  }

  /** The steps neither commit nor roll back the claim. */
  predicate LeavesOpen(steps: seq<Step>, c: int) {
    forall i :: 0 <= i < |steps| ==> steps[i] != Commit(c) && steps[i] != Rollback(c)
  }

  lemma {:induction false} FlightStays(s: State, c: int, steps: seq<Step>, t: State)
    requires c in s.flights && Reaches(s, steps, t) && LeavesOpen(steps, c)
    ensures c in t.flights && t.flights[c] == s.flights[c]
    decreases |steps|
  {
    if steps != [] { FlightStays(Next(s, steps[0]), c, steps[1..], t); }
  }

  /** Whenever a claim that picked the message commits, whatever happened meanwhile, the message is delivered once more. */
  lemma OpenClaimDelivers(
      s: State, c: int, stream: string, consumer: string, limit: int, timeoutMs: int, id: int, steps: seq<Step>, t: State)
    requires c !in s.flights && id in PickedIds(s, stream, limit)
    requires Reaches(Next(s, Pick(c, stream, consumer, limit, timeoutMs)), steps, t) && LeavesOpen(steps, c)
    ensures c in t.flights && Count(Next(t, Commit(c)).log, id) == Count(t.log, id) + 1
  {
    hide PickedIds, Reaches, Delivered, Leased;
    FlightStays(Next(s, Pick(c, stream, consumer, limit, timeoutMs)), c, steps, t);
    DeliveredCounts(t.log, t.flights[c].ids, t.flights[c].at, t.flights[c].until, id);
  }

  /** The message is delivered by the commit of one of the first floor(e / L) + 1 claims, whenever that commit comes. */
  lemma ClaimsDeliverEveryMessage(
      states: seq<State>, claims: seq<int>, stream: string, consumer: string, L: int, timeoutMs: int, id: int, k: nat)
    requires L >= 1 && k < |states| && ClaimMoments(states, claims, stream, consumer, L, timeoutMs)
    requires id in Free(states[0], stream) && k == |Smaller(Free(states[0], stream), id)| / L
    requires forall i :: 0 <= i < k ==> id in Free(states[i + 1], stream) || id in PickedIds(states[i], stream, L)
    ensures exists n :: 0 <= n <= k && forall steps, t ::
      Reaches(Next(states[n], Pick(claims[n], stream, consumer, L, timeoutMs)), steps, t) && LeavesOpen(steps, claims[n]) ==>
        claims[n] in t.flights && Count(Next(t, Commit(claims[n])).log, id) == Count(t.log, id) + 1
  {
    hide Free, PickedIds, Smaller, Reaches, LeavesOpen, Count, Next;
    var n := ClaimsReachEveryMessage(states, claims, stream, consumer, L, timeoutMs, id, k);
    forall steps, t | Reaches(Next(states[n], Pick(claims[n], stream, consumer, L, timeoutMs)), steps, t) && LeavesOpen(steps, claims[n])
      ensures claims[n] in t.flights && Count(Next(t, Commit(claims[n])).log, id) == Count(t.log, id) + 1
    {
      OpenClaimDelivers(states[n], claims[n], stream, consumer, L, timeoutMs, id, steps, t);
    }
  }
}
