/**
  The position rows refine a deque: over every run of pushes, pops and expiry changes on any keys in which
  each push on a side comes at least as many milliseconds after the previous push on that side as that push
  had values, the rows of every key read back as the deque the run describes.
*/
module ListDeque {
  import opened Arithmetic
  import opened Wrappers
  import opened Ordering
  import opened PositionList

  datatype Event =
    | Push(key: string, side: Side, values: seq<Value>, now: int)
    | Pop(key: string, side: Side, count: int, now: int)
    | SetExpiry(key: string, expiresAt: Option<int>)

  /** A run, newest event last. */
  datatype Run = Empty | Then(before: Run, event: Event)

  datatype Table = Table(rows: Rows, nextId: int)

  predicate Legal(e: Event) { e.Pop? ==> e.count >= 1 }

  predicate LegalRun(run: Run) {
    run.Then? ==> LegalRun(run.before) && Legal(run.event)
  }

  function Step(t: Table, e: Event): Table
    requires Legal(e)
  {
    match e
    case Push(key, side, values, now) =>
      Table(Pushed(t.rows, t.nextId, key, side, values, now), t.nextId + |values|)
    case Pop(key, side, count, now) =>
      Table(Without(t.rows, Picked(t.rows, key, side, count, now)), t.nextId)
    case SetExpiry(key, expiresAt) =>
      Table(WithExpiry(t.rows, key, expiresAt), t.nextId)
  }

  function State(run: Run): Table
    requires LegalRun(run)
  {
    match run
    case Empty => Table(map[], 1)
    case Then(before, e) => Step(State(before), e)
  }

  // ---- the deque ----

  datatype Deque = Deque(items: seq<Value>, expiresAt: Option<int>) {
    predicate Visible(now: int) { expiresAt.None? || expiresAt.value > now }

    function At(now: int): seq<Value> {
      if Visible(now) then items else []
    }
  }

  function Reverse<T>(s: seq<T>): seq<T> {
    seq(|s|, i requires 0 <= i < |s| => s[|s| - 1 - i])
  }

  /** The values a pop hands out, and what it leaves. */
  function Taken(s: seq<Value>, side: Side, n: int): (seq<Value>, seq<Value>)
    requires n >= 1
  {
    var m := Min(n, |s|);
    if side.Left? then (s[..m], s[m..]) else (Reverse(s[|s| - m..]), s[..|s| - m])
  }

  function DequeStep(d: Deque, e: Event): Deque
    requires Legal(e)
  {
    match e
    case Push(_, side, values, _) =>
      if values == [] then d
      else Deque(if side.Left? then values + d.items else d.items + values, if d.items == [] then None else d.expiresAt)
    case Pop(_, side, count, now) =>
      if d.Visible(now) then d.(items := Taken(d.items, side, count).1) else d
    case SetExpiry(_, expiresAt) => d.(expiresAt := expiresAt)
  }

  function DequeOf(run: Run, key: string): Deque
    requires LegalRun(run)
  {
    match run
    case Empty => Deque([], None)
    case Then(before, e) => if e.key == key then DequeStep(DequeOf(before, key), e) else DequeOf(before, key)
  }

  /** The clock value from which the next push on this side may come. */
  function Frontier(run: Run, key: string, side: Side): int {
    match run
    case Empty => 0
    case Then(before, e) =>
      if e.Push? && e.key == key && e.side == side && e.values != [] then e.now + |e.values| else Frontier(before, key, side)
  }

  predicate Spaced(run: Run) {
    run.Then? ==>
      && Spaced(run.before)
      && (run.event.Push? ==> run.event.now >= Frontier(run.before, run.event.key, run.event.side))
  }

  lemma {:induction false} FrontierNotNegative(run: Run, key: string, side: Side)
    requires Spaced(run)
    ensures Frontier(run, key, side) >= 0
  {
    match run
    case Empty =>
    case Then(before, e) =>
      FrontierNotNegative(before, key, side);
  }

  // ---- the refinement ----

  /** All the values of a key in row order, expired or not. */
  function Stored(rows: Rows, key: string): seq<Value> {
    Values(rows, Ordered(Of(rows, key)))
  }

  ghost predicate Refines(t: Table, key: string, d: Deque, left: int, right: int) {
    && Stored(t.rows, key) == d.items
    && (forall p :: p in Of(t.rows, key) ==> t.rows[p].expiresAt == d.expiresAt)
    && (forall p :: p in Of(t.rows, key) ==> -left <= p.position < right)
  }

  lemma ValuesConcat(rows: Rows, a: seq<Place>, b: seq<Place>)
    requires forall p :: p in a + b ==> p in rows
    ensures (forall p :: p in a ==> p in rows) && (forall p :: p in b ==> p in rows)
    ensures Values(rows, a + b) == Values(rows, a) + Values(rows, b)
  {
    forall p | p in a ensures p in rows { assert p in a + b; }
    forall p | p in b ensures p in rows { assert p in a + b; }
  }

  lemma SameCells(rows: Rows, rows': Rows, places: seq<Place>)
    requires forall p :: p in places ==> p in rows && p in rows' && rows[p].value == rows'[p].value
    ensures Values(rows, places) == Values(rows', places)
  {
    forall i | 0 <= i < |places| ensures Values(rows, places)[i] == Values(rows', places)[i] {
      assert places[i] in places;
    }
  }

  lemma {:induction false} MaxOfUniform(rows: Rows, places: seq<Place>, e: Option<int>)
    requires forall p :: p in places ==> p in rows && rows[p].expiresAt == e
    ensures MaxExpiry(rows, places) == if places == [] then None else e
  {
    if places != [] {
      assert places[0] in places;
      MaxOfUniform(rows, places[1..], e);
    }
  }

  lemma NewPlacesAreNew(side: Side, base: int, n: nat, firstId: int, rows: Rows)
    requires IdsBelow(rows, firstId)
    ensures var s := NewPlaces(side, base, n, firstId);
      && |s| == n
      && (forall p :: p in s ==> p !in rows && p.id < firstId + n)
      && (forall i, j :: 0 <= i < j < n ==> s[i] != s[j])
      && (forall p :: p in s ==> if side.Left? then -(base + n) <= p.position <= -(base + 1) else base <= p.position < base + n)
  {
  }

  /** One push: the cells it adds, and the keys it leaves alone. */
  lemma PushedRows(t: Table, key: string, side: Side, values: seq<Value>, now: int, d: Deque, left: int, right: int)
    requires values != [] && IdsBelow(t.rows, t.nextId) && Refines(t, key, d, left, right)
    ensures var s := NewPlaces(side, now, |values|, t.nextId);
      var rows' := Pushed(t.rows, t.nextId, key, side, values, now);
      && (forall p :: p in rows' <==> p in t.rows || p in s)
      && (forall p :: p in t.rows ==> rows'[p] == t.rows[p])
      && (forall i :: 0 <= i < |s| ==> rows'[s[i]] == Cell(key, values[i], if d.items == [] then None else d.expiresAt))
      && Of(rows', key) == Of(t.rows, key) + Elements(s)
      && IdsBelow(rows', t.nextId + |values|)
  {
    hide StrictTotalOrder, NewPlaces, PlaceOf, Inserted, MaxExpiry;
    var s := NewPlaces(side, now, |values|, t.nextId);
    NewPlacesAreNew(side, now, |values|, t.nextId, t.rows);
    MaxOfUniform(t.rows, Ordered(Of(t.rows, key)), d.expiresAt);
    assert |d.items| == |Ordered(Of(t.rows, key))|;
    var expiry := MaxExpiry(t.rows, Ordered(Of(t.rows, key)));
    InsertedRows(t.rows, key, values, s, expiry);
    var rows' := Pushed(t.rows, t.nextId, key, side, values, now);
    forall p | p in s ensures rows'[p].key == key {
      var i :| 0 <= i < |s| && s[i] == p;
    }
  }

  lemma PushStored(t: Table, e: Event, d: Deque, left: int, right: int)
    requires e.Push? && e.values != [] && IdsBelow(t.rows, t.nextId)
    requires left >= 0 && right >= 0 && Refines(t, e.key, d, left, right)
    requires e.now >= if e.side.Left? then left else right
    ensures Stored(Step(t, e).rows, e.key) == DequeStep(d, e).items
  {
    hide StrictTotalOrder, Ordered, Pushed, NewPlaces, Of, PlaceOf, MaxExpiry;
    var key, n := e.key, |e.values|;
    var s := NewPlaces(e.side, e.now, n, t.nextId);
    var rows' := Step(t, e).rows;
    var old' := Of(t.rows, key);
    OfRows(t.rows, key);
    OfRows(rows', key);
    PushedRows(t, key, e.side, e.values, e.now, d, left, right);
    NewPlacesAreNew(e.side, e.now, n, t.nextId, t.rows);
    PushedValues(rows', s, e.values);
    SameCells(t.rows, rows', Ordered(old'));
    SplitStored(rows', key, e.side, old', s, e.values, d.items, e.now, t.nextId);
  }

  /** The stored values of old rows and newly pushed ones, by side. */
  lemma SplitStored(rows: Rows, key: string, side: Side, old': set<Place>, s: seq<Place>,
                    values: seq<Value>, items: seq<Value>, base: int, nextId: int)
    requires s != [] && s == NewPlaces(side, base, |s|, nextId)
    requires forall p :: p in old' ==> p.id < nextId && if side.Left? then -base <= p.position else p.position < base
    requires Of(rows, key) == old' + Elements(s)
    requires (forall p :: p in Ordered(old') ==> p in rows) && (forall p :: p in s ==> p in rows)
    requires Values(rows, s) == values && Values(rows, Ordered(old')) == items
    ensures Stored(rows, key) == if side.Left? then values + items else items + values
  {
    hide StrictTotalOrder, Ordered, NewPlaces, Values;
    if side.Left? {
      LeftPushPrependsIff(old', base, |s|, nextId);
      assert Of(rows, key) == Elements(s) + old';
      ValuesConcat(rows, s, Ordered(old'));
    } else {
      RightPushAppendsIff(old', base, |s|, nextId);
      ValuesConcat(rows, Ordered(old'), s);
    }
  }

  lemma OfRows(rows: Rows, key: string)
    ensures forall p :: p in Of(rows, key) <==> p in rows && rows[p].key == key
  {
  }

  lemma PushedValues(rows: Rows, s: seq<Place>, values: seq<Value>)
    requires |s| == |values| && (forall p :: p in s ==> p in rows)
    requires forall i :: 0 <= i < |s| ==> rows[s[i]].value == values[i]
    ensures Values(rows, s) == values
  {
  }

  lemma PushRefines(t: Table, e: Event, d: Deque, left: int, right: int)
    requires e.Push? && e.values != [] && IdsBelow(t.rows, t.nextId)
    requires left >= 0 && right >= 0 && Refines(t, e.key, d, left, right)
    requires e.now >= if e.side.Left? then left else right
    ensures Refines(Step(t, e), e.key, DequeStep(d, e),
      if e.side.Left? then e.now + |e.values| else left, if e.side.Right? then e.now + |e.values| else right)
  {
    hide StrictTotalOrder, Pushed, NewPlaces, Ordered, PlaceOf, MaxExpiry, Stored;
    var key, n := e.key, |e.values|;
    PushStored(t, e, d, left, right);
    PushedRows(t, key, e.side, e.values, e.now, d, left, right);
    NewPlacesAreNew(e.side, e.now, n, t.nextId, t.rows);
    PushedExpiry(t, e, d, left, right);
  }

  lemma PushedExpiry(t: Table, e: Event, d: Deque, left: int, right: int)
    requires e.Push? && e.values != [] && IdsBelow(t.rows, t.nextId) && Refines(t, e.key, d, left, right)
    ensures var rows' := Step(t, e).rows;
      forall p :: p in Of(rows', e.key) ==> rows'[p].expiresAt == if d.items == [] then None else d.expiresAt
  {
    hide StrictTotalOrder, Pushed, NewPlaces, Ordered, PlaceOf, MaxExpiry;
    PushedRows(t, e.key, e.side, e.values, e.now, d, left, right);
    var s := NewPlaces(e.side, e.now, |e.values|, t.nextId);
    var rows' := Step(t, e).rows;
    forall p | p in Of(rows', e.key)
      ensures rows'[p].expiresAt == if d.items == [] then None else d.expiresAt
    {
      if p in s {
        var i :| 0 <= i < |s| && s[i] == p;
      } else {
        assert p in Ordered(Of(t.rows, e.key)) && |d.items| == |Ordered(Of(t.rows, e.key))|;
      }
    }
  }

  /** The rows of a key are all visible or all hidden. */
  lemma VisibleAllOrNone(t: Table, key: string, d: Deque, left: int, right: int, now: int)
    requires Refines(t, key, d, left, right)
    ensures Visible(t.rows, key, now) == if d.Visible(now) then Of(t.rows, key) else {}
    ensures Contents(t.rows, key, now) == d.At(now)
  {
    assert Visible(t.rows, key, now) == if d.Visible(now) then Of(t.rows, key) else {};
    if !d.Visible(now) {
      assert |Ordered(Visible(t.rows, key, now))| == 0;
    }
  }

  /** The values a pop hands out are the deque's. */
  lemma PopReplies(t: Table, key: string, side: Side, n: int, now: int, d: Deque, left: int, right: int)
    requires n >= 1 && Refines(t, key, d, left, right)
    ensures Values(t.rows, Picked(t.rows, key, side, n, now)) == Taken(d.At(now), side, n).0
  {
    hide StrictTotalOrder, Ordered, Taken, Values;
    VisibleAllOrNone(t, key, d, left, right, now);
    var all := Ordered(Visible(t.rows, key, now));
    assert forall p :: p in all ==> p in Visible(t.rows, key, now) && p in t.rows;
    PopValues(t.rows, all, side, n, Picked(t.rows, key, side, n, now));
  }

  lemma PoppedPlaces(rows: Rows, key: string, picked: seq<Place>)
    ensures Of(Without(rows, picked), key) == Of(rows, key) - Elements(picked)
    ensures forall p :: p in Without(rows, picked) ==> p in rows && Without(rows, picked)[p] == rows[p]
  {}

  lemma PopStored(t: Table, key: string, side: Side, n: int, now: int, d: Deque, left: int, right: int)
    requires n >= 1 && Refines(t, key, d, left, right) && d.Visible(now)
    ensures Stored(Without(t.rows, Picked(t.rows, key, side, n, now)), key) == Taken(d.items, side, n).1
  {
    hide StrictTotalOrder, Ordered, Values, Without;
    VisibleAllOrNone(t, key, d, left, right, now);
    var all := Ordered(Of(t.rows, key));
    var picked := Picked(t.rows, key, side, n, now);
    var rows' := Without(t.rows, picked);
    var m := Min(n, |all|);
    LeftInOrder(Of(t.rows, key), side, m, picked);
    PoppedPlaces(t.rows, key, picked);
    var kept := Ordered(Of(rows', key));
    assert forall p :: p in kept ==> p in rows' && p in t.rows && rows'[p] == t.rows[p];
    SameCells(rows', t.rows, kept);
    KeptValues(t.rows, all, side, n, kept);
  }

  lemma KeptValues(rows: Rows, all: seq<Place>, side: Side, n: int, kept: seq<Place>)
    requires n >= 1 && (forall p :: p in all ==> p in rows) && (forall p :: p in kept ==> p in rows)
    requires var m := Min(n, |all|); kept == if side.Left? then all[m..] else all[..|all| - m]
    ensures Values(rows, kept) == Taken(Values(rows, all), side, n).1
  {
  }

  /** A pop leaves what the deque leaves. */
  lemma PopRefines(t: Table, e: Event, d: Deque, left: int, right: int)
    requires e.Pop? && Legal(e) && Refines(t, e.key, d, left, right)
    ensures Refines(Step(t, e), e.key, DequeStep(d, e), left, right)
  {
    hide StrictTotalOrder, Ordered, Values, Taken;
    VisibleAllOrNone(t, e.key, d, left, right, e.now);
    var picked := Picked(t.rows, e.key, e.side, e.count, e.now);
    if d.Visible(e.now) {
      PopStored(t, e.key, e.side, e.count, e.now, d, left, right);
      assert Of(Step(t, e).rows, e.key) <= Of(t.rows, e.key);
    } else {
      PickedAreVisible(t.rows, e.key, e.side, e.count, e.now);
      assert forall p :: p !in picked;
      assert Step(t, e).rows == t.rows;
    }
  }

  lemma PopValues(rows: Rows, all: seq<Place>, side: Side, n: int, picked: seq<Place>)
    requires n >= 1 && forall p :: p in all ==> p in rows
    requires var m := Min(n, |all|);
      picked == if side.Left? then all[..m] else seq(m, i requires 0 <= i < m => all[|all| - 1 - i])
    ensures forall p :: p in picked ==> p in rows
    ensures Values(rows, picked) == Taken(Values(rows, all), side, n).0
  {
    assert forall i :: 0 <= i < |picked| ==> picked[i] in all;
  }

  /** Removing the first m, or the last m, of the ordering leaves the rest in order. */
  lemma LeftInOrder(places: set<Place>, side: Side, m: int, picked: seq<Place>)
    requires var all := Ordered(places);
      && 0 <= m <= |all|
      && picked == if side.Left? then all[..m] else seq(m, i requires 0 <= i < m => all[|all| - 1 - i])
    ensures var all := Ordered(places);
      Ordered(places - Elements(picked)) == if side.Left? then all[m..] else all[..|all| - m]
  {
    BeforeIsTotal();
    hide StrictTotalOrder, OrderBy;
    var all := Ordered(places);
    if side.Left? {
      OrderByDropTake(places, Before, m);
    } else {
      OrderByDropTake(places, Before, |all| - m);
      SameElements(all[|all| - m..], picked);
    }
  }

  lemma SameElements(s: seq<Place>, reversed: seq<Place>)
    requires |s| == |reversed| && forall i :: 0 <= i < |s| ==> reversed[i] == s[|s| - 1 - i]
    ensures Elements(reversed) == Elements(s)
  {
    forall x ensures x in Elements(reversed) <==> x in Elements(s) {
      if x in Elements(reversed) {
        var i :| 0 <= i < |s| && reversed[i] == x;
        assert s[|s| - 1 - i] == x;
      }
      if x in Elements(s) {
        var i :| 0 <= i < |s| && s[i] == x;
        assert reversed[|s| - 1 - i] == x;
      }
    }
  }

  lemma ExpiryRefines(t: Table, e: Event, d: Deque, left: int, right: int)
    requires e.SetExpiry? && Refines(t, e.key, d, left, right)
    ensures Refines(Step(t, e), e.key, DequeStep(d, e), left, right)
  {
    var rows' := Step(t, e).rows;
    assert Of(rows', e.key) == Of(t.rows, e.key);
    SameCells(rows', t.rows, Ordered(Of(t.rows, e.key)));
  }

  lemma OtherKeys(t: Table, e: Event, key: string, d: Deque, left: int, right: int)
    requires Legal(e) && IdsBelow(t.rows, t.nextId) && e.key != key && Refines(t, key, d, left, right)
    ensures Refines(Step(t, e), key, d, left, right)
  {
    hide StrictTotalOrder, NewPlaces, PlaceOf, Inserted, MaxExpiry, Picked, Values;
    var rows' := Step(t, e).rows;
    match e {
      case Push(k, side, values, now) =>
        var s := NewPlaces(side, now, |values|, t.nextId);
        NewPlacesAreNew(side, now, |values|, t.nextId, t.rows);
        InsertedRows(t.rows, k, values, s, MaxExpiry(t.rows, Ordered(Of(t.rows, k))));
        forall p | p in s ensures rows'[p].key == k {
          var i :| 0 <= i < |s| && s[i] == p;
        }
      case Pop(k, side, count, now) =>
        PickedAreVisible(t.rows, k, side, count, now);
      case SetExpiry(_, _) =>
    }
    assert Of(rows', key) == Of(t.rows, key);
    SameCells(rows', t.rows, Ordered(Of(t.rows, key)));
  }

  lemma PickedAreVisible(rows: Rows, key: string, side: Side, n: int, now: int)
    requires n >= 1
    ensures forall p :: p in Picked(rows, key, side, n, now) ==> p in Visible(rows, key, now)
  {
    var all := Ordered(Visible(rows, key, now));
    var picked := Picked(rows, key, side, n, now);
    forall p | p in picked ensures p in all {
      var i :| 0 <= i < |picked| && picked[i] == p;
      assert p == all[if side.Left? then i else |all| - 1 - i];
    }
  }

  lemma {:induction false} IdsStayBelow(run: Run)
    requires LegalRun(run)
    ensures IdsBelow(State(run).rows, State(run).nextId)
  {
    match run
    case Empty =>
    case Then(before, e) =>
      IdsStayBelow(before);
      var t := State(before);
      if e.Push? {
        var s := NewPlaces(e.side, e.now, |e.values|, t.nextId);
        NewPlacesAreNew(e.side, e.now, |e.values|, t.nextId, t.rows);
        InsertedRows(t.rows, e.key, e.values, s, MaxExpiry(t.rows, Ordered(Of(t.rows, e.key))));
      }
  }

  /** Every spaced run leaves every key's rows equal to the deque the run describes. */
  lemma {:induction false} RowsRefineDeque(run: Run, key: string)
    requires LegalRun(run) && Spaced(run)
    ensures Refines(State(run), key, DequeOf(run, key), Frontier(run, key, Left), Frontier(run, key, Right))
  {
    match run
    case Empty =>
      assert Of(State(run).rows, key) == {};
      assert |Ordered(Of(State(run).rows, key))| == 0;
    case Then(before, e) =>
      RowsRefineDeque(before, key);
      IdsStayBelow(before);
      FrontierNotNegative(before, key, Left);
      FrontierNotNegative(before, key, Right);
      var t, d := State(before), DequeOf(before, key);
      var left, right := Frontier(before, key, Left), Frontier(before, key, Right);
      if e.key != key {
        OtherKeys(t, e, key, d, left, right);
      } else {
        match e
        case Push(_, _, values, _) => if values != [] { PushRefines(t, e, d, left, right); }
        case Pop(_, _, _, _) => PopRefines(t, e, d, left, right);
        case SetExpiry(_, _) => ExpiryRefines(t, e, d, left, right);
      }
  }

  /** What a run's next pop and next lrange return: the deque's own answers. */
  lemma RepliesAreDequeReplies(run: Run, key: string, side: Side, n: int, start: int, stop: int, now: int)
    requires LegalRun(run) && Spaced(run) && n >= 1
    ensures var rows, d := State(run).rows, DequeOf(run, key);
      && Values(rows, Picked(rows, key, side, n, now)) == Taken(d.At(now), side, n).0
      && Range(Contents(rows, key, now), start, stop) == Range(d.At(now), start, stop)
  {
    RowsRefineDeque(run, key);
    var left, right := Frontier(run, key, Left), Frontier(run, key, Right);
    PopReplies(State(run), key, side, n, now, DequeOf(run, key), left, right);
    VisibleAllOrNone(State(run), key, DequeOf(run, key), left, right, now);
  }

  /** A push as the caller means it: values before or after what the list shows. */
  function Joined(shown: seq<Value>, side: Side, values: seq<Value>): seq<Value> {
    if side.Left? then values + shown else shown + values
  }

  /** What a list shows after a run. */
  lemma ShownIsDeque(run: Run, key: string, now: int)
    requires LegalRun(run) && Spaced(run)
    ensures Contents(State(run).rows, key, now) == DequeOf(run, key).At(now)
  {
    RowsRefineDeque(run, key);
    VisibleAllOrNone(State(run), key, DequeOf(run, key), Frontier(run, key, Left), Frontier(run, key, Right), now);
  }

  /**
    At the push: the values appear, and the returned length counts them, exactly if the key had no rows or its rows
    were visible. Otherwise they inherit the past expiry.
  */
  lemma PushIsSeenIff(run: Run, key: string, side: Side, values: seq<Value>, now: int)
    requires LegalRun(run) && Spaced(Then(run, Push(key, side, values, now))) && values != []
    ensures var d, rows := DequeOf(run, key), State(Then(run, Push(key, side, values, now))).rows;
      var seen := d.items == [] || d.Visible(now);
      && (Contents(rows, key, now) == Joined(d.At(now), side, values) <==> seen)
      && (|Contents(rows, key, now)| == |d.At(now)| + |values| <==> seen)
  {
    hide Contents, State, Spaced;
    ShownIsDeque(Then(run, Push(key, side, values, now)), key, now);
  }

  /** `run` goes on from `base` without a new expiry for the key, its events on the key at `now` or later. */
  predicate ExpiryUntouched(run: Run, base: Run, key: string, now: int) {
    run == base
    || (run.Then? && (run.event.key == key ==> !run.event.SetExpiry? && run.event.now >= now) && ExpiryUntouched(run.before, base, key, now))
  }

  lemma {:induction false} StaysHidden(run: Run, base: Run, key: string, now: int)
    requires LegalRun(run) && LegalRun(base) && ExpiryUntouched(run, base, key, now)
    requires DequeOf(base, key).items != [] && !DequeOf(base, key).Visible(now)
    ensures DequeOf(run, key).items != [] && !DequeOf(run, key).Visible(now)
  {
    if run != base { StaysHidden(run.before, base, key, now); }
  }

  /** An expired list shows nothing, whatever is pushed and popped, until its expiry is set anew. */
  lemma ExpiredListShowsNothing(run: Run, base: Run, key: string, now: int, later: int)
    requires LegalRun(run) && LegalRun(base) && Spaced(run) && ExpiryUntouched(run, base, key, now) && later >= now
    requires DequeOf(base, key).items != [] && !DequeOf(base, key).Visible(now)
    ensures Contents(State(run).rows, key, later) == []
  {
    StaysHidden(run, base, key, now);
    ShownIsDeque(run, key, later);
  }

  /**
    persist and expire set the expiry of expired rows too: from then on the list shows all its items, those pushed
    while it was expired and those that had expired before, exactly while the new expiry is not past.
  */
  lemma NewExpiryBringsBack(run: Run, key: string, side: Side, values: seq<Value>, now: int, expiresAt: Option<int>, later: int)
    requires LegalRun(run) && Spaced(Then(run, Push(key, side, values, now))) && values != []
    ensures var after := Then(Then(run, Push(key, side, values, now)), SetExpiry(key, expiresAt));
      Contents(State(after).rows, key, later)
        == if expiresAt.None? || expiresAt.value > later then Joined(DequeOf(run, key).items, side, values) else []
  {
    hide Contents, State, Frontier;
    ShownIsDeque(Then(Then(run, Push(key, side, values, now)), SetExpiry(key, expiresAt)), key, later);
  }

  // ---- lrange ----

  /** Redis LRANGE: negative indexes count from the end. */
  function RedisRange(s: seq<Value>, start: int, stop: int): seq<Value> {
    var from := if start < 0 then start + |s| else start;
    var to := if stop < 0 then stop + |s| else stop;
    var lo := if from < 0 then 0 else from;
    var hi := if to >= |s| then |s| - 1 else to;
    if lo > hi then [] else s[lo..hi + 1]
  }

  function Filler(n: nat): seq<Value> { seq(n, i => "x") }

  /** `lrange` is Redis's on every list exactly for start >= 0 and stop >= -1. */
  lemma RangeIsRedisRangeIff(start: int, stop: int)
    ensures (forall s: seq<Value> :: Range(s, start, stop) == RedisRange(s, start, stop)) <==> start >= 0 && stop >= -1
  {
    if start >= 0 && stop >= -1 {
      forall s: seq<Value> ensures Range(s, start, stop) == RedisRange(s, start, stop) {}
    } else {
      var n := if start >= 0 then start + 1 else if stop >= 0 then stop - start + 1 else -start - stop + 1;
      var s := Filler(n);
      assert |Range(s, start, stop)| != |RedisRange(s, start, stop)|;
    }
  }

  /**
    `lrange` on every input: from 0 <= start <= stop the items start to stop; a negative start begins at the first item
    but still counts stop - start + 1 of them; a negative stop means to the end; a stop before the start means none.
  */
  lemma RangeIsSlice(s: seq<Value>, start: int, stop: int)
    ensures stop < 0 ==> Range(s, start, stop) == s[Min(Max(0, start), |s|)..]
    ensures 0 <= start <= stop ==> Range(s, start, stop) == s[Min(start, |s|)..Min(stop + 1, |s|)]
    ensures start < 0 <= stop ==> Range(s, start, stop) == s[..Min(stop - start + 1, |s|)]
    ensures 0 <= stop < start ==> Range(s, start, stop) == []
  {}
}
