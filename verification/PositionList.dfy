/**
  Lists stored as position-keyed rows: a right push takes positions base, base+1, ... and a left push
  -(base+n), ..., -(base+1), where base is the clock. Rows are read ORDER BY position, id.
*/
module PositionList {
  import opened Wrappers
  import opened Ordering

  type Value = string

  /** What the list queries order by. Ids are unique, so a place identifies a row. */
  datatype Place = Place(position: int, id: int)

  datatype Cell = Cell(key: string, value: Value, expiresAt: Option<int>)

  type Rows = map<Place, Cell>

  datatype Side = Left | Right

  predicate Before(a: Place, b: Place) {
    a.position < b.position || (a.position == b.position && a.id < b.id)
  }

  lemma BeforeIsTotal()
    ensures StrictTotalOrder(Before)
  {
  }

  predicate Live(c: Cell, now: int) {
    c.expiresAt.None? || c.expiresAt.value > now
  }

  function Of(rows: Rows, key: string): set<Place> {
    set p | p in rows && rows[p].key == key
  }

  function Visible(rows: Rows, key: string, now: int): set<Place> {
    set p | p in rows && rows[p].key == key && Live(rows[p], now)
  }

  function Ordered(places: set<Place>): (s: seq<Place>)
    ensures forall p :: p in s <==> p in places
    ensures forall i :: 0 <= i < |s| ==> s[i] in places
    ensures |s| == |places|
  {
    BeforeIsTotal();
    OrderByIsSorted(places, Before);
    assert forall p :: p in OrderBy(places, Before) <==> p in Elements(OrderBy(places, Before));
    OrderBy(places, Before)
  }

  function Values(rows: Rows, places: seq<Place>): seq<Value>
    requires forall p :: p in places ==> p in rows
  {
    seq(|places|, i requires 0 <= i < |places| => rows[places[i]].value)
  }

  /** MAX(expires_at) over a list of rows, NULLs ignored. */
  function MaxExpiry(rows: Rows, places: seq<Place>): Option<int>
    requires forall p :: p in places ==> p in rows
  {
    if places == [] then None
    else
      var rest := MaxExpiry(rows, places[1..]);
      var e := rows[places[0]].expiresAt;
      if e.None? then rest else if rest.None? || e.value > rest.value then e else rest
  }

  /** It is the latest expiry among the rows that have one, and none exactly if no row has one. */
  lemma {:induction false} MaxExpiryIsLatest(rows: Rows, places: seq<Place>)
    requires forall p :: p in places ==> p in rows
    ensures var max := MaxExpiry(rows, places);
      && (max.Some? ==> exists p :: p in places && rows[p].expiresAt == max)
      && forall p :: p in places && rows[p].expiresAt.Some? ==> max.Some? && rows[p].expiresAt.value <= max.value
  {
    if places != [] { MaxExpiryIsLatest(rows, places[1..]); }
  }

  /** The place of value `index` in a push of `n` values at clock `base`. */
  function PlaceOf(side: Side, base: int, n: nat, index: nat, firstId: int): Place {
    Place(if side.Left? then -(base + n - index) else base + index, firstId + index)
  }

  function NewPlaces(side: Side, base: int, n: nat, firstId: int): seq<Place> {
    seq(n, i requires 0 <= i < n => PlaceOf(side, base, n, i, firstId))
  }

  function Inserted(rows: Rows, key: string, values: seq<Value>, places: seq<Place>, expiry: Option<int>): Rows
    requires |values| == |places|
  {
    if values == [] then rows
    else Inserted(rows, key, values[..|values| - 1], places[..|places| - 1], expiry)
           [places[|places| - 1] := Cell(key, values[|values| - 1], expiry)]
  }

  function Pushed(rows: Rows, nextId: int, key: string, side: Side, values: seq<Value>, now: int): Rows {
    Inserted(rows, key, values, NewPlaces(side, now, |values|, nextId), MaxExpiry(rows, Ordered(Of(rows, key))))
  }

  function Min(a: int, b: int): int { if a < b then a else b }

  /** The rows a pop takes: the first `n` ascending, or the first `n` descending. */
  function Picked(rows: Rows, key: string, side: Side, n: int, now: int): (s: seq<Place>)
    requires n >= 1
    ensures forall p :: p in s ==> p in rows
  {
    var all := Ordered(Visible(rows, key, now));
    var m := Min(n, |all|);
    assert forall i :: 0 <= i < |all| ==> all[i] in Visible(rows, key, now);
    var s := if side.Left? then all[..m] else seq(m, i requires 0 <= i < m => all[|all| - 1 - i]);
    assert forall i :: 0 <= i < m ==> s[i] in rows;
    s
  }

  function Without(rows: Rows, places: seq<Place>): Rows {
    map p | p in rows && p !in places :: rows[p]
  }

  /** OFFSET/LIMIT of `lrange`; a negative `stop` means no limit. */
  function Range(s: seq<Value>, start: int, stop: int): seq<Value> {
    var offset := if start < 0 then 0 else start;
    var rest := if offset <= |s| then s[offset..] else [];
    if stop < 0 then rest
    else
      var limit := if stop - start + 1 < 0 then 0 else stop - start + 1;
      rest[..Min(limit, |rest|)]
  }

  /** The value list of `key` as `lrange` sees it at `now`. */
  function Contents(rows: Rows, key: string, now: int): seq<Value> {
    Values(rows, Ordered(Visible(rows, key, now)))
  }

  predicate IdsBelow(rows: Rows, nextId: int) {
    forall p :: p in rows ==> p.id < nextId
  }

  class PgList {
    var rows: Rows
    var nextId: int

    constructor ()
      ensures rows == map[] && nextId == 1
    {
      rows, nextId := map[], 1;
    }

    method Push(key: string, values: seq<Value>, side: Side, now: int) returns (length: nat)
      modifies this
      ensures rows == Pushed(old(rows), old(nextId), key, side, values, now)
      ensures nextId == old(nextId) + |values|
      ensures length == |Contents(rows, key, now)|
    {
      if |values| > 0 {
        var base := now;
        var expiry := MaxExpiry(rows, Ordered(Of(rows, key)));
        ghost var places := NewPlaces(side, base, |values|, nextId);
        ghost var firstId := nextId;
        for index := 0 to |values|
          invariant nextId == firstId + index
          invariant rows == Inserted(old(rows), key, values[..index], places[..index], expiry)
        {
          var position := if side.Left? then -(base + |values| - index) else base + index;
          rows := rows[Place(position, nextId) := Cell(key, values[index], expiry)];
          nextId := nextId + 1;
          assert values[..index + 1][..index] == values[..index] && places[..index + 1][..index] == places[..index];
          assert places[index] == PlaceOf(side, base, |values|, index, firstId);
        }
        assert values[..|values|] == values && places[..|values|] == places;
      }
      length := Llen(key, now);
    }

    method Llen(key: string, now: int) returns (length: nat)
      ensures length == |Contents(rows, key, now)|
    {
      length := |Visible(rows, key, now)|;
    }

    method Pop(key: string, count: real, side: Side, now: int) returns (values: seq<Value>)
      modifies this`rows
      ensures var n := if count.Floor < 1 then 1 else count.Floor;
        && values == Values(old(rows), Picked(old(rows), key, side, n, now))
        && rows == Without(old(rows), Picked(old(rows), key, side, n, now))
    {
      var limit := if count.Floor < 1 then 1 else count.Floor;
      var picked := Picked(rows, key, side, limit, now);
      values := [];
      var snapshot := rows;
      for i := 0 to |picked|
        invariant values == Values(old(rows), picked[..i])
        invariant rows == Without(old(rows), picked[..i])
      {
        assert picked[..i + 1] == picked[..i] + [picked[i]];
        assert picked[i] in picked;
        values := values + [snapshot[picked[i]].value];
        rows := map p | p in rows && p != picked[i] :: rows[p];
      }
      assert picked[..|picked|] == picked;
    }

    method Lrange(key: string, start: int, stop: int, now: int) returns (values: seq<Value>)
      ensures values == Range(Contents(rows, key, now), start, stop)
    {
      values := Range(Values(rows, Ordered(Visible(rows, key, now))), start, stop);
    }

    /** EXPIRE and PERSIST set the expiry of every row of the key, expired rows included. */
    method SetExpiry(key: string, expiresAt: Option<int>) returns (updated: nat)
      modifies this`rows
      ensures rows == WithExpiry(old(rows), key, expiresAt)
      ensures updated == |Of(old(rows), key)|
    {
      updated := |Of(rows, key)|;
      rows := map p | p in rows :: if rows[p].key == key then rows[p].(expiresAt := expiresAt) else rows[p];
    }
  }

  function WithExpiry(rows: Rows, key: string, expiresAt: Option<int>): Rows {
    map p | p in rows :: if rows[p].key == key then rows[p].(expiresAt := expiresAt) else rows[p]
  }

  // ---- one push ----

  lemma {:induction false} InsertedRows(rows: Rows, key: string, values: seq<Value>, places: seq<Place>, expiry: Option<int>)
    requires |values| == |places|
    requires forall i, j :: 0 <= i < j < |places| ==> places[i] != places[j]
    requires forall p :: p in places ==> p !in rows
    ensures var after := Inserted(rows, key, values, places, expiry);
      && (forall p :: p in after <==> p in rows || p in places)
      && (forall p :: p in rows ==> after[p] == rows[p])
      && (forall i :: 0 <= i < |places| ==> after[places[i]] == Cell(key, values[i], expiry))
  {
    if values != [] {
      var n := |values| - 1;
      InsertedRows(rows, key, values[..n], places[..n], expiry);
      assert places == places[..n] + [places[n]];
      forall i | 0 <= i < n
        ensures Inserted(rows, key, values, places, expiry)[places[i]] == Cell(key, values[i], expiry)
      {
        assert places[..n][i] == places[i] && places[i] != places[n];
      }
      assert places[n] in places;
    }
  }

  lemma NewPlacesAscend(side: Side, base: int, n: nat, firstId: int)
    ensures Ascending(NewPlaces(side, base, n, firstId), Before)
    ensures Ordered(Elements(NewPlaces(side, base, n, firstId))) == NewPlaces(side, base, n, firstId)
  {
    BeforeIsTotal();
    var s := NewPlaces(side, base, n, firstId);
    OrderByIsUnique(Elements(s), s, Before);
  }

  /** A right push appends exactly when no row of the list has a position above the clock. */
  lemma RightPushAppendsIff(places: set<Place>, base: int, n: nat, nextId: int)
    requires n >= 1 && forall p :: p in places ==> p.id < nextId
    ensures
      Ordered(places + Elements(NewPlaces(Right, base, n, nextId)))
        == Ordered(places) + NewPlaces(Right, base, n, nextId)
      <==> forall p :: p in places ==> p.position <= base
  {
    hide StrictTotalOrder, OrderBy;
    BeforeIsTotal();
    var s := NewPlaces(Right, base, n, nextId);
    NewPlacesAscend(Right, base, n, nextId);
    OrderByConcatIff(places, Elements(s), Before);
    assert s[0] == Place(base, nextId) && s[0] in Elements(s);
    assert forall b :: b in Elements(s) ==> b.position >= base && b.id >= nextId;
    assert forall a :: a in places && Before(a, s[0]) ==> a.position <= base;
  }

  /** A left push prepends its batch exactly when every row of the list lies above -(clock + 1). */
  lemma LeftPushPrependsIff(places: set<Place>, base: int, n: nat, nextId: int)
    requires n >= 1 && forall p :: p in places ==> p.id < nextId
    ensures
      Ordered(Elements(NewPlaces(Left, base, n, nextId)) + places)
        == NewPlaces(Left, base, n, nextId) + Ordered(places)
      <==> forall p :: p in places ==> -(base + 1) < p.position
  {
    hide StrictTotalOrder, OrderBy;
    BeforeIsTotal();
    var s := NewPlaces(Left, base, n, nextId);
    NewPlacesAscend(Left, base, n, nextId);
    OrderByConcatIff(Elements(s), places, Before);
    assert s[n - 1] == Place(-(base + 1), nextId + n - 1) && s[n - 1] in Elements(s);
    assert forall b :: b in Elements(s) ==> b.position <= -(base + 1) && b.id >= nextId;
    assert forall a :: a in places && Before(s[n - 1], a) ==> -(base + 1) < a.position;
  }

  lemma RightPlaces(base: int, n: nat, firstId: int)
    ensures var a := Elements(NewPlaces(Right, base, n, firstId));
      (forall p :: p in a ==> p.id < firstId + n) && ((forall p :: p in a ==> p.position <= base) <==> n <= 1)
  {
    var a := NewPlaces(Right, base, n, firstId);
    if n >= 2 { assert a[1].position == base + 1 && a[1] in Elements(a); }
  }

  /** Of two right pushes in one millisecond the second is appended exactly if the first had at most one value. */
  lemma CollidingPushesInterleave(base: int, n: nat, m: nat, firstId: int)
    requires m >= 1
    ensures var a, b := NewPlaces(Right, base, n, firstId), NewPlaces(Right, base, m, firstId + n);
      Ordered(Elements(a) + Elements(b)) == a + b <==> n <= 1
  {
    hide Ordered, NewPlaces, Ascending, Elements;
    NewPlacesAscend(Right, base, n, firstId);
    RightPlaces(base, n, firstId);
    RightPushAppendsIff(Elements(NewPlaces(Right, base, n, firstId)), base, m, firstId + n);
  }
}
