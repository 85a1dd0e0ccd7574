/**
  Walking `scan` page by page while the table changes between the pages: by inserts, deletes and expiries, by
  anyone. Each page has its own table, time and page size.
*/
module KvScan {
  import opened Arithmetic
  import opened Wrappers
  import opened KvOps
  import opened Ordering
  import opened SqlLike
  import opened TextOrder

  datatype Visit = Visit(table: Table, now: int, count: real)

  /** The live keys that match the pattern. */
  predicate Selected(v: Visit, pattern: string, key: string) {
    LiveKey(v.table, key, v.now) && Like(Translate(pattern), key)
  }

  function Page(v: Visit, cursor: Option<string>, pattern: string): (Option<string>, seq<string>) {
    AfterScan(v.table, v.now, cursor, v.count, pattern)
  }

  /** The keys a walk returns, page after page, until the cursor is null or the visits run out. */
  function Walked(visits: seq<Visit>, cursor: Option<string>, pattern: string): seq<string>
    decreases |visits|
  {
    if visits == [] then []
    else
      var (next, keys) := Page(visits[0], cursor, pattern);
      keys + if next.None? then [] else Walked(visits[1..], next, pattern)
  }

  /** The walk reaches the null cursor. */
  predicate Ends(visits: seq<Visit>, cursor: Option<string>, pattern: string)
    decreases |visits|
  {
    visits != [] && (Page(visits[0], cursor, pattern).0.None? || Ends(visits[1..], Page(visits[0], cursor, pattern).0, pattern))
  }

  predicate Beyond(cursor: Option<string>, key: string) {
    TextBefore(if cursor.None? then "" else cursor.value, key)
  }

  // ---- one page ----

  ghost predicate PageOk(v: Visit, cursor: Option<string>, pattern: string) {
    var (next, keys) := Page(v, cursor, pattern);
    && Ascending(keys, TextBefore)
    && (forall k :: k in keys ==> Selected(v, pattern, k) && Beyond(cursor, k))
    && (next.None? ==> forall k :: Selected(v, pattern, k) && Beyond(cursor, k) ==> k in keys)
    && (next.Some? ==> keys != [] && next.value == keys[|keys| - 1])
    && (next.Some? ==> forall k :: Selected(v, pattern, k) && Beyond(cursor, k) ==> k in keys || TextBefore(next.value, k))
  }

  lemma InSelectedAfter(v: Visit, cursor: Option<string>, pattern: string, key: string)
    ensures key in SelectedAfter(v.table, v.now, pattern, if cursor.None? then "" else cursor.value, true)
      <==> Selected(v, pattern, key) && Beyond(cursor, key)
  {}

  /** A page is the beginning of what is selected beyond the cursor; a null cursor means it is all of it. */
  lemma PageIsPrefix(v: Visit, cursor: Option<string>, pattern: string)
    ensures PageOk(v, cursor, pattern)
  {
    hide SelectedAfter, Selected, Beyond, TextBefore, SortedKeys, StrictTotalOrder;
    var sel := SelectedAfter(v.table, v.now, pattern, if cursor.None? then "" else cursor.value, true);
    var sorted := SortedKeys(sel);
    SortedKeysFacts(sel);
    var (next, keys) := Page(v, cursor, pattern);
    assert keys <= sorted;
    forall k ensures k in sel <==> Selected(v, pattern, k) && Beyond(cursor, k) { InSelectedAfter(v, cursor, pattern, k); }
    forall k | k in keys ensures k in sel { assert k in Elements(sorted); }
    forall k | k in sel ensures k in keys || (next.Some? && TextBefore(next.value, k)) {
      assert k in Elements(sorted);
      var i :| 0 <= i < |sorted| && sorted[i] == k;
      if i < |keys| { assert keys[i] == k; } else { assert TextBefore(sorted[|keys| - 1], sorted[i]); }
    }
  }

  // ---- walks ----

  lemma BeyondNext(cursor: Option<string>, next: string, key: string)
    requires Beyond(cursor, next) && TextBefore(next, key)
    ensures Beyond(cursor, key)
  {
    Transitive(if cursor.None? then "" else cursor.value, next, key);
  }

  lemma Joined(a: seq<string>, b: seq<string>)
    requires Ascending(a, TextBefore) && Ascending(b, TextBefore)
    requires a != [] && forall k :: k in b ==> TextBefore(a[|a| - 1], k)
    ensures Ascending(a + b, TextBefore)
  {
    hide TextBefore;
    forall i, j | 0 <= i < j < |a + b| ensures TextBefore((a + b)[i], (a + b)[j]) {
      if i < |a| <= j {
        assert b[j - |a|] in b;
        if i < |a| - 1 { Transitive(a[i], a[|a| - 1], b[j - |a|]); }
      } else if i >= |a| {
        assert TextBefore(b[i - |a|], b[j - |a|]);
      }
    }
  }

  /** However the table changes, a walk returns its keys in strictly increasing order. */
  lemma {:induction false} WalkAscends(visits: seq<Visit>, cursor: Option<string>, pattern: string)
    ensures Ascending(Walked(visits, cursor, pattern), TextBefore)
    ensures Ascending(Walked(visits, cursor, pattern), Precedes)
    ensures forall k :: k in Walked(visits, cursor, pattern) ==> Beyond(cursor, k)
    decreases |visits|
  {
    hide TextBefore, Precedes, Page, Selected, Beyond;
    if visits != [] {
      PageIsPrefix(visits[0], cursor, pattern);
      var (next, keys) := Page(visits[0], cursor, pattern);
      if next.Some? {
        var rest := Walked(visits[1..], next, pattern);
        WalkAscends(visits[1..], next, pattern);
        forall k | k in rest ensures TextBefore(next.value, k) && Beyond(cursor, k) {
          NextIsBefore(next, k);
          BeyondNext(cursor, next.value, k);
        }
        Joined(keys, rest);
      }
    }
    AscendingPrecede(Walked(visits, cursor, pattern));
  }

  lemma NextIsBefore(next: Option<string>, key: string)
    requires next.Some? && Beyond(next, key)
    ensures TextBefore(next.value, key)
  {}

  /** No key is returned twice, and the empty key never. */
  lemma NoKeyTwice(visits: seq<Visit>, pattern: string)
    ensures var keys := Walked(visits, None, pattern);
      (forall i, j :: 0 <= i < j < |keys| ==> keys[i] != keys[j]) && "" !in keys
  {
    hide Walked;
    WalkAscends(visits, None, pattern);
    TextOrderIsTotal();
    AscendingIsDistinct(Walked(visits, None, pattern), TextBefore);
  }

  /** Every returned key was live and matching when its page was read. */
  lemma {:induction false} ReturnedWasSelected(visits: seq<Visit>, cursor: Option<string>, pattern: string, key: string) returns (at: nat)
    requires key in Walked(visits, cursor, pattern)
    ensures at < |visits| && Selected(visits[at], pattern, key)
    decreases |visits|
  {
    hide TextBefore, Page, Selected, Beyond;
    PageIsPrefix(visits[0], cursor, pattern);
    var (next, keys) := Page(visits[0], cursor, pattern);
    if key in keys {
      at := 0;
    } else {
      at := ReturnedWasSelected(visits[1..], next, pattern, key);
      at := at + 1;
    }
  }

  /** A finished walk returns every key beyond its cursor that was live and matching at every page. */
  lemma {:induction false} StableKeyIsReturned(visits: seq<Visit>, cursor: Option<string>, pattern: string, key: string)
    requires Ends(visits, cursor, pattern) && Beyond(cursor, key)
    requires forall i :: 0 <= i < |visits| ==> Selected(visits[i], pattern, key)
    ensures key in Walked(visits, cursor, pattern)
    decreases |visits|
  {
    hide TextBefore, Page, Selected, Beyond;
    PageIsPrefix(visits[0], cursor, pattern);
    var (next, keys) := Page(visits[0], cursor, pattern);
    if next.Some? && key !in keys {
      BeyondSome(next, key);
      StableKeyIsReturned(visits[1..], next, pattern, key);
    }
  }

  lemma BeyondSome(next: Option<string>, key: string)
    requires next.Some? && TextBefore(next.value, key)
    ensures Beyond(next, key)
  {}

  /** Scan completeness: from null to null, every non-empty key live and matching throughout is returned exactly once. */
  lemma ScanIsComplete(visits: seq<Visit>, pattern: string, key: string)
    requires Ends(visits, None, pattern) && key != ""
    requires forall i :: 0 <= i < |visits| ==> Selected(visits[i], pattern, key)
    ensures multiset(Walked(visits, None, pattern))[key] == 1
  {
    hide Walked, Ends, Selected;
    StableKeyIsReturned(visits, None, pattern, key);
    NoKeyTwice(visits, pattern);
    var keys := Walked(visits, None, pattern);
    var i :| 0 <= i < |keys| && keys[i] == key;
    assert keys == keys[..i] + [key] + keys[i + 1..];
    assert key !in keys[..i] && key !in keys[i + 1..];
  }

  // ---- a static table ----

  function Left(v: Visit, cursor: Option<string>, pattern: string): set<string> {
    SelectedAfter(v.table, v.now, pattern, if cursor.None? then "" else cursor.value, true)
  }

  lemma PageTakesLimit(v: Visit, cursor: Option<string>, pattern: string)
    ensures var (next, keys) := Page(v, cursor, pattern);
      && (next.Some? <==> |Left(v, cursor, pattern)| >= PageSize(v.count))
      && (next.Some? ==> |Left(v, next, pattern)| == |Left(v, cursor, pattern)| - PageSize(v.count))
  {
    hide SelectedAfter, Selected, Beyond, TextBefore, SortedKeys, StrictTotalOrder, PageSize;
    var sel := Left(v, cursor, pattern);
    SortedKeysFacts(sel);
    var (next, keys) := Page(v, cursor, pattern);
    if next.Some? {
      PageIsPrefix(v, cursor, pattern);
      forall k ensures k in Left(v, next, pattern) <==> k in sel && k !in keys {
        InSelectedAfter(v, cursor, pattern, k);
        InSelectedAfter(v, next, pattern, k);
        if Selected(v, pattern, k) {
          if TextBefore(next.value, k) { BeyondNext(cursor, next.value, k); BeyondSome(next, k); NotBefore(keys, k); }
          if Beyond(next, k) { NextIsBefore(next, k); BeyondNext(cursor, next.value, k); NotBefore(keys, k); }
        }
      }
      assert Left(v, next, pattern) == sel - Elements(keys);
      forall k | k in keys ensures k in sel { InSelectedAfter(v, cursor, pattern, k); }
      TextOrderIsTotal();
      AscendingIsDistinct(keys, TextBefore);
      DistinctCount(keys);
      assert Elements(keys) <= sel;
    }
  }

  lemma NotBefore(keys: seq<string>, k: string)
    requires keys != [] && Ascending(keys, TextBefore) && TextBefore(keys[|keys| - 1], k)
    ensures k !in keys
  {
    hide TextBefore;
    forall i | 0 <= i < |keys| ensures keys[i] != k {
      Irreflexive(k);
      if i < |keys| - 1 { Transitive(keys[i], keys[|keys| - 1], k); }
    }
  }

  lemma {:induction false} DistinctCount(s: seq<string>)
    requires forall i, j :: 0 <= i < j < |s| ==> s[i] != s[j]
    ensures |Elements(s)| == |s|
  {
    if s != [] {
      DistinctCount(s[1..]);
      assert Elements(s) == {s[0]} + Elements(s[1..]);
    }
  }

  /** On a static table a walk with pages of size p ends after exactly floor(left / p) + 1 pages. */
  lemma {:induction false} StaticWalkEnds(v: Visit, n: nat, cursor: Option<string>, pattern: string)
    ensures Ends(seq(n, _ => v), cursor, pattern) <==> n >= |Left(v, cursor, pattern)| / PageSize(v.count) + 1
    decreases n
  {
    hide Page, Left, PageSize;
    var visits := seq(n, _ => v);
    if n > 0 {
      assert visits[0] == v && visits[1..] == seq(n - 1, _ => v);
      PageTakesLimit(v, cursor, pattern);
      var next := Page(v, cursor, pattern).0;
      PageTake(|Left(v, cursor, pattern)|, PageSize(v.count));
      if next.Some? { StaticWalkEnds(v, n - 1, next, pattern); }
    } else {
      PageTake(|Left(v, cursor, pattern)|, PageSize(v.count));
    }
  }

  lemma PageTake(left: nat, p: nat)
    requires p >= 1
    ensures left / p >= 0
    ensures left >= p ==> left / p == (left - p) / p + 1
    ensures left < p ==> left / p == 0
  {
    if left >= p { Quotient(left, p); }
  }

  lemma Quotient(left: nat, p: nat)
    requires p >= 1 && left >= p
    ensures left / p == (left - p) / p + 1
  {
    var q := (left - p) / p;
    assert q * p <= left - p < q * p + p;
    DivisionIsUnique(left, p, q + 1);
  }
}
