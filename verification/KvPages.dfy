/** What `keys` and `scan` answer: which live keys that match the glob, and in which order, read index by index. */
module KvPages {
  import opened Arithmetic
  import opened Wrappers
  import opened KvOps
  import opened Ordering
  import opened SqlLike
  import opened TextOrder

  /** A live key that matches the glob and lies beyond the cursor. */
  ghost predicate Wanted(t: Table, now: int, pattern: string, cursor: Option<string>, key: string) {
    && LiveKey(t, key, now) && Glob(pattern, key)
    && (cursor.Some? && cursor.value != "" ==> Precedes(cursor.value, key))
  }

  /** The answer lists, in order, the first max(1, floor(count)) of the wanted keys, or all of them if there are no more. */
  ghost predicate FirstOf(keys: seq<string>, wanted: string -> bool, count: real) {
    && (forall i, j :: 0 <= i < j < |keys| ==> Precedes(keys[i], keys[j]))
    && (forall k :: k in keys ==> wanted(k))
    && |keys| <= Max(1, count.Floor)
    && (forall k :: wanted(k) && k !in keys ==> |keys| == Max(1, count.Floor) && forall l :: l in keys ==> Precedes(l, k))
  }

  /** The first keys of a sorted set. */
  lemma FirstOfSorted(sel: set<string>, keys: seq<string>, wanted: string -> bool, count: real)
    requires var sorted := SortedKeys(sel);
      keys == if |sorted| <= PageSize(count) then sorted else sorted[..PageSize(count)]
    requires forall k :: k in sel <==> wanted(k)
    ensures FirstOf(keys, wanted, count)
    ensures |keys| == if |sel| <= Max(1, count.Floor) then |sel| else Max(1, count.Floor)
  {
    hide Precedes, TextBefore, SortedKeys;
    var sorted := SortedKeys(sel);
    SortedKeysFacts(sel);
    forall k | k in keys ensures wanted(k) { assert k in Elements(sorted); }
    forall k | wanted(k) && k !in keys
      ensures |keys| == Max(1, count.Floor) && forall l :: l in keys ==> Precedes(l, k)
    {
      assert k in Elements(sorted);
      var rest := sorted[|keys|..];
      assert sorted == keys + rest;
      var j :| 0 <= j < |rest| && rest[j] == k;
      forall l | l in keys ensures Precedes(l, k) {
        var i :| 0 <= i < |keys| && keys[i] == l;
        assert sorted[i] == l && sorted[|keys| + j] == k;
      }
    }
  }

  lemma EmptyPrecedesRest(key: string)
    ensures TextBefore("", key) <==> key != ""
  {}

  /** keys(pattern): the first live keys that match. */
  lemma KeysAreFirst(t: Table, now: int, pattern: string, limit: real)
    ensures FirstOf(AfterKeys(t, now, pattern, limit), k => Wanted(t, now, pattern, None, k), limit)
  {
    hide Like, Glob, Translate, FirstOf;
    forall k ensures k in SelectedAfter(t, now, pattern, "", false) <==> Wanted(t, now, pattern, None, k) {
      TranslationPreservesMeaning(pattern, k);
    }
    FirstOfSorted(SelectedAfter(t, now, pattern, "", false), AfterKeys(t, now, pattern, limit), k => Wanted(t, now, pattern, None, k), limit);
  }

  /**
    scan: the first live keys that match beyond the cursor, other than the empty key; the next cursor is the last key of
    a full page and null otherwise.
  */
  lemma PageIsFirst(t: Table, now: int, cursor: Option<string>, count: real, pattern: string)
    ensures var (next, keys) := AfterScan(t, now, cursor, count, pattern);
      && FirstOf(keys, k => k != "" && Wanted(t, now, pattern, cursor, k), count)
      && (next.Some? <==> |keys| == Max(1, count.Floor))
      && (next.Some? ==> next.value == keys[|keys| - 1])
  {
    hide Like, Glob, Translate, FirstOf, TextBefore, Precedes, SortedKeys;
    var after := if cursor.None? then "" else cursor.value;
    var sel := SelectedAfter(t, now, pattern, after, true);
    forall k ensures k in sel <==> k != "" && Wanted(t, now, pattern, cursor, k) {
      TranslationPreservesMeaning(pattern, k);
      TextBeforeIsPrecedes(after, k);
      EmptyPrecedesRest(k);
      NothingPrecedesEmpty(after);
    }
    FirstOfSorted(sel, AfterScan(t, now, cursor, count, pattern).1, k => k != "" && Wanted(t, now, pattern, cursor, k), count);
  }

  lemma NothingPrecedesEmpty(a: string)
    ensures !Precedes(a, "")
  {}
}
