/** The order of text keys: code point by code point, a prefix first (the C collation). */
module TextOrder {
  import opened Ordering

  predicate TextBefore(a: string, b: string) {
    if b == "" then false
    else if a == "" then true
    else a[0] < b[0] || (a[0] == b[0] && TextBefore(a[1..], b[1..]))
  }

  /** The order by index: at the first place where they differ a ends or holds the smaller unit. */
  predicate Precedes(a: string, b: string) {
    exists i :: 0 <= i <= |a| && PrecedesAt(a, b, i)
  }

  predicate PrecedesAt(a: string, b: string, i: nat)
    requires i <= |a|
  {
    i < |b| && a[..i] == b[..i] && (i == |a| || a[i] < b[i])
  }

  lemma {:induction false} TextBeforeIsPrecedes(a: string, b: string)
    ensures TextBefore(a, b) <==> Precedes(a, b)
  {
    if a == "" || b == "" || a[0] != b[0] {
      assert b != "" && (a == "" || a[0] < b[0]) ==> PrecedesAt(a, b, 0);
      if Precedes(a, b) {
        var i: nat :| i <= |a| && PrecedesAt(a, b, i);
        assert i > 0 ==> a[..i][0] == a[0];
      }
    } else {
      TextBeforeIsPrecedes(a[1..], b[1..]);
      if TextBefore(a, b) {
        var i: nat :| i <= |a| - 1 && PrecedesAt(a[1..], b[1..], i);
        assert a[..i + 1] == [a[0]] + a[1..][..i] && b[..i + 1] == [b[0]] + b[1..][..i];
        assert PrecedesAt(a, b, i + 1);
      }
      if Precedes(a, b) {
        var i: nat :| i <= |a| && PrecedesAt(a, b, i);
        assert a[1..][..i - 1] == a[..i][1..] && b[1..][..i - 1] == b[..i][1..];
        assert PrecedesAt(a[1..], b[1..], i - 1);
      }
    }
  }

  lemma {:induction false} Irreflexive(a: string)
    ensures !TextBefore(a, a)
  {
    if a != "" { Irreflexive(a[1..]); }
  }

  lemma {:induction false} Transitive(a: string, b: string, c: string)
    requires TextBefore(a, b) && TextBefore(b, c)
    ensures TextBefore(a, c)
  {
    if a != "" && a[0] == b[0] == c[0] { Transitive(a[1..], b[1..], c[1..]); }
  }

  lemma {:induction false} Total(a: string, b: string)
    ensures a == b || TextBefore(a, b) || TextBefore(b, a)
  {
    if a != "" && b != "" && a[0] == b[0] {
      Total(a[1..], b[1..]);
      assert a == [a[0]] + a[1..] && b == [b[0]] + b[1..];
    }
  }

  lemma TextOrderIsTotal()
    ensures StrictTotalOrder(TextBefore)
  {
    forall a ensures !TextBefore(a, a) { Irreflexive(a); }
    forall a, b, c | TextBefore(a, b) && TextBefore(b, c) ensures TextBefore(a, c) { Transitive(a, b, c); }
    forall a, b ensures a == b || TextBefore(a, b) || TextBefore(b, a) { Total(a, b); }
  }

  /** ORDER BY key ASC. */
  function SortedKeys(keys: set<string>): seq<string> {
    TextOrderIsTotal();
    OrderBy(keys, TextBefore)
  }

  lemma SortedKeysFacts(keys: set<string>)
    ensures Ascending(SortedKeys(keys), TextBefore)
    ensures Ascending(SortedKeys(keys), Precedes)
    ensures Elements(SortedKeys(keys)) == keys
    ensures |SortedKeys(keys)| == |keys|
  {
    TextOrderIsTotal();
    OrderByIsSorted(keys, TextBefore);
    AscendingPrecede(SortedKeys(keys));
  }

  lemma AscendingPrecede(keys: seq<string>)
    requires Ascending(keys, TextBefore)
    ensures Ascending(keys, Precedes)
  {
    forall i, j | 0 <= i < j < |keys| ensures Precedes(keys[i], keys[j]) { TextBeforeIsPrecedes(keys[i], keys[j]); }
  }
}
