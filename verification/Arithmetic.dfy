/** Arithmetic and counting facts the other modules share. */
module Arithmetic {
  function Max(a: int, b: int): int { if a < b then b else a }

  lemma Stretch(a: int, b: int, d: int)
    requires a <= b && d >= 1
    ensures a * d <= b * d
  {
  }

  lemma DivisionIsUnique(t: int, d: int, q: int)
    requires d >= 1 && q * d <= t < q * d + d
    ensures t / d == q
  {
    var p := t / d;
    assert p * d <= t < p * d + d;
    if p < q { Stretch(p + 1, q, d); }
    if q < p { Stretch(q + 1, p, d); }
  }

  lemma SubsetSize<T>(a: set<T>, b: set<T>)
    requires a <= b
    ensures |a| <= |b|
  {
    assert b == a + (b - a);
  }
}
