/**
  Advisory-lock keys: the 32-bit FNV-1a hash of a string's UTF-16 units, and the arguments a lock key
  is turned into. A JavaScript `>>> 0` value is a Word; `| 0` reads an integer as a signed 32-bit one.
*/
module AdvisoryKeys {
  import opened Wrappers

  type Word = w: int | 0 <= w < WORDS
  type CodeUnit = u: int | 0 <= u < 0x1_0000

  const WORDS: int := 0x1_0000_0000
  const FNV_PRIME: int := 16777619
  const FNV_PRIME_INVERSE: int := 899433627
  const FIRST_SEED: Word := 2166136261
  const SECOND_SEED: Word := XorWord(FIRST_SEED, 0x9e3779b9)

  /** Bitwise exclusive or, lowest bit first. */
  function Xor(a: nat, b: nat): nat
    decreases a + b
  {
    if a == 0 && b == 0 then 0 else 2 * Xor(a / 2, b / 2) + (a + b) % 2
  }

  function PowerOfTwo(k: nat): nat {
    if k == 0 then 1 else 2 * PowerOfTwo(k - 1)
  }

  lemma {:induction false} XorBound(a: nat, b: nat, k: nat)
    requires a < PowerOfTwo(k) && b < PowerOfTwo(k)
    ensures Xor(a, b) < PowerOfTwo(k)
  {
    if k > 0 {
      XorBound(a / 2, b / 2, k - 1);
    }
  }

  lemma WordsIsPowerOfTwo()
    ensures PowerOfTwo(32) == WORDS
  {
    assert PowerOfTwo(8) == 0x100;
    assert PowerOfTwo(16) == 0x1_0000;
    assert PowerOfTwo(24) == 0x100_0000;
  }

  lemma XorDigits(a: nat, b: nat)
    ensures Xor(a, b) / 2 == Xor(a / 2, b / 2)
    ensures Xor(a, b) % 2 == (a + b) % 2
  {
  }

  lemma SameDigits(a: nat, b: nat)
    requires a / 2 == b / 2 && a % 2 == b % 2
    ensures a == b
  {
  }

  lemma ParityCancels(x: nat, a: nat, b: nat)
    requires x % 2 == (a + b) % 2
    ensures (x + b) % 2 == a % 2
  {
  }

  lemma XorNothing()
    ensures Xor(0, 0) == 0
  {
  }

  /** Exclusive or with the same value twice changes nothing. */
  lemma {:induction false} XorTwice(a: nat, b: nat)
    ensures Xor(Xor(a, b), b) == a
    decreases a + b
  {
    hide Xor;
    if a == 0 && b == 0 {
      XorNothing();
    } else {
      XorTwice(a / 2, b / 2);
      XorDigits(a, b);
      XorDigits(Xor(a, b), b);
      ParityCancels(Xor(a, b), a, b);
      SameDigits(Xor(Xor(a, b), b), a);
    }
  }

  lemma {:induction false} XorCommutes(a: nat, b: nat)
    ensures Xor(a, b) == Xor(b, a)
    decreases a + b
  {
    if a != 0 || b != 0 {
      XorCommutes(a / 2, b / 2);
    }
  }

  /** JavaScript's `(hash ^ other) >>> 0` on unsigned words. */
  function XorWord(hash: Word, other: Word): Word {
    WordsIsPowerOfTwo();
    XorBound(hash, other, 32);
    Xor(hash, other)
  }

  /** One step of the hash loop: exclusive or, then the low 32 bits of the product. */
  function Round(hash: Word, unit: CodeUnit): Word {
    XorWord(hash, unit) * FNV_PRIME % WORDS
  }

  /** The hash word after all the units, before it is read as a signed integer. */
  function HashWord(input: seq<CodeUnit>, seed: Word): Word {
    if input == [] then seed else Round(HashWord(input[..|input| - 1], seed), input[|input| - 1])
  }

  /** JavaScript's `value | 0` on an integer. */
  function ToInt32(value: int): (r: int)
    ensures -0x8000_0000 <= r < 0x8000_0000
    ensures (r - value) % WORDS == 0
  {
    var word := value % WORDS;
    if word < 0x8000_0000 then word else word - WORDS
  }

  method Fnv1a32(input: seq<CodeUnit>, seed: Word) returns (r: int)
    ensures r == ToInt32(HashWord(input, seed))
  {
    var hash := seed;
    for index := 0 to |input|
      invariant hash == HashWord(input[..index], seed)
    {
      assert input[..index + 1][..index] == input[..index];
      hash := XorWord(hash, input[index]);
      hash := hash * FNV_PRIME % WORDS;
    }
    assert input[..|input|] == input;
    r := ToInt32(hash);
  }

  /** The word before `unit` was absorbed. */
  function Unround(hash: Word, unit: CodeUnit): Word {
    XorWord(hash * FNV_PRIME_INVERSE % WORDS, unit)
  }

  /** Multiplying by the FNV prime modulo 2^32 is undone by multiplying by its inverse. */
  lemma PrimeIsInvertible(x: Word)
    ensures (x * FNV_PRIME % WORDS) * FNV_PRIME_INVERSE % WORDS == x
    ensures (x * FNV_PRIME_INVERSE % WORDS) * FNV_PRIME % WORDS == x
  {
    ProductWraps(x, FNV_PRIME, FNV_PRIME_INVERSE);
    ProductWraps(x, FNV_PRIME_INVERSE, FNV_PRIME);
  }

  lemma ProductWraps(x: Word, a: int, b: int)
    requires a * b == 1 + 3513497 * WORDS
    ensures (x * a % WORDS) * b % WORDS == x
  {
    var q, r := x * a / WORDS, x * a % WORDS;
    calc {
      r * b;
      (x * a - q * WORDS) * b;
      x * (a * b) - q * b * WORDS;
      x + (x * 3513497 - q * b) * WORDS;
    }
    ModuloIsUnique(r * b, x * 3513497 - q * b, x);
  }

  lemma ModuloIsUnique(n: int, k: int, x: Word)
    requires n == x + k * WORDS
    ensures n % WORDS == x
  {
  }

  /** Each round permutes the 32-bit words, whatever unit it absorbs. */
  lemma RoundIsBijective(hash: Word, unit: CodeUnit)
    ensures Unround(Round(hash, unit), unit) == hash
    ensures Round(Unround(hash, unit), unit) == hash
  {
    PrimeIsInvertible(XorWord(hash, unit));
    XorTwice(hash, unit);
    PrimeIsInvertible(hash);
    XorTwice(hash * FNV_PRIME_INVERSE % WORDS, unit);
  }

  /** Different units take the same word to different words. */
  lemma RoundSeparatesUnits(hash: Word, a: CodeUnit, b: CodeUnit)
    requires a != b
    ensures Round(hash, a) != Round(hash, b)
  {
    PrimeIsInvertible(XorWord(hash, a));
    PrimeIsInvertible(XorWord(hash, b));
    XorTwice(a, hash);
    XorTwice(b, hash);
    XorCommutes(hash, a);
    XorCommutes(hash, b);
  }

  lemma SeedsDiffer()
    ensures FIRST_SEED != SECOND_SEED
  {
    XorCommutes(FIRST_SEED, 0x9e3779b9);
    XorTwice(0x9e3779b9, FIRST_SEED);
    XorTwice(0, FIRST_SEED);
    XorCommutes(0, FIRST_SEED);
    XorZero(FIRST_SEED);
  }

  lemma {:induction false} XorZero(a: nat)
    ensures Xor(a, 0) == a
  {
    if a != 0 { XorZero(a / 2); }
  }

  /** Absorbing the same units keeps different words different, and equal words equal. */
  lemma {:induction false} HashKeepsWordsApart(input: seq<CodeUnit>, s: Word, t: Word)
    ensures HashWord(input, s) == HashWord(input, t) <==> s == t
  {
    if input != [] {
      var front, unit := input[..|input| - 1], input[|input| - 1];
      HashKeepsWordsApart(front, s, t);
      RoundIsBijective(HashWord(front, s), unit);
      RoundIsBijective(HashWord(front, t), unit);
    }
  }

  lemma {:induction false} HashOfConcat(a: seq<CodeUnit>, b: seq<CodeUnit>, seed: Word)
    ensures HashWord(a + b, seed) == HashWord(b, HashWord(a, seed))
    decreases |b|
  {
    if b == [] {
      assert a + b == a;
    } else {
      assert (a + b)[..|a + b| - 1] == a + b[..|b| - 1];
      HashOfConcat(a, b[..|b| - 1], seed);
    }
  }

  lemma WordsAndIntegers(a: Word, b: Word)
    ensures ToInt32(a) == ToInt32(b) <==> a == b
  {
  }

  /** A lock key, after JavaScript's type tests. Numbers are reals: they may be fractional. */
  datatype LockKey =
    | PairKey(first: real, second: real)
    | BigIntKey(big: int)
    | NumberKey(number: real)
    | StringKey(units: seq<CodeUnit>)

  datatype LockArgs = TwoInts(first: int, second: int) | OneBigint(value: int)

  const MAX_SAFE_INTEGER: int := 9007199254740991

  /** Math.trunc: towards zero, as `| 0` does before it wraps. */
  function Trunc(x: real): int { if x >= 0.0 then x.Floor else -((-x).Floor) }

  predicate IsSafeInteger(x: real) {
    x == x.Floor as real && -(MAX_SAFE_INTEGER as real) <= x <= MAX_SAFE_INTEGER as real
  }

  function KeyArgs(key: LockKey): Result<LockArgs> {
    match key
    case PairKey(a, b) => Ok(TwoInts(ToInt32(Trunc(a)), ToInt32(Trunc(b))))
    case BigIntKey(b) => Ok(OneBigint(b))
    case NumberKey(x) => if IsSafeInteger(x) then Ok(OneBigint(Trunc(x))) else Err("Invalid advisory lock number key")
    case StringKey(s) =>
      Ok(TwoInts(ToInt32(HashWord(s, FIRST_SEED)), ToInt32(HashWord(s, SECOND_SEED))))
  }

  method AdvisoryLockKeyToSqlArgs(key: LockKey) returns (args: Result<LockArgs>)
    ensures args == KeyArgs(key)
  {
    match key {
      case PairKey(a, b) => args := Ok(TwoInts(ToInt32(Trunc(a)), ToInt32(Trunc(b))));
      case BigIntKey(b) => args := Ok(OneBigint(b));
      case NumberKey(x) =>
        if !IsSafeInteger(x) {
          return Err("Invalid advisory lock number key");
        }
        args := Ok(OneBigint(Trunc(x)));
      case StringKey(s) =>
        var a := Fnv1a32(s, FIRST_SEED);
        var b := Fnv1a32(s, SECOND_SEED);
        args := Ok(TwoInts(a, b));
    }
  }

  /** The two integers of a string key are never equal. */
  lemma StringComponentsDiffer(units: seq<CodeUnit>)
    ensures KeyArgs(StringKey(units)).Ok?
    ensures KeyArgs(StringKey(units)).value.first != KeyArgs(StringKey(units)).value.second
  {
    SeedsDiffer();
    HashKeepsWordsApart(units, FIRST_SEED, SECOND_SEED);
    WordsAndIntegers(HashWord(units, FIRST_SEED), HashWord(units, SECOND_SEED));
  }

  /** Replacing exactly one unit of a string changes its hash under every seed. */
  lemma OneUnitChangesHash(front: seq<CodeUnit>, a: CodeUnit, b: CodeUnit, back: seq<CodeUnit>, seed: Word)
    requires a != b
    ensures HashWord(front + [a] + back, seed) != HashWord(front + [b] + back, seed)
  {
    HashOfConcat(front + [a], back, seed);
    HashOfConcat(front + [b], back, seed);
    assert (front + [a])[..|front|] == front && (front + [b])[..|front|] == front;
    RoundSeparatesUnits(HashWord(front, seed), a, b);
    HashKeepsWordsApart(back, HashWord(front + [a], seed), HashWord(front + [b], seed));
  }

  /** Two strings of one length that differ in exactly one unit differ in both integers of their keys. */
  lemma OneUnitChangesBothComponents(s: seq<CodeUnit>, t: seq<CodeUnit>, at: nat)
    requires |s| == |t| && at < |s| && s[at] != t[at]
    requires forall i :: 0 <= i < |s| && i != at ==> s[i] == t[i]
    ensures KeyArgs(StringKey(s)).value.first != KeyArgs(StringKey(t)).value.first
    ensures KeyArgs(StringKey(s)).value.second != KeyArgs(StringKey(t)).value.second
  {
    var front, back := s[..at], s[at + 1..];
    assert s == front + [s[at]] + back && t == front + [t[at]] + back;
    OneUnitChangesHash(front, s[at], t[at], back, FIRST_SEED);
    OneUnitChangesHash(front, s[at], t[at], back, SECOND_SEED);
    WordsAndIntegers(HashWord(s, FIRST_SEED), HashWord(t, FIRST_SEED));
    WordsAndIntegers(HashWord(s, SECOND_SEED), HashWord(t, SECOND_SEED));
  }

  /** Two pair keys take the same lock exactly when their integer parts agree modulo 2^32 in both places. */
  lemma PairKeysCollideModuloWords(a: real, b: real, c: real, d: real)
    ensures KeyArgs(PairKey(a, b)) == KeyArgs(PairKey(c, d))
      <==> (Trunc(a) - Trunc(c)) % WORDS == 0 && (Trunc(b) - Trunc(d)) % WORDS == 0
  {
    hide ToInt32, Trunc;
    SameInt32(Trunc(a), Trunc(c));
    SameInt32(Trunc(b), Trunc(d));
  }

  lemma SameInt32(a: int, c: int)
    ensures ToInt32(a) == ToInt32(c) <==> (a - c) % WORDS == 0
  {
    var qa, ra, qc, rc := a / WORDS, a % WORDS, c / WORDS, c % WORDS;
    SameResidue(a - c, qa - qc, ra - rc);
    assert ToInt32(a) == ToInt32(c) <==> ra == rc;
  }

  lemma SameResidue(n: int, q: int, r: int)
    requires n == q * WORDS + r && -WORDS < r < WORDS
    ensures n % WORDS == 0 <==> r == 0
  {
    if r >= 0 { ModuloIsUnique(n, q, r); } else { ModuloIsUnique(n, q - 1, r + WORDS); }
  }

  // ---- known values ----

  /** Exclusive or, one hexadecimal digit at a time. */
  lemma XorNibble(a: nat, x: nat, b: nat, y: nat)
    requires x < 16 && y < 16
    ensures Xor(16 * a + x, 16 * b + y) == 16 * Xor(a, b) + Xor(x, y)
  {
    hide Xor;
    XorDibit(4 * a + x / 4, x % 4, 4 * b + y / 4, y % 4);
    XorDibit(a, x / 4, b, y / 4);
    XorDibit(x / 4, x % 4, y / 4, y % 4);
  }

  /** Exclusive or, two bits at a time. */
  lemma XorDibit(a: nat, x: nat, b: nat, y: nat)
    requires x < 4 && y < 4
    ensures Xor(4 * a + x, 4 * b + y) == 4 * Xor(a, b) + Xor(x, y)
  {
    hide Xor;
    XorBit(2 * a + x / 2, x % 2, 2 * b + y / 2, y % 2);
    XorBit(a, x / 2, b, y / 2);
    XorBit(x / 2, x % 2, y / 2, y % 2);
    XorBit(0, x / 2, 0, y / 2);
    XorNothing();
  }

  lemma XorBit(a: nat, x: nat, b: nat, y: nat)
    requires x < 2 && y < 2
    ensures Xor(2 * a + x, 2 * b + y) == 2 * Xor(a, b) + (x + y) % 2
  {
    hide Xor;
    var m, n := 2 * a + x, 2 * b + y;
    assert m / 2 == a && n / 2 == b && m + n == 2 * (a + b) + (x + y);
    XorDigits(m, n);
  }

  lemma XorBits(a: nat, b: nat, c: nat, d: nat, e: nat, f: nat, g: nat, h: nat)
    requires a < 2 && b < 2 && c < 2 && d < 2 && e < 2 && f < 2 && g < 2 && h < 2
    ensures Xor(8 * a + 4 * b + 2 * c + d, 8 * e + 4 * f + 2 * g + h)
      == 8 * ((a + e) % 2) + 4 * ((b + f) % 2) + 2 * ((c + g) % 2) + (d + h) % 2
  {
    hide Xor;
    XorDibit(2 * a + b, 2 * c + d, 2 * e + f, 2 * g + h);
    XorBit(a, b, e, f);
    XorBit(c, d, g, h);
    XorBit(0, a, 0, e);
    XorBit(0, c, 0, g);
    XorNothing();
  }

  lemma SeedNibbles()
    ensures Xor(1, 3) == 2
    ensures Xor(1, 14) == 15
    ensures Xor(5, 9) == 12
    ensures Xor(8, 9) == 1
    ensures Xor(9, 7) == 14
    ensures Xor(12, 7) == 11
    ensures Xor(12, 11) == 7
    ensures Xor(13, 9) == 4
  {
    hide Xor;
    XorBits(0, 0, 0, 1, 0, 0, 1, 1);
    XorBits(0, 0, 0, 1, 1, 1, 1, 0);
    XorBits(0, 1, 0, 1, 1, 0, 0, 1);
    XorBits(1, 0, 0, 0, 1, 0, 0, 1);
    XorBits(1, 0, 0, 1, 0, 1, 1, 1);
    XorBits(1, 1, 0, 0, 0, 1, 1, 1);
    XorBits(1, 1, 0, 0, 1, 0, 1, 1);
    XorBits(1, 1, 0, 1, 1, 0, 0, 1);
  }

  lemma RoundNibbles()
    ensures Xor(5, 1) == 4
    ensures Xor(5, 6) == 3
    ensures Xor(7, 6) == 1
    ensures Xor(9, 6) == 15
    ensures Xor(9, 15) == 6
    ensures Xor(12, 1) == 13
    ensures Xor(12, 6) == 10
  {
    hide Xor;
    XorBits(0, 1, 0, 1, 0, 0, 0, 1);
    XorBits(0, 1, 0, 1, 0, 1, 1, 0);
    XorBits(0, 1, 1, 1, 0, 1, 1, 0);
    XorBits(1, 0, 0, 1, 0, 1, 1, 0);
    XorBits(1, 0, 0, 1, 1, 1, 1, 1);
    XorBits(1, 1, 0, 0, 0, 0, 0, 1);
    XorBits(1, 1, 0, 0, 0, 1, 1, 0);
  }

  /** A round on a word and a unit below 256, digit by digit. */
  lemma RoundOnNibbles(high: nat, v: nat, w: nat, p: nat, q: nat, vp: nat, wq: nat)
    requires v < 16 && w < 16 && p < 16 && q < 16 && 256 * high + 16 * v + w < WORDS
    requires Xor(v, p) == vp && Xor(w, q) == wq
    ensures Round(256 * high + 16 * v + w, 16 * p + q) == (256 * high + 16 * vp + wq) * FNV_PRIME % WORDS
  {
    hide Xor;
    XorNibble(16 * high + v, w, p, q);
    XorNibble(high, v, 0, p);
    XorZero(high);
  }

  /** The seeds: the offset basis of FNV-1a, and that with 0x9e3779b9 folded in. */
  lemma Seeds()
    ensures FIRST_SEED == 0x811c9dc5 && SECOND_SEED == 0x1f2be47c
  {
    hide Xor;
    SeedNibbles();
    XorNibble(8, 1, 9, 14);
    XorNibble(129, 1, 158, 3);
    XorNibble(2065, 12, 2531, 7);
    XorNibble(33052, 9, 40503, 7);
    XorNibble(528841, 13, 648055, 9);
    XorNibble(8461469, 12, 10368889, 11);
    XorNibble(135383516, 5, 165902235, 9);
  }

  lemma HashNext(input: seq<CodeUnit>, unit: CodeUnit, seed: Word)
    ensures HashWord([], seed) == seed
    ensures HashWord(input + [unit], seed) == Round(HashWord(input, seed), unit)
  {
    assert (input + [unit])[..|input|] == input;
  }

  lemma KnownRounds()
    ensures Round(2166136261, 97) == 3826002220
    ensures Round(522970236, 97) == 790108583
    ensures Round(2166136261, 102) == 3809224601
    ensures Round(3809224601, 111) == 1646454850
  {
    hide Xor, Round;
    RoundNibbles();
    RoundOnNibbles(8461469, 12, 5, 6, 1, 10, 4);
    RoundOnNibbles(2042852, 7, 12, 6, 1, 1, 13);
    RoundOnNibbles(8461469, 12, 5, 6, 6, 10, 3);
    RoundOnNibbles(14879783, 9, 9, 6, 15, 15, 6);
  }

  /** Published FNV-1a values, of the empty string, "a" and "fo"; and the arguments of the key "a". */
  lemma KnownHashes()
    ensures HashWord([], FIRST_SEED) == 0x811c9dc5
    ensures HashWord([97], FIRST_SEED) == 0xe40c292c
    ensures HashWord([102, 111], FIRST_SEED) == 0x6222e842
    ensures KeyArgs(StringKey([97])) == Ok(TwoInts(0xe40c292c - WORDS, 0x2f1819a7))
  {
    hide Xor, XorWord, HashWord, Round;
    Seeds();
    KnownRounds();
    HashNext([], 97, FIRST_SEED);
    HashNext([], 97, SECOND_SEED);
    HashNext([], 102, FIRST_SEED);
    HashNext([102], 111, FIRST_SEED);
    assert [] + [97] == [97] && [] + [102] == [102] && [102] + [111] == [102, 111];
  }
}
