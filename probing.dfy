/**
  * The probe sequence of the closed table: attempt `i` for hash code `h` looks at
  * `clamp(h + (i + i*i)/2)`.  Over a power-of-two capacity the triangular
  * offsets are pairwise distinct modulo the capacity, so the first `capacity`
  * attempts visit every slot exactly once.
  */
module Probing {
  import opened Arith
  import opened Clamping
  import opened JavaStrings

  /** Offset of attempt `i`: the triangular number i(i+1)/2. */
  function Offset(i: nat): nat
  {
    (i + i * i) / 2
  }

  /** Slot examined by attempt `i` for hash code `h` (the source's `findIndex`). */
  function Probe(h: int, i: nat, capacity: int): (r: int)
    requires capacity >= 1
    ensures 0 <= r < capacity
  {
    Clamp(h + Offset(i), capacity)
  }

  /** The halving in `Offset` is exact: i + i*i is always even. */
  lemma OffsetExact(i: nat)
    ensures 2 * Offset(i) == i + i * i
  {
    var a := i / 2;
    if i % 2 == 0 {
      assert i == 2 * a;
      assert i + i * i == 2 * (a + 2 * a * a);
    } else {
      assert i == 2 * a + 1;
      assert i + i * i == 2 * (2 * a * a + 3 * a + 1);
    }
  }

  /** An odd factor cannot contribute to divisibility by a power of two. */
  lemma {:induction false} OddFactor(p: int, o: int, y: int)
    requires IsPowerOfTwo(p) && o % 2 == 1 && (o * y) % p == 0
    ensures y % p == 0
    decreases p
  {
    if p == 1 {
      ModUnique(y, 1, y, 0);
    } else {
      var k := (o * y) / p;
      assert o * y == p * k;
      var half := p / 2;
      assert o * y == 2 * (half * k);
      if y % 2 == 1 {
        var oa, ya := o / 2, y / 2;
        assert o * y == 2 * (2 * oa * ya + oa + ya) + 1;
        ModUnique(o * y, 2, 2 * oa * ya + oa + ya, 1);
        ModUnique(o * y, 2, half * k, 0);
      }
      var y2 := y / 2;
      assert y == 2 * y2;
      assert o * y2 == half * k;
      ModUnique(o * y2, half, k, 0);
      OddFactor(half, o, y2);
      var m := y2 / half;
      assert y2 == half * m;
      assert y == p * m;
      ModUnique(y, p, m, 0);
    }
  }

  lemma ProductIdentity(i: int, j: int)
    ensures (i + i * i) - (j + j * j) == (i - j) * (i + j + 1)
  {
  }

  /** Equal residues modulo `c` mean the difference is a multiple of `c`. */
  lemma CongruentDifference(x: int, y: int, c: int) returns (k: int)
    requires c >= 1 && x % c == y % c
    ensures x - y == c * k
  {
    ModAddCongruent(-y, x, y, c);
    k := (x - y) / c;
  }

  /** If two attempts shared a residue, (i - j)(i + j + 1) would be a multiple of 2c. */
  lemma ProductMultiple(i: nat, j: nat, c: int)
    requires c >= 1 && Offset(i) % c == Offset(j) % c
    ensures ((i - j) * (i + j + 1)) % (2 * c) == 0
  {
    var k := CongruentDifference(Offset(i), Offset(j), c);
    OffsetExact(i);
    OffsetExact(j);
    ProductIdentity(i, j);
    assert (i - j) * (i + j + 1) == (2 * c) * k;
    ModUnique((i - j) * (i + j + 1), 2 * c, k, 0);
  }

  /** Two factors of opposite parity, both below a power of two, cannot have a product it divides. */
  lemma NoSmallFactors(a: int, b: int, p: int)
    requires IsPowerOfTwo(p) && 0 < a < p && 0 < b < p && (a + b) % 2 == 1
    ensures (a * b) % p != 0
  {
    if (a * b) % p == 0 {
      ModUnique(a, p, 0, a);
      ModUnique(b, p, 0, b);
      if a % 2 == 1 {
        OddFactor(p, a, b);
      } else {
        assert b * a == a * b;
        OddFactor(p, b, a);
      }
    }
  }

  /** Two different attempts below the capacity never share an offset modulo the capacity. */
  lemma OffsetsDistinct(i: nat, j: nat, c: int)
    requires IsPowerOfTwo(c) && j < i < c
    ensures Offset(i) % c != Offset(j) % c
  {
    if Offset(i) % c == Offset(j) % c {
      ProductMultiple(i, j, c);
      DoubleIsPowerOfTwo(c);
      ModUnique((i - j) + (i + j + 1), 2, i, 1);
      NoSmallFactors(i - j, i + j + 1, 2 * c);
    }
  }

  /** Residues of the offsets of the first `n` attempts. */
  ghost function OffsetResidues(c: int, n: nat): set<int>
    requires c >= 1
  {
    set i | 0 <= i < n :: Offset(i) % c
  }

  lemma {:induction false} OffsetResiduesCount(c: int, n: nat)
    requires IsPowerOfTwo(c) && n <= c
    ensures |OffsetResidues(c, n)| == n
  {
    if n == 0 {
      assert OffsetResidues(c, 0) == {};
    } else {
      OffsetResiduesCount(c, n - 1);
      var r := Offset(n - 1) % c;
      assert OffsetResidues(c, n) == OffsetResidues(c, n - 1) + {r};
      if r in OffsetResidues(c, n - 1) {
        var j :| 0 <= j < n - 1 && Offset(j) % c == r;
        OffsetsDistinct(n - 1, j, c);
      }
    }
  }

  /** The slot numbers 0 .. n-1. */
  ghost function Slots(n: nat): set<int>
  {
    if n == 0 then {} else Slots(n - 1) + {n - 1}
  }

  lemma {:induction false} SlotsCount(n: nat)
    ensures |Slots(n)| == n
    ensures forall x :: x in Slots(n) <==> 0 <= x < n
  {
    if n > 0 {
      SlotsCount(n - 1);
    }
  }

  lemma SubsetOfSameCount<T>(a: set<T>, b: set<T>)
    requires a <= b && |a| == |b|
    ensures a == b
  {
    assert b == a + (b - a);
    assert a * (b - a) == {};
    assert b - a == {};
  }

  /** Every slot of the table is reached by some attempt below the capacity. */
  lemma ProbesCoverTable(h: int, c: int, s: int)
    requires IsPowerOfTwo(c) && 0 <= s < c
    ensures exists i :: 0 <= i < c && Probe(h, i, c) == s
  {
    var residues := OffsetResidues(c, c);
    OffsetResiduesCount(c, c);
    SlotsCount(c);
    SubsetOfSameCount(residues, Slots(c));
    var r := (s - h) % c;
    assert r in Slots(c);
    var i :| 0 <= i < c && Offset(i) % c == r;
    ModUnique(r, c, 0, r);
    ModAddCongruent(h, Offset(i), s - h, c);
    ModUnique(s, c, 0, s);
    assert Probe(h, i, c) == s;
  }

  /** Java's `int` division by 2, which truncates toward zero. */
  function JavaHalf(x: int): int
  {
    if x >= 0 then x / 2 else -((-x) / 2)
  }

  /** The offset as the source computes it: `(i + i*i) / 2` with every step in wrapping `int` arithmetic. */
  function JavaOffset(i: nat): (r: int)
    ensures INT_MIN / 2 <= r <= INT_MAX / 2
    ensures i + i * i <= INT_MAX ==> r == Offset(i)
  {
    JavaHalf(ToInt32(i + ToInt32(i * i)))
  }

  lemma JavaHalfOfEven(m: int)
    ensures JavaHalf(2 * m) == m
  {
  }

  /** The wrapped offset differs from the exact one by a multiple of 2^31. */
  lemma WrappedOffset(i: nat) returns (k: int)
    ensures JavaOffset(i) == Offset(i) + (TWO_32 / 2) * k
  {
    var sq := ToInt32(i * i);
    var w := ToInt32(i + sq);
    var a := (i * i - sq) / TWO_32;
    DivMul(i * i - sq, TWO_32);
    var b := (i + sq - w) / TWO_32;
    DivMul(i + sq - w, TWO_32);
    OffsetExact(i);
    k := -(a + b);
    assert w == 2 * (Offset(i) + (TWO_32 / 2) * k);
    JavaHalfOfEven(Offset(i) + (TWO_32 / 2) * k);
  }

  /** Numbers that agree modulo 2^31 agree modulo every power of two up to 2^31. */
  lemma CongruentModuloSmallerPower(x: int, r: int, c: int)
    requires IsPowerOfTwo(c) && c <= TWO_32 / 2 && (x - r) % (TWO_32 / 2) == 0
    ensures x % c == r % c
  {
    TwoToThe32IsPowerOfTwo();
    HalfIsPowerOfTwo(TWO_32);
    var half := TWO_32 / 2;
    PowerOfTwoDivides(c, half);
    var m := half / c;
    DivMul(half, c);
    var k := (x - r) / half;
    DivMul(x - r, half);
    ScaledMultiple(x - r, half, c, m, k);
    ModShift(r, c, m * k);
    assert r + c * (m * k) == x;
  }

  lemma ScaledMultiple(d: int, t: int, c: int, m: int, k: int)
    requires t * k == d && c * m == t
    ensures d == c * (m * k)
  {
    calc {
      c * (m * k);
      (c * m) * k;
      t * k;
    }
  }

  /**
    * The source computes the offset and adds it to the hash code in wrapping
    * `int` arithmetic, then masks the result; for a power-of-two capacity up
    * to 2^31 that is the same slot as the exact sum clamped with the
    * Euclidean remainder.
    */
  lemma ProbeIgnoresWrap(h: int, i: nat, c: int)
    requires IsPowerOfTwo(c) && c <= TWO_32 / 2
    ensures JavaMask(ToInt32(h + JavaOffset(i)), c) == Probe(h, i, c)
  {
    var k := WrappedOffset(i);
    var r := ToInt32(h + JavaOffset(i));
    WrapCongruence(h + Offset(i), h + JavaOffset(i), r, k);
    ClampIsJavaMask(r, c);
    CongruentModuloSmallerPower(h + Offset(i), r, c);
  }

  /** Wrapping `y`, which is `x` shifted by a multiple of 2^31, lands on a value congruent to `x` modulo 2^31. */
  lemma WrapCongruence(x: int, y: int, r: int, k: int)
    requires y == x + (TWO_32 / 2) * k && (y - r) % TWO_32 == 0
    ensures (x - r) % (TWO_32 / 2) == 0
  {
    var half := TWO_32 / 2;
    var q := (y - r) / TWO_32;
    DivMul(y - r, TWO_32);
    assert x - r == half * (2 * q - k) by {
      assert y - r == half * (2 * q);
    }
    ModUnique(x - r, half, 2 * q - k, 0);
  }
}
