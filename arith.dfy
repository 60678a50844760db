/** Facts about Euclidean division that the index arithmetic of both tables relies on. */
module Arith {

  /** 2^32: the number of distinct Java `int` values. */
  const TWO_32: int := 0x1_0000_0000

  lemma MulAtLeast(d: int, k: int)
    requires d > 0 && k >= 1
    ensures d * k >= d
  {
  }

  /** Quotient and remainder are determined by any decomposition with a remainder in range. */
  lemma ModUnique(x: int, d: int, a: int, m: int)
    requires d > 0 && x == d * a + m && 0 <= m < d
    ensures x % d == m && x / d == a
  {
    var q, r := x / d, x % d;
    assert x == d * q + r;
    assert d * (a - q) == r - m;
    if a - q >= 1 {
      MulAtLeast(d, a - q);
    } else if q - a >= 1 {
      MulAtLeast(d, q - a);
    }
  }

  /** Adding a multiple of the modulus does not change the residue. */
  lemma ModShift(x: int, d: int, k: int)
    requires d > 0
    ensures (x + d * k) % d == x % d
  {
    assert x + d * k == d * (x / d + k) + x % d;
    ModUnique(x + d * k, d, x / d + k, x % d);
  }

  /** Two values with the same residue stay congruent after the same shift. */
  lemma ModAddCongruent(h: int, a: int, b: int, d: int)
    requires d > 0 && a % d == b % d
    ensures (h + a) % d == (h + b) % d
  {
    var k := a / d - b / d;
    assert a == b + d * k;
    ModShift(h + b, d, k);
  }

  /** Reducing modulo a multiple of `d` first does not change the residue modulo `d`. */
  lemma ModOfMultiple(x: int, d: int, m: int)
    requires d > 0 && m > 0
    ensures (x % (d * m)) % d == x % d
  {
    var dm := d * m;
    assert x == dm * (x / dm) + x % dm;
    assert x % dm == x + d * (-(m * (x / dm)));
    ModShift(x, d, -(m * (x / dm)));
  }
}
