/**
  * Capacities and index clamping shared by both tables.  A capacity is a
  * power of two, and the source clamps a hash code with `h & (capacity - 1)`;
  * the model clamps with the Euclidean remainder `h % capacity` and proves the
  * two agree, negative hash codes included.
  */
module Clamping {
  import opened Arith

  predicate IsPowerOfTwo(n: int)
    decreases if n > 0 then n else 0
  {
    n == 1 || (n >= 2 && n % 2 == 0 && IsPowerOfTwo(n / 2))
  }

  lemma DoubleIsPowerOfTwo(n: int)
    requires IsPowerOfTwo(n)
    ensures IsPowerOfTwo(2 * n)
  {
  }

  lemma HalfIsPowerOfTwo(n: int)
    requires IsPowerOfTwo(n) && n >= 2
    ensures IsPowerOfTwo(n / 2)
  {
  }

  /** Powers of two are closed under multiplication. */
  lemma {:induction false} ProductIsPowerOfTwo(a: int, b: int)
    requires IsPowerOfTwo(a) && IsPowerOfTwo(b)
    ensures IsPowerOfTwo(a * b)
    decreases b
  {
    if b != 1 {
      var half := b / 2;
      assert b == 2 * half && IsPowerOfTwo(half);
      ProductIsPowerOfTwo(a, half);
      DoubleIsPowerOfTwo(a * half);
      DoubledProduct(a, half);
    }
  }

  lemma DoubledProduct(a: int, half: int)
    ensures a * (2 * half) == 2 * (a * half)
  {
  }

  lemma TwoToThe32IsPowerOfTwo()
    ensures IsPowerOfTwo(TWO_32)
  {
    assert IsPowerOfTwo(16);
    ProductIsPowerOfTwo(16, 16);
    ProductIsPowerOfTwo(0x100, 0x100);
    ProductIsPowerOfTwo(0x1_0000, 0x1_0000);
  }

  /** A smaller power of two divides a larger one. */
  lemma {:induction false} PowerOfTwoDivides(c: int, p: int)
    requires IsPowerOfTwo(c) && IsPowerOfTwo(p) && c <= p
    ensures p % c == 0 && p / c >= 1
    decreases c
  {
    if c == 1 {
      ModUnique(p, 1, p, 0);
    } else {
      PowerOfTwoDivides(c / 2, p / 2);
      var k := (p / 2) / (c / 2);
      assert p / 2 == (c / 2) * k;
      assert p == c * k;
      ModUnique(p, c, k, 0);
    }
  }

  /** Bitwise AND of two non-negative bit patterns, one bit at a time from the least significant. */
  function BitAnd(a: nat, b: nat): nat
  {
    if a == 0 || b == 0 then 0
    else 2 * BitAnd(a / 2, b / 2) + (if a % 2 == 1 && b % 2 == 1 then 1 else 0)
  }

  /**
    * Java's `h & (capacity - 1)` for 1 <= capacity <= 2^31: the 32-bit pattern of
    * `h` is `h % 2^32`, the mask `capacity - 1` is non-negative, so the result
    * has its sign bit clear and reads back as the non-negative `BitAnd`.
    */
  function JavaMask(h: int, capacity: int): nat
    requires 1 <= capacity <= TWO_32 / 2
  {
    BitAnd(h % TWO_32, capacity - 1)
  }

  /** The model's clamp: the Euclidean remainder, which is never negative. */
  function Clamp(h: int, capacity: int): (r: int)
    requires capacity >= 1
    ensures 0 <= r < capacity
  {
    h % capacity
  }

  lemma ModOfDouble(x: nat, d: int)
    requires d >= 1
    ensures x % (2 * d) == 2 * ((x / 2) % d) + x % 2
  {
    var q := x / 2;
    assert x == 2 * q + x % 2;
    assert q == d * (q / d) + q % d;
    assert x == (2 * d) * (q / d) + (2 * (q % d) + x % 2);
    ModUnique(x, 2 * d, q / d, 2 * (q % d) + x % 2);
  }

  /** Masking with `c - 1` keeps the low bits, that is, the remainder modulo `c`. */
  lemma {:induction false} MaskIsMod(x: nat, c: int)
    requires IsPowerOfTwo(c)
    ensures BitAnd(x, c - 1) == x % c
    decreases c
  {
    if c == 1 || x == 0 {
    } else {
      var half := c / 2;
      assert (c - 1) / 2 == half - 1 && (c - 1) % 2 == 1;
      MaskIsMod(x / 2, half);
      ModOfDouble(x, half);
    }
  }

  lemma DivMul(p: int, c: int)
    requires c > 0 && p % c == 0
    ensures c * (p / c) == p
  {
  }

  /** Reducing to a bit pattern of a wider power of two first does not change the clamped index. */
  lemma ClampOfPattern(h: int, capacity: int, p: int)
    requires IsPowerOfTwo(capacity) && IsPowerOfTwo(p) && capacity <= p
    ensures (h % p) % capacity == h % capacity
  {
    PowerOfTwoDivides(capacity, p);
    var m := p / capacity;
    ModOfMultiple(h, capacity, m);
    DivMul(p, capacity);
  }

  /** The source's bitwise clamp and the model's Euclidean clamp agree for every hash code. */
  lemma ClampIsJavaMask(h: int, capacity: int)
    requires IsPowerOfTwo(capacity) && capacity <= TWO_32 / 2
    ensures JavaMask(h, capacity) == Clamp(h, capacity)
  {
    var pattern := h % TWO_32;
    MaskIsMod(pattern, capacity);
    TwoToThe32IsPowerOfTwo();
    ClampOfPattern(h, capacity, TWO_32);
  }
}
