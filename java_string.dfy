/** Java's 32-bit `int` and the `String.hashCode` that both tables hash with. */
module JavaStrings {
  import opened Arith

  const INT_MIN: int := -0x8000_0000
  const INT_MAX: int := 0x7FFF_FFFF

  predicate IsInt32(x: int) {
    INT_MIN <= x <= INT_MAX
  }

  /** Two's-complement wrap-around of an exact integer into the `int` range. */
  function ToInt32(x: int): (r: int)
    ensures IsInt32(r)
    ensures (x - r) % TWO_32 == 0
    ensures IsInt32(x) ==> r == x
  {
    var r := (x - INT_MIN) % TWO_32 + INT_MIN;
    assert x - INT_MIN == TWO_32 * ((x - INT_MIN) / TWO_32) + (x - INT_MIN) % TWO_32;
    ModUnique(x - r, TWO_32, (x - INT_MIN) / TWO_32, 0);
    r
  }

  /**
    * `String.hashCode`: h = 31 * h + c over the characters, each step in
    * wrapping `int` arithmetic, starting from 0 for the empty string.
    */
  function Hash(s: string): (h: int)
    ensures IsInt32(h)
  {
    if |s| == 0 then 0 else ToInt32(31 * Hash(s[..|s| - 1]) + s[|s| - 1] as int)
  }

  /** The classic pair of distinct strings with equal hash codes. */
  lemma CollidingStrings()
    ensures "Aa" != "BB" && Hash("Aa") == Hash("BB") == 2112
  {
    assert "Aa"[..1] == "A" && "BB"[..1] == "B";
    assert Hash("A") == 65 && Hash("B") == 66;
  }
}
