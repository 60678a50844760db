/**
  * The state and policy both tables share: the element counter, the capacity
  * and the two load factors, with their defaults.  The source keeps these in
  * an abstract base class whose protected fields the two tables update
  * directly; here each table owns one `SimpleHashSet` object and updates its
  * fields in the same places.
  */
module SimpleHashSets {
  import opened Nullable
  import opened Clamping

  /** Default lower load factor. */
  const DEFAULT_LOWER_CAPACITY: real := 0.25
  /** Default upper load factor. */
  const DEFAULT_HIGHER_CAPACITY: real := 0.75
  /** Capacity of every newly built table. */
  const INITIAL_CAPACITY: int := 16

  /** count / capacity, computed exactly. */
  function LoadFactor(count: int, capacity: int): (r: real)
    requires capacity >= 1
    ensures r * (capacity as real) == count as real
    ensures 0 <= count <= capacity ==> 0.0 <= r <= 1.0
  {
    (count as real) / (capacity as real)
  }

  /** Comparing the load factor with a factor is comparing the count with factor * capacity. */
  lemma LoadFactorCompare(count: int, capacity: int, factor: real)
    requires capacity >= 1
    ensures LoadFactor(count, capacity) < factor <==> (count as real) < factor * capacity as real
    ensures LoadFactor(count, capacity) > factor <==> (count as real) > factor * capacity as real
  {
    var c := capacity as real;
    var x := LoadFactor(count, capacity);
    assert x * c == count as real;
    if x < factor {
      assert (factor - x) * c > 0.0;
    } else {
      assert (x - factor) * c >= 0.0;
    }
    if x > factor {
      assert (x - factor) * c > 0.0;
    } else {
      assert (factor - x) * c >= 0.0;
    }
  }

  /** Shrink test shared by both tables: the load factor strictly below the lower factor. */
  predicate NeedsShrink(count: int, capacity: int, lower: real)
    requires capacity >= 1
  {
    LoadFactor(count, capacity) < lower
  }

  /** Capacity after the shrink check that follows a removal: halved only from 2 upwards. */
  function CapacityAfterDeletion(count: int, capacity: int, lower: real): (c: int)
    requires IsPowerOfTwo(capacity)
    ensures IsPowerOfTwo(c) && c >= 1
    ensures c == capacity || (capacity >= 2 && 2 * c == capacity)
    ensures c < capacity <==> capacity >= 2 && (count as real) < lower * capacity as real
  {
    LoadFactorCompare(count, capacity, lower);
    if NeedsShrink(count, capacity, lower) && capacity >= 2 then capacity / 2 else capacity
  }

  /** Non-null values of a sequence of possibly-null strings, taken in order. */
  function NonNullValues(data: seq<Option<string>>): set<string>
  {
    if |data| == 0 then {}
    else
      var last := data[|data| - 1];
      NonNullValues(data[..|data| - 1]) + (if last.Some? then {last.value} else {})
  }

  /** A string is among the non-null values exactly when the sequence holds it. */
  lemma {:induction false} NonNullValuesMembership(data: seq<Option<string>>)
    ensures forall v :: v in NonNullValues(data) <==> Some(v) in data
  {
    if |data| > 0 {
      var init := data[..|data| - 1];
      NonNullValuesMembership(init);
      assert data == init + [data[|data| - 1]];
    }
  }

  class SimpleHashSet {
    /** Number of elements the table counts as stored. */
    var numOfElements: int
    /** Number of slots of the backing array. */
    var capacity: int
    var lowLoadFactor: real
    var upLoadFactor: real

    /** The capacity is a power of two, hence at least 1, so masking with capacity - 1 is a clamp. */
    ghost predicate Valid()
      reads this
    {
      IsPowerOfTwo(capacity)
    }

    /** An empty table of the initial capacity with the default load factors. */
    constructor ()
      ensures Valid()
      ensures numOfElements == 0 && capacity == INITIAL_CAPACITY
      ensures lowLoadFactor == DEFAULT_LOWER_CAPACITY && upLoadFactor == DEFAULT_HIGHER_CAPACITY
    {
      numOfElements := 0;
      capacity := INITIAL_CAPACITY;
      lowLoadFactor := DEFAULT_LOWER_CAPACITY;
      upLoadFactor := DEFAULT_HIGHER_CAPACITY;
    }

    /** An empty table of the initial capacity with the given load factors (upper first, as in the source). */
    constructor WithLoadFactors(upperLoadFactor: real, lowerLoadFactor: real)
      ensures Valid()
      ensures numOfElements == 0 && capacity == INITIAL_CAPACITY
      ensures lowLoadFactor == lowerLoadFactor && upLoadFactor == upperLoadFactor
    {
      numOfElements := 0;
      capacity := INITIAL_CAPACITY;
      lowLoadFactor := lowerLoadFactor;
      upLoadFactor := upperLoadFactor;
    }

    method Capacity() returns (c: int)
      ensures c == capacity
    {
      c := capacity;
    }

    method GetLowerLoadFactor() returns (factor: real)
      ensures factor == lowLoadFactor
    {
      factor := lowLoadFactor;
    }

    method GetUpperLoadFactor() returns (factor: real)
      ensures factor == upLoadFactor
    {
      factor := upLoadFactor;
    }

    method Size() returns (n: int)
      ensures n == numOfElements
    {
      n := numOfElements;
    }

    /** Whether `index` addresses a slot of the backing array. */
    method IsIndexValid(index: int) returns (valid: bool)
      ensures valid <==> 0 <= index < capacity
    {
      valid := index >= 0 && index < capacity;
    }
  }
}
