/**
  * The open (chained) table: an array of buckets, a value living in bucket
  * `clamp(hashCode)`.  Growth is checked after the counter is raised and
  * before the bucket is chosen, with a strict comparison; shrinking is checked
  * after a removal.  Every resize doubles or halves the capacity and re-buckets
  * every value into a fresh array.
  */
module OpenHashSets {
  import opened Nullable
  import opened Arith
  import opened JavaStrings
  import opened Clamping
  import opened SimpleHashSets
  import opened Buckets

  /** Bucket of value `v` in a table of `capacity` buckets. */
  function BucketIndex(v: string, capacity: int): int
    requires capacity >= 1
  {
    Clamping.Clamp(Hash(v), capacity)
  }

  /** The open table grows when the load factor is strictly above the upper factor. */
  predicate NeedsGrowth(count: int, capacity: int, upper: real)
    requires capacity >= 1
  {
    LoadFactor(count, capacity) > upper
  }

  /** Capacity after the growth check that follows an insertion. */
  function CapacityAfterAddition(count: int, capacity: int, upper: real): (c: int)
    requires IsPowerOfTwo(capacity)
    ensures IsPowerOfTwo(c)
    ensures c == capacity || c == 2 * capacity
    ensures c == 2 * capacity <==> count as real > upper * capacity as real
  {
    LoadFactorCompare(count, capacity, upper);
    if NeedsGrowth(count, capacity, upper) then 2 * capacity else capacity
  }

  /** Every value sits in its own bucket and no bucket repeats a value. */
  predicate WellPlaced(t: seq<seq<string>>)
  {
    |t| >= 1 &&
    (forall b, k :: 0 <= b < |t| && 0 <= k < |t[b]| ==> BucketIndex(t[b][k], |t|) == b) &&
    (forall b :: 0 <= b < |t| ==> NoDuplicates(t[b]))
  }

  /** The buckets hold exactly `contents`. */
  ghost predicate Holds(t: seq<seq<string>>, contents: set<string>)
    requires |t| >= 1
  {
    forall v {:trigger BucketIndex(v, |t|)} :: v in contents <==> v in t[BucketIndex(v, |t|)]
  }

  /** The bucket lists of a freshly reset table: `capacity` empty buckets. */
  function EmptyBuckets(capacity: int): (t: seq<seq<string>>)
    requires capacity >= 1
    ensures |t| == capacity && WellPlaced(t) && Holds(t, {})
    ensures forall b :: 0 <= b < capacity ==> t[b] == []
  {
    seq(capacity, _ => [])
  }

  /** Total length of the first `n` buckets. */
  function TotalLength(t: seq<seq<string>>, n: nat): nat
    requires n <= |t|
  {
    if n == 0 then 0 else TotalLength(t, n - 1) + |t[n - 1]|
  }

  /** Pushing an absent value onto its own bucket keeps the invariant and adds exactly that value. */
  lemma InsertKeepsInvariant(t: seq<seq<string>>, contents: set<string>, v: string)
    requires WellPlaced(t) && Holds(t, contents) && v !in contents
    ensures var s := BucketIndex(v, |t|);
      WellPlaced(t[s := [v] + t[s]]) && Holds(t[s := [v] + t[s]], contents + {v})
  {
    var s := BucketIndex(v, |t|);
    var t' := t[s := [v] + t[s]];
    forall b, k | 0 <= b < |t'| && 0 <= k < |t'[b]|
      ensures BucketIndex(t'[b][k], |t'|) == b
    {
      if b == s && k > 0 {
        assert t'[b][k] == t[b][k - 1];
      }
    }
    forall b | 0 <= b < |t'|
      ensures NoDuplicates(t'[b])
    {
      if b == s {
        forall i, j | 0 <= i < j < |t'[b]|
          ensures t'[b][i] != t'[b][j]
        {
          assert t'[b][j] == t[b][j - 1];
          if i > 0 {
            assert t'[b][i] == t[b][i - 1];
          }
        }
      }
    }
  }

  /** Removing a stored value from its bucket keeps the invariant and removes exactly that value. */
  lemma RemoveKeepsInvariant(t: seq<seq<string>>, contents: set<string>, v: string)
    requires WellPlaced(t) && Holds(t, contents) && v in contents
    ensures var s := BucketIndex(v, |t|);
      v in t[s] &&
      WellPlaced(t[s := RemoveFirst(t[s], v)]) && Holds(t[s := RemoveFirst(t[s], v)], contents - {v})
  {
    var s := BucketIndex(v, |t|);
    RemoveFirstWithoutDuplicates(t[s], v);
    var t' := t[s := RemoveFirst(t[s], v)];
    forall b, k | 0 <= b < |t'| && 0 <= k < |t'[b]|
      ensures BucketIndex(t'[b][k], |t'|) == b
    {
      if b == s {
        assert t'[b][k] in t[b];
      }
    }
  }

  /** Bucket `b` holds exactly the stored values placed in it. */
  lemma BucketHoldsItsValues(t: seq<seq<string>>, contents: set<string>, b: int)
    requires WellPlaced(t) && Holds(t, contents) && 0 <= b < |t|
    ensures forall v :: v in t[b] <==> v in contents && BucketIndex(v, |t|) == b
  {
    forall v | v in t[b]
      ensures v in contents && BucketIndex(v, |t|) == b
    {
      var k :| 0 <= k < |t[b]| && t[b][k] == v;
    }
  }

  /** Values held by one bucket. */
  ghost function Elements(s: seq<string>): set<string>
  {
    set x | x in s
  }

  /** Values of the first `n` buckets. */
  ghost function ElementsUpTo(t: seq<seq<string>>, n: nat): set<string>
    requires n <= |t|
  {
    if n == 0 then {} else ElementsUpTo(t, n - 1) + Elements(t[n - 1])
  }

  lemma {:induction false} DistinctElementsCount(s: seq<string>)
    requires NoDuplicates(s)
    ensures |Elements(s)| == |s|
  {
    if s != [] {
      var rest := s[1..];
      DistinctElementsCount(rest);
      assert Elements(s) == Elements(rest) + {s[0]};
      assert s[0] !in rest;
    }
  }

  lemma {:induction false} ElementsUpToMembership(t: seq<seq<string>>, n: nat)
    requires WellPlaced(t) && n <= |t|
    ensures forall v :: v in ElementsUpTo(t, n) <==> 0 <= BucketIndex(v, |t|) < n && v in t[BucketIndex(v, |t|)]
  {
    if n > 0 {
      ElementsUpToMembership(t, n - 1);
      forall v | v in Elements(t[n - 1])
        ensures BucketIndex(v, |t|) == n - 1
      {
        var k :| 0 <= k < |t[n - 1]| && t[n - 1][k] == v;
      }
    }
  }

  /** Values of bucket `n - 1` are not in the earlier buckets. */
  lemma LastBucketDisjoint(t: seq<seq<string>>, n: nat)
    requires WellPlaced(t) && 1 <= n <= |t|
    ensures ElementsUpTo(t, n - 1) * Elements(t[n - 1]) == {}
  {
    ElementsUpToMembership(t, n - 1);
    var prefix := ElementsUpTo(t, n - 1);
    var last := Elements(t[n - 1]);
    forall v | v in last
      ensures v !in prefix
    {
      var k :| 0 <= k < |t[n - 1]| && t[n - 1][k] == v;
      assert BucketIndex(v, |t|) == n - 1;
    }
  }

  lemma {:induction false} ElementsUpToCount(t: seq<seq<string>>, n: nat)
    requires WellPlaced(t) && n <= |t|
    ensures |ElementsUpTo(t, n)| == TotalLength(t, n)
  {
    if n > 0 {
      ElementsUpToCount(t, n - 1);
      var prefix := ElementsUpTo(t, n - 1);
      var last := Elements(t[n - 1]);
      DistinctElementsCount(t[n - 1]);
      LastBucketDisjoint(t, n);
      assert |prefix + last| == |prefix| + |last|;
    }
  }

  /** The element count of a well-formed table is the total length of its buckets. */
  lemma SizeIsTotalLength(t: seq<seq<string>>, contents: set<string>)
    requires WellPlaced(t) && Holds(t, contents)
    ensures |contents| == TotalLength(t, |t|)
  {
    ElementsUpToCount(t, |t|);
    ElementsUpToMembership(t, |t|);
    assert contents == ElementsUpTo(t, |t|);
  }

  class OpenHashSet {
    const policy: SimpleHashSet
    var openHashSet: array<Bucket?>
    /** The values the table stores. */
    ghost var Contents: set<string>
    /** The value lists of the buckets, slot by slot. */
    ghost var Buckets: seq<seq<string>>
    ghost var Repr: set<object>

    /** Every slot holds its own bucket, whose list is the matching entry of `Buckets`. */
    ghost predicate Filled()
      reads this, Repr
    {
      this in Repr && policy in Repr && openHashSet in Repr &&
      |Buckets| == openHashSet.Length &&
      (forall b :: 0 <= b < openHashSet.Length ==>
        openHashSet[b] != null && openHashSet[b] in Repr && openHashSet[b].bucket == Buckets[b]) &&
      (forall b, b' :: 0 <= b < b' < openHashSet.Length ==> openHashSet[b] != openHashSet[b'])
    }

    /** The buckets place every value by its hash and hold exactly `Contents`. */
    ghost predicate Structured()
      reads this, Repr
    {
      Filled() && WellPlaced(Buckets) && Holds(Buckets, Contents)
    }

    /** The array length is the capacity, a power of two, and the counter counts `Contents`. */
    ghost predicate Valid()
      reads this, Repr
    {
      Structured() && policy.Valid() &&
      openHashSet.Length == policy.capacity &&
      policy.numOfElements == |Contents|
    }

    /** An empty table of 16 buckets with the default load factors. */
    constructor ()
      ensures Valid() && fresh(Repr)
      ensures Contents == {} && policy.numOfElements == 0 && policy.capacity == INITIAL_CAPACITY
      ensures policy.lowLoadFactor == DEFAULT_LOWER_CAPACITY && policy.upLoadFactor == DEFAULT_HIGHER_CAPACITY
    {
      var p := new SimpleHashSet();
      policy := p;
      openHashSet := new Bucket?[p.capacity];
      new;
      ghost var buckets := Reset(openHashSet);
      Contents := {};
      Buckets := EmptyBuckets(openHashSet.Length);
      Repr := {this, policy, openHashSet} + buckets;
    }

    /** An empty table of 16 buckets with the given load factors (upper first). */
    constructor WithLoadFactors(upperLoadFactor: real, lowerLoadFactor: real)
      ensures Valid() && fresh(Repr)
      ensures Contents == {} && policy.numOfElements == 0 && policy.capacity == INITIAL_CAPACITY
      ensures policy.lowLoadFactor == lowerLoadFactor && policy.upLoadFactor == upperLoadFactor
    {
      var p := new SimpleHashSet();
      policy := p;
      openHashSet := new Bucket?[p.capacity];
      new;
      ghost var buckets := Reset(openHashSet);
      policy.lowLoadFactor := lowerLoadFactor;
      policy.upLoadFactor := upperLoadFactor;
      Contents := {};
      Buckets := EmptyBuckets(openHashSet.Length);
      Repr := {this, policy, openHashSet} + buckets;
    }

    /** A default table filled by adding the values one by one: nulls and repeats are skipped. */
    constructor FromData(data: seq<Option<string>>)
      ensures Valid() && fresh(Repr)
      ensures Contents == NonNullValues(data)
      ensures forall v :: v in Contents <==> Some(v) in data
      ensures policy.lowLoadFactor == DEFAULT_LOWER_CAPACITY && policy.upLoadFactor == DEFAULT_HIGHER_CAPACITY
    {
      var p := new SimpleHashSet();
      policy := p;
      openHashSet := new Bucket?[p.capacity];
      new;
      ghost var buckets := Reset(openHashSet);
      Contents := {};
      Buckets := EmptyBuckets(openHashSet.Length);
      Repr := {this, policy, openHashSet} + buckets;
      for i := 0 to |data|
        invariant Valid() && fresh(Repr)
        invariant Contents == NonNullValues(data[..i])
        invariant policy.lowLoadFactor == DEFAULT_LOWER_CAPACITY && policy.upLoadFactor == DEFAULT_HIGHER_CAPACITY
      {
        var added := Add(data[i]);
        assert data[..i + 1][..i] == data[..i];
      }
      assert data[..|data|] == data;
      NonNullValuesMembership(data);
    }

    /** Fills every slot with a distinct new empty bucket; `buckets` collects them. */
    method Reset(hashSet: array<Bucket?>) returns (ghost buckets: set<object>)
      requires hashSet.Length == policy.capacity
      modifies hashSet
      ensures forall i :: 0 <= i < hashSet.Length ==> hashSet[i] != null && hashSet[i] in buckets && hashSet[i].bucket == []
      ensures forall i, j :: 0 <= i < j < hashSet.Length ==> hashSet[i] != hashSet[j]
      ensures fresh(buckets)
    {
      buckets := {};
      for i := 0 to policy.capacity
        invariant forall k :: 0 <= k < i ==> hashSet[k] != null && hashSet[k] in buckets && hashSet[k].bucket == []
        invariant forall k, j :: 0 <= k < j < i ==> hashSet[k] != hashSet[j]
        invariant fresh(buckets)
      {
        var b := new Bucket();
        hashSet[i] := b;
        buckets := buckets + {b};
      }
    }

    /** Index clamped into the table: `index & (capacity - 1)`, computed as the Euclidean remainder. */
    function Clamp(index: int): (r: int)
      reads policy
      requires policy.Valid()
      ensures 0 <= r < policy.capacity
      ensures policy.capacity <= TWO_32 / 2 ==> r == JavaMask(index, policy.capacity)
    {
      var r := Clamping.Clamp(index, policy.capacity);
      if policy.capacity <= TWO_32 / 2 then ClampIsJavaMask(index, policy.capacity); r else r
    }

    /** Null is never contained; otherwise only the value's own bucket is searched. */
    method Contains(searchVal: Option<string>) returns (found: bool)
      requires Valid()
      ensures found <==> searchVal.Some? && searchVal.value in Contents
      ensures found <==> searchVal.Some? && searchVal.value in Buckets[BucketIndex(searchVal.value, policy.capacity)]
    {
      if searchVal.Some? {
        var index := Clamp(Hash(searchVal.value));
        var valid := policy.IsIndexValid(index);
        if valid {
          if openHashSet[index] == null {
            assert false;
            return false;
          }
          found := openHashSet[index].Contains(searchVal);
          assert index == BucketIndex(searchVal.value, policy.capacity);
          return;
        }
        assert false;
      }
      return false;
    }

    /**
      * Adds a non-null absent value: the counter goes up, the growth check runs,
      * and only then is the value pushed onto its bucket in the (possibly new) array.
      */
    method Add(newValue: Option<string>) returns (added: bool)
      requires Valid()
      modifies Repr
      ensures Valid() && fresh(Repr - old(Repr))
      ensures added <==> newValue.Some? && newValue.value !in old(Contents)
      ensures added ==>
        Contents == old(Contents) + {newValue.value} &&
        policy.numOfElements == old(policy.numOfElements) + 1 &&
        policy.capacity == CapacityAfterAddition(policy.numOfElements, old(policy.capacity), policy.upLoadFactor)
      ensures !added ==>
        Contents == old(Contents) && policy.numOfElements == old(policy.numOfElements) &&
        policy.capacity == old(policy.capacity) && Buckets == old(Buckets)
      ensures policy.lowLoadFactor == old(policy.lowLoadFactor) && policy.upLoadFactor == old(policy.upLoadFactor)
    {
      if newValue.None? {
        return false;
      }
      var present := Contains(newValue);
      if present {
        return false;
      }
      var v := newValue.value;
      policy.numOfElements := policy.numOfElements + 1;
      ReHashAfterAddition();
      PushToBucket(v);
      return true;
    }

    /** The last step of `Add`: pushes an absent value onto the front of its own bucket. */
    method PushToBucket(v: string)
      requires Structured() && policy.Valid() && openHashSet.Length == policy.capacity && v !in Contents
      modifies this, openHashSet[BucketIndex(v, openHashSet.Length)]
      ensures Structured() && Repr == old(Repr) && openHashSet == old(openHashSet)
      ensures Contents == old(Contents) + {v} && |Contents| == |old(Contents)| + 1
      ensures var i := BucketIndex(v, openHashSet.Length); Buckets == old(Buckets)[i := [v] + old(Buckets)[i]]
    {
      Buckets := PushInto(openHashSet, v, Repr, Buckets, Contents);
      Contents := Contents + {v};
    }

    /**
      * Pushes `value` onto the front of its bucket in `hashSet`, whose buckets
      * hold the lists `t` and the values `placed`; returns the new lists.
      */
    method PushInto(hashSet: array<Bucket?>, value: string, ghost objs: set<object>,
                    ghost t: seq<seq<string>>, ghost placed: set<string>)
      returns (ghost t': seq<seq<string>>)
      requires policy.Valid() && hashSet.Length == policy.capacity && |t| == hashSet.Length
      requires forall x :: 0 <= x < hashSet.Length ==>
        hashSet[x] != null && hashSet[x] in objs && hashSet[x].bucket == t[x]
      requires forall x, y :: 0 <= x < y < hashSet.Length ==> hashSet[x] != hashSet[y]
      requires WellPlaced(t) && Holds(t, placed) && value !in placed
      modifies hashSet[BucketIndex(value, hashSet.Length)]
      ensures var i := BucketIndex(value, hashSet.Length); t' == t[i := [value] + t[i]]
      ensures forall x :: 0 <= x < hashSet.Length ==>
        hashSet[x] != null && hashSet[x] in objs && hashSet[x].bucket == t'[x]
      ensures WellPlaced(t') && Holds(t', placed + {value})
    {
      var index := Clamp(Hash(value));
      InsertKeepsInvariant(t, placed, value);
      var pushed := hashSet[index].Add(Some(value));
      t' := t[index := [value] + t[index]];
    }

    /**
      * Removes a present value from its bucket, lowers the counter and runs the
      * shrink check; an absent or null value changes nothing.
      */
    method Delete(toDelete: Option<string>) returns (deleted: bool)
      requires Valid()
      modifies Repr
      ensures Valid() && fresh(Repr - old(Repr))
      ensures deleted <==> toDelete.Some? && toDelete.value in old(Contents)
      ensures deleted ==>
        Contents == old(Contents) - {toDelete.value} &&
        policy.numOfElements == old(policy.numOfElements) - 1 &&
        policy.capacity == CapacityAfterDeletion(policy.numOfElements, old(policy.capacity), policy.lowLoadFactor)
      ensures !deleted ==>
        Contents == old(Contents) && policy.numOfElements == old(policy.numOfElements) &&
        policy.capacity == old(policy.capacity) && Buckets == old(Buckets)
      ensures policy.lowLoadFactor == old(policy.lowLoadFactor) && policy.upLoadFactor == old(policy.upLoadFactor)
    {
      var present := Contains(toDelete);
      if !present {
        return false;
      }
      if toDelete.Some? {
        var v := toDelete.value;
        var index := Clamp(Hash(v));
        var valid := policy.IsIndexValid(index);
        if valid {
          RemoveKeepsInvariant(Buckets, Contents, v);
          var removed := openHashSet[index].Delete(toDelete);
          Buckets := Buckets[index := RemoveFirst(Buckets[index], v)];
          policy.numOfElements := policy.numOfElements - 1;
          Contents := Contents - {v};
          ReHashAfterDeletion();
          return true;
        }
      }
      assert false;
      return false;
    }

    /** The inherited `size()`: the number of stored values, which is also the total bucket length. */
    method Size() returns (n: int)
      requires Valid()
      ensures n == |Contents| && n == TotalLength(Buckets, |Buckets|)
    {
      n := policy.Size();
      SizeIsTotalLength(Buckets, Contents);
    }

    /** The inherited `capacity()`: the number of buckets, a power of two. */
    method Capacity() returns (c: int)
      requires Valid()
      ensures c == openHashSet.Length && IsPowerOfTwo(c)
    {
      c := policy.Capacity();
    }

    /** Re-buckets every value into a fresh array of `capacity` buckets. */
    method ReHash()
      requires Structured() && policy.Valid()
      modifies this
      ensures Structured() && openHashSet.Length == policy.capacity && fresh(Repr - old(Repr))
      ensures Contents == old(Contents)
    {
      var capacity := policy.capacity;
      var oldLength := openHashSet.Length;
      var newHashSet := new Bucket?[capacity];
      ghost var buckets := Reset(newHashSet);
      ghost var newBuckets := EmptyBuckets(capacity);
      ghost var placed: set<string> := {};
      for b := 0 to oldLength
        modifies buckets
        invariant |newBuckets| == capacity
        invariant forall x :: 0 <= x < capacity ==>
          newHashSet[x] != null && newHashSet[x] in buckets && newHashSet[x].bucket == newBuckets[x]
        invariant forall x, y :: 0 <= x < y < capacity ==> newHashSet[x] != newHashSet[y]
        invariant WellPlaced(newBuckets) && Holds(newBuckets, placed)
        invariant forall v :: v in placed <==> v in Contents && BucketIndex(v, oldLength) < b
      {
        var items := openHashSet[b].BucketIterator();
        assert items == Buckets[b];
        BucketHoldsItsValues(Buckets, Contents, b);
        newBuckets := MoveValues(items, newHashSet, buckets, newBuckets, placed);
        placed := placed + Elements(items);
      }
      openHashSet := newHashSet;
      Buckets := newBuckets;
      Repr := {this, policy, openHashSet} + buckets;
    }

    /**
      * The inner loop of `ReHash`: pushes the distinct values `items`, none of
      * them placed yet, onto their buckets in `hashSet`.
      */
    method MoveValues(items: seq<string>, hashSet: array<Bucket?>, ghost objs: set<object>,
                      ghost t: seq<seq<string>>, ghost placed: set<string>)
      returns (ghost t': seq<seq<string>>)
      requires policy.Valid() && hashSet.Length == policy.capacity && |t| == hashSet.Length
      requires forall x :: 0 <= x < hashSet.Length ==>
        hashSet[x] != null && hashSet[x] in objs && hashSet[x].bucket == t[x]
      requires forall x, y :: 0 <= x < y < hashSet.Length ==> hashSet[x] != hashSet[y]
      requires WellPlaced(t) && Holds(t, placed)
      requires NoDuplicates(items) && forall k :: 0 <= k < |items| ==> items[k] !in placed
      modifies hashSet[..]
      ensures |t'| == hashSet.Length
      ensures forall x :: 0 <= x < hashSet.Length ==>
        hashSet[x] != null && hashSet[x] in objs && hashSet[x].bucket == t'[x]
      ensures WellPlaced(t') && Holds(t', placed + Elements(items))
    {
      t' := t;
      ghost var done := placed;
      for k := 0 to |items|
        invariant |t'| == hashSet.Length
        invariant forall x :: 0 <= x < hashSet.Length ==>
          hashSet[x] != null && hashSet[x] in objs && hashSet[x].bucket == t'[x]
        invariant WellPlaced(t') && Holds(t', done)
        invariant done == placed + Elements(items[..k])
      {
        var value := items[k];
        var newIndex := Clamp(Hash(value));
        var valid := policy.IsIndexValid(newIndex);
        if valid {
          assert value !in done by {
            assert value !in items[..k];
          }
          t' := PushInto(hashSet, value, objs, t', done);
          done := done + {value};
          assert items[..k + 1] == items[..k] + [value];
          assert Elements(items[..k + 1]) == Elements(items[..k]) + {value};
        } else {
          assert false;
        }
      }
      assert items[..|items|] == items;
    }

    /** Grows the table when the load factor is above the upper factor. */
    method ReHashAfterAddition()
      requires Structured() && policy.Valid() && openHashSet.Length == policy.capacity
      modifies Repr
      ensures Structured() && policy.Valid() && openHashSet.Length == policy.capacity && fresh(Repr - old(Repr))
      ensures Contents == old(Contents)
      ensures policy.numOfElements == old(policy.numOfElements)
      ensures policy.lowLoadFactor == old(policy.lowLoadFactor) && policy.upLoadFactor == old(policy.upLoadFactor)
      ensures policy.capacity == CapacityAfterAddition(policy.numOfElements, old(policy.capacity), policy.upLoadFactor)
      ensures policy.capacity == old(policy.capacity) ==> Buckets == old(Buckets)
    {
      var loadFactor := LoadFactor(policy.numOfElements, policy.capacity);
      if loadFactor > policy.upLoadFactor {
        EnlargeSet();
      }
    }

    /** Shrinks the table when the load factor is below the lower factor. */
    method ReHashAfterDeletion()
      requires Structured() && policy.Valid() && openHashSet.Length == policy.capacity
      modifies Repr
      ensures Structured() && policy.Valid() && openHashSet.Length == policy.capacity && fresh(Repr - old(Repr))
      ensures Contents == old(Contents)
      ensures policy.numOfElements == old(policy.numOfElements)
      ensures policy.lowLoadFactor == old(policy.lowLoadFactor) && policy.upLoadFactor == old(policy.upLoadFactor)
      ensures policy.capacity == CapacityAfterDeletion(policy.numOfElements, old(policy.capacity), policy.lowLoadFactor)
    {
      var loadFactor := LoadFactor(policy.numOfElements, policy.capacity);
      if loadFactor < policy.lowLoadFactor {
        MinimizeSet();
      }
    }

    /** Halves the capacity and re-buckets, unless the capacity is already 1. */
    method MinimizeSet()
      requires Structured() && policy.Valid() && openHashSet.Length == policy.capacity
      modifies Repr
      ensures Structured() && policy.Valid() && openHashSet.Length == policy.capacity && fresh(Repr - old(Repr))
      ensures Contents == old(Contents)
      ensures policy.numOfElements == old(policy.numOfElements)
      ensures policy.lowLoadFactor == old(policy.lowLoadFactor) && policy.upLoadFactor == old(policy.upLoadFactor)
      ensures policy.capacity == if old(policy.capacity) >= 2 then old(policy.capacity) / 2 else old(policy.capacity)
    {
      if policy.capacity >= 2 {
        policy.capacity := policy.capacity / 2;
        ReHash();
      }
    }

    /** Doubles the capacity and re-buckets. */
    method EnlargeSet()
      requires Structured() && policy.Valid() && openHashSet.Length == policy.capacity
      modifies Repr
      ensures Structured() && policy.Valid() && openHashSet.Length == policy.capacity && fresh(Repr - old(Repr))
      ensures Contents == old(Contents)
      ensures policy.numOfElements == old(policy.numOfElements)
      ensures policy.lowLoadFactor == old(policy.lowLoadFactor) && policy.upLoadFactor == old(policy.upLoadFactor)
      ensures policy.capacity == 2 * old(policy.capacity)
    {
      policy.capacity := 2 * policy.capacity;
      ReHash();
    }
  }
}
