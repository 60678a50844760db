/**
  * One slot of the open table: a linked list of strings that grows at its
  * front.  The bucket itself accepts duplicates; the table keeps them out.
  */
module Buckets {
  import opened Nullable

  predicate NoDuplicates(s: seq<string>)
  {
    forall i, j :: 0 <= i < j < |s| ==> s[i] != s[j]
  }

  /** Position of the first occurrence of `x` in `s`. */
  function FirstIndex(s: seq<string>, x: string): (i: nat)
    requires x in s
    ensures i < |s| && s[i] == x
    ensures forall j :: 0 <= j < i ==> s[j] != x
  {
    if s[0] == x then 0 else 1 + FirstIndex(s[1..], x)
  }

  /** `s` without its first occurrence of `x` (what `LinkedList.remove(Object)` leaves). */
  function RemoveFirst(s: seq<string>, x: string): seq<string>
    requires x in s
  {
    var i := FirstIndex(s, x);
    s[..i] + s[i + 1..]
  }

  /** Exactly one copy of `x` goes, and every other element keeps its relative position. */
  lemma RemoveFirstRemovesOneCopy(s: seq<string>, x: string)
    requires x in s
    ensures var i := FirstIndex(s, x);
      |RemoveFirst(s, x)| == |s| - 1 &&
      (forall k :: 0 <= k < i ==> RemoveFirst(s, x)[k] == s[k]) &&
      (forall k :: i <= k < |s| - 1 ==> RemoveFirst(s, x)[k] == s[k + 1])
    ensures multiset(RemoveFirst(s, x)) == multiset(s) - multiset{x}
  {
    var i := FirstIndex(s, x);
    assert s == s[..i] + [x] + s[i + 1..];
  }

  /** Without duplicates, removing the first occurrence removes the value altogether. */
  lemma RemoveFirstWithoutDuplicates(s: seq<string>, x: string)
    requires x in s && NoDuplicates(s)
    ensures NoDuplicates(RemoveFirst(s, x))
    ensures forall y :: y in RemoveFirst(s, x) <==> y in s && y != x
  {
    var i := FirstIndex(s, x);
    var r := RemoveFirst(s, x);
    RemoveFirstRemovesOneCopy(s, x);
    forall y
      ensures y in r <==> y in s && y != x
    {
      if y in r {
        var k :| 0 <= k < |r| && r[k] == y;
        assert y == if k < i then s[k] else s[k + 1];
      }
      if y in s && y != x {
        var k :| 0 <= k < |s| && s[k] == y;
        assert k != i;
        assert y == if k < i then r[k] else r[k - 1];
      }
    }
  }

  class Bucket {
    var bucket: seq<string>

    /** A new bucket is empty. */
    constructor ()
      ensures bucket == []
    {
      bucket := [];
    }

    /** Pushes a non-null value at the front, even when it is already present; null is refused. */
    method Add(newValue: Option<string>) returns (added: bool)
      modifies this
      ensures added <==> newValue.Some?
      ensures added ==> bucket == [newValue.value] + old(bucket)
      ensures !added ==> bucket == old(bucket)
    {
      if newValue.Some? {
        bucket := [newValue.value] + bucket;
        return true;
      }
      return false;
    }

    /** Membership in the list; null is never stored, so it is never found. */
    method Contains(searchVal: Option<string>) returns (found: bool)
      ensures found <==> searchVal.Some? && exists k :: 0 <= k < |bucket| && bucket[k] == searchVal.value
    {
      found := searchVal.Some? && searchVal.value in bucket;
    }

    /**
      * Removes the first occurrence of a non-null value and reports whether there
      * was one; a null argument changes nothing and reports true.
      */
    method Delete(toDelete: Option<string>) returns (result: bool)
      modifies this
      ensures toDelete.None? ==> result && bucket == old(bucket)
      ensures toDelete.Some? ==> (result <==> toDelete.value in old(bucket))
      ensures toDelete.Some? && result ==> bucket == RemoveFirst(old(bucket), toDelete.value)
      ensures toDelete.Some? && !result ==> bucket == old(bucket)
    {
      if toDelete.Some? {
        if toDelete.value in bucket {
          bucket := RemoveFirst(bucket, toDelete.value);
          return true;
        }
        return false;
      }
      return true;
    }

    method Size() returns (n: int)
      ensures n == |bucket|
    {
      n := |bucket|;
    }

    /** The elements in the order an iterator from index 0 visits them. */
    method BucketIterator() returns (items: seq<string>)
      ensures |items| == |bucket| && forall k :: 0 <= k < |items| ==> items[k] == bucket[k]
    {
      items := bucket;
    }
  }
}
