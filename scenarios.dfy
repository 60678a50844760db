/**
  * Whole-table runs that the growth and tombstone rules predict, stated on
  * the two classes through their contracts alone.
  */
module Scenarios {
  import opened Nullable
  import opened SimpleHashSets
  import opened OpenHashSets
  import opened ClosedHashSets
  import opened HashTableCells

  /**
    * With the default factors the open table doubles on the 13th distinct
    * insertion into 16 buckets (13/16 > 0.75, while 12/16 is not); the values
    * inserted are the one-letter strings "a" to "m".
    */
  method OpenThirteenthInsertDoubles() returns (sizes: seq<int>, capacities: seq<int>)
    ensures |sizes| == 13 && |capacities| == 13
    ensures forall i :: 0 <= i < 13 ==> sizes[i] == i + 1
    ensures forall i :: 0 <= i < 12 ==> capacities[i] == 16
    ensures capacities[12] == 32
  {
    var s := new OpenHashSet();
    sizes, capacities := [], [];
    for i := 0 to 13
      invariant s.Valid() && fresh(s.Repr)
      invariant s.policy.upLoadFactor == DEFAULT_HIGHER_CAPACITY
      invariant forall v :: v in s.Contents ==> |v| == 1 && 'a' as int <= v[0] as int < 'a' as int + i
      invariant s.policy.numOfElements == i
      invariant s.policy.capacity == if i <= 12 then 16 else 32
      invariant |sizes| == i && |capacities| == i
      invariant forall k :: 0 <= k < i ==> sizes[k] == k + 1
      invariant forall k :: 0 <= k < i ==> capacities[k] == if k < 12 then 16 else 32
    {
      var added := s.Add(Some([('a' as int + i) as char]));
      var n := s.Size();
      var c := s.Capacity();
      sizes, capacities := sizes + [n], capacities + [c];
    }
  }

  /** A null element and a repeated one are skipped: ["a", "a", "b", null] builds a set of two. */
  method OpenFromDataSkipsRepeats() returns (size: int, hasA: bool, hasC: bool)
    ensures size == 2 && hasA && !hasC
  {
    var data := [Some("a"), Some("a"), Some("b"), None];
    var s := new OpenHashSet.FromData(data);
    assert "a" in s.Contents && "b" in s.Contents;
    assert s.Contents == {"a", "b"};
    size := s.Size();
    hasA := s.Contains(Some("a"));
    hasC := s.Contains(Some("c"));
  }

  /** Insert `x` into a new closed table: it lands at its first probe and is found there. */
  method ClosedInsertOne(x: string) returns (s: ClosedHashSet)
    ensures s.Valid() && fresh(s.Repr)
    ensures s.Cells == Fresh(16)[Slot(x, 0, 16) := CellState(Some(x), false)]
    ensures Lookup(s.Cells, x) == Slot(x, 0, 16)
    ensures s.policy.numOfElements == 1 && s.policy.capacity == 16
    ensures s.policy.lowLoadFactor == DEFAULT_LOWER_CAPACITY && s.policy.upLoadFactor == DEFAULT_HIGHER_CAPACITY
  {
    s := new ClosedHashSet();
    FreshLookup(16, x);
    var added := s.Add(Some(x));
    AddedValueIsFound(Fresh(16), x, 0);
  }

  /**
    * Then delete `x`: the table is empty, so its shrink check halves it to a
    * fresh array of 8 cells.
    */
  method ClosedInsertThenDelete(x: string) returns (s: ClosedHashSet)
    ensures s.Valid() && fresh(s.Repr)
    ensures s.Cells == Fresh(8) && s.policy.numOfElements == 0 && s.policy.capacity == 8
    ensures s.policy.upLoadFactor == DEFAULT_HIGHER_CAPACITY
  {
    s := ClosedInsertOne(x);
    ghost var tombstone := s.Cells[Slot(x, 0, 16) := CellState(Some(x), true)];
    var deleted := s.Delete(Some(x));
    RebuiltWithoutLive(tombstone, 16, 8);
  }

  /**
    * Insert `x`, delete it, insert it again: the second insertion finds `x`
    * absent and stores it at its first probe in the 8-cell array, where the
    * lookup finds it.
    */
  method ClosedInsertDeleteInsert(x: string) returns (s: ClosedHashSet)
    ensures s.Valid() && fresh(s.Repr)
    ensures Lookup(s.Cells, x) == Slot(x, 0, 8)
    ensures s.policy.numOfElements == 1 && s.policy.capacity == 8
  {
    s := ClosedInsertThenDelete(x);
    FreshLookup(8, x);
    var added := s.Add(Some(x));
    AddedValueIsFound(Fresh(8), x, 0);
  }

  /** After insert, delete, insert, the stale tombstone does not hide `x`: it is present and counted once. */
  method ClosedReinsertAfterDelete(x: string) returns (found: bool, size: int, capacity: int)
    ensures found && size == 1 && capacity == 8
  {
    var s := ClosedInsertDeleteInsert(x);
    found := s.Contains(x);
    size := s.Size();
    capacity := s.Capacity();
  }

  /**
    * The constructor's run on the closed table: adding "a", "a", "b" to a new
    * table skips the repeat, so two values are counted and both are found.
    */
  method ClosedFromDataSkipsRepeats() returns (size: int, hasA: bool, hasB: bool)
    ensures size == 2 && hasA && hasB
  {
    var s := ClosedInsertTwice("a");
    ghost var before := s.Cells;
    SecondValueFits("a", "b");
    var second := s.Add(Some("b"));
    assert s.Cells[Slot("a", 0, 16)] == before[Slot("a", 0, 16)];
    size := s.Size();
    hasA := s.Contains("a");
    hasB := s.Contains("b");
  }

  /** Inserting `x` a second time changes nothing: the table is still the one `ClosedInsertOne` built. */
  method ClosedInsertTwice(x: string) returns (s: ClosedHashSet)
    ensures s.Valid() && fresh(s.Repr)
    ensures s.Cells == Fresh(16)[Slot(x, 0, 16) := CellState(Some(x), false)]
    ensures s.policy.numOfElements == 1 && s.policy.capacity == 16
    ensures s.policy.upLoadFactor == DEFAULT_HIGHER_CAPACITY
  {
    s := ClosedInsertOne(x);
    var again := s.Add(Some(x));
  }

  /**
    * In a new table holding only `x`, another value `y` is absent and has a
    * free slot, which is not the cell of `x`.
    */
  lemma SecondValueFits(x: string, y: string)
    requires x != y
    ensures var cells := Fresh(16)[Slot(x, 0, 16) := CellState(Some(x), false)];
      Lookup(cells, y) == -1 && FreeSlot(cells, y) != -1 && FreeSlot(cells, y) != Slot(x, 0, 16)
  {
    var cells := Fresh(16)[Slot(x, 0, 16) := CellState(Some(x), false)];
    var other := if Slot(x, 0, 16) == 0 then 1 else 0;
    assert cells[other].deleted;
    FreeSlotExists(cells, y);
  }

  /** The closed table grows on reaching the upper factor: its 12th insertion into 16 cells doubles it. */
  lemma ClosedTwelfthInsertDoubles()
    ensures ClosedHashSets.CapacityAfterAddition(11, 16, DEFAULT_HIGHER_CAPACITY) == 16
    ensures ClosedHashSets.CapacityAfterAddition(12, 16, DEFAULT_HIGHER_CAPACITY) == 32
    ensures OpenHashSets.CapacityAfterAddition(12, 16, DEFAULT_HIGHER_CAPACITY) == 16
  {
  }
}
