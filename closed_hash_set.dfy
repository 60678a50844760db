/**
  * The closed (open-addressing) table: one `HashTableCell` per slot, probed
  * along `clamp(hashCode + (i + i*i)/2)` for attempts i = 0 .. capacity-1.
  * Deleted cells are tombstones that keep their value; a lookup stops at the
  * first probed cell whose stored value matches, and reports absent when that
  * cell is a tombstone.  Growth is checked after an insertion with a
  * non-strict comparison, shrinking after a removal.  A resize writes every
  * live value into the slot of its first probe in a fresh array, without
  * looking at what that slot already holds.
  */
module ClosedHashSets {
  import opened Nullable
  import opened Arith
  import opened JavaStrings
  import opened Clamping
  import opened Probing
  import opened SimpleHashSets
  import opened HashTableCells

  /** Slot examined by attempt `i` when probing for `v` in a table of `capacity` cells. */
  function Slot(v: string, i: nat, capacity: int): int
    requires capacity >= 1
  {
    Probe(Hash(v), i, capacity)
  }

  /** A cell that holds a value and is not deleted. */
  predicate IsLive(c: CellState)
  {
    c.value.Some? && !c.deleted
  }

  /** The closed table grows when the load factor reaches the upper factor. */
  predicate NeedsGrowth(count: int, capacity: int, upper: real)
    requires capacity >= 1
  {
    LoadFactor(count, capacity) >= upper
  }

  /** Capacity after the growth check that follows an insertion. */
  function CapacityAfterAddition(count: int, capacity: int, upper: real): (c: int)
    requires IsPowerOfTwo(capacity)
    ensures IsPowerOfTwo(c)
    ensures c == capacity || c == 2 * capacity
    ensures c == 2 * capacity <==> count as real >= upper * capacity as real
  {
    LoadFactorCompare(count, capacity, upper);
    if NeedsGrowth(count, capacity, upper) then 2 * capacity else capacity
  }

  /**
    * The search of `findValue` from attempt `i` on: the first probed cell
    * whose stored value is `v` decides, giving its slot when it is live and
    * -1 when it is a tombstone; -1 when no probed cell stores `v`.
    */
  function LookupFrom(cells: seq<CellState>, v: string, i: nat): (r: int)
    requires |cells| >= 1 && i <= |cells|
    ensures r == -1 || (0 <= r < |cells| && cells[r] == CellState(Some(v), false))
    ensures (forall j :: i <= j < |cells| ==> cells[Slot(v, j, |cells|)].value != Some(v)) ==> r == -1
    decreases |cells| - i
  {
    if i == |cells| then -1
    else
      var index := Slot(v, i, |cells|);
      if cells[index].value == Some(v) then (if cells[index].deleted then -1 else index)
      else LookupFrom(cells, v, i + 1)
  }

  function Lookup(cells: seq<CellState>, v: string): int
    requires |cells| >= 1
  {
    LookupFrom(cells, v, 0)
  }

  /** The first attempt `j` whose cell stores `v` decides the lookup, whatever comes after it. */
  lemma {:induction false} LookupStopsAtFirstMatch(cells: seq<CellState>, v: string, i: nat, j: nat)
    requires |cells| >= 1 && i <= j < |cells|
    requires cells[Slot(v, j, |cells|)].value == Some(v)
    requires forall k :: i <= k < j ==> cells[Slot(v, k, |cells|)].value != Some(v)
    ensures LookupFrom(cells, v, i) == if cells[Slot(v, j, |cells|)].deleted then -1 else Slot(v, j, |cells|)
    decreases j - i
  {
    if i < j {
      LookupStopsAtFirstMatch(cells, v, i + 1, j);
    }
  }

  /** Slot of the first deleted cell along the probes of `v` from attempt `i` on, or -1. */
  function FreeSlotFrom(cells: seq<CellState>, v: string, i: nat): (r: int)
    requires |cells| >= 1 && i <= |cells|
    ensures r == -1 || (0 <= r < |cells| && cells[r].deleted)
    ensures r == -1 <==> forall j :: i <= j < |cells| ==> !cells[Slot(v, j, |cells|)].deleted
    decreases |cells| - i
  {
    if i == |cells| then -1
    else
      var index := Slot(v, i, |cells|);
      if cells[index].deleted then index else FreeSlotFrom(cells, v, i + 1)
  }

  function FreeSlot(cells: seq<CellState>, v: string): int
    requires |cells| >= 1
  {
    FreeSlotFrom(cells, v, 0)
  }

  /** The free slot is the first deleted cell along the probes. */
  lemma {:induction false} FreeSlotIsFirstDeleted(cells: seq<CellState>, v: string, i: nat, j: nat)
    requires |cells| >= 1 && i <= j < |cells|
    requires cells[Slot(v, j, |cells|)].deleted
    requires forall k :: i <= k < j ==> !cells[Slot(v, k, |cells|)].deleted
    ensures FreeSlotFrom(cells, v, i) == Slot(v, j, |cells|)
    decreases j - i
  {
    if i < j {
      FreeSlotIsFirstDeleted(cells, v, i + 1, j);
    }
  }

  /**
    * Because the probes of a power-of-two table visit every slot, an insertion
    * finds a free cell exactly when some cell of the table is deleted.
    */
  lemma FreeSlotExists(cells: seq<CellState>, v: string)
    requires IsPowerOfTwo(|cells|)
    ensures FreeSlot(cells, v) != -1 <==> exists s :: 0 <= s < |cells| && cells[s].deleted
  {
    if s :| 0 <= s < |cells| && cells[s].deleted {
      ProbesCoverTable(Hash(v), |cells|, s);
      var i :| 0 <= i < |cells| && Probe(Hash(v), i, |cells|) == s;
      assert cells[Slot(v, i, |cells|)].deleted;
    }
  }

  /** The cells of a freshly reset array: every one empty and deleted. */
  function Fresh(capacity: nat): (t: seq<CellState>)
    ensures |t| == capacity && forall k :: 0 <= k < capacity ==> t[k] == EmptyCell
  {
    seq(capacity, _ => EmptyCell)
  }

  /**
    * What `reHash` builds from the first `n` old cells: each live value, in
    * order, written into the slot of its first probe in a fresh array of
    * `capacity` cells, whatever that slot already holds.
    */
  function Rebuilt(olds: seq<CellState>, n: nat, capacity: int): (t: seq<CellState>)
    requires n <= |olds| && capacity >= 1
    ensures |t| == capacity
    ensures forall s :: 0 <= s < capacity && IsLive(t[s]) ==> Slot(t[s].value.value, 0, capacity) == s
  {
    if n == 0 then Fresh(capacity)
    else
      var t := Rebuilt(olds, n - 1, capacity);
      var c := olds[n - 1];
      if IsLive(c) then t[Slot(c.value.value, 0, capacity) := CellState(c.value, false)] else t
  }

  /** The old cell among the first `n` whose live value was written last into slot `s`, or -1. */
  function LastWriter(olds: seq<CellState>, n: nat, capacity: int, s: int): (k: int)
    requires n <= |olds| && capacity >= 1
    ensures k == -1 || (0 <= k < n && IsLive(olds[k]) && Slot(olds[k].value.value, 0, capacity) == s)
    ensures forall j :: k < j < n && IsLive(olds[j]) ==> Slot(olds[j].value.value, 0, capacity) != s
  {
    if n == 0 then -1
    else if IsLive(olds[n - 1]) && Slot(olds[n - 1].value.value, 0, capacity) == s then n - 1
    else LastWriter(olds, n - 1, capacity, s)
  }

  /**
    * Each rebuilt cell holds the live value of the last old cell whose first
    * probe lands on it, or is empty when there is none: a later value
    * overwrites an earlier one with the same home slot.
    */
  lemma {:induction false} RebuiltCell(olds: seq<CellState>, n: nat, capacity: int, s: int)
    requires n <= |olds| && capacity >= 1 && 0 <= s < capacity
    ensures var k := LastWriter(olds, n, capacity, s);
      Rebuilt(olds, n, capacity)[s] == if k == -1 then EmptyCell else CellState(olds[k].value, false)
  {
    if n > 0 {
      RebuiltCell(olds, n - 1, capacity, s);
    }
  }

  /** A resize check's effect on the cells: none when the capacity stayed, a rebuild otherwise. */
  function AfterResize(cells: seq<CellState>, capacity: int): seq<CellState>
    requires capacity >= 1
  {
    if capacity == |cells| then cells else Rebuilt(cells, |cells|, capacity)
  }

  /** Number of live cells among the first `n`. */
  function LiveCount(cells: seq<CellState>, n: nat): nat
    requires n <= |cells|
  {
    if n == 0 then 0 else LiveCount(cells, n - 1) + (if IsLive(cells[n - 1]) then 1 else 0)
  }

  /** Overwriting one cell changes the live count by what was lost and what was written. */
  lemma {:induction false} LiveCountUpdate(cells: seq<CellState>, n: nat, s: int, c: CellState)
    requires n <= |cells| && 0 <= s < |cells|
    ensures LiveCount(cells[s := c], n) + (if s < n && IsLive(cells[s]) then 1 else 0)
         == LiveCount(cells, n) + (if s < n && IsLive(c) then 1 else 0)
  {
    if n > 0 {
      LiveCountUpdate(cells, n - 1, s, c);
    }
  }

  lemma {:induction false} FreshHasNoLiveCells(capacity: nat, n: nat)
    requires n <= capacity
    ensures LiveCount(Fresh(capacity), n) == 0
  {
    if n > 0 {
      FreshHasNoLiveCells(capacity, n - 1);
    }
  }

  /** A rebuild never holds more live cells than the old array had: values can only be lost. */
  lemma {:induction false} RebuiltLiveCount(olds: seq<CellState>, n: nat, capacity: int)
    requires n <= |olds| && capacity >= 1
    ensures LiveCount(Rebuilt(olds, n, capacity), capacity) <= LiveCount(olds, n)
  {
    if n == 0 {
      FreshHasNoLiveCells(capacity, capacity);
    } else {
      RebuiltLiveCount(olds, n - 1, capacity);
      var c := olds[n - 1];
      if IsLive(c) {
        var t := Rebuilt(olds, n - 1, capacity);
        LiveCountUpdate(t, capacity, Slot(c.value.value, 0, capacity), CellState(c.value, false));
      }
    }
  }

  /**
    * Two live values with the same home slot: the rebuild keeps only the
    * later one, so the live count drops from two to one.
    */
  lemma CollisionLosesValue(a: CellState, b: CellState, capacity: int)
    requires capacity >= 1 && IsLive(a) && IsLive(b) && a.value != b.value
    requires Slot(a.value.value, 0, capacity) == Slot(b.value.value, 0, capacity)
    ensures var t := Rebuilt([a, b], 2, capacity);
      t[Slot(a.value.value, 0, capacity)] == b &&
      (forall s :: 0 <= s < capacity ==> t[s].value != a.value) &&
      LiveCount([a, b], 2) == 2 && LiveCount(t, capacity) == 1
  {
    var s := Slot(a.value.value, 0, capacity);
    var empty := Fresh(capacity);
    var t1 := empty[s := a];
    var t := t1[s := b];
    assert Rebuilt([a, b], 1, capacity) == t1;
    assert Rebuilt([a, b], 2, capacity) == t;
    FreshHasNoLiveCells(capacity, capacity);
    LiveCountUpdate(empty, capacity, s, a);
    LiveCountUpdate(t1, capacity, s, b);
    assert LiveCount([a, b], 1) == 1;
  }

  /** "Aa" and "BB" share a hash code, so a resize that meets "Aa" before "BB" loses "Aa". */
  lemma CollidingStringsLoseValue()
    ensures var olds := [CellState(Some("Aa"), false), CellState(Some("BB"), false)];
      LiveCount(olds, 2) == 2 && LiveCount(Rebuilt(olds, 2, INITIAL_CAPACITY), INITIAL_CAPACITY) == 1
  {
    CollidingStrings();
    CollisionLosesValue(CellState(Some("Aa"), false), CellState(Some("BB"), false), INITIAL_CAPACITY);
  }

  /**
    * Writing an absent value into the first free cell of its probes makes the
    * lookup find it there: the cells probed before it are live and hold other values.
    */
  lemma {:induction false} AddedValueIsFound(cells: seq<CellState>, v: string, i: nat)
    requires |cells| >= 1 && i <= |cells|
    requires LookupFrom(cells, v, i) == -1 && FreeSlotFrom(cells, v, i) != -1
    ensures var s := FreeSlotFrom(cells, v, i);
      LookupFrom(cells[s := CellState(Some(v), false)], v, i) == s
    decreases |cells| - i
  {
    var s := FreeSlotFrom(cells, v, i);
    var index := Slot(v, i, |cells|);
    if !cells[index].deleted {
      AddedValueIsFound(cells, v, i + 1);
    }
  }

  /** Marking the found cell deleted makes the lookup report the value absent. */
  lemma {:induction false} DeletedValueIsAbsent(cells: seq<CellState>, v: string, i: nat)
    requires |cells| >= 1 && i <= |cells| && LookupFrom(cells, v, i) != -1
    ensures var s := LookupFrom(cells, v, i);
      LookupFrom(cells[s := CellState(Some(v), true)], v, i) == -1
    decreases |cells| - i
  {
    var s := LookupFrom(cells, v, i);
    var index := Slot(v, i, |cells|);
    if cells[index].value != Some(v) {
      DeletedValueIsAbsent(cells, v, i + 1);
    }
  }

  /**
    * A tombstone keeps its value, so deleting `v` changes no lookup of another
    * value: those lookups never stop at a cell that stores `v`.
    */
  lemma {:induction false} DeleteKeepsOtherLookups(cells: seq<CellState>, v: string, w: string, s: int, i: nat)
    requires |cells| >= 1 && i <= |cells| && 0 <= s < |cells| && cells[s].value == Some(v) && w != v
    ensures LookupFrom(cells[s := CellState(Some(v), true)], w, i) == LookupFrom(cells, w, i)
    decreases |cells| - i
  {
    if i < |cells| {
      DeleteKeepsOtherLookups(cells, v, w, s, i + 1);
    }
  }

  /** In a freshly reset array nothing is found and the first probe is free. */
  lemma FreshLookup(capacity: nat, v: string)
    requires capacity >= 1
    ensures Lookup(Fresh(capacity), v) == -1
    ensures FreeSlot(Fresh(capacity), v) == Slot(v, 0, capacity)
  {
  }

  /** Rebuilding cells none of which is live gives a freshly reset array. */
  lemma {:induction false} RebuiltWithoutLive(olds: seq<CellState>, n: nat, capacity: int)
    requires n <= |olds| && capacity >= 1
    requires forall k :: 0 <= k < n ==> !IsLive(olds[k])
    ensures Rebuilt(olds, n, capacity) == Fresh(capacity)
  {
    if n > 0 {
      RebuiltWithoutLive(olds, n - 1, capacity);
    }
  }

  /** Every value held by a live cell belongs to `values`. */
  ghost predicate LiveValuesIn(cells: seq<CellState>, values: set<string>)
  {
    forall k :: 0 <= k < |cells| && IsLive(cells[k]) ==> cells[k].value.value in values
  }

  /** A rebuild only copies live values, so it brings in no new value. */
  lemma RebuiltKeepsProvenance(olds: seq<CellState>, capacity: int, values: set<string>)
    requires capacity >= 1 && LiveValuesIn(olds, values)
    ensures LiveValuesIn(AfterResize(olds, capacity), values)
  {
    if capacity != |olds| {
      var t := Rebuilt(olds, |olds|, capacity);
      forall s | 0 <= s < capacity && IsLive(t[s])
        ensures t[s].value.value in values
      {
        RebuiltCell(olds, |olds|, capacity, s);
      }
    }
  }

  /**
    * Every live cell is the one the lookup of its value finds; in particular
    * no value is live in two cells.
    */
  ghost predicate LiveFound(cells: seq<CellState>)
  {
    |cells| >= 1 &&
    forall s :: 0 <= s < |cells| && IsLive(cells[s]) ==> Lookup(cells, cells[s].value.value) == s
  }

  /**
    * Overwriting any cell but the one the lookup of `w` finds, with a cell that
    * does not store `w`, leaves that lookup where it was.
    */
  lemma {:induction false} WriteOtherKeepsLookup(cells: seq<CellState>, w: string, i: nat, index: int, c: CellState)
    requires |cells| >= 1 && i <= |cells| && 0 <= index < |cells|
    requires LookupFrom(cells, w, i) != -1 && index != LookupFrom(cells, w, i) && c.value != Some(w)
    ensures LookupFrom(cells[index := c], w, i) == LookupFrom(cells, w, i)
    decreases |cells| - i
  {
    if i < |cells| && cells[Slot(w, i, |cells|)].value != Some(w) {
      WriteOtherKeepsLookup(cells, w, i + 1, index, c);
    }
  }

  /** Storing an absent value in its free slot keeps every live value found, the new one included. */
  lemma OccupyKeepsLiveFound(cells: seq<CellState>, v: string)
    requires LiveFound(cells) && Lookup(cells, v) == -1 && FreeSlot(cells, v) != -1
    ensures LiveFound(cells[FreeSlot(cells, v) := CellState(Some(v), false)])
  {
    var index := FreeSlot(cells, v);
    var c := CellState(Some(v), false);
    var t := cells[index := c];
    AddedValueIsFound(cells, v, 0);
    forall s | 0 <= s < |t| && IsLive(t[s])
      ensures Lookup(t, t[s].value.value) == s
    {
      if s != index {
        var w := t[s].value.value;
        assert Lookup(cells, w) == s;
        WriteOtherKeepsLookup(cells, w, 0, index, c);
      }
    }
  }

  /** Marking a live cell deleted keeps every other live value found. */
  lemma VacateKeepsLiveFound(cells: seq<CellState>, index: int)
    requires LiveFound(cells) && 0 <= index < |cells| && IsLive(cells[index])
    ensures LiveFound(cells[index := CellState(cells[index].value, true)])
  {
    var c := CellState(cells[index].value, true);
    var t := cells[index := c];
    forall s | 0 <= s < |t| && IsLive(t[s])
      ensures Lookup(t, t[s].value.value) == s
    {
      var w := t[s].value.value;
      assert Lookup(cells, w) == s && Lookup(cells, cells[index].value.value) == index;
      WriteOtherKeepsLookup(cells, w, 0, index, c);
    }
  }

  /** After a rebuild every live value sits at its first probe, where its lookup stops at once. */
  lemma RebuiltLiveFound(olds: seq<CellState>, n: nat, capacity: int)
    requires n <= |olds| && capacity >= 1
    ensures LiveFound(Rebuilt(olds, n, capacity))
  {
    var t := Rebuilt(olds, n, capacity);
    forall s | 0 <= s < capacity && IsLive(t[s])
      ensures Lookup(t, t[s].value.value) == s
    {
      assert Slot(t[s].value.value, 0, capacity) == s;
    }
  }

  /** A value that no live cell holds is not found, and a resize brings it back nowhere. */
  lemma AbsentStaysAbsent(cells: seq<CellState>, capacity: int, v: string)
    requires |cells| >= 1 && capacity >= 1
    requires forall k :: 0 <= k < |cells| && IsLive(cells[k]) ==> cells[k].value != Some(v)
    ensures Lookup(AfterResize(cells, capacity), v) == -1
  {
    if capacity != |cells| {
      var t := Rebuilt(cells, |cells|, capacity);
      forall s | 0 <= s < capacity && IsLive(t[s])
        ensures t[s].value != Some(v)
      {
        RebuiltCell(cells, |cells|, capacity, s);
      }
    }
  }

  /** Once the cell the lookup found is marked deleted, its value is absent, whatever resize follows. */
  lemma VacatedValueIsGone(cells: seq<CellState>, index: int, capacity: int)
    requires LiveFound(cells) && 0 <= index < |cells| && IsLive(cells[index]) && capacity >= 1
    ensures Lookup(AfterResize(cells[index := CellState(cells[index].value, true)], capacity),
                   cells[index].value.value) == -1
  {
    var v := cells[index].value.value;
    var t := cells[index := CellState(cells[index].value, true)];
    forall k | 0 <= k < |t| && IsLive(t[k])
      ensures t[k].value != Some(v)
    {
      assert Lookup(cells, t[k].value.value) == k && Lookup(cells, v) == index;
    }
    AbsentStaysAbsent(t, capacity, v);
  }

  class ClosedHashSet {
    const policy: SimpleHashSet
    var closedHashSet: array<HashTableCell?>
    /** The state of every cell, slot by slot. */
    ghost var Cells: seq<CellState>
    ghost var Repr: set<object>

    /** Every slot holds its own cell, whose state is the matching entry of `Cells`. */
    ghost predicate Filled()
      reads this, Repr
    {
      this in Repr && policy in Repr && closedHashSet in Repr &&
      |Cells| == closedHashSet.Length &&
      (forall k :: 0 <= k < closedHashSet.Length ==>
        closedHashSet[k] != null && closedHashSet[k] in Repr && closedHashSet[k].State() == Cells[k]) &&
      (forall k, k' :: 0 <= k < k' < closedHashSet.Length ==> closedHashSet[k] != closedHashSet[k'])
    }

    /**
      * The array length is the capacity, a power of two; the counter is at
      * least the number of live cells (a resize can lose values, so it may be
      * more); and the lookup of every live value finds the cell holding it.
      */
    ghost predicate Valid()
      reads this, Repr
    {
      Filled() && policy.Valid() && closedHashSet.Length == policy.capacity &&
      LiveCount(Cells, |Cells|) <= policy.numOfElements && LiveFound(Cells)
    }

    /** An empty table of 16 cells with the default load factors. */
    constructor ()
      ensures Valid() && fresh(Repr)
      ensures Cells == Fresh(INITIAL_CAPACITY) && policy.numOfElements == 0 && policy.capacity == INITIAL_CAPACITY
      ensures policy.lowLoadFactor == DEFAULT_LOWER_CAPACITY && policy.upLoadFactor == DEFAULT_HIGHER_CAPACITY
    {
      var p := new SimpleHashSet();
      policy := p;
      closedHashSet := new HashTableCell?[p.capacity];
      new;
      ghost var cells := Reset(closedHashSet);
      Cells := Fresh(closedHashSet.Length);
      Repr := {this, policy, closedHashSet} + cells;
      FreshHasNoLiveCells(|Cells|, |Cells|);
    }

    /** An empty table of 16 cells with the given load factors (upper first). */
    constructor WithLoadFactors(upperLoadFactor: real, lowerLoadFactor: real)
      ensures Valid() && fresh(Repr)
      ensures Cells == Fresh(INITIAL_CAPACITY) && policy.numOfElements == 0 && policy.capacity == INITIAL_CAPACITY
      ensures policy.lowLoadFactor == lowerLoadFactor && policy.upLoadFactor == upperLoadFactor
    {
      var p := new SimpleHashSet();
      policy := p;
      closedHashSet := new HashTableCell?[p.capacity];
      new;
      ghost var cells := Reset(closedHashSet);
      policy.lowLoadFactor := lowerLoadFactor;
      policy.upLoadFactor := upperLoadFactor;
      Cells := Fresh(closedHashSet.Length);
      Repr := {this, policy, closedHashSet} + cells;
      FreshHasNoLiveCells(|Cells|, |Cells|);
    }

    /**
      * A default table filled by adding the values one by one.  Because a
      * resize may lose values, all that is promised about the contents is
      * that every value reported present came from `data`.
      */
    constructor FromData(data: seq<Option<string>>)
      ensures Valid() && fresh(Repr)
      ensures forall v :: Lookup(Cells, v) != -1 ==> Some(v) in data
      ensures policy.lowLoadFactor == DEFAULT_LOWER_CAPACITY && policy.upLoadFactor == DEFAULT_HIGHER_CAPACITY
    {
      var p := new SimpleHashSet();
      policy := p;
      closedHashSet := new HashTableCell?[p.capacity];
      new;
      ghost var cells := Reset(closedHashSet);
      Cells := Fresh(closedHashSet.Length);
      Repr := {this, policy, closedHashSet} + cells;
      FreshHasNoLiveCells(|Cells|, |Cells|);
      AddAll(data);
      NonNullValuesMembership(data);
    }

    /** The constructor's loop: adds every element of `data` in order. */
    method AddAll(data: seq<Option<string>>)
      requires Valid() && LiveValuesIn(Cells, {})
      modifies Repr
      ensures Valid() && fresh(Repr - old(Repr))
      ensures LiveValuesIn(Cells, NonNullValues(data))
      ensures policy.lowLoadFactor == old(policy.lowLoadFactor) && policy.upLoadFactor == old(policy.upLoadFactor)
    {
      for i := 0 to |data|
        invariant Valid() && fresh(Repr - old(Repr))
        invariant LiveValuesIn(Cells, NonNullValues(data[..i]))
        invariant policy.lowLoadFactor == old(policy.lowLoadFactor) && policy.upLoadFactor == old(policy.upLoadFactor)
      {
        ghost var before := Cells;
        var added := Add(data[i]);
        assert data[..i + 1][..i] == data[..i];
        if added {
          var v := data[i].value;
          RebuiltKeepsProvenance(before[FreeSlot(before, v) := CellState(data[i], false)],
            policy.capacity, NonNullValues(data[..i + 1]));
        }
      }
      assert data[..|data|] == data;
    }

    /** Fills every slot with a distinct new empty cell; `cells` collects them. */
    method Reset(hashSet: array<HashTableCell?>) returns (ghost cells: set<object>)
      requires hashSet.Length == policy.capacity
      modifies hashSet
      ensures forall i :: 0 <= i < hashSet.Length ==>
        hashSet[i] != null && hashSet[i] in cells && hashSet[i].State() == EmptyCell
      ensures forall i, j :: 0 <= i < j < hashSet.Length ==> hashSet[i] != hashSet[j]
      ensures fresh(cells)
    {
      cells := {};
      for i := 0 to policy.capacity
        invariant forall k :: 0 <= k < i ==> hashSet[k] != null && hashSet[k] in cells && hashSet[k].State() == EmptyCell
        invariant forall k, j :: 0 <= k < j < i ==> hashSet[k] != hashSet[j]
        invariant fresh(cells)
      {
        var c := new HashTableCell();
        hashSet[i] := c;
        cells := cells + {c};
      }
    }

    /** Index clamped into the table: `index & (capacity - 1)`, computed as the Euclidean remainder. */
    function Clamp(index: int): (r: int)
      reads policy
      requires policy.Valid()
      ensures 0 <= r < policy.capacity
      ensures policy.capacity <= TWO_32 / 2 ==> r == JavaMask(index, policy.capacity)
    {
      var r := Clamping.Clamp(index, policy.capacity);
      if policy.capacity <= TWO_32 / 2 then ClampIsJavaMask(index, policy.capacity); r else r
    }

    /**
      * Slot of attempt `i` for `value`; it is the slot the source computes in
      * wrapping `int` arithmetic whenever the capacity fits an `int`.
      */
    function FindIndex(value: string, i: nat): (r: int)
      reads policy
      requires policy.Valid()
      ensures r == Slot(value, i, policy.capacity)
      ensures policy.capacity <= TWO_32 / 2 ==>
        r == JavaMask(ToInt32(Hash(value) + JavaOffset(i)), policy.capacity)
    {
      var r := Clamp(Hash(value) + Offset(i));
      if policy.capacity <= TWO_32 / 2 then ProbeIgnoresWrap(Hash(value), i, policy.capacity); r else r
    }

    /** Whether `index` addresses a deleted cell. */
    method IsCellDeleted(index: int) returns (deleted: bool)
      requires Valid()
      ensures deleted <==> 0 <= index < |Cells| && Cells[index].deleted
    {
      var valid := policy.IsIndexValid(index);
      if valid {
        deleted := closedHashSet[index].IsDeleted();
      } else {
        deleted := false;
      }
    }

    /** The probe loop of the source's `findValue`. */
    method FindValue(searchVal: string) returns (index: int)
      requires Valid()
      ensures index == Lookup(Cells, searchVal)
    {
      var deletedCell := -1;
      for i := 0 to policy.capacity
        invariant LookupFrom(Cells, searchVal, i) == Lookup(Cells, searchVal)
      {
        var probe := FindIndex(searchVal, i);
        var valid := policy.IsIndexValid(probe);
        if valid {
          var cellValue := closedHashSet[probe].GetValue();
          if cellValue.Some? && cellValue.value == searchVal {
            var deleted := IsCellDeleted(probe);
            if deleted {
              return deletedCell;
            } else {
              return probe;
            }
          }
        } else {
          assert false;
        }
      }
      return deletedCell;
    }

    /** Present exactly when some live cell holds the value. */
    method Contains(searchVal: string) returns (found: bool)
      requires Valid()
      ensures found <==> Lookup(Cells, searchVal) != -1
      ensures found <==> exists s :: 0 <= s < |Cells| && Cells[s] == CellState(Some(searchVal), false)
    {
      var index := FindValue(searchVal);
      found := index != -1;
    }

    /**
      * A non-null value the lookup reports absent goes into the first deleted
      * cell along its probes; then the counter goes up and the growth check runs.
      */
    method Add(newValue: Option<string>) returns (added: bool)
      requires Valid()
      modifies Repr
      ensures Valid() && fresh(Repr - old(Repr))
      ensures added <==>
        newValue.Some? && Lookup(old(Cells), newValue.value) == -1 && FreeSlot(old(Cells), newValue.value) != -1
      ensures added ==>
        policy.numOfElements == old(policy.numOfElements) + 1 &&
        policy.capacity == CapacityAfterAddition(policy.numOfElements, old(policy.capacity), policy.upLoadFactor) &&
        Cells == AfterResize(old(Cells)[FreeSlot(old(Cells), newValue.value) := CellState(newValue, false)],
                             policy.capacity)
      ensures added && policy.capacity == old(policy.capacity) ==> Lookup(Cells, newValue.value) != -1
      ensures !added ==>
        Cells == old(Cells) && policy.numOfElements == old(policy.numOfElements) &&
        policy.capacity == old(policy.capacity)
      ensures policy.lowLoadFactor == old(policy.lowLoadFactor) && policy.upLoadFactor == old(policy.upLoadFactor)
    {
      if newValue.Some? {
        var v := newValue.value;
        var present := Contains(v);
        if !present {
          var index := FreeIndex(v);
          if index != -1 {
            InsertAt(index, v);
            return true;
          }
        }
      }
      return false;
    }

    /** The probe loop of `add`: the first deleted cell along the probes of `v`, or -1 after `capacity` attempts. */
    method FreeIndex(v: string) returns (index: int)
      requires Valid()
      ensures index == FreeSlot(Cells, v)
    {
      for i := 0 to policy.capacity
        invariant FreeSlotFrom(Cells, v, i) == FreeSlot(Cells, v)
      {
        index := FindIndex(v, i);
        var deleted := IsCellDeleted(index);
        if deleted {
          return;
        }
      }
      return -1;
    }

    /** What `add` does once it has found a deleted cell: store, count, check for growth. */
    method InsertAt(index: int, v: string)
      requires Valid() && 0 <= index < |Cells| && Cells[index].deleted
      requires index == FreeSlot(Cells, v) && Lookup(Cells, v) == -1
      modifies Repr
      ensures Valid() && fresh(Repr - old(Repr))
      ensures policy.numOfElements == old(policy.numOfElements) + 1
      ensures policy.capacity == CapacityAfterAddition(policy.numOfElements, old(policy.capacity), policy.upLoadFactor)
      ensures Cells == AfterResize(old(Cells)[index := CellState(Some(v), false)], policy.capacity)
      ensures policy.capacity == old(policy.capacity) ==> Lookup(Cells, v) == index
      ensures policy.lowLoadFactor == old(policy.lowLoadFactor) && policy.upLoadFactor == old(policy.upLoadFactor)
    {
      AddedValueIsFound(Cells, v, 0);
      OccupyKeepsLiveFound(Cells, v);
      Occupy(index, v);
      policy.numOfElements := policy.numOfElements + 1;
      ReHashAfterAddition();
    }

    /** Stores `v` in the deleted cell at `index`, which raises the live count by one. */
    method Occupy(index: int, v: string)
      requires Filled() && 0 <= index < |Cells| && Cells[index].deleted
      modifies this, closedHashSet[index]
      ensures Filled() && Repr == old(Repr) && closedHashSet == old(closedHashSet)
      ensures Cells == old(Cells)[index := CellState(Some(v), false)]
      ensures LiveCount(Cells, |Cells|) == LiveCount(old(Cells), |old(Cells)|) + 1
    {
      closedHashSet[index].SetValue(Some(v));
      LiveCountUpdate(Cells, |Cells|, index, CellState(Some(v), false));
      Cells := Cells[index := CellState(Some(v), false)];
    }

    /**
      * Marks the live cell the lookup finds deleted (its value stays), lowers
      * the counter and runs the shrink check; otherwise nothing changes.
      */
    method Delete(toDelete: Option<string>) returns (deleted: bool)
      requires Valid()
      modifies Repr
      ensures Valid() && fresh(Repr - old(Repr))
      ensures deleted <==> toDelete.Some? && Lookup(old(Cells), toDelete.value) != -1
      ensures deleted ==>
        policy.numOfElements == old(policy.numOfElements) - 1 &&
        policy.capacity == CapacityAfterDeletion(policy.numOfElements, old(policy.capacity), policy.lowLoadFactor) &&
        Cells == AfterResize(old(Cells)[Lookup(old(Cells), toDelete.value) := CellState(toDelete, true)],
                             policy.capacity)
      ensures deleted ==> Lookup(Cells, toDelete.value) == -1
      ensures !deleted ==>
        Cells == old(Cells) && policy.numOfElements == old(policy.numOfElements) &&
        policy.capacity == old(policy.capacity)
      ensures policy.lowLoadFactor == old(policy.lowLoadFactor) && policy.upLoadFactor == old(policy.upLoadFactor)
    {
      if toDelete.None? {
        return false;
      }
      var index := FindValue(toDelete.value);
      var valid := policy.IsIndexValid(index);
      if valid {
        RemoveAt(index);
        return true;
      }
      return false;
    }

    /** What `delete` does once the lookup has found the value: mark deleted, count, check for shrinking. */
    method RemoveAt(index: int)
      requires Valid() && 0 <= index < |Cells| && IsLive(Cells[index])
      modifies Repr
      ensures Valid() && fresh(Repr - old(Repr))
      ensures policy.numOfElements == old(policy.numOfElements) - 1
      ensures policy.capacity == CapacityAfterDeletion(policy.numOfElements, old(policy.capacity), policy.lowLoadFactor)
      ensures Cells == AfterResize(old(Cells)[index := CellState(old(Cells)[index].value, true)], policy.capacity)
      ensures Lookup(Cells, old(Cells)[index].value.value) == -1
      ensures policy.lowLoadFactor == old(policy.lowLoadFactor) && policy.upLoadFactor == old(policy.upLoadFactor)
    {
      VacateKeepsLiveFound(Cells, index);
      Vacate(index);
      policy.numOfElements := policy.numOfElements - 1;
      ReHashAfterDeletion();
      VacatedValueIsGone(old(Cells), index, policy.capacity);
    }

    /** Marks the live cell at `index` deleted, keeping its value; the live count drops by one. */
    method Vacate(index: int)
      requires Filled() && 0 <= index < |Cells| && IsLive(Cells[index])
      modifies this, closedHashSet[index]
      ensures Filled() && Repr == old(Repr) && closedHashSet == old(closedHashSet)
      ensures Cells == old(Cells)[index := CellState(old(Cells)[index].value, true)]
      ensures LiveCount(Cells, |Cells|) + 1 == LiveCount(old(Cells), |old(Cells)|)
    {
      closedHashSet[index].Delete();
      var c := CellState(Cells[index].value, true);
      LiveCountUpdate(Cells, |Cells|, index, c);
      Cells := Cells[index := c];
    }

    /** The inherited `size()`: the counter, never below the number of live cells. */
    method Size() returns (n: int)
      requires Valid()
      ensures n == policy.numOfElements && n >= LiveCount(Cells, |Cells|) && n >= 0
    {
      n := policy.Size();
    }

    /** The inherited `capacity()`: the number of cells, a power of two. */
    method Capacity() returns (c: int)
      requires Valid()
      ensures c == closedHashSet.Length && IsPowerOfTwo(c)
    {
      c := policy.Capacity();
    }

    /**
      * Replaces the array with a fresh one of `capacity` cells holding every
      * live value in the cell of its first probe, in the order of the old array.
      */
    method ReHash()
      requires Filled() && policy.Valid() && LiveCount(Cells, |Cells|) <= policy.numOfElements
      modifies this
      ensures Valid() && fresh(Repr - old(Repr))
      ensures Cells == Rebuilt(old(Cells), |old(Cells)|, policy.capacity)
    {
      var newHashSet;
      ghost var cells, newCells;
      newHashSet, cells, newCells := Rehashed();
      RebuiltLiveCount(Cells, |Cells|, policy.capacity);
      RebuiltLiveFound(Cells, |Cells|, policy.capacity);
      closedHashSet := newHashSet;
      Cells := newCells;
      Repr := {this, policy, closedHashSet} + cells;
    }

    /**
      * The loops of `ReHash`: a freshly reset array of `capacity` cells into
      * which every live value of the current array is written at its first probe.
      */
    method Rehashed() returns (newHashSet: array<HashTableCell?>, ghost cells: set<object>,
                               ghost newCells: seq<CellState>)
      requires Filled() && policy.Valid()
      ensures fresh(newHashSet) && fresh(cells) && newHashSet.Length == policy.capacity
      ensures newCells == Rebuilt(Cells, |Cells|, policy.capacity)
      ensures forall x :: 0 <= x < newHashSet.Length ==>
        newHashSet[x] != null && newHashSet[x] in cells && newHashSet[x].State() == newCells[x]
      ensures forall x, y :: 0 <= x < y < newHashSet.Length ==> newHashSet[x] != newHashSet[y]
    {
      var capacity := policy.capacity;
      newHashSet := new HashTableCell?[capacity];
      cells := Reset(newHashSet);
      newCells := Fresh(capacity);
      for c := 0 to closedHashSet.Length
        modifies cells
        invariant newCells == Rebuilt(Cells, c, capacity)
        invariant forall x :: 0 <= x < capacity ==>
          newHashSet[x] != null && newHashSet[x] in cells && newHashSet[x].State() == newCells[x]
        invariant forall x, y :: 0 <= x < y < capacity ==> newHashSet[x] != newHashSet[y]
      {
        var value := LiveValue(c);
        if value.Some? {
          newCells := PlaceAtHome(value.value, newHashSet, cells, newCells);
        }
      }
    }

    /** The value of the cell at `index` when it is live (the test in `reHash`), or null. */
    method LiveValue(index: int) returns (value: Option<string>)
      requires Filled() && 0 <= index < |Cells|
      ensures value.Some? <==> IsLive(Cells[index])
      ensures value.Some? ==> value == Cells[index].value
    {
      var cell := closedHashSet[index];
      value := cell.GetValue();
      var deleted := cell.IsDeleted();
      if deleted {
        value := None;
      }
    }

    /**
      * The inner loop of `ReHash`: writes `value` into the cell of its first
      * probe in `hashSet`, whose cells have the states `t`; returns the new states.
      */
    method PlaceAtHome(value: string, hashSet: array<HashTableCell?>, ghost objs: set<object>,
                       ghost t: seq<CellState>)
      returns (ghost t': seq<CellState>)
      requires policy.Valid() && hashSet.Length == policy.capacity && |t| == hashSet.Length
      requires forall x :: 0 <= x < hashSet.Length ==>
        hashSet[x] != null && hashSet[x] in objs && hashSet[x].State() == t[x]
      requires forall x, y :: 0 <= x < y < hashSet.Length ==> hashSet[x] != hashSet[y]
      modifies hashSet[Slot(value, 0, hashSet.Length)]
      ensures t' == t[Slot(value, 0, hashSet.Length) := CellState(Some(value), false)]
      ensures forall x :: 0 <= x < hashSet.Length ==>
        hashSet[x] != null && hashSet[x] in objs && hashSet[x].State() == t'[x]
    {
      for i := 0 to policy.capacity
        invariant i == 0
      {
        var newIndex := FindIndex(value, i);
        var valid := policy.IsIndexValid(newIndex);
        if valid {
          hashSet[newIndex].SetValue(Some(value));
          t' := t[newIndex := CellState(Some(value), false)];
          return;
        } else {
          assert false;
        }
      }
      assert false;
    }

    /** Grows the table when the load factor has reached the upper factor. */
    method ReHashAfterAddition()
      requires Valid()
      modifies Repr
      ensures Valid() && fresh(Repr - old(Repr))
      ensures policy.numOfElements == old(policy.numOfElements)
      ensures policy.lowLoadFactor == old(policy.lowLoadFactor) && policy.upLoadFactor == old(policy.upLoadFactor)
      ensures policy.capacity == CapacityAfterAddition(policy.numOfElements, old(policy.capacity), policy.upLoadFactor)
      ensures Cells == AfterResize(old(Cells), policy.capacity)
    {
      var loadFactor := LoadFactor(policy.numOfElements, policy.capacity);
      if loadFactor >= policy.upLoadFactor {
        EnlargeSet();
      }
    }

    /** Shrinks the table when the load factor is below the lower factor. */
    method ReHashAfterDeletion()
      requires Valid()
      modifies Repr
      ensures Valid() && fresh(Repr - old(Repr))
      ensures policy.numOfElements == old(policy.numOfElements)
      ensures policy.lowLoadFactor == old(policy.lowLoadFactor) && policy.upLoadFactor == old(policy.upLoadFactor)
      ensures policy.capacity == CapacityAfterDeletion(policy.numOfElements, old(policy.capacity), policy.lowLoadFactor)
      ensures Cells == AfterResize(old(Cells), policy.capacity)
    {
      var loadFactor := LoadFactor(policy.numOfElements, policy.capacity);
      if loadFactor < policy.lowLoadFactor {
        MinimizeSet();
      }
    }

    /** Halves the capacity and rebuilds, unless the capacity is already 1. */
    method MinimizeSet()
      requires Valid()
      modifies Repr
      ensures Valid() && fresh(Repr - old(Repr))
      ensures policy.numOfElements == old(policy.numOfElements)
      ensures policy.lowLoadFactor == old(policy.lowLoadFactor) && policy.upLoadFactor == old(policy.upLoadFactor)
      ensures policy.capacity == if old(policy.capacity) >= 2 then old(policy.capacity) / 2 else old(policy.capacity)
      ensures Cells == AfterResize(old(Cells), policy.capacity)
    {
      if policy.capacity >= 2 {
        policy.capacity := policy.capacity / 2;
        ReHash();
      }
    }

    /** Doubles the capacity and rebuilds. */
    method EnlargeSet()
      requires Valid()
      modifies Repr
      ensures Valid() && fresh(Repr - old(Repr))
      ensures policy.numOfElements == old(policy.numOfElements)
      ensures policy.lowLoadFactor == old(policy.lowLoadFactor) && policy.upLoadFactor == old(policy.upLoadFactor)
      ensures policy.capacity == 2 * old(policy.capacity)
      ensures Cells == AfterResize(old(Cells), policy.capacity)
    {
      policy.capacity := 2 * policy.capacity;
      ReHash();
    }
  }
}
