# String hash sets: open chaining and closed quadratic probing

This project is a Dafny model of a small Java library of string hash sets.
`SimpleHashSet` is the abstract base. It holds the element counter, the capacity
(16 at first, always a power of two) and the lower and upper load factors
(0.25 and 0.75 by default). Two tables extend it:

- `OpenHashSet` keeps an array of `Bucket`s, which are push-front linked lists.
  A value lives in bucket `hashCode & (capacity - 1)`.
- `ClosedHashSet` keeps an array of `HashTableCell`s, each holding one value and
  a deleted flag. Attempt `i` for a value probes slot
  `(hashCode + (i + i*i)/2) & (capacity - 1)`, for `i = 0 .. capacity-1`.
  Deleting a value leaves a tombstone that keeps the value.

The open table doubles its capacity when the load factor exceeds the upper
factor (OpenHashSet.java:155). The closed table doubles it when the load factor
reaches the upper factor (ClosedHashSet.java:197). Both halve it (never below 1)
when the load factor falls below the lower factor. Each resize rebuilds the
whole array.

Layout, one module per file:

- `nullable.dfy` (`Nullable`): Java's nullable references as `Option`.
- `arith.dfy` (`Arith`): facts about Euclidean division.
- `java_string.dfy` (`JavaStrings`): 32-bit wrap-around and `String.hashCode`.
- `clamp.dfy` (`Clamping`): powers of two, and the proof that `h & (c - 1)`
  equals the Euclidean `h % c`, negative `h` included.
- `probing.dfy` (`Probing`): the triangular probe sequence. It proves that the
  first `capacity` attempts visit every slot. It also proves that Java's
  wrapping `int` arithmetic in the probe gives the same slot as exact arithmetic.
- `simple_hash_set.dfy` (`SimpleHashSets`): the shared state as a class, plus the
  shrink rule both tables share.
- `hash_table_cell.dfy` (`HashTableCells`): the closed table's cell class.
- `bucket.dfy` (`Buckets`): the open table's bucket class.
- `open_hash_set.dfy` (`OpenHashSets`): the open table as a class over
  `array<Bucket?>`. It has ghost `Contents` and `Buckets` fields, and an
  invariant that places every value in its own bucket with no duplicates.
- `closed_hash_set.dfy` (`ClosedHashSets`): the closed table as a class over
  `array<HashTableCell?>`. A ghost `Cells` sequence mirrors the cell states.
  Pure functions specify lookup (`LookupFrom`), free-cell search
  (`FreeSlotFrom`) and rebuild (`Rebuilt`).
- `scenarios.dfy` (`Scenarios`): whole-table runs stated through the classes'
  contracts, and one comparison of the two growth rules stated on the rule
  functions alone (`ClosedTwelfthInsertDoubles`).

Java inheritance is modelled by composition. Each table owns a `SimpleHashSet`
object named `policy` and updates its fields where the source updates the
inherited protected fields.

Behaviours of the code that the model keeps:

- The closed table's resize writes each live value into its probe-0 slot
  without checking that the slot is free (ClosedHashSet.java:166-171).
  `ClosedHashSets.CollidingStringsLoseValue` shows a value being lost: "Aa" and
  "BB" share a hash code.
- The open table's `delete(null)` returns false, because `contains(null)` is
  false (OpenHashSet.java:79-93). Only `Bucket.delete(null)` returns true.
- The open table's growth test is strict (OpenHashSet.java:155). With the
  default factors its 13th distinct insertion doubles the capacity to 32, since
  13/16 > 0.75 and 12/16 is not.
- A cell is a value plus a deleted flag (HashTableCell.java). A new cell holds
  no value and counts as deleted.
- The load factor is not always within `[lower, upper)`. A new table starts at
  0/16, below the lower factor (SimpleHashSet.java:31-32). Each check resizes at
  most once, and shrinking stops at capacity 1.

## Model

| member | source | states |
|---|---|---|
| SimpleHashSets.SimpleHashSet.constructor | SimpleHashSet.java:30-35 | a default table has 0 elements, capacity 16, lower factor 0.25 and upper factor 0.75, and its capacity is a power of two |
| SimpleHashSets.SimpleHashSet.WithLoadFactors | SimpleHashSet.java:42-48 | the two-factor constructor starts at 0 elements and capacity 16, and stores the given lower and upper factors |
| SimpleHashSets.SimpleHashSet.Capacity | SimpleHashSet.java:53-55 | returns the current capacity and changes nothing |
| SimpleHashSets.SimpleHashSet.GetLowerLoadFactor | SimpleHashSet.java:67-69 | returns the stored lower factor unchanged |
| SimpleHashSets.SimpleHashSet.GetUpperLoadFactor | SimpleHashSet.java:74-76 | returns the stored upper factor unchanged |
| SimpleHashSets.SimpleHashSet.Size | SimpleHashSet.java:102-104 | returns the element counter and changes nothing |
| SimpleHashSets.SimpleHashSet.IsIndexValid | SimpleHashSet.java:107-109 | true exactly when 0 <= index < capacity |
| SimpleHashSets.LoadFactor | OpenHashSet.java:147 | the load factor times the capacity is the count, so it is count/capacity computed exactly; it lies in [0, 1] when 0 <= count <= capacity |
| SimpleHashSets.LoadFactorCompare | OpenHashSet.java:146-158 | comparing count/capacity with a factor is the same as comparing count with factor * capacity, for both < and > |
| SimpleHashSets.CapacityAfterDeletion | OpenHashSet.java:146-166 | after a removal the capacity halves exactly when count < lower * capacity and capacity >= 2; the result stays a power of two >= 1 |
| SimpleHashSets.NonNullValuesMembership | OpenHashSet.java:47-53 | the values that adding a data array one element at a time keeps are exactly its non-null elements |
| HashTableCells.HashTableCell.constructor | HashTableCell.java:18-20 | a new cell holds no value and is marked deleted |
| HashTableCells.HashTableCell.SetValue | HashTableCell.java:26-31 | a non-null value is stored and clears the deleted flag; null leaves value and flag unchanged |
| HashTableCells.HashTableCell.Delete | HashTableCell.java:36-38 | sets the deleted flag and keeps the stored value |
| HashTableCells.HashTableCell.GetValue | HashTableCell.java:43-45 | returns the stored value, also after a delete, and changes nothing |
| HashTableCells.HashTableCell.IsDeleted | HashTableCell.java:50-52 | returns the deleted flag and changes nothing |
| Buckets.Bucket.constructor | Bucket.java:14-16 | a new bucket is the empty list |
| Buckets.Bucket.Add | Bucket.java:23-29 | null returns false and leaves the list unchanged; a non-null value goes to position 0, even if already present, and returns true |
| Buckets.Bucket.Contains | Bucket.java:36-39 | true exactly when the value occurs in the list (null never does) |
| Buckets.Bucket.Delete | Bucket.java:46-51 | null returns true and changes nothing; otherwise returns whether the value was present and removes only its first occurrence |
| Buckets.Bucket.Size | Bucket.java:56-58 | equals the length of the list |
| Buckets.Bucket.BucketIterator | Bucket.java:61-63 | yields the elements from index 0 in list order |
| Buckets.FirstIndex | Bucket.java:48 | the index of the first occurrence: it holds the value and no earlier index does |
| Buckets.RemoveFirstRemovesOneCopy | Bucket.java:48 | removing the first occurrence drops one copy and keeps the relative order of the others |
| Buckets.RemoveFirstWithoutDuplicates | Bucket.java:46-51 | in a duplicate-free list, removal deletes the value altogether and keeps the list duplicate-free |
| JavaStrings.ToInt32 | ClosedHashSet.java:129 | wrap-around lands in the int range, differs from the exact value by a multiple of 2^32, and leaves a value already in the int range unchanged |
| JavaStrings.Hash | OpenHashSet.java:67 | String.hashCode (31 * h + c over the characters, wrapping) is a 32-bit int |
| JavaStrings.CollidingStrings | ClosedHashSet.java:128-131 | the distinct strings "Aa" and "BB" have the same hash code, 2112, so they share every probe slot; this supports `ClosedHashSets.CollidingStringsLoseValue` |
| Clamping.DoubleIsPowerOfTwo | OpenHashSet.java:169-172 | doubling a power of two gives a power of two |
| Clamping.HalfIsPowerOfTwo | OpenHashSet.java:161-166 | halving a power of two that is at least 2 gives a power of two |
| Clamping.Clamp | OpenHashSet.java:114-116 | the clamped index lies in [0, capacity) for every hash code, negative ones included |
| Clamping.MaskIsMod | OpenHashSet.java:115 | masking a bit pattern with capacity - 1 keeps its remainder modulo the power-of-two capacity |
| Clamping.ClampIsJavaMask | OpenHashSet.java:114-116 | the two's-complement `h & (capacity - 1)` equals the Euclidean `h % capacity` for every int h and power-of-two capacity up to 2^31 |
| Probing.Probe | ClosedHashSet.java:128-131 | the slot of attempt i is in [0, capacity) |
| Probing.OffsetExact | ClosedHashSet.java:129 | i + i*i is even, so the halving in the offset is exact |
| Probing.OffsetsDistinct | ClosedHashSet.java:129 | two different attempts below a power-of-two capacity never give the same offset modulo the capacity |
| Probing.ProbesCoverTable | ClosedHashSet.java:71-79 | every slot of a power-of-two table is probed by some attempt below the capacity, from any hash code |
| Probing.JavaOffset | ClosedHashSet.java:129 | the source's offset `(i + i*i) / 2`, computed in wrapping int arithmetic with truncating division, lies in [-2^30, 2^30 - 1] and equals the exact offset whenever i + i*i does not overflow |
| Probing.ProbeIgnoresWrap | ClosedHashSet.java:128-131 | the slot computed with wrapping int arithmetic and a bit mask equals the exact sum clamped with the Euclidean remainder |
| OpenHashSets.CapacityAfterAddition | OpenHashSet.java:153-172 | the open table doubles exactly when count > upper * capacity (strict), and stays a power of two |
| OpenHashSets.EmptyBuckets | OpenHashSet.java:137-141 | a reset table has capacity empty buckets, holds nothing and is well placed |
| OpenHashSets.InsertKeepsInvariant | OpenHashSet.java:67-68 | pushing an absent value onto bucket clamp(hash(v)) keeps every value in its own bucket, keeps buckets duplicate-free and adds exactly v |
| OpenHashSets.RemoveKeepsInvariant | OpenHashSet.java:84-86 | removing a stored value from its bucket keeps the placement invariant and removes exactly that value |
| OpenHashSets.BucketHoldsItsValues | OpenHashSet.java:123-129 | bucket b holds exactly the stored values whose bucket index is b |
| OpenHashSets.SizeIsTotalLength | OpenHashSet.java:63-92 | for a well-placed table, the number of stored values equals the total length of the buckets |
| OpenHashSets.OpenHashSet.constructor | OpenHashSet.java:22-25 | an empty table of 16 empty buckets with the default factors |
| OpenHashSets.OpenHashSet.WithLoadFactors | OpenHashSet.java:34-39 | an empty table of 16 empty buckets with the given factors |
| OpenHashSets.OpenHashSet.FromData | OpenHashSet.java:47-53 | adding the data one by one stores exactly its non-null elements, repeats counted once |
| OpenHashSets.OpenHashSet.Reset | OpenHashSet.java:137-141 | fills every slot with a distinct new empty bucket |
| OpenHashSets.OpenHashSet.Clamp | OpenHashSet.java:114-116 | the index is in [0, capacity) and, for capacity up to 2^31, equals the source's bit mask |
| OpenHashSets.OpenHashSet.Contains | OpenHashSet.java:100-111 | null is not contained; otherwise the answer is membership in the set, and equally membership in bucket clamp(hash(v)) alone |
| OpenHashSets.OpenHashSet.Add | OpenHashSet.java:63-72 | null or a present value returns false with no change; otherwise adds v, raises the counter by one, and sets the capacity by the strict growth rule applied to the new count |
| OpenHashSets.OpenHashSet.PushToBucket | OpenHashSet.java:67-68 | the value goes to the front of its own bucket in the current array, and nothing else changes |
| OpenHashSets.OpenHashSet.PushInto | OpenHashSet.java:127-129 | the push shared by the rehash and by `add` (OpenHashSet.java:68): puts the value onto the front of bucket clamp(hash(v)) and changes no other bucket; an absent value added this way keeps the table well placed and duplicate-free, and the set grows by exactly that value |
| OpenHashSets.OpenHashSet.Delete | OpenHashSet.java:79-93 | null or an absent value returns false with no change; otherwise removes v, lowers the counter by one, and sets the capacity by the shrink rule |
| OpenHashSets.OpenHashSet.Size | SimpleHashSet.java:102-104 | the counter equals the number of stored values and the total bucket length |
| OpenHashSets.OpenHashSet.Capacity | SimpleHashSet.java:53-55 | the capacity equals the number of buckets and is a power of two |
| OpenHashSets.OpenHashSet.ReHash | OpenHashSet.java:120-134 | re-buckets every value into bucket clamp(hash(v)) of a fresh array of the new capacity, keeping the set of values |
| OpenHashSets.OpenHashSet.MoveValues | OpenHashSet.java:124-131 | pushes each value of one old bucket onto its bucket in the new array |
| OpenHashSets.OpenHashSet.ReHashAfterAddition | OpenHashSet.java:153-158 | grows exactly when count/capacity > upper, keeping the contents |
| OpenHashSets.OpenHashSet.ReHashAfterDeletion | OpenHashSet.java:146-151 | shrinks exactly when count/capacity < lower and capacity >= 2, keeping the contents |
| OpenHashSets.OpenHashSet.MinimizeSet | OpenHashSet.java:161-166 | halves the capacity and re-buckets only when the capacity is at least 2 |
| OpenHashSets.OpenHashSet.EnlargeSet | OpenHashSet.java:169-172 | doubles the capacity and re-buckets, keeping the contents |
| ClosedHashSets.CapacityAfterAddition | ClosedHashSet.java:195-214 | the closed table doubles exactly when count >= upper * capacity (non-strict), and stays a power of two |
| ClosedHashSets.LookupFrom | ClosedHashSet.java:136-154 | the lookup gives -1 or a live cell holding the value, and gives -1 when no probed cell stores it |
| ClosedHashSets.LookupStopsAtFirstMatch | ClosedHashSet.java:139-150 | the first probed cell storing the value decides: its slot if live, -1 if deleted |
| ClosedHashSets.FreeSlotFrom | ClosedHashSet.java:71-79 | the search gives a deleted cell, or -1 exactly when no probed cell is deleted |
| ClosedHashSets.FreeSlotIsFirstDeleted | ClosedHashSet.java:71-74 | the free slot is the first deleted cell along the probe attempts |
| ClosedHashSets.FreeSlotExists | ClosedHashSet.java:71-79 | in a power-of-two table an insertion finds a free cell exactly when some cell is deleted |
| ClosedHashSets.Fresh | ClosedHashSet.java:179-184 | a reset array has capacity cells, each empty and deleted |
| ClosedHashSets.Rebuilt | ClosedHashSet.java:158-176 | the rebuild has exactly capacity cells, and every live cell in it sits at the probe-0 slot of its value |
| ClosedHashSets.LastWriter | ClosedHashSet.java:162-171 | names the last live old cell whose probe-0 slot is s, or -1 when there is none |
| ClosedHashSets.RebuiltCell | ClosedHashSet.java:158-176 | each rebuilt cell holds the value of the last live old cell whose probe-0 slot it is, or is empty: later values overwrite earlier ones |
| ClosedHashSets.RebuiltLiveCount | ClosedHashSet.java:158-176 | a rebuild never has more live cells than the old array |
| ClosedHashSets.CollisionLosesValue | ClosedHashSet.java:166-171 | two live values with the same probe-0 slot leave only the later one after a rebuild: two live values become one |
| ClosedHashSets.CollidingStringsLoseValue | ClosedHashSet.java:162-171 | rebuilding live "Aa" then "BB" into 16 cells leaves one live cell out of two |
| ClosedHashSets.AddedValueIsFound | ClosedHashSet.java:69-77 | after an absent value is written into the first free cell of its probes, the lookup finds it there |
| ClosedHashSets.DeletedValueIsAbsent | ClosedHashSet.java:100-110 | after the found cell is marked deleted, the lookup reports the value absent |
| ClosedHashSets.DeleteKeepsOtherLookups | ClosedHashSet.java:106 | marking a cell deleted changes no lookup of any other value |
| ClosedHashSets.FreshLookup | ClosedHashSet.java:136-154 | in a reset array nothing is found and probe 0 is the free slot |
| ClosedHashSets.RebuiltWithoutLive | ClosedHashSet.java:158-176 | rebuilding from cells none of which is live gives a reset array |
| ClosedHashSets.RebuiltKeepsProvenance | ClosedHashSet.java:162-171 | a resize brings in no value that was not live before |
| ClosedHashSets.WriteOtherKeepsLookup | ClosedHashSet.java:136-154 | overwriting any cell other than the one the lookup of w finds, with a cell not storing w, leaves that lookup unchanged |
| ClosedHashSets.OccupyKeepsLiveFound | ClosedHashSet.java:69-77 | storing an absent value in its free slot keeps every live value found by its lookup at its own cell, the new value included |
| ClosedHashSets.VacateKeepsLiveFound | ClosedHashSet.java:100-110 | marking a live cell deleted keeps every other live value found by its lookup at its own cell |
| ClosedHashSets.RebuiltLiveFound | ClosedHashSet.java:158-176 | after a rebuild the lookup of every live value finds its cell |
| ClosedHashSets.AbsentStaysAbsent | ClosedHashSet.java:158-176 | a value held by no live cell is not found, and no resize brings it back |
| ClosedHashSets.VacatedValueIsGone | ClosedHashSet.java:100-112 | once the cell the lookup found is marked deleted, the value is not found again, whatever resize follows |
| ClosedHashSets.ClosedHashSet.constructor | ClosedHashSet.java:24-27 | an empty table of 16 deleted cells with the default factors |
| ClosedHashSets.ClosedHashSet.WithLoadFactors | ClosedHashSet.java:38-43 | an empty table of 16 deleted cells with the given factors |
| ClosedHashSets.ClosedHashSet.FromData | ClosedHashSet.java:52-58 | adding the data one by one leaves only values from the data reported present |
| ClosedHashSets.ClosedHashSet.AddAll | ClosedHashSet.java:55-57 | the constructor's loop over the data keeps the table valid; afterwards every live value is a non-null element of the data |
| ClosedHashSets.ClosedHashSet.Reset | ClosedHashSet.java:179-184 | fills every slot with a distinct new empty, deleted cell |
| ClosedHashSets.ClosedHashSet.Clamp | ClosedHashSet.java:119-121 | the index is in [0, capacity) and, for capacity up to 2^31, equals the source's bit mask |
| ClosedHashSets.ClosedHashSet.FindIndex | ClosedHashSet.java:128-131 | the slot is clamp(hash(v) + (i+i*i)/2), in [0, capacity), and equals the source's wrapping int computation |
| ClosedHashSets.ClosedHashSet.IsCellDeleted | ClosedHashSet.java:123-125 | true exactly when the index is valid and that cell is deleted |
| ClosedHashSets.ClosedHashSet.FindValue | ClosedHashSet.java:136-154 | the probe loop returns the specified lookup: the first cell storing the value decides, -1 if it is deleted or none matches |
| ClosedHashSets.ClosedHashSet.Contains | ClosedHashSet.java:90-93 | true exactly when some live cell holds the value, and exactly when the lookup finds one |
| ClosedHashSets.ClosedHashSet.Add | ClosedHashSet.java:69-82 | null or a value the lookup finds returns false with no change; otherwise writes v into the first deleted probed cell, raises the counter, changes no other cell, then resizes by the non-strict growth rule; when the capacity is unchanged the lookup finds the added value |
| ClosedHashSets.ClosedHashSet.FreeIndex | ClosedHashSet.java:71-79 | the probe loop returns the first deleted cell along attempts 0..capacity-1, or -1 |
| ClosedHashSets.ClosedHashSet.InsertAt | ClosedHashSet.java:74-76 | stores an absent value in its free slot, raises the counter by one and runs the growth check; when the capacity is unchanged the lookup finds the value at that slot |
| ClosedHashSets.ClosedHashSet.Occupy | ClosedHashSet.java:74 | only the chosen cell changes; it becomes live with the value |
| ClosedHashSets.ClosedHashSet.Delete | ClosedHashSet.java:100-112 | null or a value the lookup does not find returns false with no change; otherwise marks the found cell deleted with its value kept, lowers the counter, then resizes by the shrink rule; afterwards the lookup no longer finds the value |
| ClosedHashSets.ClosedHashSet.RemoveAt | ClosedHashSet.java:106-108 | marks the cell deleted, lowers the counter by one and runs the shrink check; afterwards the lookup does not find the value |
| ClosedHashSets.ClosedHashSet.Vacate | ClosedHashSet.java:106 | only the chosen cell changes; it becomes deleted and keeps its value |
| ClosedHashSets.ClosedHashSet.Size | SimpleHashSet.java:102-104 | returns the counter, which is never below the number of live cells |
| ClosedHashSets.ClosedHashSet.Capacity | SimpleHashSet.java:53-55 | the capacity equals the number of cells and is a power of two |
| ClosedHashSets.ClosedHashSet.ReHash | ClosedHashSet.java:158-176 | the new array is the rebuild: all-deleted cells at the new capacity, each live old value written into its probe-0 slot, in old-array order |
| ClosedHashSets.ClosedHashSet.Rehashed | ClosedHashSet.java:159-174 | the loops of the rebuild produce a fresh array whose cells are the specified rebuild |
| ClosedHashSets.ClosedHashSet.LiveValue | ClosedHashSet.java:163-165 | gives the cell's value exactly when the cell holds a value and is not deleted |
| ClosedHashSets.ClosedHashSet.PlaceAtHome | ClosedHashSet.java:166-171 | writes the value into the slot of attempt 0, whatever it held, since the index test always passes |
| ClosedHashSets.ClosedHashSet.ReHashAfterAddition | ClosedHashSet.java:195-200 | grows exactly when count/capacity >= upper, otherwise leaves the cells unchanged |
| ClosedHashSets.ClosedHashSet.ReHashAfterDeletion | ClosedHashSet.java:188-193 | shrinks exactly when count/capacity < lower and capacity >= 2, otherwise leaves the cells unchanged |
| ClosedHashSets.ClosedHashSet.MinimizeSet | ClosedHashSet.java:203-208 | halves the capacity and rebuilds only when the capacity is at least 2 |
| ClosedHashSets.ClosedHashSet.EnlargeSet | ClosedHashSet.java:211-214 | doubles the capacity and rebuilds |
| Scenarios.OpenThirteenthInsertDoubles | OpenHashSet.java:63-72 | with default factors, inserting "a" to "m" gives sizes 1..13; the capacity is 16 through the 12th insertion and 32 after the 13th |
| Scenarios.OpenFromDataSkipsRepeats | OpenHashSet.java:47-53 | building from ["a", "a", "b", null] gives size 2, with "a" contained and "c" not |
| Scenarios.ClosedInsertOne | ClosedHashSet.java:69-77 | inserting x into a new closed table stores it at probe 0, where the lookup finds it |
| Scenarios.ClosedInsertThenDelete | ClosedHashSet.java:100-110 | deleting x then empties the table, and the shrink check halves it to 8 fresh cells |
| Scenarios.ClosedInsertDeleteInsert | ClosedHashSet.java:69-82 | inserting x again stores it at probe 0 of the 8-cell array, and the lookup finds it there |
| Scenarios.ClosedReinsertAfterDelete | ClosedHashSet.java:90-93 | after insert x, delete x, insert x: contains(x) is true and size() is 1 |
| Scenarios.ClosedInsertTwice | ClosedHashSet.java:69-82 | adding x a second time to a table holding only x changes nothing |
| Scenarios.SecondValueFits | ClosedHashSet.java:69-79 | in a new table holding only x, any other value is absent and has a free slot other than the cell of x |
| Scenarios.ClosedFromDataSkipsRepeats | ClosedHashSet.java:52-58 | adding "a", "a", "b" to a new closed table gives size 2, with "a" and "b" both found |
| Scenarios.ClosedTwelfthInsertDoubles | ClosedHashSet.java:195-200 | with default factors the closed table doubles 16 to 32 at its 12th element (12/16 >= 0.75); the open table does not (12/16 is not > 0.75) |

## Left out

- SimpleSetPerformanceAnalyzer.java is not part of this model. It is a benchmarking harness made of timing loops, console output and file loading.
- CollectionFacadeSet.java is not part of this model. It only adapts the standard Java collections, which are not visible here.
- The `SimpleSet` interface is not part of this model. Only the operations the classes define are modelled.
- Load factors are Java `float`s in the source. Here they are exact `real`s. The default factors 0.25 and 0.75 are exact binary floats, and `((float) numOfElements) / capacity` is exact while the counter is below 2^24 and the capacity is a power of two. The scratch field `loadFactor` is not modelled.
- SimpleHashSets.LoadFactor: does not model the rounding of the int-to-float cast for counters of 2^24 or more (OpenHashSet.java:147,154; ClosedHashSet.java:189,196). From there on, `OpenHashSets.CapacityAfterAddition`, `ClosedHashSets.CapacityAfterAddition` and `SimpleHashSets.CapacityAfterDeletion` can decide differently from Java. For example, an open table of capacity 2^25 holding 25,165,825 values does not grow in Java, since the count rounds to 25,165,824 and 0.75 is not > 0.75; the model grows it. Likewise, a closed table of capacity 2^27 holding 2^25 - 1 values does not shrink in Java; the model shrinks it.
- JavaStrings.Hash: characters are Dafny Unicode scalar values, not UTF-16 code units. The hash therefore differs from Java's for strings with characters outside the Basic Multilingual Plane. Java strings holding an unpaired surrogate cannot be expressed as Dafny strings at all, so they are not modelled.
- The element counter and the capacity are unbounded integers. Java's 32-bit overflow of the counter and of a capacity doubled past 2^30 is not modelled. The agreement of the clamp with the bit mask is proved for capacities up to 2^31.
- ClosedHashSets.ClosedHashSet.Contains: takes a non-null string. The source throws a NullPointerException for null inside `findIndex`, and exceptions are not modelled. The same holds for `FindValue`.
- ClosedHashSets.ClosedHashSet.Size: promises only that the counter is at least the number of live cells, not that they are equal. A resize can lose values (see `ClosedHashSets.CollidingStringsLoseValue`), so the source does not keep them equal.
- ClosedHashSets.ClosedHashSet.FromData: promises only that every value reported present came from the data, not that every non-null element is present. A resize can lose values.
- ClosedHashSets.ClosedHashSet.AddAll: for the same reason, promises only that every live value afterwards came from the data, not that each element was added.
- Java inheritance and dynamic dispatch are modelled by composition: each table owns one `SimpleHashSet` object. Nothing else aliases that object.
- The bucket iterator is modelled as the sequence of elements it visits. Its `ListIterator` modification operations are not used by the source and are not modelled.
