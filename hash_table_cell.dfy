/**
  * One slot of the closed table: a value and a deleted flag.  A deleted cell
  * is free for insertion but keeps the value it last held (a tombstone).
  */
module HashTableCells {
  import opened Nullable

  /** What a cell holds at one moment. */
  datatype CellState = CellState(value: Option<string>, deleted: bool)

  /** The state of a newly built cell: no value, marked deleted. */
  const EmptyCell: CellState := CellState(None, true)

  class HashTableCell {
    var value: Option<string>
    var isDeleted: bool

    ghost function State(): CellState
      reads this
    {
      CellState(value, isDeleted)
    }

    /** A new cell holds no value and counts as deleted, so it is free. */
    constructor ()
      ensures State() == EmptyCell
    {
      value := None;
      isDeleted := true;
    }

    /** A non-null value is stored and the cell becomes live; null changes nothing. */
    method SetValue(newValue: Option<string>)
      modifies this
      ensures newValue.Some? ==> State() == CellState(newValue, false)
      ensures newValue.None? ==> State() == old(State())
    {
      if newValue.Some? {
        value := newValue;
        isDeleted := false;
      }
    }

    /** Marks the cell deleted; the stored value stays. */
    method Delete()
      modifies this
      ensures State() == CellState(old(value), true)
    {
      isDeleted := true;
    }

    method GetValue() returns (v: Option<string>)
      ensures v == value
    {
      v := value;
    }

    method IsDeleted() returns (deleted: bool)
      ensures deleted == isDeleted
    {
      deleted := isDeleted;
    }
  }
}
