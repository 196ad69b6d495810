/**
 * The child-operator contract a join relies on: a resettable sequence of rows, each as long as
 * the child's variable mask. A child is modelled by the rows it yields in one epoch and a cursor.
 */
module Operators {
  import opened Wrappers

  /** A variable name of a query atom. */
  type Name = string

  /** A variable-mask entry: a variable name, or None for a constant (anonymous) column. */
  type Entry = Option<Name>

  /** The variable mask of an operator: one entry per column of its rows. */
  type Mask = seq<Entry>

  /** A tuple's terms; T is the term type, compared only for equality. */
  type Row<T> = seq<T>

  class RowSource<T> {
    const mask: Mask
    const rows: seq<Row<T>>
    var cursor: nat

    /** Every row fits the mask, and the cursor lies within the epoch. */
    ghost predicate Valid()
      reads this
    {
      cursor <= |rows| &&
      forall k :: 0 <= k < |rows| ==> |rows[k]| == |mask|
    }

    constructor (mask: Mask, rows: seq<Row<T>>)
      requires forall k :: 0 <= k < |rows| ==> |rows[k]| == |mask|
      ensures Valid()
      ensures this.mask == mask && this.rows == rows && cursor == 0
    {
      this.mask := mask;
      this.rows := rows;
      cursor := 0;
    }

    /** getNextTuple: the next row of the epoch, or None (null) once the epoch is exhausted. */
    method Next() returns (r: Option<Row<T>>)
      requires Valid()
      modifies this
      ensures Valid()
      ensures old(cursor) < |rows| ==> r == Some(rows[old(cursor)]) && cursor == old(cursor) + 1
      ensures old(cursor) == |rows| ==> r == None && cursor == old(cursor)
    {
      if cursor < |rows| {
        r := Some(rows[cursor]);
        cursor := cursor + 1;
      } else {
        r := None;
      }
    }

    /** reset: the next epoch starts again from the first row. */
    method Reset()
      requires Valid()
      modifies this
      ensures Valid() && cursor == 0
    {
      cursor := 0;
    }
  }
}
