/**
 * One square of the board (src/main/java/kth/model/SudokuCell.java): a value,
 * 0 for empty, and a flag saying whether the player may change it. A write to
 * a cell that is not editable is ignored without any error.
 */
module Cells {

  class Cell {
    var value: int
    var editable: bool

    constructor(value: int, editable: bool)
      ensures this.value == value && this.editable == editable
    {
      this.value := value;
      this.editable := editable;
    }

    method GetValue() returns (v: int)
      ensures v == value
    {
      v := value;
    }

    /** Stores `v` if the cell is editable; otherwise the cell keeps its value. The flag never changes. */
    method SetValue(v: int)
      modifies this
      ensures editable == old(editable)
      ensures old(editable) ==> value == v
      ensures !old(editable) ==> value == old(value)
    {
      if editable {
        value := v;
      }
    }

    method IsEditable() returns (e: bool)
      ensures e == editable
    {
      e := editable;
    }

    /** Changes the flag only; the value is kept. */
    method SetEditable(e: bool)
      modifies this
      ensures editable == e && value == old(value)
    {
      editable := e;
    }
  }
}
