/** One square of the board. Its position and whether it is a clue are fixed
    when it is created; its value and its error mark change in place. */
module Cells {

  class Cell {
    var value: int
    const row: int
    const col: int
    /** A clue cell: created with a non-zero value; never editable. */
    const isFixed: bool
    /** Set by the validator when the value is repeated in a row, column or block. */
    var isError: bool

    constructor (row: int, col: int, initialValue: int)
      ensures this.row == row && this.col == col && value == initialValue
      ensures isFixed == (initialValue != 0)
      ensures !isError
    {
      this.row := row;
      this.col := col;
      this.value := initialValue;
      this.isFixed := initialValue != 0;
      this.isError := false;
    }

    /** Stores v unless the cell is a clue, in which case nothing changes. */
    method SetValue(v: int)
      modifies this`value
      ensures isFixed ==> value == old(value)
      ensures !isFixed ==> value == v
    {
      if !isFixed {
        value := v;
      }
    }

    method SetError(error: bool)
      modifies this`isError
      ensures isError == error
    {
      isError := error;
    }
  }
}
