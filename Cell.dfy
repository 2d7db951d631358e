/** One letter slot of a guess. */
module Cells {
  import opened Types

  /** A cell holds an optional letter and an optional status; the engine
      writes both in place through the two setters. Reading a field plays
      the part of the getter. */
  class Cell {
    var letter: Option<Letter>
    var status: Option<CellStatus>

    /** A new cell holds neither a letter nor a status. */
    constructor()
      ensures letter == None && status == None
    {
      letter := None;
      status := None;
    }

    /** The cell's contents as a value. */
    function Value(): CellValue
      reads this
    {
      CellValue(letter, status)
    }

    /** Sets the letter; the status is left as it was. */
    method SetLetter(value: Option<Letter>)
      modifies this
      ensures letter == value && status == old(status)
    {
      letter := value;
    }

    /** Sets the status; the letter is left as it was. */
    method SetStatus(value: Option<CellStatus>)
      modifies this
      ensures status == value && letter == old(letter)
    {
      status := value;
    }
  }
}
