/** One row of the board: five cells. */
module Guesses {
  import opened Types
  import opened Cells

  class Guess {
    /** The five cells of the row. The sequence is fixed for the lifetime of
        the guess: its length and which objects it holds never change, only
        what those cells contain. */
    const cells: seq<Cell>

    /** Exactly five cells, all distinct objects, so writing one cell never
        changes another. */
    ghost predicate Valid()
    {
      |cells| == WordLength &&
      forall j, k :: 0 <= j < k < |cells| ==> cells[j] != cells[k]
    }

    /** A new guess holds five fresh, empty cells. */
    constructor()
      ensures Valid()
      ensures forall j :: 0 <= j < WordLength ==> fresh(cells[j]) && cells[j].Value() == EmptyCell
    {
      var made: seq<Cell> := [];
      while |made| < WordLength
        invariant |made| <= WordLength
        invariant forall j :: 0 <= j < |made| ==> fresh(made[j]) && made[j].Value() == EmptyCell
        invariant forall j, k :: 0 <= j < k < |made| ==> made[j] != made[k]
      {
        var cell := new Cell();
        made := made + [cell];
      }
      cells := made;
    }

    /** The contents of the row as values. */
    ghost function Row(): (r: seq<CellValue>)
      requires |cells| == WordLength
      reads cells
      ensures |r| == WordLength && forall j :: 0 <= j < WordLength ==> r[j] == cells[j].Value()
    {
      seq(WordLength, j requires 0 <= j < WordLength reads cells => cells[j].Value())
    }
  }
}
