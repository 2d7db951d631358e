/** The game engine: a board of six guesses it mutates in place, the game
    status and the two cursors. Every operation is proved to do exactly what
    the corresponding function of module Rules does to the abstract state. */
module Game {
  import opened Types
  import opened Cells
  import opened Guesses
  import Rules

  class WordleGame {
    /** The six rows; neither the sequence nor the rows in it ever change,
        only the contents of their cells. */
    const guesses: seq<Guess>
    /** The word of the day. */
    const wotd: string
    var gameStatus: GameStatus
    /** The row being typed. */
    var currentGuess: nat
    /** The number of letters typed in the current row. */
    var currentCell: nat

    /** Six rows of five cells, and no cell shared between two positions. */
    ghost predicate Shape()
    {
      |guesses| == MaxGuesses &&
      (forall i :: 0 <= i < MaxGuesses ==> guesses[i].Valid()) &&
      forall i, i', j, j' :: 0 <= i < i' < MaxGuesses && 0 <= j < WordLength && 0 <= j' < WordLength ==>
        guesses[i].cells[j] != guesses[i'].cells[j']
    }

    /** Every cell of the board. */
    ghost function BoardCells(): set<Cell>
    {
      set i, j | 0 <= i < |guesses| && 0 <= j < |guesses[i].cells| :: guesses[i].cells[j]
    }

    /** The cell at row `g`, position `c`, if there is one. */
    ghost function CellAt(g: int, c: int): set<Cell>
    {
      if 0 <= g < |guesses| && 0 <= c < |guesses[g].cells| then {guesses[g].cells[c]} else {}
    }

    /** The cells of row `g`, if there is one. */
    ghost function RowCells(g: int): set<Cell>
    {
      if 0 <= g < |guesses| then set j | 0 <= j < |guesses[g].cells| :: guesses[g].cells[j] else {}
    }

    /** The cells an operation may write all belong to the board. */
    lemma FramesInBoard(g: int, c: int)
      ensures CellAt(g, c) <= BoardCells() && RowCells(g) <= BoardCells()
    {
    }

    /** The board as values. */
    ghost function Board(): (b: seq<seq<CellValue>>)
      requires Shape()
      reads BoardCells()
      ensures |b| == MaxGuesses
      ensures forall i :: 0 <= i < MaxGuesses ==> |b[i]| == WordLength
      ensures forall i, j :: 0 <= i < MaxGuesses && 0 <= j < WordLength ==> b[i][j] == guesses[i].cells[j].Value()
    {
      seq(MaxGuesses, i requires 0 <= i < MaxGuesses reads BoardCells() => guesses[i].Row())
    }

    /** The abstract state of the game. */
    ghost function State(): Rules.State
      requires Shape()
      reads this, BoardCells()
    {
      Rules.State(Board(), gameStatus, currentGuess, currentCell)
    }

    /** The object invariant: the board has its shape and the abstract state
        satisfies the rules' invariant. */
    ghost predicate Valid()
      reads this, BoardCells()
    {
      Shape() && Rules.Inv(State(), wotd)
    }

    /** A new game for the word of the day `wotd`. */
    constructor(wotd: string)
      requires |wotd| == WordLength
      ensures Valid() && fresh(BoardCells())
      ensures this.wotd == wotd
      ensures State() == Rules.NewGame(wotd)
    {
      var rows: seq<Guess> := [];
      while |rows| < MaxGuesses
        invariant |rows| <= MaxGuesses
        invariant forall i :: 0 <= i < |rows| ==> rows[i].Valid()
        invariant forall i, j :: 0 <= i < |rows| && 0 <= j < WordLength ==>
                    fresh(rows[i].cells[j]) && rows[i].cells[j].Value() == EmptyCell
        invariant forall i, i', j, j' :: 0 <= i < i' < |rows| && 0 <= j < WordLength && 0 <= j' < WordLength ==>
                    rows[i].cells[j] != rows[i'].cells[j']
      {
        var row := new Guess();
        rows := rows + [row];
      }
      this.wotd := wotd;
      gameStatus := InProgress;
      guesses := rows;
      currentGuess := 0;
      currentCell := 0;
      new;
      BoardIsNew(Rules.NewGame(wotd).board);
    }

    /** Adds `letter` to the current guess. Only the cell at the cursor can
        change. */
    method AddLetterToCurrentGuess(letter: Letter) returns (r: Result<()>)
      requires Valid()
      modifies this, CellAt(currentGuess, currentCell)
      ensures Shape() && (State(), r) == Rules.AddLetter(old(State()), wotd, letter)
      ensures Valid()
    {
      if gameStatus != InProgress {
        return Err(Rules.GameOverError(gameStatus, wotd));
      }
      if currentCell == WordLength {
        return Err(TooManyLetters);
      }
      ghost var before := State();
      var cell := guesses[currentGuess].cells[currentCell];
      cell.SetLetter(Some(letter));
      cell.SetStatus(Some(Unsubmitted));
      currentCell := currentCell + 1;
      BoardIsUpdate(before.board, currentGuess, currentCell - 1, CellValue(Some(letter), Some(Unsubmitted)));
      r := Ok(());
    }

    /** Removes the last letter of the current guess. Only the cell before
        the cursor can change. */
    method RemoveLastLetterFromCurrentGuess() returns (r: Result<()>)
      requires Valid()
      modifies this, CellAt(currentGuess, currentCell - 1)
      ensures Shape() && (State(), r) == Rules.RemoveLastLetter(old(State()), wotd)
      ensures Valid()
    {
      if gameStatus != InProgress {
        return Err(Rules.GameOverError(gameStatus, wotd));
      }
      if currentCell == 0 {
        return Err(NoLettersToDelete);
      }
      ghost var before := State();
      currentCell := currentCell - 1;
      var cell := guesses[currentGuess].cells[currentCell];
      cell.SetLetter(None);
      cell.SetStatus(None);
      BoardIsUpdate(before.board, currentGuess, currentCell, EmptyCell);
      r := Ok(());
    }

    /** Scores the current guess and decides the game. Only the cells of the
        current row can change. Returns the word of the day exactly when the
        player has just lost. */
    method SubmitCurrentGuess() returns (r: Result<Option<string>>)
      requires Valid()
      modifies this, RowCells(currentGuess)
      ensures Shape() && (State(), r) == Rules.Submit(old(State()), wotd)
      ensures Valid()
    {
      if gameStatus != InProgress {
        return Err(Rules.GameOverError(gameStatus, wotd));
      }
      if currentCell < WordLength {
        return Err(NotEnoughLetters);
      }
      r := FinishCurrentGuess();
    }

    /** A submission once both guards have passed: scores the current row,
        decides the game and moves to the next row. */
    method FinishCurrentGuess() returns (r: Result<Option<string>>)
      requires Valid() && gameStatus == InProgress && currentCell == WordLength
      modifies this, RowCells(currentGuess)
      ensures Shape() && (State(), r) == Rules.Submit(old(State()), wotd)
      ensures Valid()
    {
      ghost var before := State();
      var row := guesses[currentGuess];
      ScoreCurrentGuess();
      ghost var g, scored := currentGuess, Rules.ScoreRow(before.board[currentGuess], wotd);
      var incorrect := exists j :: 0 <= j < WordLength && row.cells[j].status != Some(Correct);
      assert incorrect <==> !Rules.AllCorrect(scored);
      gameStatus := if incorrect then (if currentGuess == MaxGuesses - 1 then PlayerLoses else InProgress) else PlayerWins;
      currentCell := 0;
      currentGuess := currentGuess + 1;
      r := Ok(if gameStatus == PlayerLoses then Some(wotd) else None);
      assert gameStatus == Rules.StatusAfterSubmit(scored, g);
      BoardIsRowUpdate(before.board, g, scored);
      SubmittedState(before);
    }

    /** The loop of a submission: sets the status of each cell of the
        current row, left to right, to its feedback against the word of the
        day. Only the cells of the current row change. */
    method ScoreCurrentGuess()
      requires Valid() && gameStatus == InProgress && currentCell == WordLength
      modifies RowCells(currentGuess)
      ensures forall j :: 0 <= j < WordLength ==>
                guesses[currentGuess].cells[j].Value() == Rules.ScoreRow(old(Board()[currentGuess]), wotd)[j]
      ensures forall i, j :: 0 <= i < MaxGuesses && i != currentGuess && 0 <= j < WordLength ==>
                guesses[i].cells[j].Value() == old(guesses[i].cells[j].Value())
    {
      ghost var before := Board()[currentGuess];
      var row := guesses[currentGuess];
      for i := 0 to WordLength
        invariant forall j :: 0 <= j < WordLength ==> row.cells[j].letter == before[j].letter
        invariant forall j :: 0 <= j < i ==>
                    row.cells[j].status == Some(Rules.ScoreLetter(wotd, j, row.cells[j].letter.value))
        invariant forall j :: i <= j < WordLength ==> row.cells[j].status == before[j].status
      {
        var guessed := row.cells[i].letter.value;
        if wotd[i] == guessed {
          row.cells[i].SetStatus(Some(Correct));
        } else if guessed in wotd {
          row.cells[i].SetStatus(Some(PartiallyCorrect));
        } else {
          row.cells[i].SetStatus(Some(Incorrect));
        }
      }
    }

    /** The status getter: a win is reported exactly when the last submitted
        row matches the word of the day, and a game in progress still has a
        row to type into. */
    function Status(): (s: GameStatus)
      requires Valid()
      reads this, BoardCells()
      ensures s == PlayerWins <==> 0 < currentGuess && Rules.AllCorrect(Board()[currentGuess - 1])
      ensures s == InProgress ==> currentGuess < MaxGuesses
      ensures s == PlayerLoses ==> currentGuess == MaxGuesses
    {
      gameStatus
    }

    /** The state after a submission that passed both guards from `before`:
        the current row replaced by its scored version, the status decided
        from it, and the cursors at the start of the next row. */
    lemma SubmittedState(before: Rules.State)
      requires Shape() && Rules.Inv(before, wotd)
      requires before.status == InProgress && before.currentCell == WordLength
      requires Board() == before.board[before.currentGuess := Rules.ScoreRow(before.board[before.currentGuess], wotd)]
      requires gameStatus == Rules.StatusAfterSubmit(Rules.ScoreRow(before.board[before.currentGuess], wotd), before.currentGuess)
      requires currentGuess == before.currentGuess + 1 && currentCell == 0
      ensures State() == Rules.Submit(before, wotd).0
      ensures Rules.Submit(before, wotd).1 == Ok(if gameStatus == PlayerLoses then Some(wotd) else None)
    {
      Rules.SubmitAccepted(before, wotd);
    }

    /** After the fresh allocation in the constructor, the board is `empty`. */
    lemma BoardIsNew(empty: seq<seq<CellValue>>)
      requires Shape()
      requires |empty| == MaxGuesses
      requires forall i :: 0 <= i < MaxGuesses ==> |empty[i]| == WordLength
      requires forall i, j :: 0 <= i < MaxGuesses && 0 <= j < WordLength ==> empty[i][j] == EmptyCell
      requires forall i, j :: 0 <= i < MaxGuesses && 0 <= j < WordLength ==>
                 guesses[i].cells[j].Value() == EmptyCell
      ensures Board() == empty
    {
      var b := Board();
      forall i | 0 <= i < MaxGuesses ensures b[i] == empty[i] {
        assert |b[i]| == WordLength == |empty[i]|;
        assert forall j :: 0 <= j < WordLength ==> b[i][j] == guesses[i].cells[j].Value() == empty[i][j];
      }
    }

    /** The board after writing `v` at row `g`, position `c` of `old`, when
        every other cell still holds its old value. */
    lemma BoardIsUpdate(board: seq<seq<CellValue>>, g: nat, c: nat, v: CellValue)
      requires Shape()
      requires |board| == MaxGuesses && g < MaxGuesses && c < WordLength
      requires forall i :: 0 <= i < MaxGuesses ==> |board[i]| == WordLength
      requires guesses[g].cells[c].Value() == v
      requires forall i, j :: 0 <= i < MaxGuesses && 0 <= j < WordLength && (i != g || j != c) ==>
                 guesses[i].cells[j].Value() == board[i][j]
      ensures Board() == board[g := board[g][c := v]]
    {
      var b, expected := Board(), board[g := board[g][c := v]];
      forall i | 0 <= i < MaxGuesses ensures b[i] == expected[i] {
        assert |b[i]| == WordLength;
      }
    }

    /** The board after replacing row `g` of `board` by `values`, when every
        other cell still holds its old value. */
    lemma BoardIsRowUpdate(board: seq<seq<CellValue>>, g: nat, values: seq<CellValue>)
      requires Shape()
      requires |board| == MaxGuesses && g < MaxGuesses && |values| == WordLength
      requires forall j :: 0 <= j < WordLength ==> guesses[g].cells[j].Value() == values[j]
      requires forall i :: 0 <= i < MaxGuesses ==> |board[i]| == WordLength
      requires forall i, j :: 0 <= i < MaxGuesses && i != g && 0 <= j < WordLength ==>
                 guesses[i].cells[j].Value() == board[i][j]
      ensures Board() == board[g := values]
    {
      var b, expected := Board(), board[g := values];
      forall i | 0 <= i < MaxGuesses ensures b[i] == expected[i] {
        assert |b[i]| == WordLength == |expected[i]|;
      }
    }
  }
}
