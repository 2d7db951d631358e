/** Value types shared by the Wordle engine: letters, cell and game statuses,
    the contents of one board cell, and the errors the engine raises. */
module Types {

  /** One of the 26 upper-case letters a player can type. */
  type Letter = c: char | 'A' <= c <= 'Z' witness 'A'

  /** Number of letters in a guess (and in the word of the day). */
  const WordLength: nat := 5

  /** Number of guesses a player has. */
  const MaxGuesses: nat := 6

  /** The message a game-over error carries when the player has won. */
  const WinMessage: string := "You Win!"

  datatype Option<T> = None | Some(value: T)

  /** Feedback of one cell: typed but not yet submitted, or the result of scoring it. */
  datatype CellStatus = Unsubmitted | Correct | PartiallyCorrect | Incorrect

  datatype GameStatus = InProgress | PlayerWins | PlayerLoses

  /** What a cell holds: an optional letter and an optional status. */
  datatype CellValue = CellValue(letter: Option<Letter>, status: Option<CellStatus>)

  /** A cell with neither letter nor status. */
  const EmptyCell := CellValue(None, None)

  /** The four ways an operation of the engine can fail. A game-over error
      carries the text shown to the player. */
  datatype GameError =
    | GameOver(message: string)
    | TooManyLetters
    | NoLettersToDelete
    | NotEnoughLetters

  /** The result of an engine operation: a value, or the error it raised. */
  datatype Result<T> = Ok(value: T) | Err(error: GameError)
}
