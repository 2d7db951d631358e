# Wordle game engine, modelled in Dafny

This project models the engine of a Wordle-style game. The player has six
tries to guess a five-letter word of the day (`wotd`). The engine owns a
board of six guesses of five cells each. It offers three operations: add a
letter to the current guess, remove the last letter, and submit the guess.
Submitting scores each letter and decides whether the game is won, lost or
still in progress.

The model has two layers:

- `Rules` (Rules.dfy) states the game as a transition system on values. A
  `State` holds the 6 x 5 board of cell values, the game status and the two
  cursors. `AddLetter`, `RemoveLastLetter` and `Submit` give the new state and
  the result, or the error, of each operation. `Inv` is the game's invariant,
  and every operation is proved to keep it. Lemmas state the promises that
  involve more than one step: delete undoes add, a finished game never
  changes, and typing then submitting a word scores it.
- `Cells.Cell`, `Guesses.Guess` and `Game.WordleGame` (Cell.dfy, Guess.dfy,
  WordleGame.dfy) are the mutable objects of the program. The engine writes
  cells in place through their setters, and scores a row in a loop over its
  five positions. Each engine method is proved to change the abstract state
  `State()` exactly as the matching `Rules` function does. Its `modifies`
  clause names only the cells it may write: the cell at the cursor, the cell
  before it, or the current row.
- `Scenarios` (Scenarios.dfy) restates the scenarios of the engine's test
  suite as lemmas about `Rules`. It also holds `DuplicatesAreNotBudgeted`,
  which documents the scoring rule rather than a test, and
  `AddThenRemoveOnEngine`, a client of the engine class itself.

`Types` (Types.dfy) holds the value types. `Letter` is an upper-case `char`
from `'A'` to `'Z'`. `CellStatus`, `GameStatus` and `GameError` are
datatypes. The engine's exceptions become `Result` values: `GameOver(message)`
carries "You Win!" after a win and the word of the day after a loss. The
other failures are `TooManyLetters`, `NoLettersToDelete` and
`NotEnoughLetters`.

The code increments the current-guess index on every successful
submission, including the one that ends the game, so it reaches 6 after the
sixth row is submitted. The model bounds it by 6 and keeps it below 6 while
the game is in progress.

## Model

| member | source | states |
|---|---|---|
| Rules.ScoreLetter | src/domain/api/WordleGame.tsx:55-62 | a letter is correct iff it equals the target letter at its position, partially correct iff it differs there but occurs anywhere in the target (no duplicate budgeting), incorrect iff it does not occur in the target; never unsubmitted |
| Rules.NewGame | src/domain/api/WordleGame.tsx:14-20 | a new game satisfies the invariant, is in progress, has both cursors at 0 and all 30 cells empty |
| Rules.GameOverError | src/domain/api/WordleGame.tsx:23-25 | the game-over error carries "You Win!" after a win and the word of the day after a loss |
| Rules.AddLetter | src/domain/api/WordleGame.tsx:22-32 | keeps the invariant; fails with game over iff the game is finished and with too-many-letters iff the row is full, leaving the state unchanged; succeeds iff the game is in progress and the row has a free cell, and then writes the letter with status Unsubmitted at the cursor, advances the cell cursor, and changes no other cell |
| Rules.RemoveLastLetter | src/domain/api/WordleGame.tsx:34-44 | keeps the invariant; fails with game over iff the game is finished and with no-letters-to-delete iff the row is empty, leaving the state unchanged; succeeds iff the game is in progress and the row holds a letter, and then moves the cell cursor back and empties exactly that cell |
| Rules.ScoreRow | src/domain/api/WordleGame.tsx:54-63 | the scored row keeps every letter and gives each cell the feedback of its letter at its position |
| Rules.Submit | src/domain/api/WordleGame.tsx:46-76 | keeps the invariant; fails with game over iff the game is finished and with not-enough-letters iff fewer than five letters are typed, leaving the state unchanged; succeeds iff the game is in progress and the row holds five letters, and then scores the row, moves to the next row with the cell cursor at 0, wins iff the guessed word is the word of the day, loses iff it is not and this was the sixth row, changes no other row, and returns the word of the day exactly on a loss |
| Rules.WinsIffGuessIsTarget | src/domain/api/WordleGame.tsx:65-70 | a scored row has every cell correct exactly when its letters spell the word of the day |
| Rules.Step | src/GameBoard.tsx:112-125 | one forwarded event keeps the invariant, never moves the row cursor back, never changes a submitted row, and changes nothing once the game is over |
| Rules.Play | src/domain/api/WordleGame.tsx:22-76 | any sequence of operations keeps the invariant, never moves the row cursor back and never changes a submitted row |
| Rules.GameOverIsFinal | src/domain/api/WordleGame.tsx:23-49 | once the game is won or lost, no sequence of operations changes the state |
| Rules.RemoveUndoesAdd | src/domain/api/WordleGame.tsx:26-43 | removing right after a successful add restores board and cursors exactly and succeeds |
| Rules.TypingFillsRow | src/domain/api/WordleGame.tsx:26-31 | typing up to five letters into an empty current row fills it from the left with unsubmitted letters, sets the cell cursor to their number and touches no other row |
| Rules.EnterWord | src/domain/api/WordleGame.tsx:50-75 | typing five letters and submitting scores each position, moves to the next row, wins iff the word is the word of the day, loses iff it is not on the sixth row, and otherwise stays in progress |
| Cells.Cell.constructor | src/domain/api/Cell.tsx:5-6 | a new cell has neither letter nor status |
| Cells.Cell.SetLetter | src/domain/api/Cell.tsx:12-14 | after setting, the letter is the value set and the status is unchanged |
| Cells.Cell.SetStatus | src/domain/api/Cell.tsx:20-22 | after setting, the status is the value set and the letter is unchanged |
| Guesses.Guess.constructor | src/domain/api/Guess.tsx:6-8 | a new guess has exactly five distinct, freshly allocated, empty cells |
| Game.WordleGame.constructor | src/domain/api/WordleGame.tsx:14-20 | a new engine is valid, allocates all 30 cells fresh, keeps the word of the day and has the abstract state of a new game |
| Game.WordleGame.AddLetterToCurrentGuess | src/domain/api/WordleGame.tsx:22-32 | writes at most the cell at the cursor, stays valid, and changes state and result exactly as Rules.AddLetter |
| Game.WordleGame.RemoveLastLetterFromCurrentGuess | src/domain/api/WordleGame.tsx:34-44 | writes at most the cell before the cursor, stays valid, and changes state and result exactly as Rules.RemoveLastLetter |
| Game.WordleGame.SubmitCurrentGuess | src/domain/api/WordleGame.tsx:46-76 | writes at most the cells of the current row, stays valid, and changes state and result exactly as Rules.Submit |
| Game.WordleGame.FinishCurrentGuess | src/domain/api/WordleGame.tsx:54-76 | once both guards have passed, writes at most the cells of the current row, stays valid, and changes state and result exactly as Rules.Submit |
| Game.WordleGame.ScoreCurrentGuess | src/domain/api/WordleGame.tsx:54-63 | the loop over the five positions leaves each cell of the current row holding its letter and its feedback, and every cell of the other rows as it was |
| Game.WordleGame.Status | src/domain/api/WordleGame.tsx:79-81 | the status reads as a win exactly when the last submitted row is all correct; in progress implies a row is left to type into; a loss means all six rows were used |
| Scenarios.TypingTwoLetters | src/domain/tests/Domain.test.tsx:134-147 | typing H then E fills the first two cells of the first row and leaves the rest of the board empty |
| Scenarios.PartialMatch | src/domain/tests/Domain.test.tsx:164-187 | guessing WWCDE against WWCSD leaves row 0 reading WWCDE with correct, correct, correct, partially correct, incorrect, leaves rows 1 to 5 empty, and the game goes on |
| Scenarios.Win | src/domain/tests/Domain.test.tsx:191-215 | guessing WWCSD against WWCSD marks all five cells correct, leaves rows 1 to 5 empty, and wins |
| Scenarios.DuplicatesAreNotBudgeted | src/domain/api/WordleGame.tsx:56-59 | guessing SSSSS against WWCSD marks one S correct and the other four partially correct, although the word holds one S |
| Scenarios.MissingRounds | src/domain/tests/Domain.test.tsx:217-288 | after k rounds of a word sharing no letter with the word of the day, the player is on row k with no letter typed; the game goes on before the sixth round and is lost after it |
| Scenarios.MissedRows | src/domain/tests/Domain.test.tsx:217-288 | after the same k rounds, the first k rows hold the word with every cell marked incorrect |
| Scenarios.HelloSixTimes | src/domain/tests/Domain.test.tsx:217-286 | six guesses of HELLO against WWCSD leave every cell of every row incorrect and the game lost |
| Scenarios.AddThenRemoveOnEngine | src/domain/tests/Domain.test.tsx:149-162 | on the engine class, adding H to a new game and removing it again leaves a valid engine whose state is that of a new game |
| Scenarios.Loss | src/domain/tests/Domain.test.tsx:287 | the sixth submission of HELLO loses the game and returns WWCSD |

## Left out

- The React user interface (src/GameBoard.tsx, src/App.tsx) is not part of this model: rendering, the keyboard layout, DOM key listeners and the on-screen messages. `Rules.Step` stands for its dispatch of one key to one engine operation.
- The `Letter`, `CellStatus` and `GameStatus` enumeration files are not part of this model. `Letter` is modelled as an upper-case character, as the tests build letters from single characters.
- The text of the three non-game-over error messages ("Too many letters", "No letters to delete", "Not enough letters to submit") is not modelled. Each is a distinct `GameError` variant, and errors are returned as `Result` values instead of thrown.
- Game.WordleGame.constructor: requires a five-letter word of the day. The source accepts any string without checking it.
- `Object.freeze`, `private` and `readonly` are not modelled as such. Fixed rows and cells are `const` fields, and the class invariant `Valid()` plus the `modifies` clauses stand in for the encapsulation.
- The `letter` and `status` getters of `Cell` become plain field reads, as does reading the engine's public `guesses` field. Only the engine's `status` getter is a function, `Game.WordleGame.Status`.
- `indexOf(...) !== -1` on the word of the day is modelled as sequence membership, and the `some` over the row's cells as an `exists` over its five positions.
- The source's submit method is one method. The model splits it in three: `Game.WordleGame.SubmitCurrentGuess` checks the two guards, `Game.WordleGame.FinishCurrentGuess` scores the row and decides the game, and its scoring loop is `Game.WordleGame.ScoreCurrentGuess`. The behaviour is the same; only the proofs are split.
