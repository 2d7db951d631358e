/** The scenarios of the engine's test suite, restated as lemmas about the
    rules and as a client of the engine class. */
module Scenarios {
  import opened Types
  import opened Rules
  import Game

  const Target: string := "WWCSD"

  /** `round` repeated `k` times. */
  function Repeat(round: seq<Event>, k: nat): seq<Event>
  {
    if k == 0 then [] else Repeat(round, k - 1) + round
  }

  /** Typing "HE" into a new game fills the first two cells of the first row
      and leaves everything else empty. */
  lemma TypingTwoLetters()
    ensures var t := Play(NewGame(Target), Target, Typing("HE"));
            t.board[0][0] == CellValue(Some('H'), Some(Unsubmitted)) &&
            t.board[0][1] == CellValue(Some('E'), Some(Unsubmitted)) &&
            (forall j :: 2 <= j < WordLength ==> t.board[0][j] == EmptyCell) &&
            (forall i, j :: 1 <= i < MaxGuesses && 0 <= j < WordLength ==> t.board[i][j] == EmptyCell)
  {
  }

  /** Guessing "WWCDE" against "WWCSD": three correct letters, a D that occurs
      elsewhere in the word, an E that does not; the other rows stay empty and
      the game goes on. */
  lemma PartialMatch()
    ensures var t := Play(NewGame(Target), Target, Typing("WWCDE") + [Enter]);
            t.status == InProgress &&
            [t.board[0][0].status, t.board[0][1].status, t.board[0][2].status, t.board[0][3].status, t.board[0][4].status]
              == [Some(Correct), Some(Correct), Some(Correct), Some(PartiallyCorrect), Some(Incorrect)] &&
            (forall j :: 0 <= j < WordLength ==> t.board[0][j].letter.Some? && t.board[0][j].letter.value == "WWCDE"[j]) &&
            (forall i, j :: 1 <= i < MaxGuesses && 0 <= j < WordLength ==> t.board[i][j] == EmptyCell)
  {
    EnterWord(NewGame(Target), Target, "WWCDE");
  }

  /** Guessing the word of the day wins at once, with five correct cells and
      the other rows still empty. */
  lemma Win()
    ensures var t := Play(NewGame(Target), Target, Typing(Target) + [Enter]);
            t.status == PlayerWins &&
            (forall j :: 0 <= j < WordLength ==> t.board[0][j] == CellValue(Some(Target[j]), Some(Correct))) &&
            (forall i, j :: 1 <= i < MaxGuesses && 0 <= j < WordLength ==> t.board[i][j] == EmptyCell)
  {
    EnterWord(NewGame(Target), Target, Target);
  }

  /** Duplicate letters are not budgeted: guessing "SSSSS" against "WWCSD",
      which holds a single S, marks one S correct and the four others
      partially correct. */
  lemma DuplicatesAreNotBudgeted()
    ensures var t := Play(NewGame(Target), Target, Typing("SSSSS") + [Enter]);
            t.board[0][3].status == Some(Correct) &&
            forall j :: 0 <= j < WordLength && j != 3 ==> t.board[0][j].status == Some(PartiallyCorrect)
  {
    EnterWord(NewGame(Target), Target, "SSSSS");
  }

  /** After `k` rounds of a word sharing no letter with the word of the day,
      starting from a new game, the player is on row `k` with no letter typed;
      the game goes on before the sixth round and is lost after it. */
  lemma {:induction false} MissingRounds(s0: State, wotd: string, word: seq<Letter>, k: nat)
    requires Inv(s0, wotd) && s0.status == InProgress && s0.currentGuess == 0 && s0.currentCell == 0
    requires |word| == WordLength && forall j :: 0 <= j < WordLength ==> word[j] !in wotd
    requires k <= MaxGuesses
    ensures var t := Play(s0, wotd, Repeat(Typing(word) + [Enter], k));
            t.currentGuess == k && t.currentCell == 0 &&
            (k < MaxGuesses ==> t.status == InProgress) &&
            (k == MaxGuesses ==> t.status == PlayerLoses)
  {
    if k > 0 {
      var round := Typing(word) + [Enter];
      MissingRounds(s0, wotd, word, k - 1);
      PlayAppend(s0, wotd, Repeat(round, k - 1), round);
      MissingRound(Play(s0, wotd, Repeat(round, k - 1)), wotd, word);
    }
  }

  /** After the same `k` rounds, the first `k` rows hold the word with every
      cell marked incorrect. */
  lemma {:induction false} MissedRows(s0: State, wotd: string, word: seq<Letter>, k: nat)
    requires Inv(s0, wotd) && s0.status == InProgress && s0.currentGuess == 0 && s0.currentCell == 0
    requires |word| == WordLength && forall j :: 0 <= j < WordLength ==> word[j] !in wotd
    requires k <= MaxGuesses
    ensures var t := Play(s0, wotd, Repeat(Typing(word) + [Enter], k));
            forall i, j :: 0 <= i < k && 0 <= j < WordLength ==>
              t.board[i][j] == CellValue(Some(word[j]), Some(Incorrect))
  {
    if k > 0 {
      var round := Typing(word) + [Enter];
      MissingRounds(s0, wotd, word, k - 1);
      var s := Play(s0, wotd, Repeat(round, k - 1));
      MissingRound(s, wotd, word);
      var t := Play(s, wotd, round);
      MissedRows(s0, wotd, word, k - 1);
      MissedRowsGrow(s, t, wotd, word, k);
      PlayAppend(s0, wotd, Repeat(round, k - 1), round);
    }
  }

  /** The first `k - 1` rows of `before` and row `k - 1` of `after` hold
      `word` marked incorrect, and `after` keeps every other row of `before`:
      then the first `k` rows of `after` hold `word` marked incorrect. */
  lemma MissedRowsGrow(before: State, after: State, wotd: string, word: seq<Letter>, k: nat)
    requires Inv(after, wotd) && |before.board| == MaxGuesses
    requires 0 < k <= MaxGuesses && |word| == WordLength
    requires forall i :: 0 <= i < MaxGuesses && i != k - 1 ==> after.board[i] == before.board[i]
    requires forall i, j :: 0 <= i < k - 1 && 0 <= j < WordLength ==>
               before.board[i][j] == CellValue(Some(word[j]), Some(Incorrect))
    requires forall j :: 0 <= j < WordLength ==> after.board[k - 1][j] == CellValue(Some(word[j]), Some(Incorrect))
    ensures forall i, j :: 0 <= i < k && 0 <= j < WordLength ==>
              after.board[i][j] == CellValue(Some(word[j]), Some(Incorrect))
  {
  }

  /** One round of a word sharing no letter with the word of the day marks
      every cell of the current row incorrect and moves to the next row; it
      loses the game on the sixth row and leaves it in progress before. */
  lemma MissingRound(s: State, wotd: string, word: seq<Letter>)
    requires Inv(s, wotd) && s.status == InProgress && s.currentCell == 0
    requires |word| == WordLength && forall j :: 0 <= j < WordLength ==> word[j] !in wotd
    ensures var t := Play(s, wotd, Typing(word) + [Enter]);
            t.currentGuess == s.currentGuess + 1 && t.currentCell == 0 &&
            t.status == (if s.currentGuess == MaxGuesses - 1 then PlayerLoses else InProgress) &&
            (forall j :: 0 <= j < WordLength ==> t.board[s.currentGuess][j] == CellValue(Some(word[j]), Some(Incorrect))) &&
            forall i :: 0 <= i < MaxGuesses && i != s.currentGuess ==> t.board[i] == s.board[i]
  {
    assert word != wotd by { assert word[0] != wotd[0]; }
    EnterWord(s, wotd, word);
  }

  /** Six guesses of "HELLO" against "WWCSD" fill the board with incorrect
      cells and lose the game. */
  lemma HelloSixTimes()
    ensures var t := Play(NewGame(Target), Target, Repeat(Typing("HELLO") + [Enter], MaxGuesses));
            t.status == PlayerLoses &&
            forall i, j :: 0 <= i < MaxGuesses && 0 <= j < WordLength ==>
              t.board[i][j] == CellValue(Some("HELLO"[j]), Some(Incorrect))
  {
    HelloMisses();
    MissingRounds(NewGame(Target), Target, "HELLO", MaxGuesses);
    MissedRows(NewGame(Target), Target, "HELLO", MaxGuesses);
  }

  lemma HelloMisses()
    ensures forall j :: 0 <= j < WordLength ==> "HELLO"[j] !in Target
  {
  }

  /** The sixth wrong guess loses the game, and its submission reveals the
      word of the day. */
  lemma Loss()
    ensures var s := Play(NewGame(Target), Target, Repeat(Typing("HELLO") + [Enter], MaxGuesses - 1) + Typing("HELLO"));
            Submit(s, Target).1 == Ok(Some(Target)) &&
            Submit(s, Target).0.status == PlayerLoses
  {
    var round := Typing("HELLO") + [Enter];
    HelloMisses();
    MissingRounds(NewGame(Target), Target, "HELLO", MaxGuesses - 1);
    var s5 := Play(NewGame(Target), Target, Repeat(round, MaxGuesses - 1));
    PlayAppend(NewGame(Target), Target, Repeat(round, MaxGuesses - 1), Typing("HELLO"));
    TypingFillsRow(s5, Target, "HELLO");
    var s := Play(s5, Target, Typing("HELLO"));
    assert GuessedWord(s.board[MaxGuesses - 1]) == "HELLO";
  }

  /** A client of the engine: adding a letter to a new game and removing it
      again gives back the state of a new game. */
  method AddThenRemoveOnEngine() returns (game: Game.WordleGame)
    ensures game.Valid() && game.wotd == Target
    ensures game.State() == NewGame(Target)
  {
    game := new Game.WordleGame(Target);
    ghost var start := game.State();
    game.FramesInBoard(game.currentGuess, game.currentCell);
    var r := game.AddLetterToCurrentGuess('H');
    assert r == Ok(());
    RemoveUndoesAdd(start, Target, 'H');
    game.FramesInBoard(game.currentGuess, game.currentCell - 1);
    r := game.RemoveLastLetterFromCurrentGuess();
    assert r == Ok(()) && game.State() == NewGame(Target);
  }
}
