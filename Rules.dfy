/** The rules of one Wordle game as a state-transition system on values.
    The engine class in WordleGame.dfy is proved to follow these functions
    step by step; the lemmas here state what the rules promise. */
module Rules {
  import opened Types

  /** What a game is at one moment: the 6 x 5 board of cell values, the game
      status, the row being typed (currentGuess) and the number of letters
      typed in it (currentCell). */
  datatype State = State(board: seq<seq<CellValue>>, status: GameStatus, currentGuess: nat, currentCell: nat)

  function EmptyRow(): seq<CellValue>
  {
    seq(WordLength, _ => EmptyCell)
  }

  /** The feedback for `letter` typed at position `i`, against the word of the
      day. A letter that occurs anywhere in the word counts as partially
      correct, however often it occurs in the guess: duplicates are not
      budgeted. */
  function ScoreLetter(wotd: string, i: nat, letter: Letter): (r: CellStatus)
    requires i < |wotd|
    ensures r != Unsubmitted
    ensures r == Correct <==> wotd[i] == letter
    ensures r == PartiallyCorrect <==> wotd[i] != letter && letter in wotd
    ensures r == Incorrect <==> letter !in wotd
  {
    if wotd[i] == letter then Correct
    else if letter in wotd then PartiallyCorrect
    else Incorrect
  }

  /** A row being typed with `n` letters so far: the first `n` cells hold a
      letter marked Unsubmitted, the others are empty. */
  predicate PendingRow(row: seq<CellValue>, n: nat)
  {
    |row| == WordLength && n <= WordLength &&
    (forall j :: 0 <= j < n ==> row[j].letter.Some? && row[j].status == Some(Unsubmitted)) &&
    (forall j :: n <= j < WordLength ==> row[j] == EmptyCell)
  }

  /** A submitted row: every cell holds a letter and its feedback. */
  predicate ScoredRow(row: seq<CellValue>, wotd: string)
  {
    |row| == WordLength && |wotd| == WordLength &&
    forall j :: 0 <= j < WordLength ==>
      row[j].letter.Some? && row[j].status == Some(ScoreLetter(wotd, j, row[j].letter.value))
  }

  predicate AllCorrect(row: seq<CellValue>)
  {
    forall j :: 0 <= j < |row| ==> row[j].status == Some(Correct)
  }

  /** The letters of a row whose cells are all filled. */
  function GuessedWord(row: seq<CellValue>): (w: seq<Letter>)
    requires forall j :: 0 <= j < |row| ==> row[j].letter.Some?
    ensures |w| == |row| && forall j :: 0 <= j < |row| ==> row[j].letter == Some(w[j])
  {
    seq(|row|, j requires 0 <= j < |row| => row[j].letter.value)
  }

  /** The invariant of a game with word of the day `wotd`: the board keeps its
      shape, the cursors stay in bounds, rows before the current one are
      scored, the current row is typed left to right, later rows are untouched,
      and the status agrees with the scored rows. */
  predicate Inv(s: State, wotd: string)
  {
    |wotd| == WordLength &&
    |s.board| == MaxGuesses &&
    s.currentGuess <= MaxGuesses && s.currentCell <= WordLength &&
    (s.status == InProgress ==> s.currentGuess < MaxGuesses) &&
    (s.status != InProgress ==> s.currentCell == 0 && 0 < s.currentGuess) &&
    (s.status == PlayerLoses ==> s.currentGuess == MaxGuesses) &&
    (forall i :: 0 <= i < s.currentGuess ==> ScoredRow(s.board[i], wotd)) &&
    (s.currentGuess < MaxGuesses ==> PendingRow(s.board[s.currentGuess], s.currentCell)) &&
    (forall i :: s.currentGuess < i < MaxGuesses ==> s.board[i] == EmptyRow()) &&
    (forall i :: 0 <= i < s.currentGuess ==>
       (AllCorrect(s.board[i]) <==> i == s.currentGuess - 1 && s.status == PlayerWins))
  }

  /** A new game: six empty rows, in progress, both cursors at 0. */
  function NewGame(wotd: string): (s: State)
    requires |wotd| == WordLength
    ensures Inv(s, wotd)
    ensures s.status == InProgress && s.currentGuess == 0 && s.currentCell == 0
    ensures forall i, j :: 0 <= i < MaxGuesses && 0 <= j < WordLength ==> s.board[i][j] == EmptyCell
  {
    State(seq(MaxGuesses, _ => EmptyRow()), InProgress, 0, 0)
  }

  /** The error every operation raises once the game is over: a win
      acknowledgement, or the word of the day after a loss. */
  function GameOverError(status: GameStatus, wotd: string): (e: GameError)
    ensures e.GameOver?
    ensures status == PlayerWins ==> e.message == WinMessage
    ensures status == PlayerLoses ==> e.message == wotd
  {
    GameOver(if status == PlayerWins then WinMessage else wotd)
  }

  /** Types `letter` into the next free cell of the current row. */
  function AddLetter(s: State, wotd: string, letter: Letter): (out: (State, Result<()>))
    requires Inv(s, wotd)
    ensures Inv(out.0, wotd)
    ensures out.1.Err? ==> out.0 == s
    ensures out.1 == Err(GameOverError(s.status, wotd)) <==> s.status != InProgress
    ensures out.1 == Err(TooManyLetters) <==> s.status == InProgress && s.currentCell == WordLength
    ensures out.1 == Ok(()) <==> s.status == InProgress && s.currentCell < WordLength
    ensures out.1.Ok? ==>
              out.0.status == s.status && out.0.currentGuess == s.currentGuess &&
              out.0.currentCell == s.currentCell + 1 &&
              out.0.board[s.currentGuess][s.currentCell] == CellValue(Some(letter), Some(Unsubmitted))
    ensures forall i, j :: 0 <= i < MaxGuesses && 0 <= j < WordLength && (i != s.currentGuess || j != s.currentCell) ==>
              out.0.board[i][j] == s.board[i][j]
  {
    if s.status != InProgress then (s, Err(GameOverError(s.status, wotd)))
    else if s.currentCell == WordLength then (s, Err(TooManyLetters))
    else
      var row := s.board[s.currentGuess][s.currentCell := CellValue(Some(letter), Some(Unsubmitted))];
      (s.(board := s.board[s.currentGuess := row], currentCell := s.currentCell + 1), Ok(()))
  }

  /** Deletes the last letter typed in the current row. */
  function RemoveLastLetter(s: State, wotd: string): (out: (State, Result<()>))
    requires Inv(s, wotd)
    ensures Inv(out.0, wotd)
    ensures out.1.Err? ==> out.0 == s
    ensures out.1 == Err(GameOverError(s.status, wotd)) <==> s.status != InProgress
    ensures out.1 == Err(NoLettersToDelete) <==> s.status == InProgress && s.currentCell == 0
    ensures out.1 == Ok(()) <==> s.status == InProgress && 0 < s.currentCell
    ensures out.1.Ok? ==>
              out.0.status == s.status && out.0.currentGuess == s.currentGuess &&
              out.0.currentCell + 1 == s.currentCell &&
              out.0.board[s.currentGuess][out.0.currentCell] == EmptyCell
    ensures forall i, j :: 0 <= i < MaxGuesses && 0 <= j < WordLength && (i != s.currentGuess || j + 1 != s.currentCell) ==>
              out.0.board[i][j] == s.board[i][j]
  {
    if s.status != InProgress then (s, Err(GameOverError(s.status, wotd)))
    else if s.currentCell == 0 then (s, Err(NoLettersToDelete))
    else
      var cell := s.currentCell - 1;
      var row := s.board[s.currentGuess][cell := EmptyCell];
      (s.(board := s.board[s.currentGuess := row], currentCell := cell), Ok(()))
  }

  /** The current row with each cell's status set to its feedback. */
  function ScoreRow(row: seq<CellValue>, wotd: string): (r: seq<CellValue>)
    requires |row| == WordLength == |wotd|
    requires forall j :: 0 <= j < WordLength ==> row[j].letter.Some?
    ensures ScoredRow(r, wotd)
    ensures forall j :: 0 <= j < WordLength ==> r[j].letter == row[j].letter
  {
    seq(WordLength, j requires 0 <= j < WordLength =>
      row[j].(status := Some(ScoreLetter(wotd, j, row[j].letter.value))))
  }

  /** The status a submission leaves behind, given the scored row. */
  function StatusAfterSubmit(scored: seq<CellValue>, currentGuess: nat): GameStatus
  {
    if !AllCorrect(scored) then (if currentGuess == MaxGuesses - 1 then PlayerLoses else InProgress)
    else PlayerWins
  }

  /** Scores the current row and decides whether the game is won, lost or
      goes on. The result reveals the word of the day exactly on a loss. */
  function Submit(s: State, wotd: string): (out: (State, Result<Option<string>>))
    requires Inv(s, wotd)
    ensures Inv(out.0, wotd)
    ensures out.1.Err? ==> out.0 == s
    ensures out.1 == Err(GameOverError(s.status, wotd)) <==> s.status != InProgress
    ensures out.1 == Err(NotEnoughLetters) <==> s.status == InProgress && s.currentCell < WordLength
    ensures out.1.Ok? <==> s.status == InProgress && s.currentCell == WordLength
    ensures out.1.Ok? ==>
              out.0.currentGuess == s.currentGuess + 1 && out.0.currentCell == 0 &&
              ScoredRow(out.0.board[s.currentGuess], wotd) &&
              (forall j :: 0 <= j < WordLength ==>
                 out.0.board[s.currentGuess][j].letter == s.board[s.currentGuess][j].letter) &&
              (out.0.status == PlayerWins <==> GuessedWord(s.board[s.currentGuess]) == wotd) &&
              (out.0.status == PlayerLoses <==>
                 GuessedWord(s.board[s.currentGuess]) != wotd && s.currentGuess == MaxGuesses - 1) &&
              out.1.value == (if out.0.status == PlayerLoses then Some(wotd) else None)
    ensures forall i :: 0 <= i < MaxGuesses && i != s.currentGuess ==> out.0.board[i] == s.board[i]
  {
    if s.status != InProgress then (s, Err(GameOverError(s.status, wotd)))
    else if s.currentCell < WordLength then (s, Err(NotEnoughLetters))
    else
      var row := ScoreRow(s.board[s.currentGuess], wotd);
      WinsIffGuessIsTarget(s.board[s.currentGuess], wotd);
      var status := StatusAfterSubmit(row, s.currentGuess);
      var next := State(s.board[s.currentGuess := row], status, s.currentGuess + 1, 0);
      (next, Ok(if status == PlayerLoses then Some(wotd) else None))
  }

  /** The state and result of a submission that passes both guards. */
  lemma SubmitAccepted(s: State, wotd: string)
    requires Inv(s, wotd) && s.status == InProgress && s.currentCell == WordLength
    ensures var row := ScoreRow(s.board[s.currentGuess], wotd);
            var status := StatusAfterSubmit(row, s.currentGuess);
            Submit(s, wotd) ==
              (State(s.board[s.currentGuess := row], status, s.currentGuess + 1, 0),
               Ok(if status == PlayerLoses then Some(wotd) else None))
  {
  }

  /** A scored row is all correct exactly when the guessed word is the word
      of the day. */
  lemma WinsIffGuessIsTarget(row: seq<CellValue>, wotd: string)
    requires |row| == WordLength == |wotd|
    requires forall j :: 0 <= j < WordLength ==> row[j].letter.Some?
    ensures AllCorrect(ScoreRow(row, wotd)) <==> GuessedWord(row) == wotd
  {
  }

  /** The events the presentation layer forwards to the engine. */
  datatype Event = Type(letter: Letter) | Delete | Enter

  /** The state after one event; a failing event leaves the state as it was. */
  function Step(s: State, wotd: string, e: Event): (t: State)
    requires Inv(s, wotd)
    ensures Inv(t, wotd)
    ensures s.currentGuess <= t.currentGuess
    ensures forall i :: 0 <= i < s.currentGuess ==> t.board[i] == s.board[i]
    ensures s.status != InProgress ==> t == s
  {
    match e
    case Type(letter) => AddLetter(s, wotd, letter).0
    case Delete => RemoveLastLetter(s, wotd).0
    case Enter => Submit(s, wotd).0
  }

  /** The state after a sequence of events. Submitted rows are never changed
      again and the invariant holds throughout. */
  function Play(s: State, wotd: string, events: seq<Event>): (t: State)
    requires Inv(s, wotd)
    ensures Inv(t, wotd)
    ensures s.currentGuess <= t.currentGuess
    ensures forall i :: 0 <= i < s.currentGuess ==> t.board[i] == s.board[i]
    decreases |events|
  {
    if events == [] then s else Play(Step(s, wotd, events[0]), wotd, events[1..])
  }

  /** Once the game is won or lost, no sequence of events changes anything. */
  lemma {:induction false} GameOverIsFinal(s: State, wotd: string, events: seq<Event>)
    requires Inv(s, wotd) && s.status != InProgress
    ensures Play(s, wotd, events) == s
    decreases |events|
  {
    if events != [] {
      GameOverIsFinal(Step(s, wotd, events[0]), wotd, events[1..]);
    }
  }

  /** Playing `a` then `b` is playing `a + b`. */
  lemma {:induction false} PlayAppend(s: State, wotd: string, a: seq<Event>, b: seq<Event>)
    requires Inv(s, wotd)
    ensures Play(s, wotd, a + b) == Play(Play(s, wotd, a), wotd, b)
    decreases |a|
  {
    if a == [] {
      assert a + b == b;
    } else {
      assert (a + b)[0] == a[0] && (a + b)[1..] == a[1..] + b;
      PlayAppend(Step(s, wotd, a[0]), wotd, a[1..], b);
    }
  }

  /** Deleting right after a successful add restores the state exactly. */
  lemma RemoveUndoesAdd(s: State, wotd: string, letter: Letter)
    requires Inv(s, wotd)
    requires AddLetter(s, wotd, letter).1.Ok?
    ensures RemoveLastLetter(AddLetter(s, wotd, letter).0, wotd) == (s, Ok(()))
  {
    var t := AddLetter(s, wotd, letter).0;
    var u := RemoveLastLetter(t, wotd).0;
    assert u.board[s.currentGuess] == s.board[s.currentGuess];
    assert u.board == s.board;
  }

  /** The events that type `word`, one letter at a time. */
  function Typing(word: seq<Letter>): (events: seq<Event>)
    ensures |events| == |word| && forall j :: 0 <= j < |word| ==> events[j] == Type(word[j])
  {
    seq(|word|, j requires 0 <= j < |word| => Type(word[j]))
  }

  /** Typing up to five letters into an empty current row fills it from the
      left and touches nothing else. */
  lemma {:induction false} TypingFillsRow(s: State, wotd: string, word: seq<Letter>)
    requires Inv(s, wotd) && s.status == InProgress && s.currentCell == 0
    requires |word| <= WordLength
    ensures var t := Play(s, wotd, Typing(word));
            t.status == InProgress && t.currentGuess == s.currentGuess && t.currentCell == |word| &&
            (forall j :: 0 <= j < |word| ==>
               t.board[s.currentGuess][j] == CellValue(Some(word[j]), Some(Unsubmitted))) &&
            (forall i :: 0 <= i < MaxGuesses && i != s.currentGuess ==> t.board[i] == s.board[i])
    decreases |word|
  {
    if word != [] {
      var n := |word| - 1;
      assert Typing(word) == Typing(word[..n]) + [Type(word[n])];
      PlayAppend(s, wotd, Typing(word[..n]), [Type(word[n])]);
      TypingFillsRow(s, wotd, word[..n]);
      var t := Play(s, wotd, Typing(word[..n]));
      assert Play(t, wotd, [Type(word[n])]) == Step(t, wotd, Type(word[n]));
    }
  }

  /** Typing a five-letter word and submitting it scores the current row
      letter by letter, wins exactly when the word is the word of the day, and
      loses exactly when it is not and this was the sixth row. */
  lemma EnterWord(s: State, wotd: string, word: seq<Letter>)
    requires Inv(s, wotd) && s.status == InProgress && s.currentCell == 0
    requires |word| == WordLength
    ensures var t := Play(s, wotd, Typing(word) + [Enter]);
            t.currentGuess == s.currentGuess + 1 && t.currentCell == 0 &&
            (forall j :: 0 <= j < WordLength ==>
               t.board[s.currentGuess][j] == CellValue(Some(word[j]), Some(ScoreLetter(wotd, j, word[j])))) &&
            (forall i :: 0 <= i < MaxGuesses && i != s.currentGuess ==> t.board[i] == s.board[i]) &&
            (t.status == PlayerWins <==> word == wotd) &&
            (t.status == PlayerLoses <==> word != wotd && s.currentGuess == MaxGuesses - 1) &&
            (t.status == InProgress <==> word != wotd && s.currentGuess < MaxGuesses - 1)
  {
    TypingFillsRow(s, wotd, word);
    PlayAppend(s, wotd, Typing(word), [Enter]);
    var t := Play(s, wotd, Typing(word));
    assert Play(t, wotd, [Enter]) == Step(t, wotd, Enter);
    assert GuessedWord(t.board[s.currentGuess]) == word;
  }
}
