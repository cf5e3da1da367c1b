/** The self-checked game of `src/index.js`, as values: the guess is compared
    with the fixed word in the page itself, an attempts counter starting at
    five is decremented on every recorded guess, and a flag ends the game.
    The slots are never disabled in this variant. `LocalPage.Page` runs the
    same steps in place. */
module Local {
  import opened Letters
  import opened Grid

  const Word := "CHEEZ"
  const MaxAttempts := 5

  const UsedUp := "You used up all your attempts!"

  /** Everything the script reads or writes. */
  datatype Game = Game(
    slots: seq<string>,  // letters[i].value
    focus: nat,          // the slot the script focused last
    attemptsLeft: int,
    over: bool,
    grid: seq<Cell>,     // the cells of the result table
    status: string)      // the status line

  /** What holds of every game the script can reach: the counter stays in
      0..5 and the game is over once it reaches 0. */
  predicate Inv(g: Game) {
    |g.slots| == Slots && (forall i :: 0 <= i < Slots ==> AllUpper(g.slots[i])) &&
    g.focus < Slots && |g.grid| == CellCount &&
    0 <= g.attemptsLeft <= MaxAttempts && (g.attemptsLeft == 0 ==> g.over)
  }

  /** The page as loaded. */
  function Initial(): (g: Game)
    ensures Inv(g) && !g.over && g.attemptsLeft == MaxAttempts
  {
    Game(Blanks(), 0, MaxAttempts, false, BlankGrid(), "")
  }

  /** `word[col] == guess[col]` for each column; past the end of the guess
      the comparison is with `undefined` and fails. */
  function Matches(guess: string): (flags: seq<bool>)
    ensures |flags| == Columns
    ensures forall col :: 0 <= col < Columns ==>
      (flags[col] <==> col < |guess| && guess[col] == Word[col])
  {
    seq(Columns, col requires 0 <= col < Columns => col < |guess| && Word[col] == guess[col])
  }

  /** The five cells `outputGuess` writes for a guess. */
  function Judge(guess: string): seq<Cell> {
    RowCells(guess, Matches(guess))
  }

  /** `outputGuess(guess)`: row `5 - attemptsLeft`, unless that is negative.
      The table has five rows, so the row must not pass the last one. */
  function OutputGuess(grid: seq<Cell>, attemptsLeft: int, guess: string): (g: seq<Cell>)
    requires |grid| == CellCount && 1 <= attemptsLeft
    ensures |g| == |grid|
  {
    var row := MaxAttempts - attemptsLeft;
    if row < 0 then grid else WriteRow(grid, row, Judge(guess))
  }

  /** `makeAGuess` once the guess has been read from the slots: a finished
      game only refocuses the first slot; otherwise the guess is drawn, the
      counter drops by one, and the game is won when the guess is the word,
      lost when the counter reaches 0, and goes on otherwise. */
  function SubmitGuess(g: Game, guess: string): (h: Game)
    requires Inv(g)
    ensures Inv(h)
  {
    if g.over then g.(focus := 0)
    else
      var drawn := g.(grid := OutputGuess(g.grid, g.attemptsLeft, guess),
                      attemptsLeft := g.attemptsLeft - 1, focus := 0);
      if guess == Word then drawn.(over := true, status := Won)
      else if drawn.attemptsLeft == 0 then drawn.(over := true, status := UsedUp)
      else drawn.(status := AttemptsLeftMessage(drawn.attemptsLeft))
  }

  /** `makeAGuess`: the slots are read in order into the guess and emptied. */
  function Submit(g: Game): (h: Game)
    requires Inv(g)
    ensures Inv(h)
  {
    SubmitGuess(g.(slots := Blanks()), Concat(g.slots))
  }

  /** The keydown handler of slot i. */
  function Key(g: Game, i: nat, ev: KeyEvent): (h: Game)
    requires Inv(g) && i < Slots
    ensures Inv(h)
  {
    match Classify(ev)
    case Erase =>
      var erased := g.slots[i := ""];
      assert forall j :: 0 <= j < Slots ==> AllUpper(erased[j]);
      g.(slots := erased, focus := if i != 0 then i - 1 else g.focus)
    case Ignore => g
    case Accept(v) =>
      var typed := g.(slots := g.slots[i := v]);
      assert forall j :: 0 <= j < Slots ==> AllUpper(typed.slots[j]);
      if i < LastSlot then typed.(focus := i + 1) else Submit(typed)
  }

  /** The game after each guess of `guesses` in turn. */
  function Play(g: Game, guesses: seq<string>): (h: Game)
    requires Inv(g)
    ensures Inv(h)
    decreases |guesses|
  {
    if guesses == [] then g else Play(SubmitGuess(g, guesses[0]), guesses[1..])
  }

  // ---------------------------------------------------------------------
  // The key handler

  /** Backspace empties the slot and moves focus back one slot except from
      the first; a key outside the letter string changes nothing; an
      accepted key is stored upper-cased and focus moves on, or the last
      slot submits. */
  lemma KeyDownEffect(g: Game, i: nat, ev: KeyEvent)
    requires Inv(g) && i < Slots
    ensures ev.code == "Backspace" ==>
      Key(g, i, ev) == g.(slots := g.slots[i := ""], focus := if i != 0 then i - 1 else g.focus)
    ensures ev.code != "Backspace" && !Includes(ValidLetters, ev.key) ==> Key(g, i, ev) == g
    ensures ev.code != "Backspace" && Includes(ValidLetters, ev.key) && i < LastSlot ==>
      Key(g, i, ev) == g.(slots := g.slots[i := ToUpper(ev.key)], focus := i + 1)
    ensures ev.code != "Backspace" && Includes(ValidLetters, ev.key) && i == LastSlot ==>
      Key(g, i, ev) == Submit(g.(slots := g.slots[i := ToUpper(ev.key)]))
  {
  }

  /** No key ever clears the flag of a finished game, nor changes its table,
      counter or status. */
  lemma KeyKeepsOver(g: Game, i: nat, ev: KeyEvent)
    requires Inv(g) && i < Slots && g.over
    ensures Key(g, i, ev).over
    ensures Key(g, i, ev).grid == g.grid && Key(g, i, ev).attemptsLeft == g.attemptsLeft
    ensures Key(g, i, ev).status == g.status
  {
  }

  // ---------------------------------------------------------------------
  // One guess

  /** Submission always empties every slot; in a finished game nothing else
      changes except that the first slot is focused. */
  lemma SubmitWhenOver(g: Game)
    requires Inv(g)
    ensures Submit(g).slots == Blanks()
    ensures g.over ==> Submit(g) == g.(slots := Blanks(), focus := 0)
  {
  }

  /** One cell of the table after a guess in a running game. */
  lemma SubmitGuessCell(g: Game, guess: string, r: nat, col: nat)
    requires Inv(g) && !g.over && r < Rows && col < Columns
    ensures SubmitGuess(g, guess).attemptsLeft == g.attemptsLeft - 1
    ensures SubmitGuess(g, guess).grid[Index(r, col)] ==
      if r == MaxAttempts - g.attemptsLeft then Judge(guess)[col] else g.grid[Index(r, col)]
  {
    var row := MaxAttempts - g.attemptsLeft;
    var k := Index(r, col);
    assert SubmitGuess(g, guess).grid == WriteRow(g.grid, row, Judge(guess));
    assert row * Columns <= k < row * Columns + Columns <==> r == row;
  }

  /** A guess in a running game is drawn in row `5 - attemptsLeft`, which
      lies inside the table (so the `row < 0` guard never fires): each of
      its cells gets the guess's letter and is correct exactly when the
      letter matches the word's; no other cell changes; the counter drops
      by exactly one; the first slot is focused and the slot values are
      kept. */
  lemma SubmitGuessRecordsRow(g: Game, guess: string)
    requires Inv(g) && !g.over
    ensures 0 <= MaxAttempts - g.attemptsLeft < Rows
    ensures SubmitGuess(g, guess).attemptsLeft == g.attemptsLeft - 1
    ensures SubmitGuess(g, guess).focus == 0 && SubmitGuess(g, guess).slots == g.slots
    ensures forall r, col :: 0 <= r < Rows && 0 <= col < Columns ==>
      SubmitGuess(g, guess).grid[Index(r, col)] ==
        if r == MaxAttempts - g.attemptsLeft then Judge(guess)[col] else g.grid[Index(r, col)]
  {
    forall r: nat, col: nat | r < Rows && col < Columns {
      SubmitGuessCell(g, guess, r, col);
    }
  }

  /** A guess in a running game wins exactly when it is the word, also on the
      last attempt; otherwise the game ends exactly when the counter reaches
      0, and while it goes on the status gives the attempts left. */
  lemma SubmitGuessOutcome(g: Game, guess: string)
    requires Inv(g) && !g.over
    ensures SubmitGuess(g, guess).status == Won <==> guess == Word
    ensures SubmitGuess(g, guess).over <==> guess == Word || g.attemptsLeft == 1
    ensures SubmitGuess(g, guess).status == UsedUp <==> guess != Word && g.attemptsLeft == 1
    ensures !SubmitGuess(g, guess).over ==>
      SubmitGuess(g, guess).status == AttemptsLeftMessage(SubmitGuess(g, guess).attemptsLeft)
  {
    var h := SubmitGuess(g, guess);
    if !h.over {
      AttemptsLeftIsNotWon(h.attemptsLeft);
      assert h.status[4] != UsedUp[4];
    }
    assert Won[4] != UsedUp[4];
  }

  /** For a five-letter guess, every cell is correct exactly when the guess
      is the word, so the row drawn agrees with the win test. */
  lemma AllCorrectIffWord(guess: string)
    requires |guess| == Columns
    ensures AllSet(Matches(guess)) <==> guess == Word
  {
    if AllSet(Matches(guess)) {
      forall col | 0 <= col < Columns ensures guess[col] == Word[col] {
        assert Matches(guess)[col];
      }
    }
  }

  // ---------------------------------------------------------------------
  // A whole game

  /** Over any sequence of guesses the counter drops by one per recorded
      guess and never more; a finished game records nothing and stays
      finished; while the game runs every guess is recorded. */
  lemma {:induction false} PlayCounts(g: Game, guesses: seq<string>)
    requires Inv(g)
    ensures Play(g, guesses).attemptsLeft <= g.attemptsLeft
    ensures g.attemptsLeft - Play(g, guesses).attemptsLeft <= |guesses|
    ensures g.over ==> Play(g, guesses).over && Play(g, guesses).attemptsLeft == g.attemptsLeft
    ensures !Play(g, guesses).over ==> g.attemptsLeft - Play(g, guesses).attemptsLeft == |guesses|
    decreases |guesses|
  {
    if guesses != [] {
      PlayCounts(SubmitGuess(g, guesses[0]), guesses[1..]);
    }
  }

  /** `after` is `before` with rows first..last-1 holding the guesses in order. */
  ghost predicate RowsAppended(before: seq<Cell>, after: seq<Cell>, first: int, last: int, guesses: seq<string>)
    requires |before| == CellCount && |after| == CellCount
    requires 0 <= first <= last <= Rows && last - first <= |guesses|
  {
    forall r, col :: 0 <= r < Rows && 0 <= col < Columns ==>
      after[Index(r, col)] ==
        if first <= r < last then Judge(guesses[r - first])[col] else before[Index(r, col)]
  }

  /** One cell over a sequence of guesses: it holds the guess recorded in
      its row, if one was, and otherwise what it held before. */
  lemma {:induction false} PlayCell(g: Game, guesses: seq<string>, r: nat, col: nat)
    requires Inv(g) && r < Rows && col < Columns
    ensures g.attemptsLeft - Play(g, guesses).attemptsLeft <= |guesses|
    ensures Play(g, guesses).grid[Index(r, col)] ==
      if MaxAttempts - g.attemptsLeft <= r < MaxAttempts - Play(g, guesses).attemptsLeft
      then Judge(guesses[r - (MaxAttempts - g.attemptsLeft)])[col]
      else g.grid[Index(r, col)]
    decreases |guesses|
  {
    PlayCounts(g, guesses);
    if guesses != [] {
      var g1 := SubmitGuess(g, guesses[0]);
      var rest := guesses[1..];
      var h := Play(g, guesses);
      assert h == Play(g1, rest);
      PlayCell(g1, rest, r, col);
      PlayCounts(g1, rest);
      var k := Index(r, col);
      var first := MaxAttempts - g.attemptsLeft;
      var last := MaxAttempts - h.attemptsLeft;
      var expected := if first <= r < last then Judge(guesses[r - first])[col] else g.grid[k];
      if g.over {
        assert g1.grid == g.grid && g1.attemptsLeft == g.attemptsLeft;
        assert h.grid[k] == expected;
      } else {
        SubmitGuessCell(g, guesses[0], r, col);
        if r < first {
          assert h.grid[k] == g.grid[k];
        } else if r == first {
          assert h.grid[k] == Judge(guesses[0])[col];
        } else if r < last {
          assert rest[r - (first + 1)] == guesses[r - first];
          assert h.grid[k] == Judge(guesses[r - first])[col];
        } else {
          assert h.grid[k] == g.grid[k];
        }
        assert h.grid[k] == expected;
      }
    }
  }

  /** The table is append-only: over any sequence of guesses, the rows
      already written and the rows after the last new one are untouched,
      and the new rows follow on from row `5 - attemptsLeft` in the order
      of the guesses, one per recorded guess, so no row is written twice. */
  lemma PlayAppendsRows(g: Game, guesses: seq<string>)
    requires Inv(g)
    ensures Play(g, guesses).attemptsLeft <= g.attemptsLeft
    ensures g.attemptsLeft - Play(g, guesses).attemptsLeft <= |guesses|
    ensures RowsAppended(g.grid, Play(g, guesses).grid, MaxAttempts - g.attemptsLeft,
                         MaxAttempts - Play(g, guesses).attemptsLeft, guesses)
  {
    PlayCounts(g, guesses);
    forall r: nat, col: nat | r < Rows && col < Columns {
      PlayCell(g, guesses, r, col);
    }
  }

  /** Wrong guesses each use up exactly one attempt, and the game ends with
      the loss message exactly when they have used up the last one. */
  lemma {:induction false} MissesUseUpAttempts(g: Game, guesses: seq<string>)
    requires Inv(g) && !g.over && |guesses| <= g.attemptsLeft
    requires forall j :: 0 <= j < |guesses| ==> guesses[j] != Word
    ensures Play(g, guesses).attemptsLeft == g.attemptsLeft - |guesses|
    ensures Play(g, guesses).over <==> |guesses| == g.attemptsLeft
    ensures |guesses| == g.attemptsLeft && guesses != [] ==> Play(g, guesses).status == UsedUp
    decreases |guesses|
  {
    if guesses != [] {
      var g1 := SubmitGuess(g, guesses[0]);
      SubmitGuessOutcome(g, guesses[0]);
      if |guesses| == 1 {
        assert Play(g, guesses) == Play(g1, []);
      } else {
        MissesUseUpAttempts(g1, guesses[1..]);
      }
    }
  }

  /** Five wrong guesses from the start lose the game with all five rows
      written, and a sixth guess adds no row. */
  lemma FiveMissesLose(guesses: seq<string>, sixth: string)
    requires |guesses| == MaxAttempts && forall j :: 0 <= j < |guesses| ==> guesses[j] != Word
    ensures Play(Initial(), guesses).over && Play(Initial(), guesses).status == UsedUp
    ensures Play(Initial(), guesses).attemptsLeft == 0
    ensures Play(Initial(), guesses + [sixth]).grid == Play(Initial(), guesses).grid
  {
    MissesUseUpAttempts(Initial(), guesses);
    PlayThenOne(Initial(), guesses, sixth);
  }

  /** Playing one more guess is one more submission. */
  lemma {:induction false} PlayThenOne(g: Game, guesses: seq<string>, guess: string)
    requires Inv(g)
    ensures Play(g, guesses + [guess]) == SubmitGuess(Play(g, guesses), guess)
    decreases |guesses|
  {
    if guesses == [] {
      assert Play(g, [guess]) == Play(SubmitGuess(g, guess), []);
    } else {
      assert (guesses + [guess])[1..] == guesses[1..] + [guess];
      PlayThenOne(SubmitGuess(g, guesses[0]), guesses[1..], guess);
    }
  }

  /** "CRANE" then "CHEEZ": the first row has only its C correct, the
      second row is all correct, and the game is won with three attempts
      left. */
  lemma CraneThenCheez()
    ensures Play(Initial(), ["CRANE", "CHEEZ"]).grid[Index(0, 0)] == Cell("C", Correct)
    ensures Play(Initial(), ["CRANE", "CHEEZ"]).grid[Index(0, 1)] == Cell("R", Wrong)
    ensures Play(Initial(), ["CRANE", "CHEEZ"]).grid[Index(0, 2)] == Cell("A", Wrong)
    ensures Play(Initial(), ["CRANE", "CHEEZ"]).grid[Index(0, 3)] == Cell("N", Wrong)
    ensures Play(Initial(), ["CRANE", "CHEEZ"]).grid[Index(0, 4)] == Cell("E", Wrong)
    ensures forall col :: 0 <= col < Columns ==>
      Play(Initial(), ["CRANE", "CHEEZ"]).grid[Index(1, col)] == Cell([Word[col]], Correct)
    ensures Play(Initial(), ["CRANE", "CHEEZ"]).over
    ensures Play(Initial(), ["CRANE", "CHEEZ"]).status == Won
    ensures Play(Initial(), ["CRANE", "CHEEZ"]).attemptsLeft == 3
  {
    var gs := ["CRANE", "CHEEZ"];
    PlayAppendsRows(Initial(), gs);
    var g1 := SubmitGuess(Initial(), gs[0]);
    SubmitGuessOutcome(Initial(), gs[0]);
    SubmitGuessOutcome(g1, gs[1]);
    assert Play(Initial(), gs) == SubmitGuess(g1, gs[1]) by {
      assert Play(Initial(), gs) == Play(g1, gs[1..]);
      assert Play(g1, gs[1..]) == Play(SubmitGuess(g1, gs[1]), []);
    }
  }
}
