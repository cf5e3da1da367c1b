/** The script of `src/index.js` as it runs: the five inputs and the table's
    cells are arrays updated in place by the same loops as the script's, and
    the module-level `attemptsLeft` and `over` are fields. Each function of
    the script is a method whose new state is the corresponding step of
    `Local` applied to the old one, so every property proved there holds of
    the page. */
module LocalPage {
  import opened Letters
  import opened Grid
  import opened Local

  class Page {
    const letters: array<string>   // letters[i].value
    const tds: array<Cell>         // the cells of the result table
    var focus: nat
    var attemptsLeft: int
    var over: bool
    var status: string

    /** The page as a `Local.Game`. */
    function View(): Game
      reads this, letters, tds
    {
      Game(letters[..], focus, attemptsLeft, over, tds[..], status)
    }

    ghost predicate Valid()
      reads this, letters, tds
    {
      Inv(View())
    }

    /** The page as loaded, with the first slot focused. */
    constructor ()
      ensures Valid() && View() == Local.Initial()
    {
      letters := new string[Slots](_ => "");
      tds := new Cell[CellCount](_ => Blank);
      focus, attemptsLeft, over, status := 0, MaxAttempts, false, "";
      new;
      assert letters[..] == Blanks();
      assert tds[..] == BlankGrid();
    }

    /** `outputGuess(guess)`: the loop over the five columns of row
        `5 - attemptsLeft`. */
    method OutputGuess(guess: string)
      requires tds.Length == CellCount && 1 <= attemptsLeft
      modifies tds
      ensures tds[..] == Local.OutputGuess(old(tds[..]), attemptsLeft, guess)
    {
      var row := MaxAttempts - attemptsLeft;
      if row < 0 {
        return;
      }
      ghost var cells := Judge(guess);
      for col := 0 to Columns
        invariant forall k :: 0 <= k < tds.Length ==>
          tds[k] == if row * Columns <= k < row * Columns + col then cells[k - row * Columns] else old(tds[k])
      {
        var className;
        if col < |guess| && Word[col] == guess[col] {
          className := Correct;
        } else {
          className := Wrong;
        }
        tds[Index(row, col)] := Cell(CharAt(guess, col), className);
      }
      assert tds[..] == WriteRow(old(tds[..]), row, cells);
    }

    /** `makeAGuess()`. */
    method MakeAGuess()
      requires Valid()
      modifies this, letters, tds
      ensures Valid() && View() == Local.Submit(old(View()))
    {
      var guess := TakeGuess(letters);
      assert letters[..] == Blanks();
      ghost var cleared := old(View()).(slots := Blanks());
      assert View() == cleared;
      if over {
        focus := 0;
        return;
      }
      OutputGuess(guess);
      attemptsLeft := attemptsLeft - 1;
      var message;
      if Word == guess {
        message := Won;
        over := true;
      } else if attemptsLeft == 0 {
        message := UsedUp;
        over := true;
      } else {
        message := AttemptsLeftMessage(attemptsLeft);
      }
      status := message;
      focus := 0;
      assert View() == SubmitGuess(cleared, guess);
    }

    /** The keydown handler that `mergeLetterInputFields` installs on slot i. */
    method OnKey(i: nat, ev: KeyEvent)
      requires Valid() && i < Slots
      modifies this, letters, tds
      ensures Valid() && View() == Key(old(View()), i, ev)
    {
      KeyDownEffect(View(), i, ev);
      if ev.code == "Backspace" {
        letters[i] := "";
        if i != 0 {
          focus := i - 1;
        }
        return;
      }
      if !Includes(ValidLetters, ev.key) {
        return;
      }
      letters[i] := ToUpper(ev.key);
      if i < LastSlot {
        focus := i + 1;
      } else {
        MakeAGuess();
      }
    }
  }
}
