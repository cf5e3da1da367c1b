/** The script of `assets/index.js` as it runs: the five inputs, their
    disabled flags and the table's cells are arrays updated in place by
    the same loops as the script's, and the module-level `state` and the
    request and effect in progress are fields. Each callback is a method
    whose new state is the corresponding step of `Server` applied to the
    old one, so every property proved there holds of the page. */
module ServerPage {
  import opened Letters
  import opened Grid
  import opened Server

  class Page {
    const letters: array<string>   // letters[i].value
    const disabled: array<bool>    // letters[i].disabled
    const tds: array<Cell>         // the cells of the result table
    var focus: nat
    var state: Phase
    var status: string
    var inFlight: Option<string>   // the guess of the request awaiting its answer
    var effectPending: bool        // the animationend listener is registered

    /** The page as a `Server.Screen`. */
    function View(): Screen
      reads this, letters, disabled, tds
    {
      Screen(letters[..], disabled[..], focus, state, tds[..], status, inFlight, effectPending)
    }

    ghost predicate Valid()
      reads this, letters, disabled, tds
    {
      Inv(View())
    }

    /** The page as loaded, after `init()` focused the first slot. */
    constructor ()
      ensures Valid() && View() == Initial()
    {
      letters := new string[Slots](_ => "");
      disabled := new bool[Slots](_ => false);
      tds := new Cell[CellCount](_ => Blank);
      focus, state, status, inFlight, effectPending := 0, Input, "", None, false;
      new;
      assert letters[..] == Blanks();
      assert disabled[..] == Uniform(false);
      assert tds[..] == BlankGrid();
    }

    /** `disableInputs()`. */
    method DisableInputs()
      modifies disabled
      ensures forall k :: 0 <= k < disabled.Length ==> disabled[k]
    {
      for k := 0 to disabled.Length
        invariant forall j :: 0 <= j < k ==> disabled[j]
      {
        disabled[k] := true;
      }
    }

    /** `enableInputs()`. */
    method EnableInputs()
      modifies this`focus, disabled
      ensures forall k :: 0 <= k < disabled.Length ==> !disabled[k]
      ensures focus == 0
    {
      for k := 0 to disabled.Length
        invariant forall j :: 0 <= j < k ==> !disabled[j]
      {
        disabled[k] := false;
      }
      focus := 0;
    }

    /** `cheese(attemptsLeft)`: the slots are disabled and the one-shot
        animationend listener is registered. */
    method Cheese()
      modifies this`effectPending, disabled
      ensures forall k :: 0 <= k < disabled.Length ==> disabled[k]
      ensures effectPending
    {
      DisableInputs();
      effectPending := true;
    }

    /** The synchronous part of `makeAGuess`. */
    method Submit()
      requires Valid() && inFlight.None? && !effectPending
      modifies this, letters, disabled
      ensures Valid() && View() == Server.Submit(old(View()))
    {
      var guess := TakeGuess(letters);
      assert letters[..] == Blanks();
      ghost var before := old(View());
      if state == Over {
        focus := 0;
        assert View() == before.(slots := Blanks(), focus := 0);
        assert View() == Server.Submit(before);
        assert Valid();
        return;
      }
      state := Waiting;
      DisableInputs();
      assert disabled[..] == Uniform(true);
      inFlight := Some(guess);
      assert View() == before.(slots := Blanks(), phase := Waiting, disabled := Uniform(true),
                               pending := Some(Concat(before.slots)));
      assert View() == Server.Submit(before);
      assert Valid();
    }

    /** The loop of the success continuation: row `row` of the table gets
        the guess's letters, classed by `lettersCorrect`, and the result
        says whether every column was correct. */
    method DrawRow(row: nat, guess: string, lettersCorrect: seq<bool>) returns (allCorrect: bool)
      requires tds.Length == CellCount && row < Rows && |lettersCorrect| == Columns
      modifies tds
      ensures tds[..] == WriteRow(old(tds[..]), row, RowCells(guess, lettersCorrect))
      ensures allCorrect == AllSet(lettersCorrect)
    {
      ghost var cells := RowCells(guess, lettersCorrect);
      allCorrect := true;
      for col := 0 to Columns
        invariant forall k :: 0 <= k < tds.Length ==>
          tds[k] == if row * Columns <= k < row * Columns + col then cells[k - row * Columns] else old(tds[k])
        invariant allCorrect <==> forall j :: 0 <= j < col ==> lettersCorrect[j]
      {
        var className;
        if lettersCorrect[col] {
          className := Correct;
        } else {
          className := Wrong;
          allCorrect := false;
        }
        tds[Index(row, col)] := Cell(CharAt(guess, col), className);
      }
      assert tds[..] == WriteRow(old(tds[..]), row, cells);
    }

    /** The success continuation of the request in `makeAGuess`. */
    method OnVerdict(attemptsLeft: int, lettersCorrect: seq<bool>)
      requires Valid() && inFlight.Some? && 0 <= attemptsLeft && |lettersCorrect| == Columns
      modifies this, disabled, tds
      ensures Valid() && View() == Verdict(old(View()), attemptsLeft, lettersCorrect)
    {
      var guess := inFlight.value;
      inFlight := None;
      var row := LastRow - attemptsLeft;
      if row < 0 {
        return;
      }
      var allCorrect := DrawRow(row, guess, lettersCorrect);
      var message;
      if allCorrect {
        message := Won;
        state := Over;
      } else if attemptsLeft == 0 {
        message := Lost;
        state := Over;
        Cheese();
      } else {
        message := AttemptsLeftMessage(attemptsLeft);
        state := Input;
        Cheese();
      }
      status := message;
    }

    /** The failure continuation of the request in `makeAGuess`. */
    method OnFailure()
      requires Valid() && inFlight.Some?
      modifies this, disabled
      ensures Valid() && View() == Failure(old(View()))
    {
      inFlight := None;
      state := Input;
      EnableInputs();
      assert disabled[..] == Uniform(false);
    }

    /** The animationend listener registered by `cheese`. */
    method OnEffectEnd()
      requires Valid() && effectPending
      modifies this, disabled
      ensures Valid() && View() == EffectEnd(old(View()))
    {
      effectPending := false;
      if state != Over {
        EnableInputs();
        assert disabled[..] == Uniform(false);
      }
    }

    /** The keydown handler that `mergeLetterInputFields` installs on slot i;
        keydown reaches only an enabled input. */
    method OnKey(i: nat, ev: KeyEvent)
      requires Valid() && i < Slots && !disabled[i]
      modifies this, letters, disabled
      ensures Valid() && View() == Key(old(View()), i, ev)
    {
      KeyDownEffect(View(), i, ev);
      if ev.code == "Backspace" {
        letters[i] := "";
        if i != 0 {
          focus := i - 1;
        }
        return;
      }
      if !Includes(ValidLetters, ev.key) {
        return;
      }
      letters[i] := ToUpper(ev.key);
      if i < LastSlot {
        focus := i + 1;
      } else {
        Submit();
      }
    }
  }
}
