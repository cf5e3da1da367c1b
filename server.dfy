/** The server-checked game of `assets/index.js`, as values: what the page
    shows and holds (`Screen`), what each callback does to it, and what
    holds across every sequence of callbacks. The guess is checked by a
    remote service, so the asynchronous `makeAGuess` is split into its
    synchronous part (`Submit`), its success continuation (`Verdict`), its
    failure continuation (`Failure`) and the `animationend` continuation of
    the penalty effect (`EffectEnd`). `ServerPage.Page` runs the same steps
    in place. */
module Server {
  import opened Letters
  import opened Grid

  datatype Option<T> = None | Some(value: T)

  /** `STATE_INPUT`, `STATE_WAITING`, `STATE_OVER`. */
  datatype Phase = Input | Waiting | Over

  /** Everything the script reads or writes. */
  datatype Screen = Screen(
    slots: seq<string>,       // letters[i].value
    disabled: seq<bool>,      // letters[i].disabled
    focus: nat,               // the slot the script focused last
    phase: Phase,             // state
    grid: seq<Cell>,          // the cells of the result table
    status: string,           // the status line
    pending: Option<string>,  // the guess whose request awaits its answer
    effect: bool)             // the one-shot animationend listener is registered

  /** The row of a verdict is `LastRow - attemptsLeft`. */
  const LastRow := 4

  const Lost := "You lost! No more attempts left!"

  /** Every slot disabled (`Uniform(true)`) or every slot enabled. */
  function Uniform(b: bool): seq<bool> {
    seq(Slots, _ => b)
  }

  /** Enabled and disabled slots are told apart. */
  lemma UniformDiffers()
    ensures Uniform(true) != Uniform(false)
  {
    assert Uniform(true)[0] != Uniform(false)[0];
  }

  /** What holds of every screen the script can reach: the slots are
      switched together; they are enabled exactly when the game accepts
      input and no penalty effect is running; a request is only in flight
      while waiting, and the word it carries is upper-case; the effect only
      runs after a verdict. */
  predicate Inv(s: Screen) {
    |s.slots| == Slots && (forall i :: 0 <= i < Slots ==> AllUpper(s.slots[i])) &&
    (s.disabled == Uniform(true) || s.disabled == Uniform(false)) &&
    s.focus < Slots && |s.grid| == CellCount &&
    (s.pending.Some? ==> s.phase == Waiting && !s.effect && AllUpper(s.pending.value)) &&
    (s.effect ==> s.phase != Waiting) &&
    (s.disabled == Uniform(false) <==> s.phase == Input && !s.effect)
  }

  /** The page as loaded: empty enabled slots, the first one focused. */
  function Initial(): (s: Screen)
    ensures Inv(s) && s.phase == Input && s.disabled == Uniform(false)
  {
    Screen(Blanks(), Uniform(false), 0, Input, BlankGrid(), "", None, false)
  }

  /** `disableInputs()`, then the penalty effect is started and its
      one-shot listener registered (`cheese`). */
  function Cheese(s: Screen): Screen {
    s.(disabled := Uniform(true), effect := true)
  }

  /** `enableInputs()`: every slot enabled and the first one focused. */
  function EnableInputs(s: Screen): Screen {
    s.(disabled := Uniform(false), focus := 0)
  }

  /** The synchronous part of `makeAGuess`: the slots are read in order into
      the guess and emptied; a finished game only refocuses the first slot;
      otherwise the game waits, the slots are disabled and the request for
      the guess is sent. It runs from the handler of the last slot, so never
      while a request is in flight or the effect runs. */
  function Submit(s: Screen): (t: Screen)
    requires Inv(s) && s.pending.None? && !s.effect
    ensures Inv(t)
  {
    var guess := Concat(s.slots);
    var cleared := s.(slots := Blanks());
    UniformDiffers();
    ConcatOfUpperSlots(s.slots);
    if s.phase == Over then cleared.(focus := 0)
    else cleared.(phase := Waiting, disabled := Uniform(true), pending := Some(guess))
  }

  /** The keydown handler of slot i. The browser delivers keydown only to
      an enabled input, hence the requirement on `s.disabled[i]`. */
  function Key(s: Screen, i: nat, ev: KeyEvent): (t: Screen)
    requires Inv(s) && i < Slots && !s.disabled[i]
    ensures Inv(t)
  {
    match Classify(ev)
    case Erase =>
      var erased := s.slots[i := ""];
      assert forall j :: 0 <= j < Slots ==> AllUpper(erased[j]);
      s.(slots := erased, focus := if i != 0 then i - 1 else s.focus)
    case Ignore => s
    case Accept(v) =>
      var typed := s.(slots := s.slots[i := v]);
      assert forall j :: 0 <= j < Slots ==> AllUpper(typed.slots[j]);
      if i < LastSlot then typed.(focus := i + 1) else Submit(typed)
  }

  /** The answer to the request: `attemptsLeft` and the per-column
      `lettersCorrect`. A row above the table is ignored; otherwise the
      row is drawn, and the game is won, lost (with the penalty effect) or
      goes on (with the penalty effect). */
  function Verdict(s: Screen, attemptsLeft: int, lettersCorrect: seq<bool>): (t: Screen)
    requires Inv(s) && s.pending.Some? && 0 <= attemptsLeft && |lettersCorrect| == Columns
    ensures Inv(t)
  {
    var guess := s.pending.value;
    var answered := s.(pending := None);
    UniformDiffers();
    var row := LastRow - attemptsLeft;
    if row < 0 then answered
    else
      var drawn := answered.(grid := WriteRow(s.grid, row, RowCells(guess, lettersCorrect)));
      if AllSet(lettersCorrect) then drawn.(phase := Over, status := Won)
      else if attemptsLeft == 0 then Cheese(drawn.(phase := Over, status := Lost))
      else Cheese(drawn.(phase := Input, status := AttemptsLeftMessage(attemptsLeft)))
  }

  /** The request failed: input is accepted again. */
  function Failure(s: Screen): (t: Screen)
    requires Inv(s) && s.pending.Some?
    ensures Inv(t)
  {
    UniformDiffers();
    EnableInputs(s.(pending := None, phase := Input))
  }

  /** The penalty effect ended: input comes back unless the game is over. */
  function EffectEnd(s: Screen): (t: Screen)
    requires Inv(s) && s.effect
    ensures Inv(t)
  {
    var ended := s.(effect := false);
    UniformDiffers();
    if s.phase != Over then EnableInputs(ended) else ended
  }

  /** The events the page reacts to. */
  datatype Event =
    | KeyDown(slot: nat, ev: KeyEvent)
    | Response(attemptsLeft: int, lettersCorrect: seq<bool>)
    | Rejected
    | AnimationEnd

  /** Whether the event can reach the script in this screen. A response
      carries a non-negative count and five flags. */
  predicate CanOccur(s: Screen, e: Event) {
    match e
    case KeyDown(i, _) => i < |s.disabled| && !s.disabled[i]
    case Response(a, flags) => s.pending.Some? && 0 <= a && |flags| == Columns
    case Rejected => s.pending.Some?
    case AnimationEnd => s.effect
  }

  function Step(s: Screen, e: Event): (t: Screen)
    requires Inv(s) && CanOccur(s, e)
    ensures Inv(t)
  {
    match e
    case KeyDown(i, ev) => Key(s, i, ev)
    case Response(a, flags) => Verdict(s, a, flags)
    case Rejected => Failure(s)
    case AnimationEnd => EffectEnd(s)
  }

  /** Every event of `es` can occur when its turn comes. */
  predicate Admissible(s: Screen, es: seq<Event>)
    requires Inv(s)
    decreases |es|
  {
    es == [] || (CanOccur(s, es[0]) && Admissible(Step(s, es[0]), es[1..]))
  }

  function Run(s: Screen, es: seq<Event>): (t: Screen)
    requires Inv(s) && Admissible(s, es)
    ensures Inv(t)
    decreases |es|
  {
    if es == [] then s else Run(Step(s, es[0]), es[1..])
  }

  // ---------------------------------------------------------------------
  // The key handler

  /** Backspace empties the slot and moves focus back one slot except from
      the first; a key outside the letter string changes nothing; an
      accepted key is stored upper-cased and focus moves on, or the last
      slot submits. */
  lemma KeyDownEffect(s: Screen, i: nat, ev: KeyEvent)
    requires Inv(s) && i < Slots && !s.disabled[i]
    ensures ev.code == "Backspace" ==>
      Key(s, i, ev) == s.(slots := s.slots[i := ""], focus := if i != 0 then i - 1 else s.focus)
    ensures ev.code != "Backspace" && !Includes(ValidLetters, ev.key) ==> Key(s, i, ev) == s
    ensures ev.code != "Backspace" && Includes(ValidLetters, ev.key) && i < LastSlot ==>
      Key(s, i, ev) == s.(slots := s.slots[i := ToUpper(ev.key)], focus := i + 1)
    ensures ev.code != "Backspace" && Includes(ValidLetters, ev.key) && i == LastSlot ==>
      Key(s, i, ev) == Submit(s.(slots := s.slots[i := ToUpper(ev.key)]))
  {
  }

  /** A key event reaches the script only while no request is in flight and
      no effect runs, so at most one request is outstanding at a time. */
  lemma KeyOnlyWhenIdle(s: Screen, e: Event)
    requires Inv(s) && e.KeyDown? && CanOccur(s, e)
    ensures s.phase == Input && s.pending.None? && !s.effect
  {
    assert s.disabled != Uniform(true) by {
      assert s.disabled[e.slot] != Uniform(true)[e.slot];
    }
  }

  // ---------------------------------------------------------------------
  // Submission

  /** Submission sends the slot values in slot order and empties every slot.
      In a finished game it only refocuses the first slot. Otherwise the
      game waits for the answer with every slot disabled, the request
      carries an upper-case word, focus, table, status and effect are kept,
      and the only events that can follow are the answer and the failure. */
  lemma SubmitSendsSlots(s: Screen)
    requires Inv(s) && s.pending.None? && !s.effect
    ensures Submit(s).slots == Blanks()
    ensures s.phase == Over ==> Submit(s) == s.(slots := Blanks(), focus := 0)
    ensures s.phase != Over ==>
      Submit(s) == s.(slots := Blanks(), phase := Waiting, disabled := Uniform(true),
                      pending := Some(Concat(s.slots)))
    ensures s.phase != Over ==> AllUpper(Submit(s).pending.value)
    ensures s.phase != Over ==>
      forall e :: CanOccur(Submit(s), e) ==> e.Response? || e.Rejected?
  {
    ConcatOfUpperSlots(s.slots);
    if s.phase != Over {
      var t := Submit(s);
      forall e | CanOccur(t, e) ensures e.Response? || e.Rejected? {
      }
    }
  }

  /** Nothing makes the guess five letters long: a letter typed into the
      last slot of the loaded page submits at once, and the request carries
      that single letter. */
  lemma ShortGuessSent()
    ensures Key(Initial(), LastSlot, KeyEvent("KeyA", "a")).pending == Some("A")
  {
    var s := Initial();
    var ev := KeyEvent("KeyA", "a");
    SingleCharIncluded('a');
    assert ToUpper(ev.key) == "A";
    KeyDownEffect(s, LastSlot, ev);
    var typed := s.(slots := s.slots[LastSlot := "A"]);
    assert Key(s, LastSlot, ev) == Submit(typed);
    SubmitSendsSlots(typed);
    ConcatOfEmptySlots(typed.slots[..LastSlot]);
    assert Concat(typed.slots) == Concat(typed.slots[..LastSlot]) + "A";
    assert Submit(typed).pending == Some(Concat(typed.slots));
    assert Concat(typed.slots) == "A";
  }

  // ---------------------------------------------------------------------
  // The verdict

  /** An answer whose row would lie above the table draws nothing: the game
      keeps waiting with the slots disabled. */
  lemma StaleVerdictIgnored(s: Screen, attemptsLeft: int, lettersCorrect: seq<bool>)
    requires Inv(s) && s.pending.Some? && attemptsLeft > LastRow && |lettersCorrect| == Columns
    ensures Verdict(s, attemptsLeft, lettersCorrect) == s.(pending := None)
    ensures Verdict(s, attemptsLeft, lettersCorrect).phase == Waiting
    ensures Verdict(s, attemptsLeft, lettersCorrect).disabled == Uniform(true)
  {
  }

  /** An answer in range rewrites exactly row `LastRow - attemptsLeft`:
      cell col gets the guess's letter col, classed correct exactly when
      `lettersCorrect[col]`; every other cell stays. */
  lemma VerdictWritesOneRow(s: Screen, attemptsLeft: int, lettersCorrect: seq<bool>)
    requires Inv(s) && s.pending.Some? && 0 <= attemptsLeft <= LastRow && |lettersCorrect| == Columns
    ensures |Verdict(s, attemptsLeft, lettersCorrect).grid| == CellCount
    ensures forall r, col :: 0 <= r < Rows && 0 <= col < Columns ==>
      Verdict(s, attemptsLeft, lettersCorrect).grid[Index(r, col)] ==
        if r == LastRow - attemptsLeft
        then Cell(CharAt(s.pending.value, col), if lettersCorrect[col] then Correct else Wrong)
        else s.grid[Index(r, col)]
  {
    var row := LastRow - attemptsLeft;
    var cells := RowCells(s.pending.value, lettersCorrect);
    var t := Verdict(s, attemptsLeft, lettersCorrect);
    assert t.grid == WriteRow(s.grid, row, cells);
    forall r, col | 0 <= r < Rows && 0 <= col < Columns
      ensures t.grid[Index(r, col)] ==
        if r == row
        then Cell(CharAt(s.pending.value, col), if lettersCorrect[col] then Correct else Wrong)
        else s.grid[Index(r, col)]
    {
      var k := Index(r, col);
      assert row * Columns <= k < row * Columns + Columns <==> r == row;
    }
  }

  /** An answer in range ends the game exactly when every letter is correct
      (a win, also with no attempts left) or no attempts are left (a loss);
      otherwise input is accepted again once the effect ends, and the status
      gives the attempts left. The slots stay disabled in every case, and the
      effect runs exactly when the guess was not all correct. The request is
      over, and the slot values and focus are kept. */
  lemma VerdictOutcome(s: Screen, attemptsLeft: int, lettersCorrect: seq<bool>)
    requires Inv(s) && s.pending.Some? && 0 <= attemptsLeft <= LastRow && |lettersCorrect| == Columns
    ensures Verdict(s, attemptsLeft, lettersCorrect).phase == Over <==>
      AllSet(lettersCorrect) || attemptsLeft == 0
    ensures Verdict(s, attemptsLeft, lettersCorrect).phase == Input <==>
      !AllSet(lettersCorrect) && attemptsLeft != 0
    ensures Verdict(s, attemptsLeft, lettersCorrect).status == Won <==> AllSet(lettersCorrect)
    ensures Verdict(s, attemptsLeft, lettersCorrect).status == Lost <==>
      !AllSet(lettersCorrect) && attemptsLeft == 0
    ensures Verdict(s, attemptsLeft, lettersCorrect).disabled == Uniform(true)
    ensures Verdict(s, attemptsLeft, lettersCorrect).effect <==> !AllSet(lettersCorrect)
    ensures !AllSet(lettersCorrect) && attemptsLeft != 0 ==>
      Verdict(s, attemptsLeft, lettersCorrect).status == AttemptsLeftMessage(attemptsLeft)
    ensures Verdict(s, attemptsLeft, lettersCorrect).slots == s.slots
    ensures Verdict(s, attemptsLeft, lettersCorrect).focus == s.focus
    ensures Verdict(s, attemptsLeft, lettersCorrect).pending == None
  {
    AttemptsLeftIsNotWon(attemptsLeft);
    assert Lost[4] != Won[4];
    assert AttemptsLeftMessage(attemptsLeft)[4] != Lost[4];
  }

  // ---------------------------------------------------------------------
  // Re-enabling input

  /** Disabled slots come back, with the first one focused and input
      accepted, only on a failed request (which leaves the table as it
      was) or at the end of the effect of a game that is not over. Either
      leaves the slot values, table and status as they were; the end of the
      effect in a finished game only removes the listener. */
  lemma ReenabledOnlyBy(s: Screen, e: Event)
    requires Inv(s) && CanOccur(s, e) && s.disabled == Uniform(true)
    ensures Step(s, e).disabled == Uniform(false) <==>
      e.Rejected? || (e.AnimationEnd? && s.phase != Over)
    ensures Step(s, e).disabled == Uniform(false) ==>
      Step(s, e).focus == 0 && Step(s, e).phase == Input
    ensures e.Rejected? ==> Step(s, e).grid == s.grid && Step(s, e).status == s.status
    ensures e.Rejected? ==>
      Step(s, e) == s.(pending := None, phase := Input, disabled := Uniform(false), focus := 0)
    ensures e.AnimationEnd? && s.phase != Over ==>
      Step(s, e) == s.(effect := false, disabled := Uniform(false), focus := 0)
    ensures e.AnimationEnd? && s.phase == Over ==> Step(s, e) == s.(effect := false)
  {
    UniformDiffers();
    if e.Response? && e.attemptsLeft <= LastRow {
      VerdictOutcome(s, e.attemptsLeft, e.lettersCorrect);
    }
  }

  /** A finished game is frozen: its slots are disabled and no request is in
      flight, so the only event left is the end of a running effect, which
      keeps the game over, and after it nothing can happen at all. */
  lemma {:induction false} OverIsFrozen(s: Screen, es: seq<Event>)
    requires Inv(s) && s.phase == Over && Admissible(s, es)
    ensures |es| <= 1 && (|es| == 1 ==> es[0] == AnimationEnd && s.effect)
    ensures Run(s, es).phase == Over && Run(s, es).disabled == Uniform(true)
    ensures Run(s, es).grid == s.grid && Run(s, es).status == s.status
    decreases |es|
  {
    UniformDiffers();
    if es != [] {
      var t := Step(s, es[0]);
      assert !t.effect;
      OverIsFrozen(t, es[1..]);
    }
  }

  /** The script can be left with nothing to react to only in a finished
      game whose effect has ended, or after an answer whose row lay above
      the table; every other screen accepts some event. */
  lemma DeadEnds(s: Screen)
    requires Inv(s)
    ensures (forall e :: !CanOccur(s, e)) <==>
      (s.phase == Over && !s.effect) || (s.phase == Waiting && s.pending.None?)
  {
    if s.effect {
      assert CanOccur(s, AnimationEnd);
    } else if s.pending.Some? {
      assert CanOccur(s, Rejected);
    } else if s.phase == Input {
      assert s.disabled == Uniform(false);
      assert CanOccur(s, KeyDown(0, KeyEvent("", "")));
    } else {
      UniformDiffers();
      forall e ensures !CanOccur(s, e) {
        if e.KeyDown? && e.slot < |s.disabled| {
          assert s.disabled[e.slot];
        }
      }
    }
  }
}
