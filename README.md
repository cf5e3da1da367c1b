# cheesle: the guessing page, modelled in Dafny

cheesle is a five-letter word-guessing game played in the browser. The page
has five single-character text inputs (the letter slots), a five-by-five
result table and a status line. Two variants of the page script exist:

- `assets/index.js`. The guess is sent to a server. While the page waits
  for the answer, the slots are disabled. The server answers with the
  number of attempts left and one correctness flag per column. The page
  draws that row, then shows a win, a loss or the number of attempts left.
  A wrong guess also starts a "cheese" penalty animation that keeps the
  slots disabled until it ends.
- `src/index.js`. The page compares the guess with the fixed word `CHEEZ`
  itself. It counts down five attempts and sets a flag when the game ends.

Both variants install the same keydown handler (`mergeLetterInputFields`),
which makes the five slots behave as one text field:

- Backspace clears the slot and moves focus back.
- A key found in the letter string is stored upper-cased, and focus moves on.
- On the last slot, an accepted key submits the guess.

The project has six modules:

- `Letters` (`letters.dfy`). The key handler's decision: the JavaScript
  substring test `includes`, `toUpperCase` on ASCII letters, and the loop
  that reads the guess out of the slots and empties them.
- `Grid` (`grid.dfy`). The table as a sequence of 25 cells, stored row by
  row. Also the cells of a row and the status texts.
- `Server` (`server.dfy`). The server variant as values. A `Screen` holds
  everything the script reads or writes. The asynchronous `makeAGuess` is
  split into four steps:
  - `Submit`: the synchronous part.
  - `Verdict`: the success continuation.
  - `Failure`: the rejection continuation.
  - `EffectEnd`: the `animationend` listener.

  `Step`/`Run` apply any admissible sequence of events. An invariant `Inv`
  holds of every reachable screen. The properties are lemmas about these
  functions.
- `ServerPage` (`server_page.dfy`). The same script as a class. The slots,
  their disabled flags and the table cells are arrays, updated by the
  script's own loops. Each callback is a method proved to produce
  `Server.<step>(old(View()))`.
- `Local` (`local.dfy`). The local variant as values: one submission, a
  whole game (`Play`), and the lemmas about them.
- `LocalPage` (`local_page.dfy`). The local variant as a class, with
  methods proved against `Local`.

## Model

| member | source | states |
|---|---|---|
| `Letters.IncludesIffOccurs` | assets/index.js:136-138 | the left-to-right scan for the key succeeds exactly when the key occurs as a substring of the letter string at some index |
| `Letters.ValidLettersAreLetters` | assets/index.js:121 | a character is in the letter string exactly when it is an ASCII letter, lower- or upper-case |
| `Letters.SingleCharIncluded` | assets/index.js:121-138 | a one-character key passes the `includes` test exactly when it is an ASCII letter |
| `Letters.IncludedKeyIsLetters` | assets/index.js:136-140 | every character of a key that passes the test is an ASCII letter; this covers the empty key and multi-letter runs, which also pass |
| `Letters.ToUpper` | assets/index.js:140 | the result has the key's length, with each character upper-cased |
| `Letters.Classify` | assets/index.js:126-140 | an accepted key is stored with its own length and only upper-case letters, so a slot only ever holds upper-case letters |
| `Letters.SingleKeyClassified` | assets/index.js:126-141 | for a one-character key other than Backspace: a letter is accepted as its upper-case form (an upper-case letter unchanged), and anything else is ignored, in both directions |
| `Letters.ConcatOfFilledSlots` | assets/index.js:52-57 | five one-letter slots make a five-letter guess whose letter k is slot k's |
| `Letters.ConcatOfUpperSlots` | assets/index.js:52-57 | slots holding upper-case letters make an upper-case guess |
| `Letters.ConcatOfEmptySlots` | assets/index.js:52-57 | empty slots make the empty guess |
| `Letters.TakeGuess` | assets/index.js:52-57 | the loop returns the slot values concatenated in slot order and leaves every slot empty |
| `Grid.RowCells` | assets/index.js:87-97 | cell col gets letter col of the guess (empty past its end) and is classed `correct` exactly when flag col is set, `wrong` exactly when it is not |
| `Grid.WriteRow` | assets/index.js:87-89 | the cells of the given row are replaced in order, and every other cell keeps its content |
| `Grid.AttemptsLeftIsNotWon` | assets/index.js:99-107 | the "attempts left" message is never the win message |
| `Server.Initial` | assets/index.js:7-24 | the loaded page satisfies the invariant, accepts input and has every slot enabled |
| `Server.Submit` | assets/index.js:51-65 | submission keeps the invariant |
| `Server.Key` | assets/index.js:119-157 | a keydown keeps the invariant |
| `Server.Verdict` | assets/index.js:73-112 | an answer keeps the invariant |
| `Server.Failure` | assets/index.js:113-116 | a failed request keeps the invariant |
| `Server.EffectEnd` | assets/index.js:42-48 | the end of the effect keeps the invariant |
| `Server.Step` | assets/index.js:42-157 | every event that can reach the script keeps the invariant |
| `Server.Run` | assets/index.js:42-157 | every admissible sequence of events keeps the invariant: the slots are switched together; they are enabled exactly when input is accepted and no effect runs; at most one request is in flight, only while waiting, and its word is upper-case |
| `Server.KeyDownEffect` | assets/index.js:126-157 | Backspace empties the slot and focuses the previous one (except from slot 0); a key outside the letter string changes nothing; an accepted key is stored upper-cased and focus moves to the next slot, or slot 4 submits |
| `Server.KeyOnlyWhenIdle` | assets/index.js:12-24 | a key can reach the script only when input is accepted, no request is in flight and no effect runs |
| `Server.SubmitSendsSlots` | assets/index.js:51-73 | submission empties every slot; in a finished game only slot 0 is focused and nothing else changes; otherwise the whole new screen is given: the request carries the slots in order as an upper-case word, the game waits with every slot disabled, focus, table, status and effect are kept, and only the answer or the failure can follow |
| `Server.ShortGuessSent` | assets/index.js:51-73 | a letter typed into the last slot of the loaded page submits the one-letter guess "A": nothing makes the guess five letters long |
| `Server.StaleVerdictIgnored` | assets/index.js:74-78 | an answer whose row is above the table (more than 4 attempts left) only ends the request: the game keeps waiting with the slots disabled |
| `Server.VerdictWritesOneRow` | assets/index.js:74-97 | an answer in range rewrites exactly row `4 - attemptsLeft`: cell col gets letter col of the guess, classed `correct` exactly when `lettersCorrect[col]`; every other cell is unchanged |
| `Server.VerdictOutcome` | assets/index.js:99-112 | the game is over exactly when every letter is correct or no attempts are left. It is won exactly when every letter is correct, and lost exactly when not all are correct and none are left. Otherwise it goes on, and the status reads "You have n attempts left". The slots stay disabled, and the effect runs exactly when the guess was not all correct. The request is over, and the slot values and focus are kept |
| `Server.ReenabledOnlyBy` | assets/index.js:42-48 | disabled slots are enabled again exactly by a failed request or by the end of the effect in a game that is not over; after that, input is accepted with slot 0 focused. The whole new screen is given: a failure and the effect's end change nothing else (slot values, table, status stay), and the effect's end in a finished game only removes the listener |
| `Server.OverIsFrozen` | assets/index.js:26-65 | once the game is over, at most one more event can happen (the end of a running effect); the game stays over, disabled, with its table and status |
| `Server.DeadEnds` | assets/index.js:26-117 | no event can reach the script exactly in a finished game whose effect has ended, or after a stale answer left the game waiting with no request in flight |
| `ServerPage.Page.constructor` | assets/index.js:160-163 | the new page is `Server.Initial()` |
| `ServerPage.Page.DisableInputs` | assets/index.js:12-16 | every slot is disabled |
| `ServerPage.Page.EnableInputs` | assets/index.js:18-24 | every slot is enabled and slot 0 focused |
| `ServerPage.Page.Cheese` | assets/index.js:26-49 | every slot is disabled and the animationend listener is pending |
| `ServerPage.Page.Submit` | assets/index.js:51-65 | the page afterwards is `Server.Submit` of the page before |
| `ServerPage.Page.DrawRow` | assets/index.js:85-97 | the table afterwards is the old one with the row written by `Grid.RowCells`, and the result is true exactly when every flag is set |
| `ServerPage.Page.OnVerdict` | assets/index.js:73-112 | the page afterwards is `Server.Verdict` of the page before |
| `ServerPage.Page.OnFailure` | assets/index.js:113-116 | the page afterwards is `Server.Failure` of the page before |
| `ServerPage.Page.OnEffectEnd` | assets/index.js:42-48 | the page afterwards is `Server.EffectEnd` of the page before |
| `ServerPage.Page.OnKey` | assets/index.js:123-157 | the page afterwards is `Server.Key` of the page before |
| `Local.Initial` | src/index.js:3-7 | the loaded game satisfies the invariant, is not over and has five attempts |
| `Local.Matches` | src/index.js:25-29 | flag col is set exactly when the guess has a letter col and it equals letter col of `CHEEZ` |
| `Local.OutputGuess` | src/index.js:9-31 | the table keeps its size |
| `Local.SubmitGuess` | src/index.js:41-63 | a submission keeps the invariant: attempts stay in 0..5, and the game is over once they reach 0 |
| `Local.Submit` | src/index.js:33-63 | `makeAGuess` keeps the invariant |
| `Local.Key` | src/index.js:65-103 | a keydown keeps the invariant |
| `Local.Play` | src/index.js:33-63 | any sequence of submissions keeps the invariant |
| `Local.KeyDownEffect` | src/index.js:72-103 | Backspace empties the slot and focuses the previous one (except from slot 0); a key outside the letter string changes nothing; an accepted key is stored upper-cased and focus moves on, or slot 4 submits |
| `Local.KeyKeepsOver` | src/index.js:43-46 | no key clears the `over` flag or changes the table, counter or status of a finished game |
| `Local.SubmitWhenOver` | src/index.js:33-46 | submission empties every slot; in a finished game nothing else changes except that slot 0 is focused |
| `Local.SubmitGuessCell` | src/index.js:9-49 | in a running game a guess writes `Judge(guess)` into row `5 - attemptsLeft` and leaves every other cell unchanged; the counter drops by one |
| `Local.SubmitGuessRecordsRow` | src/index.js:9-49 | the row `5 - attemptsLeft` of a running game lies inside the table (so the `row < 0` guard never fires); the guess is drawn there and only there; the counter drops by exactly one; slot 0 is focused and the slot values are kept |
| `Local.SubmitGuessOutcome` | src/index.js:49-59 | a guess in a running game wins exactly when it equals the word, also on the last attempt. The game ends exactly on a win or the last attempt. The loss message appears exactly when a wrong guess used the last attempt, and a game that goes on shows the attempts left |
| `Local.AllCorrectIffWord` | src/index.js:25-29 | for a five-letter guess every cell is correct exactly when the guess is the word, so the row agrees with the win test |
| `Local.PlayCounts` | src/index.js:43-59 | the counter never rises, and drops by at most one per guess. A finished game stays finished with its counter. While the game runs, every guess uses one attempt |
| `Local.PlayCell` | src/index.js:9-49 | after any guesses, a cell holds the guess recorded in its row if one was, and what it held before otherwise |
| `Local.PlayAppendsRows` | src/index.js:9-49 | the table is append-only: the new rows follow on from row `5 - attemptsLeft` in guess order, one per recorded guess, and every other row is unchanged |
| `Local.MissesUseUpAttempts` | src/index.js:49-59 | wrong guesses each use one attempt, and the game ends, with the loss message, exactly when the last one is used |
| `Local.FiveMissesLose` | src/index.js:43-59 | five wrong guesses from the start lose with no attempts left, and a sixth guess changes no cell |
| `Local.PlayThenOne` | src/index.js:33-63 | one more guess is one more submission |
| `Local.CraneThenCheez` | src/index.js:9-59 | "CRANE" then "CHEEZ" gives a first row with only its C correct and a second row all correct, and wins with three attempts left |
| `LocalPage.Page.constructor` | src/index.js:3-7 | the new page is `Local.Initial()` |
| `LocalPage.Page.OutputGuess` | src/index.js:9-31 | the table afterwards is `Local.OutputGuess` of the table before |
| `LocalPage.Page.MakeAGuess` | src/index.js:33-63 | the page afterwards is `Local.Submit` of the page before |
| `LocalPage.Page.OnKey` | src/index.js:69-103 | the page afterwards is `Local.Key` of the page before |

## Left out

- The DOM is not modelled. Element lookups, `preventDefault`, the
  `getElementsByClassName` collection and browser focus are replaced by
  arrays and a `focus` field. `focus()` on a disabled input is recorded like
  any other.
- The network is not modelled. The request body, `fetch` and `resp.json()`
  are replaced: a parsed answer becomes `Server.Verdict`, and a rejected
  promise becomes `Server.Failure`.
- `.catch` also runs when the success continuation throws, for example on
  an answer without `lettersCorrect`. Such answers are not modelled: an
  answer always carries a count and five flags.
- `Server.Verdict` requires `0 <= attemptsLeft`. A negative count would put
  the row below the table, which the script does not guard against. The
  model takes the answer's contract to give a non-negative `attemptsLeft`;
  the server's code is not part of this model.
- The server's own check of the word, and the session id, run on the server
  and are not part of this model.
- The eerie text and the CSS class of the cheese effect are not modelled;
  they affect only the display. The effect is modelled as "slots disabled
  and one `animationend` listener pending". The count passed to `cheese` is
  used only for that text.
- Listener registration is not modelled. Its loop over slots 0..3 and slot
  4 is replaced by the slot index `i` passed to `OnKey`.
- `init` in `src/index.js` is never called there, so that page as written
  installs no handler at all. `LocalPage` models the handler as if it were
  installed, the same as in the server variant.
- `toUpperCase` is modelled only on ASCII. Only keys found in the ASCII
  letter string reach it.
- The loaded page comes from HTML, which is not part of this model. Its
  table cells are taken to be blank, its slots empty and enabled, and slot
  0 focused. In `src/index.js` the only load-time focus of slot 0 is in
  `init`, which is never called there, so `Local.Initial` and the
  `LocalPage` constructor take the focus as given.
- A guess is not guaranteed to have five letters: the slots before the
  last may be empty, or (through the substring test) hold no letter or
  several, and submission sends whatever they join to.
  `Server.ShortGuessSent` shows a one-letter request. Five-letter facts
  such as `Letters.ConcatOfFilledSlots` and `Local.AllCorrectIffWord` hold
  only under their stated requirement.
- Keys may arrive on any slot, because the player can focus a slot with
  the mouse. In the server variant they may arrive only on an enabled
  slot, because the browser delivers no keydown to a disabled input.
- Local.OutputGuess: its own contract states only the size of the table.
  What it writes is stated cell by cell by `Local.SubmitGuessCell` and
  `Local.SubmitGuessRecordsRow`.
- Server.Submit: its own contract states only that the invariant is kept. Server.SubmitSendsSlots gives its whole new screen in both cases.
- Server.Key: its own contract states only that the invariant is kept. Server.KeyDownEffect gives its whole new screen for each branch of the handler.
- Server.Verdict: its own contract states only that the invariant is kept. Server.StaleVerdictIgnored gives its whole new screen for a stale answer; for an answer in range, Server.VerdictWritesOneRow gives the table and Server.VerdictOutcome every other part of the screen.
- Server.Failure: its own contract states only that the invariant is kept. Server.ReenabledOnlyBy gives its whole new screen.
- Server.EffectEnd: its own contract states only that the invariant is kept. Server.ReenabledOnlyBy gives its whole new screen in both cases.
- Local.SubmitGuess: its own contract states only that the invariant is kept. For a running game Local.SubmitGuessRecordsRow gives the table, counter, focus and slots, and Local.SubmitGuessOutcome the flag and status; a finished game is covered through Local.SubmitWhenOver.
- Local.Submit: its own contract states only that the invariant is kept. Local.SubmitWhenOver gives the slots and the finished-game case; the rest is Local.SubmitGuess applied to the emptied slots.
- Local.Key: its own contract states only that the invariant is kept. Local.KeyDownEffect gives its whole new game for each branch of the handler, and Local.KeyKeepsOver what a finished game keeps.
- Local.Play: its own contract states only that the invariant is kept. Local.PlayCounts, Local.PlayAppendsRows and Local.MissesUseUpAttempts state the counter, the table and the loss; the status and focus after a whole game are stated only through Local.SubmitGuessOutcome for its last guess.
