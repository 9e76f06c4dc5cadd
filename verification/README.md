# Worddd game logic in Dafny

Worddd is a browser word-guessing game. The player types five-letter guesses on a
six-row board, and each guess is checked against a secret word. This project models
the game logic of `src/App.js` with React left out. It has two parts.

- **The key-event state machine** (`handleKeyboardTyped`, `handleReplay`). The state is the
  cursor row, the typed rows, and the `isDone` and `isWin` flags. A key is a letter,
  `delete` or `enter`. `Game.Step` is a pure transition that returns the next state and
  whether the "can't find that word" alert was shown. The secret word and the word list
  are parameters.
- **The cell colouring rule** (`Column.getBgColor` and the letter lookup in `Row`). Each
  cell is grey (`Absent`), green (`Correct`) or white (`Plain`). Every cell is judged on its
  own. There is no "present elsewhere" colour and no duplicate-letter bookkeeping.

The asymmetries of the code are kept as written:

- A letter key tests the row at the cursor, but a new row is appended at the end of the list.
- Delete always edits the last stored row, not the cursor row. It then filters out empty rows.
- The dictionary test is exact membership in the list.

In every reachable state the cursor is on the last stored row or past the end of the list
(`Game.Valid`). A valid submit moves the cursor one row past the end. Delete then removes
letters from the row just submitted (`Game.DeleteReachesSubmittedRow`), even though the
comment at src/App.js:145 says "current row". Deleting whole submitted rows this way leaves
the cursor two or more rows past the end. From there letters append one-letter rows until
the list reaches the cursor row, and then extend that row, so a typed word is split across
rows (`Game.TypingPastTheEndSplitsRows`).

The cell lookup keeps JavaScript's values. A row that is not stored gives `""`, and
`indexOf("")` is 0, so its cells are white. A stored row that is shorter than the column
gives `undefined`. `indexOf` searches for the text "undefined" in that case, so such a cell
off the cursor row is grey unless the secret contains that text, which no secret shorter
than nine letters does. `JsString.IndexOf` models `indexOf` as a first-occurrence
substring search.

Modules, one per file: `JsString` (js_string.dfy), `Column` (column.dfy), `Game`
(game.dfy), `Board` (board.dfy).

src/App.js scores each cell on its own. It has no "present elsewhere" colour, no
duplicate-letter bookkeeping and no per-letter keyboard feedback, and the model adds none.

## Model

| member | source | states |
|---|---|---|
| JsString.IndexOfFrom | src/App.js:11 | The result is -1 exactly when the needle occurs at no position at or after the start. Otherwise it is the first such position, and the needle does occur there. |
| JsString.IndexOf | src/App.js:11 | `indexOf` is -1 exactly when the needle does not occur in the string. Otherwise it is the first position where the needle occurs. |
| JsString.OccursChar | src/App.js:11 | A one-character needle occurs exactly when that character is in the string. |
| JsString.EmptyNeedleFoundFirst | src/App.js:11 | `indexOf("")` is 0 for every string, so an empty letter never counts as missing from the secret. |
| Column.CharAt | src/App.js:8 | `secret[index]` is a string exactly when the index is inside the secret. Any string it yields occurs in the secret, so a letter equal to the secret's character at its column is never grey. |
| Column.BgColor | src/App.js:7-15 | A cell on the cursor row is always white. Off the cursor row a cell is grey exactly when its letter's search text (the letter itself, or the text "undefined" for `undefined`, as `Column.SearchText` gives it) does not occur in the secret. It is green exactly when the text occurs and the letter equals the secret's character at its column. Green and grey never coincide. |
| Column.TypedLetterColour | src/App.js:10-14 | Off the cursor row, a typed letter is grey exactly when the secret lacks it. It is green exactly when the secret has it at this column. It is white exactly when it occurs only elsewhere in the secret. |
| Column.EmptyCellIsPlain | src/App.js:10-14 | An empty cell is white on every row. |
| Column.UndefinedCellIsAbsent | src/App.js:11 | An `undefined` letter off the cursor row is grey whenever the secret is shorter than the text "undefined". |
| Game.SecretOf | src/App.js:104 | The secret exists exactly when the word list is non-empty, and it is always a listed word. |
| Game.Replay | src/App.js:197-206 | The reset state is at row 0, holds no letters, is neither done nor won, and satisfies the game invariant. |
| Game.CursorRowHasRoom | src/App.js:111 | The letter guard passes exactly when the cursor row is missing or holds fewer than five letters. The separate test for an empty row adds nothing. |
| Game.CursorWord | src/App.js:169 | In a valid state the word enter examines is either empty or the last stored row, with the cursor on that row. No earlier row is ever judged again. |
| Game.TypeLetter | src/App.js:110-141 | A full cursor row changes nothing. If the cursor row holds letters, the letter extends that row by one and leaves every other row unchanged. Otherwise a one-letter row is appended at the end of the list, after all existing rows. The cursor and flags never change. |
| Game.TypeLetterKeepsRowsWellFormed | src/App.js:110-141 | A letter never makes a stored row empty or longer than five letters. |
| Game.TrimLast | src/App.js:147-155 | Only the last row changes. A non-empty last row loses its last letter, and an empty last row stays empty. The number of rows stays the same. |
| Game.Compact | src/App.js:158 | The result has no empty rows and is no longer than the input. A list without empty rows is returned unchanged. |
| Game.CompactKeepsNonEmptyRows | src/App.js:158 | A row is in the filtered list exactly when it is in the input and is non-empty. |
| Game.CompactAfterTrim | src/App.js:146-159 | With no empty rows, trimming and filtering shortens the last row by one letter. A row left empty is removed, and earlier rows are untouched. |
| Game.DeleteLetter | src/App.js:144-159 | An empty list is left unchanged. When no row is empty, the last stored row loses its last letter and is removed if it becomes empty. Earlier rows, the cursor and the flags are untouched. |
| Game.DeleteKeepsRowsWellFormed | src/App.js:144-159 | Delete keeps every stored row between one and five letters. |
| Game.Submit | src/App.js:168-193 | Enter on a missing row or one with fewer than five letters changes nothing. A five-letter word not in the list changes nothing but shows the alert. A listed word moves the cursor down one row and leaves the letters alone. It sets done exactly when the word is the secret or the row was the last one, and it sets won exactly when the word is the secret. |
| Game.Step | src/App.js:108-195 | Once the game is done, every key leaves the whole state unchanged and shows no alert. The alert only comes from enter, with the state unchanged. Only enter moves the cursor, and only by one row. |
| Game.StepKeepsConsistent | src/App.js:108-195 | Every key preserves the game invariant. Stored rows hold one to five letters, and they all fit on the six-row board. The cursor is on the last stored row or past the end of the list. A win implies done and shows the five-letter secret on the row just submitted. A loss happens only after the sixth row. |
| Game.RunKeepsConsistent | src/App.js:108-195 | Any sequence of keys preserves the game invariant. |
| Game.PlayFromReplay | src/App.js:96-102 | Every state reached by keys from the initial or reset state satisfies the game invariant. |
| Game.DoneIsFinal | src/App.js:109 | A finished game is unchanged by any sequence of keys. |
| Game.DeleteUndoesLetter | src/App.js:120-159 | In a valid, unfinished game, delete undoes a letter that was accepted and restores the exact previous state. |
| Game.RetypeUndoesDelete | src/App.js:120-159 | When the cursor is on the last stored row, retyping the deleted letter restores the exact previous state. |
| Game.TypingFillsNewRow | src/App.js:120-140 | When the cursor is on the row just past the last stored one, typing a word of one to five letters stores exactly that word as a new last row. Nothing else changes. |
| Game.TypingSecretWins | src/App.js:168-190 | With the cursor on the row just past the last stored one, typing the five-letter secret and pressing enter stores it as a new row, moves the cursor down one row, and ends the game as a win. The secret is the first listed word (src/App.js:104), so the dictionary test never blocks it. |
| Game.TypingPastTheEndSplitsRows | src/App.js:111-138 | When the cursor is two or more rows past the last stored one, each of two letters appends a one-letter row of its own, so the typed word is split across rows. |
| Game.FiveLettersThenDelete | src/App.js:120-159 | When the cursor is on the row just past the last stored one, five letters and then a delete leave the new row holding the first four letters. |
| Game.DeleteReachesSubmittedRow | src/App.js:144-159 | After a valid submit that does not end the game, the cursor row is missing. A delete then shortens the row just submitted. |
| Board.CellLetter | src/App.js:50 | A cell receives "" exactly when its row is not stored, so the whiteness of `indexOf("")` never reaches a stored row. A stored row hands over its letter at the column, or `undefined` when it is shorter. |
| Board.CellColour | src/App.js:50 | Cells on the cursor row are white. A green cell shows exactly the secret's letter at its column. |
| Board.StoredLetterColour | src/App.js:50 | A stored letter off the cursor row is grey exactly when the secret lacks it. It is green exactly when the secret has it in that column, and white otherwise. |
| Board.UnstoredRowIsPlain | src/App.js:50 | A row that is not stored shows only white cells. |
| Board.ShortRowGapIsAbsent | src/App.js:50 | Off the cursor row, a stored row shorter than a column shows a grey cell there, for a five-letter secret. |
| Board.WinningRowIsGreen | src/App.js:188-190 | After a win, all five cells of the row just submitted are green. |

## Left out

- Rendering: JSX, Tailwind class strings, text and border colours, animations and the win/lose messages are presentation only. Each colour class is represented by one of three outcomes.
- The column counter (`currentColumn`) is left out. `Row` receives it but never reads it.
- React's state scheduling and the post-increments inside object literals (`column: current.column++`, `row: current.row++`) are not modelled as written. Their effect depends on how React calls updaters and on in-place mutation. The model uses the intended effect: a valid submit moves the cursor down one row.
- `alert` is a side effect. It is reported as a boolean in `Game.Reaction`, and the state is unchanged.
- `Math.random` is left out. Its index is computed but never used; the secret is the first listed word.
- The contents of `./words` are not part of this model. The word list is a parameter.
- Key codes are single characters, as the on-screen keyboard sends them. So a row's joined text has one character per stored code. Any other code that is not `enter` or `delete` would count as a letter in the code; it is not modelled.
- Game.Compact: does not state that the kept rows stay in their input order for every list. Order is stated only where the game needs it: a list without empty rows is unchanged, and Game.CompactAfterTrim fixes the result when only the last row can be empty.
- Game.DeleteLetter: states the effect on rows only when no stored row is empty. Every reachable state satisfies that (Game.Valid). With an empty row elsewhere, the code's filter would remove that row too.
- Board.CellColour: requires a column below five, as the board draws five cells per row. For wider columns and very long secrets, an `undefined` letter could equal an `undefined` secret character.
- An empty word list is not modelled. There `WORD_LIST[0]` is `undefined`, and `secretWord[index]` (src/App.js:8) throws on the first render. `Game.SecretOf` reports `NoSecret`, but `Game.Step`, `Column.BgColor` and `Board.CellColour` take the secret as a string, so the crash has no counterpart.
- String indexing is by character. JavaScript indexes strings by UTF-16 code units (`secretWord[index]` at src/App.js:8, `indexOf` at :11, `.length` at :172), and a Dafny `string` is indexed by Unicode scalar values. The two agree for words made of characters in the Basic Multilingual Plane, which covers every key of the on-screen keyboard. For other characters the column positions and lengths differ.
- tailwind.config.js is build configuration with no logic.
