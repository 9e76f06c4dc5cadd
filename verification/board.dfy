/**
 The board as the `Row` component shows it: six rows of five cells, each cell's letter
 looked up in the typed rows and coloured by `Column.BgColor`, with the cursor row marked
 as current.
 */
module Board {
  import opened Column
  import opened Game

  /** The `letter` handed to a cell: "" when its row is not stored, the typed letter when the
      stored row reaches that column, and `undefined` when a stored row is shorter. Only a row that
      is not stored hands over "", so the whiteness of `indexOf("")` reaches no stored row. */
  function CellLetter(letters: seq<Word>, rowIndex: nat, col: nat): (v: JsValue)
    ensures rowIndex >= |letters| ==> v == Str("")
    ensures rowIndex < |letters| && col < |letters[rowIndex]| ==> v == Str([letters[rowIndex][col]])
    ensures rowIndex < |letters| && col >= |letters[rowIndex]| ==> v == Undefined
    ensures v == Str("") <==> rowIndex >= |letters|
  {
    if |letters| > 0 && rowIndex < |letters| then
      if col < |letters[rowIndex]| then Str([letters[rowIndex][col]]) else Undefined
    else Str("")
  }

  /** The background colour of the cell at (`rowIndex`, `col`) in state `s`; a row has five cells. */
  function CellColour(s: State, secret: string, rowIndex: nat, col: nat): (r: Colour)
    requires col < RowWidth
    ensures rowIndex == s.row ==> r == Plain
    ensures r == Correct ==> col < |secret| && CellLetter(s.letters, rowIndex, col) == Str([secret[col]])
  {
    var letter := CellLetter(s.letters, rowIndex, col);
    var r := BgColor(letter, col, rowIndex == s.row, secret);
    assert r == Correct ==> letter == CharAt(secret, col) && col < |secret|;
    r
  }

  /** A stored letter off the cursor row is judged on its own against the secret: grey exactly when
      the secret lacks it, green exactly when the secret has it in this column, white otherwise. */
  lemma StoredLetterColour(s: State, secret: string, rowIndex: nat, col: nat)
    requires rowIndex != s.row && rowIndex < |s.letters| && col < |s.letters[rowIndex]| && col < RowWidth
    ensures
      var c := s.letters[rowIndex][col];
      && (CellColour(s, secret, rowIndex, col) == Absent <==> c !in secret)
      && (CellColour(s, secret, rowIndex, col) == Correct <==> col < |secret| && secret[col] == c)
      && (CellColour(s, secret, rowIndex, col) == Plain <==> c in secret && !(col < |secret| && secret[col] == c))
  {
    TypedLetterColour(s.letters[rowIndex][col], col, secret);
  }

  /** A row that is not stored shows only white cells. */
  lemma UnstoredRowIsPlain(s: State, secret: string, rowIndex: nat, col: nat)
    requires rowIndex >= |s.letters| && col < RowWidth
    ensures CellColour(s, secret, rowIndex, col) == Plain
  {
    EmptyCellIsPlain(col, rowIndex == s.row, secret);
  }

  /** A stored row off the cursor that is shorter than the column shows a grey cell there, for any
      secret of the usual length. */
  lemma ShortRowGapIsAbsent(s: State, secret: string, rowIndex: nat, col: nat)
    requires rowIndex != s.row && rowIndex < |s.letters| && |s.letters[rowIndex]| <= col < RowWidth
    requires |secret| == RowWidth
    ensures CellColour(s, secret, rowIndex, col) == Absent
  {
    UndefinedCellIsAbsent(col, secret);
  }

  /** Once the game is won, the row just submitted is green in all five columns. */
  lemma WinningRowIsGreen(s: State, secret: string, col: nat)
    requires Consistent(s, secret) && s.isWin && col < RowWidth
    ensures CellColour(s, secret, s.row - 1, col) == Correct
  {
    var w := s.letters[s.row - 1];
    assert |w| == RowWidth;
    TypedLetterColour(w[col], col, secret);
  }
}
