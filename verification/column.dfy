/**
 The background colour of one board cell (`Column.getBgColor` in src/App.js).
 Each cell is judged on its own: grey when its letter does not occur in the secret,
 green when it equals the secret's letter at the same column, white otherwise.
 The cursor row is always white. There is no "present elsewhere" colour and no
 duplicate-letter bookkeeping.
 */
module Column {
  import opened JsString

  /** The three background outcomes: `bg-neutral-500`, `bg-green-600` and `bg-white`. */
  datatype Colour = Absent | Correct | Plain

  /** A JavaScript value that reaches the cell as its `letter` or as `secretWord[index]`:
      a string, or `undefined`. */
  datatype JsValue = Str(text: string) | Undefined

  /** The string `indexOf` searches for when handed this value: `undefined` is converted to "undefined". */
  function SearchText(v: JsValue): (t: string)
    ensures v.Str? ==> t == v.text
    ensures v.Undefined? ==> t == "undefined" && |t| == 9
  {
    match v
    case Str(t) => t
    case Undefined => "undefined"
  }

  /** `secretWord[index]`: a one-character string inside the word, `undefined` past its end.
      A string it yields always occurs in the secret, so a letter equal to it is never grey. */
  function CharAt(secret: string, index: nat): (v: JsValue)
    ensures v.Str? <==> index < |secret|
    ensures v.Str? ==> |v.text| == 1 && v.text[0] == secret[index]
    ensures v.Str? ==> Occurs(secret, v.text)
  {
    if index < |secret| then
      assert OccursAt(secret, [secret[index]], index);
      Str([secret[index]])
    else Undefined
  }

  /** `getBgColor`, with the cell's letter, column index, whether it sits on the cursor row, and the secret. */
  function BgColor(letter: JsValue, index: nat, isCurrentRow: bool, secret: string): (r: Colour)
    ensures isCurrentRow ==> r == Plain
    ensures !isCurrentRow ==> (r == Absent <==> !Occurs(secret, SearchText(letter)))
    ensures r == Correct <==> !isCurrentRow && Occurs(secret, SearchText(letter)) && letter == CharAt(secret, index)
  {
    var correctLetter := CharAt(secret, index);
    if !isCurrentRow && IndexOf(secret, SearchText(letter)) == -1 then Absent
    else if !isCurrentRow && letter == correctLetter then Correct
    else Plain
  }

  /** A typed letter off the cursor row: grey exactly when it is not in the secret, green exactly
      when it is the secret's letter at this column, and white when it occurs only elsewhere. */
  lemma TypedLetterColour(c: char, index: nat, secret: string)
    ensures BgColor(Str([c]), index, false, secret) == Absent <==> c !in secret
    ensures BgColor(Str([c]), index, false, secret) == Correct <==> index < |secret| && secret[index] == c
    ensures BgColor(Str([c]), index, false, secret) == Plain <==>
              c in secret && !(index < |secret| && secret[index] == c)
  {
    OccursChar(secret, c);
  }

  /** An empty cell is white on every row: `indexOf("")` is 0, and "" equals no character. */
  lemma EmptyCellIsPlain(index: nat, isCurrentRow: bool, secret: string)
    ensures BgColor(Str(""), index, isCurrentRow, secret) == Plain
  {
    EmptyNeedleFoundFirst(secret);
  }

  /** An `undefined` letter off the cursor row is grey whenever the secret is too short to contain
      the text "undefined" (every five-letter word is). */
  lemma UndefinedCellIsAbsent(index: nat, secret: string)
    requires |secret| < |"undefined"|
    ensures BgColor(Undefined, index, false, secret) == Absent
  {
  }
}
