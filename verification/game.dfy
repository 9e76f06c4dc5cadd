/**
 The key-event state machine of the game (`handleKeyboardTyped` and `handleReplay` in
 src/App.js), as one pure transition function over an immutable state.

 The state is the cursor row, the typed rows (each a list of letters), and the `isDone`
 and `isWin` flags. A key is a letter, `delete` or `enter`. The secret word and the word
 list are parameters. The asymmetries of the source are kept as written: a letter is
 checked against the row at the cursor, but a new row is appended at the end of the list;
 delete always edits the last stored row, whichever row the cursor is on.
 */
module Game {

  /** Letters in a full row (the `< 5` tests of src/App.js). */
  const RowWidth: nat := 5

  /** Index of the sixth and last row; a valid submit there ends the game. */
  const LastRow: nat := 5

  type Word = seq<char>

  /** A key event from the on-screen keyboard: a letter code, `delete` or `enter`. */
  datatype Key = Letter(c: char) | Delete | Enter

  datatype State = State(row: nat, letters: seq<Word>, isDone: bool, isWin: bool)

  /** The state after a key, and whether the "can't find that word" alert was shown. */
  datatype Reaction = Reaction(next: State, alert: bool)

  /** `WORD_LIST[0]`, the word the game is played against; there is none in an empty list. */
  datatype Secret = NoSecret | SecretWord(word: string)

  function SecretOf(words: seq<string>): (r: Secret)
    ensures r.SecretWord? <==> |words| > 0
    ensures r.SecretWord? ==> r.word in words
  {
    if |words| == 0 then NoSecret else SecretWord(words[0])
  }

  /** Every stored row holds between one and five letters. */
  predicate RowsWellFormed(rows: seq<Word>) {
    forall i | 0 <= i < |rows| :: 0 < |rows[i]| <= RowWidth
  }

  predicate AllNonEmpty(rows: seq<Word>) {
    forall i | 0 <= i < |rows| :: |rows[i]| > 0
  }

  /** What every state reachable from `Replay()` satisfies, independent of the secret. */
  predicate Valid(s: State) {
    && RowsWellFormed(s.letters)
    && |s.letters| <= s.row + 1
    && (s.isDone ==> |s.letters| <= s.row)
    && (s.isWin ==> s.isDone)
    && (if s.isDone then s.row <= LastRow + 1 else s.row <= LastRow)
  }

  /** Valid, and the flags agree with the rows: a win shows the secret on the row just
      submitted; a loss happens only after the sixth row. */
  predicate Consistent(s: State, secret: string) {
    && Valid(s)
    && (s.isWin ==> 0 < s.row <= |s.letters| && s.letters[s.row - 1] == secret && |secret| == RowWidth)
    && (s.isDone && !s.isWin ==> s.row == LastRow + 1)
  }

  /** `handleReplay`: back to row 0, no letters, not done, not won. */
  function Replay(): (r: State)
    ensures Valid(r) && !r.isDone && !r.isWin
    ensures r.row == 0 && r.letters == []
  {
    State(0, [], false, false)
  }

  /** The letter guard: the cursor row is missing, or holds fewer than five letters (or none).
      The "or none" test adds nothing: an empty row already has fewer than five letters. */
  predicate CursorRowHasRoom(s: State)
    ensures CursorRowHasRoom(s) <==> s.row >= |s.letters| || |s.letters[s.row]| < RowWidth
  {
    s.row >= |s.letters| || |s.letters[s.row]| < RowWidth || |s.letters[s.row]| == 0
  }

  /** The cursor row as stored, or no letters when it is missing (`?.join('') ?? ''`). In a valid
      state enter therefore examines the last stored row or nothing. */
  function CursorWord(s: State): (w: Word)
    ensures s.row < |s.letters| ==> w == s.letters[s.row]
    ensures s.row >= |s.letters| ==> w == []
    ensures Valid(s) ==> w == [] || (s.row == |s.letters| - 1 && w == s.letters[|s.letters| - 1])
  {
    if s.row < |s.letters| then s.letters[s.row] else []
  }

  /** A letter key: extends the cursor row when it holds letters, otherwise appends a
      one-letter row at the end of the list; ignored when the cursor row is full. */
  function TypeLetter(s: State, c: char): (r: State)
    ensures r.row == s.row && r.isDone == s.isDone && r.isWin == s.isWin
    ensures !CursorRowHasRoom(s) ==> r == s
    ensures CursorRowHasRoom(s) && s.row < |s.letters| && |s.letters[s.row]| > 0 ==>
              && |r.letters| == |s.letters|
              && r.letters[s.row] == s.letters[s.row] + [c]
              && forall i | 0 <= i < |s.letters| && i != s.row :: r.letters[i] == s.letters[i]
    ensures CursorRowHasRoom(s) && !(s.row < |s.letters| && |s.letters[s.row]| > 0) ==>
              && |r.letters| == |s.letters| + 1
              && r.letters[..|s.letters|] == s.letters
              && r.letters[|s.letters|] == [c]
  {
    if !CursorRowHasRoom(s) then s
    else if |s.letters| > 0 && s.row < |s.letters| && |s.letters[s.row]| > 0 then
      s.(letters := s.letters[s.row := s.letters[s.row] + [c]])
    else
      s.(letters := s.letters + [[c]])
  }

  /** A letter never makes a stored row empty or longer than five letters. */
  lemma TypeLetterKeepsRowsWellFormed(s: State, c: char)
    requires RowsWellFormed(s.letters)
    ensures RowsWellFormed(TypeLetter(s, c).letters)
  {
    var r := TypeLetter(s, c).letters;
    forall i | 0 <= i < |r| ensures 0 < |r[i]| <= RowWidth {
      if i < |s.letters| && i != s.row { assert r[i] == s.letters[i]; }
    }
  }

  /** The last row with its last letter sliced off (`slice(0, length - 1)`); earlier rows as they are. */
  function TrimLast(rows: seq<Word>): (r: seq<Word>)
    ensures |r| == |rows|
    ensures |rows| > 0 ==> r[..|rows| - 1] == rows[..|rows| - 1]
    ensures |rows| > 0 && |rows[|rows| - 1]| > 0 ==> r[|rows| - 1] == rows[|rows| - 1][..|rows[|rows| - 1]| - 1]
    ensures |rows| > 0 && |rows[|rows| - 1]| == 0 ==> r[|rows| - 1] == []
  {
    if |rows| == 0 then rows
    else
      var last := rows[|rows| - 1];
      rows[|rows| - 1 := if |last| == 0 then [] else last[..|last| - 1]]
  }

  /** `filter(letter => letter.length)`: the non-empty rows, in order. */
  function Compact(rows: seq<Word>): (r: seq<Word>)
    ensures AllNonEmpty(r)
    ensures |r| <= |rows|
    ensures AllNonEmpty(rows) ==> r == rows
  {
    if |rows| == 0 then []
    else if |rows[0]| > 0 then [rows[0]] + Compact(rows[1..])
    else Compact(rows[1..])
  }

  /** Filtering keeps exactly the non-empty rows of its input. */
  lemma {:induction false} CompactKeepsNonEmptyRows(rows: seq<Word>)
    ensures forall w :: w in Compact(rows) <==> w in rows && |w| > 0
  {
    if |rows| > 0 {
      CompactKeepsNonEmptyRows(rows[1..]);
      assert rows == [rows[0]] + rows[1..];
    }
  }

  /** The delete key: drops the last letter of the last stored row, removing rows left empty. */
  function DeleteLetter(s: State): (r: State)
    ensures r.row == s.row && r.isDone == s.isDone && r.isWin == s.isWin
    ensures |s.letters| == 0 ==> r == s
    ensures AllNonEmpty(s.letters) && |s.letters| > 0 && |s.letters[|s.letters| - 1]| > 1 ==>
              var n := |s.letters| - 1;
              r.letters == s.letters[..n] + [s.letters[n][..|s.letters[n]| - 1]]
    ensures AllNonEmpty(s.letters) && |s.letters| > 0 && |s.letters[|s.letters| - 1]| == 1 ==>
              r.letters == s.letters[..|s.letters| - 1]
  {
    CompactAfterTrim(s.letters);
    s.(letters := Compact(TrimLast(s.letters)))
  }

  /** Delete keeps every stored row between one and five letters. */
  lemma DeleteKeepsRowsWellFormed(s: State)
    requires RowsWellFormed(s.letters)
    ensures RowsWellFormed(DeleteLetter(s).letters)
  {
    if |s.letters| > 0 {
      var n := |s.letters| - 1;
      var r := DeleteLetter(s).letters;
      assert AllNonEmpty(s.letters);
      forall i | 0 <= i < |r| ensures 0 < |r[i]| <= RowWidth {
        if i < n { assert r[i] == s.letters[i]; }
      }
    }
  }

  /** On rows none of which is empty, trimming and filtering shortens the last row, or removes it
      when it held one letter, and keeps the earlier rows. */
  lemma CompactAfterTrim(rows: seq<Word>)
    ensures AllNonEmpty(rows) && |rows| > 0 && |rows[|rows| - 1]| > 1 ==>
              var n := |rows| - 1;
              Compact(TrimLast(rows)) == rows[..n] + [rows[n][..|rows[n]| - 1]]
    ensures AllNonEmpty(rows) && |rows| > 0 && |rows[|rows| - 1]| == 1 ==>
              Compact(TrimLast(rows)) == rows[..|rows| - 1]
  {
    var n := |rows| - 1;
    if !AllNonEmpty(rows) || |rows| == 0 {
    } else if |rows[n]| == 1 {
      assert TrimLast(rows) == rows[..n] + [[]];
      CompactDropsEmptyTail(rows[..n]);
    } else {
      assert TrimLast(rows) == rows[..n] + [rows[n][..|rows[n]| - 1]];
    }
  }

  lemma CompactDropsEmptyTail(rows: seq<Word>)
    requires AllNonEmpty(rows)
    ensures Compact(rows + [[]]) == rows
  {
    if |rows| > 0 {
      assert (rows + [[]])[1..] == rows[1..] + [[]];
      CompactDropsEmptyTail(rows[1..]);
    }
  }

  /** The enter key. A cursor row with fewer than five letters (or none) changes nothing; a word
      outside the list only raises the alert; a listed word moves the cursor down a row, and ends
      the game when it is the secret (a win) or when it was typed on the last row. */
  function Submit(s: State, secret: string, words: seq<string>): (r: Reaction)
    ensures |CursorWord(s)| < RowWidth ==> r == Reaction(s, false)
    ensures |CursorWord(s)| >= RowWidth && CursorWord(s) !in words ==> r.next == s && r.alert
    ensures r.alert <==> |CursorWord(s)| >= RowWidth && CursorWord(s) !in words
    ensures r.next.letters == s.letters
    ensures |CursorWord(s)| >= RowWidth && CursorWord(s) in words ==>
              && r.next.row == s.row + 1
              && (r.next.isDone <==> s.isDone || CursorWord(s) == secret || s.row == LastRow)
              && (!s.isWin ==> (r.next.isWin <==> CursorWord(s) == secret))
  {
    var word := CursorWord(s);
    if |word| < RowWidth then Reaction(s, false)
    else if word !in words then Reaction(s, true)
    else
      var moved := s.(row := s.row + 1);
      if secret == word || s.row == LastRow then
        Reaction(moved.(isDone := true, isWin := secret == word), false)
      else
        Reaction(moved, false)
  }

  /** `handleKeyboardTyped`: every key is ignored once the game is done. */
  function Step(s: State, key: Key, secret: string, words: seq<string>): (r: Reaction)
    ensures s.isDone ==> r == Reaction(s, false)
    ensures r.alert ==> key == Enter && r.next == s
    ensures r.next.row == s.row || (key == Enter && r.next.row == s.row + 1)
  {
    if s.isDone then Reaction(s, false)
    else
      match key
      case Letter(c) => Reaction(TypeLetter(s, c), false)
      case Delete => Reaction(DeleteLetter(s), false)
      case Enter => Submit(s, secret, words)
  }

  /** The state after a whole sequence of keys. */
  function Run(s: State, keys: seq<Key>, secret: string, words: seq<string>): (r: State)
    decreases |keys|
  {
    if |keys| == 0 then s
    else Run(Step(s, keys[0], secret, words).next, keys[1..], secret, words)
  }

  /** Every key keeps a consistent state consistent: no stored row is ever empty or longer than
      five letters, every stored row fits on the six-row board, and a win implies done. */
  lemma StepKeepsConsistent(s: State, key: Key, secret: string, words: seq<string>)
    requires Consistent(s, secret)
    ensures Consistent(Step(s, key, secret, words).next, secret)
  {
    match key
    case Letter(c) => TypeLetterKeepsRowsWellFormed(s, c);
    case Delete => DeleteKeepsRowsWellFormed(s);
    case Enter =>
  }

  lemma {:induction false} RunKeepsConsistent(s: State, keys: seq<Key>, secret: string, words: seq<string>)
    requires Consistent(s, secret)
    ensures Consistent(Run(s, keys, secret, words), secret)
    decreases |keys|
  {
    if |keys| > 0 {
      StepKeepsConsistent(s, keys[0], secret, words);
      RunKeepsConsistent(Step(s, keys[0], secret, words).next, keys[1..], secret, words);
    }
  }

  /** Whatever is typed after a replay, the game stays consistent. */
  lemma PlayFromReplay(keys: seq<Key>, secret: string, words: seq<string>)
    ensures Consistent(Run(Replay(), keys, secret, words), secret)
  {
    RunKeepsConsistent(Replay(), keys, secret, words);
  }

  /** A finished game ignores every sequence of keys. */
  lemma {:induction false} DoneIsFinal(s: State, keys: seq<Key>, secret: string, words: seq<string>)
    requires s.isDone
    ensures Run(s, keys, secret, words) == s
    decreases |keys|
  {
    if |keys| > 0 {
      DoneIsFinal(s, keys[1..], secret, words);
    }
  }

  /** The letter keys that spell `w`. */
  function Typing(w: Word): (keys: seq<Key>)
    ensures |keys| == |w|
    ensures forall i | 0 <= i < |w| :: keys[i] == Letter(w[i])
  {
    seq(|w|, i requires 0 <= i < |w| => Letter(w[i]))
  }

  /** Typing a word of one to five letters on the row just past the last stored one stores
      exactly that word as a new last row; nothing else changes. */
  lemma {:induction false} TypingFillsNewRow(s: State, w: Word, secret: string, words: seq<string>)
    requires !s.isDone && s.row == |s.letters| && 0 < |w| <= RowWidth
    ensures Run(s, Typing(w), secret, words) == s.(letters := s.letters + [w])
    decreases |w|
  {
    var n := |w| - 1;
    if n == 0 {
      assert Typing(w) == [Letter(w[0])];
      assert [w[0]] == w;
    } else {
      var front := w[..n];
      assert Typing(w) == Typing(front) + [Letter(w[n])];
      TypingFillsNewRow(s, front, secret, words);
      RunAppend(s, Typing(front), [Letter(w[n])], secret, words);
      var t := s.(letters := s.letters + [front]);
      assert TypeLetter(t, w[n]).letters == (s.letters + [front])[s.row := front + [w[n]]];
      ReplaceLast(s.letters, front, w);
      SplitLast(w);
    }
  }

  /** Typing the secret on the row just past the last stored one and pressing enter wins: the
      secret is always a listed word, so the dictionary test lets it through. */
  lemma TypingSecretWins(s: State, words: seq<string>)
    requires !s.isDone && s.row == |s.letters|
    requires SecretOf(words).SecretWord? && |SecretOf(words).word| == RowWidth
    ensures
      var secret := SecretOf(words).word;
      var t := Run(s, Typing(secret) + [Enter], secret, words);
      && t.isDone && t.isWin && t.row == s.row + 1
      && t.letters == s.letters + [secret]
  {
    var secret := SecretOf(words).word;
    TypingFillsNewRow(s, secret, secret, words);
    RunAppend(s, Typing(secret), [Enter], secret, words);
    var t := s.(letters := s.letters + [secret]);
    assert CursorWord(t) == secret;
  }

  /** When the cursor is two or more rows past the last stored one (whole rows were deleted after a
      submit), every letter lands in a new row of its own: two letters make two one-letter rows. */
  lemma TypingPastTheEndSplitsRows(s: State, a: char, b: char, secret: string, words: seq<string>)
    requires !s.isDone && s.row > |s.letters|
    ensures Run(s, [Letter(a), Letter(b)], secret, words).letters == s.letters + [[a], [b]]
  {
    var keys := [Letter(a), Letter(b)];
    var t := TypeLetter(s, a);
    assert t.letters == s.letters + [[a]];
    var u := TypeLetter(t, b);
    assert u.letters == s.letters + [[a]] + [[b]];
    assert keys[1..] == [Letter(b)] && keys[1..][1..] == [];
    assert Run(s, keys, secret, words) == Run(t, [Letter(b)], secret, words);
    assert Run(t, [Letter(b)], secret, words) == Run(u, [], secret, words);
  }

  /** Five letters and a delete leave the first four letters in the new row. */
  lemma FiveLettersThenDelete(s: State, w: Word, secret: string, words: seq<string>)
    requires !s.isDone && s.row == |s.letters| && AllNonEmpty(s.letters) && |w| == RowWidth
    ensures Run(s, Typing(w) + [Delete], secret, words) == s.(letters := s.letters + [w[..RowWidth - 1]])
  {
    TypingFillsNewRow(s, w, secret, words);
    RunAppend(s, Typing(w), [Delete], secret, words);
    var t := s.(letters := s.letters + [w]);
    assert (s.letters + [w])[..|s.letters|] == s.letters;
    assert AllNonEmpty(t.letters);
  }

  lemma {:induction false} RunAppend(s: State, keys: seq<Key>, more: seq<Key>, secret: string, words: seq<string>)
    ensures Run(s, keys + more, secret, words) == Run(Run(s, keys, secret, words), more, secret, words)
    decreases |keys|
  {
    if |keys| > 0 {
      assert (keys + more)[1..] == keys[1..] + more;
      RunAppend(Step(s, keys[0], secret, words).next, keys[1..], more, secret, words);
    } else {
      assert keys + more == more;
    }
  }

  /** Delete undoes a letter that was typed: in a valid game the cursor row is the last stored
      row or is missing, so the letter lands where delete looks. */
  lemma DeleteUndoesLetter(s: State, c: char, secret: string, words: seq<string>)
    requires Valid(s) && !s.isDone && CursorRowHasRoom(s)
    ensures Step(Step(s, Letter(c), secret, words).next, Delete, secret, words).next == s
  {
  }

  /** Retyping the deleted letter restores the state, when the cursor is on the last stored row. */
  lemma RetypeUndoesDelete(s: State, secret: string, words: seq<string>)
    requires Valid(s) && !s.isDone && |s.letters| > 0 && s.row == |s.letters| - 1
    ensures
      var last := s.letters[|s.letters| - 1];
      var d := Step(s, Delete, secret, words).next;
      Step(d, Letter(last[|last| - 1]), secret, words).next == s
  {
    var last := s.letters[|s.letters| - 1];
    assert Step(s, Delete, secret, words).next == DeleteLetter(s);
    assert AllNonEmpty(s.letters);
    RetypeAfterDelete(s);
    assert !DeleteLetter(s).isDone;
  }

  lemma RetypeAfterDelete(s: State)
    requires AllNonEmpty(s.letters) && |s.letters| > 0 && s.row == |s.letters| - 1
    requires |s.letters[|s.letters| - 1]| <= RowWidth
    ensures
      var last := s.letters[|s.letters| - 1];
      TypeLetter(DeleteLetter(s), last[|last| - 1]) == s
  {
    var last := s.letters[|s.letters| - 1];
    if |last| > 1 {
      RetypeShortenedRow(s);
    } else {
      RetypeRemovedRow(s);
    }
  }

  lemma RetypeShortenedRow(s: State)
    requires AllNonEmpty(s.letters) && |s.letters| > 0 && s.row == |s.letters| - 1
    requires 1 < |s.letters[|s.letters| - 1]| <= RowWidth
    ensures
      var last := s.letters[|s.letters| - 1];
      TypeLetter(DeleteLetter(s), last[|last| - 1]).letters == s.letters
  {
    var n := |s.letters| - 1;
    var last := s.letters[n];
    var c := last[|last| - 1];
    var prefix := s.letters[..n];
    var shorter := last[..|last| - 1];
    var d := DeleteLetter(s);
    assert TypeLetter(d, c).letters == (prefix + [shorter])[n := shorter + [c]];
    ReplaceLast(prefix, shorter, shorter + [c]);
    SplitLast(last);
    SplitLast(s.letters);
  }

  lemma RetypeRemovedRow(s: State)
    requires AllNonEmpty(s.letters) && |s.letters| > 0 && s.row == |s.letters| - 1
    requires |s.letters[|s.letters| - 1]| == 1
    ensures
      var last := s.letters[|s.letters| - 1];
      TypeLetter(DeleteLetter(s), last[|last| - 1]).letters == s.letters
  {
    var n := |s.letters| - 1;
    var last := s.letters[n];
    var d := DeleteLetter(s);
    assert d.letters == s.letters[..n];
    assert TypeLetter(d, last[0]).letters == s.letters[..n] + [[last[0]]];
    assert [last[0]] == last;
    SplitLast(s.letters);
  }

  lemma ReplaceLast<T>(xs: seq<T>, x: T, y: T)
    ensures (xs + [x])[|xs| := y] == xs + [y]
  {
  }

  /** A non-empty sequence is its prefix followed by its last element. */
  lemma SplitLast<T>(xs: seq<T>)
    requires |xs| > 0
    ensures xs[..|xs| - 1] + [xs[|xs| - 1]] == xs
  {
  }

  /** After a valid submit the cursor row is missing, so delete edits the row just submitted. */
  lemma DeleteReachesSubmittedRow(s: State, secret: string, words: seq<string>)
    requires Valid(s) && !s.isDone && |CursorWord(s)| == RowWidth && CursorWord(s) in words
    requires CursorWord(s) != secret && s.row != LastRow
    ensures
      var t := Step(s, Enter, secret, words).next;
      var d := Step(t, Delete, secret, words).next;
      && !t.isDone && t.row >= |t.letters|
      && d.letters[s.row] == CursorWord(s)[..RowWidth - 1]
  {
  }
}
