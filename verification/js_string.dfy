/**
 The slice of JavaScript string semantics the game relies on: `String.prototype.indexOf`
 as a first-occurrence substring search, returning -1 when the needle does not occur.
 */
module JsString {

  /** `t` occurs in `s` starting at position `i`. */
  predicate OccursAt(s: string, t: string, i: nat) {
    i + |t| <= |s| && s[i..i + |t|] == t
  }

  /** `t` occurs somewhere in `s`. */
  ghost predicate Occurs(s: string, t: string) {
    exists i: nat :: OccursAt(s, t, i)
  }

  /** A first-occurrence search from a start position inside the string (or just past its end):
      the first position at or after `from` where `t` occurs, or -1. */
  function IndexOfFrom(s: string, t: string, from: nat): (r: int)
    requires from <= |s|
    ensures r == -1 <==> forall i: nat :: from <= i ==> !OccursAt(s, t, i)
    ensures r != -1 ==> from <= r && OccursAt(s, t, r)
    ensures r != -1 ==> forall i: nat :: from <= i < r ==> !OccursAt(s, t, i)
    decreases |s| - from
  {
    if from + |t| > |s| then -1
    else if OccursAt(s, t, from) then from
    else IndexOfFrom(s, t, from + 1)
  }

  /** `s.indexOf(t)`. */
  function IndexOf(s: string, t: string): (r: int)
    ensures r == -1 <==> !Occurs(s, t)
    ensures r != -1 ==> 0 <= r && OccursAt(s, t, r)
    ensures r != -1 ==> forall i: nat :: i < r ==> !OccursAt(s, t, i)
  {
    IndexOfFrom(s, t, 0)
  }

  /** A one-character needle occurs exactly when that character is in the string. */
  lemma OccursChar(s: string, c: char)
    ensures Occurs(s, [c]) <==> c in s
  {
    if c in s {
      var i :| 0 <= i < |s| && s[i] == c;
      assert s[i..i + 1] == [c];
      assert OccursAt(s, [c], i);
    }
    if Occurs(s, [c]) {
      var i: nat :| OccursAt(s, [c], i);
      assert s[i] == s[i..i + 1][0];
    }
  }

  /** The empty needle is found at position 0 of every string, so `indexOf("")` is never -1. */
  lemma EmptyNeedleFoundFirst(s: string)
    ensures IndexOf(s, "") == 0
  {
    assert OccursAt(s, "", 0);
  }
}
