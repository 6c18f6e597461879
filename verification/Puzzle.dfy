/**
  The rules of the puzzle: a box of twelve letters, three to a side, and chains of words that
  start where the previous word ends, never stay on a side, and use every letter.
 */
module Puzzle {
  import opened Settings

  const FIRST := 'a'
  const LAST := 'z'

  predicate Lower(c: char) {
    FIRST <= c <= LAST
  }

  predicate Lowercase(w: string) {
    forall k :: 0 <= k < |w| ==> Lower(w[k])
  }

  predicate IsBox(box: string) {
    |box| == BOX_CHARS && Lowercase(box) && forall i, j :: 0 <= i < j < |box| ==> box[i] != box[j]
  }

  /** Where a letter of the box is. */
  function Place(box: string, c: char): (i: BoxIndex)
    requires IsBox(box) && c in box
    ensures box[i] == c
  {
    var i: nat :| i < |box| && box[i] == c;
    i
  }

  function Side(box: string, c: char): nat
    requires IsBox(box) && c in box
  {
    Place(box, c) / CHARS_PER_SIDE
  }

  predicate InBox(box: string, w: string) {
    forall k :: 0 <= k < |w| ==> w[k] in box
  }

  /** A word the rules allow: box letters only, never two in a row from one side. */
  predicate Playable(box: string, w: string)
    requires IsBox(box)
  {
    && w != "" && InBox(box, w)
    && forall k :: 0 < k < |w| ==> Side(box, w[k - 1]) != Side(box, w[k])
  }

  predicate AllPlayable(box: string, words: seq<string>, ws: seq<string>)
    requires IsBox(box)
  {
    forall k :: 0 <= k < |ws| ==> ws[k] in words && Playable(box, ws[k])
  }

  /** Each word starts with the last letter of the one before. */
  predicate Linked(ws: seq<string>) {
    forall k :: 0 < k < |ws| ==> Meets(ws, k)
  }

  predicate Meets(ws: seq<string>, k: nat)
    requires 0 < k < |ws|
  {
    ws[k - 1] != "" && ws[k] != "" && ws[k - 1][|ws[k - 1]| - 1] == ws[k][0]
  }

  predicate Covers(box: string, ws: seq<string>) {
    forall i :: 0 <= i < |box| ==> Occurs(ws, box[i])
  }

  predicate Occurs(ws: seq<string>, c: char) {
    exists k :: 0 <= k < |ws| && c in ws[k]
  }

  /** ws is a solution of the box with words of the list. */
  predicate Solves(box: string, words: seq<string>, ws: seq<string>)
    requires IsBox(box)
  {
    ws != [] && AllPlayable(box, words, ws) && Linked(ws) && Covers(box, ws)
  }

  predicate SameLetters(v: string, w: string) {
    && (forall k :: 0 <= k < |v| ==> v[k] in w)
    && (forall k :: 0 <= k < |w| ==> w[k] in v)
  }

  /** Words that can take each other's place in any chain: same first letter, last letter and letters. */
  predicate Interchangeable(v: string, w: string) {
    v != "" && w != "" && v[0] == w[0] && v[|v| - 1] == w[|w| - 1] && SameLetters(v, w)
  }

  /** The playable words of the list that can take the place of w, in the order of the list. */
  function Substitutes(box: string, words: seq<string>, w: string): seq<string>
    requires IsBox(box)
  {
    if words == [] then []
    else
      var v := words[|words| - 1];
      Substitutes(box, words[..|words| - 1], w) + if Playable(box, v) && Interchangeable(v, w) then [v] else []
  }
}
