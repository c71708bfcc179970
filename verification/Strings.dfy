/**
 Searching a string for a character, as the library call the parsers use does: the first position at or
 after a given one, or the length of the string when there is none.

 The position found is characterised in both directions: no earlier one holds the character, and the only
 position that holds it with none before it is the one that is found.
 */
module Strings {

  /** The first position from `from` on that holds the character, or the length. */
  function Find(s: string, c: char, from: nat): (i: nat)
    requires from <= |s|
    ensures from <= i <= |s| && (i < |s| ==> s[i] == c)
    decreases |s| - from
  {
    if from == |s| || s[from] == c then from else Find(s, c, from + 1)
  }

  /** No earlier position holds the character. */
  lemma {:induction false} FindIsFirst(s: string, c: char, from: nat)
    requires from <= |s|
    ensures c !in s[from..Find(s, c, from)]
    decreases |s| - from
  {
    if from < |s| && s[from] != c {
      FindIsFirst(s, c, from + 1);
      var i := Find(s, c, from);
      assert s[from..i] == [s[from]] + s[from + 1..i];
    }
  }

  /** Only the first position has none before it. */
  lemma {:induction false} FindUnique(s: string, c: char, from: nat, i: nat)
    requires from <= i <= |s| && (i < |s| ==> s[i] == c) && c !in s[from..i]
    ensures Find(s, c, from) == i
    decreases |s| - from
  {
    if from < i {
      assert s[from..i] == [s[from]] + s[from + 1..i];
      FindUnique(s, c, from + 1, i);
    }
  }
}
