/**
 * ASCII models of the two lodash casing helpers the key transforms use:
 * `capitalize` (first character upper-cased, the rest lower-cased) and
 * `lowerCase` applied to a single word (every character lower-cased).
 * Characters other than the ASCII letters are left as they are.
 */
module Casing {

  predicate IsUpper(c: char) { 'A' <= c <= 'Z' }

  predicate IsLower(c: char) { 'a' <= c <= 'z' }

  function ToUpper(c: char): (u: char)
    ensures !IsLower(u)
    ensures IsLower(c) ==> IsUpper(u)
    ensures !IsLower(c) ==> u == c
  {
    if IsLower(c) then (c as int - 32) as char else c
  }

  function ToLower(c: char): (l: char)
    ensures !IsUpper(l)
    ensures IsUpper(c) ==> IsLower(l)
    ensures !IsUpper(c) ==> l == c
  {
    if IsUpper(c) then (c as int + 32) as char else c
  }

  /** Two strings that differ at most in the case of their ASCII letters. */
  predicate EqualUpToCase(a: string, b: string)
  {
    |a| == |b| && forall i :: 0 <= i < |a| ==> ToLower(a[i]) == ToLower(b[i])
  }

  /** A character that only case-folds to itself when it is that character. */
  lemma NonLetterUpToCase(a: string, b: string, c: char)
    requires EqualUpToCase(a, b)
    requires !IsUpper(c) && !IsLower(c)
    ensures c in a ==> c in b
  {
    if c in a {
      var i :| 0 <= i < |a| && a[i] == c;
      assert ToLower(b[i]) == c;
    }
  }

  /** lodash `lowerCase` on a single word: every character lower-cased. */
  function LowerCase(w: string): (r: string)
    ensures EqualUpToCase(r, w)
    ensures forall i :: 0 <= i < |r| ==> !IsUpper(r[i])
  {
    seq(|w|, i requires 0 <= i < |w| => ToLower(w[i]))
  }

  /** lodash `capitalize`: upper-case the first character, lower-case the rest. */
  function Capitalize(w: string): (r: string)
    ensures EqualUpToCase(r, w)
    ensures |w| > 0 ==> !IsLower(r[0])
    ensures forall i :: 0 < i < |r| ==> !IsUpper(r[i])
  {
    if |w| == 0 then "" else [ToUpper(w[0])] + LowerCase(w[1..])
  }

  /** A non-empty run of lower-case ASCII letters: one word of a snake_case key. */
  predicate IsLowerWord(w: string)
  {
    |w| > 0 && forall i :: 0 <= i < |w| ==> IsLower(w[i])
  }

  /** On a lower-case word, `capitalize` and `lowerCase` undo each other. */
  lemma CapitalizeLowerWord(w: string)
    requires IsLowerWord(w)
    ensures |Capitalize(w)| == |w| && IsUpper(Capitalize(w)[0])
    ensures LowerCase(Capitalize(w)) == w
    ensures LowerCase(w) == w
  {
    var c := Capitalize(w);
    forall i | 0 <= i < |w| ensures LowerCase(c)[i] == w[i] {
      assert ToLower(c[i]) == ToLower(w[i]);
    }
  }
}
