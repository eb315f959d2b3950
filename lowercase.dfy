/**
  `standardize_lowercase`: `s.lower()`, modelled over ASCII only. Every
  upper-case letter A-Z becomes its lower-case letter; every other character,
  ASCII or not, is left as it is.
*/
module Lowercase {
  import opened CharClasses

  /** The ASCII lower-case mapping of one character: only `A`-`Z` change, and they become letters of `a`-`z`. */
  function LowerChar(c: char): (r: char)
    ensures IsUpper(c) ==> IsLower(r)
    ensures !IsUpper(c) ==> r == c
  {
    if IsUpper(c) then (c as int + ('a' as int - 'A' as int)) as char else c
  }

  /**
    `s.lower()`: the text with each character mapped by `LowerChar`; the length
    is kept and no upper-case letter is left.
  */
  function StandardizeLowercase(s: string): (r: string)
    ensures |r| == |s|
    ensures forall i :: 0 <= i < |s| ==> r[i] == LowerChar(s[i])
    ensures forall i :: 0 <= i < |r| ==> !IsUpper(r[i])
  {
    if s == [] then [] else [LowerChar(s[0])] + StandardizeLowercase(s[1..])
  }

  /** An upper-case letter becomes the lower-case letter at the same place in the alphabet; nothing else moves. */
  lemma LowerCharMapping(c: char)
    ensures IsUpper(c) ==> IsLower(LowerChar(c)) && LowerChar(c) as int - 'a' as int == c as int - 'A' as int
    ensures !IsUpper(c) ==> LowerChar(c) == c
    ensures IsWordChar(LowerChar(c)) <==> IsWordChar(c)
  {
  }

  /** A text is returned unchanged exactly when it has no upper-case letter. */
  lemma StandardizeLowercaseUnchanged(s: string)
    ensures StandardizeLowercase(s) == s <==> forall i :: 0 <= i < |s| ==> !IsUpper(s[i])
  {
    if StandardizeLowercase(s) != s {
      var r := StandardizeLowercase(s);
      var i :| 0 <= i < |s| && r[i] != s[i];
      assert IsUpper(s[i]);
    }
  }

  /** Lowercasing twice is the same as lowercasing once. */
  lemma StandardizeLowercaseIdempotent(s: string)
    ensures StandardizeLowercase(StandardizeLowercase(s)) == StandardizeLowercase(s)
  {
    StandardizeLowercaseUnchanged(StandardizeLowercase(s));
  }

  /** Lowercasing works character by character, so it distributes over concatenation. */
  lemma StandardizeLowercaseAppend(a: string, b: string)
    ensures StandardizeLowercase(a + b) == StandardizeLowercase(a) + StandardizeLowercase(b)
  {
    assert forall i :: 0 <= i < |a + b| ==> StandardizeLowercase(a + b)[i] == (StandardizeLowercase(a) + StandardizeLowercase(b))[i];
  }
}
