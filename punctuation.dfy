/**
  `remove_punctuation`: delete every character of Python's `string.punctuation`
  and keep everything else in order.
*/
module Punctuation {
  import opened CharClasses

  /** Python's `string.punctuation`, character for character (note `#` and `_`). */
  const PUNCTUATION: string := "!\"#$%&'()*+,-./:;<=>?@[\\]^_`{|}~"

  /** The same 32 characters as four ASCII ranges. */
  predicate IsPunctuation(c: char) {
    '!' <= c <= '/' || ':' <= c <= '@' || '[' <= c <= '`' || '{' <= c <= '~'
  }

  /** The characters the translation table leaves alone. */
  predicate IsKept(c: char) { !IsPunctuation(c) }

  /**
    `s.translate(str.maketrans('', '', string.punctuation))`: a translation table
    that maps each punctuation character to nothing, i.e. a filter.
  */
  function RemovePunctuation(s: string): (r: string)
    ensures |r| <= |s|
    ensures forall i :: 0 <= i < |r| ==> !IsPunctuation(r[i])
  {
    Filter(s, IsKept)
  }

  /**
    The ranges are exactly `string.punctuation`: its 32 characters, which are the
    printable ASCII characters that are neither letters nor digits.
  */
  lemma PunctuationIsPythonSet(c: char)
    ensures |PUNCTUATION| == 32
    ensures IsPunctuation(c) <==> c in PUNCTUATION
  {
  }

  /** The same characters described as the printable ASCII characters that are neither letters nor digits. */
  lemma PunctuationIsPrintableSymbols(c: char)
    ensures IsPunctuation(c) <==> '!' <= c <= '~' && !IsUpper(c) && !IsLower(c) && !IsDigit(c)
  {
  }

  /** Each character other than punctuation occurs as often in the output as in the input. */
  lemma RemovePunctuationCount(s: string, c: char)
    ensures multiset(RemovePunctuation(s))[c] == if IsPunctuation(c) then 0 else multiset(s)[c]
  {
    FilterCount(s, IsKept, c);
  }

  /** The output keeps the non-punctuation characters of each part, in order. */
  lemma RemovePunctuationAppend(a: string, b: string)
    ensures RemovePunctuation(a + b) == RemovePunctuation(a) + RemovePunctuation(b)
  {
    FilterAppend(a, b, IsKept);
  }

  /** A text is returned unchanged exactly when it holds no punctuation. */
  lemma RemovePunctuationUnchanged(s: string)
    ensures RemovePunctuation(s) == s <==> forall i :: 0 <= i < |s| ==> !IsPunctuation(s[i])
  {
    FilterUnchanged(s, IsKept);
  }

  /** Removing punctuation twice is the same as removing it once. */
  lemma RemovePunctuationIdempotent(s: string)
    ensures RemovePunctuation(RemovePunctuation(s)) == RemovePunctuation(s)
  {
    RemovePunctuationUnchanged(RemovePunctuation(s));
  }

  /** One step of the filter: the first character is dropped or kept, the rest filtered alike. */
  lemma RemovePunctuationCons(c: char, s: string)
    ensures RemovePunctuation([c] + s) == (if IsPunctuation(c) then [] else [c]) + RemovePunctuation(s)
  {
    assert ([c] + s)[1..] == s;
  }

  /** `_` and `#` are punctuation here although `_` is a word character. */
  lemma RemovePunctuationExample()
    ensures RemovePunctuation("#a_b c!") == "ab c"
  {
    assert RemovePunctuation("!") == "" by {
      RemovePunctuationCons('!', "");
    }
    assert RemovePunctuation("c!") == "c" by {
      RemovePunctuationCons('c', "!");
    }
    assert RemovePunctuation(" c!") == " c" by {
      RemovePunctuationCons(' ', "c!");
    }
    assert RemovePunctuation("b c!") == "b c" by {
      RemovePunctuationCons('b', " c!");
    }
    assert RemovePunctuation("_b c!") == "b c" by {
      RemovePunctuationCons('_', "b c!");
    }
    assert RemovePunctuation("a_b c!") == "ab c" by {
      RemovePunctuationCons('a', "_b c!");
    }
    RemovePunctuationCons('#', "a_b c!");
  }
}
