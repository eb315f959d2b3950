/**
  `remove_stopwords`: the words of the set are joined into the pattern
  `\b(w1|w2|...)\b\s*`, and every match is replaced by one space. A stopword is
  therefore removed only as a whole word (case-sensitively), together with the
  whole whitespace run after it, while the whitespace before it stays.

  Two models are given. `PatternSub` follows the regular expression itself:
  alternatives tried in the order the words were joined, the two `\b`, the
  greedy `\s*`, and the rule of Python 3.7 and later that an empty match may not
  follow an empty match at the same position. `WordSub` is the same substitution
  stated on tokens for words that are non-empty runs of word characters; for
  those words it agrees with `PatternSub` whatever the order of the alternatives.
*/
module Stopwords {
  import opened CharClasses

  /** A word the pattern matches only as itself: non-empty, word characters only. */
  predicate PlainWord(w: string)
  {
    w != [] && forall i :: 0 <= i < |w| ==> IsWordChar(w[i])
  }

  predicate AllPlainWords(sw: set<string>)
  {
    forall w :: w in sw ==> PlainWord(w)
  }

  /** The order in which `set(sw)` was joined: a non-empty list of plain words. */
  predicate PlainOrder(order: seq<string>)
  {
    order != [] && forall i :: 0 <= i < |order| ==> PlainWord(order[i])
  }

  function WordSet(order: seq<string>): set<string>
  {
    set w | w in order
  }

  /** The alternatives of the group `(...)`: joining no words leaves one empty alternative. */
  function Alternatives(order: seq<string>): seq<string>
  {
    if order == [] then [""] else order
  }

  /** `\b` at the start of `t`, where `before` says whether the character before is a word character. */
  predicate Boundary(before: bool, t: string)
  {
    before != (t != [] && IsWordChar(t[0]))
  }

  /** The alternative `w`, with the `\b` on each side of the group, matches at the start of `t`. */
  predicate AltMatches(t: string, w: string, afterWord: bool)
  {
    && Boundary(afterWord, t)
    && w <= t
    && Boundary(if w == [] then afterWord else IsWordChar(w[|w| - 1]), t[|w|..])
  }

  /** Length of the whole match once `w` has matched: the word and the greedy `\s*` after it. */
  function AltLength(t: string, w: string): (n: nat)
    requires w <= t
    ensures |w| <= n <= |t|
  {
    |w| + Span(t[|w|..], IsSpace)
  }

  /** `w` matches at the start of `t`, and not emptily when the scan must advance. */
  predicate Accepts(t: string, w: string, afterWord: bool, mustAdvance: bool)
  {
    AltMatches(t, w, afterWord) && (mustAdvance ==> AltLength(t, w) > 0)
  }

  /**
    The match of `\b(alts)\b\s*` at the start of `t`: the alternatives are tried in
    order and the first one that lets the rest of the pattern match wins.
  */
  function MatchAt(t: string, alts: seq<string>, afterWord: bool, mustAdvance: bool): (m: Option<nat>)
    ensures m.Some? ==> m.value <= |t| && Boundary(afterWord, t) && (mustAdvance ==> m.value > 0)
    decreases |alts|
  {
    if alts == [] then None
    else if Accepts(t, alts[0], afterWord, mustAdvance) then Some(AltLength(t, alts[0]))
    else MatchAt(t, alts[1..], afterWord, mustAdvance)
  }

  /**
    There is a match exactly when some alternative is accepted, and then it is the
    match of the first accepted alternative.
  */
  lemma {:induction false} MatchAtFirst(t: string, alts: seq<string>, afterWord: bool, mustAdvance: bool)
    ensures MatchAt(t, alts, afterWord, mustAdvance).None? <==>
      forall i :: 0 <= i < |alts| ==> !Accepts(t, alts[i], afterWord, mustAdvance)
    ensures MatchAt(t, alts, afterWord, mustAdvance).Some? ==>
      exists i :: 0 <= i < |alts| && Accepts(t, alts[i], afterWord, mustAdvance) &&
                  MatchAt(t, alts, afterWord, mustAdvance).value == AltLength(t, alts[i]) &&
                  (forall j :: 0 <= j < i ==> !Accepts(t, alts[j], afterWord, mustAdvance))
    decreases |alts|
  {
    if alts != [] && !Accepts(t, alts[0], afterWord, mustAdvance) {
      MatchAtFirst(t, alts[1..], afterWord, mustAdvance);
      assert forall i :: 1 <= i < |alts| ==> alts[i] == alts[1..][i - 1];
      if MatchAt(t, alts, afterWord, mustAdvance).Some? {
        var i :| 0 <= i < |alts[1..]| && Accepts(t, alts[1..][i], afterWord, mustAdvance) &&
                 MatchAt(t, alts, afterWord, mustAdvance).value == AltLength(t, alts[1..][i]) &&
                 (forall j :: 0 <= j < i ==> !Accepts(t, alts[1..][j], afterWord, mustAdvance));
        assert Accepts(t, alts[i + 1], afterWord, mustAdvance);
      }
    }
  }

  /**
    The scan of `pattern.sub(' ', t)`: at each position try the pattern; on a match
    emit one space and resume after it, otherwise copy one character. After an
    empty match the next match may not be empty at the same position, so each
    input character is emitted at most once, with at most one replacement before
    it, and the output has at most `2 * |t| + 1` characters.
  */
  function PatternSub(t: string, alts: seq<string>, afterWord: bool, mustAdvance: bool): (r: string)
    ensures |r| <= 2 * |t| + (if mustAdvance then 0 else 1)
    decreases |t|, if mustAdvance then 0 else 1
  {
    match MatchAt(t, alts, afterWord, mustAdvance)
    case Some(m) => " " + PatternSub(t[m..], alts, if m > 0 then IsWordChar(t[m - 1]) else afterWord, m == 0)
    case None => if t == [] then [] else [t[0]] + PatternSub(t[1..], alts, IsWordChar(t[0]), false)
  }

  /** `remove_stopwords(s, sw)`, where `order` lists the words of `set(sw)` in the order they were joined. */
  function RemoveStopwords(s: string, order: seq<string>): (r: string)
    ensures s == [] ==> r == []
    ensures |r| <= 2 * |s| + 1
  {
    PatternSub(s, Alternatives(order), false, false)
  }

  /**
    A whole-word occurrence of a word of `sw` at `i`: the word is the token there,
    and the character before it (or `afterWord` at the start) is not a word character.
  */
  predicate WholeWordAt(s: string, i: int, sw: set<string>, afterWord: bool)
  {
    0 <= i < |s| && !(if i == 0 then afterWord else IsWordChar(s[i - 1])) && Token(s[i..]) in sw
  }

  ghost predicate HasWholeWord(s: string, sw: set<string>, afterWord: bool)
  {
    exists i :: 0 <= i < |s| && WholeWordAt(s, i, sw, afterWord)
  }

  /** Neither a word character nor whitespace: what the substitution never touches. */
  predicate IsOther(c: char) { !IsWordChar(c) && !IsSpace(c) }

  /** The match at the start of `t` on tokens: a whole word of `sw` and the whitespace run after it, or 0. */
  function WordMatch(t: string, sw: set<string>, afterWord: bool): (n: nat)
    ensures n <= |t|
    ensures n > 0 <==> !afterWord && Token(t) != [] && Token(t) in sw
    ensures n > 0 ==> |Token(t)| <= n && forall k :: |Token(t)| <= k < n ==> IsSpace(t[k])
    ensures 0 < n < |t| ==> !IsSpace(t[n])
  {
    var w := Token(t);
    if !afterWord && w != [] && w in sw then |w| + Span(t[|w|..], IsSpace) else 0
  }

  /** The substitution on tokens, the same scan as `PatternSub` for a set of plain words. */
  function WordSub(t: string, sw: set<string>, afterWord: bool): (r: string)
    ensures |r| <= |t|
    decreases |t|
  {
    if t == [] then []
    else
      var n := WordMatch(t, sw, afterWord);
      if n > 0 then " " + WordSub(t[n..], sw, IsWordChar(t[n - 1])) else [t[0]] + WordSub(t[1..], sw, IsWordChar(t[0]))
  }

  /** One step of the token scan where nothing matches: the first character is copied. */
  lemma WordSubCopy(t: string, sw: set<string>, afterWord: bool)
    requires t != [] && WordMatch(t, sw, afterWord) == 0
    ensures WordSub(t, sw, afterWord) == [t[0]] + WordSub(t[1..], sw, IsWordChar(t[0]))
  {
  }

  /** One step of the token scan where a stopword matches: the match becomes one space. */
  lemma WordSubReplace(t: string, sw: set<string>, afterWord: bool, n: nat)
    requires n == WordMatch(t, sw, afterWord) && n > 0
    ensures WordSub(t, sw, afterWord) == " " + WordSub(t[n..], sw, IsWordChar(t[n - 1]))
  {
  }

  /** Sequence algebra for one copied character, kept apart from the scan. */
  lemma PrefixStep(t: string, k: nat, x: string, w: string, w1: string)
    requires 0 < k <= |t|
    requires w == [t[0]] + w1 && w1 == t[1..][..k - 1] + x
    ensures w == t[..k] + x
  {
    assert t[..k] == [t[0]] + t[1..][..k - 1];
  }

  /** Occurrences in `[c] + x` after the first position are the occurrences in `x`, with `c` before it. */
  lemma WholeWordCons(c: char, x: string, sw: set<string>, afterWord: bool)
    ensures WholeWordAt([c] + x, 0, sw, afterWord) <==> !afterWord && Token([c] + x) in sw
    ensures forall i :: 1 <= i <= |x| ==>
      (WholeWordAt([c] + x, i, sw, afterWord) <==> WholeWordAt(x, i - 1, sw, IsWordChar(c)))
  {
    assert ([c] + x)[0..] == [c] + x;
    forall i | 1 <= i <= |x|
      ensures WholeWordAt([c] + x, i, sw, afterWord) <==> WholeWordAt(x, i - 1, sw, IsWordChar(c))
    {
      assert ([c] + x)[i..] == x[i - 1..];
      assert ([c] + x)[i - 1] == if i == 1 then c else x[i - 2];
    }
  }

  /** A plain word matches, with the `\b` on both sides, exactly when it is the token at a word start. */
  lemma AltMatchesPlain(t: string, w: string, afterWord: bool)
    requires PlainWord(w)
    ensures AltMatches(t, w, afterWord) <==> !afterWord && w == Token(t)
  {
    if AltMatches(t, w, afterWord) {
      assert t == w + t[|w|..];
      TokenIs(w, t[|w|..]);
    }
  }

  /** For plain words only the token at the start can match, so the order of the alternatives is irrelevant. */
  lemma MatchAtPlain(t: string, alts: seq<string>, afterWord: bool)
    requires forall i :: 0 <= i < |alts| ==> PlainWord(alts[i])
    ensures MatchAt(t, alts, afterWord, false) ==
      if !afterWord && Token(t) in alts then Some(|Token(t)| + Span(t[|Token(t)|..], IsSpace)) else None
  {
    MatchAtFirst(t, alts, afterWord, false);
    forall i | 0 <= i < |alts|
      ensures AltMatches(t, alts[i], afterWord) <==> !afterWord && alts[i] == Token(t)
    {
      AltMatchesPlain(t, alts[i], afterWord);
    }
    if !afterWord && Token(t) in alts {
      var i :| 0 <= i < |alts| && alts[i] == Token(t);
      assert Accepts(t, alts[i], afterWord, false);
    }
  }

  /** One step of the pattern scan where the pattern matches: the match becomes one space. */
  lemma PatternSubMatch(t: string, alts: seq<string>, afterWord: bool, mustAdvance: bool, m: nat)
    requires MatchAt(t, alts, afterWord, mustAdvance) == Some(m)
    ensures PatternSub(t, alts, afterWord, mustAdvance) ==
      " " + PatternSub(t[m..], alts, if m > 0 then IsWordChar(t[m - 1]) else afterWord, m == 0)
  {
  }

  /** One step of the pattern scan where the pattern does not match: the first character is copied. */
  lemma PatternSubCopy(t: string, alts: seq<string>, afterWord: bool, mustAdvance: bool)
    requires t != [] && MatchAt(t, alts, afterWord, mustAdvance) == None
    ensures PatternSub(t, alts, afterWord, mustAdvance) == [t[0]] + PatternSub(t[1..], alts, IsWordChar(t[0]), false)
  {
  }

  /** With a set of plain words listed in any order, the regular expression and the token scan agree. */
  lemma {:induction false} PatternSubIsWordSub(t: string, alts: seq<string>, sw: set<string>, afterWord: bool)
    requires AllPlainWords(sw)
    requires forall w :: w in alts <==> w in sw
    ensures PatternSub(t, alts, afterWord, false) == WordSub(t, sw, afterWord)
    decreases |t|
  {
    assert forall i :: 0 <= i < |alts| ==> alts[i] in sw;
    MatchAtPlain(t, alts, afterWord);
    var n := WordMatch(t, sw, afterWord);
    if n > 0 {
      assert MatchAt(t, alts, afterWord, false) == Some(n);
      PatternSubMatch(t, alts, afterWord, false, n);
      WordSubReplace(t, sw, afterWord, n);
      PatternSubIsWordSub(t[n..], alts, sw, IsWordChar(t[n - 1]));
    } else if t != [] {
      assert MatchAt(t, alts, afterWord, false) == None;
      PatternSubCopy(t, alts, afterWord, false);
      WordSubCopy(t, sw, afterWord);
      PatternSubIsWordSub(t[1..], alts, sw, IsWordChar(t[0]));
    } else {
      assert MatchAt(t, alts, afterWord, false) == None;
    }
  }

  /** While the previous character is a word character the token at the start is copied. */
  lemma {:induction false} TokenKept(t: string, sw: set<string>)
    ensures Token(WordSub(t, sw, true)) == Token(t)
    decreases |t|
  {
    if t != [] {
      var x := WordSub(t[1..], sw, IsWordChar(t[0]));
      WordSubCopy(t, sw, true);
      TokenCons(t[0], x);
      TokenCons(t[0], t[1..]);
      assert t == [t[0]] + t[1..];
      if IsWordChar(t[0]) {
        TokenKept(t[1..], sw);
      }
    }
  }

  /** `[c] + x` has no whole-word occurrence when `x` has none after `c` and `[c] + x` does not start with one. */
  lemma ConsNoWholeWord(c: char, x: string, sw: set<string>, afterWord: bool)
    requires !HasWholeWord(x, sw, IsWordChar(c))
    requires !afterWord ==> Token([c] + x) !in sw
    ensures !HasWholeWord([c] + x, sw, afterWord)
  {
    WholeWordCons(c, x, sw, afterWord);
    forall i | 1 <= i <= |x|
      ensures !WholeWordAt([c] + x, i, sw, afterWord)
    {
      assert !WholeWordAt(x, i - 1, sw, IsWordChar(c));
    }
  }

  /** The step of `NoWholeWordInOutput` where a stopword matches. */
  lemma NoWholeWordAfterMatch(t: string, sw: set<string>, afterWord: bool, n: nat)
    requires AllPlainWords(sw)
    requires n == WordMatch(t, sw, afterWord) && n > 0
    requires !HasWholeWord(WordSub(t[n..], sw, IsWordChar(t[n - 1])), sw, IsWordChar(t[n - 1]))
    ensures !HasWholeWord(WordSub(t, sw, afterWord), sw, afterWord)
  {
    var flag := IsWordChar(t[n - 1]);
    var x := WordSub(t[n..], sw, flag);
    assert WordSub(t, sw, afterWord) == [' '] + x by {
      WordSubReplace(t, sw, afterWord, n);
    }
    assert !HasWholeWord(x, sw, false) by {
      if flag && x != [] {
        WordSubCopy(t[n..], sw, flag);
        TokenEmpty(x);
      }
      forall i | 0 <= i < |x|
        ensures !WholeWordAt(x, i, sw, false)
      {
        assert !WholeWordAt(x, i, sw, flag);
      }
    }
    assert !HasWholeWord([' '] + x, sw, afterWord) by {
      TokenCons(' ', x);
      ConsNoWholeWord(' ', x, sw, afterWord);
    }
  }

  /** The step of `NoWholeWordInOutput` where the first character is copied. */
  lemma NoWholeWordAfterCopy(t: string, sw: set<string>, afterWord: bool)
    requires AllPlainWords(sw)
    requires t != [] && WordMatch(t, sw, afterWord) == 0
    requires !HasWholeWord(WordSub(t[1..], sw, IsWordChar(t[0])), sw, IsWordChar(t[0]))
    ensures !HasWholeWord(WordSub(t, sw, afterWord), sw, afterWord)
  {
    var flag := IsWordChar(t[0]);
    var x := WordSub(t[1..], sw, flag);
    assert WordSub(t, sw, afterWord) == [t[0]] + x by {
      WordSubCopy(t, sw, afterWord);
    }
    assert !afterWord ==> Token([t[0]] + x) !in sw by {
      TokenCons(t[0], x);
      if flag {
        TokenKept(t[1..], sw);
        TokenCons(t[0], t[1..]);
        assert t == [t[0]] + t[1..];
      }
    }
    ConsNoWholeWord(t[0], x, sw, afterWord);
  }

  /** The output has no whole-word occurrence left: nothing for a second pass to remove. */
  lemma {:induction false} NoWholeWordInOutput(t: string, sw: set<string>, afterWord: bool)
    requires AllPlainWords(sw)
    ensures !HasWholeWord(WordSub(t, sw, afterWord), sw, afterWord)
    decreases |t|
  {
    if t != [] {
      var n := WordMatch(t, sw, afterWord);
      if n > 0 {
        NoWholeWordInOutput(t[n..], sw, IsWordChar(t[n - 1]));
        NoWholeWordAfterMatch(t, sw, afterWord, n);
      } else {
        NoWholeWordInOutput(t[1..], sw, IsWordChar(t[0]));
        NoWholeWordAfterCopy(t, sw, afterWord);
      }
    }
  }

  /** A match consumes a token and whitespace only. */
  lemma MatchIsWordAndSpace(t: string, sw: set<string>, afterWord: bool, n: nat)
    requires n == WordMatch(t, sw, afterWord) && n > 0
    ensures IsWordChar(t[0])
    ensures forall i :: 0 <= i < n ==> IsWordChar(t[i]) || IsSpace(t[i])
  {
    var w := Token(t);
    assert forall i :: 0 <= i < |w| ==> t[i] == w[i];
  }

  /** Where the first character is not an occurrence, every occurrence lies in the rest. */
  lemma WholeWordInTail(t: string, sw: set<string>, afterWord: bool)
    requires AllPlainWords(sw)
    requires t != [] && WordMatch(t, sw, afterWord) == 0
    ensures HasWholeWord(t, sw, afterWord) ==> HasWholeWord(t[1..], sw, IsWordChar(t[0]))
  {
    if HasWholeWord(t, sw, afterWord) {
      var i :| 0 <= i < |t| && WholeWordAt(t, i, sw, afterWord);
      assert t[0..] == t;
      assert i != 0;
      assert t[1..][i - 1..] == t[i..];
      assert WholeWordAt(t[1..], i - 1, sw, IsWordChar(t[0]));
    }
  }

  /** Dropping a prefix that starts with a passing character loses at least one passing character. */
  lemma FilterDropPrefix(t: string, n: nat, p: char -> bool)
    requires 0 < n <= |t| && p(t[0])
    ensures |Filter(t[n..], p)| < |Filter(t, p)|
  {
    assert t == t[..n] + t[n..];
    FilterAppend(t[..n], t[n..], p);
    assert t[..n] == [t[0]] + t[1..n];
    FilterCons(t[0], t[1..n], p);
  }

  /**
    No match adds a word character and every match removes at least one, so a
    text with a whole-word occurrence loses word characters.
  */
  lemma {:induction false} WordCharsShrink(t: string, sw: set<string>, afterWord: bool)
    requires AllPlainWords(sw)
    ensures |Filter(WordSub(t, sw, afterWord), IsWordChar)| <= |Filter(t, IsWordChar)|
    ensures HasWholeWord(t, sw, afterWord) ==> |Filter(WordSub(t, sw, afterWord), IsWordChar)| < |Filter(t, IsWordChar)|
    decreases |t|
  {
    if t != [] {
      var n := WordMatch(t, sw, afterWord);
      if n > 0 {
        var x := WordSub(t[n..], sw, IsWordChar(t[n - 1]));
        WordSubReplace(t, sw, afterWord, n);
        FilterCons(' ', x, IsWordChar);
        WordCharsShrink(t[n..], sw, IsWordChar(t[n - 1]));
        MatchIsWordAndSpace(t, sw, afterWord, n);
        FilterDropPrefix(t, n, IsWordChar);
      } else {
        var flag := IsWordChar(t[0]);
        var x := WordSub(t[1..], sw, flag);
        WordSubCopy(t, sw, afterWord);
        FilterCons(t[0], x, IsWordChar);
        assert t == [t[0]] + t[1..];
        FilterCons(t[0], t[1..], IsWordChar);
        WordCharsShrink(t[1..], sw, flag);
        WholeWordInTail(t, sw, afterWord);
      }
    }
  }

  /** Without a whole-word occurrence the token scan copies the text. */
  lemma {:induction false} NoWholeWordUnchanged(t: string, sw: set<string>, afterWord: bool)
    requires AllPlainWords(sw)
    ensures !HasWholeWord(t, sw, afterWord) ==> WordSub(t, sw, afterWord) == t
    decreases |t|
  {
    if t != [] && !HasWholeWord(t, sw, afterWord) {
      var flag := IsWordChar(t[0]);
      assert t == [t[0]] + t[1..];
      WholeWordCons(t[0], t[1..], sw, afterWord);
      assert !WholeWordAt(t, 0, sw, afterWord);
      forall j | 0 <= j < |t| - 1
        ensures !WholeWordAt(t[1..], j, sw, flag)
      {
        assert !WholeWordAt(t, j + 1, sw, afterWord);
      }
      WordSubCopy(t, sw, afterWord);
      NoWholeWordUnchanged(t[1..], sw, flag);
    }
  }

  /** The token scan keeps every character that is neither a word character nor whitespace, in order. */
  lemma {:induction false} OthersKept(t: string, sw: set<string>, afterWord: bool)
    ensures Filter(WordSub(t, sw, afterWord), IsOther) == Filter(t, IsOther)
    decreases |t|
  {
    if t != [] {
      var n := WordMatch(t, sw, afterWord);
      if n > 0 {
        var x := WordSub(t[n..], sw, IsWordChar(t[n - 1]));
        WordSubReplace(t, sw, afterWord, n);
        FilterCons(' ', x, IsOther);
        OthersKept(t[n..], sw, IsWordChar(t[n - 1]));
        MatchIsWordAndSpace(t, sw, afterWord, n);
        FilterSkipPrefix(t, n, IsOther);
      } else {
        var x := WordSub(t[1..], sw, IsWordChar(t[0]));
        WordSubCopy(t, sw, afterWord);
        FilterCons(t[0], x, IsOther);
        assert t == [t[0]] + t[1..];
        FilterCons(t[0], t[1..], IsOther);
        OthersKept(t[1..], sw, IsWordChar(t[0]));
      }
    }
  }

  /**
    What `remove_stopwords` evidently means: remove each whole word of `sw` with
    the whitespace after it. Unlike the source, an empty set changes nothing.
  */
  function RemoveStopwordsIntended(s: string, sw: set<string>): (r: string)
    requires AllPlainWords(sw)
    ensures |r| <= |s|
    ensures r == s <==> !HasWholeWord(s, sw, false)
    ensures !HasWholeWord(r, sw, false)
    ensures sw == {} ==> r == s
  {
    WordCharsShrink(s, sw, false);
    NoWholeWordInOutput(s, sw, false);
    NoWholeWordUnchanged(s, sw, false);
    WordSub(s, sw, false)
  }

  /** Removing the words a second time changes nothing. */
  lemma RemoveStopwordsIntendedIdempotent(s: string, sw: set<string>)
    requires AllPlainWords(sw)
    ensures RemoveStopwordsIntended(RemoveStopwordsIntended(s, sw), sw) == RemoveStopwordsIntended(s, sw)
  {
  }

  /** Only word characters and whitespace are removed; everything else stays, in order. */
  lemma RemoveStopwordsIntendedKeepsOthers(s: string, sw: set<string>)
    requires AllPlainWords(sw)
    ensures Filter(RemoveStopwordsIntended(s, sw), IsOther) == Filter(s, IsOther)
  {
    OthersKept(s, sw, false);
  }

  /** For a non-empty set of plain words the source does what is intended, whatever order `set(sw)` was joined in. */
  lemma RemoveStopwordsMatchesIntended(s: string, order: seq<string>)
    requires PlainOrder(order)
    ensures AllPlainWords(WordSet(order))
    ensures RemoveStopwords(s, order) == RemoveStopwordsIntended(s, WordSet(order))
  {
    PatternSubIsWordSub(s, order, WordSet(order), false);
  }

  /** The order of the alternatives does not matter: two orders of the same words give the same result. */
  lemma OrderIrrelevant(s: string, order1: seq<string>, order2: seq<string>)
    requires PlainOrder(order1) && PlainOrder(order2)
    requires WordSet(order1) == WordSet(order2)
    ensures RemoveStopwords(s, order1) == RemoveStopwords(s, order2)
  {
    RemoveStopwordsMatchesIntended(s, order1);
    RemoveStopwordsMatchesIntended(s, order2);
  }

  /**
    `remove_stopwords` is never longer than its input, and returns it unchanged
    exactly when it holds no whole-word occurrence.
  */
  lemma RemoveStopwordsUnchanged(s: string, order: seq<string>)
    requires PlainOrder(order)
    ensures |RemoveStopwords(s, order)| <= |s|
    ensures RemoveStopwords(s, order) == s <==> !HasWholeWord(s, WordSet(order), false)
  {
    RemoveStopwordsMatchesIntended(s, order);
  }

  /** The output has no whole-word occurrence, so a second call returns it unchanged. */
  lemma RemoveStopwordsIdempotent(s: string, order: seq<string>)
    requires PlainOrder(order)
    ensures !HasWholeWord(RemoveStopwords(s, order), WordSet(order), false)
    ensures RemoveStopwords(RemoveStopwords(s, order), order) == RemoveStopwords(s, order)
  {
    RemoveStopwordsMatchesIntended(s, order);
    RemoveStopwordsMatchesIntended(RemoveStopwords(s, order), order);
  }

  // Building blocks for the worked examples.

  /** A whitespace run at the start is copied, and after it the previous character is not a word character. */
  lemma {:induction false} WordSubSpaces(t: string, k: nat, sw: set<string>, afterWord: bool)
    requires k <= |t|
    requires forall i :: 0 <= i < k ==> IsSpace(t[i])
    ensures WordSub(t, sw, afterWord) == t[..k] + WordSub(t[k..], sw, if k == 0 then afterWord else false)
    decreases k
  {
    if k == 0 {
      assert t[0..] == t;
    } else {
      var rest := WordSub(t[k..], sw, false);
      assert WordSub(t, sw, afterWord) == [t[0]] + WordSub(t[1..], sw, false) by {
        TokenEmpty(t);
        WordSubCopy(t, sw, afterWord);
      }
      assert WordSub(t[1..], sw, false) == t[1..][..k - 1] + rest by {
        WordSubSpaces(t[1..], k - 1, sw, false);
        assert t[1..][k - 1..] == t[k..];
      }
      PrefixStep(t, k, rest, WordSub(t, sw, afterWord), WordSub(t[1..], sw, false));
    }
  }

  /** The rest of a word is copied when a word character comes before it. */
  lemma {:induction false} WordSubWordTail(t: string, k: nat, sw: set<string>)
    requires k <= |t|
    requires forall i :: 0 <= i < k ==> IsWordChar(t[i])
    ensures WordSub(t, sw, true) == t[..k] + WordSub(t[k..], sw, true)
    decreases k
  {
    if k == 0 {
      assert t[0..] == t;
    } else {
      WordSubCopy(t, sw, true);
      WordSubWordTail(t[1..], k - 1, sw);
      assert t[1..][k - 1..] == t[k..];
      PrefixStep(t, k, WordSub(t[k..], sw, true), WordSub(t, sw, true), WordSub(t[1..], sw, true));
    }
  }

  /** A whole word that is not a stopword is copied. */
  lemma WordSubKept(t: string, k: nat, sw: set<string>)
    requires 0 < k <= |t| && PlainWord(t[..k]) && t[..k] !in sw
    requires k == |t| || !IsWordChar(t[k])
    ensures WordSub(t, sw, false) == t[..k] + WordSub(t[k..], sw, true)
  {
    assert t == t[..k] + t[k..];
    TokenIs(t[..k], t[k..]);
    WordSubCopy(t, sw, false);
    assert IsWordChar(t[..k][0]);
    WordSubWordTail(t[1..], k - 1, sw);
    assert t[1..][k - 1..] == t[k..];
    PrefixStep(t, k, WordSub(t[k..], sw, true), WordSub(t, sw, false), WordSub(t[1..], sw, true));
  }

  /** A whole stopword is replaced, together with the whitespace run after it, by one space. */
  lemma WordSubRemoved(t: string, k: nat, m: nat, sw: set<string>)
    requires 0 < k <= m <= |t| && PlainWord(t[..k]) && t[..k] in sw
    requires forall i :: k <= i < m ==> IsSpace(t[i])
    requires m == |t| || !IsSpace(t[m])
    requires k < m || m == |t| || !IsWordChar(t[m])
    ensures WordSub(t, sw, false) == " " + WordSub(t[m..], sw, k == m)
  {
    assert t == t[..k] + t[k..];
    TokenIs(t[..k], t[k..]);
    SpanExact(t[k..], IsSpace, m - k);
    assert t[m - 1] == if k == m then t[..k][k - 1] else t[m - 1];
    WordSubReplace(t, sw, false, m);
  }

  /** A word that is not a stopword is copied with the whitespace run after it. */
  lemma KeptThenSpaces(x: string, sp: string, rest: string, sw: set<string>)
    requires PlainWord(x) && x !in sw
    requires sp != [] && forall i :: 0 <= i < |sp| ==> IsSpace(sp[i])
    ensures WordSub(x + sp + rest, sw, false) == x + sp + WordSub(rest, sw, false)
  {
    var t := x + sp + rest;
    var u := sp + rest;
    assert t[..|x|] == x && t[|x|..] == u && t[|x|] == sp[0];
    WordSubKept(t, |x|, sw);
    assert u[..|sp|] == sp && u[|sp|..] == rest;
    WordSubSpaces(u, |sp|, sw, true);
    AppendAssoc(x, sp, WordSub(rest, sw, false), WordSub(t, sw, false), WordSub(u, sw, true));
  }

  /** A stopword and the whitespace run after it become one space. */
  lemma RemovedThenRest(w: string, sp: string, rest: string, sw: set<string>)
    requires PlainWord(w) && w in sw
    requires forall i :: 0 <= i < |sp| ==> IsSpace(sp[i])
    requires rest == [] || !IsSpace(rest[0])
    requires sp != [] || rest == [] || !IsWordChar(rest[0])
    ensures WordSub(w + sp + rest, sw, false) == " " + WordSub(rest, sw, sp == [])
  {
    var t := w + sp + rest;
    assert t[..|w|] == w && t[|w| + |sp|..] == rest;
    assert forall i :: |w| <= i < |w| + |sp| ==> t[i] == sp[i - |w|];
    WordSubRemoved(t, |w|, |w| + |sp|, sw);
  }

  /** A stopword on its own becomes one space, on tokens. */
  lemma StandaloneWordSub(w: string, sw: set<string>)
    requires PlainWord(w) && w in sw
    ensures WordSub(w, sw, false) == " "
  {
    assert w + [] + [] == w;
    RemovedThenRest(w, [], [], sw);
  }

  /** A stopword on its own becomes one space. */
  lemma StandaloneWord(w: string, order: seq<string>)
    requires PlainOrder(order) && w in order
    ensures RemoveStopwords(w, order) == " "
  {
    RemoveStopwordsMatchesIntended(w, order);
    StandaloneWordSub(w, WordSet(order));
  }

  /** A word that is not a stopword is kept whole, even where a stopword occurs inside it. */
  lemma KeptWord(w: string, order: seq<string>)
    requires PlainOrder(order) && PlainWord(w) && w !in order
    ensures RemoveStopwords(w, order) == w
  {
    RemoveStopwordsMatchesIntended(w, order);
    assert w[..|w|] == w;
    WordSubKept(w, |w|, WordSet(order));
  }

  /** The whitespace before a stopword stays and the stopword becomes one space. */
  lemma WordBeforeStopword(x: string, sp: string, w: string, order: seq<string>)
    requires PlainOrder(order) && PlainWord(x) && x !in order && w in order
    requires sp != [] && forall i :: 0 <= i < |sp| ==> IsSpace(sp[i])
    ensures RemoveStopwords(x + sp + w, order) == x + sp + " "
  {
    var sw := WordSet(order);
    var s := x + sp + w;
    assert RemoveStopwords(s, order) == WordSub(s, sw, false) && PlainWord(w) by {
      RemoveStopwordsMatchesIntended(s, order);
    }
    assert WordSub(s, sw, false) == x + sp + WordSub(w, sw, false) by {
      KeptThenSpaces(x, sp, w, sw);
    }
    StandaloneWordSub(w, sw);
  }

  /** Two stopwords in a row: the whole whitespace run between them goes with the first. */
  lemma StopwordPair(w: string, sp: string, v: string, order: seq<string>)
    requires PlainOrder(order) && w in order && v in order
    requires sp != [] && forall i :: 0 <= i < |sp| ==> IsSpace(sp[i])
    ensures RemoveStopwords(w + sp + v, order) == "  "
  {
    var sw := WordSet(order);
    var s := w + sp + v;
    assert RemoveStopwords(s, order) == WordSub(s, sw, false) && PlainWord(w) && PlainWord(v) by {
      RemoveStopwordsMatchesIntended(s, order);
    }
    assert WordSub(s, sw, false) == " " + WordSub(v, sw, false) by {
      RemovedThenRest(w, sp, v, sw);
    }
    StandaloneWordSub(v, sw);
  }

  /** Whole words only: `an` inside `banana` is not removed. */
  lemma SubwordExample(s: string, order: seq<string>)
    requires s == "banana" && order == ["an"]
    ensures RemoveStopwords(s, order) == s
  {
    KeptWord(s, order);
  }

  /**
    Matching is case-sensitive: in `The the` the capitalised word is not the
    stopword `the` and stays, with the space after it; the final `the` becomes
    one space.
  */
  lemma CaseSensitiveExample(s: string, order: seq<string>)
    requires s == "The the" && order == ["the"]
    ensures RemoveStopwords(s, order) == "The  "
  {
    assert s == "The" + " " + "the";
    WordBeforeStopword("The", " ", "the", order);
  }

  /** `the`, a tab and a newline, and `the` again become two spaces. */
  lemma RepeatedWordExample(s: string, order: seq<string>)
    requires s == "the \t\nthe" && order == ["the"]
    ensures RemoveStopwords(s, order) == "  "
  {
    assert s == "the" + " \t\n" + "the";
    StopwordPair("the", " \t\n", "the", order);
  }

  /** A stopword, one space and a kept word with one space after it. */
  lemma StopThenKept(w: string, x: string, rest: string, sw: set<string>)
    requires PlainWord(w) && w in sw && PlainWord(x) && x !in sw
    ensures WordSub(w + " " + (x + " " + rest), sw, false) == " " + (x + " " + WordSub(rest, sw, false))
  {
    RemovedThenRest(w, " ", x + " " + rest, sw);
    KeptThenSpaces(x, " ", rest, sw);
  }

  /** Two stopwords, each with one space after it, become two spaces. */
  lemma TwoStops(w: string, v: string, rest: string, sw: set<string>)
    requires PlainWord(w) && w in sw && PlainWord(v) && v in sw
    requires rest == [] || !IsSpace(rest[0])
    ensures WordSub(w + " " + (v + " " + rest), sw, false) == " " + (" " + WordSub(rest, sw, false))
  {
    RemovedThenRest(w, " ", v + " " + rest, sw);
    RemovedThenRest(v, " ", rest, sw);
  }

  /** A character that is neither a word character nor whitespace is copied after a word. */
  lemma OtherCopied(c: char, sw: set<string>)
    requires IsOther(c)
    ensures WordSub([c], sw, true) == [c]
  {
    WordSubCopy([c], sw, true);
    assert [c][1..] == [];
  }

  /** A stopword followed directly by punctuation: the stopword becomes one space. */
  lemma StopThenOther(v: string, c: char, sw: set<string>)
    requires PlainWord(v) && v in sw && IsOther(c)
    ensures WordSub(v + [c], sw, false) == " " + [c]
  {
    assert v + [] + [c] == v + [c];
    RemovedThenRest(v, [], [c], sw);
    OtherCopied(c, sw);
  }

  /** Two stopwords, the second followed directly by a full stop. */
  lemma TwoStopsThenStop(w: string, v: string, sw: set<string>)
    requires PlainWord(w) && w in sw && PlainWord(v) && v in sw
    ensures WordSub(w + " " + (v + "."), sw, false) == " " + (" " + ".")
  {
    assert WordSub(w + " " + (v + "."), sw, false) == " " + WordSub(v + ".", sw, false) by {
      RemovedThenRest(w, " ", v + ".", sw);
    }
    assert WordSub(v + ".", sw, false) == " " + "." by {
      StopThenOther(v, '.', sw);
    }
  }

  /** The results of the steps of `SentenceShape`, joined. */
  lemma JoinSentence(b: string, e: string, r0: string, r1: string, r2: string, r3: string)
    requires r0 == " " + (b + " " + r1) && r1 == " " + (" " + r2) && r2 == e + " " + r3 && r3 == " " + (" " + ".")
    ensures r0 == " " + b + "   " + e + "   ."
  {
  }

  /**
    A sentence of the shape `a b c d e f g.` where `b` and `e` are kept and the
    other five words are stopwords, such as `this list has many stopwords like
    that.`: each stopword goes with the single space after it, so between two
    kept words the space that preceded the stopwords stays and each of the two
    stopwords adds one, leaving three spaces.
  */
  lemma SentenceShape(a: string, b: string, c: string, d: string, e: string, f: string, g: string, order: seq<string>)
    requires PlainOrder(order)
    requires a in order && c in order && d in order && f in order && g in order
    requires PlainWord(b) && b !in order && PlainWord(e) && e !in order
    ensures RemoveStopwords(a + " " + (b + " " + (c + " " + (d + " " + (e + " " + (f + " " + (g + ".")))))), order)
      == " " + b + "   " + e + "   ."
  {
    var sw := WordSet(order);
    var r3 := f + " " + (g + ".");
    var r2 := e + " " + r3;
    var r1 := c + " " + (d + " " + r2);
    var r0 := a + " " + (b + " " + r1);
    RemoveStopwordsMatchesIntended(r0, order);
    StopThenKept(a, b, r1, sw);
    TwoStops(c, d, r2, sw);
    KeptThenSpaces(e, " ", r3, sw);
    TwoStopsThenStop(f, g, sw);
    JoinSentence(b, e, WordSub(r0, sw, false), WordSub(r1, sw, false), WordSub(r2, sw, false), WordSub(r3, sw, false));
  }

  // The empty word set.

  /** With no words the pattern is `\b()\b\s*`; text without word characters has no boundary and is copied. */
  lemma {:induction false} EmptyPatternCopies(t: string, mustAdvance: bool)
    requires forall i :: 0 <= i < |t| ==> !IsWordChar(t[i])
    ensures PatternSub(t, [""], false, mustAdvance) == t
    decreases |t|
  {
    assert !Boundary(false, t);
    if t != [] {
      EmptyPatternCopies(t[1..], false);
    }
  }

  /** `\b()\b\s*` matches the empty string before the first word character and inserts a space there. */
  lemma {:induction false} EmptyPatternChanges(t: string)
    requires exists i :: 0 <= i < |t| && IsWordChar(t[i])
    ensures PatternSub(t, [""], false, false) != t
    decreases |t|
  {
    var r := PatternSub(t, [""], false, false);
    if IsWordChar(t[0]) {
      assert Accepts(t, "", false, false) && t[0..] == t;
      assert r[0] == ' ';
    } else {
      assert !Boundary(false, t);
      var i :| 0 <= i < |t| && IsWordChar(t[i]);
      assert t[1..][i - 1] == t[i];
      EmptyPatternChanges(t[1..]);
      assert r == [t[0]] + PatternSub(t[1..], [""], false, false);
    }
  }

  /**
    As written, an empty word set is not a no-op: the text is returned unchanged
    exactly when it has no word character at all.
  */
  lemma EmptySetAsWritten(s: string)
    ensures RemoveStopwords(s, []) == s <==> forall i :: 0 <= i < |s| ==> !IsWordChar(s[i])
  {
    if exists i :: 0 <= i < |s| && IsWordChar(s[i]) {
      EmptyPatternChanges(s);
    } else {
      EmptyPatternCopies(s, false);
    }
  }

  /** As written, `ab` with no stopwords becomes ` ab `: a space at each of its two word boundaries. */
  lemma EmptySetExample(s: string)
    requires s == "ab"
    ensures RemoveStopwords(s, []) == " ab "
  {
    var alts := Alternatives([]);
    assert Accepts(s, "", false, false) && s[0..] == s;
    assert MatchAt(s, alts, false, false) == Some(0);
    assert MatchAt(s, alts, false, true) == None;
    assert s[1..] == "b" && !Boundary(true, s[1..]);
    assert MatchAt(s[1..], alts, true, false) == None;
    assert s[1..][1..] == [];
    assert Accepts([], "", true, false);
    assert MatchAt([], alts, true, false) == Some(0);
    assert MatchAt([], alts, true, true) == None;
    assert PatternSub([], alts, true, true) == [];
    assert PatternSub([], alts, true, false) == " ";
    assert PatternSub(s[1..], alts, true, false) == "b ";
    assert PatternSub(s, alts, false, true) == "ab ";
  }
}
