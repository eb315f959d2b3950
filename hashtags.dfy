/**
  `remove_hashtags`: `re.sub("#[A-Za-z0-9_]+", " ", s)`. Each `#` followed by a
  maximal run of tag characters `[A-Za-z0-9_]` becomes one space; a `#` not
  followed by a tag character stays.
*/
module Hashtags {
  import opened CharClasses

  /**
    Length of the match of `#[A-Za-z0-9_]+` at the start of `s`, or 0 when it does
    not match there (the pattern never matches the empty string). The `+` is
    greedy, so a match runs to the end of the tag characters.
  */
  function TagLength(s: string): (n: nat)
    ensures n <= |s|
    ensures n > 0 <==> |s| >= 2 && s[0] == '#' && IsWordChar(s[1])
    ensures n > 0 ==> forall k :: 1 <= k < n ==> IsWordChar(s[k])
    ensures n > 0 && n < |s| ==> !IsWordChar(s[n])
  {
    if |s| >= 2 && s[0] == '#' && IsWordChar(s[1]) then 1 + Span(s[1..], IsWordChar) else 0
  }

  /**
    The scan of `re.sub`: try the pattern at the current position; on a match emit
    the replacement and resume after it, otherwise copy one character.
  */
  function RemoveHashtags(s: string): (r: string)
    ensures |r| <= |s|
    decreases |s|
  {
    if s == [] then []
    else
      var n := TagLength(s);
      if n > 0 then " " + RemoveHashtags(s[n..]) else [s[0]] + RemoveHashtags(s[1..])
  }

  /** A hashtag starts at `i`: a `#` followed by a tag character. */
  predicate TagAt(s: string, i: int)
  {
    0 <= i < |s| - 1 && s[i] == '#' && IsWordChar(s[i + 1])
  }

  predicate HasTag(s: string)
  {
    exists i :: 0 <= i < |s| && TagAt(s, i)
  }

  /** The characters a hashtag removal never touches: neither tag characters, nor `#`, nor the space it writes. */
  predicate IsUntouched(c: char)
  {
    !IsWordChar(c) && c != '#' && c != ' '
  }

  /** The output starts with a tag character exactly when the input does. */
  lemma {:induction false} FirstCharKind(s: string)
    requires s != []
    ensures RemoveHashtags(s) != []
    ensures IsWordChar(RemoveHashtags(s)[0]) <==> IsWordChar(s[0])
  {
  }

  /** No `#` in the output is followed by a tag character, so nothing is left to remove. */
  lemma {:induction false} NoTagInOutput(s: string)
    ensures !HasTag(RemoveHashtags(s))
    decreases |s|
  {
    if s != [] {
      var n := TagLength(s);
      var r := RemoveHashtags(s);
      if n > 0 {
        var x := RemoveHashtags(s[n..]);
        NoTagInOutput(s[n..]);
        assert r == " " + x;
        forall i | 0 <= i < |r| - 1
          ensures !TagAt(r, i)
        {
          if i > 0 {
            assert !TagAt(x, i - 1);
          }
        }
      } else {
        var x := RemoveHashtags(s[1..]);
        NoTagInOutput(s[1..]);
        assert r == [s[0]] + x;
        if |s| > 1 {
          FirstCharKind(s[1..]);
        }
        forall i | 0 <= i < |r| - 1
          ensures !TagAt(r, i)
        {
          if i > 0 {
            assert !TagAt(x, i - 1);
          }
        }
      }
    }
  }

  /** Every hashtag makes the text shorter: one space replaces at least two characters. */
  lemma {:induction false} TagShortens(s: string)
    requires HasTag(s)
    ensures |RemoveHashtags(s)| < |s|
    decreases |s|
  {
    var i :| 0 <= i < |s| && TagAt(s, i);
    if TagLength(s) == 0 {
      assert i != 0;
      assert TagAt(s[1..], i - 1);
      TagShortens(s[1..]);
    }
  }

  /** A text is returned unchanged exactly when it holds no hashtag. */
  lemma {:induction false} RemoveHashtagsUnchanged(s: string)
    ensures RemoveHashtags(s) == s <==> !HasTag(s)
    decreases |s|
  {
    if HasTag(s) {
      TagShortens(s);
    } else if s != [] {
      assert !TagAt(s, 0);
      forall i | 0 <= i < |s| - 2
        ensures !TagAt(s[1..], i)
      {
        assert !TagAt(s, i + 1);
      }
      RemoveHashtagsUnchanged(s[1..]);
    }
  }

  /** Removing hashtags twice is the same as removing them once. */
  lemma RemoveHashtagsIdempotent(s: string)
    ensures RemoveHashtags(RemoveHashtags(s)) == RemoveHashtags(s)
  {
    NoTagInOutput(s);
    RemoveHashtagsUnchanged(RemoveHashtags(s));
  }

  /** Every character other than tag characters, `#` and the space is kept, in order. */
  lemma {:induction false} UntouchedKept(s: string)
    ensures Filter(RemoveHashtags(s), IsUntouched) == Filter(s, IsUntouched)
    decreases |s|
  {
    if s != [] {
      var n := TagLength(s);
      if n > 0 {
        UntouchedKept(s[n..]);
        FilterSkipPrefix(s, n, IsUntouched);
      } else {
        UntouchedKept(s[1..]);
      }
    }
  }

  /** A tag inside `a` cannot grow into `b` when `b` starts with a non-tag character. */
  lemma TagLengthAppend(a: string, b: string)
    requires a != [] && (b == [] || !IsWordChar(b[0]))
    ensures TagLength(a + b) == TagLength(a)
  {
    if |a| >= 2 {
      assert (a + b)[1..] == a[1..] + b;
      SpanAppend(a[1..], b, IsWordChar);
    } else if b != [] {
      assert (a + b)[1] == b[0];
    }
  }

  /** A tag at the head of `a` is replaced the same way when `b` follows. */
  lemma TagHeadAppend(a: string, b: string, n: nat)
    requires a != [] && (b == [] || !IsWordChar(b[0]))
    requires n == TagLength(a) && n > 0
    ensures RemoveHashtags(a + b) == " " + RemoveHashtags(a[n..] + b)
  {
    TagLengthAppend(a, b);
    RemoveHashtagsHead(a + b);
    DropAppend(a, b, n);
  }

  /** The two steps of the scan at a non-empty text. */
  lemma RemoveHashtagsHead(t: string)
    requires t != []
    ensures TagLength(t) > 0 ==> RemoveHashtags(t) == " " + RemoveHashtags(t[TagLength(t)..])
    ensures TagLength(t) == 0 ==> RemoveHashtags(t) == [t[0]] + RemoveHashtags(t[1..])
  {
  }

  /** With no tag at its head, the first character of `a` is copied when `b` follows. */
  lemma CopyHeadAppend(a: string, b: string)
    requires a != [] && (b == [] || !IsWordChar(b[0]))
    requires TagLength(a) == 0
    ensures RemoveHashtags(a + b) == [a[0]] + RemoveHashtags(a[1..] + b)
  {
    TagLengthAppend(a, b);
    RemoveHashtagsHead(a + b);
    DropAppend(a, b, 1);
  }

  /**
    A hashtag never reaches past a non-tag character, so the text can be cut in
    front of any such character and each part cleaned on its own.
  */
  lemma {:induction false} RemoveHashtagsSplit(a: string, b: string)
    requires b == [] || !IsWordChar(b[0])
    ensures RemoveHashtags(a + b) == RemoveHashtags(a) + RemoveHashtags(b)
    decreases |a|
  {
    if a == [] {
      assert a + b == b;
    } else {
      var n := TagLength(a);
      var rest := if n > 0 then a[n..] else a[1..];
      RemoveHashtagsSplit(rest, b);
      if n > 0 {
        TagHeadAppend(a, b, n);
        AppendAssoc(" ", RemoveHashtags(rest), RemoveHashtags(b), RemoveHashtags(a + b), RemoveHashtags(rest + b));
      } else {
        CopyHeadAppend(a, b);
        AppendAssoc([a[0]], RemoveHashtags(rest), RemoveHashtags(b), RemoveHashtags(a + b), RemoveHashtags(rest + b));
      }
    }
  }

  /** A `#` followed by a non-tag character stays, and the text on each side is cleaned on its own. */
  lemma HashKeptBetween(a: string, b: string)
    requires b == [] || !IsWordChar(b[0])
    ensures RemoveHashtags(a + "#" + b) == RemoveHashtags(a) + "#" + RemoveHashtags(b)
  {
    assert RemoveHashtags("#" + b) == "#" + RemoveHashtags(b) by {
      RemoveHashtagsSplit("#", b);
      assert RemoveHashtags("#") == "#";
    }
    assert RemoveHashtags(a + "#" + b) == RemoveHashtags(a) + RemoveHashtags("#" + b) by {
      assert a + "#" + b == a + ("#" + b);
      RemoveHashtagsSplit(a, "#" + b);
    }
    AppendAssoc(RemoveHashtags(a), "#", RemoveHashtags(b), RemoveHashtags(a + "#" + b), RemoveHashtags("#" + b));
  }

  /** A `#` and the whole run of tag characters after it become one space; what follows is cleaned on its own. */
  lemma TagRemoved(w: string, rest: string)
    requires w != [] && forall i :: 0 <= i < |w| ==> IsWordChar(w[i])
    requires rest == [] || !IsWordChar(rest[0])
    ensures RemoveHashtags("#" + w + rest) == " " + RemoveHashtags(rest)
  {
    var t := "#" + w + rest;
    assert t[1..] == w + rest;
    SpanExact(w + rest, IsWordChar, |w|);
    assert TagLength(t) == 1 + |w|;
    assert t[1 + |w|..] == rest;
  }

  /** The hashtag and its following punctuation: the tag goes, `-b` stays. */
  lemma RemoveHashtagsExamples()
    ensures RemoveHashtags("#a-b") == " -b"
    ensures RemoveHashtags("##a") == "# "
    ensures RemoveHashtags("#") == "#"
  {
    assert TagLength("#a-b") == 2;
    assert "#a-b"[2..] == "-b";
    assert "##a"[1..] == "#a";
    assert TagLength("#a") == 2;
  }
}
