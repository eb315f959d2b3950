/**
  `replace_digits`: `re.sub("^\d+\s|\s\d+\s|\s\d+$", " ", s)`. Only a run of
  digits with whitespace (or an edge of the text) on both sides is replaced, and
  the whitespace the match takes with it goes too: each match becomes one space.
  Digits inside words stay, and since matches do not overlap, of two digit
  tokens separated by a single space only the first is replaced.
*/
module Digits {
  import opened CharClasses

  /** Neither a digit nor whitespace: the characters `replace_digits` never touches. */
  predicate IsUntouched(c: char) { !IsDigit(c) && !IsSpace(c) }

  /**
    A digit run from `i` to `j` with whitespace or an edge of the text on each
    side, not the whole text: the runs the pattern is written to find.
  */
  predicate DelimitedRun(s: string, i: int, j: int)
  {
    && 0 <= i < j <= |s|
    && (forall k :: i <= k < j ==> IsDigit(s[k]))
    && (i == 0 || IsSpace(s[i - 1]))
    && (j == |s| || IsSpace(s[j]))
    && (i > 0 || j < |s|)
  }

  ghost predicate HasDelimitedRun(s: string)
  {
    exists i, j :: DelimitedRun(s, i, j)
  }

  /**
    `^\d+\s`, which can only match at the very start of the text: the length of the
    match, or 0. The greedy `\d+` can only be followed by whitespace at the end of
    the digit run.
  */
  function LeadingMatch(s: string): (n: nat)
    ensures n <= |s|
    ensures n > 0 ==> n >= 2 && IsSpace(s[n - 1]) && forall k :: 0 <= k < n - 1 ==> IsDigit(s[k])
  {
    var k := Span(s, IsDigit);
    if 0 < k < |s| && IsSpace(s[k]) then k + 1 else 0
  }

  /**
    `\s\d+\s|\s\d+$` at the start of `t`: the length of the match, or 0. `$` also
    matches just before a final line feed, but a line feed is whitespace, so the
    second alternative has always matched first there.
  */
  function InnerMatch(t: string): (n: nat)
    ensures n <= |t|
    ensures n > 0 ==> n >= 2 && IsSpace(t[0]) && forall k :: 1 <= k < n - 1 ==> IsDigit(t[k])
    ensures n > 0 ==> IsDigit(t[n - 1]) || IsSpace(t[n - 1])
  {
    if t == [] || !IsSpace(t[0]) then 0
    else
      var k := Span(t[1..], IsDigit);
      if k == 0 then 0
      else if k + 1 < |t| && IsSpace(t[k + 1]) then k + 2
      else if k + 1 == |t| || (k + 1 == |t| - 1 && t[k + 1] == '\n') then k + 1
      else 0
  }

  /** The scan of `re.sub` after the start of the text, where only the last two alternatives can match. */
  function ReplaceRest(t: string): (r: string)
    ensures |r| <= |t|
    decreases |t|
  {
    if t == [] then []
    else
      var n := InnerMatch(t);
      if n > 0 then " " + ReplaceRest(t[n..]) else [t[0]] + ReplaceRest(t[1..])
  }

  /** `replace_digits`: at the start of the text all three alternatives are tried, `^\d+\s` first. */
  function ReplaceDigits(s: string): (r: string)
    ensures |r| <= |s|
  {
    var n := LeadingMatch(s);
    if n > 0 then " " + ReplaceRest(s[n..]) else ReplaceRest(s)
  }

  /** Some match is found in `t` by the inner alternatives. */
  predicate InnerMatchSomewhere(t: string)
  {
    exists p :: 0 <= p < |t| && InnerMatch(t[p..]) > 0
  }

  /** The run that the inner alternatives match: whitespace, then a delimited digit run. */
  lemma InnerMatchIsRun(s: string, p: int)
    requires 0 <= p < |s| && InnerMatch(s[p..]) > 0
    ensures DelimitedRun(s, p + 1, p + InnerMatch(s[p..]) - (if IsSpace(s[p + InnerMatch(s[p..]) - 1]) then 1 else 0))
  {
    var t := s[p..];
    var k := Span(t[1..], IsDigit);
    assert forall m :: 1 <= m <= k ==> IsDigit(t[m]);
  }

  /** Where a delimited run starts after whitespace, the inner alternatives match at that whitespace. */
  lemma RunIsInnerMatch(s: string, i: int, j: int)
    requires DelimitedRun(s, i, j) && i > 0
    ensures InnerMatch(s[i - 1..]) > 0
  {
    var t := s[i - 1..];
    SpanExact(t[1..], IsDigit, j - i);
  }

  /** A delimited run at the very start is what `^\d+\s` matches. */
  lemma RunIsLeadingMatch(s: string, j: int)
    requires DelimitedRun(s, 0, j)
    ensures LeadingMatch(s) == j + 1
  {
    SpanExact(s, IsDigit, j);
  }

  /** Every match of the scan replaces at least two characters by one. */
  lemma {:induction false} RestShortens(t: string)
    requires InnerMatchSomewhere(t)
    ensures |ReplaceRest(t)| < |t|
    decreases |t|
  {
    var p :| 0 <= p < |t| && InnerMatch(t[p..]) > 0;
    if InnerMatch(t) == 0 {
      assert p != 0 && t[0..] == t;
      assert t[1..][p - 1..] == t[p..];
      RestShortens(t[1..]);
    }
  }

  /** Where the inner alternatives match nowhere, the scan copies the text. */
  lemma {:induction false} RestUnchanged(t: string)
    requires forall p :: 0 <= p < |t| ==> InnerMatch(t[p..]) == 0
    ensures ReplaceRest(t) == t
    decreases |t|
  {
    if t != [] {
      assert InnerMatch(t[0..]) == 0 && t[0..] == t;
      forall p | 0 <= p < |t| - 1
        ensures InnerMatch(t[1..][p..]) == 0
      {
        assert t[1..][p..] == t[p + 1..];
      }
      RestUnchanged(t[1..]);
    }
  }

  /** A text is returned unchanged exactly when it holds no delimited digit run. */
  lemma ReplaceDigitsUnchanged(s: string)
    ensures ReplaceDigits(s) == s <==> !HasDelimitedRun(s)
  {
    if HasDelimitedRun(s) {
      var i, j :| DelimitedRun(s, i, j);
      if i == 0 {
        RunIsLeadingMatch(s, j);
      } else {
        RunIsInnerMatch(s, i, j);
        if LeadingMatch(s) == 0 {
          RestShortens(s);
        }
      }
    } else {
      forall p | 0 <= p < |s|
        ensures InnerMatch(s[p..]) == 0
      {
        if InnerMatch(s[p..]) > 0 {
          InnerMatchIsRun(s, p);
        }
      }
      if LeadingMatch(s) > 0 {
        var n := LeadingMatch(s);
        assert DelimitedRun(s, 0, n - 1);
      }
      RestUnchanged(s);
    }
  }

  /** Text without whitespace, such as `abc123` or `12`, is never changed. */
  lemma NoSpaceUnchanged(s: string)
    requires forall k :: 0 <= k < |s| ==> !IsSpace(s[k])
    ensures ReplaceDigits(s) == s
  {
    forall p | 0 <= p < |s|
      ensures InnerMatch(s[p..]) == 0
    {
      assert s[p..][0] == s[p];
    }
    RestUnchanged(s);
  }

  /** Only digits and whitespace are touched: every other character is kept, in order. */
  lemma {:induction false} RestKeepsUntouched(t: string)
    ensures Filter(ReplaceRest(t), IsUntouched) == Filter(t, IsUntouched)
    decreases |t|
  {
    if t != [] {
      var n := InnerMatch(t);
      if n > 0 {
        RestKeepsUntouched(t[n..]);
        FilterSkipPrefix(t, n, IsUntouched);
      } else {
        RestKeepsUntouched(t[1..]);
      }
    }
  }

  /** Only digits and whitespace are touched: every other character is kept, in order. */
  lemma ReplaceDigitsKeepsUntouched(s: string)
    ensures Filter(ReplaceDigits(s), IsUntouched) == Filter(s, IsUntouched)
  {
    var n := LeadingMatch(s);
    RestKeepsUntouched(s[n..]);
    RestKeepsUntouched(s);
    if n > 0 {
      FilterSkipPrefix(s, n, IsUntouched);
    }
  }

  /** The two steps of the scan at a non-empty text. */
  lemma ReplaceRestHead(t: string)
    requires t != []
    ensures InnerMatch(t) > 0 ==> ReplaceRest(t) == " " + ReplaceRest(t[InnerMatch(t)..])
    ensures InnerMatch(t) == 0 ==> ReplaceRest(t) == [t[0]] + ReplaceRest(t[1..])
  {
  }

  /**
    A match at the head of `a` stops inside `a` when `a` ends with a character
    that is neither a digit nor whitespace, so what follows `a` does not change it.
  */
  lemma InnerMatchAppend(a: string, b: string)
    requires a != [] && IsUntouched(a[|a| - 1])
    ensures InnerMatch(a + b) == InnerMatch(a)
  {
    assert (a + b)[0] == a[0];
    if IsSpace(a[0]) {
      DropAppend(a, b, 1);
      SpanAppend(a[1..], b, IsDigit);
      var k := Span(a[1..], IsDigit);
      assert (a + b)[k + 1] == a[k + 1];
    }
  }

  /** A match at the head of `a` is replaced the same way when `b` follows. */
  lemma MatchHeadAppend(a: string, b: string, n: nat)
    requires a != [] && IsUntouched(a[|a| - 1])
    requires n == InnerMatch(a) && n > 0
    ensures n < |a|
    ensures ReplaceRest(a + b) == " " + ReplaceRest(a[n..] + b)
  {
    assert n < |a| by {
      assert IsDigit(a[n - 1]) || IsSpace(a[n - 1]);
    }
    assert InnerMatch(a + b) == n by {
      InnerMatchAppend(a, b);
    }
    assert ReplaceRest(a + b) == " " + ReplaceRest((a + b)[n..]) by {
      ReplaceRestHead(a + b);
    }
    DropAppend(a, b, n);
  }

  /** With no match at its head, the first character of `a` is copied when `b` follows. */
  lemma CopyHeadAppend(a: string, b: string)
    requires a != [] && IsUntouched(a[|a| - 1])
    requires InnerMatch(a) == 0
    ensures ReplaceRest(a + b) == [a[0]] + ReplaceRest(a[1..] + b)
  {
    InnerMatchAppend(a, b);
    ReplaceRestHead(a + b);
    DropAppend(a, b, 1);
  }

  /** The cut after a match at the head of `a`: the split of the rest gives the split of `a + b`. */
  lemma MatchStepSplit(a: string, b: string, n: nat)
    requires a != [] && IsUntouched(a[|a| - 1])
    requires n == InnerMatch(a) && 0 < n < |a|
    requires ReplaceRest(a[n..] + b) == ReplaceRest(a[n..]) + ReplaceRest(b)
    ensures ReplaceRest(a + b) == ReplaceRest(a) + ReplaceRest(b)
  {
    assert ReplaceRest(a + b) == " " + ReplaceRest(a[n..] + b) by {
      MatchHeadAppend(a, b, n);
    }
    assert ReplaceRest(a) == " " + ReplaceRest(a[n..]) by {
      ReplaceRestHead(a);
    }
    AppendAssoc(" ", ReplaceRest(a[n..]), ReplaceRest(b), ReplaceRest(a + b), ReplaceRest(a[n..] + b));
  }

  /** The cut after a copied first character of `a`, when more of `a` follows it. */
  lemma CopyStepSplit(a: string, b: string)
    requires |a| >= 2 && IsUntouched(a[|a| - 1])
    requires InnerMatch(a) == 0
    requires ReplaceRest(a[1..] + b) == ReplaceRest(a[1..]) + ReplaceRest(b)
    ensures ReplaceRest(a + b) == ReplaceRest(a) + ReplaceRest(b)
  {
    assert ReplaceRest(a + b) == [a[0]] + ReplaceRest(a[1..] + b) by {
      CopyHeadAppend(a, b);
    }
    assert ReplaceRest(a) == [a[0]] + ReplaceRest(a[1..]) by {
      ReplaceRestHead(a);
    }
    AppendAssoc([a[0]], ReplaceRest(a[1..]), ReplaceRest(b), ReplaceRest(a + b), ReplaceRest(a[1..] + b));
  }

  /**
    A match never reaches past a character that is neither a digit nor
    whitespace, so the text can be cut after any such character and each part
    scanned on its own.
  */
  lemma {:induction false} ReplaceRestSplit(a: string, b: string)
    requires a != [] && IsUntouched(a[|a| - 1])
    ensures ReplaceRest(a + b) == ReplaceRest(a) + ReplaceRest(b)
    decreases |a|
  {
    var n := InnerMatch(a);
    if n > 0 {
      assert n < |a| by {
        MatchHeadAppend(a, b, n);
      }
      var rest := a[n..];
      assert rest != [] && IsUntouched(rest[|rest| - 1]) by {
        assert rest[|rest| - 1] == a[|a| - 1];
      }
      assert ReplaceRest(rest + b) == ReplaceRest(rest) + ReplaceRest(b) by {
        ReplaceRestSplit(rest, b);
      }
      MatchStepSplit(a, b, n);
    } else if |a| == 1 {
      assert ReplaceRest(a + b) == [a[0]] + ReplaceRest(b) by {
        CopyHeadAppend(a, b);
        assert a[1..] + b == b;
      }
      assert ReplaceRest(a) == [a[0]] by {
        ReplaceRestHead(a);
      }
    } else {
      var rest := a[1..];
      assert rest != [] && IsUntouched(rest[|rest| - 1]) by {
        assert rest[|rest| - 1] == a[|a| - 1];
      }
      assert ReplaceRest(rest + b) == ReplaceRest(rest) + ReplaceRest(b) by {
        ReplaceRestSplit(rest, b);
      }
      CopyStepSplit(a, b);
    }
  }

  /**
    The same cut for the whole transform: the part after the cut is no longer at
    the start of the text, so only the inner alternatives apply to it.
  */
  lemma ReplaceDigitsSplit(a: string, b: string)
    requires a != [] && IsUntouched(a[|a| - 1])
    ensures ReplaceDigits(a + b) == ReplaceDigits(a) + ReplaceRest(b)
  {
    var n := LeadingMatch(a);
    assert LeadingMatch(a + b) == n by {
      SpanAppend(a, b, IsDigit);
      assert (a + b)[Span(a, IsDigit)] == a[Span(a, IsDigit)];
    }
    if n > 0 {
      DropAppend(a, b, n);
      ReplaceRestSplit(a[n..], b);
      AppendAssoc(" ", ReplaceRest(a[n..]), ReplaceRest(b), ReplaceDigits(a + b), ReplaceRest(a[n..] + b));
    } else {
      ReplaceRestSplit(a, b);
    }
  }

  /**
    A word without whitespace is copied whole, digits included: no match can
    start inside it, because every match starts with whitespace.
  */
  lemma {:induction false} WordCopied(w: string, b: string)
    requires forall k :: 0 <= k < |w| ==> !IsSpace(w[k])
    ensures ReplaceRest(w + b) == w + ReplaceRest(b)
    decreases |w|
  {
    if w == [] {
      assert w + b == b;
    } else {
      assert ReplaceRest(w + b) == [w[0]] + ReplaceRest(w[1..] + b) by {
        assert (w + b)[0] == w[0];
        ReplaceRestHead(w + b);
        DropAppend(w, b, 1);
      }
      assert ReplaceRest(w[1..] + b) == w[1..] + ReplaceRest(b) by {
        WordCopied(w[1..], b);
      }
      AppendAssoc([w[0]], w[1..], ReplaceRest(b), ReplaceRest(w + b), ReplaceRest(w[1..] + b));
      assert [w[0]] + w[1..] == w;
    }
  }

  /**
    At the start of the text, a word without whitespace that does not start with
    a digit is copied whole, digits included.
  */
  lemma DigitsInWordKept(w: string, b: string)
    requires w != [] && !IsDigit(w[0])
    requires forall k :: 0 <= k < |w| ==> !IsSpace(w[k])
    ensures ReplaceDigits(w + b) == w + ReplaceRest(b)
  {
    assert LeadingMatch(w + b) == 0 by {
      assert (w + b)[0] == w[0];
    }
    WordCopied(w, b);
  }

  /** `2 b` holds no match of the inner alternatives: its digit has no whitespace before it. */
  lemma DigitAtStartKept(t: string)
    requires t == "2 b"
    ensures ReplaceRest(t) == t
  {
    assert t[1..] == " b" && t[1..][1..] == "b";
    assert InnerMatch(t[1..]) == 0;
    assert ReplaceRest(t[1..][1..]) == "b";
  }

  /** ` 1 2 b`: the match ` 1 ` takes the space that `2` would need. */
  lemma FirstRunTakesSpace(u: string)
    requires u == " 1 2 b"
    ensures ReplaceRest(u) == " 2 b"
  {
    assert u[1..] == "1 2 b" && u[3..] == "2 b";
    SpanExact(u[1..], IsDigit, 1);
    assert InnerMatch(u) == 3;
    DigitAtStartKept(u[3..]);
  }

  /**
    Matches do not overlap: the space after `1` is consumed by the first match, so
    the `2` that follows has no whitespace of its own in front and is kept,
    although it is a delimited run of the input too.
  */
  lemma NonOverlapExample(s: string)
    requires s == "a 1 2 b"
    ensures DelimitedRun(s, 2, 3) && DelimitedRun(s, 4, 5)
    ensures ReplaceDigits(s) == "a 2 b"
  {
    assert ReplaceDigits(s) == [s[0]] + ReplaceRest(s[1..]) by {
      assert LeadingMatch(s) == 0 && InnerMatch(s) == 0;
    }
    assert ReplaceRest(s[1..]) == " 2 b" by {
      assert s[1..] == " 1 2 b";
      FirstRunTakesSpace(s[1..]);
    }
    assert DelimitedRun(s, 2, 3) && DelimitedRun(s, 4, 5) by {
      assert s[1] == ' ' && s[2] == '1' && s[3] == ' ' && s[4] == '2' && s[5] == ' ';
    }
  }

  /** Digits inside words are not replaced. */
  lemma DigitsInWordsExample(s: string)
    requires s == "a1 2b"
    ensures ReplaceDigits(s) == s
  {
    forall i, j | 0 <= i < j <= |s|
      ensures !DelimitedRun(s, i, j)
    {
      if i != 1 && i != 3 {
        assert !IsDigit(s[i]);
      } else if i == 1 {
        assert !IsSpace(s[0]);
      } else if j == 4 {
        assert !IsSpace(s[4]);
      } else {
        assert !IsDigit(s[4]);
      }
    }
    ReplaceDigitsUnchanged(s);
  }

  /** In `a1 2` the `1` inside the word stays, while the delimited `2` at the end is replaced. */
  lemma WordThenDigitsExample(s: string)
    requires s == "a1 2"
    ensures ReplaceDigits(s) == "a1 "
  {
    assert s == "a1" + " 2";
    DigitsInWordKept("a1", " 2");
    assert ReplaceRest(" 2") == " " by {
      SpanExact(" 2"[1..], IsDigit, 1);
      assert InnerMatch(" 2") == 2;
    }
  }
}
