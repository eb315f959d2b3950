/**
  `remove_url`: `re.sub('http[s]?://\S+', '', s)`. Each `http://` or `https://`
  followed by at least one non-space character is deleted together with the
  whole run of non-space characters after it. The replacement is empty, so the
  whitespace around a URL stays exactly as it was.
*/
module Urls {
  import opened CharClasses

  const HTTP: string := "http://"
  const HTTPS: string := "https://"

  predicate IsNonSpace(c: char) { !IsSpace(c) }

  /** The maximal run of non-space characters at the start of `s`. */
  function LeadingRun(s: string): (t: string)
    ensures t <= s
    ensures forall k :: 0 <= k < |t| ==> !IsSpace(t[k])
    ensures |t| < |s| ==> IsSpace(s[|t|])
  {
    s[..Span(s, IsNonSpace)]
  }

  /**
    Length of the scheme `http[s]?://` at the start of `s`, spelt out character by
    character: 7 for `http://`, 8 for `https://`, 0 for neither.
  */
  function SchemeLength(s: string): (n: nat)
    ensures n == 0 || n == |HTTP| || n == |HTTPS|
    ensures n <= |s|
  {
    if |s| >= 4 && s[0] == 'h' && s[1] == 't' && s[2] == 't' && s[3] == 'p' then
      if |s| >= 7 && s[4] == ':' && s[5] == '/' && s[6] == '/' then 7
      else if |s| >= 8 && s[4] == 's' && s[5] == ':' && s[6] == '/' && s[7] == '/' then 8
      else 0
    else 0
  }

  /**
    `http[s]?://\S+` can match at the start of `s`: a scheme, then at least one
    non-space character.
  */
  predicate UrlStart(s: string)
  {
    var k := SchemeLength(s);
    k > 0 && k < |s| && !IsSpace(s[k])
  }

  /** A URL starts at position `i` of `s`. */
  predicate UrlAt(s: string, i: int)
  {
    0 <= i < |s| && UrlStart(s[i..])
  }

  predicate HasUrl(s: string)
  {
    exists i :: 0 <= i < |s| && UrlAt(s, i)
  }

  /**
    Length of the match of `http[s]?://\S+` at the start of `s`, or 0 when there is
    none. The prefixes hold no space, so the greedy `\S+` makes the match the whole
    leading non-space run; backtracking over `[s]?` never helps, since after
    `http` without the `s` the text must go on with `://`.
  */
  function UrlLength(s: string): (n: nat)
    ensures n <= |s|
    ensures n > 0 <==> UrlStart(s)
    ensures n > 0 ==> n > SchemeLength(s) && forall k :: 0 <= k < n ==> !IsSpace(s[k])
    ensures n > 0 && n < |s| ==> IsSpace(s[n])
  {
    var run := |LeadingRun(s)|;
    if SchemeLength(s) > 0 && run > SchemeLength(s) then run else 0
  }

  /** The character-by-character scheme test is the prefix test against the two literals. */
  lemma SchemeLengthIsPrefix(s: string)
    ensures SchemeLength(s) == |HTTP| <==> HTTP <= s
    ensures SchemeLength(s) == |HTTPS| <==> HTTPS <= s
  {
  }

  /** The scan of `re.sub` with the empty replacement: a URL is skipped, any other character copied. */
  function RemoveUrl(s: string): (r: string)
    ensures |r| <= |s|
    decreases |s|
  {
    if s == [] then []
    else
      var n := UrlLength(s);
      if n > 0 then RemoveUrl(s[n..]) else [s[0]] + RemoveUrl(s[1..])
  }

  /** A URL can only start where its text starts with a prefix that is long enough: lengthening the non-space run keeps it. */
  lemma UrlStartExtends(a: string, b: string)
    requires a <= b
    requires forall k :: 0 <= k < |a| ==> !IsSpace(a[k])
    ensures UrlStart(a) ==> UrlStart(b)
  {
  }

  /** Whether a URL starts at `s` depends only on the leading non-space run. */
  lemma UrlStartRun(s: string)
    ensures UrlStart(s) <==> UrlStart(LeadingRun(s))
  {
    var t := LeadingRun(s);
    if UrlStart(s) {
      assert s[..|HTTP|] == HTTP || s[..|HTTPS|] == HTTPS;
      assert |t| > |HTTP|;
      if HTTP <= s {
        assert forall k :: 0 <= k <= |HTTP| ==> !IsSpace(s[k]);
      } else {
        assert forall k :: 0 <= k <= |HTTPS| ==> !IsSpace(s[k]);
      }
    }
  }

  /** A non-space character in front lengthens the leading run by itself. */
  lemma LeadingRunCons(c: char, t: string)
    requires !IsSpace(c)
    ensures LeadingRun([c] + t) == [c] + LeadingRun(t)
  {
    SpanCons(c, t, IsNonSpace);
    assert ([c] + t)[..1 + Span(t, IsNonSpace)] == [c] + t[..Span(t, IsNonSpace)];
  }

  /** An output that starts with a space starts with that same space. */
  lemma FirstSpaceKept(s: string)
    requires s != [] && IsSpace(s[0])
    ensures RemoveUrl(s) != [] && RemoveUrl(s)[0] == s[0]
  {
    assert !UrlStart(s);
  }

  /** The leading non-space run of the output is a prefix of that of the input. */
  lemma {:induction false} LeadingRunShrinks(s: string)
    ensures LeadingRun(RemoveUrl(s)) <= LeadingRun(s)
    decreases |s|
  {
    if s != [] {
      var n := UrlLength(s);
      if n > 0 {
        if n < |s| {
          FirstSpaceKept(s[n..]);
        }
      } else if !IsSpace(s[0]) {
        LeadingRunShrinks(s[1..]);
        var x := RemoveUrl(s[1..]);
        assert RemoveUrl(s) == [s[0]] + x;
        LeadingRunCons(s[0], x);
        LeadingRunCons(s[0], s[1..]);
        assert [s[0]] + s[1..] == s;
      }
    }
  }

  /** No URL is left in the output. */
  lemma {:induction false} NoUrlInOutput(s: string)
    ensures !HasUrl(RemoveUrl(s))
    decreases |s|
  {
    if s != [] {
      var n := UrlLength(s);
      if n > 0 {
        NoUrlInOutput(s[n..]);
      } else {
        var x := RemoveUrl(s[1..]);
        var r := RemoveUrl(s);
        assert r == [s[0]] + x;
        NoUrlInOutput(s[1..]);
        forall i | 0 <= i < |r|
          ensures !UrlAt(r, i)
        {
          if i == 0 {
            NotUrlStartAtHead(s, x);
          } else {
            assert r[i..] == x[i - 1..];
            assert !UrlAt(x, i - 1);
          }
        }
      }
    }
  }

  /** The first character copied by the scan cannot begin a URL in the output either. */
  lemma NotUrlStartAtHead(s: string, x: string)
    requires s != [] && UrlLength(s) == 0 && x == RemoveUrl(s[1..])
    ensures !UrlStart([s[0]] + x)
  {
    var r := [s[0]] + x;
    if !IsSpace(s[0]) {
      LeadingRunShrinks(s[1..]);
      LeadingRunCons(s[0], x);
      LeadingRunCons(s[0], s[1..]);
      assert [s[0]] + s[1..] == s;
      UrlStartRun(r);
      UrlStartRun(s);
      UrlStartExtends(LeadingRun(r), LeadingRun(s));
    }
  }

  /** Every URL makes the text shorter. */
  lemma {:induction false} UrlShortens(s: string)
    requires HasUrl(s)
    ensures |RemoveUrl(s)| < |s|
    decreases |s|
  {
    var i :| 0 <= i < |s| && UrlAt(s, i);
    if UrlLength(s) == 0 {
      assert i != 0;
      assert s[1..][i - 1..] == s[i..];
      assert UrlAt(s[1..], i - 1);
      UrlShortens(s[1..]);
    }
  }

  /** A text is returned unchanged exactly when it holds no URL. */
  lemma {:induction false} RemoveUrlUnchanged(s: string)
    ensures RemoveUrl(s) == s <==> !HasUrl(s)
    decreases |s|
  {
    if HasUrl(s) {
      UrlShortens(s);
    } else if s != [] {
      assert !UrlAt(s, 0) && s[0..] == s;
      forall i | 0 <= i < |s| - 1
        ensures !UrlAt(s[1..], i)
      {
        assert s[1..][i..] == s[i + 1..];
        assert !UrlAt(s, i + 1);
      }
      RemoveUrlUnchanged(s[1..]);
    }
  }

  /** Removing URLs twice is the same as removing them once. */
  lemma RemoveUrlIdempotent(s: string)
    ensures RemoveUrl(RemoveUrl(s)) == RemoveUrl(s)
  {
    NoUrlInOutput(s);
    RemoveUrlUnchanged(RemoveUrl(s));
  }

  /** The replacement is empty and a URL holds no space: every whitespace character is kept, in order. */
  lemma {:induction false} WhitespaceKept(s: string)
    ensures Filter(RemoveUrl(s), IsSpace) == Filter(s, IsSpace)
    decreases |s|
  {
    if s != [] {
      var n := UrlLength(s);
      if n > 0 {
        WhitespaceKept(s[n..]);
        FilterSkipPrefix(s, n, IsSpace);
      } else {
        WhitespaceKept(s[1..]);
      }
    }
  }

  /** A run of non-space characters stops where whitespace begins. */
  lemma LeadingRunAppend(a: string, b: string)
    requires (a != [] && IsSpace(a[|a| - 1])) || b == [] || IsSpace(b[0])
    ensures LeadingRun(a + b) == LeadingRun(a)
  {
    SpanAppend(a, b, IsNonSpace);
    assert Span(a, IsNonSpace) == |a| ==> Span(b, IsNonSpace) == 0;
    assert (a + b)[..Span(a, IsNonSpace)] == a[..Span(a, IsNonSpace)];
  }

  /** A match is the whole leading run of non-space characters. */
  lemma UrlLengthIsRun(s: string)
    requires UrlStart(s)
    ensures UrlLength(s) == |LeadingRun(s)|
  {
  }

  /** Cutting next to whitespace does not change the match at the start. */
  lemma UrlLengthAppend(a: string, b: string)
    requires a != []
    requires b == [] || IsSpace(a[|a| - 1]) || IsSpace(b[0])
    ensures UrlLength(a + b) == UrlLength(a)
  {
    LeadingRunAppend(a, b);
    UrlStartRun(a);
    UrlStartRun(a + b);
    if UrlStart(a) {
      UrlLengthIsRun(a);
      UrlLengthIsRun(a + b);
    }
  }

  /** Where a URL starts `a` and `b` follows across whitespace, the same URL starts `a + b`. */
  lemma UrlHeadAppend(a: string, b: string, n: nat)
    requires a != [] && b != [] && (IsSpace(a[|a| - 1]) || IsSpace(b[0]))
    requires n == UrlLength(a) && n > 0
    ensures RemoveUrl(a + b) == RemoveUrl(a[n..] + b)
  {
    assert UrlLength(a + b) == n by {
      UrlLengthAppend(a, b);
    }
    assert RemoveUrl(a + b) == RemoveUrl((a + b)[n..]) by {
      RemoveUrlHead(a + b);
    }
    DropAppend(a, b, n);
  }

  /** Where no URL starts `a` and `b` follows across whitespace, none starts `a + b`. */
  lemma CopyHeadAppend(a: string, b: string)
    requires a != [] && b != [] && (IsSpace(a[|a| - 1]) || IsSpace(b[0]))
    requires UrlLength(a) == 0
    ensures RemoveUrl(a + b) == [a[0]] + RemoveUrl(a[1..] + b)
  {
    assert UrlLength(a + b) == 0 && (a + b)[0] == a[0] by {
      UrlLengthAppend(a, b);
    }
    assert RemoveUrl(a + b) == [a[0]] + RemoveUrl((a + b)[1..]) by {
      RemoveUrlHead(a + b);
    }
    DropAppend(a, b, 1);
  }

  /** One step of the scan, as an equation. */
  lemma RemoveUrlHead(a: string)
    requires a != []
    ensures UrlLength(a) > 0 ==> RemoveUrl(a) == RemoveUrl(a[UrlLength(a)..])
    ensures UrlLength(a) == 0 ==> RemoveUrl(a) == [a[0]] + RemoveUrl(a[1..])
  {
  }

  /**
    A URL never reaches across whitespace, so the text can be cut next to any
    whitespace character and each part cleaned on its own.
  */
  lemma {:induction false} RemoveUrlSplit(a: string, b: string)
    requires a == [] || b == [] || IsSpace(a[|a| - 1]) || IsSpace(b[0])
    ensures RemoveUrl(a + b) == RemoveUrl(a) + RemoveUrl(b)
    decreases |a|
  {
    if a == [] {
      assert a + b == b;
    } else if b == [] {
      assert a + b == a;
    } else {
      var n := UrlLength(a);
      var rest := if n > 0 then a[n..] else a[1..];
      assert rest != [] ==> rest[|rest| - 1] == a[|a| - 1];
      RemoveUrlSplit(rest, b);
      RemoveUrlHead(a);
      if n > 0 {
        UrlHeadAppend(a, b, n);
      } else {
        CopyHeadAppend(a, b);
        AppendAssoc([a[0]], RemoveUrl(rest), RemoveUrl(b), RemoveUrl(a + b), RemoveUrl(rest + b));
      }
    }
  }

  /** With no URL at its head, the scan copies the first character. */
  lemma RemoveUrlCopies(c: char, t: string)
    requires !UrlStart([c] + t)
    ensures RemoveUrl([c] + t) == [c] + RemoveUrl(t)
  {
    assert ([c] + t)[1..] == t;
  }

  /** A text of at most seven characters is too short to hold a scheme and a character after it. */
  lemma ShortUnchanged(s: string)
    requires |s| <= |HTTP|
    ensures RemoveUrl(s) == s
  {
    forall i | 0 <= i < |s|
      ensures !UrlAt(s, i)
    {
      assert |s[i..]| <= |HTTP|;
    }
    RemoveUrlUnchanged(s);
  }

  /** A whole token that is a URL disappears. */
  lemma UrlTokenRemoved(u: string)
    requires UrlStart(u)
    requires forall k :: 0 <= k < |u| ==> !IsSpace(u[k])
    ensures RemoveUrl(u) == ""
  {
  }

  /**
    A URL token between whitespace disappears and the whitespace on both sides of
    it stays: `see https://x.y now` becomes `see`, two spaces and `now`.
  */
  lemma UrlBetweenSpaces(before: string, url: string, after: string)
    requires !HasUrl(before) && !HasUrl(after)
    requires before == [] || IsSpace(before[|before| - 1])
    requires after == [] || IsSpace(after[0])
    requires UrlStart(url) && forall k :: 0 <= k < |url| ==> !IsSpace(url[k])
    ensures RemoveUrl(before + url + after) == before + after
  {
    var front := before + url;
    assert RemoveUrl(before) == before by {
      RemoveUrlUnchanged(before);
    }
    assert RemoveUrl(after) == after by {
      RemoveUrlUnchanged(after);
    }
    assert RemoveUrl(url) == [] && url != [] by {
      UrlTokenRemoved(url);
    }
    assert RemoveUrl(front) == RemoveUrl(before) + RemoveUrl(url) by {
      RemoveUrlSplit(before, url);
    }
    assert RemoveUrl(front + after) == RemoveUrl(front) + RemoveUrl(after) by {
      RemoveUrlSplit(front, after);
    }
    assert RemoveUrl(front) == before;
  }

  /** A scheme on its own is not a URL: `\S+` needs at least one more character. */
  lemma SchemeAloneKept(scheme: string)
    requires scheme == HTTP || scheme == HTTPS
    ensures RemoveUrl(scheme) == scheme
  {
    if scheme == HTTP {
      ShortUnchanged(scheme);
    } else {
      forall i | 0 <= i < |scheme|
        ensures !UrlAt(scheme, i)
      {
        assert i == 0 || scheme[i..][0] != 'h';
      }
      RemoveUrlUnchanged(scheme);
    }
  }

  /**
    A bare `http://` or `https://` with whitespace or an edge of the text on both
    sides is not removed, and the text on each side is cleaned on its own. The
    whitespace before it is needed: a bare prefix glued to the end of a URL token
    belongs to that token and goes with it (see `GluedPrefixRemoved`).
  */
  lemma BarePrefixKept(a: string, scheme: string, b: string)
    requires scheme == HTTP || scheme == HTTPS
    requires a == [] || IsSpace(a[|a| - 1])
    requires b == [] || IsSpace(b[0])
    ensures RemoveUrl(a + scheme + b) == RemoveUrl(a) + scheme + RemoveUrl(b)
  {
    assert RemoveUrl(scheme + b) == scheme + RemoveUrl(b) by {
      SchemeAloneKept(scheme);
      RemoveUrlSplit(scheme, b);
    }
    assert RemoveUrl(a + scheme + b) == RemoveUrl(a) + RemoveUrl(scheme + b) by {
      AppendAssoc(a, scheme, b, a + (scheme + b), scheme + b);
      RemoveUrlSplit(a, scheme + b);
    }
    AppendAssoc(RemoveUrl(a), scheme, RemoveUrl(b), RemoveUrl(a + scheme + b), RemoveUrl(scheme + b));
  }

  /** A bare prefix glued to the end of a URL token is part of the token, and both are removed. */
  lemma GluedPrefixRemoved(url: string, scheme: string, b: string)
    requires UrlStart(url) && forall k :: 0 <= k < |url| ==> !IsSpace(url[k])
    requires scheme == HTTP || scheme == HTTPS
    requires b == [] || IsSpace(b[0])
    ensures RemoveUrl(url + scheme + b) == RemoveUrl(b)
  {
    var token := url + scheme;
    assert UrlStart(token) && forall k :: 0 <= k < |token| ==> !IsSpace(token[k]) by {
      UrlStartExtends(url, token);
    }
    assert RemoveUrl(token) == [] by {
      UrlTokenRemoved(token);
    }
    RemoveUrlSplit(token, b);
  }
}
