/**
  Character classes and small sequence helpers shared by the text preprocessing
  transforms.

  The regular expressions of the preprocessing module use Python's Unicode
  classes `\w`, `\s` and `\d`. This model restricts them to ASCII: a character
  at or above 128 is never a word character, a space or a digit here.
*/
module CharClasses {

  datatype Option<T> = None | Some(value: T)

  predicate IsUpper(c: char) { 'A' <= c <= 'Z' }

  predicate IsLower(c: char) { 'a' <= c <= 'z' }

  /** `\d` restricted to ASCII. */
  predicate IsDigit(c: char) { '0' <= c <= '9' }

  /** `\w` restricted to ASCII, which is also the explicit class `[A-Za-z0-9_]`. */
  predicate IsWordChar(c: char) { IsUpper(c) || IsLower(c) || IsDigit(c) || c == '_' }

  /**
    `\s` restricted to ASCII: the characters below 128 that Python's `str.isspace`
    accepts, i.e. tab, line feed, vertical tab, form feed, carriage return, the
    four information separators 0x1C..0x1F, and the space.
  */
  predicate IsSpace(c: char) { c == ' ' || '\t' <= c <= '\r' || '\U{1C}' <= c <= '\U{1F}' }

  /** Length of the longest prefix of `s` whose characters all satisfy `p`. */
  function Span(s: string, p: char -> bool): (n: nat)
    ensures n <= |s|
    ensures forall i :: 0 <= i < n ==> p(s[i])
    ensures n < |s| ==> !p(s[n])
  {
    if s == [] || !p(s[0]) then 0 else 1 + Span(s[1..], p)
  }

  /** A run that starts with a passing character is one longer than the run after it. */
  lemma SpanCons(c: char, t: string, p: char -> bool)
    requires p(c)
    ensures Span([c] + t, p) == 1 + Span(t, p)
  {
    assert ([c] + t)[1..] == t;
  }

  /** A run inside `a` that stops before the end of `a` does not see what follows `a`. */
  lemma {:induction false} SpanAppend(a: string, b: string, p: char -> bool)
    ensures Span(a, p) < |a| ==> Span(a + b, p) == Span(a, p)
    ensures Span(a, p) == |a| ==> Span(a + b, p) == |a| + Span(b, p)
  {
    if a == [] {
      assert a + b == b;
    } else {
      assert (a + b)[0] == a[0] && (a + b)[1..] == a[1..] + b;
      if p(a[0]) {
        SpanAppend(a[1..], b, p);
      }
    }
  }

  /** A run of `m` passing characters followed by a failing one or by the end is the span. */
  lemma SpanExact(s: string, p: char -> bool, m: int)
    requires 0 <= m <= |s|
    requires forall i :: 0 <= i < m ==> p(s[i])
    requires m == |s| || !p(s[m])
    ensures Span(s, p) == m
  {
  }

  /** The maximal run of word characters at the start of `s`. */
  function Token(s: string): (t: string)
    ensures t <= s
    ensures forall i :: 0 <= i < |t| ==> IsWordChar(t[i])
    ensures |t| < |s| ==> !IsWordChar(s[|t|])
  {
    s[..Span(s, IsWordChar)]
  }

  /** No token starts at a non-word character. */
  lemma TokenEmpty(s: string)
    requires s == [] || !IsWordChar(s[0])
    ensures Token(s) == []
  {
  }

  /** A word character in front extends the token; any other character ends it before it starts. */
  lemma TokenCons(c: char, x: string)
    ensures IsWordChar(c) ==> Token([c] + x) == [c] + Token(x)
    ensures !IsWordChar(c) ==> Token([c] + x) == []
  {
    if IsWordChar(c) {
      SpanCons(c, x, IsWordChar);
      assert ([c] + x)[..1 + Span(x, IsWordChar)] == [c] + x[..Span(x, IsWordChar)];
    }
  }

  /** A run of word characters followed by a non-word character or by the end is the token. */
  lemma TokenIs(w: string, rest: string)
    requires forall i :: 0 <= i < |w| ==> IsWordChar(w[i])
    requires rest == [] || !IsWordChar(rest[0])
    ensures Token(w + rest) == w
  {
    SpanExact(w + rest, IsWordChar, |w|);
    assert (w + rest)[..|w|] == w;
  }

  /** The characters of `s` that satisfy `p`, in their original order. */
  function Filter(s: string, p: char -> bool): (r: string)
    ensures |r| <= |s|
    ensures forall i :: 0 <= i < |r| ==> p(r[i])
  {
    if s == [] then []
    else if p(s[0]) then [s[0]] + Filter(s[1..], p)
    else Filter(s[1..], p)
  }

  /** One step of the filter: the first character is kept when it passes. */
  lemma FilterCons(c: char, x: string, p: char -> bool)
    ensures Filter([c] + x, p) == if p(c) then [c] + Filter(x, p) else Filter(x, p)
  {
    assert ([c] + x)[1..] == x;
  }

  /** Each character that passes keeps its number of occurrences; every other one has none left. */
  lemma {:induction false} FilterCount(s: string, p: char -> bool, c: char)
    ensures multiset(Filter(s, p))[c] == if p(c) then multiset(s)[c] else 0
  {
    if s != [] {
      FilterCount(s[1..], p, c);
      assert s == [s[0]] + s[1..];
    }
  }

  /** Filtering distributes over concatenation, so it keeps the relative order of what it keeps. */
  lemma {:induction false} FilterAppend(a: string, b: string, p: char -> bool)
    ensures Filter(a + b, p) == Filter(a, p) + Filter(b, p)
  {
    if a == [] {
      assert a + b == b;
    } else {
      assert (a + b)[1..] == a[1..] + b;
      FilterAppend(a[1..], b, p);
    }
  }

  /** A filter returns its input exactly when every character already passes it. */
  lemma {:induction false} FilterUnchanged(s: string, p: char -> bool)
    ensures Filter(s, p) == s <==> forall i :: 0 <= i < |s| ==> p(s[i])
  {
    if s != [] {
      FilterUnchanged(s[1..], p);
      if !p(s[0]) {
        assert |Filter(s, p)| < |s|;
      } else if Filter(s, p) == s {
        assert Filter(s[1..], p) == s[1..];
      }
    }
  }

  /** A filter that no character passes leaves nothing. */
  lemma {:induction false} FilterNone(s: string, p: char -> bool)
    requires forall i :: 0 <= i < |s| ==> !p(s[i])
    ensures Filter(s, p) == []
  {
    if s != [] {
      FilterNone(s[1..], p);
    }
  }

  /** Dropping a prefix in which no character passes leaves the filter as it was. */
  lemma FilterSkipPrefix(t: string, n: nat, p: char -> bool)
    requires n <= |t|
    requires forall i :: 0 <= i < n ==> !p(t[i])
    ensures Filter(t[n..], p) == Filter(t, p)
  {
    assert t == t[..n] + t[n..];
    FilterAppend(t[..n], t[n..], p);
    FilterNone(t[..n], p);
  }

  /** Dropping a prefix of `a` from `a + b` leaves the rest of `a` followed by `b`. */
  lemma DropAppend(a: string, b: string, n: nat)
    requires n <= |a|
    ensures (a + b)[n..] == a[n..] + b
  {
  }

  /**
    Sequence algebra for joining a result with a prefix in front of a split
    result, kept apart from the scans so that their definitions stay out of it.
  */
  lemma AppendAssoc(p: string, x: string, y: string, r: string, r1: string)
    requires r == p + r1 && r1 == x + y
    ensures r == p + x + y
  {
  }
}
