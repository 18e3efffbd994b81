/**
 * The string operations of Python that the analyzer relies on, restricted to ASCII:
 * whitespace and digit classes, `startswith`, `in`, `strip()`, `split('\n')`,
 * `'\n'.join`, `lower()` and `replace(pattern, '')`.
 */
module Text {

  /** Python's str.isspace() and the regex class \s on ASCII: the space, the controls
      \t \n \v \f \r (9..13) and the separators \x1c..\x1f (28..31). */
  predicate IsSpace(c: char) {
    c == ' ' || (9 <= c as int <= 13) || (28 <= c as int <= 31)
  }

  /** The regex class \d on ASCII. */
  predicate IsDigit(c: char) {
    '0' <= c <= '9'
  }

  /** The regex class [0-9a-f]. */
  predicate IsLowerHex(c: char) {
    IsDigit(c) || 'a' <= c <= 'f'
  }

  predicate AllSpace(s: string) {
    forall i :: 0 <= i < |s| ==> IsSpace(s[i])
  }

  predicate AllDigits(s: string) {
    forall i :: 0 <= i < |s| ==> IsDigit(s[i])
  }

  predicate AllLowerHex(s: string) {
    forall i :: 0 <= i < |s| ==> IsLowerHex(s[i])
  }

  /** Python's s.startswith(prefix). */
  predicate StartsWith(s: string, prefix: string) {
    |prefix| <= |s| && s[..|prefix|] == prefix
  }

  /** Python's `sub in s`. */
  predicate Contains(s: string, sub: string)
    decreases |s|
  {
    StartsWith(s, sub) || (|s| > 0 && Contains(s[1..], sub))
  }

  /** A character that cannot open `sub` adds no occurrence in front of a text. */
  lemma ContainsCons(c: char, x: string, sub: string)
    requires |sub| > 0 && c != sub[0] && !Contains(x, sub)
    ensures !Contains([c] + x, sub)
  {
    assert ([c] + x)[1..] == x;
  }

  /** An occurrence at any position makes `sub in s` true. */
  lemma {:induction false} ContainsAt(s: string, sub: string, i: nat)
    requires i + |sub| <= |s| && s[i..i + |sub|] == sub
    ensures Contains(s, sub)
    decreases i
  {
    if i == 0 {
      assert s[..|sub|] == sub;
    } else {
      assert s[1..][i - 1..i - 1 + |sub|] == sub;
      ContainsAt(s[1..], sub, i - 1);
    }
  }

  /** Conversely, `sub in s` names a position where `sub` occurs. */
  lemma {:induction false} ContainsIndex(s: string, sub: string) returns (i: nat)
    requires Contains(s, sub)
    ensures i + |sub| <= |s| && s[i..i + |sub|] == sub
    decreases |s|
  {
    if StartsWith(s, sub) {
      i := 0;
    } else {
      var j := ContainsIndex(s[1..], sub);
      i := j + 1;
      assert s[i..i + |sub|] == s[1..][j..j + |sub|];
    }
  }

  /** A text that holds `sub` holds each of its characters. */
  lemma HeldChar(s: string, sub: string, c: char)
    requires Contains(s, sub) && c in sub
    ensures c in s
  {
    var i := ContainsIndex(s, sub);
    var j :| 0 <= j < |sub| && sub[j] == c;
    assert s[i + j] == s[i..i + |sub|][j];
  }

  /** A text that lacks one character of `sub` does not hold `sub`. */
  lemma AbsentChar(s: string, sub: string, c: char)
    requires c in sub && c !in s
    ensures !Contains(s, sub)
  {
    if Contains(s, sub) {
      HeldChar(s, sub, c);
    }
  }

  /** A text that holds `mid` holds every substring of `mid`. */
  lemma ContainsTransitive(s: string, mid: string, sub: string)
    requires Contains(s, mid) && Contains(mid, sub)
    ensures Contains(s, sub)
  {
    var i := ContainsIndex(s, mid);
    var j := ContainsIndex(mid, sub);
    SliceOfSlice(s, i, |mid|, j, |sub|);
    ContainsAt(s, sub, i + j);
  }

  lemma SliceOfSlice(s: string, i: nat, n: nat, j: nat, m: nat)
    requires i + n <= |s| && j + m <= n
    ensures s[i..i + n][j..j + m] == s[i + j..i + j + m]
  {
    var a := s[i..i + n][j..j + m];
    var b := s[i + j..i + j + m];
    forall k | 0 <= k < m
      ensures a[k] == b[k]
    {
      assert a[k] == s[i..i + n][j + k] == s[i + j + k];
    }
  }

  /** Length of the longest prefix of `s` whose characters all satisfy `p`
      (what a greedy regex repetition of one character class consumes). */
  function SpanWhile(s: string, p: char -> bool): (n: nat)
    ensures n <= |s|
    ensures forall i :: 0 <= i < n ==> p(s[i])
    ensures n == |s| || !p(s[n])
    decreases |s|
  {
    if |s| > 0 && p(s[0]) then 1 + SpanWhile(s[1..], p) else 0
  }

  /** The span stops exactly where the class stops. */
  lemma SpanOfConcat(a: string, b: string, p: char -> bool)
    requires forall i :: 0 <= i < |a| ==> p(a[i])
    requires b == [] || !p(b[0])
    ensures SpanWhile(a + b, p) == |a|
  {
    assert forall i :: 0 <= i < |a| ==> (a + b)[i] == a[i];
    if |b| > 0 {
      assert (a + b)[|a|] == b[0];
    }
  }

  /** Python's str.lstrip(). */
  function StripLeft(s: string): (r: string)
    ensures |r| <= |s|
    decreases |s|
  {
    if |s| > 0 && IsSpace(s[0]) then StripLeft(s[1..]) else s
  }

  /** lstrip() keeps a suffix that does not begin with whitespace, and removes only
      whitespace. */
  lemma {:induction false} StripLeftIsSuffix(s: string)
    ensures var r := StripLeft(s);
            && r == s[|s| - |r|..]
            && (r == [] || !IsSpace(r[0]))
            && (forall i :: 0 <= i < |s| - |r| ==> IsSpace(s[i]))
    decreases |s|
  {
    if |s| > 0 && IsSpace(s[0]) {
      StripLeftIsSuffix(s[1..]);
      var r := StripLeft(s);
      forall i | 1 <= i < |s| - |r|
        ensures IsSpace(s[i])
      {
        assert s[i] == s[1..][i - 1];
      }
    }
  }

  /** Python's str.rstrip(). */
  function StripRight(s: string): (r: string)
    ensures |r| <= |s|
    decreases |s|
  {
    if |s| > 0 && IsSpace(s[|s| - 1]) then StripRight(s[..|s| - 1]) else s
  }

  /** rstrip() keeps a prefix that does not end with whitespace, and removes only
      whitespace. */
  lemma {:induction false} StripRightIsPrefix(s: string)
    ensures var r := StripRight(s);
            && r == s[..|r|]
            && (r == [] || !IsSpace(r[|r| - 1]))
            && (forall i :: |r| <= i < |s| ==> IsSpace(s[i]))
    decreases |s|
  {
    if |s| > 0 && IsSpace(s[|s| - 1]) {
      StripRightIsPrefix(s[..|s| - 1]);
      var r := StripRight(s);
      assert r == s[..|s| - 1][..|r|];
      forall i | |r| <= i < |s| - 1
        ensures IsSpace(s[i])
      {
        assert s[i] == s[..|s| - 1][i];
      }
    }
  }

  /** Neither begins nor ends with whitespace. */
  predicate Trimmed(t: string) {
    t == [] || (!IsSpace(t[0]) && !IsSpace(t[|t| - 1]))
  }

  /** Python's str.strip(). */
  function Strip(s: string): (r: string)
    ensures |r| <= |s|
  {
    StripRight(StripLeft(s))
  }

  /** What strip() removes is whitespace at both ends, and what it keeps is the infix between
      them, which neither begins nor ends with whitespace. */
  lemma StripIsInfix(s: string)
    ensures var lo := |s| - |StripLeft(s)|;
            var r := Strip(s);
            && lo + |r| <= |s|
            && r == s[lo..lo + |r|]
            && (forall i :: 0 <= i < lo ==> IsSpace(s[i]))
            && (forall i :: lo + |r| <= i < |s| ==> IsSpace(s[i]))
            && Trimmed(r)
  {
    var l := StripLeft(s);
    var r := StripRight(l);
    var lo := |s| - |l|;
    StripLeftIsSuffix(s);
    StripRightIsPrefix(l);
    assert l[..|r|] == s[lo..lo + |r|];
    forall i | lo + |r| <= i < |s|
      ensures IsSpace(s[i])
    {
      assert s[i] == l[i - lo];
    }
    if r != [] {
      assert r[0] == l[0];
    }
  }

  /** strip() leaves nothing exactly when the text is all whitespace. */
  lemma StripBlank(s: string)
    ensures Strip(s) == [] <==> AllSpace(s)
  {
    StripIsInfix(s);
    var l := StripLeft(s);
    if l != [] {
      StripLeftIsSuffix(s);
      StripRightIsPrefix(l);
      assert l[0] == s[|s| - |l|];
    }
  }

  /** A text that neither begins nor ends with whitespace is its own strip. */
  lemma StripOfTrimmed(t: string)
    requires Trimmed(t)
    ensures Strip(t) == t
  {
  }

  lemma StripIdempotent(s: string)
    ensures Strip(Strip(s)) == Strip(s)
  {
    StripIsInfix(s);
    StripOfTrimmed(Strip(s));
  }

  lemma {:induction false} StripLeftSpacePrefix(w: string, x: string)
    requires AllSpace(w)
    ensures StripLeft(w + x) == StripLeft(x)
    decreases |w|
  {
    if w != [] {
      assert (w + x)[1..] == w[1..] + x;
      StripLeftSpacePrefix(w[1..], x);
    } else {
      assert w + x == x;
    }
  }

  /** Leading whitespace never survives a strip. */
  lemma StripSpacePrefix(w: string, x: string)
    requires AllSpace(w)
    ensures Strip(w + x) == Strip(x)
  {
    StripLeftSpacePrefix(w, x);
  }

  /** Python's s.split('\n'): the pieces between line feeds; there is always at least one. */
  function Lines(s: string): (r: seq<string>)
    ensures |r| >= 1
    ensures forall i :: 0 <= i < |r| ==> '\n' !in r[i]
    decreases |s|
  {
    if s == [] then [""]
    else
      var rest := Lines(s[1..]);
      if s[0] == '\n' then [""] + rest
      else [[s[0]] + rest[0]] + rest[1..]
  }

  /** Python's '\n'.join(pieces). */
  function JoinLines(pieces: seq<string>): string
    decreases |pieces|
  {
    if |pieces| == 0 then ""
    else if |pieces| == 1 then pieces[0]
    else pieces[0] + "\n" + JoinLines(pieces[1..])
  }

  /** Splitting then joining gives the text back. */
  lemma {:induction false} JoinLinesOfLines(s: string)
    ensures JoinLines(Lines(s)) == s
    decreases |s|
  {
    if s != [] {
      var rest := Lines(s[1..]);
      JoinLinesOfLines(s[1..]);
      if s[0] == '\n' {
        assert [""] + rest == [""] + rest;
        assert ([""] + rest)[1..] == rest;
        assert s == [s[0]] + s[1..];
      } else {
        var first := [s[0]] + rest[0];
        assert ([first] + rest[1..])[1..] == rest[1..];
        if |rest| == 1 {
          assert s == [s[0]] + s[1..];
        } else {
          assert JoinLines(rest) == rest[0] + "\n" + JoinLines(rest[1..]);
          assert s == [s[0]] + s[1..];
        }
      }
    }
  }

  lemma {:induction false} LinesOfLine(x: string)
    requires '\n' !in x
    ensures Lines(x) == [x]
    decreases |x|
  {
    if x != [] {
      LinesOfLine(x[1..]);
      assert x == [x[0]] + x[1..];
    }
  }

  lemma {:induction false} LinesOfLineThen(x: string, t: string)
    requires '\n' !in x
    ensures Lines(x + "\n" + t) == [x] + Lines(t)
    decreases |x|
  {
    if x == [] {
      assert x + "\n" + t == "\n" + t;
      assert ("\n" + t)[1..] == t;
    } else {
      LinesOfLineThen(x[1..], t);
      assert (x + "\n" + t)[1..] == x[1..] + "\n" + t;
      assert x == [x[0]] + x[1..];
    }
  }

  /** Joining line-feed-free pieces then splitting gives the pieces back. */
  lemma {:induction false} LinesOfJoinLines(pieces: seq<string>)
    requires |pieces| >= 1
    requires forall i :: 0 <= i < |pieces| ==> '\n' !in pieces[i]
    ensures Lines(JoinLines(pieces)) == pieces
    decreases |pieces|
  {
    if |pieces| == 1 {
      LinesOfLine(pieces[0]);
    } else {
      LinesOfJoinLines(pieces[1..]);
      LinesOfLineThen(pieces[0], JoinLines(pieces[1..]));
      assert pieces == [pieces[0]] + pieces[1..];
    }
  }

  /** Appending one more piece appends a line feed and the piece. */
  lemma {:induction false} JoinLinesSnoc(pieces: seq<string>, x: string)
    requires |pieces| >= 1
    ensures JoinLines(pieces + [x]) == JoinLines(pieces) + "\n" + x
    decreases |pieces|
  {
    if |pieces| > 1 {
      assert (pieces + [x])[1..] == pieces[1..] + [x];
      JoinLinesSnoc(pieces[1..], x);
    }
  }

  function LowerChar(c: char): char {
    if 'A' <= c <= 'Z' then (c as int + 32) as char else c
  }

  /** Python's str.lower() on ASCII text. */
  function AsciiLower(s: string): (r: string)
    ensures |r| == |s|
  {
    seq(|s|, i requires 0 <= i < |s| => LowerChar(s[i]))
  }

  lemma AsciiLowerIdempotent(s: string)
    ensures AsciiLower(AsciiLower(s)) == AsciiLower(s)
  {
  }

  /** Python's s.replace(pattern, ''): every non-overlapping occurrence, scanned left to
      right, is removed. */
  function RemoveAll(s: string, pattern: string): (r: string)
    requires |pattern| > 0
    ensures |r| <= |s|
    ensures !Contains(s, pattern) ==> r == s
    decreases |s|
  {
    if |s| < |pattern| then s
    else if s[..|pattern|] == pattern then RemoveAll(s[|pattern|..], pattern)
    else [s[0]] + RemoveAll(s[1..], pattern)
  }

  /** One leading occurrence and no other: replace() removes exactly that one. */
  lemma RemoveAllLeading(pattern: string, x: string)
    requires |pattern| > 0 && !Contains(x, pattern)
    ensures RemoveAll(pattern + x, pattern) == x
  {
    assert (pattern + x)[..|pattern|] == pattern;
    assert (pattern + x)[|pattern|..] == x;
  }
}
