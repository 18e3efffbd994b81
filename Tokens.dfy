/**
 * The pieces of the two regular expressions the analyzer matches against a thread header,
 * `^"([^"]+)"` and the full header pattern, written as scanners that consume a prefix and
 * return what follows. Each one is deterministic: the header pattern never needs to
 * backtrack into a different split, because every greedy run is followed by a character
 * outside its class.
 */
module Tokens {
  import opened Wrappers
  import opened Text

  predicate NotQuote(c: char) {
    c != '"'
  }

  /** `"` + one or more non-quote characters + `"` at the head of `s`: the name between the
      quotes and the text after the closing quote. */
  function QuotedName(s: string): (r: Option<(string, string)>)
    ensures r.Some? ==> s == "\"" + r.value.0 + "\"" + r.value.1
    ensures r.Some? ==> |r.value.0| > 0 && '"' !in r.value.0
  {
    if |s| == 0 || s[0] != '"' then None
    else
      var n := SpanWhile(s[1..], NotQuote);
      if n == 0 || n + 1 >= |s| then None
      else
        assert s == "\"" + s[1..n + 1] + "\"" + s[n + 2..];
        Some((s[1..n + 1], s[n + 2..]))
  }

  /** The regex reading of `"([^"]+)"`: whenever a quote at k >= 2 closes a non-quote run
      opened at column 0, the match succeeds and the name is that run. */
  lemma QuotedNameAt(s: string, k: nat)
    requires 2 <= k < |s| && s[0] == '"' && s[k] == '"'
    requires forall j :: 1 <= j < k ==> s[j] != '"'
    ensures QuotedName(s) == Some((s[1..k], s[k + 1..]))
  {
    assert s[1..] == s[1..k] + s[k..];
    SpanOfConcat(s[1..k], s[k..], NotQuote);
  }

  lemma QuotedNameThen(name: string, rest: string)
    requires |name| > 0 && '"' !in name
    ensures QuotedName("\"" + name + "\"" + rest) == Some((name, rest))
  {
    var s := "\"" + name + "\"" + rest;
    assert s[1..|name| + 1] == name;
    assert s[|name| + 2..] == rest;
    QuotedNameAt(s, |name| + 1);
  }

  /** `\s+` at the head of `s`, taken greedily; the text after it. */
  function Spaces1(s: string): (r: Option<string>)
    ensures r.None? <==> (s == [] || !IsSpace(s[0]))
    ensures r.Some? ==> |r.value| < |s| && r.value == s[|s| - |r.value|..]
    ensures r.Some? ==> forall i :: 0 <= i < |s| - |r.value| ==> IsSpace(s[i])
    ensures r.Some? ==> r.value == [] || !IsSpace(r.value[0])
  {
    if s == [] || !IsSpace(s[0]) then None
    else
      StripLeftIsSuffix(s);
      Some(StripLeft(s))
  }

  lemma SpacesThen(x: string)
    requires x == [] || !IsSpace(x[0])
    ensures Spaces1(" " + x) == Some(x)
  {
    assert (" " + x)[1..] == x;
  }

  /** A fixed literal at the head of `s`; the text after it. */
  function Literal(s: string, lit: string): (r: Option<string>)
    ensures r.None? <==> !StartsWith(s, lit)
    ensures r.Some? ==> s == lit + r.value
  {
    if StartsWith(s, lit) then
      assert s == s[..|lit|] + s[|lit|..];
      Some(s[|lit|..])
    else None
  }

  lemma LiteralThen(lit: string, x: string)
    ensures Literal(lit + x, lit) == Some(x)
  {
    assert (lit + x)[..|lit|] == lit;
    assert (lit + x)[|lit|..] == x;
  }

  /** One or more characters of class `p`, taken greedily (`\d+`, `[0-9a-f]+`); the run and
      the text after it. */
  function Run1(s: string, p: char -> bool): (r: Option<(string, string)>)
    ensures r.None? <==> (s == [] || !p(s[0]))
    ensures r.Some? ==> s == r.value.0 + r.value.1 && |r.value.0| > 0
    ensures r.Some? ==> forall i :: 0 <= i < |r.value.0| ==> p(r.value.0[i])
    ensures r.Some? ==> r.value.1 == [] || !p(r.value.1[0])
  {
    var n := SpanWhile(s, p);
    if n == 0 then None
    else
      assert s == s[..n] + s[n..];
      Some((s[..n], s[n..]))
  }

  lemma Run1Then(run: string, x: string, p: char -> bool)
    requires |run| > 0 && forall i :: 0 <= i < |run| ==> p(run[i])
    requires x == [] || !p(x[0])
    ensures Run1(run + x, p) == Some((run, x))
  {
    SpanOfConcat(run, x, p);
    assert (run + x)[..|run|] == run;
    assert (run + x)[|run|..] == x;
  }
}
