/**
 * `_deduplicate_threads_by_name_pattern`: one representative per name pattern. The pattern of
 * a name drops one trailing `-digits`, then any trailing digits, then surrounding whitespace;
 * the first thread of each pattern is kept, in dump order.
 */
module Dedup {
  import opened Text
  import opened BlockParser

  /** The length of the longest run of digits that ends the text. */
  function TrailingDigits(s: string): (n: nat)
    ensures n <= |s|
  {
    if s != [] && IsDigit(s[|s| - 1]) then 1 + TrailingDigits(s[..|s| - 1]) else 0
  }

  /** `re.sub(r'-\d+$', '', s)`: a match must run from a hyphen to the end through digits
      only, so it can only start just before the trailing digit run. */
  function DropDashNumber(s: string): string {
    var n := TrailingDigits(s);
    if 0 < n < |s| && s[|s| - n - 1] == '-' then s[..|s| - n - 1] else s
  }

  /** `re.sub(r'\d+$', '', s)`: the trailing digit run goes. */
  function DropDigits(s: string): string {
    s[..|s| - TrailingDigits(s)]
  }

  /** The name pattern a thread is grouped under. */
  function DedupKey(name: string): (r: string)
    ensures Trimmed(r) && |r| <= |name|
  {
    StripIsInfix(DropDigits(DropDashNumber(name)));
    Strip(DropDigits(DropDashNumber(name)))
  }

  /** Digits after a non-digit: the trailing run is exactly those digits. */
  lemma {:induction false} TrailingDigitsOf(a: string, d: string)
    requires AllDigits(d)
    requires a == [] || !IsDigit(a[|a| - 1])
    ensures TrailingDigits(a + d) == |d|
    decreases |d|
  {
    if d == [] {
      assert a + d == a;
    } else {
      var init := d[..|d| - 1];
      assert (a + d)[..|a + d| - 1] == a + init;
      TrailingDigitsOf(a, init);
    }
  }

  /** Threads numbered `-1`, `-2`, ... after the same base share a pattern: the base with its
      own trailing digits dropped, stripped. */
  lemma NumberedSiblings(base: string, d: string)
    requires |d| > 0 && AllDigits(d)
    ensures DedupKey(base + "-" + d) == Strip(DropDigits(base))
  {
    var s := base + "-" + d;
    TrailingDigitsOf(base + "-", d);
    assert s[|s| - |d| - 1] == '-';
    assert s[..|s| - |d| - 1] == base;
  }

  /** Executor threads `pool-N-thread-M` share the pattern `pool-N-thread`, without the
      hyphen. */
  lemma ExecutorPattern(n: string, m: string)
    requires AllDigits(n) && |m| > 0 && AllDigits(m)
    ensures DedupKey("pool-" + n + "-thread-" + m) == "pool-" + n + "-thread"
  {
    var base := "pool-" + n + "-thread";
    assert base + "-" + m == "pool-" + n + "-thread-" + m;
    NumberedSiblings(base, m);
    assert base[|base| - 1] == 'd';
    assert DropDigits(base) == base;
    StripOfTrimmed(base);
  }

  /** The pattern of a thread's name. */
  function ThreadKey(t: ThreadInfo): string {
    DedupKey(t.name)
  }

  /** The keys of a list. */
  function KeySet<T>(xs: seq<T>, key: T -> string): set<string> {
    if xs == [] then {}
    else KeySet(xs[..|xs| - 1], key) + {key(xs[|xs| - 1])}
  }

  /** The elements kept: each one whose key no earlier element has. */
  function DedupBy<T>(xs: seq<T>, key: T -> string): (r: seq<T>)
    ensures |r| <= |xs|
  {
    if xs == [] then []
    else
      var pre := xs[..|xs| - 1];
      var x := xs[|xs| - 1];
      DedupBy(pre, key) + (if key(x) in KeySet(pre, key) then [] else [x])
  }

  /** What `_deduplicate_threads_by_name_pattern` returns. */
  function DedupOf(threads: seq<ThreadInfo>): seq<ThreadInfo> {
    DedupBy(threads, ThreadKey)
  }

  /** `_deduplicate_threads_by_name_pattern`. */
  method DeduplicateThreads(threads: seq<ThreadInfo>) returns (r: seq<ThreadInfo>)
    ensures r == DedupOf(threads)
  {
    var seen: set<string> := {};
    r := [];
    var i := 0;
    while i < |threads|
      invariant i <= |threads|
      invariant seen == KeySet(threads[..i], ThreadKey)
      invariant r == DedupBy(threads[..i], ThreadKey)
    {
      var t := threads[i];
      var key := ThreadKey(t);
      DedupStep(threads, ThreadKey, i);
      if key !in seen {
        seen := seen + {key};
        r := r + [t];
      }
      i := i + 1;
    }
    assert threads[..i] == threads;
  }

  /** One more element: it is kept exactly when its key is new. */
  lemma DedupStep<T>(xs: seq<T>, key: T -> string, i: nat)
    requires i < |xs|
    ensures KeySet(xs[..i + 1], key) == KeySet(xs[..i], key) + {key(xs[i])}
    ensures DedupBy(xs[..i + 1], key)
            == DedupBy(xs[..i], key) + (if key(xs[i]) in KeySet(xs[..i], key) then [] else [xs[i]])
  {
    assert xs[..i + 1][..i] == xs[..i];
  }

  lemma {:induction false} KeySetMembers<T>(xs: seq<T>, key: T -> string, k: string)
    ensures k in KeySet(xs, key) <==> exists j :: 0 <= j < |xs| && key(xs[j]) == k
  {
    if xs != [] {
      var pre := xs[..|xs| - 1];
      KeySetMembers(pre, key, k);
      if k in KeySet(pre, key) {
        var j :| 0 <= j < |pre| && key(pre[j]) == k;
        assert xs[j] == pre[j];
      }
      if exists j :: 0 <= j < |xs| && key(xs[j]) == k {
        var j :| 0 <= j < |xs| && key(xs[j]) == k;
        if j < |pre| {
          assert pre[j] == xs[j];
        }
      }
    }
  }

  predicate KeysDistinct<T>(r: seq<T>, key: T -> string) {
    forall i, j :: 0 <= i < j < |r| ==> key(r[i]) != key(r[j])
  }

  /** Every key of the input is represented among the kept elements. */
  lemma {:induction false} DedupComplete<T>(xs: seq<T>, key: T -> string)
    ensures KeySet(DedupBy(xs, key), key) == KeySet(xs, key)
  {
    if xs != [] {
      var pre := xs[..|xs| - 1];
      var x := xs[|xs| - 1];
      DedupComplete(pre, key);
      if key(x) !in KeySet(pre, key) {
        var r := DedupBy(xs, key);
        assert r[..|r| - 1] == DedupBy(pre, key);
        assert r[|r| - 1] == x;
      } else {
        assert DedupBy(xs, key) == DedupBy(pre, key);
        assert KeySet(xs, key) == KeySet(pre, key);
      }
    }
  }

  /** The kept elements have pairwise different keys. */
  lemma {:induction false} DedupDistinct<T>(xs: seq<T>, key: T -> string)
    ensures KeysDistinct(DedupBy(xs, key), key)
  {
    if xs != [] {
      var pre := xs[..|xs| - 1];
      var x := xs[|xs| - 1];
      var d := DedupBy(pre, key);
      DedupDistinct(pre, key);
      if key(x) !in KeySet(pre, key) {
        DedupComplete(pre, key);
        forall i | 0 <= i < |d|
          ensures key(d[i]) != key(x)
        {
          KeySetMembers(d, key, key(d[i]));
        }
        DistinctSnoc(d, x, key);
      }
    }
  }

  lemma DistinctSnoc<T>(d: seq<T>, x: T, key: T -> string)
    requires KeysDistinct(d, key)
    requires forall i :: 0 <= i < |d| ==> key(d[i]) != key(x)
    ensures KeysDistinct(d + [x], key)
  {
    var r := d + [x];
    forall i, j | 0 <= i < j < |r|
      ensures key(r[i]) != key(r[j])
    {
      assert r[i] == d[i];
      if j < |d| {
        assert r[j] == d[j];
      }
    }
  }

  /** `a` is `b` with some elements deleted, order kept. */
  predicate Subsequence<T(==)>(a: seq<T>, b: seq<T>)
    decreases |b|
  {
    || a == []
    || (b != [] && ((a[|a| - 1] == b[|b| - 1] && Subsequence(a[..|a| - 1], b[..|b| - 1]))
                    || Subsequence(a, b[..|b| - 1])))
  }

  /** Deduplication only deletes: what is kept keeps its order. */
  lemma {:induction false} DedupIsSubsequence<T>(xs: seq<T>, key: T -> string)
    ensures Subsequence(DedupBy(xs, key), xs)
  {
    if xs != [] {
      var pre := xs[..|xs| - 1];
      var x := xs[|xs| - 1];
      DedupIsSubsequence(pre, key);
      var r := DedupBy(xs, key);
      if key(x) !in KeySet(pre, key) {
        assert r[..|r| - 1] == DedupBy(pre, key);
        assert r[|r| - 1] == x;
        assert Subsequence(r[..|r| - 1], xs[..|xs| - 1]);
      } else {
        assert DedupBy(xs, key) == DedupBy(pre, key);
      }
    }
  }

  /** Deduplicating a prefix gives a prefix of the result. */
  lemma {:induction false} DedupPrefix<T>(xs: seq<T>, key: T -> string, i: nat)
    requires i <= |xs|
    ensures DedupBy(xs[..i], key) <= DedupBy(xs, key)
    decreases |xs| - i
  {
    if i < |xs| {
      var pre := xs[..|xs| - 1];
      assert pre[..i] == xs[..i];
      DedupPrefix(pre, key, i);
    } else {
      assert xs[..i] == xs;
    }
  }

  /** The first element of each key is the one kept. */
  lemma FirstOfKeyKept<T>(xs: seq<T>, key: T -> string, i: nat)
    requires i < |xs| && key(xs[i]) !in KeySet(xs[..i], key)
    ensures xs[i] in DedupBy(xs, key)
  {
    var upTo := xs[..i + 1];
    assert upTo[..i] == xs[..i];
    DedupKeepsNew(upTo, key);
    DedupPrefix(xs, key, i + 1);
    LastOfPrefix(DedupBy(upTo, key), DedupBy(xs, key));
  }

  /** An element whose key is new is appended to what was kept before it. */
  lemma DedupKeepsNew<T>(ys: seq<T>, key: T -> string)
    requires ys != [] && key(ys[|ys| - 1]) !in KeySet(ys[..|ys| - 1], key)
    ensures DedupBy(ys, key) != [] && DedupBy(ys, key)[|DedupBy(ys, key)| - 1] == ys[|ys| - 1]
  {
  }

  lemma LastOfPrefix<T>(a: seq<T>, b: seq<T>)
    requires a != [] && a <= b
    ensures a[|a| - 1] in b
  {
    assert b[|a| - 1] == a[|a| - 1];
  }

  /** A list whose keys are already distinct is left as it is. */
  lemma {:induction false} DedupOfDistinct<T>(r: seq<T>, key: T -> string)
    requires KeysDistinct(r, key)
    ensures DedupBy(r, key) == r
  {
    if r != [] {
      var pre := r[..|r| - 1];
      assert KeysDistinct(pre, key);
      DedupOfDistinct(pre, key);
      KeySetMembers(pre, key, key(r[|r| - 1]));
      assert pre + [r[|r| - 1]] == r;
    }
  }

  /** Deduplicating twice is deduplicating once. */
  lemma DedupIdempotent(threads: seq<ThreadInfo>)
    ensures DedupOf(DedupOf(threads)) == DedupOf(threads)
  {
    DedupDistinct(threads, ThreadKey);
    DedupOfDistinct(DedupOf(threads), ThreadKey);
  }

  /** The threads kept have pairwise different patterns, cover every pattern of the input,
      keep their order, and include the first thread of each pattern. */
  lemma DedupThreads(threads: seq<ThreadInfo>)
    ensures KeysDistinct(DedupOf(threads), ThreadKey)
    ensures KeySet(DedupOf(threads), ThreadKey) == KeySet(threads, ThreadKey)
    ensures Subsequence(DedupOf(threads), threads)
    ensures forall i :: 0 <= i < |threads| && ThreadKey(threads[i]) !in KeySet(threads[..i], ThreadKey)
              ==> threads[i] in DedupOf(threads)
  {
    DedupDistinct(threads, ThreadKey);
    DedupComplete(threads, ThreadKey);
    DedupIsSubsequence(threads, ThreadKey);
    forall i | 0 <= i < |threads| && ThreadKey(threads[i]) !in KeySet(threads[..i], ThreadKey)
      ensures threads[i] in DedupOf(threads)
    {
      FirstOfKeyKept(threads, ThreadKey, i);
    }
  }
}
