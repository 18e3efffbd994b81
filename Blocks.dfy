/**
 * The block splitter (`_split_thread_blocks`): the dump is cut into one text per thread at
 * every line that opens with a quoted name. The reference definition below says which
 * lines are boundaries and what text each segment between two boundaries yields; the
 * method is the source's line loop, proved to compute exactly that.
 */
module Blocks {
  import opened Text
  import opened Tokens

  /** A line that opens a thread block, `^"([^"]+)"`: a quote, a character other than a
      quote, and a later quote that closes the name. */
  predicate OpensBlock(line: string) {
    |line| >= 3 && line[0] == '"' && line[1] != '"' && '"' in line[2..]
  }

  /** The block test is the regex match of the quoted name. */
  lemma OpensBlockIsQuotedName(line: string)
    ensures OpensBlock(line) <==> QuotedName(line).Some?
  {
    if OpensBlock(line) {
      assert line[1..][0] == line[1];
    }
    if QuotedName(line).Some? {
      var name := QuotedName(line).value.0;
      assert line[1] == name[0];
      assert line[2..][|name| - 1] == '"';
    }
  }

  /** Some line before line n is non-empty. */
  predicate TextBefore(lines: seq<string>, n: nat)
    requires n <= |lines|
  {
    n > 0 && (lines[n - 1] != "" || TextBefore(lines, n - 1))
  }

  /** Line i closes the block in progress and starts the next one: it opens a block and the
      text accumulated before it is non-empty, which happens exactly when some earlier line
      is non-empty. */
  predicate IsBoundary(lines: seq<string>, i: nat) {
    i < |lines| && OpensBlock(lines[i]) && TextBefore(lines, i)
  }

  /** The boundaries among the first n lines, in ascending order. */
  function Boundaries(lines: seq<string>, n: nat): (b: seq<nat>)
    requires n <= |lines|
    ensures forall k :: 0 <= k < |b| ==> 0 < b[k] < n
    ensures forall k :: 0 < k < |b| ==> b[k - 1] < b[k]
  {
    if n == 0 then []
    else Boundaries(lines, n - 1) + (if IsBoundary(lines, n - 1) then [n - 1] else [])
  }

  /** Where the segments among the first n lines start: line 0, then every boundary. */
  function SegmentStarts(lines: seq<string>, n: nat): (starts: seq<nat>)
    requires n <= |lines|
    ensures |starts| >= 1 && starts[0] == 0
    ensures forall k :: 0 <= k < |starts| ==> starts[k] <= n
    ensures forall k :: 0 < k < |starts| ==> starts[k - 1] < starts[k]
  {
    [0] + Boundaries(lines, n)
  }

  predicate Ascending(lines: seq<string>, starts: seq<nat>) {
    && |starts| >= 1
    && (forall k :: 0 <= k < |starts| ==> starts[k] <= |lines|)
    && (forall k :: 0 < k < |starts| ==> starts[k - 1] < starts[k])
  }

  /** Where the segment in progress after n lines starts. */
  function LastStart(lines: seq<string>, n: nat): (s: nat)
    requires n <= |lines|
    ensures s <= n
  {
    var starts := SegmentStarts(lines, n);
    starts[|starts| - 1]
  }

  lemma {:induction false} BoundariesAreBoundaries(lines: seq<string>, n: nat)
    requires n <= |lines|
    ensures forall k :: 0 <= k < |Boundaries(lines, n)| ==> IsBoundary(lines, Boundaries(lines, n)[k])
  {
    if n > 0 {
      BoundariesAreBoundaries(lines, n - 1);
    }
  }

  /** The stripped text of lines lo .. hi joined by line feeds. */
  function SegmentText(lines: seq<string>, lo: nat, hi: nat): string
    requires lo <= hi <= |lines|
  {
    Strip(JoinLines(lines[lo..hi]))
  }

  /** The text of every closed segment starts[k] .. starts[k + 1], in order. */
  function ClosedBlocks(lines: seq<string>, starts: seq<nat>): (r: seq<string>)
    requires Ascending(lines, starts)
    ensures |r| == |starts| - 1
    decreases |starts|
  {
    if |starts| == 1 then []
    else
      ClosedBlocks(lines, starts[..|starts| - 1])
        + [SegmentText(lines, starts[|starts| - 2], starts[|starts| - 1])]
  }

  /** The blocks of a dump split into lines: the stripped text of each segment, where the
      last segment is kept only when it is not blank. */
  function BlocksOf(lines: seq<string>): seq<string>
  {
    var last := SegmentText(lines, LastStart(lines, |lines|), |lines|);
    ClosedBlocks(lines, SegmentStarts(lines, |lines|)) + (if last != "" then [last] else [])
  }

  lemma ClosedBlocksSnoc(lines: seq<string>, starts: seq<nat>, i: nat)
    requires Ascending(lines, starts)
    requires starts[|starts| - 1] < i <= |lines|
    ensures Ascending(lines, starts + [i])
    ensures ClosedBlocks(lines, starts + [i])
         == ClosedBlocks(lines, starts) + [SegmentText(lines, starts[|starts| - 1], i)]
  {
    var t := starts + [i];
    AscendingSnoc(lines, starts, i);
    assert t[..|t| - 1] == starts;
    ClosedBlocksLast(lines, t);
  }

  lemma AscendingSnoc(lines: seq<string>, starts: seq<nat>, i: nat)
    requires Ascending(lines, starts)
    requires starts[|starts| - 1] < i <= |lines|
    ensures Ascending(lines, starts + [i])
  {
    var t := starts + [i];
    forall k | 0 < k < |t|
      ensures t[k - 1] < t[k]
    {
      if k < |starts| {
        assert t[k - 1] == starts[k - 1] && t[k] == starts[k];
      }
    }
  }

  /** The state of the source's line loop: the blocks emitted so far and `current_block`. */
  datatype Scan = Scan(blocks: seq<string>, current: string)

  /** One turn of the loop on `line`: a line that opens a block while text is pending emits
      the stripped pending text and starts over from that line; any other line is appended
      after a line feed, or becomes the pending text when nothing is pending. */
  function Step(s: Scan, line: string): Scan {
    if OpensBlock(line) && s.current != "" then Scan(s.blocks + [Strip(s.current)], line)
    else if s.current != "" then Scan(s.blocks, s.current + "\n" + line)
    else Scan(s.blocks, line)
  }

  /** The loop state after the first n lines. */
  function ScanOf(lines: seq<string>, n: nat): Scan
    requires n <= |lines|
  {
    if n == 0 then Scan([], "") else Step(ScanOf(lines, n - 1), lines[n - 1])
  }

  /** Nothing is pending exactly while every line so far is empty. */
  lemma {:induction false} PendingIffText(lines: seq<string>, n: nat)
    requires n <= |lines|
    ensures ScanOf(lines, n).current == "" <==> !TextBefore(lines, n)
  {
    if n > 0 {
      PendingIffText(lines, n - 1);
    }
  }

  lemma StartsAtBoundary(lines: seq<string>, i: nat)
    requires IsBoundary(lines, i)
    ensures SegmentStarts(lines, i + 1) == SegmentStarts(lines, i) + [i]
    ensures LastStart(lines, i + 1) == i
  {
    assert Boundaries(lines, i + 1) == Boundaries(lines, i) + [i];
  }

  lemma StartsElsewhere(lines: seq<string>, i: nat)
    requires i < |lines| && !IsBoundary(lines, i)
    ensures SegmentStarts(lines, i + 1) == SegmentStarts(lines, i)
    ensures LastStart(lines, i + 1) == LastStart(lines, i)
  {
    assert Boundaries(lines, i + 1) == Boundaries(lines, i);
  }

  /** A line that does not close the segment joins it. */
  lemma PendingGrows(lines: seq<string>, s: nat, i: nat, p: string, cur: string) returns (pad: string)
    requires s <= i < |lines|
    requires AllSpace(p) && JoinLines(lines[s..i]) == p + cur
    requires cur == "" ==> s == 0
    ensures AllSpace(pad)
    ensures JoinLines(lines[s..i + 1]) == pad + (if cur != "" then cur + "\n" + lines[i] else lines[i])
  {
    assert lines[s..i + 1] == lines[s..i] + [lines[i]];
    if cur != "" {
      JoinLinesSnoc(lines[s..i], lines[i]);
      pad := p;
    } else if i > 0 {
      JoinLinesSnoc(lines[s..i], lines[i]);
      pad := p + "\n";
    } else {
      pad := "";
    }
  }

  lemma PendingStep(lines: seq<string>, i: nat, p: string) returns (pad: string)
    requires i < |lines|
    requires AllSpace(p)
    requires JoinLines(lines[LastStart(lines, i)..i]) == p + ScanOf(lines, i).current
    requires ScanOf(lines, i).current == "" ==> LastStart(lines, i) == 0
    ensures AllSpace(pad)
    ensures JoinLines(lines[LastStart(lines, i + 1)..i + 1]) == pad + ScanOf(lines, i + 1).current
    ensures ScanOf(lines, i + 1).current == "" ==> LastStart(lines, i + 1) == 0
  {
    PendingIffText(lines, i);
    if IsBoundary(lines, i) {
      PendingRestarts(lines, i);
      pad := "";
    } else {
      pad := PendingContinues(lines, i, p);
    }
  }

  /** At a boundary the pending text starts over from the boundary line. */
  lemma PendingRestarts(lines: seq<string>, i: nat)
    requires IsBoundary(lines, i)
    requires ScanOf(lines, i).current != ""
    ensures JoinLines(lines[LastStart(lines, i + 1)..i + 1]) == ScanOf(lines, i + 1).current
    ensures ScanOf(lines, i + 1).current != ""
  {
    assert ScanOf(lines, i + 1) == Step(ScanOf(lines, i), lines[i]);
    StartsAtBoundary(lines, i);
    JoinOneLine(lines, i);
  }

  /** Elsewhere the line joins the segment in progress. */
  lemma PendingContinues(lines: seq<string>, i: nat, p: string) returns (pad: string)
    requires i < |lines| && !IsBoundary(lines, i)
    requires AllSpace(p)
    requires JoinLines(lines[LastStart(lines, i)..i]) == p + ScanOf(lines, i).current
    requires ScanOf(lines, i).current == "" ==> LastStart(lines, i) == 0
    requires ScanOf(lines, i).current == "" <==> !TextBefore(lines, i)
    ensures AllSpace(pad)
    ensures JoinLines(lines[LastStart(lines, i + 1)..i + 1]) == pad + ScanOf(lines, i + 1).current
    ensures ScanOf(lines, i + 1).current == "" ==> LastStart(lines, i + 1) == 0
  {
    var prev := ScanOf(lines, i);
    assert ScanOf(lines, i + 1) == Step(prev, lines[i]);
    StartsElsewhere(lines, i);
    pad := PendingGrows(lines, LastStart(lines, i), i, p, prev.current);
  }

  lemma JoinOneLine(lines: seq<string>, i: nat)
    requires i < |lines|
    ensures JoinLines(lines[i..i + 1]) == lines[i]
  {
    assert lines[i..i + 1] == [lines[i]];
  }

  /** The pending text is the segment in progress without the line feeds of the empty lines
      that opened the dump. */
  lemma {:induction false} PendingIsSegment(lines: seq<string>, n: nat) returns (pad: string)
    requires n <= |lines|
    ensures AllSpace(pad)
    ensures JoinLines(lines[LastStart(lines, n)..n]) == pad + ScanOf(lines, n).current
    ensures ScanOf(lines, n).current == "" ==> LastStart(lines, n) == 0
  {
    if n == 0 {
      pad := "";
    } else {
      var p := PendingIsSegment(lines, n - 1);
      pad := PendingStep(lines, n - 1, p);
    }
  }

  /** Emitting the pending text at a boundary closes the segment in progress. */
  lemma EmitClosesSegment(lines: seq<string>, i: nat)
    requires IsBoundary(lines, i)
    ensures ClosedBlocks(lines, SegmentStarts(lines, i + 1))
         == ClosedBlocks(lines, SegmentStarts(lines, i)) + [Strip(ScanOf(lines, i).current)]
  {
    StartsAtBoundary(lines, i);
    ClosedBlocksSnoc(lines, SegmentStarts(lines, i), i);
    var pad := PendingIsSegment(lines, i);
    StripSpacePrefix(pad, ScanOf(lines, i).current);
  }

  /** The blocks emitted so far are the texts of the closed segments. */
  lemma {:induction false} EmittedAreClosed(lines: seq<string>, n: nat)
    requires n <= |lines|
    ensures ScanOf(lines, n).blocks == ClosedBlocks(lines, SegmentStarts(lines, n))
  {
    if n > 0 {
      var i := n - 1;
      var prev := ScanOf(lines, i);
      EmittedAreClosed(lines, i);
      assert ScanOf(lines, n) == Step(prev, lines[i]);
      PendingIffText(lines, i);
      if OpensBlock(lines[i]) && prev.current != "" {
        EmitClosesSegment(lines, i);
      } else {
        StartsElsewhere(lines, i);
      }
    }
  }

  /** What the loop leaves, once the pending text is emitted if not blank, is BlocksOf. */
  lemma ScanGivesBlocks(lines: seq<string>)
    ensures var s := ScanOf(lines, |lines|);
            s.blocks + (if Strip(s.current) != "" then [Strip(s.current)] else []) == BlocksOf(lines)
  {
    EmittedAreClosed(lines, |lines|);
    var pad := PendingIsSegment(lines, |lines|);
    StripSpacePrefix(pad, ScanOf(lines, |lines|).current);
  }

  /** `_split_thread_blocks`: one pass over the lines of the dump growing the pending text
      and emitting it, stripped, at each line that opens a block; then the pending text is
      emitted when it is not blank. */
  method SplitThreadBlocks(content: string) returns (blocks: seq<string>)
    ensures blocks == BlocksOf(Lines(content))
  {
    var lines := Lines(content);
    blocks := [];
    var current := "";
    var i := 0;
    while i < |lines|
      invariant i <= |lines|
      invariant Scan(blocks, current) == ScanOf(lines, i)
    {
      var line := lines[i];
      assert ScanOf(lines, i + 1) == Step(Scan(blocks, current), line);
      if OpensBlock(line) && current != "" {
        blocks := blocks + [Strip(current)];
        current := line;
      } else if current != "" {
        current := current + "\n" + line;
      } else {
        current := line;
      }
      i := i + 1;
    }
    ScanGivesBlocks(lines);
    if Strip(current) != "" {
      blocks := blocks + [Strip(current)];
    }
  }

  /** The k-th closed block is the text of the k-th segment. */
  lemma {:induction false} ClosedBlockAt(lines: seq<string>, starts: seq<nat>, k: nat)
    requires Ascending(lines, starts) && k < |starts| - 1
    ensures ClosedBlocks(lines, starts)[k] == SegmentText(lines, starts[k], starts[k + 1])
    decreases |starts|
  {
    var pre := starts[..|starts| - 1];
    ClosedBlocksLast(lines, starts);
    if k < |starts| - 2 {
      ClosedBlockAt(lines, pre, k);
    }
  }

  lemma ClosedBlocksLast(lines: seq<string>, starts: seq<nat>)
    requires Ascending(lines, starts) && |starts| >= 2
    ensures Ascending(lines, starts[..|starts| - 1])
    ensures ClosedBlocks(lines, starts)
         == ClosedBlocks(lines, starts[..|starts| - 1])
            + [SegmentText(lines, starts[|starts| - 2], starts[|starts| - 1])]
  {
  }

  /** Every block is already stripped. */
  lemma BlocksAreStripped(lines: seq<string>)
    ensures forall k :: 0 <= k < |BlocksOf(lines)| ==> Strip(BlocksOf(lines)[k]) == BlocksOf(lines)[k]
  {
    var starts := SegmentStarts(lines, |lines|);
    var closed := ClosedBlocks(lines, starts);
    var last := SegmentText(lines, LastStart(lines, |lines|), |lines|);
    var r := closed + (if last != "" then [last] else []);
    assert BlocksOf(lines) == r;
    forall k | 0 <= k < |r|
      ensures Strip(r[k]) == r[k]
    {
      if k < |closed| {
        ClosedBlockAt(lines, starts, k);
        StripIdempotent(JoinLines(lines[starts[k]..starts[k + 1]]));
      } else {
        StripIdempotent(JoinLines(lines[LastStart(lines, |lines|)..|lines|]));
      }
    }
  }

  /** A joined text begins with its first piece. */
  lemma JoinLinesStartsWith(pieces: seq<string>)
    requires |pieces| >= 1
    ensures StartsWith(JoinLines(pieces), pieces[0])
  {
    var j := JoinLines(pieces);
    if |pieces| > 1 {
      assert j == pieces[0] + ("\n" + JoinLines(pieces[1..]));
    }
    assert j[..|pieces[0]|] == pieces[0];
  }

  /** A segment whose first line opens a block yields a text that opens a block: stripping
      cannot reach the quotes around the name. */
  lemma SegmentOpensBlock(lines: seq<string>, lo: nat, hi: nat)
    requires lo < hi <= |lines| && OpensBlock(lines[lo])
    ensures OpensBlock(SegmentText(lines, lo, hi))
  {
    var l := lines[lo];
    var j := JoinLines(lines[lo..hi]);
    JoinLinesStartsWith(lines[lo..hi]);
    assert j[..|l|] == l;
    var q :| 0 <= q < |l[2..]| && l[2..][q] == '"';
    var c := q + 2;
    assert j[0] == '"' && j[1] == l[1] && j[c] == '"';
    StripIsInfix(j);
    var r := Strip(j);
    assert |j| - |StripLeft(j)| == 0;
    assert c < |r|;
    assert r[0] == '"' && r[1] == l[1] && r[2..][q] == '"';
  }

  /** Every block after the first opens with the quoted name of a thread. */
  lemma LaterBlocksOpen(lines: seq<string>)
    ensures forall k :: 1 <= k < |BlocksOf(lines)| ==> OpensBlock(BlocksOf(lines)[k])
  {
    var starts := SegmentStarts(lines, |lines|);
    var closed := ClosedBlocks(lines, starts);
    var lo := LastStart(lines, |lines|);
    var last := SegmentText(lines, lo, |lines|);
    var r := closed + (if last != "" then [last] else []);
    assert BlocksOf(lines) == r;
    BoundariesAreBoundaries(lines, |lines|);
    forall k | 1 <= k < |r|
      ensures OpensBlock(r[k])
    {
      if k < |closed| {
        ClosedBlockAt(lines, starts, k);
        assert starts[k] == Boundaries(lines, |lines|)[k - 1];
        SegmentOpensBlock(lines, starts[k], starts[k + 1]);
      } else {
        assert lo == Boundaries(lines, |lines|)[|starts| - 2];
        SegmentOpensBlock(lines, lo, |lines|);
      }
    }
  }
}
