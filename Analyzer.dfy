/**
 * `JStackAnalyzer`: the object that reads a dump and keeps what it found. Reading the file is
 * left out; `ParseJStackOutput` takes the text of the dump.
 */
module Analyzer {
  import opened Wrappers
  import opened Text
  import opened Blocks
  import opened BlockParser
  import opened Statistics
  import opened HeaderGrammar

  /** The banner line `jstack` prints above the threads. */
  const BannerText := "Full thread dump"

  /** Only this many lines at the top are searched for the banner and the timestamp. */
  const PreambleLines := 10

  /** `lines[:10]`. */
  function Preamble(lines: seq<string>): (r: seq<string>)
    ensures |r| == if |lines| <= PreambleLines then |lines| else PreambleLines
    ensures r <= lines
  {
    if |lines| <= PreambleLines then lines else lines[..PreambleLines]
  }

  /** `re.match(r'\d{4}-\d{2}-\d{2}', line)`: a date at the very start of the line. */
  predicate IsDateLine(line: string) {
    && |line| >= 10
    && IsDigit(line[0]) && IsDigit(line[1]) && IsDigit(line[2]) && IsDigit(line[3])
    && line[4] == '-' && IsDigit(line[5]) && IsDigit(line[6])
    && line[7] == '-' && IsDigit(line[8]) && IsDigit(line[9])
  }

  /** A timestamp kept from a dated line, stripped, still opens with the date. */
  lemma DatedTimestamp(line: string)
    requires IsDateLine(line)
    ensures |Strip(line)| >= 10 && Strip(line)[..10] == line[..10]
  {
    StripIsInfix(line);
    var lo := |line| - |StripLeft(line)|;
    var r := Strip(line);
    assert !IsSpace(line[0]) && !IsSpace(line[9]);
    assert lo == 0;
    assert |r| >= 10;
    assert r[..10] == line[lo..lo + |r|][..10];
  }

  /** The JVM description after scanning `lines`: the last banner line, stripped, or the
      value held before. */
  function JvmInfoOf(lines: seq<string>, before: Option<string>): Option<string> {
    if lines == [] then before
    else
      var line := lines[|lines| - 1];
      if Contains(line, BannerText) then Some(Strip(line)) else JvmInfoOf(lines[..|lines| - 1], before)
  }

  /** The timestamp after scanning `lines`: the last dated line that is not a banner line,
      stripped, or the value held before. */
  function TimestampOf(lines: seq<string>, before: Option<string>): Option<string> {
    if lines == [] then before
    else
      var line := lines[|lines| - 1];
      if !Contains(line, BannerText) && IsDateLine(line) then Some(Strip(line))
      else TimestampOf(lines[..|lines| - 1], before)
  }

  /** The values present, in order: `[t for t in results if t]`. */
  function Somes(results: seq<Option<ThreadInfo>>): seq<ThreadInfo> {
    if results == [] then []
    else
      var r := results[|results| - 1];
      Somes(results[..|results| - 1]) + (if r.Some? then [r.value] else [])
  }

  /** `f` applied to each block. */
  function Mapped(blocks: seq<string>, f: string -> Option<ThreadInfo>): (r: seq<Option<ThreadInfo>>)
    ensures |r| == |blocks|
  {
    seq(|blocks|, i requires 0 <= i < |blocks| => f(blocks[i]))
  }

  /** The parse of each block. */
  function ParseAll(blocks: seq<string>): seq<Option<ThreadInfo>> {
    Mapped(blocks, BlockThread)
  }

  /** The threads of the blocks whose header parses, in block order. */
  function Accepted(blocks: seq<string>): seq<ThreadInfo> {
    Somes(ParseAll(blocks))
  }

  /** The threads a dump describes. */
  function ParsedThreads(content: string): seq<ThreadInfo> {
    Accepted(BlocksOf(Lines(content)))
  }

  class JStackAnalyzer {
    var inputFile: string
    var threads: seq<ThreadInfo>
    var timestamp: Option<string>
    var jvmInfo: Option<string>

    constructor(inputFile: string)
      ensures this.inputFile == inputFile
      ensures threads == [] && timestamp == None && jvmInfo == None
    {
      this.inputFile := inputFile;
      threads := [];
      timestamp := None;
      jvmInfo := None;
    }

    /** `parse_jstack_output` on the text of the dump: the banner and the timestamp come from
        the first ten lines, and one thread is appended per block whose header parses. */
    method ParseJStackOutput(content: string)
      modifies this
      ensures inputFile == old(inputFile)
      ensures jvmInfo == JvmInfoOf(Preamble(Lines(content)), old(jvmInfo))
      ensures timestamp == TimestampOf(Preamble(Lines(content)), old(timestamp))
      ensures threads == old(threads) + ParsedThreads(content)
    {
      ScanPreamble(Lines(content));
      var blocks := SplitThreadBlocks(content);
      AppendThreads(blocks);
    }

    /** The last part of `parse_jstack_output`: each block parsed in turn, its thread appended
        when its header matched. */
    method AppendThreads(blocks: seq<string>)
      modifies this
      ensures inputFile == old(inputFile) && jvmInfo == old(jvmInfo) && timestamp == old(timestamp)
      ensures threads == old(threads) + Accepted(blocks)
    {
      ghost var results: seq<Option<ThreadInfo>> := [];
      for k := 0 to |blocks|
        invariant results == Mapped(blocks[..k], BlockThread)
        invariant inputFile == old(inputFile) && jvmInfo == old(jvmInfo) && timestamp == old(timestamp)
        invariant threads == old(threads) + Somes(results)
      {
        var thread := ParseThreadBlock(blocks[k]);
        MappedSnoc(blocks, k, BlockThread);
        SomesSnoc(results, thread);
        if thread.Some? {
          AppendAssociates(old(threads), Somes(results), thread.value);
          threads := threads + [thread.value];
        }
        results := results + [thread];
      }
      assert blocks[..|blocks|] == blocks;
    }

    /** The first part of `parse_jstack_output`: the banner and the timestamp searched for in
        the first ten lines, later lines overriding earlier ones. */
    method ScanPreamble(lines: seq<string>)
      modifies this
      ensures inputFile == old(inputFile) && threads == old(threads)
      ensures jvmInfo == JvmInfoOf(Preamble(lines), old(jvmInfo))
      ensures timestamp == TimestampOf(Preamble(lines), old(timestamp))
    {
      var head := Preamble(lines);
      for i := 0 to |head|
        invariant inputFile == old(inputFile) && threads == old(threads)
        invariant jvmInfo == JvmInfoOf(head[..i], old(jvmInfo))
        invariant timestamp == TimestampOf(head[..i], old(timestamp))
      {
        var line := head[i];
        PreambleStep(head, i, old(jvmInfo), old(timestamp));
        if Contains(line, BannerText) {
          jvmInfo := Some(Strip(line));
        } else if IsDateLine(line) {
          timestamp := Some(Strip(line));
        }
      }
      assert head[..|head|] == head;
    }

    /** `analyze_threads`: the totals and the state tally over the threads, then one pass that
        files each thread under its group, its state list and its first frame. */
    method AnalyzeThreads() returns (stats: Stats)
      ensures stats == StatsOf(threads)
    {
      var groups: map<string, seq<ThreadInfo>> := map[];
      var blocked: seq<ThreadInfo> := [];
      var waiting: seq<ThreadInfo> := [];
      var runnable: seq<ThreadInfo> := [];
      var stackTraces: multiset<string> := multiset{};
      var i := 0;
      while i < |threads|
        invariant i <= |threads|
        invariant groups == GroupsOf(threads[..i])
        invariant blocked == InBucket(threads[..i], BlockedBucket)
        invariant waiting == InBucket(threads[..i], WaitingBucket)
        invariant runnable == InBucket(threads[..i], RunnableBucket)
        invariant stackTraces == StackKeysOf(threads[..i])
      {
        var thread := threads[i];
        assert threads[..i + 1][..i] == threads[..i];
        var group := Classify.ThreadGroup(thread.name);
        groups := AddToGroup(groups, group, thread);
        if Contains(thread.state, "BLOCKED") {
          blocked := blocked + [thread];
        } else if Contains(thread.state, "WAITING") || Contains(thread.state, "TIMED_WAITING") {
          waiting := waiting + [thread];
        } else if Contains(thread.state, "RUNNABLE") {
          runnable := runnable + [thread];
        }
        if thread.stackTrace != [] {
          var key := if thread.stackTrace != [] then thread.stackTrace[0] else "empty";
          stackTraces := stackTraces + multiset{key};
        }
        i := i + 1;
      }
      assert threads[..i] == threads;
      stats := Stats(|threads|, DaemonCount(threads), NonDaemonCount(threads), StatesOf(threads),
                     groups, blocked, waiting, runnable, stackTraces);
    }
  }

  lemma AppendAssociates(a: seq<ThreadInfo>, b: seq<ThreadInfo>, x: ThreadInfo)
    ensures (a + b) + [x] == a + (b + [x])
  {
  }

  /** One more preamble line. */
  lemma PreambleStep(lines: seq<string>, i: nat, jvm: Option<string>, ts: Option<string>)
    requires i < |lines|
    ensures JvmInfoOf(lines[..i + 1], jvm)
            == (if Contains(lines[i], BannerText) then Some(Strip(lines[i])) else JvmInfoOf(lines[..i], jvm))
    ensures TimestampOf(lines[..i + 1], ts)
            == (if !Contains(lines[i], BannerText) && IsDateLine(lines[i]) then Some(Strip(lines[i]))
                else TimestampOf(lines[..i], ts))
  {
    assert lines[..i + 1][..i] == lines[..i];
  }

  /** One more block. */
  lemma MappedSnoc(blocks: seq<string>, k: nat, f: string -> Option<ThreadInfo>)
    requires k < |blocks|
    ensures Mapped(blocks[..k + 1], f) == Mapped(blocks[..k], f) + [f(blocks[k])]
  {
  }

  lemma MappedAppend(a: seq<string>, b: seq<string>, f: string -> Option<ThreadInfo>)
    ensures Mapped(a + b, f) == Mapped(a, f) + Mapped(b, f)
  {
  }

  /** One more result. */
  lemma SomesSnoc(results: seq<Option<ThreadInfo>>, r: Option<ThreadInfo>)
    ensures Somes(results + [r]) == Somes(results) + (if r.Some? then [r.value] else [])
  {
    assert (results + [r])[..|results|] == results;
  }

  /** Parsing two texts' blocks in turn appends their threads in turn. */
  lemma {:induction false} SomesAppend(a: seq<Option<ThreadInfo>>, b: seq<Option<ThreadInfo>>)
    ensures Somes(a + b) == Somes(a) + Somes(b)
  {
    if b != [] {
      var c := b[..|b| - 1];
      assert (a + b)[..|a + b| - 1] == a + c;
      assert (a + b)[|a + b| - 1] == b[|b| - 1];
      SomesAppend(a, c);
    } else {
      assert a + b == a;
    }
  }

  /** The threads of two runs of blocks are those of the first run, then those of the
      second. */
  lemma AcceptedAppend(a: seq<string>, b: seq<string>)
    ensures Accepted(a + b) == Accepted(a) + Accepted(b)
  {
    MappedAppend(a, b, BlockThread);
    SomesAppend(ParseAll(a), ParseAll(b));
  }

  /** A block yields one thread at most. */
  lemma {:induction false} SomesAtMostOne(results: seq<Option<ThreadInfo>>)
    ensures |Somes(results)| <= |results|
  {
    if results != [] {
      SomesAtMostOne(results[..|results| - 1]);
    }
  }

  /** Every value kept is one of the results. */
  lemma {:induction false} SomesFromResults(results: seq<Option<ThreadInfo>>)
    ensures forall i :: 0 <= i < |Somes(results)|
              ==> exists j :: 0 <= j < |results| && results[j] == Some(Somes(results)[i])
  {
    if results != [] {
      var pre := results[..|results| - 1];
      var last := results[|results| - 1];
      SomesFromResults(pre);
      var r := Somes(results);
      assert r == Somes(pre) + (if last.Some? then [last.value] else []);
      forall i | 0 <= i < |r|
        ensures exists j :: 0 <= j < |results| && results[j] == Some(r[i])
      {
        if i < |Somes(pre)| {
          var j :| 0 <= j < |pre| && pre[j] == Some(Somes(pre)[i]);
          assert results[j] == pre[j] && r[i] == Somes(pre)[i];
        } else {
          assert last == Some(r[i]);
        }
      }
    } else {
      assert Somes(results) == [];
    }
  }

  /** Every accepted thread is the thread some block parses to, and there is at most one per
      block. */
  lemma AcceptedFromBlocks(blocks: seq<string>)
    ensures |Accepted(blocks)| <= |blocks|
    ensures forall i :: 0 <= i < |Accepted(blocks)|
              ==> exists j :: 0 <= j < |blocks| && BlockThread(blocks[j]) == Some(Accepted(blocks)[i])
  {
    SomesAtMostOne(ParseAll(blocks));
    SomesFromResults(ParseAll(blocks));
  }

  /** Every thread of a dump has a matched header and frame lines only; so its statistics
      never tally the `"empty"` key. */
  lemma ParsedThreadsShape(content: string)
    ensures forall i :: 0 <= i < |ParsedThreads(content)| ==> WellFormedHeader(HeaderOf(ParsedThreads(content)[i]))
    ensures "empty" !in StatsOf(ParsedThreads(content)).stackTraces
  {
    var blocks := BlocksOf(Lines(content));
    var ts := ParsedThreads(content);
    AcceptedFromBlocks(blocks);
    forall i | 0 <= i < |ts|
      ensures WellFormedHeader(HeaderOf(ts[i]))
      ensures forall k :: 0 <= k < |ts[i].stackTrace| ==> IsFrameLine(ts[i].stackTrace[k])
    {
      var j :| 0 <= j < |blocks| && BlockThread(blocks[j]) == Some(ts[i]);
      ParsedThreadShape(blocks[j], ts[i]);
    }
    NoEmptyKey(ts);
  }

  /** The last banner line in the scanned lines gives the JVM description. */
  lemma {:induction false} LastBannerWins(lines: seq<string>, before: Option<string>, j: nat)
    requires j < |lines| && Contains(lines[j], BannerText)
    requires forall k :: j < k < |lines| ==> !Contains(lines[k], BannerText)
    ensures JvmInfoOf(lines, before) == Some(Strip(lines[j]))
  {
    if j < |lines| - 1 {
      LastBannerWins(lines[..|lines| - 1], before, j);
    }
  }

  /** Without a banner line the JVM description is left as it was. */
  lemma {:induction false} NoBannerKeepsJvmInfo(lines: seq<string>, before: Option<string>)
    requires forall k :: 0 <= k < |lines| ==> !Contains(lines[k], BannerText)
    ensures JvmInfoOf(lines, before) == before
  {
    if lines != [] {
      NoBannerKeepsJvmInfo(lines[..|lines| - 1], before);
    }
  }

  /** The last dated line that is not a banner line gives the timestamp; a line that is both
      counts as a banner only. */
  lemma {:induction false} LastDateWins(lines: seq<string>, before: Option<string>, j: nat)
    requires j < |lines| && IsDateLine(lines[j]) && !Contains(lines[j], BannerText)
    requires forall k :: j < k < |lines| ==> Contains(lines[k], BannerText) || !IsDateLine(lines[k])
    ensures TimestampOf(lines, before) == Some(Strip(lines[j]))
  {
    if j < |lines| - 1 {
      LastDateWins(lines[..|lines| - 1], before, j);
    }
  }

  /** Without such a line the timestamp is left as it was. */
  lemma {:induction false} NoDateKeepsTimestamp(lines: seq<string>, before: Option<string>)
    requires forall k :: 0 <= k < |lines| ==> Contains(lines[k], BannerText) || !IsDateLine(lines[k])
    ensures TimestampOf(lines, before) == before
  {
    if lines != [] {
      NoDateKeepsTimestamp(lines[..|lines| - 1], before);
    }
  }
}
