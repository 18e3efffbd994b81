/**
 * `_parse_thread_block`: a block's first line is matched as a thread header; the lines after
 * it are trimmed and scanned once, every `java.lang.Thread.State:` line overwriting the state
 * and every `at ` or `- ` line appended to the stack trace.
 */
module BlockParser {
  import opened Wrappers
  import opened Text
  import opened HeaderGrammar

  /** `ThreadInfo`: one parsed thread. The id and the priorities are the digit strings of the
      header, `tid` is hex without `0x`, `nid` keeps `0x`. */
  datatype ThreadInfo = ThreadInfo(
    name: string,
    threadId: string,
    daemon: bool,
    priority: string,
    osPrio: string,
    tid: string,
    nid: string,
    state: string,
    stackTrace: seq<string>)

  const StatePrefix := "java.lang.Thread.State:"

  /** The state a thread has when its block declares none. */
  const UnknownState := "UNKNOWN"

  predicate IsStateLine(t: string) {
    StartsWith(t, StatePrefix)
  }

  predicate IsFrameLine(t: string) {
    StartsWith(t, "at ") || StartsWith(t, "- ")
  }

  /** What a state line declares: the line with every occurrence of the prefix removed, then
      stripped. */
  function StateValue(t: string): string {
    Strip(RemoveAll(t, StatePrefix))
  }

  /** The state after scanning the body lines: the value of the last state line, or
      UNKNOWN. */
  function State(body: seq<string>): string {
    if body == [] then UnknownState
    else
      var t := Strip(body[|body| - 1]);
      if IsStateLine(t) then StateValue(t) else State(body[..|body| - 1])
  }

  /** The stack trace after scanning the body lines: the trimmed frame lines, in order. */
  function Frames(body: seq<string>): seq<string> {
    if body == [] then []
    else
      var t := Strip(body[|body| - 1]);
      Frames(body[..|body| - 1]) + (if !IsStateLine(t) && IsFrameLine(t) then [t] else [])
  }

  /** The thread a block describes, or None when its first line is not a thread header. */
  function BlockThread(block: string): Option<ThreadInfo> {
    var lines := Lines(block);
    var h :- ParseHeader(Strip(lines[0]));
    var body := lines[1..];
    Some(ThreadInfo(h.name, h.threadId, h.daemon, h.priority, h.osPrio, h.tid, h.nid,
                    State(body), Frames(body)))
  }

  /** `_parse_thread_block`. Python's `if not lines` test never fires: splitting a text always
      yields at least one line. */
  method ParseThreadBlock(block: string) returns (r: Option<ThreadInfo>)
    ensures r == BlockThread(block)
  {
    var lines := Lines(block);
    var header := ParseHeader(Strip(lines[0]));
    if header.None? {
      return None;
    }
    var h := header.value;
    var state, stackTrace := ScanBody(lines[1..]);
    r := Some(ThreadInfo(h.name, h.threadId, h.daemon, h.priority, h.osPrio, h.tid, h.nid,
                         state, stackTrace));
  }

  /** The loop of `_parse_thread_block` over the lines after the header: each is trimmed; a
      state line overwrites the state, a frame line is appended to the stack trace. */
  method ScanBody(body: seq<string>) returns (state: string, stackTrace: seq<string>)
    ensures state == State(body) && stackTrace == Frames(body)
  {
    state := UnknownState;
    stackTrace := [];
    var i := 0;
    while i < |body|
      invariant i <= |body|
      invariant state == State(body[..i])
      invariant stackTrace == Frames(body[..i])
    {
      var line := Strip(body[i]);
      ScanStep(body, i);
      if IsStateLine(line) {
        state := StateValue(line);
      } else if IsFrameLine(line) {
        stackTrace := stackTrace + [line];
      }
      i := i + 1;
    }
    assert body[..i] == body;
  }

  /** One more body line: how the state and the stack trace follow it. */
  lemma ScanStep(body: seq<string>, i: nat)
    requires i < |body|
    ensures var t := Strip(body[i]);
            && State(body[..i + 1]) == (if IsStateLine(t) then StateValue(t) else State(body[..i]))
            && Frames(body[..i + 1])
               == Frames(body[..i]) + (if !IsStateLine(t) && IsFrameLine(t) then [t] else [])
  {
    assert body[..i + 1][..i] == body[..i];
  }

  /** No state line: the state stays UNKNOWN. */
  lemma {:induction false} NoDeclarationIsUnknown(body: seq<string>)
    requires forall k :: 0 <= k < |body| ==> !IsStateLine(Strip(body[k]))
    ensures State(body) == UnknownState
  {
    if body != [] {
      NoDeclarationIsUnknown(body[..|body| - 1]);
    }
  }

  /** The last state line decides: lines after it leave the state alone. */
  lemma {:induction false} LastDeclarationWins(body: seq<string>, j: nat)
    requires j < |body| && IsStateLine(Strip(body[j]))
    requires forall k :: j < k < |body| ==> !IsStateLine(Strip(body[k]))
    ensures State(body) == StateValue(Strip(body[j]))
  {
    if j < |body| - 1 {
      LastDeclarationWins(body[..|body| - 1], j);
    }
  }

  /** Scanning more lines extends the stack trace: nothing is dropped or reordered. */
  lemma {:induction false} FramesAppend(a: seq<string>, b: seq<string>)
    ensures Frames(a + b) == Frames(a) + Frames(b)
  {
    if b != [] {
      var c := b[..|b| - 1];
      assert (a + b)[..|a + b| - 1] == a + c;
      assert (a + b)[|a + b| - 1] == b[|b| - 1];
      FramesAppend(a, c);
    } else {
      assert a + b == a;
    }
  }

  /** Lines without a state line do not change the state. */
  lemma {:induction false} StateAppend(a: seq<string>, b: seq<string>)
    requires forall k :: 0 <= k < |b| ==> !IsStateLine(Strip(b[k]))
    ensures State(a + b) == State(a)
  {
    if b != [] {
      var c := b[..|b| - 1];
      assert (a + b)[..|a + b| - 1] == a + c;
      assert (a + b)[|a + b| - 1] == b[|b| - 1];
      StateAppend(a, c);
    } else {
      assert a + b == a;
    }
  }

  /** Every stack-trace entry is a trimmed frame line. */
  lemma {:induction false} FramesAreFrameLines(body: seq<string>)
    ensures forall k :: 0 <= k < |Frames(body)| ==> IsFrameLine(Frames(body)[k])
  {
    if body != [] {
      FramesAreFrameLines(body[..|body| - 1]);
    }
  }

  /** The line jstack prints for a state, indented. */
  function StateLine(v: string): string {
    "   " + (StatePrefix + " " + v)
  }

  /** The lines jstack prints for a stack trace, one tab-indented line per frame. */
  function FrameLines(frames: seq<string>): (r: seq<string>)
    ensures |r| == |frames|
  {
    if frames == [] then []
    else FrameLines(frames[..|frames| - 1]) + ["\t" + frames[|frames| - 1]]
  }

  function HeaderOf(t: ThreadInfo): Header {
    Header(t.name, t.threadId, t.daemon, t.priority, t.osPrio, t.tid, t.nid)
  }

  /** The block jstack prints for a thread: its header, its state line, its frames. */
  function FormatBlock(t: ThreadInfo, status: string): string
    requires |t.nid| >= 2
  {
    JoinLines([FormatHeader(HeaderOf(t), status), StateLine(t.state)] + FrameLines(t.stackTrace))
  }

  /** A frame as jstack prints it after the indentation. */
  predicate PrintedFrame(f: string) {
    IsFrameLine(f) && Trimmed(f) && '\n' !in f
  }

  /** A thread as jstack prints it: a header that can be matched, a one-line state value that
      does not repeat the state prefix, and one-line frames. */
  predicate Printable(t: ThreadInfo) {
    && WellFormedHeader(HeaderOf(t)) && '\n' !in t.name
    && t.state != [] && Trimmed(t.state) && '\n' !in t.state && !Contains(t.state, StatePrefix)
    && forall k :: 0 <= k < |t.stackTrace| ==> PrintedFrame(t.stackTrace[k])
  }

  /** Indentation aside, a state line is the prefix, a space and the value. */
  lemma StateLineStrips(v: string)
    requires v != [] && Trimmed(v)
    ensures Strip(StateLine(v)) == StatePrefix + " " + v
  {
    var decl := StatePrefix + " " + v;
    StripSpacePrefix("   ", decl);
    assert decl[|decl| - 1] == v[|v| - 1];
    StripOfTrimmed(decl);
  }

  /** The value of a declaration is what follows the prefix, when it holds no second prefix. */
  lemma DeclarationValue(v: string)
    requires v != [] && Trimmed(v) && !Contains(v, StatePrefix)
    ensures StateValue(StatePrefix + " " + v) == v
  {
    ContainsCons(' ', v, StatePrefix);
    assert [' '] + v == " " + v;
    RemoveAllLeading(StatePrefix, " " + v);
    assert StatePrefix + " " + v == StatePrefix + (" " + v);
    StripSpacePrefix(" ", v);
    StripOfTrimmed(v);
  }

  /** A state line declares the value printed after the prefix. */
  lemma StateLineDeclares(v: string)
    requires v != [] && Trimmed(v) && !Contains(v, StatePrefix)
    ensures IsStateLine(Strip(StateLine(v)))
    ensures StateValue(Strip(StateLine(v))) == v
  {
    StateLineStrips(v);
    assert (StatePrefix + " " + v)[..|StatePrefix|] == StatePrefix;
    DeclarationValue(v);
  }

  /** One printed frame line: the frame, indented by a tab. */
  lemma FrameLineStrips(f: string)
    requires PrintedFrame(f)
    ensures Strip("\t" + f) == f
    ensures !IsStateLine(f)
    ensures '\n' !in "\t" + f
  {
    StripSpacePrefix("\t", f);
    StripOfTrimmed(f);
    assert f[0] == 'a' || f[0] == '-';
  }

  /** The printed frames scan back to the frames, and declare no state. */
  lemma {:induction false} FrameLinesScan(frames: seq<string>)
    requires forall k :: 0 <= k < |frames| ==> PrintedFrame(frames[k])
    ensures Frames(FrameLines(frames)) == frames
    ensures forall k :: 0 <= k < |frames| ==> !IsStateLine(Strip(FrameLines(frames)[k]))
    ensures forall k :: 0 <= k < |frames| ==> '\n' !in FrameLines(frames)[k]
  {
    if frames != [] {
      var pre := frames[..|frames| - 1];
      var f := frames[|frames| - 1];
      var lines := FrameLines(frames);
      FrameLinesScan(pre);
      FrameLineStrips(f);
      assert lines[..|frames| - 1] == FrameLines(pre);
      assert lines[|frames| - 1] == "\t" + f;
      assert frames == pre + [f];
    }
  }

  /** The body of a printed block scans back to the state and the frames. */
  lemma PrintedBodyScan(t: ThreadInfo)
    requires Printable(t)
    ensures State([StateLine(t.state)] + FrameLines(t.stackTrace)) == t.state
    ensures Frames([StateLine(t.state)] + FrameLines(t.stackTrace)) == t.stackTrace
  {
    var first := [StateLine(t.state)];
    StateLineDeclares(t.state);
    FrameLinesScan(t.stackTrace);
    StateAppend(first, FrameLines(t.stackTrace));
    FramesAppend(first, FrameLines(t.stackTrace));
    assert first[..0] == [];
  }

  /** The printed header ends as its status does. */
  lemma HeaderEnds(h: Header, status: string)
    requires |h.nid| >= 2 && status != []
    ensures FormatHeader(h, status)[0] == '"'
    ensures FormatHeader(h, status)[|FormatHeader(h, status)| - 1] == status[|status| - 1]
  {
    var ids := IdsText(h, OneSpace, OneSpace.afterNid + status);
    var prios := PrioritiesText(h, OneSpace, ids);
    assert ids[|ids| - 1] == status[|status| - 1];
    assert prios[|prios| - 1] == ids[|ids| - 1];
  }

  /** The printed header holds no line feed. */
  lemma HeaderOneLine(h: Header, status: string)
    requires WellFormedHeader(h) && '\n' !in h.name && '\n' !in status
    ensures '\n' !in FormatHeader(h, status)
  {
    var ids := IdsText(h, OneSpace, OneSpace.afterNid + status);
    HexOneLine(h.tid);
    HexOneLine(h.nid[2..]);
    assert '\n' !in ids;
    var prios := PrioritiesText(h, OneSpace, ids);
    DigitsOneLine(h.priority);
    DigitsOneLine(h.osPrio);
    assert '\n' !in prios;
    DigitsOneLine(h.threadId);
    LeadOneLine(h, prios);
  }

  lemma LeadOneLine(h: Header, x: string)
    requires '\n' !in h.name && AllDigits(h.threadId) && '\n' !in x
    ensures '\n' !in LeadText(h, OneSpace, x)
  {
    DigitsOneLine(h.threadId);
  }

  lemma DigitsOneLine(s: string)
    requires AllDigits(s)
    ensures '\n' !in s
  {
  }

  lemma HexOneLine(s: string)
    requires AllLowerHex(s)
    ensures '\n' !in s
  {
  }

  /** The printed header is one trimmed line. */
  lemma PrintedHeaderLine(h: Header, status: string)
    requires WellFormedHeader(h) && '\n' !in h.name
    requires status != [] && Trimmed(status) && '\n' !in status
    ensures '\n' !in FormatHeader(h, status)
    ensures Strip(FormatHeader(h, status)) == FormatHeader(h, status)
  {
    HeaderOneLine(h, status);
    HeaderEnds(h, status);
    StripOfTrimmed(FormatHeader(h, status));
  }

  /** A printed block splits back into its printed lines. */
  lemma PrintedLines(t: ThreadInfo, status: string)
    requires Printable(t)
    requires status != [] && Trimmed(status) && '\n' !in status
    ensures Lines(FormatBlock(t, status))
            == [FormatHeader(HeaderOf(t), status), StateLine(t.state)] + FrameLines(t.stackTrace)
  {
    var pieces := [FormatHeader(HeaderOf(t), status), StateLine(t.state)] + FrameLines(t.stackTrace);
    PrintedHeaderLine(HeaderOf(t), status);
    FrameLinesScan(t.stackTrace);
    assert '\n' !in StateLine(t.state);
    assert forall k :: 0 <= k < |pieces| ==> '\n' !in pieces[k];
    LinesOfJoinLines(pieces);
  }

  /** Parsing the block jstack prints for a thread gives the thread back. */
  lemma BlockRoundTrip(t: ThreadInfo, status: string)
    requires Printable(t)
    requires status != [] && Trimmed(status) && '\n' !in status
    ensures BlockThread(FormatBlock(t, status)) == Some(t)
  {
    var h := HeaderOf(t);
    var body := [StateLine(t.state)] + FrameLines(t.stackTrace);
    var lines := Lines(FormatBlock(t, status));
    PrintedLines(t, status);
    assert lines[0] == FormatHeader(h, status);
    assert lines[1..] == body;
    PrintedHeaderLine(h, status);
    OneSpaceIsValid();
    HeaderRoundTrip(h, OneSpace, status);
    PrintedBodyScan(t);
  }

  /** What the parser returns is a matched header and frame lines only. */
  lemma ParsedThreadShape(block: string, t: ThreadInfo)
    requires BlockThread(block) == Some(t)
    ensures WellFormedHeader(HeaderOf(t))
    ensures forall k :: 0 <= k < |t.stackTrace| ==> IsFrameLine(t.stackTrace[k])
  {
    FramesAreFrameLines(Lines(block)[1..]);
  }
}
