/**
 * The thread header line of a jstack dump,
 *   "NAME" #ID [daemon] prio=P os_prio=O tid=0xHEX nid=0xHEX STATUS [0xADDR]
 * matched as a whole (after stripping) by the pattern
 *   ^"([^"]+)"\s+#(\d+)\s+(daemon\s+)?prio=(\d+)\s+os_prio=(\d+)\s+tid=0x([0-9a-f]+)\s+
 *    nid=(0x[0-9a-f]+)\s+(.+?)(?:\s+\[0x([0-9a-f]+)\])?$
 * Every repetition in it is greedy and followed by a character outside its class, so the match
 * is a single left-to-right scan; the scan below is that pass, one field at a time.
 */
module HeaderGrammar {
  import opened Wrappers
  import opened Text
  import opened Tokens

  /** The captured fields of a header: the status and the bracketed address are matched but
      not kept. `tid` is the hex digits after `tid=0x`; `nid` keeps its `0x`. */
  datatype Header = Header(
    name: string,
    threadId: string,
    daemon: bool,
    priority: string,
    osPrio: string,
    tid: string,
    nid: string)

  predicate Digits1(s: string) {
    |s| > 0 && AllDigits(s)
  }

  predicate Hex1(s: string) {
    |s| > 0 && AllLowerHex(s)
  }

  /** What a successful match can capture. */
  predicate WellFormedHeader(h: Header) {
    && |h.name| > 0 && '"' !in h.name
    && Digits1(h.threadId)
    && Digits1(h.priority)
    && Digits1(h.osPrio)
    && Hex1(h.tid)
    && |h.nid| > 2 && h.nid[..2] == "0x" && Hex1(h.nid[2..])
  }

  /** A key such as `prio=` followed by a run of the field's class (`\d+`, `[0-9a-f]+`). */
  function KeyRun(s: string, key: string, p: char -> bool): (r: Option<(string, string)>)
    ensures r.Some? ==> s == key + r.value.0 + r.value.1 && |r.value.0| > 0
    ensures r.Some? ==> forall i :: 0 <= i < |r.value.0| ==> p(r.value.0[i])
    ensures r.Some? ==> r.value.1 == [] || !p(r.value.1[0])
  {
    var t :- Literal(s, key);
    Run1(t, p)
  }

  /** `(daemon\s+)?` in front of `prio=`: whether the keyword is there, and the text after it.
      Falling back to "absent" when the keyword is not followed by whitespace is exactly the
      regex's backtracking, since `prio=` cannot match at a `d`. */
  function DaemonMarker(s: string): (r: (bool, string))
    ensures r.0 ==> |r.1| < |s|
    ensures !r.0 ==> r.1 == s
  {
    if StartsWith(s, "daemon") && Spaces1(s[6..]).Some? then (true, Spaces1(s[6..]).value)
    else (false, s)
  }

  /** `\s+(.+?)(?:\s+\[0x([0-9a-f]+)\])?$` after the nid, on a line without line feeds: it
      matches exactly when at least one whitespace character is followed by at least one more
      character, because the optional address group may always match empty. */
  predicate HasStatus(rest: string) {
    |rest| >= 2 && IsSpace(rest[0])
  }

  /** The name and the thread id: `"NAME"\s+#(\d+)\s+`. */
  function ParseLead(line: string): (r: Option<(string, string, string)>)
    ensures r.Some? ==> StartsWith(line, "\"" + r.value.0 + "\"")
    ensures r.Some? ==> |r.value.0| > 0 && '"' !in r.value.0 && Digits1(r.value.1)
  {
    var q :- QuotedName(line);
    var s :- Spaces1(q.1);
    var id :- KeyRun(s, "#", IsDigit);
    var t :- Spaces1(id.1);
    assert line[..|q.0| + 2] == "\"" + q.0 + "\"";
    Some((q.0, id.0, t))
  }

  /** The priorities: `prio=(\d+)\s+os_prio=(\d+)\s+`. */
  function ParsePriorities(s: string): (r: Option<(string, string, string)>)
    ensures r.Some? ==> Digits1(r.value.0) && Digits1(r.value.1)
  {
    var prio :- KeyRun(s, "prio=", IsDigit);
    var s1 :- Spaces1(prio.1);
    var os :- KeyRun(s1, "os_prio=", IsDigit);
    var s2 :- Spaces1(os.1);
    Some((prio.0, os.0, s2))
  }

  /** The native ids and the status: `tid=0x([0-9a-f]+)\s+nid=(0x[0-9a-f]+)` then the status. */
  function ParseIds(s: string): (r: Option<(string, string)>)
    ensures r.Some? ==> Hex1(r.value.0) && Hex1(r.value.1)
  {
    var tid :- KeyRun(s, "tid=0x", IsLowerHex);
    var s1 :- Spaces1(tid.1);
    var nid :- KeyRun(s1, "nid=0x", IsLowerHex);
    if HasStatus(nid.1) then Some((tid.0, nid.0)) else None
  }

  /** The header match of `_parse_thread_block` on a stripped header line: the captured
      fields, or None when the line does not match as a whole. */
  function ParseHeader(line: string): (r: Option<Header>)
    ensures r.Some? ==> WellFormedHeader(r.value)
    ensures r.Some? ==> StartsWith(line, "\"" + r.value.name + "\"")
  {
    var lead :- ParseLead(line);
    var d := DaemonMarker(lead.2);
    var prios :- ParsePriorities(d.1);
    var ids :- ParseIds(prios.2);
    assert ("0x" + ids.1)[..2] == "0x" && ("0x" + ids.1)[2..] == ids.1;
    Some(Header(lead.0, lead.1, d.0, prios.0, prios.1, ids.0, "0x" + ids.1))
  }

  /** The whitespace between the fields of a header line, one `\s+` of the pattern each:
      `afterDaemon` is printed only for a daemon thread, `afterNid` precedes the status. */
  datatype Spacing = Spacing(
    afterName: string,
    afterId: string,
    afterDaemon: string,
    afterPrio: string,
    afterOsPrio: string,
    afterTid: string,
    afterNid: string)

  /** A `\s+` run. */
  predicate Gap(w: string) {
    |w| > 0 && AllSpace(w)
  }

  predicate ValidSpacing(sp: Spacing) {
    && Gap(sp.afterName) && Gap(sp.afterId) && Gap(sp.afterDaemon) && Gap(sp.afterPrio)
    && Gap(sp.afterOsPrio) && Gap(sp.afterTid) && Gap(sp.afterNid)
  }

  /** One space between fields, as jstack prints them. */
  const OneSpace := Spacing(" ", " ", " ", " ", " ", " ", " ")

  /** A line of the header grammar: the fields of `h` with the gaps of `sp` between them, then
      the status (with the bracketed address, when there is one, at its end). */
  function HeaderText(h: Header, sp: Spacing, status: string): string
    requires |h.nid| >= 2
  {
    LeadText(h, sp, PrioritiesText(h, sp, IdsText(h, sp, sp.afterNid + status)))
  }

  /** The header line jstack prints for `h`. */
  function FormatHeader(h: Header, status: string): string
    requires |h.nid| >= 2
  {
    HeaderText(h, OneSpace, status)
  }

  /** The daemon keyword and the gap after it, for a daemon thread only. */
  function DaemonText(daemon: bool, w: string): string {
    if daemon then "daemon" + w else ""
  }

  /** The quoted name, the id and the daemon keyword, then `x`. */
  function LeadText(h: Header, sp: Spacing, x: string): string {
    "\"" + h.name + "\"" + (sp.afterName + ("#" + h.threadId + (sp.afterId + (DaemonText(h.daemon, sp.afterDaemon) + x))))
  }

  /** The two priorities, then `x`. */
  function PrioritiesText(h: Header, sp: Spacing, x: string): string {
    "prio=" + h.priority + (sp.afterPrio + ("os_prio=" + h.osPrio + (sp.afterOsPrio + x)))
  }

  /** The two native ids, then `x`. */
  function IdsText(h: Header, sp: Spacing, x: string): string
    requires |h.nid| >= 2
  {
    "tid=0x" + h.tid + (sp.afterTid + ("nid=0x" + h.nid[2..] + x))
  }

  lemma OneSpaceIsValid()
    ensures ValidSpacing(OneSpace)
  {
    assert AllSpace(" ");
  }

  /** A gap opens with a character no field of the header can start with. */
  lemma GapFirst(w: string, x: string)
    requires Gap(w)
    ensures (w + x)[0] == w[0] && IsSpace(w[0]) && !IsDigit(w[0]) && !IsLowerHex(w[0])
  {
  }

  /** A gap in front of a field is read whole. */
  lemma GapThen(w: string, x: string)
    requires Gap(w) && (x == [] || !IsSpace(x[0]))
    ensures Spaces1(w + x) == Some(x)
  {
    StripLeftSpacePrefix(w, x);
    assert (w + x)[0] == w[0];
  }

  lemma KeyRunThen(key: string, run: string, x: string, p: char -> bool)
    requires |run| > 0 && forall i :: 0 <= i < |run| ==> p(run[i])
    requires x == [] || !p(x[0])
    ensures KeyRun(key + run + x, key, p) == Some((run, x))
  {
    assert key + run + x == key + (run + x);
    LiteralThen(key, run + x);
    Run1Then(run, x, p);
  }

  lemma DaemonMarkerThen(daemon: bool, w: string, x: string)
    requires Gap(w) && StartsWith(x, "prio=")
    ensures DaemonMarker(DaemonText(daemon, w) + x) == (daemon, x)
  {
    if daemon {
      DaemonKeywordThen(w, x);
    } else {
      NoDaemonKeyword(x);
    }
  }

  lemma DaemonKeywordThen(w: string, x: string)
    requires Gap(w) && StartsWith(x, "prio=")
    ensures DaemonMarker("daemon" + w + x) == (true, x)
  {
    var s := "daemon" + w + x;
    assert s[6..] == w + x;
    assert s[..6] == "daemon";
    assert x[0] == x[..5][0];
    GapThen(w, x);
  }

  lemma NoDaemonKeyword(x: string)
    requires StartsWith(x, "prio=")
    ensures DaemonMarker("" + x) == (false, x)
  {
    assert "" + x == x;
    assert x[0] == x[..5][0];
    if |x| >= 6 {
      assert x[..6][0] == x[0];
    }
  }

  lemma ParseLeadThen(h: Header, sp: Spacing, x: string)
    requires WellFormedHeader(h) && ValidSpacing(sp) && StartsWith(x, "prio=")
    ensures ParseLead(LeadText(h, sp, x)) == Some((h.name, h.threadId, DaemonText(h.daemon, sp.afterDaemon) + x))
  {
    var after := DaemonText(h.daemon, sp.afterDaemon) + x;
    var rest := "#" + h.threadId + (sp.afterId + after);
    QuotedNameThen(h.name, sp.afterName + rest);
    assert rest[0] == '#';
    GapThen(sp.afterName, rest);
    GapFirst(sp.afterId, after);
    KeyRunThen("#", h.threadId, sp.afterId + after, IsDigit);
    AfterIdThen(h.daemon, sp.afterId, sp.afterDaemon, x);
    ParseLeadStages(LeadText(h, sp, x), h.name, sp.afterName + rest, rest, h.threadId, sp.afterId + after, after);
  }

  /** The text after the thread id opens with `daemon` or `prio=`, so the gap is read whole. */
  lemma AfterIdThen(daemon: bool, gap: string, w: string, x: string)
    requires Gap(gap) && StartsWith(x, "prio=")
    ensures Spaces1(gap + (DaemonText(daemon, w) + x)) == Some(DaemonText(daemon, w) + x)
  {
    var after := DaemonText(daemon, w) + x;
    assert after[0] == 'd' || after[0] == x[..5][0];
    GapThen(gap, after);
  }

  lemma ParseLeadStages(line: string, name: string, q: string, s: string, id: string, t0: string, t: string)
    requires QuotedName(line) == Some((name, q)) && Spaces1(q) == Some(s)
    requires KeyRun(s, "#", IsDigit) == Some((id, t0)) && Spaces1(t0) == Some(t)
    ensures ParseLead(line) == Some((name, id, t))
  {
  }

  lemma ParsePrioritiesThen(h: Header, sp: Spacing, x: string)
    requires WellFormedHeader(h) && ValidSpacing(sp) && x != [] && !IsSpace(x[0])
    ensures ParsePriorities(PrioritiesText(h, sp, x)) == Some((h.priority, h.osPrio, x))
  {
    var tail := "os_prio=" + h.osPrio + (sp.afterOsPrio + x);
    GapFirst(sp.afterPrio, tail);
    KeyRunThen("prio=", h.priority, sp.afterPrio + tail, IsDigit);
    GapThen(sp.afterPrio, tail);
    GapFirst(sp.afterOsPrio, x);
    KeyRunThen("os_prio=", h.osPrio, sp.afterOsPrio + x, IsDigit);
    GapThen(sp.afterOsPrio, x);
  }

  lemma ParseIdsThen(h: Header, sp: Spacing, status: string)
    requires WellFormedHeader(h) && ValidSpacing(sp) && |status| > 0
    ensures ParseIds(IdsText(h, sp, sp.afterNid + status)) == Some((h.tid, h.nid[2..]))
  {
    var rest := sp.afterNid + status;
    var tail := "nid=0x" + h.nid[2..] + rest;
    GapFirst(sp.afterTid, tail);
    KeyRunThen("tid=0x", h.tid, sp.afterTid + tail, IsLowerHex);
    GapThen(sp.afterTid, tail);
    GapFirst(sp.afterNid, status);
    KeyRunThen("nid=0x", h.nid[2..], rest, IsLowerHex);
  }

  /** The header match is the four stages in sequence. */
  lemma ParseHeaderStages(line: string, lead: (string, string, string), prios: (string, string, string))
    requires ParseLead(line) == Some(lead)
    requires ParsePriorities(DaemonMarker(lead.2).1) == Some(prios)
    ensures ParseHeader(line) == (
      match ParseIds(prios.2)
      case None => None
      case Some(ids) => Some(Header(lead.0, lead.1, DaemonMarker(lead.2).0, prios.0, prios.1, ids.0, "0x" + ids.1)))
  {
  }

  /** Everything up to the priorities of a header line is read back as written. */
  lemma LeadAndPrioritiesThen(h: Header, sp: Spacing, x: string)
    requires WellFormedHeader(h) && ValidSpacing(sp) && x != [] && !IsSpace(x[0])
    ensures ParseHeader(LeadText(h, sp, PrioritiesText(h, sp, x))) == (
      match ParseIds(x)
      case None => None
      case Some(ids) => Some(Header(h.name, h.threadId, h.daemon, h.priority, h.osPrio, ids.0, "0x" + ids.1)))
  {
    var prios := PrioritiesText(h, sp, x);
    assert StartsWith(prios, "prio=");
    ParseLeadThen(h, sp, prios);
    DaemonMarkerThen(h.daemon, sp.afterDaemon, prios);
    ParsePrioritiesThen(h, sp, x);
    ParseHeaderStages(LeadText(h, sp, prios), (h.name, h.threadId, DaemonText(h.daemon, sp.afterDaemon) + prios),
      (h.priority, h.osPrio, x));
  }

  /** Every line of the header grammar matches, and the match captures the fields it was
      written from, whatever the gaps and the one-line status: the daemon flag is true
      exactly when the keyword is there. */
  lemma HeaderRoundTrip(h: Header, sp: Spacing, status: string)
    requires WellFormedHeader(h) && ValidSpacing(sp) && |status| > 0 && '\n' !in status
    ensures ParseHeader(HeaderText(h, sp, status)) == Some(h)
  {
    var ids := IdsText(h, sp, sp.afterNid + status);
    LeadAndPrioritiesThen(h, sp, ids);
    ParseIdsThen(h, sp, status);
    NidKeepsPrefix(h);
  }

  lemma NidKeepsPrefix(h: Header)
    requires WellFormedHeader(h)
    ensures "0x" + h.nid[2..] == h.nid
  {
    assert h.nid == h.nid[..2] + h.nid[2..];
  }

  /** What a successful `\s+` read skipped is a gap. */
  lemma SpacesShape(s: string) returns (w: string)
    requires Spaces1(s).Some?
    ensures Gap(w) && s == w + Spaces1(s).value
  {
    var t := Spaces1(s).value;
    w := s[..|s| - |t|];
    assert s == w + t;
  }

  /** A line whose lead is read is the quoted name, a gap, the id, a gap and the rest. */
  lemma LeadShape(line: string) returns (afterName: string, afterId: string)
    requires ParseLead(line).Some?
    ensures var r := ParseLead(line).value;
            && Gap(afterName) && Gap(afterId)
            && line == "\"" + r.0 + "\"" + (afterName + ("#" + r.1 + (afterId + r.2)))
  {
    var q := QuotedName(line).value;
    var id := KeyRun(Spaces1(q.1).value, "#", IsDigit).value;
    afterName := SpacesShape(q.1);
    afterId := SpacesShape(id.1);
  }

  /** The daemon keyword is read only together with the gap after it. */
  lemma DaemonShape(s: string) returns (w: string)
    ensures Gap(w) && s == DaemonText(DaemonMarker(s).0, w) + DaemonMarker(s).1
  {
    if DaemonMarker(s).0 {
      w := SpacesShape(s[6..]);
      assert s == s[..6] + s[6..];
    } else {
      w := " ";
      assert AllSpace(w);
    }
  }

  lemma PrioritiesShape(s: string) returns (afterPrio: string, afterOsPrio: string)
    requires ParsePriorities(s).Some?
    ensures var r := ParsePriorities(s).value;
            && Gap(afterPrio) && Gap(afterOsPrio)
            && s == "prio=" + r.0 + (afterPrio + ("os_prio=" + r.1 + (afterOsPrio + r.2)))
  {
    var prio := KeyRun(s, "prio=", IsDigit).value;
    var os := KeyRun(Spaces1(prio.1).value, "os_prio=", IsDigit).value;
    afterPrio := SpacesShape(prio.1);
    afterOsPrio := SpacesShape(os.1);
  }

  lemma IdsShape(s: string) returns (afterTid: string, afterNid: string, status: string)
    requires ParseIds(s).Some?
    ensures var r := ParseIds(s).value;
            && Gap(afterTid) && Gap(afterNid) && status != []
            && s == "tid=0x" + r.0 + (afterTid + ("nid=0x" + r.1 + (afterNid + status)))
  {
    var tid := KeyRun(s, "tid=0x", IsLowerHex).value;
    var nid := KeyRun(Spaces1(tid.1).value, "nid=0x", IsLowerHex).value;
    afterTid := SpacesShape(tid.1);
    assert HasStatus(nid.1);
    afterNid, status := StatusShape(nid.1);
  }

  /** The status text after the nid: one whitespace character, then at least one more. */
  lemma StatusShape(rest: string) returns (w: string, status: string)
    requires HasStatus(rest)
    ensures Gap(w) && status != [] && rest == w + status
  {
    w := rest[..1];
    status := rest[1..];
    assert rest == w + status;
  }

  /** Every line the header match accepts is a line of the header grammar, written from the
      fields it captured: no field, keyword or gap is optional except the daemon keyword. */
  lemma ParsedHeaderShape(line: string, h: Header) returns (sp: Spacing, status: string)
    requires ParseHeader(line) == Some(h)
    ensures ValidSpacing(sp) && status != [] && line == HeaderText(h, sp, status)
  {
    var lead := ParseLead(line).value;
    var d := DaemonMarker(lead.2);
    var prios := ParsePriorities(d.1).value;
    var ids := ParseIds(prios.2).value;
    var afterName, afterId := LeadShape(line);
    var afterDaemon := DaemonShape(lead.2);
    var afterPrio, afterOsPrio := PrioritiesShape(d.1);
    var afterTid, afterNid, rest := IdsShape(prios.2);
    sp := Spacing(afterName, afterId, afterDaemon, afterPrio, afterOsPrio, afterTid, afterNid);
    status := rest;
    assert h.nid[2..] == ids.1;
  }

  /** Each part of a header line ends with the text after it. */
  lemma LeadTextAppend(h: Header, sp: Spacing, x: string, y: string)
    ensures LeadText(h, sp, x + y) == LeadText(h, sp, x) + y
  {
  }

  lemma PrioritiesTextAppend(h: Header, sp: Spacing, x: string, y: string)
    ensures PrioritiesText(h, sp, x + y) == PrioritiesText(h, sp, x) + y
  {
  }

  lemma IdsTextAppend(h: Header, sp: Spacing, x: string, y: string)
    requires |h.nid| >= 2
    ensures IdsText(h, sp, x + y) == IdsText(h, sp, x) + y
  {
  }

  /** A header line ends with its status. */
  lemma HeaderTextEnds(h: Header, sp: Spacing, status: string)
    requires |h.nid| >= 2
    ensures HeaderText(h, sp, status) == HeaderText(h, sp, []) + status
  {
    var ids := IdsText(h, sp, sp.afterNid + []);
    var prios := PrioritiesText(h, sp, ids);
    assert sp.afterNid + status == (sp.afterNid + []) + status;
    IdsTextAppend(h, sp, sp.afterNid + [], status);
    PrioritiesTextAppend(h, sp, ids, status);
    LeadTextAppend(h, sp, prios, status);
  }

  lemma NoLineFeedInTail(pre: string, x: string)
    requires '\n' !in pre + x
    ensures '\n' !in x
  {
  }

  /** On a line without line feeds, the header match succeeds with `h` exactly when the line
      is in the header grammar written from `h`: the match both accepts every such line and
      accepts nothing else. */
  lemma HeaderGrammarExact(line: string, h: Header)
    requires '\n' !in line
    ensures ParseHeader(line) == Some(h)
            <==> && WellFormedHeader(h)
                 && exists sp, status :: && ValidSpacing(sp) && status != [] && '\n' !in status
                                         && line == HeaderText(h, sp, status)
  {
    if ParseHeader(line) == Some(h) {
      var sp, status := ParsedHeaderShape(line, h);
      HeaderTextEnds(h, sp, status);
      NoLineFeedInTail(HeaderText(h, sp, []), status);
    }
    if WellFormedHeader(h) && exists sp, status :: && ValidSpacing(sp) && status != [] && '\n' !in status
                                                   && line == HeaderText(h, sp, status) {
      var sp, status :| && ValidSpacing(sp) && status != [] && '\n' !in status
                        && line == HeaderText(h, sp, status);
      HeaderRoundTrip(h, sp, status);
    }
  }

  /** A token between `os_prio` and `tid`, such as the `cpu=... elapsed=...` fields newer JVMs
      print there, makes the whole header fail to match. */
  lemma ExtraTokenRejected(h: Header, sp: Spacing, extra: string, rest: string)
    requires WellFormedHeader(h) && ValidSpacing(sp) && extra != [] && extra[0] != 't' && !IsSpace(extra[0])
    ensures ParseHeader(LeadText(h, sp, PrioritiesText(h, sp, extra + rest))) == None
  {
    LeadAndPrioritiesThen(h, sp, extra + rest);
    assert (extra + rest)[0] == extra[0];
  }

  /** Hex digits are lower case only: a native thread id written with an upper-case digit
      makes the whole header fail to match. */
  lemma UpperCaseTidRejected(h: Header, sp: Spacing, lower: string, upper: char, x: string)
    requires WellFormedHeader(h) && ValidSpacing(sp) && AllLowerHex(lower) && 'A' <= upper <= 'F'
    ensures ParseHeader(LeadText(h, sp, PrioritiesText(h, sp, "tid=0x" + lower + ([upper] + x)))) == None
  {
    LeadAndPrioritiesThen(h, sp, "tid=0x" + lower + ([upper] + x));
    UpperCaseTidStops(lower, upper, x);
  }

  lemma UpperCaseTidStops(lower: string, upper: char, x: string)
    requires AllLowerHex(lower) && 'A' <= upper <= 'F'
    ensures ParseIds("tid=0x" + lower + ([upper] + x)) == None
  {
    var y := [upper] + x;
    assert y[0] == upper && !IsLowerHex(upper) && !IsSpace(upper);
    if |lower| > 0 {
      KeyRunThen("tid=0x", lower, y, IsLowerHex);
    } else {
      assert "tid=0x" + lower + y == "tid=0x" + y;
      LiteralThen("tid=0x", y);
    }
  }

  /** A header that ends right after the nid has no status, and fails to match. */
  lemma MissingStatusRejected(h: Header, sp: Spacing)
    requires WellFormedHeader(h) && ValidSpacing(sp)
    ensures ParseHeader(LeadText(h, sp, PrioritiesText(h, sp, IdsText(h, sp, "")))) == None
  {
    LeadAndPrioritiesThen(h, sp, IdsText(h, sp, ""));
    NoStatusStops(h, sp);
  }

  lemma NoStatusStops(h: Header, sp: Spacing)
    requires WellFormedHeader(h) && ValidSpacing(sp)
    ensures ParseIds(IdsText(h, sp, "")) == None
  {
    var tail := "nid=0x" + h.nid[2..];
    GapFirst(sp.afterTid, tail);
    KeyRunThen("tid=0x", h.tid, sp.afterTid + tail, IsLowerHex);
    assert tail[0] == 'n';
    GapThen(sp.afterTid, tail);
    assert tail == "nid=0x" + h.nid[2..] + [];
    KeyRunThen("nid=0x", h.nid[2..], [], IsLowerHex);
  }
}
