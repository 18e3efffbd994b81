# jstack analyzer, modelled in Dafny

This project models the analysis core of the jstack analyzer script
(`jstack-analyzer/scripts/jstack_analyzer.py`). The script reads the text a JVM's `jstack` tool
prints and turns it into per-thread records and aggregated statistics:

- It cuts the dump into one text block per thread, at every line that opens with a quoted thread
  name.
- It matches each block's first line against a fixed header pattern. From the lines after it, it
  reads the thread state and the stack frames.
- It records the JVM banner and the timestamp found in the first ten lines.
- It counts threads by daemon flag and by state, groups them by name, files them into
  blocked/waiting/runnable lists, and tallies their first stack frames.
- It classifies thread names and thread states for display.
- It keeps one representative thread per name pattern.

The modules follow the script's structure:

| module | what it holds |
|---|---|
| `Text` | The Python string operations the script relies on: `in`, `strip()`, `split('\n')`, `replace`, `lower()`. |
| `Tokens` | The pieces of the header pattern: quoted name, whitespace run, literal, digit/hex run. |
| `HeaderGrammar` | The header match: a one-pass scanner, and the lines of the header grammar with any whitespace between the fields. |
| `Blocks` | `_split_thread_blocks`: its line loop, and a reference definition of the blocks. |
| `BlockParser` | `ThreadInfo` and `_parse_thread_block`: the body loop, and the block a printed thread gives. |
| `Statistics` | `analyze_threads`, written as functions of the thread list. |
| `Classify` | `_get_thread_group` and `_get_state_class`. |
| `Dedup` | `_deduplicate_threads_by_name_pattern`. |
| `Analyzer` | The `JStackAnalyzer` class. `ParseJStackOutput` takes the dump text and updates `threads`, `jvmInfo` and `timestamp` in place. `AnalyzeThreads` builds the statistics record. |

The loops of the script are methods with loop invariants. Each method is proved equal to a
specification function, and the properties the script promises are lemmas about those functions.
Python's `Counter` is a `multiset`. The `defaultdict(list)` of groups is a `map` from label to the
threads of that label, in dump order. `None` is `Option.None`.

Four things the code does that are easy to miss:

- **The last state line wins.** A block with several `java.lang.Thread.State:` lines takes its
  state from the last one (`BlockParser.LastDeclarationWins`).
- **The preamble is a block.** The text before the first thread header (banner, timestamp) is not
  skipped. It becomes a block of its own, and the header match then rejects that block. Only
  blocks after the first are sure to open with a quoted name (`Blocks.LaterBlocksOpen`).
- **A state can be empty.** A line that is just `java.lang.Thread.State:` gives the state `""`.
- **The dedup key has no trailing hyphen.** The pattern of `pool-1-thread-2` is `pool-1-thread`
  (`Dedup.ExecutorPattern`).

## Model

| member | source | states |
|---|---|---|
| Analyzer.JStackAnalyzer.constructor | jstack-analyzer/scripts/jstack_analyzer.py:30-34 | A new analyzer keeps its input file name. It starts with no threads, no timestamp and no JVM description. |
| Analyzer.JStackAnalyzer.ParseJStackOutput | jstack-analyzer/scripts/jstack_analyzer.py:36-55 | The thread list becomes the old list followed by one thread per block whose header parses, in block order; it is never cleared. The JVM description and the timestamp become what scanning the first ten lines gives, starting from their old values. The file name is unchanged. |
| Analyzer.JStackAnalyzer.ScanPreamble | jstack-analyzer/scripts/jstack_analyzer.py:42-47 | Over at most the first ten lines, a banner line sets the JVM description and otherwise a dated line sets the timestamp, each stripped. The thread list is untouched. |
| Analyzer.Preamble | jstack-analyzer/scripts/jstack_analyzer.py:43 | `lines[:10]` is a prefix of the lines: all of them when there are at most ten, otherwise exactly ten. |
| Analyzer.IsDateLine | jstack-analyzer/scripts/jstack_analyzer.py:46 | `re.match(r'\d{4}-\d{2}-\d{2}', line)`: the line opens with four digits, a hyphen, two digits, a hyphen and two digits. It has no contract of its own; `Analyzer.LastDateWins` states which dated line gives the timestamp and `Analyzer.DatedTimestamp` what that timestamp holds. |
| Analyzer.DatedTimestamp | jstack-analyzer/scripts/jstack_analyzer.py:46-47 | The stripped timestamp kept from a dated line still opens with the matched date. |
| Analyzer.LastBannerWins | jstack-analyzer/scripts/jstack_analyzer.py:43-45 | The last scanned line holding `Full thread dump` gives the JVM description, stripped. |
| Analyzer.NoBannerKeepsJvmInfo | jstack-analyzer/scripts/jstack_analyzer.py:43-45 | With no banner line, the JVM description keeps its previous value. |
| Analyzer.LastDateWins | jstack-analyzer/scripts/jstack_analyzer.py:43-47 | The last scanned line that starts with `dddd-dd-dd` and is not a banner line gives the timestamp, stripped. A line that is both counts only as a banner. |
| Analyzer.NoDateKeepsTimestamp | jstack-analyzer/scripts/jstack_analyzer.py:43-47 | With no such line, the timestamp keeps its previous value. |
| Analyzer.JStackAnalyzer.AppendThreads | jstack-analyzer/scripts/jstack_analyzer.py:52-55 | Appends, in order, the thread of each block whose header parses, and changes nothing else. |
| Analyzer.AcceptedAppend | jstack-analyzer/scripts/jstack_analyzer.py:52-55 | The threads of two runs of blocks are those of the first run followed by those of the second. |
| Analyzer.AcceptedFromBlocks | jstack-analyzer/scripts/jstack_analyzer.py:52-55 | There are never more threads than blocks, and every thread kept is the parse of some block. |
| Analyzer.ParsedThreadsShape | jstack-analyzer/scripts/jstack_analyzer.py:52-55 | Every thread read from a dump has a fully matched header. The stack tally of those threads never holds the `"empty"` key. |
| Analyzer.JStackAnalyzer.AnalyzeThreads | jstack-analyzer/scripts/jstack_analyzer.py:107-140 | Without changing the analyzer, returns the statistics of its thread list, as `Statistics.StatsOf` defines them. |
| Blocks.SplitThreadBlocks | jstack-analyzer/scripts/jstack_analyzer.py:57-74 | The line loop returns exactly the reference blocks: the stripped text of each segment between boundary lines, with the last segment kept only when it is not blank. |
| Blocks.OpensBlock | jstack-analyzer/scripts/jstack_analyzer.py:60-65 | The block test `re.match(r'^"([^"]+)"', line)`. It has no contract of its own; `Blocks.OpensBlockIsQuotedName` states its meaning. |
| Blocks.OpensBlockIsQuotedName | jstack-analyzer/scripts/jstack_analyzer.py:60-65 | A line opens a block exactly when `^"([^"]+)"` matches it. |
| Blocks.PendingIffText | jstack-analyzer/scripts/jstack_analyzer.py:62-69 | The pending block is empty exactly while every line read so far is empty. So a header line splits exactly when some earlier line is non-empty. |
| Blocks.EmittedAreClosed | jstack-analyzer/scripts/jstack_analyzer.py:64-67 | After any number of lines, the blocks emitted are the texts of the segments closed so far. |
| Blocks.PendingIsSegment | jstack-analyzer/scripts/jstack_analyzer.py:64-69 | The pending text is the segment in progress joined by line feeds, up to leading whitespace. |
| Blocks.ScanGivesBlocks | jstack-analyzer/scripts/jstack_analyzer.py:64-72 | What the loop has emitted, plus the stripped pending text when it is not blank, are the reference blocks. |
| Blocks.BlocksAreStripped | jstack-analyzer/scripts/jstack_analyzer.py:66-72 | Every block is already stripped. |
| Blocks.LaterBlocksOpen | jstack-analyzer/scripts/jstack_analyzer.py:65-67 | Every block after the first opens with a quoted thread name. |
| Blocks.SegmentOpensBlock | jstack-analyzer/scripts/jstack_analyzer.py:65-67 | A segment whose first line opens a block still opens one after stripping. |
| Tokens.QuotedName | jstack-analyzer/scripts/jstack_analyzer.py:84 | `"([^"]+)"` at the head of a line: the text is a quote, the non-empty quote-free name, a quote, then the rest. |
| Tokens.QuotedNameAt | jstack-analyzer/scripts/jstack_analyzer.py:84 | Whenever a quote at column 0 and a later quote enclose a quote-free run, the match succeeds with that run as the name. |
| Tokens.Spaces1 | jstack-analyzer/scripts/jstack_analyzer.py:84 | `\s+`, greedy: it fails exactly when no whitespace comes first; otherwise it consumes a whitespace prefix and leaves a suffix that does not start with whitespace. |
| Tokens.Run1 | jstack-analyzer/scripts/jstack_analyzer.py:84 | `\d+` and `[0-9a-f]+`, greedy: a non-empty run of the class, followed by text that does not continue it. |
| HeaderGrammar.ParseHeader | jstack-analyzer/scripts/jstack_analyzer.py:84-91 | A successful header match has a non-empty quote-free name and digit id and priorities. `tid` is hex without `0x`, `nid` is `0x` plus hex. The line starts with the quoted name. |
| HeaderGrammar.HeaderRoundTrip | jstack-analyzer/scripts/jstack_analyzer.py:84-91 | Every line of the header grammar matches: the fields of a well-formed header with any non-empty whitespace runs between them and any non-empty one-line status. The match captures exactly those fields, and the daemon flag is true exactly when the keyword is there. |
| HeaderGrammar.ParsedHeaderShape | jstack-analyzer/scripts/jstack_analyzer.py:84-91 | Every line the match accepts is a line of the header grammar, written from the captured fields. No key, field or whitespace run is optional, except the daemon keyword with the run after it. |
| HeaderGrammar.HeaderGrammarExact | jstack-analyzer/scripts/jstack_analyzer.py:84-91 | On a text without line feeds, the match succeeds with a header exactly when the text is a line of the header grammar written from that header. |
| HeaderGrammar.DaemonMarkerThen | jstack-analyzer/scripts/jstack_analyzer.py:84 | `(daemon\s+)?` before `prio=` reports the keyword exactly when it is there. |
| HeaderGrammar.ExtraTokenRejected | jstack-analyzer/scripts/jstack_analyzer.py:84-88 | An extra token between `os_prio` and `tid`, such as the `cpu=... elapsed=...` fields, makes the match fail. |
| HeaderGrammar.UpperCaseTidRejected | jstack-analyzer/scripts/jstack_analyzer.py:84-88 | An upper-case hex digit in `tid` makes the match fail. |
| HeaderGrammar.MissingStatusRejected | jstack-analyzer/scripts/jstack_analyzer.py:84-88 | A header that ends right after the nid makes the match fail. |
| BlockParser.ParseThreadBlock | jstack-analyzer/scripts/jstack_analyzer.py:76-105 | The result is None exactly when the stripped first line fails the header match. Otherwise it is the header fields with the state and frames the body scan gives. |
| BlockParser.ScanBody | jstack-analyzer/scripts/jstack_analyzer.py:94-102 | The body loop's state and stack trace are exactly the reference state and frames of the body lines. |
| BlockParser.ScanStep | jstack-analyzer/scripts/jstack_analyzer.py:97-102 | One more body line: a state line replaces the state, and otherwise a frame line is appended. |
| BlockParser.NoDeclarationIsUnknown | jstack-analyzer/scripts/jstack_analyzer.py:94-100 | With no state line, the state is `UNKNOWN`. |
| BlockParser.LastDeclarationWins | jstack-analyzer/scripts/jstack_analyzer.py:97-100 | The last state line decides the state. |
| BlockParser.StateAppend | jstack-analyzer/scripts/jstack_analyzer.py:97-100 | Lines without a state line leave the state unchanged. |
| BlockParser.FramesAppend | jstack-analyzer/scripts/jstack_analyzer.py:97-102 | Frames of concatenated bodies are the concatenated frames: nothing is dropped, reordered or truncated. |
| BlockParser.FramesAreFrameLines | jstack-analyzer/scripts/jstack_analyzer.py:101-102 | Every stack-trace entry begins with `at ` or `- `. |
| BlockParser.DeclarationValue | jstack-analyzer/scripts/jstack_analyzer.py:100 | A declaration's value is the trimmed text after the prefix, when it holds no second prefix. |
| BlockParser.StateLineDeclares | jstack-analyzer/scripts/jstack_analyzer.py:98-100 | The indented state line jstack prints is a state line, and it declares the printed value. |
| BlockParser.FrameLinesScan | jstack-analyzer/scripts/jstack_analyzer.py:98-102 | Tab-indented frame lines scan back to the frames and declare no state. |
| BlockParser.PrintedBodyScan | jstack-analyzer/scripts/jstack_analyzer.py:94-102 | A state line followed by frame lines scans back to that state and those frames. |
| BlockParser.PrintedLines | jstack-analyzer/scripts/jstack_analyzer.py:78 | The block printed for a thread splits back into its header line, state line and frame lines. |
| BlockParser.BlockRoundTrip | jstack-analyzer/scripts/jstack_analyzer.py:76-105 | Parsing the block jstack prints for a thread gives that thread back. |
| BlockParser.ParsedThreadShape | jstack-analyzer/scripts/jstack_analyzer.py:84-102 | A parsed thread has a fully matched header, and every frame begins with `at ` or `- `. |
| Statistics.DaemonSplit | jstack-analyzer/scripts/jstack_analyzer.py:110-112 | The daemon and non-daemon counts add up to the total. |
| Statistics.StateTally | jstack-analyzer/scripts/jstack_analyzer.py:113 | The state counter counts every thread once. It holds exactly the states that occur. |
| Statistics.GroupsAreMembers | jstack-analyzer/scripts/jstack_analyzer.py:122-125 | Each group list holds exactly the threads of its label, in dump order. A label is present exactly when some thread has it. |
| Statistics.GroupKeys | jstack-analyzer/scripts/jstack_analyzer.py:122-125 | Every group key is one of the twelve table labels or `Other`. |
| Statistics.GroupsCoverThreads | jstack-analyzer/scripts/jstack_analyzer.py:122-125 | The group sizes add up to the number of threads. Each thread lands in exactly one group. |
| Statistics.GroupSizesSnoc | jstack-analyzer/scripts/jstack_analyzer.py:124-125 | Appending a thread adds one to the total size of the groups of a list of distinct labels when its label is in the list, and nothing otherwise. |
| Statistics.BucketsPartition | jstack-analyzer/scripts/jstack_analyzer.py:127-133 | The blocked, waiting and runnable lists, together with the threads in none of them, are the thread list as a multiset. No thread is in two lists, and none is lost. |
| Statistics.BucketOf | jstack-analyzer/scripts/jstack_analyzer.py:127-133 | A thread joins none of the three lists exactly when its state contains none of `BLOCKED`, `WAITING` and `RUNNABLE`. `Statistics.BucketPrecedence` states which list it joins otherwise. |
| Statistics.BucketPrecedence | jstack-analyzer/scripts/jstack_analyzer.py:128-133 | The list tests are case-sensitive, with precedence BLOCKED, then WAITING (which covers TIMED_WAITING), then RUNNABLE. |
| Statistics.StackTally | jstack-analyzer/scripts/jstack_analyzer.py:135-138 | The stack counter's size is the number of threads with frames. Its keys are exactly their first frames. |
| Statistics.NoEmptyKey | jstack-analyzer/scripts/jstack_analyzer.py:136-138 | When every frame begins with `at ` or `- `, the `"empty"` key is never tallied. |
| Classify.GroupOfFirstMatch | jstack-analyzer/scripts/jstack_analyzer.py:159-161 | The first table entry whose fragment occurs in the name decides the group, whatever later entries match. |
| Classify.GroupOfNoMatch | jstack-analyzer/scripts/jstack_analyzer.py:159-163 | With no matching entry, the group is `Other`. |
| Classify.GroupIsFirstMatch | jstack-analyzer/scripts/jstack_analyzer.py:159-163 | The lookup returns either `Other` with no entry matching, or the label of the first matching entry. |
| Classify.GroupIn | jstack-analyzer/scripts/jstack_analyzer.py:159-163 | The lookup over a table returns `Other` or the label of one of its entries. |
| Classify.ThreadGroup | jstack-analyzer/scripts/jstack_analyzer.py:142-163 | The group of any name is one of the thirteen labels. `Classify.ThreadGroupCases` and `Classify.GroupOfFirstMatch` state which one. |
| Classify.ThreadGroupCases | jstack-analyzer/scripts/jstack_analyzer.py:142-163 | A name is grouped as `Other` exactly when no fragment of the table occurs in it. Otherwise its group is the label of the first fragment that does. The result is always one of the thirteen labels. |
| Classify.ExecutorThreadGroup | jstack-analyzer/scripts/jstack_analyzer.py:148 | Executor threads named `pool-N-thread-M` are grouped as `Thread Pool`. |
| Classify.StateClass | jstack-analyzer/scripts/jstack_analyzer.py:461-473 | The class of any state is one of the five classes. |
| Classify.StateClassIgnoresCase | jstack-analyzer/scripts/jstack_analyzer.py:463 | The class does not depend on the case of the state. |
| Classify.TimedWaitIsTimed | jstack-analyzer/scripts/jstack_analyzer.py:464-469 | A timed wait is never classed as a plain wait. It is a timed wait unless the state also says runnable. |
| Classify.RunnableStateClass | jstack-analyzer/scripts/jstack_analyzer.py:464-465 | `RUNNABLE` is classed runnable. |
| Classify.NewStateClass | jstack-analyzer/scripts/jstack_analyzer.py:463-473 | `NEW` falls through to the other class. |
| Dedup.DeduplicateThreads | jstack-analyzer/scripts/jstack_analyzer.py:441-459 | The seen-set loop returns exactly the reference deduplication: each thread whose key no earlier thread has. |
| Dedup.DedupBy | jstack-analyzer/scripts/jstack_analyzer.py:455-457 | Deduplication never lengthens the list. |
| Dedup.DedupThreads | jstack-analyzer/scripts/jstack_analyzer.py:443-459 | The threads kept have pairwise different keys and cover every key of the input. They are a subsequence of the input in order, and include the first thread of each key. |
| Dedup.DedupDistinct | jstack-analyzer/scripts/jstack_analyzer.py:455-457 | The kept keys are pairwise different. |
| Dedup.DedupComplete | jstack-analyzer/scripts/jstack_analyzer.py:455-457 | The kept elements have exactly the keys of the input. |
| Dedup.DedupIsSubsequence | jstack-analyzer/scripts/jstack_analyzer.py:446-457 | The kept elements are the input with elements deleted and the order kept. |
| Dedup.FirstOfKeyKept | jstack-analyzer/scripts/jstack_analyzer.py:455-457 | The first element with each key is kept. |
| Dedup.DedupIdempotent | jstack-analyzer/scripts/jstack_analyzer.py:441-459 | Deduplicating twice is deduplicating once. |
| Dedup.DedupKey | jstack-analyzer/scripts/jstack_analyzer.py:447-450 | The key neither begins nor ends with whitespace and is never longer than the name. `Dedup.NumberedSiblings` and `Dedup.ExecutorPattern` state what it drops. |
| Dedup.TrailingDigitsOf | jstack-analyzer/scripts/jstack_analyzer.py:448-449 | Digits after a non-digit are exactly the trailing digit run. |
| Dedup.NumberedSiblings | jstack-analyzer/scripts/jstack_analyzer.py:448-450 | Names `base-1`, `base-2`, ... share one key: the base without its trailing digits, stripped. |
| Dedup.ExecutorPattern | jstack-analyzer/scripts/jstack_analyzer.py:448-450 | The key of `pool-N-thread-M` is `pool-N-thread`, without the hyphen. |
| Text.JoinLinesOfLines | jstack-analyzer/scripts/jstack_analyzer.py:42 | `split('\n')` loses nothing: joining the pieces with line feeds gives the text back. |
| Text.LinesOfJoinLines | jstack-analyzer/scripts/jstack_analyzer.py:78 | Splitting line-feed-free pieces joined by line feeds gives the pieces back. |
| Text.StripIsInfix | jstack-analyzer/scripts/jstack_analyzer.py:98 | `strip()` removes whitespace only, at both ends, and keeps an infix that neither begins nor ends with whitespace. |
| Text.StripBlank | jstack-analyzer/scripts/jstack_analyzer.py:71 | A text strips to nothing exactly when it is all whitespace. |
| Text.StripIdempotent | jstack-analyzer/scripts/jstack_analyzer.py:66 | Stripping twice is stripping once. |
| Text.RemoveAllLeading | jstack-analyzer/scripts/jstack_analyzer.py:100 | `replace(p, '')` on `p` followed by text without `p` leaves that text. |
| Text.ContainsTransitive | jstack-analyzer/scripts/jstack_analyzer.py:130 | A text that holds `TIMED_WAITING` holds `WAITING`, and in general holds every substring of what it holds. |

## Left out

- Reading the dump file (`open(...).read()`, jstack_analyzer.py:38-39) is not modelled. `ParseJStackOutput` takes the text of the dump as a parameter.
- `generate_html_report` (jstack_analyzer.py:165-439) is not modelled. It renders HTML with f-strings, reads the clock (`datetime.now()`), computes floating-point percentages and an alert threshold, ranks with `Counter.most_common`, sorts names and writes a file: display, floating point and I/O.
- `_generate_legacy_html_report` (jstack_analyzer.py:475-479) is not modelled. It only raises.
- `main` (jstack_analyzer.py:481-521) is not modelled. It is argument parsing, file-existence checks, printing and process exit.
- `frontend_design_integration.py` (colour tables and CSS templates) is not part of this model.
- The `jstack-analyzer.py` import shim is not part of this model.
- Text is ASCII. Python's `\d`, `\s`, `strip()` and `lower()` also act on non-ASCII digits, whitespace and letters. Here a digit is `0`-`9`, whitespace is space, `\t` to `\r` and `\x1c` to `\x1f`, and lower-casing maps `A`-`Z` only.
- Python's regular-expression engine is not modelled. The five patterns the script matches (jstack_analyzer.py:46, 60, 84, 448 and 449) are written as fixed scanners: `Analyzer.IsDateLine`, `Blocks.OpensBlock`, `Tokens` with `HeaderGrammar`, `Dedup.DropDashNumber` and `Dedup.DropDigits`.
- HeaderGrammar.ParseHeader: on a text holding a line feed, its status test (`HeaderGrammar.HasStatus`) accepts statuses that the pattern's `.` refuses. Every header line the script matches is one piece of `split('\n')` and holds no line feed, so `HeaderGrammar.HeaderGrammarExact` states the exact match for one-line texts only.
- Dedup.DedupKey: Python's `$` also matches before one final line feed, so a name ending in a line feed loses its trailing number in the script but not here. Names read from a dump never hold a line feed, because the header comes from one line of `split('\n')`.
- The insertion order of the `Counter`s and of the group dictionary is not modelled. They are a multiset and a map, so only the counts and the per-label lists are stated.
- The statistics dictionary is a `Stats` record with one field per key.
- `if thread:` (jstack_analyzer.py:54) is always true for a `ThreadInfo`, so every parsed thread is appended.
- `if not lines` (jstack_analyzer.py:79) never fires, because splitting a text always gives at least one line. The model has no such branch.
- `_get_thread_group`, `_get_state_class` and `_deduplicate_threads_by_name_pattern` use no analyzer state. They are module-level functions and a method outside the class.
- `parse_jstack_output` and `_parse_thread_block` are each split into two methods (`ScanPreamble` and `AppendThreads`; `ScanBody`) that run the same loops in the same order.
