/**
 * `analyze_threads`: the totals, the state tally, the name groups, the three state buckets and
 * the tally of first stack frames, each stated as a function of the thread list. A Python
 * `Counter` is a multiset; the `defaultdict(list)` of groups is a map from label to the
 * threads of that label, in dump order.
 */
module Statistics {
  import opened Text
  import opened BlockParser
  import opened Classify

  /** Which of the three state lists a thread joins, if any. */
  datatype Bucket = BlockedBucket | WaitingBucket | RunnableBucket | NoBucket

  /** The statistics dictionary. */
  datatype Stats = Stats(
    total: nat,
    daemonThreads: nat,
    nonDaemonThreads: nat,
    states: multiset<string>,
    threadGroups: map<string, seq<ThreadInfo>>,
    blockedThreads: seq<ThreadInfo>,
    waitingThreads: seq<ThreadInfo>,
    runnableThreads: seq<ThreadInfo>,
    stackTraces: multiset<string>)

  /** The case-sensitive chain that picks a thread's list, tests as written. */
  function BucketOf(state: string): (b: Bucket)
    ensures b == NoBucket <==> !Contains(state, "BLOCKED") && !Contains(state, "WAITING") && !Contains(state, "RUNNABLE")
  {
    TimedWaitingIsWaiting(state);
    if Contains(state, "BLOCKED") then BlockedBucket
    else if Contains(state, "WAITING") || Contains(state, "TIMED_WAITING") then WaitingBucket
    else if Contains(state, "RUNNABLE") then RunnableBucket
    else NoBucket
  }

  function DaemonCount(threads: seq<ThreadInfo>): nat {
    if threads == [] then 0
    else DaemonCount(threads[..|threads| - 1]) + (if threads[|threads| - 1].daemon then 1 else 0)
  }

  function NonDaemonCount(threads: seq<ThreadInfo>): nat {
    if threads == [] then 0
    else NonDaemonCount(threads[..|threads| - 1]) + (if threads[|threads| - 1].daemon then 0 else 1)
  }

  /** `Counter(t.state for t in threads)`. */
  function StatesOf(threads: seq<ThreadInfo>): multiset<string> {
    if threads == [] then multiset{}
    else StatesOf(threads[..|threads| - 1]) + multiset{threads[|threads| - 1].state}
  }

  /** `groups[g].append(t)` on a `defaultdict(list)`. */
  function AddToGroup(groups: map<string, seq<ThreadInfo>>, g: string, t: ThreadInfo)
    : map<string, seq<ThreadInfo>>
  {
    groups[g := (if g in groups then groups[g] else []) + [t]]
  }

  function GroupsOf(threads: seq<ThreadInfo>): map<string, seq<ThreadInfo>> {
    if threads == [] then map[]
    else
      var t := threads[|threads| - 1];
      AddToGroup(GroupsOf(threads[..|threads| - 1]), ThreadGroup(t.name), t)
  }

  /** The threads that join list `b`, in dump order. */
  function InBucket(threads: seq<ThreadInfo>, b: Bucket): seq<ThreadInfo> {
    if threads == [] then []
    else
      var t := threads[|threads| - 1];
      InBucket(threads[..|threads| - 1], b) + (if BucketOf(t.state) == b then [t] else [])
  }

  /** The tally key of a thread with frames; the `"empty"` alternative is never taken, since
      only threads with frames are tallied. */
  function StackKey(t: ThreadInfo): string {
    if t.stackTrace != [] then t.stackTrace[0] else "empty"
  }

  function StackKeysOf(threads: seq<ThreadInfo>): multiset<string> {
    if threads == [] then multiset{}
    else
      var t := threads[|threads| - 1];
      StackKeysOf(threads[..|threads| - 1]) + (if t.stackTrace != [] then multiset{StackKey(t)} else multiset{})
  }

  /** What `analyze_threads` returns for a thread list. */
  function StatsOf(threads: seq<ThreadInfo>): Stats {
    Stats(|threads|, DaemonCount(threads), NonDaemonCount(threads), StatesOf(threads),
          GroupsOf(threads), InBucket(threads, BlockedBucket), InBucket(threads, WaitingBucket),
          InBucket(threads, RunnableBucket), StackKeysOf(threads))
  }

  /** Every thread is a daemon or not, so the two counts add up to the total. */
  lemma {:induction false} DaemonSplit(threads: seq<ThreadInfo>)
    ensures DaemonCount(threads) + NonDaemonCount(threads) == |threads|
  {
    if threads != [] {
      DaemonSplit(threads[..|threads| - 1]);
    }
  }

  /** The state tally counts every thread once, and holds exactly the states that occur. */
  lemma {:induction false} StateTally(threads: seq<ThreadInfo>)
    ensures |StatesOf(threads)| == |threads|
    ensures forall s :: s in StatesOf(threads) <==> exists i :: 0 <= i < |threads| && threads[i].state == s
  {
    StateCount(threads);
    forall s | s in StatesOf(threads)
      ensures exists i :: 0 <= i < |threads| && threads[i].state == s
    {
      var i := StateFrom(threads, s);
    }
    forall i | 0 <= i < |threads|
      ensures threads[i].state in StatesOf(threads)
    {
      StateCounted(threads, i);
    }
  }

  lemma {:induction false} StateCount(threads: seq<ThreadInfo>)
    ensures |StatesOf(threads)| == |threads|
  {
    if threads != [] {
      StateCount(threads[..|threads| - 1]);
    }
  }

  lemma {:induction false} StateFrom(threads: seq<ThreadInfo>, s: string) returns (i: nat)
    requires s in StatesOf(threads)
    ensures i < |threads| && threads[i].state == s
  {
    var pre := threads[..|threads| - 1];
    if s in StatesOf(pre) {
      i := StateFrom(pre, s);
      assert threads[i] == pre[i];
    } else {
      i := |threads| - 1;
    }
  }

  lemma {:induction false} StateCounted(threads: seq<ThreadInfo>, i: nat)
    requires i < |threads|
    ensures threads[i].state in StatesOf(threads)
  {
    var pre := threads[..|threads| - 1];
    if i < |pre| {
      StateCounted(pre, i);
      assert pre[i] == threads[i];
    }
  }

  /** The threads of one label, in dump order. */
  function GroupMembers(threads: seq<ThreadInfo>, g: string): seq<ThreadInfo> {
    if threads == [] then []
    else
      var t := threads[|threads| - 1];
      GroupMembers(threads[..|threads| - 1], g) + (if ThreadGroup(t.name) == g then [t] else [])
  }

  /** Each group list holds exactly the threads of its label, in dump order, and a label is
      present exactly when some thread has it. */
  lemma {:induction false} GroupsAreMembers(threads: seq<ThreadInfo>, g: string)
    ensures g in GroupsOf(threads) <==> GroupMembers(threads, g) != []
    ensures g in GroupsOf(threads) ==> GroupsOf(threads)[g] == GroupMembers(threads, g)
  {
    if threads != [] {
      GroupsAreMembers(threads[..|threads| - 1], g);
    }
  }

  /** Every label present is one the lookup can return. */
  lemma {:induction false} GroupKeys(threads: seq<ThreadInfo>)
    ensures forall g :: g in GroupsOf(threads) ==> g in GroupLabels
  {
    if threads != [] {
      GroupKeys(threads[..|threads| - 1]);
      ThreadGroupCases(threads[|threads| - 1].name);
    }
  }

  /** The total size of the groups of the listed labels. */
  function GroupSizes(threads: seq<ThreadInfo>, labels: seq<string>): nat {
    if labels == [] then 0
    else |GroupMembers(threads, labels[0])| + GroupSizes(threads, labels[1..])
  }

  predicate Distinct(labels: seq<string>) {
    forall i, j :: 0 <= i < j < |labels| ==> labels[i] != labels[j]
  }

  /** One more thread adds one to the group of its label and to no other. */
  lemma {:induction false} GroupSizesSnoc(threads: seq<ThreadInfo>, t: ThreadInfo, labels: seq<string>)
    requires Distinct(labels)
    ensures GroupSizes(threads + [t], labels)
            == GroupSizes(threads, labels) + (if ThreadGroup(t.name) in labels then 1 else 0)
  {
    if labels != [] {
      var all := threads + [t];
      assert all[..|all| - 1] == threads;
      assert ThreadGroup(t.name) in labels[1..] ==> ThreadGroup(t.name) != labels[0];
      assert ThreadGroup(t.name) in labels <==> ThreadGroup(t.name) == labels[0] || ThreadGroup(t.name) in labels[1..];
      GroupSizesSnoc(threads, t, labels[1..]);
    }
  }

  /** Each thread lands in exactly one group: the group sizes add up to the total. */
  lemma {:induction false} GroupsCoverThreads(threads: seq<ThreadInfo>)
    ensures GroupSizes(threads, GroupLabels) == |threads|
  {
    if threads == [] {
      EmptyGroupSizes(GroupLabels);
    } else {
      var pre := threads[..|threads| - 1];
      var t := threads[|threads| - 1];
      GroupsCoverThreads(pre);
      GroupLabelsDistinct();
      GroupSizesSnoc(pre, t, GroupLabels);
      ThreadGroupCases(t.name);
      assert pre + [t] == threads;
    }
  }

  lemma {:induction false} EmptyGroupSizes(labels: seq<string>)
    ensures GroupSizes([], labels) == 0
  {
    if labels != [] {
      EmptyGroupSizes(labels[1..]);
    }
  }

  /** The three lists and the threads in none of them split the thread list: no thread is in
      two lists and none is lost. */
  lemma {:induction false} BucketsPartition(threads: seq<ThreadInfo>)
    ensures Partition(threads) == multiset(threads)
  {
    if threads != [] {
      var pre := threads[..|threads| - 1];
      var t := threads[|threads| - 1];
      BucketsPartition(pre);
      PartitionSnoc(threads);
      MultisetSnoc(threads);
    }
  }

  lemma MultisetSnoc(s: seq<ThreadInfo>)
    requires s != []
    ensures multiset(s) == multiset(s[..|s| - 1]) + multiset{s[|s| - 1]}
  {
    assert s == s[..|s| - 1] + [s[|s| - 1]];
  }

  /** The four lists, as one multiset. */
  function Partition(threads: seq<ThreadInfo>): multiset<ThreadInfo> {
    multiset(InBucket(threads, BlockedBucket)) + multiset(InBucket(threads, WaitingBucket))
    + multiset(InBucket(threads, RunnableBucket)) + multiset(InBucket(threads, NoBucket))
  }

  lemma PartitionSnoc(threads: seq<ThreadInfo>)
    requires threads != []
    ensures Partition(threads) == Partition(threads[..|threads| - 1]) + multiset{threads[|threads| - 1]}
  {
    BucketSnoc(threads, BlockedBucket);
    BucketSnoc(threads, WaitingBucket);
    BucketSnoc(threads, RunnableBucket);
    BucketSnoc(threads, NoBucket);
  }

  /** One more thread joins exactly the list its state picks. */
  lemma BucketSnoc(threads: seq<ThreadInfo>, b: Bucket)
    requires threads != []
    ensures multiset(InBucket(threads, b))
            == multiset(InBucket(threads[..|threads| - 1], b))
               + (if BucketOf(threads[|threads| - 1].state) == b then multiset{threads[|threads| - 1]}
                  else multiset{})
  {
  }

  /** The chain as documented: BLOCKED first, then WAITING (which covers TIMED_WAITING), then
      RUNNABLE, all case-sensitive. */
  lemma BucketPrecedence(state: string)
    ensures BucketOf(state) == BlockedBucket <==> Contains(state, "BLOCKED")
    ensures BucketOf(state) == WaitingBucket <==> !Contains(state, "BLOCKED") && Contains(state, "WAITING")
    ensures BucketOf(state) == RunnableBucket
            <==> !Contains(state, "BLOCKED") && !Contains(state, "WAITING") && Contains(state, "RUNNABLE")
  {
    TimedWaitingIsWaiting(state);
  }

  /** `TIMED_WAITING` contains `WAITING`. */
  lemma TimedWaitingIsWaiting(state: string)
    ensures Contains(state, "TIMED_WAITING") ==> Contains(state, "WAITING")
  {
    if Contains(state, "TIMED_WAITING") {
      ContainsAt("TIMED_WAITING", "WAITING", 6);
      ContainsTransitive(state, "TIMED_WAITING", "WAITING");
    }
  }

  /** The threads that have frames. */
  function WithFrames(threads: seq<ThreadInfo>): seq<ThreadInfo> {
    if threads == [] then []
    else
      var t := threads[|threads| - 1];
      WithFrames(threads[..|threads| - 1]) + (if t.stackTrace != [] then [t] else [])
  }

  /** The stack tally counts the threads with frames, each under its first frame. */
  lemma {:induction false} StackTally(threads: seq<ThreadInfo>)
    ensures |StackKeysOf(threads)| == |WithFrames(threads)|
    ensures forall k :: k in StackKeysOf(threads)
              <==> exists i :: 0 <= i < |threads| && threads[i].stackTrace != [] && threads[i].stackTrace[0] == k
  {
    StackCount(threads);
    forall k | k in StackKeysOf(threads)
      ensures exists i :: 0 <= i < |threads| && threads[i].stackTrace != [] && threads[i].stackTrace[0] == k
    {
      var i := StackKeyFrom(threads, k);
    }
    forall i | 0 <= i < |threads| && threads[i].stackTrace != []
      ensures threads[i].stackTrace[0] in StackKeysOf(threads)
    {
      StackKeyCounted(threads, i);
    }
  }

  lemma {:induction false} StackCount(threads: seq<ThreadInfo>)
    ensures |StackKeysOf(threads)| == |WithFrames(threads)|
  {
    if threads != [] {
      StackCount(threads[..|threads| - 1]);
    }
  }

  lemma {:induction false} StackKeyFrom(threads: seq<ThreadInfo>, k: string) returns (i: nat)
    requires k in StackKeysOf(threads)
    ensures i < |threads| && threads[i].stackTrace != [] && threads[i].stackTrace[0] == k
  {
    var pre := threads[..|threads| - 1];
    if k in StackKeysOf(pre) {
      i := StackKeyFrom(pre, k);
      assert threads[i] == pre[i];
    } else {
      i := |threads| - 1;
    }
  }

  lemma {:induction false} StackKeyCounted(threads: seq<ThreadInfo>, i: nat)
    requires i < |threads| && threads[i].stackTrace != []
    ensures threads[i].stackTrace[0] in StackKeysOf(threads)
  {
    var pre := threads[..|threads| - 1];
    if i < |pre| {
      StackKeyCounted(pre, i);
      assert pre[i] == threads[i];
    }
  }

  /** For parsed threads, whose frames all begin with `at ` or `- `, no `"empty"` key is ever
      tallied. */
  lemma NoEmptyKey(threads: seq<ThreadInfo>)
    requires forall i, k :: 0 <= i < |threads| && 0 <= k < |threads[i].stackTrace|
               ==> IsFrameLine(threads[i].stackTrace[k])
    ensures "empty" !in StackKeysOf(threads)
  {
    StackTally(threads);
    EmptyIsNoFrame();
    forall i | 0 <= i < |threads| && threads[i].stackTrace != []
      ensures threads[i].stackTrace[0] != "empty"
    {
      assert IsFrameLine(threads[i].stackTrace[0]);
    }
  }

  lemma EmptyIsNoFrame()
    ensures !IsFrameLine("empty")
  {
    var e := "empty";
    assert e[..3][0] == 'e';
    assert e[..2][0] == 'e';
  }
}
