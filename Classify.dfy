/**
 * The two classifiers: `_get_thread_group`, a first-match lookup of name fragments in a fixed
 * ordered table, and `_get_state_class`, a case-insensitive chain of substring tests on a
 * thread state.
 */
module Classify {
  import opened Text

  /** The fragments and their labels, in the order the lookup tries them. */
  const GroupTable: seq<(string, string)> := [
    ("nioEventLoopGroup", "Netty NIO"),
    ("grpc", "gRPC"),
    ("OkHttp", "OkHttp"),
    ("pool-", "Thread Pool"),
    ("Keep-Alive", "HTTP Keep-Alive"),
    ("Attach Listener", "JVM Attach"),
    ("Finalizer", "JVM Finalizer"),
    ("Reference Handler", "JVM Reference"),
    ("Signal Dispatcher", "JVM Signal"),
    ("C2 CompilerThread", "JIT Compiler"),
    ("VM Thread", "JVM VM"),
    ("Safepoint", "JVM Safepoint")
  ]

  /** The label of a name no fragment occurs in. */
  const OtherGroup := "Other"

  /** Every label the lookup can return. */
  const GroupLabels: seq<string> := [
    "Netty NIO", "gRPC", "OkHttp", "Thread Pool", "HTTP Keep-Alive", "JVM Attach",
    "JVM Finalizer", "JVM Reference", "JVM Signal", "JIT Compiler", "JVM VM", "JVM Safepoint",
    OtherGroup
  ]

  /** Entry k is the first entry of the table whose fragment occurs in the name. */
  predicate FirstMatch(table: seq<(string, string)>, name: string, k: int) {
    && 0 <= k < |table| && Contains(name, table[k].0)
    && forall j :: 0 <= j < k ==> !Contains(name, table[j].0)
  }

  /** The label of the first entry whose fragment occurs in the name, or `Other`. */
  function GroupIn(table: seq<(string, string)>, name: string): (r: string)
    ensures r == OtherGroup || exists k :: 0 <= k < |table| && r == table[k].1
  {
    if table == [] then OtherGroup
    else if Contains(name, table[0].0) then table[0].1
    else GroupIn(table[1..], name)
  }

  /** `_get_thread_group`. */
  function ThreadGroup(name: string): (r: string)
    ensures r in GroupLabels
  {
    TableLabels();
    GroupIn(GroupTable, name)
  }

  /** The first matching entry decides, whatever later entries match too. */
  lemma {:induction false} GroupOfFirstMatch(table: seq<(string, string)>, name: string, k: int)
    requires FirstMatch(table, name, k)
    ensures GroupIn(table, name) == table[k].1
  {
    if k > 0 {
      assert !Contains(name, table[0].0);
      assert FirstMatch(table[1..], name, k - 1) by {
        forall j | 0 <= j < k - 1
          ensures !Contains(name, table[1..][j].0)
        {
          assert table[1..][j] == table[j + 1];
        }
      }
      GroupOfFirstMatch(table[1..], name, k - 1);
    }
  }

  /** With no matching entry the label is `Other`. */
  lemma {:induction false} GroupOfNoMatch(table: seq<(string, string)>, name: string)
    requires forall j :: 0 <= j < |table| ==> !Contains(name, table[j].0)
    ensures GroupIn(table, name) == OtherGroup
  {
    if table != [] {
      assert !Contains(name, table[0].0);
      GroupOfNoMatch(table[1..], name);
    }
  }

  /** The lookup returns the label of the first matching entry, or `Other` when there is
      none. */
  lemma {:induction false} GroupIsFirstMatch(table: seq<(string, string)>, name: string)
    ensures || (GroupIn(table, name) == OtherGroup
                && forall j :: 0 <= j < |table| ==> !Contains(name, table[j].0))
            || exists k :: FirstMatch(table, name, k) && GroupIn(table, name) == table[k].1
  {
    if table != [] {
      if Contains(name, table[0].0) {
        assert FirstMatch(table, name, 0);
      } else {
        GroupIsFirstMatch(table[1..], name);
        if GroupIn(table[1..], name) == OtherGroup
           && forall j :: 0 <= j < |table| - 1 ==> !Contains(name, table[1..][j].0) {
          forall j | 0 <= j < |table|
            ensures !Contains(name, table[j].0)
          {
            if j > 0 {
              assert table[j] == table[1..][j - 1];
            }
          }
        } else {
          var k :| FirstMatch(table[1..], name, k) && GroupIn(table[1..], name) == table[1..][k].1;
          forall j | 0 <= j < k + 1
            ensures !Contains(name, table[j].0)
          {
            if j > 0 {
              assert table[j] == table[1..][j - 1];
            }
          }
          assert FirstMatch(table, name, k + 1);
        }
      }
    }
  }

  /** No table label is `Other`. */
  lemma TableLabels()
    ensures forall j :: 0 <= j < |GroupTable| ==> GroupTable[j].1 != OtherGroup
    ensures forall j :: 0 <= j < |GroupTable| ==> GroupTable[j].1 == GroupLabels[j]
    ensures |GroupLabels| == |GroupTable| + 1 && GroupLabels[|GroupTable|] == OtherGroup
  {
  }

  /** A thread is grouped as `Other` exactly when no fragment of the table occurs in its
      name; otherwise its group is the label of the first fragment that does. */
  lemma ThreadGroupCases(name: string)
    ensures ThreadGroup(name) == OtherGroup
            <==> forall j :: 0 <= j < |GroupTable| ==> !Contains(name, GroupTable[j].0)
    ensures ThreadGroup(name) != OtherGroup
            ==> exists k :: FirstMatch(GroupTable, name, k) && ThreadGroup(name) == GroupTable[k].1
    ensures ThreadGroup(name) in GroupLabels
  {
    TableLabels();
    GroupIsFirstMatch(GroupTable, name);
  }

  /** Labels are listed once each. */
  lemma GroupLabelsDistinct()
    ensures forall i, j :: 0 <= i < j < |GroupLabels| ==> GroupLabels[i] != GroupLabels[j]
  {
  }

  /** A digit string holds no letter. */
  lemma NoLetterInDigits(d: string, c: char)
    requires AllDigits(d) && !IsDigit(c)
    ensures c !in d
  {
  }

  /** Threads of a `java.util.concurrent` executor, named `pool-N-thread-M`, are grouped as a
      thread pool. */
  lemma ExecutorThreadGroup(n: string, m: string)
    requires AllDigits(n) && AllDigits(m)
    ensures ThreadGroup("pool-" + n + "-thread-" + m) == "Thread Pool"
  {
    var name := "pool-" + n + "-thread-" + m;
    NoLetterInDigits(n, 'v');
    NoLetterInDigits(m, 'v');
    NoLetterInDigits(n, 'g');
    NoLetterInDigits(m, 'g');
    NoLetterInDigits(n, 'O');
    NoLetterInDigits(m, 'O');
    AbsentChar(name, "nioEventLoopGroup", 'v');
    AbsentChar(name, "grpc", 'g');
    AbsentChar(name, "OkHttp", 'O');
    assert name[..5] == "pool-";
    ContainsAt(name, "pool-", 0);
    assert FirstMatch(GroupTable, name, 3);
    GroupOfFirstMatch(GroupTable, name, 3);
  }

  const RunnableClass := "state-runnable"
  const WaitingClass := "state-waiting"
  const TimedWaitingClass := "state-timed_waiting"
  const BlockedClass := "state-blocked"
  const OtherClass := "state-other"

  /** `_get_state_class`: the first test of the chain that the lower-cased state passes. */
  function StateClass(state: string): (r: string)
    ensures r in {RunnableClass, WaitingClass, TimedWaitingClass, BlockedClass, OtherClass}
  {
    var s := AsciiLower(state);
    if Contains(s, "runnable") then RunnableClass
    else if Contains(s, "waiting") && !Contains(s, "timed") then WaitingClass
    else if Contains(s, "timed_waiting") || Contains(s, "timed waiting") then TimedWaitingClass
    else if Contains(s, "blocked") then BlockedClass
    else OtherClass
  }

  /** The class ignores the case of the state. */
  lemma StateClassIgnoresCase(state: string)
    ensures StateClass(AsciiLower(state)) == StateClass(state)
  {
    AsciiLowerIdempotent(state);
  }

  /** A timed wait is never classed as a plain wait: it is a timed wait unless the state
      also says runnable. */
  lemma TimedWaitIsTimed(state: string)
    requires Contains(AsciiLower(state), "timed_waiting") || Contains(AsciiLower(state), "timed waiting")
    ensures StateClass(state) == (if Contains(AsciiLower(state), "runnable") then RunnableClass
                                  else TimedWaitingClass)
  {
    var s := AsciiLower(state);
    if Contains(s, "timed_waiting") {
      ContainsAt("timed_waiting", "timed", 0);
      ContainsTransitive(s, "timed_waiting", "timed");
    } else {
      ContainsAt("timed waiting", "timed", 0);
      ContainsTransitive(s, "timed waiting", "timed");
    }
  }

  /** The classes of the states jstack prints. */
  lemma RunnableStateClass(state: string)
    requires state == "RUNNABLE"
    ensures StateClass(state) == RunnableClass
  {
    var s := AsciiLower(state);
    assert s == "runnable";
    ContainsAt(s, "runnable", 0);
  }

  lemma NewStateClass(state: string)
    requires state == "NEW"
    ensures StateClass(state) == OtherClass
  {
    var s := AsciiLower(state);
    assert s == "new";
    AbsentChar(s, "runnable", 'u');
    AbsentChar(s, "waiting", 'a');
    AbsentChar(s, "timed_waiting", 'a');
    AbsentChar(s, "timed waiting", 'a');
    AbsentChar(s, "blocked", 'b');
  }
}
