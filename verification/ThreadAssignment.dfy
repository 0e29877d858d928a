/**
 How good the greedy matching of tasks and threads is, against every other way of giving different
 matching threads to the tasks.
 */
module ThreadAssignment {
  import opened Wrappers
  import opened ThreadMatching

  /** Any way of giving different matching threads to some of the tasks. */
  ghost predicate Assigns(tasks: seq<Task>, jvm: seq<JavaThread>, other: seq<Option<nat>>) {
    && |other| == |tasks|
    && (forall k :: 0 <= k < |tasks| && other[k].Some? ==>
          other[k].value < |jvm| && Matches(jvm[other[k].value].name, tasks[k].name))
    && forall k, l :: 0 <= k < l < |tasks| && other[k].Some? ==> other[k] != other[l]
  }

  /** The tasks that get a thread. */
  function ServedTasks(who: seq<Option<nat>>): set<nat> {
    set k: nat | k < |who| && who[k].Some?
  }

  function Served(who: seq<Option<nat>>): nat {
    |ServedTasks(who)|
  }

  lemma GreedyAssigns(tasks: seq<Task>, jvm: seq<JavaThread>, who: seq<Option<nat>>)
    requires Greedy(tasks, jvm, who)
    ensures Assigns(tasks, jvm, who)
  {
    forall k | 0 <= k < |tasks| && who[k].Some?
      ensures CanTake(tasks, jvm, who, k, who[k].value)
    {
      assert TakesFirst(tasks, jvm, who, k);
    }
  }

  /** Two task names match the same ones among the thread names, or none in common. */
  predicate SameOrApart(s: string, t: string, threadNames: set<string>) {
    || (forall x :: x in threadNames ==> (Matches(x, s) <==> Matches(x, t)))
    || (forall x :: x in threadNames ==> !(Matches(x, s) && Matches(x, t)))
  }

  predicate Separate(taskNames: set<string>, threadNames: set<string>) {
    forall s, t :: s in taskNames && t in taskNames ==> SameOrApart(s, t, threadNames)
  }

  predicate Drawn(tasks: seq<Task>, jvm: seq<JavaThread>, taskNames: set<string>, threadNames: set<string>) {
    && (forall k :: 0 <= k < |tasks| ==> tasks[k].name in taskNames)
    && forall j :: 0 <= j < |jvm| ==> jvm[j].name in threadNames
  }

  /** Tasks `k` and `l` match the same threads. */
  predicate Alike(tasks: seq<Task>, jvm: seq<JavaThread>, k: nat, l: nat)
    requires k < |tasks| && l < |tasks|
  {
    forall j :: 0 <= j < |jvm| ==> (Matches(jvm[j].name, tasks[k].name) <==> Matches(jvm[j].name, tasks[l].name))
  }

  lemma AlikeOrApart(
    tasks: seq<Task>, jvm: seq<JavaThread>, k: nat, l: nat, j: nat, taskNames: set<string>, threadNames: set<string>)
    requires Separate(taskNames, threadNames) && Drawn(tasks, jvm, taskNames, threadNames)
    requires k < |tasks| && l < |tasks| && j < |jvm|
    requires Matches(jvm[j].name, tasks[k].name) && Matches(jvm[j].name, tasks[l].name)
    ensures Alike(tasks, jvm, k, l)
  {
    assert SameOrApart(tasks[k].name, tasks[l].name, threadNames);
    assert jvm[j].name in threadNames;
  }

  /** The task that takes `j`. */
  ghost function Taker(who: seq<Option<nat>>, j: nat): (l: nat)
    requires !Spare(who, j)
    ensures l < |who| && who[l] == Some(j)
  {
    var l: nat :| l < |who| && who[l] == Some(j);
    l
  }

  /** Some task like `k` stays native. */
  ghost predicate Starved(tasks: seq<Task>, jvm: seq<JavaThread>, who: seq<Option<nat>>, k: nat)
    requires k < |tasks| == |who|
  {
    exists m: nat :: m < |tasks| && who[m] == None && Alike(tasks, jvm, k, m)
  }

  /** Then every thread that `k` matches is taken, by a task like `k`. */
  lemma StarvedMeansTaken(
    tasks: seq<Task>, jvm: seq<JavaThread>, who: seq<Option<nat>>, k: nat, j: nat,
    taskNames: set<string>, threadNames: set<string>)
    requires Separate(taskNames, threadNames) && Drawn(tasks, jvm, taskNames, threadNames)
    requires Greedy(tasks, jvm, who) && k < |tasks| && j < |jvm|
    requires Starved(tasks, jvm, who, k) && Matches(jvm[j].name, tasks[k].name)
    ensures !Spare(who, j) && Alike(tasks, jvm, k, Taker(who, j)) && Starved(tasks, jvm, who, Taker(who, j))
  {
    var m: nat :| m < |tasks| && who[m] == None && Alike(tasks, jvm, k, m);
    if Spare(who, j) {
      NativeMatchesNoSpare(tasks, jvm, who, m, j);
      assert false;
    }
    var l := Taker(who, j);
    GreedyAssigns(tasks, jvm, who);
    AlikeOrApart(tasks, jvm, k, l, j, taskNames, threadNames);
    assert Alike(tasks, jvm, l, m);
  }

  /** The task that the greedy matching serves on behalf of task `k` of the other one. */
  ghost function Standin(
    tasks: seq<Task>, jvm: seq<JavaThread>, who: seq<Option<nat>>, other: seq<Option<nat>>, k: nat): nat
    requires k < |tasks| == |who| == |other| && other[k].Some?
  {
    if Starved(tasks, jvm, who, k) && !Spare(who, other[k].value) then Taker(who, other[k].value) else k
  }

  lemma StandinsDiffer(
    tasks: seq<Task>, jvm: seq<JavaThread>, who: seq<Option<nat>>, other: seq<Option<nat>>, k: nat, l: nat,
    taskNames: set<string>, threadNames: set<string>)
    requires Separate(taskNames, threadNames) && Drawn(tasks, jvm, taskNames, threadNames)
    requires Greedy(tasks, jvm, who) && Assigns(tasks, jvm, other)
    requires k < |tasks| && l < |tasks| && k != l && other[k].Some? && other[l].Some?
    ensures Standin(tasks, jvm, who, other, k) != Standin(tasks, jvm, who, other, l)
  {
    if Starved(tasks, jvm, who, k) {
      StarvedMeansTaken(tasks, jvm, who, k, other[k].value, taskNames, threadNames);
    }
    if Starved(tasks, jvm, who, l) {
      StarvedMeansTaken(tasks, jvm, who, l, other[l].value, taskNames, threadNames);
    }
    assert other[k] != other[l];
  }

  lemma {:induction false} AtMostAsMany(a: set<nat>, b: set<nat>, f: map<nat, nat>)
    requires forall x :: x in a ==> x in f && f[x] in b
    requires forall x, y :: x in a && y in a && x != y ==> f[x] != f[y]
    ensures |a| <= |b|
  {
    if a != {} {
      var x :| x in a;
      AtMostAsMany(a - {x}, b - {f[x]}, f);
    }
  }

  lemma GreedyServesMost(
    tasks: seq<Task>, jvm: seq<JavaThread>, who: seq<Option<nat>>, other: seq<Option<nat>>,
    taskNames: set<string>, threadNames: set<string>)
    requires Separate(taskNames, threadNames) && Drawn(tasks, jvm, taskNames, threadNames)
    requires Greedy(tasks, jvm, who) && Assigns(tasks, jvm, other)
    ensures Served(other) <= Served(who)
  {
    var f := map k | k in ServedTasks(other) :: Standin(tasks, jvm, who, other, k);
    forall k | k in ServedTasks(other)
      ensures f[k] in ServedTasks(who)
    {
      if Starved(tasks, jvm, who, k) {
        StarvedMeansTaken(tasks, jvm, who, k, other[k].value, taskNames, threadNames);
      } else {
        assert Alike(tasks, jvm, k, k);
      }
    }
    forall k, l | k in ServedTasks(other) && l in ServedTasks(other) && k != l
      ensures f[k] != f[l]
    {
      StandinsDiffer(tasks, jvm, who, other, k, l, taskNames, threadNames);
    }
    AtMostAsMany(ServedTasks(other), ServedTasks(who), f);
  }

  /** Whatever tasks and threads have these names, no matching serves more tasks than the greedy one. */
  ghost predicate GreedyIsBest(taskNames: set<string>, threadNames: set<string>) {
    forall tasks, jvm, who, other ::
      Drawn(tasks, jvm, taskNames, threadNames) && Greedy(tasks, jvm, who) && Assigns(tasks, jvm, other) ==>
        Served(other) <= Served(who)
  }

  /** A thread that both tasks match, and one that only the first matches. */
  function Contended(s: string, t: string, both: string, one: string): (r: (seq<Task>, seq<JavaThread>)) {
    ([Task(1, s), Task(2, t)], [JavaThread(1, both, New, 5, false, []), JavaThread(2, one, New, 5, false, [])])
  }

  /** The first task takes the thread that both match, and the second one stays native. */
  lemma ContendedIsMissed(s: string, t: string, both: string, one: string)
    requires Matches(both, s) && Matches(both, t) && Matches(one, s) && !Matches(one, t)
    ensures var (tasks, jvm) := Contended(s, t, both, one);
      && Greedy(tasks, jvm, [Some(0), None]) && Served([Some(0), None]) == 1
      && Assigns(tasks, jvm, [Some(1), Some(0)]) && Served([Some(1), Some(0)]) == 2
  {
    var (tasks, jvm) := Contended(s, t, both, one);
    var who: seq<Option<nat>> := [Some(0), None];
    var other: seq<Option<nat>> := [Some(1), Some(0)];
    assert CanTake(tasks, jvm, who, 0, 0);
    assert TakesFirst(tasks, jvm, who, 0);
    assert TakesFirst(tasks, jvm, who, 1);
    assert ServedTasks(who) == {0};
    assert ServedTasks(other) == {0, 1};
  }

  lemma ContendedNames(
    s: string, t: string, both: string, one: string, taskNames: set<string>, threadNames: set<string>)
    requires s in taskNames && t in taskNames && both in threadNames && one in threadNames
    requires Matches(both, s) && Matches(both, t) && Matches(one, s) && !Matches(one, t)
    ensures !GreedyIsBest(taskNames, threadNames)
  {
    ContendedIsMissed(s, t, both, one);
    var (tasks, jvm) := Contended(s, t, both, one);
    assert Drawn(tasks, jvm, taskNames, threadNames);
  }

  lemma NotSeparateIsMissed(s: string, t: string, taskNames: set<string>, threadNames: set<string>)
    requires s in taskNames && t in taskNames && !SameOrApart(s, t, threadNames)
    ensures !GreedyIsBest(taskNames, threadNames)
  {
    var both :| both in threadNames && Matches(both, s) && Matches(both, t);
    var one :| one in threadNames && Matches(one, s) != Matches(one, t);
    if Matches(one, s) {
      ContendedNames(s, t, both, one, taskNames, threadNames);
    } else {
      ContendedNames(t, s, both, one, taskNames, threadNames);
    }
  }

  /**
   The greedy matching serves as many tasks as any other can, for all tasks and threads with names
   among these, if and only if the task names match the same thread names or have none in common.
   */
  lemma GreedyIsBestExactly(taskNames: set<string>, threadNames: set<string>)
    ensures Separate(taskNames, threadNames) <==> GreedyIsBest(taskNames, threadNames)
  {
    if Separate(taskNames, threadNames) {
      forall tasks, jvm, who, other
        | Drawn(tasks, jvm, taskNames, threadNames) && Greedy(tasks, jvm, who) && Assigns(tasks, jvm, other)
        ensures Served(other) <= Served(who)
      {
        GreedyServesMost(tasks, jvm, who, other, taskNames, threadNames);
      }
    } else {
      var s, t :| s in taskNames && t in taskNames && !SameOrApart(s, t, threadNames);
      NotSeparateIsMissed(s, t, taskNames, threadNames);
    }
  }

  /** A cut name that is part of two thread names, of which one is another task's. */
  lemma GreedyCanMiss()
    ensures var a := "aaaaaaaaaaaaaaa"; var b := "aaaaaaaaaaaaaab";
      var (tasks, jvm) := Contended(a, b, a + "b", a);
      && Greedy(tasks, jvm, [Some(0), None]) && Served([Some(0), None]) == 1
      && Assigns(tasks, jvm, [Some(1), Some(0)]) && Served([Some(1), Some(0)]) == 2
  {
    var a := "aaaaaaaaaaaaaaa";
    var b := "aaaaaaaaaaaaaab";
    assert a <= (a + "b")[0..];
    assert b == (a + "b")[1..];
    assert !Contains(a, b) by {
      forall i | 0 <= i <= |a|
        ensures !(b <= a[i..])
      {
        if i == 0 {
          assert a[0..][14] != b[14];
        }
      }
    }
    ContendedIsMissed(a, b, a + "b", a);
  }

  /** A task stays native only if tasks of its name take what no task of another name matches. */
  lemma NamesAreServed(tasks: seq<Task>, jvm: seq<JavaThread>, who: seq<Option<nat>>, k: nat, j: nat)
    requires Greedy(tasks, jvm, who) && k < |tasks| && j < |jvm|
    requires forall l :: 0 <= l < |tasks| && Matches(jvm[j].name, tasks[l].name) ==> tasks[l].name == tasks[k].name
    requires who[k] == None && Matches(jvm[j].name, tasks[k].name)
    ensures exists l :: 0 <= l < |tasks| && who[l] == Some(j) && tasks[l].name == tasks[k].name
  {
    if Spare(who, j) {
      NativeMatchesNoSpare(tasks, jvm, who, k, j);
    }
    var l :| 0 <= l < |who| && who[l] == Some(j);
    assert TakesFirst(tasks, jvm, who, l);
  }
}
