/** The list of all threads: the tasks of the process, with what the virtual machine knows of them. */
module ThreadMatching {
  import opened Wrappers

  datatype ThreadState = New | Runnable | Blocked | Waiting | TimedWaiting | Terminated

  /** A directory of the task file system, and a thread of the virtual machine with its stack. */
  datatype Task = Task(id: int, name: string)
  datatype JavaThread = JavaThread(
    id: int, name: string, state: ThreadState, priority: int, isDaemon: bool, stackTrace: seq<string>)

  datatype Info = Info(
    isNative: bool, jvmId: int, nativeId: int, name: string, state: Option<ThreadState>,
    priority: int, isDaemon: bool, stackTrace: Option<seq<string>>)

  function TaskInfo(t: Task): Info {
    Info(true, -1, t.id, t.name, None, -1, false, None)
  }

  function JavaInfo(j: JavaThread): Info {
    Info(false, j.id, -1, j.name, Some(j.state), j.priority, j.isDaemon, Some(j.stackTrace))
  }

  function JavaInfos(jvm: seq<JavaThread>): seq<Info> {
    seq(|jvm|, j requires 0 <= j < |jvm| => JavaInfo(jvm[j]))
  }

  // ----- names

  predicate Contains(s: string, t: string) {
    exists i :: 0 <= i <= |s| && t <= s[i..]
  }

  /** The kernel cuts the name of a task to 15 characters. */
  predicate Matches(jvmName: string, taskName: string) {
    jvmName == taskName || (|taskName| == 15 && Contains(jvmName, taskName))
  }

  /** A thread matches a task of the same name, and one of 15 characters that are part of its name. */
  lemma NamesThatMatch(jvmName: string, taskName: string)
    ensures Matches(jvmName, taskName) <==>
      || jvmName == taskName
      || (|taskName| == 15 && exists i :: 0 <= i <= |jvmName| - 15 && jvmName[i..][..15] == taskName)
  {
    if i :| 0 <= i <= |jvmName| - 15 && |taskName| == 15 && jvmName[i..][..15] == taskName {
      assert taskName <= jvmName[i..];
    }
    if |taskName| == 15 && Contains(jvmName, taskName) {
      var i :| 0 <= i <= |jvmName| && taskName <= jvmName[i..];
      assert jvmName[i..][..15] == taskName;
    }
  }

  // ----- who takes whom

  /** No task before the `k`-th takes the thread `j`. */
  predicate Free(who: seq<Option<nat>>, k: nat, j: nat)
    requires k <= |who|
  {
    forall i :: 0 <= i < k ==> who[i] != Some(j)
  }

  predicate CanTake(tasks: seq<Task>, jvm: seq<JavaThread>, who: seq<Option<nat>>, k: nat, j: nat)
    requires k < |tasks| && k <= |who|
  {
    j < |jvm| && Matches(jvm[j].name, tasks[k].name) && Free(who, k, j)
  }

  /** Every task in turn takes the first matching thread that is still free. */
  ghost predicate Greedy(tasks: seq<Task>, jvm: seq<JavaThread>, who: seq<Option<nat>>) {
    && |who| == |tasks|
    && forall k :: 0 <= k < |tasks| ==> TakesFirst(tasks, jvm, who, k)
  }

  ghost predicate TakesFirst(tasks: seq<Task>, jvm: seq<JavaThread>, who: seq<Option<nat>>, k: nat)
    requires k < |tasks| && k < |who|
  {
    match who[k]
    case Some(j) =>
      CanTake(tasks, jvm, who, k, j) && forall i :: 0 <= i < j ==> !CanTake(tasks, jvm, who, k, i)
    case None => forall i :: 0 <= i < |jvm| ==> !CanTake(tasks, jvm, who, k, i)
  }

  lemma {:induction false} GreedyIsUnique(
    tasks: seq<Task>, jvm: seq<JavaThread>, a: seq<Option<nat>>, b: seq<Option<nat>>)
    requires Greedy(tasks, jvm, a) && Greedy(tasks, jvm, b)
    ensures a == b
  {
    var k := 0;
    while k < |tasks|
      invariant k <= |tasks| && forall i :: 0 <= i < k ==> a[i] == b[i]
    {
      assert TakesFirst(tasks, jvm, a, k) && TakesFirst(tasks, jvm, b, k);
      assert forall j: nat :: CanTake(tasks, jvm, a, k, j) == CanTake(tasks, jvm, b, k, j);
      k := k + 1;
    }
  }

  /** A thread that no task takes. */
  predicate Spare(who: seq<Option<nat>>, j: nat) {
    Free(who, |who|, j)
  }

  lemma FreeGrows(who: seq<Option<nat>>, next: Option<nat>)
    ensures forall k: nat, j: nat :: k <= |who| ==> Free(who + [next], k, j) == Free(who, k, j)
    ensures forall j: nat :: Spare(who + [next], j) == (Spare(who, j) && next != Some(j))
  {
    var grown := who + [next];
    assert forall i :: 0 <= i < |who| ==> grown[i] == who[i];
    forall j: nat
      ensures Spare(grown, j) == (Spare(who, j) && next != Some(j))
    {
      assert grown[|who|] == next;
    }
  }

  /** Adding what the next task takes keeps what the tasks before it took. */
  lemma GreedyGrows(tasks: seq<Task>, jvm: seq<JavaThread>, who: seq<Option<nat>>, next: Option<nat>)
    requires |who| < |tasks|
    requires forall k :: 0 <= k < |who| ==> TakesFirst(tasks, jvm, who, k)
    requires TakesFirst(tasks, jvm, who + [next], |who|)
    ensures forall k :: 0 <= k <= |who| ==> TakesFirst(tasks, jvm, who + [next], k)
  {
    FreeGrows(who, next);
    forall k | 0 <= k < |who|
      ensures TakesFirst(tasks, jvm, who + [next], k)
    {
      assert TakesFirst(tasks, jvm, who, k);
      assert forall j: nat :: CanTake(tasks, jvm, who, k, j) == CanTake(tasks, jvm, who + [next], k, j);
    }
  }

  /** What stays native matches nothing that is left over. */
  lemma NativeMatchesNoSpare(tasks: seq<Task>, jvm: seq<JavaThread>, who: seq<Option<nat>>, k: nat, j: nat)
    requires Greedy(tasks, jvm, who) && k < |tasks| && j < |jvm|
    requires who[k] == None && Spare(who, j)
    ensures !Matches(jvm[j].name, tasks[k].name)
  {
    assert TakesFirst(tasks, jvm, who, k);
    assert !CanTake(tasks, jvm, who, k, j);
  }

  // ----- what is left over

  /** The first `n` threads that are free, in order: the list that the tasks take from. */
  function Left(who: seq<Option<nat>>, n: nat): seq<nat> {
    if n == 0 then []
    else if Spare(who, n - 1) then Left(who, n - 1) + [n - 1]
    else Left(who, n - 1)
  }

  lemma {:induction false} LeftIsSpare(who: seq<Option<nat>>, n: nat)
    ensures forall p :: 0 <= p < |Left(who, n)| ==> Left(who, n)[p] < n && Spare(who, Left(who, n)[p])
    ensures forall p, q :: 0 <= p < q < |Left(who, n)| ==> Left(who, n)[p] < Left(who, n)[q]
    ensures forall j :: 0 <= j < n && Spare(who, j) ==> j in Left(who, n)
  {
    if n > 0 {
      LeftIsSpare(who, n - 1);
    }
  }

  lemma {:induction false} LeftUnchanged(who: seq<Option<nat>>, next: Option<nat>, n: nat)
    requires next.Some? ==> n <= next.value
    ensures Left(who + [next], n) == Left(who, n)
  {
    FreeGrows(who, next);
    if n > 0 {
      LeftUnchanged(who, next, n - 1);
    }
  }

  function RemoveAt<T>(s: seq<T>, p: nat): (r: seq<T>)
    requires p < |s|
    ensures |r| == |s| - 1
    ensures forall i :: 0 <= i < |r| ==> r[i] == if i < p then s[i] else s[i + 1]
  {
    s[..p] + s[p + 1..]
  }

  lemma RemovesOne<T>(s: seq<T>, p: nat)
    requires p < |s|
    ensures multiset(s) == multiset(RemoveAt(s, p)) + multiset{s[p]}
  {
    assert s == s[..p] + [s[p]] + s[p + 1..];
  }

  lemma RemoveInFront<T>(s: seq<T>, last: T, p: nat)
    requires p < |s|
    ensures RemoveAt(s + [last], p) == RemoveAt(s, p) + [last]
  {
  }

  lemma RemoveLast<T>(s: seq<T>, last: T)
    ensures RemoveAt(s + [last], |s|) == s
  {
  }

  /** Taking removes one element of the list. */
  lemma {:induction false} LeftAfterTaking(who: seq<Option<nat>>, n: nat, p: nat, j: nat)
    requires p < |Left(who, n)| && Left(who, n)[p] == j
    ensures Left(who + [Some(j)], n) == RemoveAt(Left(who, n), p)
  {
    var before := Left(who, n - 1);
    var grown := who + [Some(j)];
    SpareAfterTaking(who, j, n - 1);
    if !Spare(who, n - 1) {
      LeftAfterTaking(who, n - 1, p, j);
    } else if p == |before| {
      LeftUnchanged(who, Some(j), n - 1);
      RemoveLast(before, n - 1);
    } else {
      LeftIsBelow(who, n - 1, p);
      LeftAfterTaking(who, n - 1, p, j);
      RemoveInFront(before, n - 1, p);
      assert Left(grown, n) == Left(grown, n - 1) + [n - 1];
    }
  }

  lemma SpareAfterTaking(who: seq<Option<nat>>, j: nat, i: nat)
    ensures Spare(who + [Some(j)], i) == (Spare(who, i) && i != j)
  {
    FreeGrows(who, Some(j));
  }

  lemma LeftIsBelow(who: seq<Option<nat>>, n: nat, p: nat)
    requires p < |Left(who, n)|
    ensures Left(who, n)[p] < n
  {
    LeftIsSpare(who, n);
  }

  /** The threads that the tasks take. */
  function Taken(who: seq<Option<nat>>): seq<nat> {
    if who == [] then []
    else
      var before := Taken(who[..|who| - 1]);
      match who[|who| - 1] case Some(j) => before + [j] case None => before
  }

  lemma TakingMoves(who: seq<Option<nat>>, next: Option<nat>, n: nat)
    requires next.Some? ==> next.value < n && Spare(who, next.value)
    ensures multiset(Taken(who + [next])) + multiset(Left(who + [next], n))
      == multiset(Taken(who)) + multiset(Left(who, n))
  {
    assert (who + [next])[..|who|] == who;
    match next
    case None => LeftUnchanged(who, None, n);
    case Some(j) =>
      LeftIsSpare(who, n);
      var p: nat :| p < |Left(who, n)| && Left(who, n)[p] == j;
      LeftAfterTaking(who, n, p, j);
      RemovesOne(Left(who, n), p);
  }

  /** Every thread is either taken, once, or left over. */
  lemma {:induction false} Conserved(tasks: seq<Task>, jvm: seq<JavaThread>, who: seq<Option<nat>>, k: nat)
    requires Greedy(tasks, jvm, who) && k <= |who|
    ensures multiset(Taken(who[..k])) + multiset(Left(who[..k], |jvm|)) == multiset(seq(|jvm|, j => j))
  {
    if k == 0 {
      AllLeft(|jvm|);
    } else {
      Conserved(tasks, jvm, who, k - 1);
      assert TakesFirst(tasks, jvm, who, k - 1);
      assert who[..k] == who[..k - 1] + [who[k - 1]];
      if who[k - 1].Some? {
        assert CanTake(tasks, jvm, who, k - 1, who[k - 1].value);
      }
      TakingMoves(who[..k - 1], who[k - 1], |jvm|);
    }
  }

  lemma {:induction false} AllLeft(n: nat)
    ensures Left([], n) == seq(n, j => j)
  {
    if n > 0 {
      AllLeft(n - 1);
    }
  }

  // ----- the list

  /** What a task that takes a thread becomes: all of the thread but whether it is a daemon. */
  function Entry(jvm: seq<JavaThread>, t: Task, taken: Option<nat>): Info {
    match taken
    case Some(j) => if j < |jvm| then JavaInfo(jvm[j]).(isDaemon := false) else TaskInfo(t)
    case None => TaskInfo(t)
  }

  /** The tasks once the first ones, as many as `who` has, have had their turn. */
  function Entries(tasks: seq<Task>, jvm: seq<JavaThread>, who: seq<Option<nat>>): (infos: seq<Info>)
    ensures |infos| == |tasks|
  {
    seq(|tasks|, k requires 0 <= k < |tasks| => Entry(jvm, tasks[k], if k < |who| then who[k] else None))
  }

  /** The first spare thread with the name of the main thread, which the task file system names otherwise. */
  ghost predicate IsSpareMain(jvm: seq<JavaThread>, who: seq<Option<nat>>, main: Option<nat>) {
    match main
    case Some(j) =>
      && j < |jvm| && Spare(who, j) && jvm[j].name == "main"
      && forall i :: 0 <= i < j && Spare(who, i) ==> jvm[i].name != "main"
    case None => forall i :: 0 <= i < |jvm| && Spare(who, i) ==> jvm[i].name != "main"
  }

  function Unsorted(tasks: seq<Task>, jvm: seq<JavaThread>, who: seq<Option<nat>>, main: Option<nat>): seq<Info>
    requires main.Some? ==> main.value < |jvm|
  {
    if main.Some? then [JavaInfo(jvm[main.value])] + Entries(tasks, jvm, who) else Entries(tasks, jvm, who)
  }

  function Select(s: seq<Info>, native: bool): seq<Info> {
    if s == [] then []
    else if s[0].isNative == native then [s[0]] + Select(s[1..], native)
    else Select(s[1..], native)
  }

  function SortedByNative(s: seq<Info>): seq<Info> {
    Select(s, false) + Select(s, true)
  }

  /** In order of the key, where false comes before true. */
  predicate InOrder(s: seq<Info>) {
    forall p, q :: 0 <= p < q < |s| && s[p].isNative ==> s[q].isNative
  }

  lemma {:induction false} SelectOfAll(s: seq<Info>, native: bool)
    requires forall p :: 0 <= p < |s| ==> s[p].isNative == native
    ensures Select(s, native) == s && Select(s, !native) == []
  {
    if s != [] {
      SelectOfAll(s[1..], native);
    }
  }

  lemma {:induction false} SelectIsOfOneKind(s: seq<Info>, native: bool)
    ensures forall p :: 0 <= p < |Select(s, native)| ==> Select(s, native)[p].isNative == native
  {
    if s != [] {
      SelectIsOfOneKind(s[1..], native);
    }
  }

  lemma {:induction false} SelectSplits(s: seq<Info>)
    ensures multiset(Select(s, false)) + multiset(Select(s, true)) == multiset(s)
  {
    if s != [] {
      SelectSplits(s[1..]);
      assert s == [s[0]] + s[1..];
    }
  }

  lemma {:induction false} SelectOfSum(s: seq<Info>, t: seq<Info>, native: bool)
    ensures Select(s + t, native) == Select(s, native) + Select(t, native)
  {
    if s == [] {
      assert s + t == t;
    } else {
      assert (s + t)[1..] == s[1..] + t;
      SelectOfSum(s[1..], t, native);
    }
  }

  /** The result is the stable sort: a permutation in order that keeps the order within either kind... */
  lemma {:induction false} SortIsStable(s: seq<Info>)
    ensures multiset(SortedByNative(s)) == multiset(s) && |SortedByNative(s)| == |s|
    ensures InOrder(SortedByNative(s))
    ensures forall native :: Select(SortedByNative(s), native) == Select(s, native)
  {
    SelectIsOfOneKind(s, false);
    SelectIsOfOneKind(s, true);
    SelectSplits(s);
    assert |multiset(SortedByNative(s))| == |multiset(s)|;
    forall native
      ensures Select(SortedByNative(s), native) == Select(s, native)
    {
      SelectOfSum(Select(s, false), Select(s, true), native);
      SelectOfAll(Select(s, false), false);
      SelectOfAll(Select(s, true), true);
    }
  }

  /** ... and nothing else is. */
  lemma {:induction false} StableSortIsUnique(s: seq<Info>, t: seq<Info>)
    requires InOrder(t) && forall native :: Select(t, native) == Select(s, native)
    ensures t == SortedByNative(s)
  {
    InOrderIsSorted(t);
    assert Select(t, false) == Select(s, false) && Select(t, true) == Select(s, true);
  }

  lemma {:induction false} InOrderIsSorted(t: seq<Info>)
    requires InOrder(t)
    ensures t == SortedByNative(t)
  {
    if t != [] {
      if t[0].isNative {
        SelectOfAll(t, true);
      } else {
        InOrderIsSorted(t[1..]);
        assert t == [t[0]] + t[1..];
      }
    }
  }

  // ----- what the list holds

  /** Everything on the list: one entry a task, and the main thread if no task took it. */
  lemma SizeOfList(tasks: seq<Task>, jvm: seq<JavaThread>, who: seq<Option<nat>>, main: Option<nat>)
    requires Greedy(tasks, jvm, who) && IsSpareMain(jvm, who, main)
    ensures var list := SortedByNative(Unsorted(tasks, jvm, who, main));
      && |list| == |tasks| + (if main.Some? then 1 else 0)
      && (main.Some? <==> exists j :: 0 <= j < |jvm| && Spare(who, j) && jvm[j].name == "main")
  {
    SortIsStable(Unsorted(tasks, jvm, who, main));
  }

  /** The tasks that take a thread, or those that do not, in their order. */
  predicate Positions(who: seq<Option<nat>>, taking: bool, positions: seq<nat>) {
    && (forall p, q :: 0 <= p < q < |positions| ==> positions[p] < positions[q])
    && (forall p :: 0 <= p < |positions| ==> positions[p] < |who| && who[positions[p]].Some? == taking)
    && forall k :: 0 <= k < |who| && who[k].Some? == taking ==> k in positions
  }

  /** What is known of a thread, where only a thread that no task takes can be listed as a daemon. */
  predicate IsThread(info: Info, j: JavaThread, isDaemon: bool) {
    info == Info(false, j.id, -1, j.name, Some(j.state), j.priority, isDaemon, Some(j.stackTrace))
  }

  predicate IsTask(info: Info, t: Task) {
    info == Info(true, -1, t.id, t.name, None, -1, false, None)
  }

  /** The tasks at these positions take a thread each, and are listed as that. */
  predicate ListsTaking(jvm: seq<JavaThread>, who: seq<Option<nat>>, list: seq<Info>, taking: seq<nat>) {
    && |list| == |taking|
    && forall p :: 0 <= p < |taking| ==>
         && taking[p] < |who| && who[taking[p]].Some? && who[taking[p]].value < |jvm|
         && IsThread(list[p], jvm[who[taking[p]].value], false)
  }

  predicate ListsNative(tasks: seq<Task>, list: seq<Info>, native: seq<nat>) {
    && |list| == |native|
    && forall p :: 0 <= p < |native| ==> native[p] < |tasks| && IsTask(list[p], tasks[native[p]])
  }

  /**
   The list from its first entry on: the spare main thread, then the tasks that take a thread as what
   is known of that, then the others as what is known of the task, both in the order of the tasks.
   */
  predicate InTaskOrder(
    tasks: seq<Task>, jvm: seq<JavaThread>, who: seq<Option<nat>>, main: Option<nat>, list: seq<Info>,
    taking: seq<nat>, native: seq<nat>)
  {
    var first := if main.Some? then 1 else 0;
    && |who| == |tasks| && Positions(who, true, taking) && Positions(who, false, native)
    && |list| == first + |taking| + |native|
    && (main.Some? ==> main.value < |jvm| && IsThread(list[0], jvm[main.value], jvm[main.value].isDaemon))
    && ListsTaking(jvm, who, list[first..first + |taking|], taking)
    && ListsNative(tasks, list[first + |taking|..], native)
  }

  function PositionsUpto(who: seq<Option<nat>>, taking: bool, n: nat): seq<nat>
    requires n <= |who|
  {
    if n == 0 then []
    else if who[n - 1].Some? == taking then PositionsUpto(who, taking, n - 1) + [n - 1]
    else PositionsUpto(who, taking, n - 1)
  }

  lemma {:induction false} PositionsInOrder(who: seq<Option<nat>>, taking: bool, n: nat)
    requires n <= |who|
    ensures var ps := PositionsUpto(who, taking, n);
      && (forall p, q :: 0 <= p < q < |ps| ==> ps[p] < ps[q])
      && (forall p :: 0 <= p < |ps| ==> ps[p] < n && who[ps[p]].Some? == taking)
      && forall k :: 0 <= k < n && who[k].Some? == taking ==> k in ps
  {
    if n > 0 {
      PositionsInOrder(who, taking, n - 1);
    }
  }

  lemma SelectLast(s: seq<Info>, last: Info, native: bool)
    ensures Select(s + [last], native)
      == if last.isNative == native then Select(s, native) + [last] else Select(s, native)
  {
    SelectOfSum(s, [last], native);
    assert Select([last], native) == if last.isNative == native then [last] else [];
  }

  /** Selecting entries of a kind takes those at the positions of the kind. */
  lemma {:induction false} SelectByPosition(entries: seq<Info>, who: seq<Option<nat>>, native: bool, n: nat, p: nat)
    requires n <= |entries| == |who|
    requires forall k :: 0 <= k < |who| ==> entries[k].isNative == who[k].None?
    ensures var ps, selected := PositionsUpto(who, !native, n), Select(entries[..n], native);
      |selected| == |ps| && (p < |ps| ==> ps[p] < n && selected[p] == entries[ps[p]])
  {
    if n > 0 {
      SelectByPosition(entries, who, native, n - 1, p);
      assert entries[..n] == entries[..n - 1] + [entries[n - 1]];
      SelectLast(entries[..n - 1], entries[n - 1], native);
    }
  }

  lemma TakenInRange(tasks: seq<Task>, jvm: seq<JavaThread>, who: seq<Option<nat>>, k: nat)
    requires Greedy(tasks, jvm, who) && k < |tasks| && who[k].Some?
    ensures who[k].value < |jvm|
  {
    assert TakesFirst(tasks, jvm, who, k);
    assert CanTake(tasks, jvm, who, k, who[k].value);
  }

  lemma KindsOfEntries(tasks: seq<Task>, jvm: seq<JavaThread>, who: seq<Option<nat>>)
    requires Greedy(tasks, jvm, who)
    ensures forall k :: 0 <= k < |who| ==> Entries(tasks, jvm, who)[k].isNative == who[k].None?
    ensures forall k :: 0 <= k < |who| && who[k].Some? ==> who[k].value < |jvm|
  {
    forall k | 0 <= k < |who| && who[k].Some?
      ensures who[k].value < |jvm|
    {
      TakenInRange(tasks, jvm, who, k);
    }
  }

  lemma TakingAreListed(tasks: seq<Task>, jvm: seq<JavaThread>, who: seq<Option<nat>>)
    requires Greedy(tasks, jvm, who)
    ensures ListsTaking(jvm, who, Select(Entries(tasks, jvm, who), false), PositionsUpto(who, true, |who|))
  {
    var entries, taking := Entries(tasks, jvm, who), PositionsUpto(who, true, |who|);
    KindsOfEntries(tasks, jvm, who);
    PositionsInOrder(who, true, |who|);
    assert entries[..|who|] == entries;
    SelectByPosition(entries, who, false, |who|, 0);
    forall p | 0 <= p < |taking|
      ensures IsThread(Select(entries, false)[p], jvm[who[taking[p]].value], false)
    {
      SelectByPosition(entries, who, false, |who|, p);
    }
  }

  lemma NativeAreListed(tasks: seq<Task>, jvm: seq<JavaThread>, who: seq<Option<nat>>)
    requires Greedy(tasks, jvm, who)
    ensures ListsNative(tasks, Select(Entries(tasks, jvm, who), true), PositionsUpto(who, false, |who|))
  {
    var entries, native := Entries(tasks, jvm, who), PositionsUpto(who, false, |who|);
    KindsOfEntries(tasks, jvm, who);
    PositionsInOrder(who, false, |who|);
    assert entries[..|who|] == entries;
    SelectByPosition(entries, who, true, |who|, 0);
    forall p | 0 <= p < |native|
      ensures IsTask(Select(entries, true)[p], tasks[native[p]])
    {
      SelectByPosition(entries, who, true, |who|, p);
    }
  }

  lemma PartsOfList(front: seq<Info>, entries: seq<Info>)
    requires forall i :: 0 <= i < |front| ==> !front[i].isNative
    ensures var list, a, b := SortedByNative(front + entries), Select(entries, false), Select(entries, true);
      && |list| == |front| + |a| + |b| && list[..|front|] == front
      && list[|front|..|front| + |a|] == a && list[|front| + |a|..] == b
  {
    SelectOfSum(front, entries, false);
    SelectOfSum(front, entries, true);
    SelectOfAll(front, false);
  }

  /** The order of the list, however long it is. */
  lemma OrderOfList(tasks: seq<Task>, jvm: seq<JavaThread>, who: seq<Option<nat>>, main: Option<nat>)
    requires Greedy(tasks, jvm, who) && IsSpareMain(jvm, who, main)
    ensures InTaskOrder(tasks, jvm, who, main, SortedByNative(Unsorted(tasks, jvm, who, main)),
                        PositionsUpto(who, true, |who|), PositionsUpto(who, false, |who|))
  {
    var entries := Entries(tasks, jvm, who);
    TakingAreListed(tasks, jvm, who);
    NativeAreListed(tasks, jvm, who);
    PositionsInOrder(who, true, |who|);
    PositionsInOrder(who, false, |who|);
    match main {
      case None => TwoParts(Select(entries, false), Select(entries, true));
      case Some(j) =>
        PartsOfList([JavaInfo(jvm[j])], entries);
        assert SortedByNative([JavaInfo(jvm[j])] + entries)[..1][0] == JavaInfo(jvm[j]);
    }
  }

  lemma TwoParts(a: seq<Info>, b: seq<Info>)
    ensures (a + b)[0..|a|] == a && (a + b)[|a|..] == b
  {
  }

  predicate DifferentThreads(s: seq<Info>) {
    forall p, q :: 0 <= p < q < |s| && !s[p].isNative && !s[q].isNative ==> s[p].jvmId != s[q].jvmId
  }

  lemma {:induction false} SelectKeepsDifferent(s: seq<Info>)
    requires DifferentThreads(s)
    ensures DifferentThreads(Select(s, false))
    ensures forall i :: i in Select(s, false) ==> i in s && !i.isNative
  {
    if s != [] {
      SelectKeepsDifferent(s[1..]);
      assert forall i :: i in s[1..] ==> i in s;
    }
  }

  /** No thread of the virtual machine is on the list twice. */
  lemma EachThreadOnce(tasks: seq<Task>, jvm: seq<JavaThread>, who: seq<Option<nat>>, main: Option<nat>)
    requires Greedy(tasks, jvm, who) && IsSpareMain(jvm, who, main)
    requires forall i, j :: 0 <= i < j < |jvm| ==> jvm[i].id != jvm[j].id
    ensures DifferentThreads(SortedByNative(Unsorted(tasks, jvm, who, main)))
  {
    var entries := Entries(tasks, jvm, who);
    var s := Unsorted(tasks, jvm, who, main);
    forall k, l | 0 <= k < l < |tasks| && who[k].Some? && who[l].Some?
      ensures who[k] != who[l] && who[k].value < |jvm| && who[l].value < |jvm|
    {
      assert TakesFirst(tasks, jvm, who, k) && TakesFirst(tasks, jvm, who, l);
      assert CanTake(tasks, jvm, who, k, who[k].value) && CanTake(tasks, jvm, who, l, who[l].value);
    }
    assert DifferentThreads(entries);
    if main.Some? {
      forall l | 0 <= l < |tasks| && who[l].Some?
        ensures entries[l].jvmId != jvm[main.value].id
      {
        assert TakesFirst(tasks, jvm, who, l);
        assert CanTake(tasks, jvm, who, l, who[l].value);
      }
    }
    assert DifferentThreads(s);
    SelectKeepsDifferent(s);
    SelectIsOfOneKind(s, true);
  }

  /** What the list says of a thread that a task takes is right about its daemon flag exactly if it is no daemon. */
  lemma DaemonIsLost(tasks: seq<Task>, jvm: seq<JavaThread>, who: seq<Option<nat>>, k: nat)
    requires Greedy(tasks, jvm, who) && k < |tasks| && who[k].Some?
    ensures var j := who[k].value;
      && j < |jvm|
      && (Entries(tasks, jvm, who)[k] == JavaInfo(jvm[j]) <==> !jvm[j].isDaemon)
  {
    assert TakesFirst(tasks, jvm, who, k);
    assert CanTake(tasks, jvm, who, k, who[k].value);
  }

  /** A task keeps its native id exactly if it takes no thread, or had the id -1 that a thread has. */
  lemma NativeIdIsLost(tasks: seq<Task>, jvm: seq<JavaThread>, who: seq<Option<nat>>, k: nat)
    requires Greedy(tasks, jvm, who) && k < |tasks|
    ensures Entries(tasks, jvm, who)[k].nativeId == tasks[k].id <==> who[k] == None || tasks[k].id == -1
  {
    assert TakesFirst(tasks, jvm, who, k);
    if who[k].Some? {
      assert CanTake(tasks, jvm, who, k, who[k].value);
    }
  }

  /** A daemon thread that task 7 takes is listed as no daemon and without the task's id. */
  lemma TakenDaemon()
    ensures var tasks := [Task(7, "gc")];
      var jvm := [JavaThread(1, "gc", New, 5, true, [])];
      && Greedy(tasks, jvm, [Some(0)])
      && var entry := Entries(tasks, jvm, [Some(0)])[0];
         entry.jvmId == 1 && !entry.isDaemon && entry.nativeId == -1
  {
    var tasks := [Task(7, "gc")];
    var jvm := [JavaThread(1, "gc", New, 5, true, [])];
    assert CanTake(tasks, jvm, [Some(0)], 0, 0);
    assert TakesFirst(tasks, jvm, [Some(0)], 0);
  }

  // ----- the objects

  class ThreadInfo {
    var isNative: bool
    var jvmId: int
    var nativeId: int
    var name: string
    var state: Option<ThreadState>
    var priority: int
    var isDaemon: bool
    var stackTrace: Option<seq<string>>

    ghost function Value(): Info
      reads this
    {
      Info(isNative, jvmId, nativeId, name, state, priority, isDaemon, stackTrace)
    }

    constructor (info: Info)
      ensures Value() == info
    {
      isNative, jvmId, nativeId, name := info.isNative, info.jvmId, info.nativeId, info.name;
      state, priority, isDaemon, stackTrace := info.state, info.priority, info.isDaemon, info.stackTrace;
    }

    method Copy(thr: ThreadInfo)
      modifies this
      ensures Value() == old(thr.Value()).(isDaemon := old(isDaemon))
    {
      isNative := thr.isNative;
      jvmId := thr.jvmId;
      nativeId := thr.nativeId;
      name := thr.name;
      state := thr.state;
      priority := thr.priority;
      stackTrace := thr.stackTrace;
    }
  }

  /** Different objects with these values. */
  ghost predicate Holds(objects: seq<ThreadInfo>, infos: seq<Info>)
    reads objects
  {
    && |objects| == |infos|
    && (forall i :: 0 <= i < |objects| ==> objects[i].Value() == infos[i])
    && forall i, j :: 0 <= i < j < |objects| ==> objects[i] != objects[j]
  }

  method GetJvmThreadsInfo(jvm: seq<JavaThread>) returns (list: seq<ThreadInfo>)
    ensures Holds(list, JavaInfos(jvm))
    ensures fresh(list)
  {
    list := [];
    for k := 0 to |jvm|
      invariant Holds(list, JavaInfos(jvm[..k]))
      invariant fresh(list)
    {
      var thr := new ThreadInfo(JavaInfo(jvm[k]));
      list := list + [thr];
    }
  }

  method GetTasks(tasks: seq<Task>) returns (list: seq<ThreadInfo>)
    ensures Holds(list, Entries(tasks, [], []))
    ensures fresh(list)
  {
    list := [];
    for k := 0 to |tasks|
      invariant Holds(list, Entries(tasks[..k], [], []))
      invariant fresh(list)
    {
      var thr := new ThreadInfo(TaskInfo(tasks[k]));
      list := list + [thr];
    }
  }

  /** The turn of one task: `p` is the position in the list of the thread that it takes. */
  method TakeTurn(thr: ThreadInfo, jvmThreads: seq<ThreadInfo>) returns (rest: seq<ThreadInfo>, ghost p: nat)
    requires thr !in jvmThreads
    modifies thr
    ensures p <= |jvmThreads|
    ensures forall i :: 0 <= i < p ==> !Matches(jvmThreads[i].name, old(thr.name))
    ensures p == |jvmThreads| ==> rest == jvmThreads && thr.Value() == old(thr.Value())
    ensures p < |jvmThreads| ==>
      && Matches(jvmThreads[p].name, old(thr.name))
      && rest == RemoveAt(jvmThreads, p)
      && thr.Value() == jvmThreads[p].Value().(isDaemon := old(thr.isDaemon))
  {
    rest := jvmThreads;
    for i := 0 to |jvmThreads|
      invariant rest == jvmThreads && thr.Value() == old(thr.Value())
      invariant forall j :: 0 <= j < i ==> !Matches(jvmThreads[j].name, thr.name)
    {
      var jvmThr := jvmThreads[i];
      if Matches(jvmThr.name, thr.name) {
        rest := RemoveAt(jvmThreads, i);
        thr.Copy(jvmThr);
        p := i;
        return;
      }
    }
    p := |jvmThreads|;
  }

  /** The threads that the list holds, given the positions of those that are left. */
  ghost predicate Picks(threads: seq<ThreadInfo>, left: seq<nat>, list: seq<ThreadInfo>) {
    && |list| == |left|
    && forall p :: 0 <= p < |left| ==> left[p] < |threads| && list[p] == threads[left[p]]
  }

  lemma PicksFewer(threads: seq<ThreadInfo>, left: seq<nat>, list: seq<ThreadInfo>, p: nat)
    requires Picks(threads, left, list) && p < |left|
    ensures Picks(threads, RemoveAt(left, p), RemoveAt(list, p))
  {
  }

  lemma EntriesGrow(tasks: seq<Task>, jvm: seq<JavaThread>, who: seq<Option<nat>>, next: Option<nat>)
    requires |who| < |tasks|
    ensures Entries(tasks, jvm, who + [next])
      == Entries(tasks, jvm, who)[|who| := Entry(jvm, tasks[|who|], next)]
  {
  }

  /** The first match in the list is the first thread that is free and matches. */
  lemma TurnTakesFirst(tasks: seq<Task>, jvm: seq<JavaThread>, who: seq<Option<nat>>, p: nat, next: Option<nat>)
    requires |who| < |tasks| && p <= |Left(who, |jvm|)|
    requires var left := Left(who, |jvm|);
      && (forall i :: 0 <= i < |left| ==> left[i] < |jvm|)
      && (forall i :: 0 <= i < p ==> !Matches(jvm[left[i]].name, tasks[|who|].name))
      && (p < |left| ==> Matches(jvm[left[p]].name, tasks[|who|].name))
      && next == if p < |left| then Some(left[p]) else None
    ensures TakesFirst(tasks, jvm, who + [next], |who|)
  {
    var k := |who|;
    var left := Left(who, |jvm|);
    LeftIsSpare(who, |jvm|);
    FreeGrows(who, next);
    forall j: nat | CanTake(tasks, jvm, who + [next], k, j)
      ensures next.Some? && next.value <= j
    {
      assert Spare(who, j);
      var i: nat :| i < |left| && left[i] == j;
    }
    assert next.Some? ==> CanTake(tasks, jvm, who + [next], k, next.value);
  }

  lemma LeftAfterTurn(who: seq<Option<nat>>, n: nat, p: nat, next: Option<nat>)
    requires p <= |Left(who, n)|
    requires next == if p < |Left(who, n)| then Some(Left(who, n)[p]) else None
    ensures Left(who + [next], n) == if next.Some? then RemoveAt(Left(who, n), p) else Left(who, n)
  {
    match next
    case Some(j) => LeftAfterTaking(who, n, p, j);
    case None => LeftUnchanged(who, None, n);
  }

  lemma PickedValues(jvm: seq<JavaThread>, threads: seq<ThreadInfo>, left: seq<nat>, list: seq<ThreadInfo>)
    requires Holds(threads, JavaInfos(jvm)) && Picks(threads, left, list)
    ensures forall i :: 0 <= i < |left| ==> left[i] < |jvm| && list[i].Value() == JavaInfo(jvm[left[i]])
    ensures forall thr :: thr in list ==> thr in threads
  {
  }

  /** The turn of the next task. */
  method MatchNext(
    tasks: seq<Task>, jvm: seq<JavaThread>, thr: ThreadInfo, ghost threads: seq<ThreadInfo>,
    jvmThreads: seq<ThreadInfo>, ghost who: seq<Option<nat>>)
    returns (rest: seq<ThreadInfo>, ghost next: Option<nat>)
    requires |who| < |tasks| && thr.Value() == TaskInfo(tasks[|who|])
    requires Holds(threads, JavaInfos(jvm)) && thr !in threads
    requires Picks(threads, Left(who, |jvm|), jvmThreads)
    modifies thr
    ensures TakesFirst(tasks, jvm, who + [next], |who|)
    ensures thr.Value() == Entry(jvm, tasks[|who|], next)
    ensures Picks(threads, Left(who + [next], |jvm|), rest)
  {
    ghost var left := Left(who, |jvm|);
    ghost var p;
    PickedValues(jvm, threads, left, jvmThreads);
    rest, p := TakeTurn(thr, jvmThreads);
    next := if p < |left| then Some(left[p]) else None;
    TurnTakesFirst(tasks, jvm, who, p, next);
    LeftAfterTurn(who, |jvm|, p, next);
    if p < |left| {
      PicksFewer(threads, left, jvmThreads, p);
    }
  }

  method MatchAll(tasks: seq<Task>, jvm: seq<JavaThread>, all: seq<ThreadInfo>, threads: seq<ThreadInfo>)
    returns (jvmThreads: seq<ThreadInfo>, ghost who: seq<Option<nat>>)
    requires Holds(all, Entries(tasks, jvm, []))
    requires Holds(threads, JavaInfos(jvm))
    requires forall thr :: thr in all ==> thr !in threads
    modifies all
    ensures Greedy(tasks, jvm, who)
    ensures Holds(all, Entries(tasks, jvm, who))
    ensures Picks(threads, Left(who, |jvm|), jvmThreads)
    ensures Holds(threads, JavaInfos(jvm))
  {
    jvmThreads, who := threads, [];
    AllLeft(|jvm|);
    for k := 0 to |all|
      invariant |who| == k
      invariant forall i :: 0 <= i < k ==> TakesFirst(tasks, jvm, who, i)
      invariant Holds(all, Entries(tasks, jvm, who))
      invariant Picks(threads, Left(who, |jvm|), jvmThreads)
    {
      ghost var next;
      assert all[k].Value() == TaskInfo(tasks[k]);
      jvmThreads, next := MatchNext(tasks, jvm, all[k], threads, jvmThreads, who);
      GreedyGrows(tasks, jvm, who, next);
      EntriesGrow(tasks, jvm, who, next);
      who := who + [next];
    }
  }

  function SelectThreads(all: seq<ThreadInfo>, native: bool): seq<ThreadInfo>
    reads all
  {
    if all == [] then []
    else if all[0].isNative == native then [all[0]] + SelectThreads(all[1..], native)
    else SelectThreads(all[1..], native)
  }

  lemma {:induction false} SelectedHold(all: seq<ThreadInfo>, infos: seq<Info>, native: bool)
    requires Holds(all, infos)
    ensures Holds(SelectThreads(all, native), Select(infos, native))
    ensures forall thr :: thr in SelectThreads(all, native) ==> thr in all && thr.isNative == native
  {
    if all != [] {
      SelectedHold(all[1..], infos[1..], native);
    }
  }

  lemma HoldsInFront(thr: ThreadInfo, info: Info, all: seq<ThreadInfo>, infos: seq<Info>)
    requires Holds(all, infos) && thr !in all && thr.Value() == info
    ensures Holds([thr] + all, [info] + infos)
  {
  }

  lemma SortedHold(all: seq<ThreadInfo>, infos: seq<Info>)
    requires Holds(all, infos)
    ensures Holds(SelectThreads(all, false) + SelectThreads(all, true), SortedByNative(infos))
    ensures forall thr :: thr in SelectThreads(all, false) + SelectThreads(all, true) ==> thr in all
  {
    SelectedHold(all, infos, false);
    SelectedHold(all, infos, true);
    var jvm, native := SelectThreads(all, false), SelectThreads(all, true);
    assert forall i, j :: 0 <= i < |jvm| && 0 <= j < |native| ==> !jvm[i].isNative && native[j].isNative;
  }

  /** The first thread of the list named like the main thread. */
  method FindMain(jvmThreads: seq<ThreadInfo>) returns (found: Option<ThreadInfo>, ghost p: nat)
    ensures p <= |jvmThreads| && forall i :: 0 <= i < p ==> jvmThreads[i].name != "main"
    ensures found == if p < |jvmThreads| then Some(jvmThreads[p]) else None
    ensures found.Some? ==> found.value.name == "main"
  {
    for i := 0 to |jvmThreads|
      invariant forall j :: 0 <= j < i ==> jvmThreads[j].name != "main"
    {
      if jvmThreads[i].name == "main" {
        return Some(jvmThreads[i]), i;
      }
    }
    return None, |jvmThreads|;
  }

  lemma FoundIsSpareMain(jvm: seq<JavaThread>, who: seq<Option<nat>>, p: nat, main: Option<nat>)
    requires var left := Left(who, |jvm|);
      && p <= |left|
      && (forall i :: 0 <= i < |left| ==> left[i] < |jvm|)
      && (forall i :: 0 <= i < p ==> jvm[left[i]].name != "main")
      && (p < |left| ==> jvm[left[p]].name == "main")
      && main == if p < |left| then Some(left[p]) else None
    ensures IsSpareMain(jvm, who, main)
  {
    var left := Left(who, |jvm|);
    LeftIsSpare(who, |jvm|);
    forall j | 0 <= j < |jvm| && Spare(who, j) && jvm[j].name == "main"
      ensures main.Some? && main.value <= j
    {
      var i: nat :| i < |left| && left[i] == j;
    }
  }

  /** The spare main thread goes to the front. */
  method AddMain(
    tasks: seq<Task>, jvm: seq<JavaThread>, all: seq<ThreadInfo>, jvmThreads: seq<ThreadInfo>,
    ghost who: seq<Option<nat>>, ghost threads: seq<ThreadInfo>)
    returns (list: seq<ThreadInfo>, ghost main: Option<nat>)
    requires Holds(all, Entries(tasks, jvm, who)) && Holds(threads, JavaInfos(jvm))
    requires Picks(threads, Left(who, |jvm|), jvmThreads)
    requires forall thr :: thr in all ==> thr !in threads
    ensures IsSpareMain(jvm, who, main)
    ensures Holds(list, Unsorted(tasks, jvm, who, main))
    ensures forall thr :: thr in list ==> thr in all || thr in threads
  {
    ghost var left := Left(who, |jvm|);
    assert forall i :: 0 <= i < |left| ==> jvmThreads[i].Value() == JavaInfo(jvm[left[i]]);
    var found;
    ghost var p;
    found, p := FindMain(jvmThreads);
    main := if p < |left| then Some(left[p]) else None;
    FoundIsSpareMain(jvm, who, p, main);
    list := all;
    if found.Some? {
      list := [found.value] + all;
      HoldsInFront(found.value, JavaInfo(jvm[main.value]), all, Entries(tasks, jvm, who));
    }
  }

  method GetAllThreads(tasks: seq<Task>, jvm: seq<JavaThread>)
    returns (all: seq<ThreadInfo>, ghost who: seq<Option<nat>>, ghost main: Option<nat>,
             ghost list: seq<Info>, ghost taking: seq<nat>, ghost native: seq<nat>)
    ensures Greedy(tasks, jvm, who)
    ensures IsSpareMain(jvm, who, main)
    ensures Holds(all, list) && list == SortedByNative(Unsorted(tasks, jvm, who, main))
    ensures InTaskOrder(tasks, jvm, who, main, list, taking, native)
    ensures forall thr :: thr in all ==> fresh(thr)
  {
    var threads := GetJvmThreadsInfo(jvm);
    var allTasks := GetTasks(tasks);
    assert Entries(tasks, jvm, []) == Entries(tasks, [], []);
    var jvmThreads;
    jvmThreads, who := MatchAll(tasks, jvm, allTasks, threads);
    var unsorted;
    unsorted, main := AddMain(tasks, jvm, allTasks, jvmThreads, who, threads);
    SortedHold(unsorted, Unsorted(tasks, jvm, who, main));
    all := SelectThreads(unsorted, false) + SelectThreads(unsorted, true);
    list := SortedByNative(Unsorted(tasks, jvm, who, main));
    taking, native := PositionsUpto(who, true, |who|), PositionsUpto(who, false, |who|);
    OrderOfList(tasks, jvm, who, main);
  }
}
