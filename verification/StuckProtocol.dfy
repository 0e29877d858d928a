/**
 The protocol between the main thread and the thread that watches it: every dispatch of a looper
 message announces itself with a delayed STARTED message, which when handled arms a TIMEOUT;
 the end of the dispatch takes the STARTED message back or sends FINISHED, which disarms.
 Each step takes the lock and is atomic; there is one clock, and the limit is fixed.
 */
module StuckProtocol {
  import opened StuckQueue

  const DELAY := 100

  /** What has happened to one looper message; times are called begin, end, start (of its watch), at. */
  datatype Life =
    | Running(begin: int)
    | Short(begin: int, end: int) // ended before its STARTED message was due
    | Finishing(begin: int, end: int) // ended, but STARTED is not handled yet
    | Armed(begin: int, start: int)
    | ArmedLate(begin: int, end: int, start: int) // STARTED handled after the end
    | ArmedEnding(begin: int, start: int, end: int) // ended, FINISHED not handled yet
    | Cancelled(begin: int, start: int, end: int, late: bool)
    | Fired(begin: int, start: int, at: int) // reported, still running
    | FiredEnding(begin: int, start: int, at: int, end: int)
    | Closed(begin: int, start: int, at: int, end: int)
  {
    predicate Open() { Running? || Armed? || Fired? }

    predicate Reported() { Fired? || FiredEnding? || Closed? }

    /** Nothing can happen to it any more. */
    predicate Done() { Short? || Cancelled? || Closed? }

    /** Its STARTED message has been handled, so a TIMEOUT was created. */
    predicate Watched() { !Running? && !Short? && !Finishing? }

    predicate Ended() { !Open() }

    function End(): int
      requires Ended()
    {
      end
    }

    // ----- what the steps do to it

    function OnFinish(now: int): Life {
      match this
      case Running(b) => if now - b < DELAY then Short(b, now) else Finishing(b, now)
      case Armed(b, s) => ArmedEnding(b, s, now)
      case Fired(b, s, at) => FiredEnding(b, s, at, now)
      case _ => this
    }

    function OnStarted(now: int): Life {
      match this
      case Running(b) => Armed(b, now)
      case Finishing(b, e) => ArmedLate(b, e, now)
      case _ => this
    }

    function OnFinished(): Life {
      match this
      case ArmedLate(b, e, s) => Cancelled(b, s, e, true)
      case ArmedEnding(b, s, e) => Cancelled(b, s, e, false)
      case FiredEnding(b, s, at, e) => Closed(b, s, at, e)
      case _ => this
    }

    function OnTimeout(now: int): Life {
      match this
      case Armed(b, s) => Fired(b, s, now)
      case ArmedEnding(b, s, e) => FiredEnding(b, s, now, e)
      case _ => this
    }

    // ----- what can be said about it

    /** The messages about it that are in the queue, in their order. */
    function Pending(k: nat, limit: nat): seq<Message> {
      match this
      case Running(b) => [Message(Started, k, b + DELAY)]
      case Finishing(b, e) => [Message(Started, k, b + DELAY), Message(Finished, k, e)]
      case Armed(_, s) => [Message(Timeout, k, s + limit)]
      case ArmedLate(_, e, s) => [Message(Finished, k, e), Message(Timeout, k, s + limit)]
      case ArmedEnding(_, s, e) =>
        if e < s + limit then [Message(Finished, k, e), Message(Timeout, k, s + limit)]
        else [Message(Timeout, k, s + limit), Message(Finished, k, e)]
      case FiredEnding(_, _, _, e) => [Message(Finished, k, e)]
      case _ => []
    }

    predicate Plausible(limit: nat, now: int) {
      match this
      case Running(b) => b <= now
      case Short(b, e) => b <= e <= now && e - b < DELAY
      case Finishing(b, e) => b + DELAY <= e <= now
      case Armed(b, s) => b + DELAY <= s <= now
      case ArmedLate(b, e, s) => b + DELAY <= e <= s <= now
      case ArmedEnding(b, s, e) => b + DELAY <= s <= e <= now
      case Cancelled(b, s, e, late) =>
        b + DELAY <= s && b + DELAY <= e && if late then e <= s else s <= e < s + limit
      case Fired(b, s, at) => b + DELAY <= s && s + limit <= at <= now
      case FiredEnding(b, s, at, e) => b + DELAY <= s && s + limit <= at && s + limit <= e <= now
      case Closed(b, s, at, e) => b + DELAY <= s && s + limit <= at && s + limit <= e
    }
  }

  /** The report of looper message `k` at time `at`. */
  datatype Report = Report(k: nat, at: int)

  datatype State = State(
    now: int,
    queue: seq<Message>,
    count: nat,
    busy: bool, // a looper message is being dispatched
    begin: int,
    lives: seq<Life>, // of looper messages 1, 2, ...
    reports: seq<Report>)

  const Initial := State(0, [], 0, false, 0, [], [])

  datatype Event = Wait(duration: nat) | Dispatch | Finish | Handle

  predicate Enabled(s: State, e: Event) {
    match e
    case Wait(_) => true
    case Dispatch => !s.busy
    case Finish => s.busy
    case Handle => s.queue != [] && s.queue[0].when <= s.now
  }

  predicate Sane(s: State) {
    && |s.lives| == s.count && Upto(s.queue, s.count) && (s.busy ==> s.count > 0)
  }

  function DoDispatch(s: State): State {
    var k := s.count + 1;
    s.(count := k, begin := s.now, busy := true,
       queue := Enqueue(s.queue, Message(Started, k, s.now + DELAY)),
       lives := s.lives + [Running(s.now)])
  }

  function DoFinish(s: State): State
    requires Sane(s) && s.busy
  {
    var k := s.count;
    s.(busy := false,
       queue := if s.now - s.begin < DELAY then Remove(s.queue, Started, k)
                else Enqueue(s.queue, Message(Finished, k, s.now)),
       lives := s.lives[k - 1 := s.lives[k - 1].OnFinish(s.now)])
  }

  function DoHandle(s: State, limit: nat): State
    requires Sane(s) && s.queue != []
  {
    var m, rest := s.queue[0], s.queue[1..];
    var k, life := m.obj, s.lives[m.obj - 1];
    match m.what
    case Started =>
      s.(queue := Enqueue(rest, Message(Timeout, k, s.now + limit)),
         lives := s.lives[k - 1 := life.OnStarted(s.now)])
    case Finished =>
      s.(queue := Remove(rest, Timeout, k), lives := s.lives[k - 1 := life.OnFinished()])
    case Timeout =>
      s.(queue := rest, lives := s.lives[k - 1 := life.OnTimeout(s.now)],
         reports := s.reports + [Report(k, s.now)])
  }

  function Apply(s: State, e: Event, limit: nat): State
    requires Sane(s) && Enabled(s, e)
  {
    match e
    case Wait(d) => s.(now := s.now + d)
    case Dispatch => DoDispatch(s)
    case Finish => DoFinish(s)
    case Handle => DoHandle(s, limit)
  }

  // ----- the invariant

  predicate LifeFits(s: State, k: nat, limit: nat)
    requires |s.lives| == s.count && 1 <= k <= s.count
  {
    && About(s.queue, k) == s.lives[k - 1].Pending(k, limit)
    && s.lives[k - 1].Plausible(limit, s.now)
    && (s.lives[k - 1].Open() <==> s.busy && k == s.count)
    && (s.busy && k == s.count ==> s.lives[k - 1].begin == s.begin)
  }

  predicate ReportFits(r: Report, lives: seq<Life>) {
    1 <= r.k <= |lives| && lives[r.k - 1].Reported() && lives[r.k - 1].at == r.at
  }

  predicate ReportsFit(reports: seq<Report>, lives: seq<Life>) {
    && (forall i :: 0 <= i < |reports| ==> ReportFits(reports[i], lives))
    && (forall i, j :: 0 <= i < j < |reports| ==> reports[i].k != reports[j].k)
  }

  /** Every looper message that timed out is reported. */
  predicate ReportsTell(reports: seq<Report>, lives: seq<Life>) {
    forall i :: 0 <= i < |lives| && lives[i].Reported() ==> Report(i + 1, lives[i].at) in reports
  }

  predicate Inv(s: State, limit: nat) {
    && Sane(s) && Sorted(s.queue) && ReportsFit(s.reports, s.lives) && ReportsTell(s.reports, s.lives)
    && forall k :: 1 <= k <= s.count ==> LifeFits(s, k, limit)
  }

  // ----- every step keeps it

  lemma LaterPlausible(l: Life, limit: nat, now: int, later: int)
    requires l.Plausible(limit, now) && now <= later
    ensures l.Plausible(limit, later)
  {
  }

  lemma WaitKeeps(s: State, d: nat, limit: nat)
    requires Inv(s, limit)
    ensures Inv(s.(now := s.now + d), limit)
  {
    var s' := s.(now := s.now + d);
    forall k | 1 <= k <= s.count
      ensures LifeFits(s', k, limit)
    {
      assert LifeFits(s, k, limit);
      LaterPlausible(s.lives[k - 1], limit, s.now, s.now + d);
    }
  }

  lemma DispatchKeeps(s: State, limit: nat)
    requires Inv(s, limit) && !s.busy
    ensures Inv(DoDispatch(s), limit)
  {
    var s', m := DoDispatch(s), Message(Started, s.count + 1, s.now + DELAY);
    EnqueueSorted(s.queue, m);
    EnqueueUpto(s.queue, m, s'.count);
    forall k | 1 <= k <= s'.count
      ensures LifeFits(s', k, limit)
    {
      AboutEnqueue(s.queue, m, k);
      if k <= s.count {
        assert LifeFits(s, k, limit);
      } else {
        AboutNone(s.queue, k, s.count);
      }
    }
  }

  lemma ReportsKept(reports: seq<Report>, lives: seq<Life>, k: nat, l: Life)
    requires ReportsFit(reports, lives) && 1 <= k <= |lives|
    requires lives[k - 1].Reported() ==> l.Reported() && l.at == lives[k - 1].at
    ensures ReportsFit(reports, lives[k - 1 := l])
  {
    forall i | 0 <= i < |reports|
      ensures ReportFits(reports[i], lives[k - 1 := l])
    {
      assert ReportFits(reports[i], lives);
    }
  }

  lemma ReportsTold(reports: seq<Report>, more: seq<Report>, lives: seq<Life>, k: nat, l: Life)
    requires ReportsTell(reports, lives) && 1 <= k <= |lives|
    requires l.Reported() ==> Report(k, l.at) in reports + more
    ensures ReportsTell(reports + more, lives[k - 1 := l])
  {
  }

  lemma ReportAdded(reports: seq<Report>, lives: seq<Life>, k: nat, l: Life, at: int)
    requires ReportsFit(reports, lives) && 1 <= k <= |lives|
    requires !lives[k - 1].Reported() && l.Reported() && l.at == at
    requires ReportsFit(reports, lives[k - 1 := l])
    ensures ReportsFit(reports + [Report(k, at)], lives[k - 1 := l])
  {
    forall i | 0 <= i < |reports|
      ensures reports[i].k != k
    {
      assert ReportFits(reports[i], lives);
    }
  }

  /** The end of a dispatch, seen from its own life. */
  lemma FinishedLife(l: Life, k: nat, limit: nat, now: int)
    requires l.Open() && l.Plausible(limit, now)
    ensures var q, l' := l.Pending(k, limit), l.OnFinish(now);
      && l'.Plausible(limit, now) && l'.Ended()
      && l'.Pending(k, limit) == (if now - l.begin < DELAY then Remove(q, Started, k)
                                  else Enqueue(q, Message(Finished, k, now)))
      && (l'.Reported() <==> l.Reported()) && (l.Reported() ==> l'.at == l.at)
  {
    var q, m := l.Pending(k, limit), Message(Finished, k, now);
    if now - l.begin < DELAY {
      assert l.Running?;
      assert q[1..] == [];
    } else if q != [] {
      assert q[1..] == [];
      assert Enqueue(q, m) == if now < q[0].when then [m] + q else [q[0]] + Enqueue([], m);
    }
  }

  lemma FinishKeeps(s: State, limit: nat)
    requires Inv(s, limit) && s.busy
    ensures Inv(DoFinish(s), limit)
  {
    var s', m := DoFinish(s), Message(Finished, s.count, s.now);
    assert LifeFits(s, s.count, limit);
    FinishedLife(s.lives[s.count - 1], s.count, limit, s.now);
    EnqueueSorted(s.queue, m);
    EnqueueUpto(s.queue, m, s.count);
    RemoveSorted(s.queue, Started, s.count);
    RemoveUpto(s.queue, Started, s.count, s.count);
    ReportsKept(s.reports, s.lives, s.count, s'.lives[s.count - 1]);
    ReportsTold(s.reports, [], s.lives, s.count, s'.lives[s.count - 1]);
    assert s.reports + [] == s.reports;
    forall k | 1 <= k <= s.count
      ensures LifeFits(s', k, limit)
    {
      assert LifeFits(s, k, limit);
      AboutEnqueue(s.queue, m, k);
      AboutRemove(s.queue, Started, s.count, k);
    }
  }

  /** Handling the first pending message about a life, seen from that life. */
  lemma HandledLife(l: Life, k: nat, limit: nat, now: int, m: Message, tail: seq<Message>)
    requires l.Plausible(limit, now) && l.Pending(k, limit) == [m] + tail && m.when <= now
    ensures m.obj == k
    ensures var l' := match m.what
        case Started => l.OnStarted(now)
        case Finished => l.OnFinished()
        case Timeout => l.OnTimeout(now);
      && l'.Plausible(limit, now) && (l'.Open() <==> l.Open()) && l'.begin == l.begin
      && l'.Pending(k, limit) == (match m.what
           case Started => Enqueue(tail, Message(Timeout, k, now + limit))
           case Finished => Remove(tail, Timeout, k)
           case Timeout => tail)
      && l'.Reported() == (l.Reported() || m.what == Timeout)
      && (m.what == Timeout ==> !l.Reported() && l'.at == now)
      && (l.Reported() ==> l'.at == l.at)
  {
    var q := l.Pending(k, limit);
    assert m == q[0] && tail == q[1..];
  }

  /** Handling a message changes only what is pending about its own looper message. */
  lemma HandledAbout(s: State, limit: nat, k: nat)
    requires Sane(s) && Sorted(s.queue) && s.queue != []
    ensures var m, tail := s.queue[0], About(s.queue[1..], k);
      && About(s.queue, k) == (if m.obj == k then [m] + tail else tail)
      && About(DoHandle(s, limit).queue, k) == if m.obj != k then tail else match m.what
           case Started => Enqueue(tail, Message(Timeout, k, s.now + limit))
           case Finished => Remove(tail, Timeout, k)
           case Timeout => tail
  {
    var m, rest := s.queue[0], s.queue[1..];
    SortedCons(m, rest);
    assert s.queue == [m] + rest;
    AboutEnqueue(rest, Message(Timeout, m.obj, s.now + limit), k);
    AboutRemove(rest, Timeout, m.obj, k);
  }

  lemma HandleFits(s: State, limit: nat, k: nat)
    requires Inv(s, limit) && s.queue != [] && s.queue[0].when <= s.now && 1 <= k <= s.count
    ensures |DoHandle(s, limit).lives| == s.count && LifeFits(DoHandle(s, limit), k, limit)
  {
    assert LifeFits(s, k, limit);
    HandledAbout(s, limit, k);
    if k == s.queue[0].obj {
      HandledLife(s.lives[k - 1], k, limit, s.now, s.queue[0], About(s.queue[1..], k));
    }
  }

  lemma HandleReports(s: State, limit: nat)
    requires Inv(s, limit) && s.queue != [] && s.queue[0].when <= s.now
    ensures |DoHandle(s, limit).lives| == s.count && ReportsFit(DoHandle(s, limit).reports, DoHandle(s, limit).lives)
    ensures ReportsTell(DoHandle(s, limit).reports, DoHandle(s, limit).lives)
  {
    var m := s.queue[0];
    assert LifeFits(s, m.obj, limit);
    HandledLife(s.lives[m.obj - 1], m.obj, limit, s.now, m, About(s.queue[1..], m.obj));
    ReportsKept(s.reports, s.lives, m.obj, DoHandle(s, limit).lives[m.obj - 1]);
    if m.what == Timeout {
      ReportAdded(s.reports, s.lives, m.obj, DoHandle(s, limit).lives[m.obj - 1], s.now);
    }
    var more := if m.what == Timeout then [Report(m.obj, s.now)] else [];
    ReportsTold(s.reports, more, s.lives, m.obj, DoHandle(s, limit).lives[m.obj - 1]);
    assert DoHandle(s, limit).reports == s.reports + more;
  }

  lemma HandleKeeps(s: State, limit: nat)
    requires Inv(s, limit) && s.queue != [] && s.queue[0].when <= s.now
    ensures Inv(DoHandle(s, limit), limit)
  {
    var s', m, rest := DoHandle(s, limit), s.queue[0], s.queue[1..];
    var timeout := Message(Timeout, m.obj, s.now + limit);
    assert s.queue == [m] + rest;
    SortedCons(m, rest);
    EnqueueSorted(rest, timeout);
    EnqueueUpto(rest, timeout, s.count);
    RemoveSorted(rest, Timeout, m.obj);
    RemoveUpto(rest, Timeout, m.obj, s.count);
    HandleReports(s, limit);
    forall k | 1 <= k <= s.count
      ensures LifeFits(s', k, limit)
    {
      HandleFits(s, limit, k);
    }
  }

  lemma StepKeeps(s: State, e: Event, limit: nat)
    requires Inv(s, limit) && Enabled(s, e)
    ensures Inv(Apply(s, e, limit), limit)
  {
    match e
    case Wait(d) => WaitKeeps(s, d, limit);
    case Dispatch => DispatchKeeps(s, limit);
    case Finish => FinishKeeps(s, limit);
    case Handle => HandleKeeps(s, limit);
  }

  // ----- whole runs

  predicate Runs(s: State, es: seq<Event>, limit: nat)
    requires Inv(s, limit)
    decreases |es|
  {
    es == [] || (Enabled(s, es[0]) && (StepKeeps(s, es[0], limit); Runs(Apply(s, es[0], limit), es[1..], limit)))
  }

  function After(s: State, es: seq<Event>, limit: nat): (s': State)
    requires Inv(s, limit) && Runs(s, es, limit)
    ensures Inv(s', limit)
    decreases |es|
  {
    if es == [] then s else (StepKeeps(s, es[0], limit); After(Apply(s, es[0], limit), es[1..], limit))
  }

  lemma InitialFits(limit: nat)
    ensures Inv(Initial, limit)
  {
  }

  /**
   No report is false: when looper message k is reported it has been running for at least the
   delay plus the limit, or it has already ended and ran at least as long.
   */
  lemma NoFalseReport(es: seq<Event>, limit: nat, i: nat)
    requires Inv(Initial, limit) && Runs(Initial, es, limit)
    requires i < |After(Initial, es, limit).reports|
    ensures var s := After(Initial, es, limit);
      var r := s.reports[i];
      && 1 <= r.k <= s.count
      && var l := s.lives[r.k - 1];
         && r.at - l.begin >= DELAY + limit
         && (l.Ended() ==> l.End() - l.begin >= DELAY + limit)
  {
    var s := After(Initial, es, limit);
    assert ReportFits(s.reports[i], s.lives);
    assert LifeFits(s, s.reports[i].k, limit);
  }

  /** A looper message is reported at most once. */
  lemma ReportedOnce(es: seq<Event>, limit: nat, i: nat, j: nat)
    requires Inv(Initial, limit) && Runs(Initial, es, limit)
    requires i < j < |After(Initial, es, limit).reports|
    ensures After(Initial, es, limit).reports[i].k != After(Initial, es, limit).reports[j].k
  {
  }

  /**
   How the watch of looper message k came out once it is over: disarmed if it ended before the
   handling of STARTED plus the limit, reported otherwise.  With a limit of zero, the end and the
   handling can fall on the same instant, and then the one that came first decides.
   */
  lemma OutcomeIsExact(es: seq<Event>, limit: nat, k: nat)
    requires Inv(Initial, limit) && Runs(Initial, es, limit)
    requires 1 <= k <= After(Initial, es, limit).count
    ensures var l := After(Initial, es, limit).lives[k - 1];
      && (l.Short? ==> l.end - l.begin < DELAY)
      && (l.Cancelled? ==> l.end < l.start + limit || (limit == 0 && l.late && l.end == l.start))
      && (l.Closed? ==> l.end >= l.start + limit)
      && (limit > 0 && (l.Cancelled? || l.Closed?) ==> (l.Cancelled? <==> l.end < l.start + limit))
      && (l.Cancelled? || l.Closed? ==> l.end - l.begin >= DELAY)
  {
    assert LifeFits(After(Initial, es, limit), k, limit);
  }

  // With a limit of zero a watch can be disarmed although its end came no sooner than the limit.

  const TIED := State(
    DELAY, [Message(Started, 1, DELAY), Message(Finished, 1, DELAY)], 1, false, 0, [Finishing(0, DELAY)], [])

  lemma TieComesUp(more: seq<Event>)
    ensures Inv(Initial, 0) && Inv(TIED, 0)
    ensures var es := [Dispatch, Wait(DELAY), Finish] + more;
      Runs(TIED, more, 0) ==> Runs(Initial, es, 0) && After(Initial, es, 0) == After(TIED, more, 0)
  {
    var es := [Dispatch, Wait(DELAY), Finish] + more;
    var started, finished := Message(Started, 1, DELAY), Message(Finished, 1, DELAY);
    var s1 := Step(Initial, es, 0);
    assert s1 == State(0, [started], 1, true, 0, [Running(0)], []);
    var s2 := Step(s1, es[1..], 0);
    var s3 := Step(s2, es[1..][1..], 0);
    assert Enqueue([started][1..], finished) == [finished];
    assert s3 == TIED;
    assert es[1..][1..][1..] == more;
  }

  lemma TieIsCancelled(es: seq<Event>)
    requires es == [Handle, Handle]
    ensures Inv(TIED, 0) && Runs(TIED, es, 0)
    ensures After(TIED, es, 0).lives == [Cancelled(0, DELAY, DELAY, true)]
  {
    TieComesUp(es);
    var finished, timeout := Message(Finished, 1, DELAY), Message(Timeout, 1, DELAY);
    var s4 := Step(TIED, es, 0);
    assert Enqueue([finished][1..], timeout) == [timeout];
    assert TIED.queue[1..] == [finished];
    assert s4.queue == [finished, timeout];
    var s5 := Step(s4, es[1..], 0);
  }

  lemma ZeroLimitTie()
    ensures var es := [Dispatch, Wait(DELAY), Finish] + [Handle, Handle];
      && Inv(Initial, 0) && Runs(Initial, es, 0)
      && After(Initial, es, 0).lives == [Cancelled(0, DELAY, DELAY, true)]
  {
    TieIsCancelled([Handle, Handle]);
    TieComesUp([Handle, Handle]);
  }

  /** After a run, the watch of k, if it is over, was disarmed exactly if the end came before the limit. */
  predicate OutcomeFits(es: seq<Event>, limit: nat, k: nat)
    requires Inv(Initial, limit) && Runs(Initial, es, limit)
  {
    var s := After(Initial, es, limit);
    1 <= k <= s.count && (s.lives[k - 1].Cancelled? || s.lives[k - 1].Closed?) ==>
      var l := s.lives[k - 1];
      l.Cancelled? <==> l.end < l.start + limit
  }

  /** The outcomes of all runs are exact if and only if the limit is positive. */
  lemma ExactForPositiveLimits(limit: nat)
    requires Inv(Initial, limit)
    ensures limit > 0 <==> forall es, k: nat :: Runs(Initial, es, limit) ==> OutcomeFits(es, limit, k)
  {
    if limit > 0 {
      forall es, k: nat | Runs(Initial, es, limit)
        ensures OutcomeFits(es, limit, k)
      {
        if 1 <= k <= After(Initial, es, limit).count {
          OutcomeIsExact(es, limit, k);
        }
      }
    } else {
      ZeroLimitTie();
      assert !OutcomeFits([Dispatch, Wait(DELAY), Finish] + [Handle, Handle], 0, 1);
    }
  }

  lemma Step(s: State, es: seq<Event>, limit: nat) returns (s': State)
    requires Inv(s, limit) && es != [] && Enabled(s, es[0])
    ensures s' == Apply(s, es[0], limit) && Inv(s', limit)
    ensures Runs(s', es[1..], limit) ==>
      Runs(s, es, limit) && After(s, es, limit) == After(s', es[1..], limit)
  {
    StepKeeps(s, es[0], limit);
    s' := Apply(s, es[0], limit);
  }

  // ----- nothing comes back

  lemma DoneStep(s: State, e: Event, limit: nat, k: nat)
    requires Inv(s, limit) && Enabled(s, e) && 1 <= k <= s.count && s.lives[k - 1].Done()
    ensures k <= Apply(s, e, limit).count && Apply(s, e, limit).lives[k - 1] == s.lives[k - 1]
  {
    assert LifeFits(s, k, limit);
    if e.Handle? {
      assert About(s.queue, k) == [];
    }
  }

  /**
   Once FINISHED is handled, or STARTED is taken back, no message about k is left in the queue
   and none ever appears again.
   */
  lemma {:induction false} DoneForever(s: State, es: seq<Event>, limit: nat, k: nat)
    requires Inv(s, limit) && Runs(s, es, limit) && 1 <= k <= s.count && s.lives[k - 1].Done()
    ensures var s' := After(s, es, limit);
      k <= s'.count && s'.lives[k - 1] == s.lives[k - 1] && About(s'.queue, k) == []
    decreases |es|
  {
    if es == [] {
      assert LifeFits(s, k, limit);
    } else {
      StepKeeps(s, es[0], limit);
      DoneStep(s, es[0], limit, k);
      DoneForever(Apply(s, es[0], limit), es[1..], limit, k);
    }
  }

  predicate Watches(s: State, k: nat) {
    1 <= k <= |s.lives| && s.lives[k - 1].Watched()
  }

  predicate CreatesTimeout(s: State, e: Event, k: nat) {
    e.Handle? && s.queue != [] && s.queue[0].what == Started && s.queue[0].obj == k
  }

  /** How often a run creates a TIMEOUT for looper message k. */
  function TimeoutsCreated(s: State, es: seq<Event>, limit: nat, k: nat): nat
    requires Inv(s, limit) && Runs(s, es, limit)
    decreases |es|
  {
    if es == [] then 0
    else
      StepKeeps(s, es[0], limit);
      (if CreatesTimeout(s, es[0], k) then 1 else 0)
      + TimeoutsCreated(Apply(s, es[0], limit), es[1..], limit, k)
  }

  lemma WatchStep(s: State, e: Event, limit: nat, k: nat)
    requires Inv(s, limit) && Enabled(s, e)
    ensures Watches(Apply(s, e, limit), k) <==> Watches(s, k) || CreatesTimeout(s, e, k)
    ensures CreatesTimeout(s, e, k) ==> !Watches(s, k)
  {
    if 1 <= k <= s.count {
      assert LifeFits(s, k, limit);
      if CreatesTimeout(s, e, k) {
        assert About(s.queue, k)[0] == s.queue[0];
      }
    }
  }

  /** A run creates a TIMEOUT for k once if it brings k under watch, and never otherwise. */
  lemma {:induction false} OneTimeoutEach(s: State, es: seq<Event>, limit: nat, k: nat)
    requires Inv(s, limit) && Runs(s, es, limit)
    ensures TimeoutsCreated(s, es, limit, k)
      == if Watches(After(s, es, limit), k) && !Watches(s, k) then 1 else 0
    ensures Watches(s, k) ==> Watches(After(s, es, limit), k)
    decreases |es|
  {
    if es != [] {
      StepKeeps(s, es[0], limit);
      WatchStep(s, es[0], limit, k);
      OneTimeoutEach(Apply(s, es[0], limit), es[1..], limit, k);
    }
  }

  // ----- nothing is missed

  predicate CaughtUp(s: State) {
    s.queue == [] || s.now < s.queue[0].when
  }

  /**
   When the watching thread has no message to handle, every ended looper message is settled, and
   the running one is within its limit or has been reported.
   */
  lemma NothingMissed(es: seq<Event>, limit: nat, k: nat)
    requires Inv(Initial, limit) && Runs(Initial, es, limit)
    requires CaughtUp(After(Initial, es, limit)) && 1 <= k <= After(Initial, es, limit).count
    ensures var s := After(Initial, es, limit);
      var l := s.lives[k - 1];
      if l.Ended() then l.Done()
      else if l.Running? then s.now < l.begin + DELAY
      else if l.Armed? then s.now < l.start + limit
      else l.Fired?
  {
    var s := After(Initial, es, limit);
    assert LifeFits(s, k, limit);
    if s.queue != [] {
      AboutFrom(s.queue, k, s.queue[0].when);
    }
    var q := About(s.queue, k);
    if q != [] {
      assert q[0].when > s.now;
    }
  }
}
