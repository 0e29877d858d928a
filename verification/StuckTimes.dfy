/**
 The reports of the stuck detector in terms of the run alone: when looper messages begin and end,
 and when their STARTED messages are handled.
 */
module StuckTimes {
  import opened Wrappers
  import opened StuckQueue
  import opened StuckProtocol

  /** The times of the dispatches and of their ends, in a run that begins at time `now`. */
  function Begins(es: seq<Event>, now: int): seq<int> {
    if es == [] then []
    else match es[0]
      case Wait(d) => Begins(es[1..], now + d)
      case Dispatch => [now] + Begins(es[1..], now)
      case _ => Begins(es[1..], now)
  }

  function Ends(es: seq<Event>, now: int): seq<int> {
    if es == [] then []
    else match es[0]
      case Wait(d) => Ends(es[1..], now + d)
      case Finish => [now] + Ends(es[1..], now)
      case _ => Ends(es[1..], now)
  }

  /** The time at the end of the run. */
  function Clock(es: seq<Event>, now: int): int {
    if es == [] then now else Clock(es[1..], if es[0].Wait? then now + es[0].duration else now)
  }

  /** When the STARTED message of looper message k is handled, if it is. */
  function HandledAt(s: State, es: seq<Event>, limit: nat, k: nat): Option<int>
    requires Inv(s, limit) && Runs(s, es, limit)
    decreases |es|
  {
    if es == [] then None
    else if CreatesTimeout(s, es[0], k) then Some(s.now)
    else
      StepKeeps(s, es[0], limit);
      HandledAt(Apply(s, es[0], limit), es[1..], limit, k)
  }

  // ----- the history in the state is that of the run

  function EndedCount(s: State): int {
    if s.busy then s.count - 1 else s.count
  }

  predicate Remembers(s: State, s': State)
    requires |s.lives| == s.count && |s'.lives| == s'.count && s.count <= s'.count
  {
    forall i :: 0 <= i < s.count ==>
      && s'.lives[i].begin == s.lives[i].begin
      && (s.lives[i].Ended() ==> s'.lives[i].Ended() && s'.lives[i].End() == s.lives[i].End())
  }

  lemma DispatchRemembers(s: State)
    requires Sane(s) && !s.busy
    ensures Remembers(s, DoDispatch(s)) && DoDispatch(s).lives[s.count].begin == s.now
  {
  }

  lemma FinishRemembers(s: State, limit: nat)
    requires Inv(s, limit) && s.busy
    ensures Remembers(s, DoFinish(s))
    ensures DoFinish(s).lives[s.count - 1].Ended() && DoFinish(s).lives[s.count - 1].End() == s.now
  {
    assert LifeFits(s, s.count, limit);
  }

  lemma HandleRemembers(s: State, limit: nat)
    requires Inv(s, limit) && s.queue != []
    ensures |DoHandle(s, limit).lives| == s.count && Remembers(s, DoHandle(s, limit))
  {
  }

  /** Begins and ends are recorded when they happen, and not changed afterwards. */
  lemma StepRemembers(s: State, e: Event, limit: nat)
    requires Inv(s, limit) && Enabled(s, e)
    ensures var s' := Apply(s, e, limit);
      && Inv(s', limit) && s.count <= s'.count && Remembers(s, s')
      && s'.count == s.count + (if e == Dispatch then 1 else 0)
      && (e == Dispatch ==> s'.lives[s.count].begin == s.now)
      && EndedCount(s') == EndedCount(s) + (if e == Finish then 1 else 0)
      && (e == Finish ==> s'.lives[EndedCount(s)].Ended() && s'.lives[EndedCount(s)].End() == s.now)
      && s'.now == if e.Wait? then s.now + e.duration else s.now
  {
    StepKeeps(s, e, limit);
    match e
    case Wait(_) =>
    case Dispatch => DispatchRemembers(s);
    case Finish => FinishRemembers(s, limit);
    case Handle => HandleRemembers(s, limit);
  }

  lemma {:induction false} RunRemembers(s: State, es: seq<Event>, limit: nat)
    requires Inv(s, limit) && Runs(s, es, limit)
    ensures var s', begins, ends := After(s, es, limit), Begins(es, s.now), Ends(es, s.now);
      && s'.now == Clock(es, s.now)
      && s'.count == s.count + |begins| && Remembers(s, s')
      && EndedCount(s') == EndedCount(s) + |ends|
      && (forall j :: 0 <= j < |begins| ==> s'.lives[s.count + j].begin == begins[j])
    decreases |es|
  {
    if es != [] {
      StepRemembers(s, es[0], limit);
      RunRemembers(Apply(s, es[0], limit), es[1..], limit);
    }
  }

  lemma {:induction false} RunRemembersEnd(s: State, es: seq<Event>, limit: nat, j: nat)
    requires Inv(s, limit) && Runs(s, es, limit) && j < |Ends(es, s.now)|
    ensures var s' := After(s, es, limit);
      && EndedCount(s) + j < s'.count
      && s'.lives[EndedCount(s) + j].Ended() && s'.lives[EndedCount(s) + j].End() == Ends(es, s.now)[j]
    decreases |es|
  {
    var next := Apply(s, es[0], limit);
    StepRemembers(s, es[0], limit);
    if es[0] != Finish {
      RunRemembersEnd(next, es[1..], limit, j);
    } else if j == 0 {
      RunRemembers(next, es[1..], limit);
    } else {
      RunRemembersEnd(next, es[1..], limit, j - 1);
    }
  }

  lemma {:induction false} HandledIsStart(s: State, es: seq<Event>, limit: nat, k: nat)
    requires Inv(s, limit) && Runs(s, es, limit) && !Watches(s, k)
    ensures var s', at := After(s, es, limit), HandledAt(s, es, limit, k);
      && (at.Some? <==> Watches(s', k))
      && (at.Some? ==> s'.lives[k - 1].start == at.value)
    decreases |es|
  {
    if es != [] {
      StepKeeps(s, es[0], limit);
      WatchStep(s, es[0], limit, k);
      var next := Apply(s, es[0], limit);
      if CreatesTimeout(s, es[0], k) {
        HandlingStarts(s, limit, k);
        StartIsKept(next, es[1..], limit, k);
      } else {
        HandledIsStart(next, es[1..], limit, k);
      }
    }
  }

  lemma HandlingStarts(s: State, limit: nat, k: nat)
    requires Inv(s, limit) && Enabled(s, Handle) && CreatesTimeout(s, Handle, k)
    ensures var s' := DoHandle(s, limit); Watches(s', k) && s'.lives[k - 1].start == s.now
  {
    assert LifeFits(s, k, limit);
    assert About(s.queue, k)[0] == s.queue[0];
  }

  lemma {:induction false} StartIsKept(s: State, es: seq<Event>, limit: nat, k: nat)
    requires Inv(s, limit) && Runs(s, es, limit) && Watches(s, k)
    ensures var s' := After(s, es, limit); Watches(s', k) && s'.lives[k - 1].start == s.lives[k - 1].start
    decreases |es|
  {
    if es != [] {
      StepKeeps(s, es[0], limit);
      StartKeptByStep(s, es[0], limit, k);
      StartIsKept(Apply(s, es[0], limit), es[1..], limit, k);
    }
  }

  lemma StartKeptByStep(s: State, e: Event, limit: nat, k: nat)
    requires Inv(s, limit) && Enabled(s, e) && Watches(s, k)
    ensures var s' := Apply(s, e, limit); Watches(s', k) && s'.lives[k - 1].start == s.lives[k - 1].start
  {
    WatchStep(s, e, limit, k);
    assert LifeFits(s, k, limit);
  }

  /** What the state remembers of looper message k after a run is what happened in the run. */
  lemma LifeOfRun(es: seq<Event>, limit: nat, k: nat)
    requires Inv(Initial, limit) && Runs(Initial, es, limit) && 1 <= k <= |Begins(es, 0)|
    ensures var s := After(Initial, es, limit);
      && s.count == |Begins(es, 0)| && s.now == Clock(es, 0)
      && var l, at := s.lives[k - 1], HandledAt(Initial, es, limit, k);
         && l.begin == Begins(es, 0)[k - 1]
         && (l.Ended() <==> k <= |Ends(es, 0)|)
         && (k <= |Ends(es, 0)| ==> l.End() == Ends(es, 0)[k - 1])
         && (l.Watched() <==> at.Some?)
         && (at.Some? ==> l.start == at.value)
  {
    RunRemembers(Initial, es, limit);
    if k <= |Ends(es, 0)| {
      RunRemembersEnd(Initial, es, limit, k - 1);
    }
    HandledIsStart(Initial, es, limit, k);
    assert LifeFits(After(Initial, es, limit), k, limit);
  }

  // ----- the reports

  /**
   Whatever is reported, a looper message of the run had begun 100 ms plus the limit before, and if
   it has ended it took as long.
   */
  lemma ReportsAreTrue(es: seq<Event>, limit: nat, r: Report)
    requires Inv(Initial, limit) && Runs(Initial, es, limit)
    requires r in After(Initial, es, limit).reports
    ensures 1 <= r.k <= |Begins(es, 0)|
    ensures r.at - Begins(es, 0)[r.k - 1] >= 100 + limit
    ensures r.k <= |Ends(es, 0)| ==> Ends(es, 0)[r.k - 1] - Begins(es, 0)[r.k - 1] >= 100 + limit
  {
    var s := After(Initial, es, limit);
    var i :| 0 <= i < |s.reports| && s.reports[i] == r;
    NoFalseReport(es, limit, i);
    RunRemembers(Initial, es, limit);
    LifeOfRun(es, limit, r.k);
  }

  /**
   When no message is due and the limit is positive: a looper message is reported if and only if its
   STARTED message was handled, and it had not ended within the limit from then on.
   */
  lemma ReportsAreExact(es: seq<Event>, limit: nat, k: nat)
    requires Inv(Initial, limit) && Runs(Initial, es, limit)
    requires limit > 0 && CaughtUp(After(Initial, es, limit)) && 1 <= k <= |Begins(es, 0)|
    ensures var at := HandledAt(Initial, es, limit, k);
      var until := if k <= |Ends(es, 0)| then Ends(es, 0)[k - 1] else Clock(es, 0);
      && ((exists r :: r in After(Initial, es, limit).reports && r.k == k)
            <==> at.Some? && until >= at.value + limit)
      && (at.None? ==> until - Begins(es, 0)[k - 1] < 100)
      && (at.Some? ==> at.value - Begins(es, 0)[k - 1] >= 100)
  {
    var s := After(Initial, es, limit);
    LifeOfRun(es, limit, k);
    NothingMissed(es, limit, k);
    OutcomeIsExact(es, limit, k);
    var l := s.lives[k - 1];
    assert LifeFits(s, k, limit);
    if l.Reported() {
      assert Report(k, l.at) in s.reports;
    }
    forall r | r in s.reports && r.k == k
      ensures l.Reported()
    {
      var i :| 0 <= i < |s.reports| && s.reports[i] == r;
      assert ReportFits(s.reports[i], s.lives);
    }
  }
}
