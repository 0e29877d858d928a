/** Starting and stopping the three monitors, each of which posts itself again after a run. */
module OomScheduler {
  import opened Wrappers

  datatype Monitor = Memory | Threads | Descriptors

  /**
   `live` is whether there is a handler, `pending` the runs posted to it, `inFlight` the run that
   is being executed.  `restarted` is history: the run in flight when the handler was created.
   */
  datatype State = State(live: bool, pending: multiset<Monitor>, inFlight: Option<Monitor>, restarted: Option<Monitor>)

  const Initial := State(false, multiset{}, None, None)

  datatype Event = Start | Stop | Begin(m: Monitor) | End

  predicate Enabled(s: State, e: Event) {
    match e
    case Start => true
    case Stop => true
    case Begin(m) => m in s.pending && s.inFlight == None
    case End => s.inFlight.Some?
  }

  function Apply(s: State, e: Event): State
    requires Enabled(s, e)
  {
    match e
    case Start =>
      if s.live then s
      else State(true, s.pending + multiset{Memory, Threads, Descriptors}, s.inFlight, s.inFlight)
    case Stop => if !s.live then s else s.(live := false, pending := multiset{}, restarted := None)
    case Begin(m) => s.(pending := s.pending - multiset{m}, inFlight := Some(m))
    case End =>
      if s.live then s.(pending := s.pending + multiset{s.inFlight.value}, inFlight := None)
      else s.(inFlight := None)
  }

  function Instances(s: State, m: Monitor): nat {
    s.pending[m] + if s.inFlight == Some(m) then 1 else 0
  }

  predicate Inv(s: State) {
    if s.live then forall m :: Instances(s, m) == 1 + if s.restarted == Some(m) then 1 else 0
    else s.pending == multiset{} && s.restarted == None
  }

  /** A new handler gets one run of each monitor. */
  lemma OneOfEach(m: Monitor)
    ensures multiset{Memory, Threads, Descriptors}[m] == 1
  {
    match m
    case Memory =>
    case Threads =>
    case Descriptors =>
  }

  lemma StepKeeps(s: State, e: Event)
    requires Inv(s) && Enabled(s, e)
    ensures Inv(Apply(s, e))
  {
    var s' := Apply(s, e);
    forall m | s'.live
      ensures Instances(s', m) == 1 + if s'.restarted == Some(m) then 1 else 0
    {
      OneOfEach(m);
      if s.live {
        assert Instances(s, m) == 1 + if s.restarted == Some(m) then 1 else 0;
      }
    }
  }

  predicate Runs(s: State, es: seq<Event>)
    decreases |es|
  {
    es == [] || (Enabled(s, es[0]) && Runs(Apply(s, es[0]), es[1..]))
  }

  function After(s: State, es: seq<Event>): State
    requires Runs(s, es)
    decreases |es|
  {
    if es == [] then s else After(Apply(s, es[0]), es[1..])
  }

  lemma {:induction false} RunKeeps(s: State, es: seq<Event>)
    requires Inv(s) && Runs(s, es)
    ensures Inv(After(s, es))
    decreases |es|
  {
    if es != [] {
      StepKeeps(s, es[0]);
      RunKeeps(Apply(s, es[0]), es[1..]);
    }
  }

  /**
   In every run: without a handler nothing is pending; with one, each monitor has one pending or
   running instance, and a second one exactly if it was running when the handler was created.
   */
  lemma InstancesAreExact(es: seq<Event>, m: Monitor)
    requires Runs(Initial, es)
    ensures var s := After(Initial, es);
      if s.live then Instances(s, m) == 1 + if s.restarted == Some(m) then 1 else 0
      else s.pending[m] == 0
  {
    RunKeeps(Initial, es);
  }

  /** What the last call of start or stop asks for, `wanted` being what was asked for before. */
  function Wanted(es: seq<Event>, wanted: bool): bool {
    if es == [] then wanted else Wanted(es[1..], es[0] == Start || (es[0] != Stop && wanted))
  }

  /** There is a handler if and only if the last call was one of start. */
  lemma {:induction false} LiveIsWanted(s: State, es: seq<Event>)
    requires Runs(s, es)
    ensures After(s, es).live == Wanted(es, s.live)
    decreases |es|
  {
    if es != [] {
      LiveIsWanted(Apply(s, es[0]), es[1..]);
    }
  }

  /** No handler is created while a monitor runs. */
  predicate NeverStartsInRun(s: State, es: seq<Event>)
    requires Runs(s, es)
    decreases |es|
  {
    es == []
    || ((es[0] == Start && !s.live ==> s.inFlight == None) && NeverStartsInRun(Apply(s, es[0]), es[1..]))
  }

  lemma {:induction false} NotRestarted(s: State, es: seq<Event>)
    requires Runs(s, es) && NeverStartsInRun(s, es) && s.restarted == None
    ensures After(s, es).restarted == None
    decreases |es|
  {
    if es != [] {
      NotRestarted(Apply(s, es[0]), es[1..]);
    }
  }

  /** Then a live handler means exactly one instance of each monitor. */
  lemma OneInstanceEach(es: seq<Event>, m: Monitor)
    requires Runs(Initial, es) && NeverStartsInRun(Initial, es)
    ensures After(Initial, es).live ==> Instances(After(Initial, es), m) == 1
  {
    NotRestarted(Initial, es);
    InstancesAreExact(es, m);
  }

  /** A listener that stops and starts the monitors in a run leaves one of them running twice. */
  lemma RestartInRunDuplicates()
    ensures var es := [Start, Begin(Memory), Stop, Start, End];
      Runs(Initial, es) && After(Initial, es).live && After(Initial, es).pending[Memory] == 2
  {
    var es := [Start, Begin(Memory), Stop, Start, End];
    var s1 := Apply(Initial, Start);
    var s2 := Apply(s1, Begin(Memory));
    var s3 := Apply(s2, Stop);
    var s4 := Apply(s3, Start);
    var s5 := Apply(s4, End);
    assert After(s5, es[5..]) == s5;
    assert After(s4, es[4..]) == s5 by { assert es[4..][1..] == es[5..]; }
    assert After(s3, es[3..]) == s5 by { assert es[3..][1..] == es[4..]; }
    assert After(s2, es[2..]) == s5 by { assert es[2..][1..] == es[3..]; }
    assert After(s1, es[1..]) == s5 by { assert es[1..][1..] == es[2..]; }
  }

  class OomMonitor {
    var live: bool
    var pending: multiset<Monitor>
    var inFlight: Option<Monitor>
    ghost var restarted: Option<Monitor>

    ghost function Snapshot(): State
      reads this
    {
      State(live, pending, inFlight, restarted)
    }

    constructor ()
      ensures Snapshot() == Initial
    {
      live, pending, inFlight, restarted := false, multiset{}, None, None;
    }

    method Start()
      modifies this
      ensures Snapshot() == Apply(old(Snapshot()), Event.Start)
    {
      if live {
        return;
      }
      live := true;
      pending := pending + multiset{Memory};
      pending := pending + multiset{Threads};
      pending := pending + multiset{Descriptors};
      restarted := inFlight;
    }

    method Stop()
      modifies this
      ensures Snapshot() == Apply(old(Snapshot()), Event.Stop)
    {
      if !live {
        return;
      }
      pending := multiset{};
      live := false;
      restarted := None;
    }

    method BeginRun(m: Monitor)
      requires m in pending && inFlight == None
      modifies this
      ensures Snapshot() == Apply(old(Snapshot()), Begin(m))
    {
      pending := pending - multiset{m};
      inFlight := Some(m);
    }

    /** The end of a run, which posts itself again if there is a handler. */
    method EndRun()
      requires inFlight.Some?
      modifies this
      ensures Snapshot() == Apply(old(Snapshot()), End)
    {
      if live {
        pending := pending + multiset{inFlight.value};
      }
      inFlight := None;
    }
  }
}
