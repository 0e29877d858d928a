/** The printer of the main looper and the handler of the watching thread. */
module StuckMonitor {
  import opened StuckQueue
  import opened StuckProtocol

  const DISPATCHING := ">>>>> Dispatching to"
  const FINISHED_TO := "<<<<< Finished to"

  class StuckMonitor {
    const stuckTimeLimit: nat

    /** The clock that both threads read. */
    var clock: int
    var queue: seq<Message>
    var count: nat
    var strCount: nat
    var beginTimeStamp: int

    /** The calls of the listener. */
    var reports: seq<Report>

    ghost var busy: bool
    ghost var lives: seq<Life>

    ghost function State(): State
      reads this
    {
      StuckProtocol.State(clock, queue, count, busy, beginTimeStamp, lives, reports)
    }

    ghost predicate Valid()
      reads this
    {
      Inv(State(), stuckTimeLimit) && strCount == count
    }

    constructor (timeLimit: nat)
      ensures Valid() && stuckTimeLimit == timeLimit && State() == Initial
    {
      stuckTimeLimit := timeLimit;
      clock, queue, count, strCount, beginTimeStamp, reports := 0, [], 0, 0, 0, [];
      busy, lives := false, [];
      new;
      InitialFits(timeLimit);
    }

    method Tick(duration: nat)
      requires Valid()
      modifies this`clock
      ensures Valid() && State() == Apply(old(State()), Wait(duration), stuckTimeLimit)
    {
      StepKeeps(State(), Wait(duration), stuckTimeLimit);
      clock := clock + duration;
    }

    /** Called by the looper before and after each message it dispatches, never nested. */
    method Println(x: string)
      requires Valid()
      requires ">>>>> Dispatching to" <= x ==> !busy
      requires "<<<<< Finished to" <= x ==> busy
      modifies this
      ensures Valid()
      ensures State() ==
        if ">>>>> Dispatching to" <= x then Apply(old(State()), Dispatch, stuckTimeLimit)
        else if "<<<<< Finished to" <= x then Apply(old(State()), Finish, stuckTimeLimit)
        else old(State())
    {
      if DISPATCHING <= x {
        StepKeeps(State(), Dispatch, stuckTimeLimit);
        count := count + 1;
        strCount := count;
        beginTimeStamp := clock;
        queue := Enqueue(queue, Message(Started, strCount, clock + DELAY));
        busy, lives := true, lives + [Running(clock)];
      } else if FINISHED_TO <= x {
        StepKeeps(State(), Finish, stuckTimeLimit);
        var costTime := clock - beginTimeStamp;
        if costTime < DELAY {
          queue := Remove(queue, Started, strCount);
        } else {
          queue := Enqueue(queue, Message(Finished, strCount, clock));
        }
        busy, lives := false, lives[count - 1 := lives[count - 1].OnFinish(clock)];
      }
    }

    /** Takes the first message, which is due, off the queue and handles it. */
    method HandleMessage()
      requires Valid() && queue != [] && queue[0].when <= clock
      modifies this
      ensures Valid() && State() == Apply(old(State()), Handle, stuckTimeLimit)
    {
      StepKeeps(State(), Handle, stuckTimeLimit);
      var msg := queue[0];
      queue := queue[1..];
      match msg.what {
        case Started =>
          queue := Enqueue(queue, Message(Timeout, msg.obj, clock + stuckTimeLimit));
          lives := lives[msg.obj - 1 := lives[msg.obj - 1].OnStarted(clock)];
        case Finished =>
          queue := Remove(queue, Timeout, msg.obj);
          lives := lives[msg.obj - 1 := lives[msg.obj - 1].OnFinished()];
        case Timeout =>
          reports := reports + [Report(msg.obj, clock)];
          lives := lives[msg.obj - 1 := lives[msg.obj - 1].OnTimeout(clock)];
      }
    }
  }
}
