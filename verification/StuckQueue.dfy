/** The message queue of the monitoring thread: ordered by due time, first in first out on ties. */
module StuckQueue {
  datatype What = Started | Finished | Timeout

  /** `obj` numbers the looper message that is being watched; `when` is the time it is due. */
  datatype Message = Message(what: What, obj: nat, when: int)

  predicate Sorted(q: seq<Message>) {
    forall i, j :: 0 <= i < j < |q| ==> q[i].when <= q[j].when
  }

  function Enqueue(q: seq<Message>, m: Message): seq<Message> {
    if q == [] || m.when < q[0].when then [m] + q else [q[0]] + Enqueue(q[1..], m)
  }

  /** `removeMessages(what, obj)` */
  function Remove(q: seq<Message>, what: What, obj: nat): seq<Message> {
    if q == [] then []
    else if q[0].what == what && q[0].obj == obj then Remove(q[1..], what, obj)
    else [q[0]] + Remove(q[1..], what, obj)
  }

  /** The messages about looper message `k`, in their order. */
  function About(q: seq<Message>, k: nat): seq<Message> {
    if q == [] then []
    else if q[0].obj == k then [q[0]] + About(q[1..], k)
    else About(q[1..], k)
  }

  predicate Upto(q: seq<Message>, count: nat) {
    forall i :: 0 <= i < |q| ==> 1 <= q[i].obj <= count
  }

  // ----- the queue stays ordered

  predicate AllFrom(q: seq<Message>, t: int) {
    forall i :: 0 <= i < |q| ==> t <= q[i].when
  }

  lemma SortedCons(m: Message, q: seq<Message>)
    ensures Sorted([m] + q) <==> Sorted(q) && AllFrom(q, m.when)
  {
    var s := [m] + q;
    assert s[0] == m;
    if Sorted(s) {
      forall i, j | 0 <= i < j < |q|
        ensures q[i].when <= q[j].when
      {
        assert s[i + 1] == q[i] && s[j + 1] == q[j];
      }
      forall i | 0 <= i < |q|
        ensures m.when <= q[i].when
      {
        assert s[i + 1] == q[i];
      }
    }
  }

  lemma {:induction false} EnqueueFrom(q: seq<Message>, m: Message, t: int)
    requires AllFrom(q, t) && t <= m.when
    ensures AllFrom(Enqueue(q, m), t)
  {
    if q != [] && m.when >= q[0].when {
      EnqueueFrom(q[1..], m, t);
    }
  }

  lemma {:induction false} EnqueueSorted(q: seq<Message>, m: Message)
    requires Sorted(q)
    ensures Sorted(Enqueue(q, m))
  {
    if q == [] || m.when < q[0].when {
      SortedCons(m, q);
    } else {
      assert q == [q[0]] + q[1..];
      SortedCons(q[0], q[1..]);
      EnqueueSorted(q[1..], m);
      EnqueueFrom(q[1..], m, q[0].when);
      SortedCons(q[0], Enqueue(q[1..], m));
    }
  }

  lemma {:induction false} RemoveFrom(q: seq<Message>, what: What, obj: nat, t: int)
    requires AllFrom(q, t)
    ensures AllFrom(Remove(q, what, obj), t)
  {
    if q != [] {
      RemoveFrom(q[1..], what, obj, t);
    }
  }

  lemma {:induction false} RemoveSorted(q: seq<Message>, what: What, obj: nat)
    requires Sorted(q)
    ensures Sorted(Remove(q, what, obj))
  {
    if q != [] {
      assert q == [q[0]] + q[1..];
      SortedCons(q[0], q[1..]);
      RemoveSorted(q[1..], what, obj);
      RemoveFrom(q[1..], what, obj, q[0].when);
      SortedCons(q[0], Remove(q[1..], what, obj));
    }
  }

  lemma {:induction false} EnqueueUpto(q: seq<Message>, m: Message, count: nat)
    requires Upto(q, count) && 1 <= m.obj <= count
    ensures Upto(Enqueue(q, m), count)
  {
    if q != [] && m.when >= q[0].when {
      EnqueueUpto(q[1..], m, count);
    }
  }

  lemma {:induction false} RemoveUpto(q: seq<Message>, what: What, obj: nat, count: nat)
    requires Upto(q, count)
    ensures Upto(Remove(q, what, obj), count)
  {
    if q != [] {
      RemoveUpto(q[1..], what, obj, count);
    }
  }

  // ----- what an operation does to the messages about one looper message

  lemma {:induction false} AboutNone(q: seq<Message>, k: nat, count: nat)
    requires Upto(q, count) && count < k
    ensures About(q, k) == []
  {
    if q != [] {
      AboutNone(q[1..], k, count);
    }
  }

  lemma {:induction false} AboutFrom(q: seq<Message>, k: nat, t: int)
    requires AllFrom(q, t)
    ensures AllFrom(About(q, k), t)
  {
    if q != [] {
      AboutFrom(q[1..], k, t);
    }
  }

  lemma EnqueueFirst(q: seq<Message>, m: Message, t: int)
    requires AllFrom(q, t) && m.when < t
    ensures Enqueue(q, m) == [m] + q
  {
  }

  /** Inserting into the whole queue inserts into the part about its looper message. */
  lemma {:induction false} AboutEnqueue(q: seq<Message>, m: Message, k: nat)
    requires Sorted(q)
    ensures About(Enqueue(q, m), k) == if m.obj == k then Enqueue(About(q, k), m) else About(q, k)
  {
    if q == [] {
      assert ([m] + q)[1..] == q;
    } else {
      assert q == [q[0]] + q[1..];
      SortedCons(q[0], q[1..]);
      if m.when < q[0].when {
        assert ([m] + q)[1..] == q;
        AboutFrom(q, k, q[0].when);
        EnqueueFirst(About(q, k), m, q[0].when);
      } else {
        AboutEnqueue(q[1..], m, k);
        assert ([q[0]] + Enqueue(q[1..], m))[1..] == Enqueue(q[1..], m);
        if q[0].obj == k {
          assert ([q[0]] + About(q[1..], k))[1..] == About(q[1..], k);
        }
      }
    }
  }

  lemma {:induction false} AboutRemove(q: seq<Message>, what: What, obj: nat, k: nat)
    ensures About(Remove(q, what, obj), k)
      == if obj == k then Remove(About(q, k), what, obj) else About(q, k)
  {
    if q != [] {
      var more := Remove(q[1..], what, obj);
      AboutRemove(q[1..], what, obj, k);
      assert ([q[0]] + more)[1..] == more;
      if q[0].obj == k {
        assert ([q[0]] + About(q[1..], k))[1..] == About(q[1..], k);
      }
    }
  }
}
