/**
 Whole runs of hooked writes.  The interval list and the byte count start afresh with every write,
 but the heap flag does not: a record is treated according to the last heap announcement in
 everything written to the dump file before it.
 */
module HprofRuns {
  import opened Bytes
  import opened HprofFormat
  import opened HprofStripping
  import opened HprofCapacity
  import opened HprofStrip
  import opened Kernel

  /** One hooked write; `rs` and `tail` are what `buf` holds if it is a heap segment. */
  datatype Call = Call(fd: int, buf: seq<Byte>, rs: seq<Record>, tail: seq<Byte>)

  // ----- the run as the filter carries it out, with its flag

  predicate WritesRecords(call: Call, dump: int) {
    call.fd == dump && call.buf != [] && IsHeapTag(call.buf[0]) && AllValid(call.rs, false)
  }

  function HeapFlag(calls: seq<Call>, dump: int): bool {
    if calls == [] then false
    else
      var prefix, call := calls[..|calls| - 1], calls[|calls| - 1];
      if WritesRecords(call, dump)
      then HeapAfterWrite(call.buf, HeapFlag(prefix, dump), call.rs)
      else HeapFlag(prefix, dump)
  }

  /** Every write of the dump file meets what the filter relies on when its turn comes. */
  predicate AllAcceptable(calls: seq<Call>, dump: int) {
    if calls == [] then true
    else
      var prefix, call := calls[..|calls| - 1], calls[|calls| - 1];
      && AllAcceptable(prefix, dump)
      && (call.fd == dump ==> Acceptable(call.buf, HeapFlag(prefix, dump), call.rs, call.tail))
  }

  /** The bytes of the dump file after a run that starts with the flag off. */
  function DumpFile(calls: seq<Call>, dump: int): seq<Byte>
    requires AllAcceptable(calls, dump)
  {
    if calls == [] then []
    else
      var prefix, call := calls[..|calls| - 1], calls[|calls| - 1];
      if call.fd == dump
      then DumpFile(prefix, dump) + Emitted(call.buf, HeapFlag(prefix, dump), call.rs, call.tail)
      else DumpFile(prefix, dump)
  }

  // ----- the run as it should be understood, record by record and without a flag

  /** Every record written to the dump file, in order. */
  function History(calls: seq<Call>, dump: int): (rs: seq<Record>)
    ensures AllValid(rs, false)
  {
    if calls == [] then []
    else
      var prefix, call := calls[..|calls| - 1], calls[|calls| - 1];
      if WritesRecords(call, dump) then History(prefix, dump) + call.rs
      else History(prefix, dump)
  }

  /** Whether the last announcement in `rs` is of a system heap; without any, it is the app's. */
  predicate InSystemHeap(rs: seq<Record>)
    requires AllValid(rs, false)
    decreases |rs|
  {
    if rs == [] then false
    else if rs[|rs| - 1].HeapDumpInfo? then EntersSystemHeap(rs[|rs| - 1])
    else InSystemHeap(rs[..|rs| - 1])
  }

  /** In the format's words: the last announcement has the type 'Z' or 'I' in its lowest byte. */
  lemma {:induction false} LastAnnouncementDecides(rs: seq<Record>)
    requires AllValid(rs, false)
    ensures InSystemHeap(rs) <==> exists j ::
      && 0 <= j < |rs| && rs[j].HeapDumpInfo? && (rs[j].heapType[3] as char == 'Z' || rs[j].heapType[3] as char == 'I')
      && forall l :: j < l < |rs| ==> !rs[l].HeapDumpInfo?
    decreases |rs|
  {
    if rs != [] && !rs[|rs| - 1].HeapDumpInfo? {
      var prefix := rs[..|rs| - 1];
      LastAnnouncementDecides(prefix);
      assert forall j :: 0 <= j < |prefix| ==> prefix[j] == rs[j];
    }
  }

  /** What is kept of the first `n` records of `rs`, written after the records `before`. */
  function Keep(before: seq<Record>, rs: seq<Record>, n: nat): (ks: seq<Record>)
    requires AllValid(before, false) && AllValid(rs, false) && n <= |rs|
    ensures AllValid(ks, true)
  {
    if n == 0 then []
    else if Drops(rs[n - 1], InSystemHeap(before + rs[..n - 1])) then Keep(before, rs, n - 1)
    else Keep(before, rs, n - 1) + [WithoutData(rs[n - 1])]
  }

  /** The bytes of the first `n` records of `rs` that are removed, each judged by itself. */
  function Removed(before: seq<Record>, rs: seq<Record>, n: nat): nat
    requires AllValid(before, false) && AllValid(rs, false) && n <= |rs|
  {
    if n == 0 then 0
    else
      Removed(before, rs, n - 1)
      + if Drops(rs[n - 1], InSystemHeap(before + rs[..n - 1])) then |Encode(rs[n - 1])| else 0
  }

  function ExpectedFile(calls: seq<Call>, dump: int): seq<Byte>
    requires AllAcceptable(calls, dump)
  {
    if calls == [] then []
    else
      var prefix, call := calls[..|calls| - 1], calls[|calls| - 1];
      if call.fd != dump then ExpectedFile(prefix, dump)
      else if !IsHeapTag(call.buf[0]) then ExpectedFile(prefix, dump) + call.buf
      else
        var kept := Keep(History(prefix, dump), call.rs, |call.rs|);
        var removed := Removed(History(prefix, dump), call.rs, |call.rs|);
        RemovedAtMost(History(prefix, dump), call.rs, call.tail);
        ExpectedFile(prefix, dump) + (NewHeader(call.buf, removed) + EncodeAll(kept, call.tail))
  }

  // ----- they are the same

  lemma {:induction false} HeapOfAppended(before: seq<Record>, rs: seq<Record>)
    requires AllValid(before, false) && AllValid(rs, false)
    ensures InSystemHeap(before + rs) == HeapAfterAll(rs, InSystemHeap(before))
    decreases |rs|
  {
    if rs == [] {
      assert before + rs == before;
    } else {
      var step := before + [rs[0]];
      assert step[..|step| - 1] == before;
      assert before + rs == step + rs[1..];
      HeapOfAppended(step, rs[1..]);
    }
  }

  /** The flag is a function of the records written so far. */
  lemma {:induction false} FlagIsLastAnnouncement(calls: seq<Call>, dump: int)
    ensures HeapFlag(calls, dump) == InSystemHeap(History(calls, dump))
    decreases |calls|
  {
    if calls != [] {
      var prefix, call := calls[..|calls| - 1], calls[|calls| - 1];
      FlagIsLastAnnouncement(prefix, dump);
      if WritesRecords(call, dump) {
        HeapOfAppended(History(prefix, dump), call.rs);
      }
    }
  }

  /** Stripping with a flag handed on equals looking back from each record on its own. */
  lemma {:induction false} KeepIsStripped(before: seq<Record>, rs: seq<Record>, n: nat)
    requires AllValid(before, false) && AllValid(rs, false) && n <= |rs|
    ensures Keep(before, rs, n) == Stripped(rs[..n], InSystemHeap(before))
    decreases n
  {
    if n > 0 {
      assert rs[..n] == rs[..n - 1] + [rs[n - 1]];
      KeepIsStripped(before, rs, n - 1);
      HeapOfAppended(before, rs[..n - 1]);
      StrippedSnoc(rs[..n - 1], rs[n - 1], InSystemHeap(before));
    }
  }

  /** The same for the bytes that are removed. */
  lemma {:induction false} RemovedIsDropped(before: seq<Record>, rs: seq<Record>, n: nat)
    requires AllValid(before, false) && AllValid(rs, false) && n <= |rs|
    ensures Removed(before, rs, n) == DroppedBytes(rs[..n], InSystemHeap(before))
    decreases n
  {
    if n > 0 {
      assert rs[..n] == rs[..n - 1] + [rs[n - 1]];
      RemovedIsDropped(before, rs, n - 1);
      HeapOfAppended(before, rs[..n - 1]);
      DroppedSnoc(rs[..n - 1], rs[n - 1], InSystemHeap(before));
    }
  }

  lemma {:induction false} DroppedSnoc(rs: seq<Record>, last: Record, heap: bool)
    requires AllValid(rs, false) && Valid(last, false)
    ensures AllValid(rs + [last], false)
    ensures DroppedBytes(rs + [last], heap)
      == DroppedBytes(rs, heap) + if Drops(last, HeapAfterAll(rs, heap)) then |Encode(last)| else 0
    decreases |rs|
  {
    if rs == [] {
      assert rs + [last] == [last];
    } else {
      assert (rs + [last])[1..] == rs[1..] + [last];
      DroppedSnoc(rs[1..], last, HeapAfter(rs[0], heap));
    }
  }

  lemma RemovedAtMost(before: seq<Record>, rs: seq<Record>, tail: seq<Byte>)
    requires AllValid(before, false) && AllValid(rs, false)
    ensures Removed(before, rs, |rs|) <= |EncodeAll(rs, tail)|
  {
    RemovedIsDropped(before, rs, |rs|);
    assert rs[..|rs|] == rs;
    DroppedAtMost(rs, InSystemHeap(before), tail);
  }

  lemma {:induction false} StrippedSnoc(rs: seq<Record>, last: Record, heap: bool)
    requires AllValid(rs, false) && Valid(last, false)
    ensures AllValid(rs + [last], false)
    ensures Stripped(rs + [last], heap)
      == if Drops(last, HeapAfterAll(rs, heap)) then Stripped(rs, heap)
         else Stripped(rs, heap) + [WithoutData(last)]
    decreases |rs|
  {
    if rs == [] {
      assert rs + [last] == [last];
      StrippedFirst([last], heap);
    } else {
      var heap' := HeapAfter(rs[0], heap);
      StrippedSnoc(rs[1..], last, heap');
      StrippedFirst(rs, heap);
      StrippedFirst(rs + [last], heap);
      assert (rs + [last])[1..] == rs[1..] + [last];
      Assoc([WithoutData(rs[0])], Stripped(rs[1..], heap'), [WithoutData(last)]);
    }
  }

  lemma StrippedFirst(rs: seq<Record>, heap: bool)
    requires AllValid(rs, false) && rs != []
    ensures var more := Stripped(rs[1..], HeapAfter(rs[0], heap));
      Stripped(rs, heap) == if Drops(rs[0], heap) then more else [WithoutData(rs[0])] + more
  {
    var more := Survivors(rs[1..], HeapAfter(rs[0], heap));
    if !Drops(rs[0], heap) {
      assert ([rs[0]] + more)[1..] == more;
    }
  }

  /**
   Over any run, the dump file holds the segments with each record treated by the last heap
   announcement before it, and every other record of the dump byte for byte.
   */
  lemma {:induction false} RunIsAsExpected(calls: seq<Call>, dump: int)
    requires AllAcceptable(calls, dump)
    ensures DumpFile(calls, dump) == ExpectedFile(calls, dump)
    decreases |calls|
  {
    if calls != [] {
      var prefix, call := calls[..|calls| - 1], calls[|calls| - 1];
      RunIsAsExpected(prefix, dump);
      if WritesRecords(call, dump) {
        FlagIsLastAnnouncement(prefix, dump);
        KeepIsStripped(History(prefix, dump), call.rs, |call.rs|);
        RemovedIsDropped(History(prefix, dump), call.rs, |call.rs|);
        assert call.rs[..|call.rs|] == call.rs;
      }
    }
  }

  lemma {:induction false} PrefixAcceptable(calls: seq<Call>, dump: int, n: nat)
    requires AllAcceptable(calls, dump) && n < |calls|
    ensures AllAcceptable(calls[..n], dump)
    ensures calls[n].fd == dump ==>
      Acceptable(calls[n].buf, HeapFlag(calls[..n], dump), calls[n].rs, calls[n].tail)
    decreases |calls|
  {
    if n < |calls| - 1 {
      PrefixAcceptable(calls[..|calls| - 1], dump, n);
      assert calls[..|calls| - 1][..n] == calls[..n];
    }
  }

  /** One more write. */
  lemma OneMore(calls: seq<Call>, dump: int, n: nat)
    requires n < |calls| && AllAcceptable(calls[..n], dump)
    requires calls[n].fd == dump ==>
      Acceptable(calls[n].buf, HeapFlag(calls[..n], dump), calls[n].rs, calls[n].tail)
    ensures AllAcceptable(calls[..n + 1], dump)
    ensures var call, flag := calls[n], HeapFlag(calls[..n], dump);
      && DumpFile(calls[..n + 1], dump)
           == (if call.fd == dump then DumpFile(calls[..n], dump) + Emitted(call.buf, flag, call.rs, call.tail)
               else DumpFile(calls[..n], dump))
      && HeapFlag(calls[..n + 1], dump)
           == if call.fd == dump then HeapAfterWrite(call.buf, flag, call.rs) else flag
  {
    assert calls[..n + 1][..n] == calls[..n];
  }

  /** One write of a run, with its own buffer. */
  method WriteNext(filter: HprofStrip, kernel: Kernel, call: Call)
    requires filter.Valid()
    requires call.fd == filter.hprofFd ==> Acceptable(call.buf, filter.isCurrentSystemHeap, call.rs, call.tail)
    modifies filter, filter.stripIndexListPair, kernel
    ensures filter.Valid() && filter.hprofFd == old(filter.hprofFd)
    ensures var dump := filter.hprofFd;
      if call.fd == dump then
        && kernel.Contents(dump) == old(kernel.Contents(dump))
             + Emitted(call.buf, old(filter.isCurrentSystemHeap), call.rs, call.tail)
        && filter.isCurrentSystemHeap == HeapAfterWrite(call.buf, old(filter.isCurrentSystemHeap), call.rs)
      else
        kernel.Contents(dump) == old(kernel.Contents(dump))
        && filter.isCurrentSystemHeap == old(filter.isCurrentSystemHeap)
  {
    var buf := new Byte[|call.buf|](j requires 0 <= j < |call.buf| => call.buf[j]);
    assert buf[..] == call.buf;
    var result := filter.HookWriteInternal(kernel, call.fd, buf, call.rs, call.tail);
  }

  /** A whole run of hooked writes, from the flag that a new filter has. */
  method WriteAll(filter: HprofStrip, kernel: Kernel, calls: seq<Call>)
    requires filter.Valid() && !filter.isCurrentSystemHeap && AllAcceptable(calls, filter.hprofFd)
    modifies filter, filter.stripIndexListPair, kernel
    ensures filter.Valid() && filter.hprofFd == old(filter.hprofFd)
    ensures kernel.Contents(filter.hprofFd)
      == old(kernel.Contents(filter.hprofFd)) + ExpectedFile(calls, filter.hprofFd)
    ensures filter.isCurrentSystemHeap == InSystemHeap(History(calls, filter.hprofFd))
  {
    var dump := filter.hprofFd;
    ghost var before, out := kernel.Contents(dump), [];
    for i := 0 to |calls|
      invariant filter.Valid() && filter.hprofFd == dump && AllAcceptable(calls[..i], dump)
      invariant filter.isCurrentSystemHeap == HeapFlag(calls[..i], dump)
      invariant kernel.Contents(dump) == before + out && out == DumpFile(calls[..i], dump)
    {
      PrefixAcceptable(calls, dump, i);
      OneMore(calls, dump, i);
      WriteNext(filter, kernel, calls[i]);
      if calls[i].fd == dump {
        Assoc(before, out, Emitted(calls[i].buf, HeapFlag(calls[..i], dump), calls[i].rs, calls[i].tail));
      }
      out := DumpFile(calls[..i + 1], dump);
    }
    assert calls[..|calls|] == calls;
    FlagIsLastAnnouncement(calls, dump);
    RunIsAsExpected(calls, dump);
  }
}
