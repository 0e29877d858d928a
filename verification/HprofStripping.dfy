/**
 What stripping a heap segment means, record by record, and the interval lists that realise it.
 `heap` is true while the records belong to a system heap (zygote or boot image).
 */
module HprofStripping {
  import opened Wrappers
  import opened Bytes
  import opened HprofFormat

  // ----- the record-level transformation

  /** Only the low byte of the four-byte heap type is looked at. */
  predicate EntersSystemHeap(r: Record)
    requires Valid(r, false) && r.HeapDumpInfo?
  {
    r.heapType[3] == HEAP_ZYGOTE || r.heapType[3] == HEAP_IMAGE
  }

  function HeapAfter(r: Record, heap: bool): bool
    requires Valid(r, false)
  {
    if r.HeapDumpInfo? then EntersSystemHeap(r) else heap
  }

  /** The records that vanish and are deducted from the segment's length. */
  predicate Drops(r: Record, heap: bool)
    requires Valid(r, false)
  {
    match r
    case HeapDumpInfo(_, _) => EntersSystemHeap(r)
    case InstanceDump(_, _) => heap
    case ObjectArrayDump(_, _, _, _) => heap
    case PrimitiveArrayDump(_, _, _, _) => heap
    case _ => false
  }

  /** A primitive array cut down to its header; every other record as it is. */
  function WithoutData(r: Record): (k: Record)
    requires Valid(r, false)
    ensures Valid(k, true)
  {
    if r.PrimitiveArrayDump? then PrimitiveArrayDump(r.head, r.length, r.ty, []) else r
  }

  function Survivors(rs: seq<Record>, heap: bool): (ks: seq<Record>)
    requires AllValid(rs, false)
    ensures AllValid(ks, false)
  {
    if rs == [] then []
    else
      var more := Survivors(rs[1..], HeapAfter(rs[0], heap));
      if Drops(rs[0], heap) then more else [rs[0]] + more
  }

  function AllWithoutData(rs: seq<Record>): (ks: seq<Record>)
    requires AllValid(rs, false)
    ensures AllValid(ks, true)
  {
    if rs == [] then [] else [WithoutData(rs[0])] + AllWithoutData(rs[1..])
  }

  /** The records of the stripped segment. */
  function Stripped(rs: seq<Record>, heap: bool): (ks: seq<Record>)
    requires AllValid(rs, false)
    ensures AllValid(ks, true)
  {
    AllWithoutData(Survivors(rs, heap))
  }

  function HeapAfterAll(rs: seq<Record>, heap: bool): bool
    requires AllValid(rs, false)
  {
    if rs == [] then heap else HeapAfterAll(rs[1..], HeapAfter(rs[0], heap))
  }

  function DroppedBytes(rs: seq<Record>, heap: bool): nat
    requires AllValid(rs, false)
  {
    if rs == [] then 0
    else
      (if Drops(rs[0], heap) then |Encode(rs[0])| else 0)
      + DroppedBytes(rs[1..], HeapAfter(rs[0], heap))
  }

  function DataBytes(rs: seq<Record>): nat {
    if rs == [] then 0
    else (if rs[0].PrimitiveArrayDump? then |rs[0].data| else 0) + DataBytes(rs[1..])
  }

  function PrimitiveArrays(rs: seq<Record>): nat {
    if rs == [] then 0 else (if rs[0].PrimitiveArrayDump? then 1 else 0) + PrimitiveArrays(rs[1..])
  }

  // ----- the intervals the filter records

  /** The half-open range [left, right) of buffer positions that is not written. */
  datatype Interval = Interval(left: int, right: int)

  function CutOf(r: Record, heap: bool, at: int): Option<Interval>
    requires Valid(r, false)
  {
    if Drops(r, heap) then Some(Interval(at, at + |Encode(r)|))
    else if r.PrimitiveArrayDump? then Some(Interval(at + 14, at + |Encode(r)|))
    else None
  }

  function Cuts(rs: seq<Record>, heap: bool, at: int): seq<Interval>
    requires AllValid(rs, false)
  {
    if rs == [] then []
    else
      var more := Cuts(rs[1..], HeapAfter(rs[0], heap), at + |Encode(rs[0])|);
      match CutOf(rs[0], heap, at)
      case None => more
      case Some(cut) => [cut] + more
  }

  /** Disjoint intervals in increasing order, none before `start` and none beyond `end`. */
  predicate Ordered(cuts: seq<Interval>, start: int, end: int) {
    if cuts == [] then start <= end
    else start <= cuts[0].left <= cuts[0].right && Ordered(cuts[1..], cuts[0].right, end)
  }

  lemma OrderedBounds(cuts: seq<Interval>, start: int, end: int)
    requires Ordered(cuts, start, end)
    ensures start <= end
    ensures forall i :: 0 <= i < |cuts| ==> start <= cuts[i].left <= cuts[i].right <= end
    ensures forall i, j :: 0 <= i < j < |cuts| ==> cuts[i].right <= cuts[j].left
  {
    if cuts != [] {
      OrderedBounds(cuts[1..], cuts[0].right, end);
      forall i | 0 <= i < |cuts|
        ensures start <= cuts[i].left <= cuts[i].right <= end
      {
        if i > 0 { assert cuts[i] == cuts[1..][i - 1]; }
      }
      forall i, j | 0 <= i < j < |cuts|
        ensures cuts[i].right <= cuts[j].left
      {
        assert cuts[j] == cuts[1..][j - 1];
        if i > 0 { assert cuts[i] == cuts[1..][i - 1]; }
      }
    }
  }

  lemma CutOfBounds(r: Record, heap: bool, at: int)
    requires Valid(r, false)
    ensures CutOf(r, heap, at).Some? ==>
      at <= CutOf(r, heap, at).value.left <= CutOf(r, heap, at).value.right == at + |Encode(r)|
  {
  }

  /** The intervals of a segment that starts at `at` lie in order inside the buffer. */
  lemma {:induction false} CutsInOrder(
      rs: seq<Record>, tail: seq<Byte>, heap: bool, at: int, start: int, end: int)
    requires AllValid(rs, false) && start <= at && end == at + |EncodeAll(rs, tail)|
    ensures Ordered(Cuts(rs, heap, at), start, end)
    decreases |rs|
  {
    if rs != [] {
      var heap', next := HeapAfter(rs[0], heap), at + |Encode(rs[0])|;
      var more := Cuts(rs[1..], heap', next);
      CutOfBounds(rs[0], heap, at);
      match CutOf(rs[0], heap, at) {
        case None => CutsInOrder(rs[1..], tail, heap', next, start, end);
        case Some(cut) =>
          CutsInOrder(rs[1..], tail, heap', next, next, end);
          assert Cuts(rs, heap, at)[1..] == more;
      }
    }
  }

  // ----- copying the gaps

  /** The bytes of `buf` from `start` on that lie in no interval. */
  function Gaps(buf: seq<Byte>, cuts: seq<Interval>, start: nat): seq<Byte>
    requires Ordered(cuts, start, |buf|)
  {
    OrderedBounds(cuts, start, |buf|);
    if cuts == [] then
      if start < |buf| then buf[start..] else []
    else if start < cuts[0].left then
      buf[start..cuts[0].left] + Gaps(buf, cuts[1..], cuts[0].right)
    else
      Gaps(buf, cuts[1..], cuts[0].right)
  }

  /** The bytes in the intervals. */
  function CutBytes(cuts: seq<Interval>): int {
    if cuts == [] then 0 else cuts[0].right - cuts[0].left + CutBytes(cuts[1..])
  }

  /** Every byte is either copied or in exactly one interval. */
  lemma {:induction false} GapsSize(buf: seq<Byte>, cuts: seq<Interval>, start: nat)
    requires Ordered(cuts, start, |buf|)
    ensures |Gaps(buf, cuts, start)| + CutBytes(cuts) == |buf| - start
    decreases |cuts|
  {
    OrderedBounds(cuts, start, |buf|);
    if cuts != [] {
      GapsSize(buf, cuts[1..], cuts[0].right);
    }
  }

  /** Starting earlier copies more bytes in front. */
  lemma EarlierStart(buf: seq<Byte>, cuts: seq<Interval>, at: nat, start: nat)
    requires at < start && Ordered(cuts, start, |buf|)
    ensures Ordered(cuts, at, |buf|) && start <= |buf|
    ensures Gaps(buf, cuts, at) == buf[at..start] + Gaps(buf, cuts, start)
  {
    OrderedBounds(cuts, start, |buf|);
    if cuts == [] {
      CutTwice(buf, at, start);
    } else if start < cuts[0].left {
      var left := cuts[0].left;
      assert buf[at..left] == buf[at..start] + buf[start..left];
      Assoc(buf[at..start], buf[start..left], Gaps(buf, cuts[1..], cuts[0].right));
    }
  }

  /** A cut record, of which the bytes before `left` are copied. */
  lemma CutInFront(buf: seq<Byte>, cuts: seq<Interval>, at: nat, left: nat, right: nat)
    requires at <= left <= right && Ordered(cuts, right, |buf|)
    ensures right <= |buf| && Ordered([Interval(left, right)] + cuts, at, |buf|)
    ensures Gaps(buf, [Interval(left, right)] + cuts, at)
      == if at < left then buf[at..left] + Gaps(buf, cuts, right) else Gaps(buf, cuts, right)
  {
    OrderedBounds(cuts, right, |buf|);
    assert ([Interval(left, right)] + cuts)[1..] == cuts;
  }

  lemma HeaderOf(r: Record)
    requires Valid(r, false) && r.PrimitiveArrayDump?
    ensures |Encode(r)| >= 14 && Encode(WithoutData(r)) == Encode(r)[..14]
  {
    Pieces([PRIMITIVE_ARRAY_DUMP] + r.head, BigEndian4(r.length), [r.ty], r.data, []);
  }

  lemma StrippedCons(rs: seq<Record>, heap: bool, tail: seq<Byte>)
    requires AllValid(rs, false) && rs != []
    ensures var more := EncodeAll(Stripped(rs[1..], HeapAfter(rs[0], heap)), tail);
      EncodeAll(Stripped(rs, heap), tail)
        == if Drops(rs[0], heap) then more else Encode(WithoutData(rs[0])) + more
  {
    var more := Survivors(rs[1..], HeapAfter(rs[0], heap));
    if !Drops(rs[0], heap) {
      assert ([rs[0]] + more)[1..] == more;
      EncodeAllCons(WithoutData(rs[0]), AllWithoutData(more), tail, true);
    }
  }

  /** What is copied of the record at `at` in front of what is copied of the others. */
  lemma GapsOfFirst(buf: seq<Byte>, r: Record, heap: bool, at: nat, next: nat, more: seq<Interval>)
    requires Valid(r, false) && next == at + |Encode(r)| <= |buf| && buf[at..next] == Encode(r)
    requires Ordered(more, next, |buf|)
    ensures var cuts := match CutOf(r, heap, at) case None => more case Some(cut) => [cut] + more;
      && Ordered(cuts, at, |buf|)
      && Gaps(buf, cuts, at)
           == if Drops(r, heap) then Gaps(buf, more, next) else Encode(WithoutData(r)) + Gaps(buf, more, next)
  {
    if Drops(r, heap) {
      CutInFront(buf, more, at, at, next);
    } else if r.PrimitiveArrayDump? {
      HeaderOf(r);
      CutInFront(buf, more, at, at + 14, next);
      assert buf[at..at + 14] == buf[at..next][..14];
    } else {
      EarlierStart(buf, more, at, next);
    }
  }

  /**
   Copying the gaps of `buf` between the recorded intervals writes exactly the stripped records,
   followed by the unread tail.
   */
  lemma {:induction false} GapsAreStripped(
      buf: seq<Byte>, rs: seq<Record>, tail: seq<Byte>, heap: bool, at: nat)
    requires AllValid(rs, false) && at <= |buf| && buf[at..] == EncodeAll(rs, tail)
    ensures Ordered(Cuts(rs, heap, at), at, |buf|)
    ensures Gaps(buf, Cuts(rs, heap, at), at) == EncodeAll(Stripped(rs, heap), tail)
    decreases |rs|
  {
    if rs != [] {
      var heap', next := HeapAfter(rs[0], heap), at + |Encode(rs[0])|;
      SplitAt(buf, at, Encode(rs[0]), EncodeAll(rs[1..], tail));
      GapsAreStripped(buf, rs[1..], tail, heap', next);
      StrippedCons(rs, heap, tail);
      GapsOfFirst(buf, rs[0], heap, at, next, Cuts(rs[1..], heap', next));
    }
  }

  lemma SplitAt(buf: seq<Byte>, at: nat, first: seq<Byte>, more: seq<Byte>)
    requires at <= |buf| && buf[at..] == first + more
    ensures at + |first| <= |buf|
    ensures buf[at..at + |first|] == first && buf[at + |first|..] == more
  {
    Joined(first, more);
    assert buf[at..at + |first|] == buf[at..][..|first|];
    assert buf[at + |first|..] == buf[at..][|first|..];
  }
}
