/** The filter itself: the hooked `write` and the scan of heap segments. */
module HprofStrip {
  import opened Wrappers
  import opened Bytes
  import opened HprofFormat
  import opened HprofFields
  import opened HprofMeaning
  import opened HprofStripping
  import opened HprofRefill
  import opened HprofCapacity
  import opened Kernel

  // Record tags.
  const HEAP_DUMP: Byte := 0x0C
  const HEAP_DUMP_SEGMENT: Byte := 0x1C

  function GetShortFromBytes(buf: seq<Byte>, index: Int32): (n: Int32)
    requires 0 <= index && index + 2 <= |buf|
    ensures n == Unsigned2(buf, index)
  {
    buf[index] as int * 0x100 + buf[index + 1]
  }

  /** The top byte is shifted into the sign bit of the result. */
  function GetIntFromBytes(buf: seq<Byte>, index: Int32): (n: Int32)
    requires 0 <= index && index + 4 <= |buf|
    ensures n == ToSigned(Unsigned4(buf, index))
  {
    var high := if buf[index] < 0x80 then buf[index] as int else buf[index] as int - 0x100;
    high * 0x100_0000 + buf[index + 1] as int * 0x1_0000 + buf[index + 2] as int * 0x100 + buf[index + 3]
  }

  lemma Delivered(a: seq<Byte>, buf: seq<Byte>, done: nat, more: nat)
    requires done + more <= |buf|
    ensures (a + buf[..done]) + buf[done..][..more] == a + buf[..done + more]
  {
    assert buf[..done + more] == buf[..done] + buf[done..][..more];
  }

  /** A record whose length field counts `dropped` bytes less. */
  function Patched(buf: seq<Byte>, dropped: nat): (p: seq<Byte>)
    requires |buf| >= HEADER_SIZE && dropped <= Unsigned4(buf, 5)
    ensures |p| == |buf|
  {
    buf[..5] + BigEndian4(Unsigned4(buf, 5) - dropped) + buf[HEADER_SIZE..]
  }

  /** The shifts and masks that take a word apart, against repeated division. */
  lemma ShiftsAreDigits(n: nat)
    requires n < 0x1_0000_0000
    ensures BigEndian4(n) == [n / 0x100_0000, n / 0x1_0000 % 0x100, n / 0x100 % 0x100, n % 0x100]
  {
    assert n / 0x100 / 0x100 == n / 0x1_0000;
    assert n / 0x1_0000 / 0x100 == n / 0x100_0000;
  }

  /** There is a record at a position exactly when there is a known tag. */
  lemma KnownTagAt(buf: seq<Byte>, at: nat, rs: seq<Record>, tail: seq<Byte>)
    requires AllValid(rs, false) && (tail == [] || !Known(tail[0]))
    requires at < |buf| && buf[at..] == EncodeAll(rs, tail)
    ensures Known(buf[at]) <==> rs != []
  {
    ShiftedIndex(buf, at, EncodeAll(rs, tail), 0);
    if rs != [] {
      FirstByte(rs[0], false, EncodeAll(rs[1..], tail));
    }
  }

  lemma CutsCons(rs: seq<Record>, heap: bool, at: int, done: seq<Interval>)
    requires AllValid(rs, false) && rs != []
    ensures var more := Cuts(rs[1..], HeapAfter(rs[0], heap), at + |Encode(rs[0])|);
      match CutOf(rs[0], heap, at)
      case None => Cuts(rs, heap, at) == more
      case Some(cut) =>
        done + Cuts(rs, heap, at) == done + [cut] + more && |Cuts(rs, heap, at)| == 1 + |more|
  {
    match CutOf(rs[0], heap, at)
    case None =>
    case Some(cut) =>
      Assoc(done, [cut], Cuts(rs[1..], HeapAfter(rs[0], heap), at + |Encode(rs[0])|));
  }

  lemma RestValid(rs: seq<Record>)
    requires AllValid(rs, false) && rs != []
    ensures Valid(rs[0], false) && AllValid(rs[1..], false)
  {
  }

  lemma FirstSize(rs: seq<Record>, tail: seq<Byte>, heap: bool)
    requires AllValid(rs, false) && rs != []
    ensures |Encode(rs[0])| <= |EncodeAll(rs, tail)|
    ensures DroppedBytes(rs, heap) == (if Drops(rs[0], heap) then |Encode(rs[0])| else 0)
      + DroppedBytes(rs[1..], HeapAfter(rs[0], heap))
    ensures PrimitiveArrays(rs)
      == (if rs[0].PrimitiveArrayDump? then 1 else 0) + PrimitiveArrays(rs[1..])
  {
  }

  lemma NothingAt(buf: seq<Byte>, at: nat, rs: seq<Record>, tail: seq<Byte>)
    requires AllValid(rs, false) && at == |buf| && buf[at..] == EncodeAll(rs, tail)
    ensures rs == []
  {
  }

  lemma NextAt(buf: seq<Byte>, at: nat, next: nat, rs: seq<Record>, tail: seq<Byte>)
    requires AllValid(rs, false) && rs != [] && at <= |buf| && buf[at..] == EncodeAll(rs, tail)
    requires next == at + |Encode(rs[0])|
    ensures AllValid(rs[1..], false) && at < next <= |buf| && buf[next..] == EncodeAll(rs[1..], tail)
  {
    RestValid(rs);
    SplitAt(buf, at, Encode(rs[0]), EncodeAll(rs[1..], tail));
  }

  lemma SameLength<T>(a: seq<T>, b: seq<T>, c: seq<T>, d: seq<T>)
    requires a + b == c + d
    ensures |a| + |b| == |c| + |d|
  {
    assert |a + b| == |c + d|;
  }

  lemma NoEntries(es: seq<Entry>, more: seq<Byte>)
    requires es == []
    ensures EncodeEntries(es) + more == more
  {
  }

  /** An array that lies in the buffer has a length that is read back unchanged, or no contents. */
  lemma SignedSize(ty: Byte, length: nat)
    requires length < 0x1_0000_0000 && ArraySize(ty, length) < 0x8000_0000
    ensures SizeOf(ty) * ToSigned(length) == ArraySize(ty, length)
  {
    ArraySizeIsProduct(ty, length);
  }

  /** A primitive array is cut from its start in a system heap, from behind its header elsewhere. */
  lemma ArrayCut(r: Record, heap: bool, at: int)
    requires HprofFormat.Valid(r, false) && r.PrimitiveArrayDump?
    ensures CutOf(r, heap, at) == Some(Interval(if heap then at else at + 14, at + |Encode(r)|))
    ensures Drops(r, heap) == heap
  {
  }

  class HprofStrip {
    var hprofFd: int
    var stripBytesSum: Int32
    var heapSerialNum: nat
    var hookWriteSerialNum: nat
    var stripIndex: nat
    var isCurrentSystemHeap: bool
    const stripIndexListPair: array<int>

    /** The intervals recorded in the list. */
    ghost var cuts: seq<Interval>

    ghost predicate Valid()
      reads this, stripIndexListPair
    {
      && stripIndexListPair.Length == STRIP_LIST_LENGTH
      && stripIndex == |cuts| && 2 * |cuts| <= STRIP_LIST_LENGTH
      && forall i :: 0 <= i < |cuts| ==>
           stripIndexListPair[2 * i] == cuts[i].left && stripIndexListPair[2 * i + 1] == cuts[i].right
    }

    constructor ()
      ensures Valid() && fresh(stripIndexListPair)
      ensures hprofFd == -1 && !isCurrentSystemHeap && cuts == []
    {
      hprofFd, stripBytesSum, heapSerialNum, hookWriteSerialNum, stripIndex := -1, 0, 0, 0, 0;
      isCurrentSystemHeap := false;
      stripIndexListPair := new int[STRIP_LIST_LENGTH](_ => 0);
      cuts := [];
    }

    /** Writes again and again until everything is delivered. */
    static method FullyWrite(kernel: Kernel, fd: int, buf: seq<Byte>) returns (count: nat)
      modifies kernel
      ensures count == |buf|
      ensures kernel.Contents(fd) == old(kernel.Contents(fd)) + buf
      ensures forall f :: f != fd ==> kernel.Contents(f) == old(kernel.Contents(f))
    {
      count := |buf|;
      var left: nat := count;
      ghost var before := kernel.Contents(fd);
      while left > 0
        invariant left <= count
        invariant kernel.Contents(fd) == before + buf[..count - left]
        invariant forall f :: f != fd ==> kernel.Contents(f) == old(kernel.Contents(f))
        decreases left, kernel.stalls
      {
        var written := kernel.Write(fd, buf[count - left..]);
        if written != -1 {
          Delivered(before, buf, count - left, written);
          left := left - written;
        }
      }
      assert buf[..count] == buf;
    }

    method Reset()
      requires Valid()
      modifies this`stripIndex, this`stripBytesSum, this`cuts
      ensures Valid() && cuts == [] && stripBytesSum == 0
    {
      stripIndex := 0;
      stripBytesSum := 0;
      cuts := [];
    }

    /** Stores one interval in the list. */
    method Strip(left: Int32, right: Int32)
      requires Valid() && 2 * (|cuts| + 1) <= STRIP_LIST_LENGTH
      modifies this`stripIndex, this`cuts, stripIndexListPair
      ensures Valid() && cuts == old(cuts) + [Interval(left, right)]
    {
      stripIndexListPair[stripIndex * 2] := left;
      stripIndexListPair[stripIndex * 2 + 1] := right;
      stripIndex := stripIndex + 1;
      cuts := cuts + [Interval(left, right)];
    }

    // ----- one record; each method returns the position behind the record

    method SkipClassDump(buf: seq<Byte>, firstIndex: Int32, ghost r: Record, ghost more: seq<Byte>)
      returns (next: Int32)
      requires 0 <= firstIndex && |buf| < 0x8000_0000
      requires PrintedAt(buf, firstIndex, r, more) && r.ClassDump?
      ensures next == |buf| - |more|
    {
      ghost var fields := EncodeFields(r.fieldCount, r.fields) + more;
      ClassDumpAt(buf, firstIndex, r, more);
      var staticFieldsIndex := SkipEntries(buf, firstIndex + 1 + 4 + 4 + 4 + 4 + 4 + 4 + 4 + 4 + 4, 2,
                                           r.constants, EncodeTable(r.statics) + fields);
      var instanceFieldsIndex := SkipEntries(buf, staticFieldsIndex, 4, r.statics, fields);
      FieldsAt(buf, instanceFieldsIndex, r.fieldCount, r.fields, more);
      var instanceFieldsSize := GetShortFromBytes(buf, instanceFieldsIndex);
      next := instanceFieldsIndex + 2 + (1 + 4) * instanceFieldsSize;
    }

    /** The loop over the constant pool (`idSize` 2) and the one over the static fields (4). */
    method SkipEntries(buf: seq<Byte>, index: Int32, idSize: Int32, ghost es: seq<Entry>, ghost more: seq<Byte>)
      returns (next: Int32)
      requires 0 <= index <= |buf| < 0x8000_0000 && 0 <= idSize && ValidTable(es, idSize)
      requires buf[index..] == EncodeTable(es) + more
      ensures index <= next <= |buf| && buf[next..] == more
    {
      TableAt(buf, index, es, idSize, more);
      var size := GetShortFromBytes(buf, index);
      next := index + 2;
      var i := 0;
      while i < size
        invariant 0 <= i <= size == |es|
        invariant index <= next <= |buf| && EntriesAt(buf, next, es[i..], idSize, more)
      {
        EntryAt(buf, next, es[i..], idSize, more);
        assert es[i..][1..] == es[i + 1..];
        var ty := buf[next + idSize];
        next := next + idSize + 1 + SizeOf(ty);
        i := i + 1;
      }
      NoEntries(es[i..], more);
    }

    method ProcessInstanceDump(buf: seq<Byte>, firstIndex: Int32, ghost r: Record, ghost more: seq<Byte>)
      returns (next: Int32)
      requires Valid() && 0 <= firstIndex && |buf| < 0x8000_0000
      requires PrintedAt(buf, firstIndex, r, more) && r.InstanceDump?
      requires isCurrentSystemHeap ==> 2 * (|cuts| + 1) <= STRIP_LIST_LENGTH
      requires 0 <= stripBytesSum && stripBytesSum + |Encode(r)| < 0x8000_0000
      modifies this`stripIndex, this`stripBytesSum, this`cuts, stripIndexListPair
      ensures Valid() && Recorded(r, firstIndex, next, old(isCurrentSystemHeap), old(cuts), old(stripBytesSum))
    {
      TagAt(buf, firstIndex, r, more);
      InstanceDumpAt(buf, firstIndex, r, more);
      var instanceDumpIndex := firstIndex + 1 + 4 + 4 + 4;
      var instanceSize := GetIntFromBytes(buf, instanceDumpIndex);
      next := instanceDumpIndex + 4 + instanceSize;
      if isCurrentSystemHeap {
        Strip(firstIndex, next);
        stripBytesSum := stripBytesSum + (instanceDumpIndex + 4 + instanceSize - firstIndex);
      }
    }

    method ProcessObjectArrayDump(buf: seq<Byte>, firstIndex: Int32, ghost r: Record, ghost more: seq<Byte>)
      returns (next: Int32)
      requires Valid() && 0 <= firstIndex && |buf| < 0x8000_0000
      requires PrintedAt(buf, firstIndex, r, more) && r.ObjectArrayDump?
      requires isCurrentSystemHeap ==> 2 * (|cuts| + 1) <= STRIP_LIST_LENGTH
      requires 0 <= stripBytesSum && stripBytesSum + |Encode(r)| < 0x8000_0000
      modifies this`stripIndex, this`stripBytesSum, this`cuts, stripIndexListPair
      ensures Valid() && Recorded(r, firstIndex, next, old(isCurrentSystemHeap), old(cuts), old(stripBytesSum))
    {
      TagAt(buf, firstIndex, r, more);
      ObjectArrayDumpAt(buf, firstIndex, r, more);
      var length := GetIntFromBytes(buf, firstIndex + 1 + 4 + 4);
      next := firstIndex + 1 + 4 + 4 + 4 + 4 + 4 * length;
      if isCurrentSystemHeap {
        Strip(firstIndex, next);
        stripBytesSum := stripBytesSum + (1 + 4 + 4 + 4 + 4 + 4 * length);
      }
    }

    /** Element size times the length that was read, negative if its top bit is set. */
    method DataSize(ty: Byte, length: Int32, ghost n: nat) returns (size: Int32)
      requires n < 0x1_0000_0000 && length == ToSigned(n) && ArraySize(ty, n) < 0x8000_0000
      ensures size == ArraySize(ty, n)
    {
      var valueSize := SizeOf(ty);
      SignedSize(ty, n);
      size := valueSize * length;
    }

    method ProcessPrimitiveArrayDump(buf: seq<Byte>, firstIndex: Int32, ghost r: Record)
      returns (next: Int32)
      requires Valid() && 0 <= firstIndex && |buf| < 0x8000_0000
      requires HprofFormat.Valid(r, false) && r.PrimitiveArrayDump?
      requires firstIndex + 14 <= firstIndex + |Encode(r)| <= |buf|
      requires Unsigned4(buf, firstIndex + 9) == r.length && buf[firstIndex + 13] == r.ty
      requires |Encode(r)| == 14 + ArraySize(r.ty, r.length)
      requires 2 * (|cuts| + 1) <= STRIP_LIST_LENGTH
      requires 0 <= stripBytesSum && stripBytesSum + |Encode(r)| < 0x8000_0000
      modifies this`stripIndex, this`stripBytesSum, this`cuts, stripIndexListPair
      ensures Valid() && Recorded(r, firstIndex, next, old(isCurrentSystemHeap), old(cuts), old(stripBytesSum))
    {
      ArrayCut(r, isCurrentSystemHeap, firstIndex);
      ghost var size := |Encode(r)|;
      var primitiveArrayDumpIndex := firstIndex + 1 + 4 + 4;
      var length := GetIntFromBytes(buf, primitiveArrayDumpIndex);
      primitiveArrayDumpIndex := primitiveArrayDumpIndex + 4;
      var left := if isCurrentSystemHeap then firstIndex else primitiveArrayDumpIndex + 1;
      var dataSize := DataSize(buf[primitiveArrayDumpIndex], length, r.length);
      next := primitiveArrayDumpIndex + 1 + dataSize;
      assert next == firstIndex + size;
      Strip(left, next);
      if isCurrentSystemHeap {
        stripBytesSum := stripBytesSum + (next - firstIndex);
      }
    }

    method ProcessHeapDumpInfo(buf: seq<Byte>, firstIndex: Int32, ghost r: Record, ghost more: seq<Byte>)
      returns (next: Int32)
      requires Valid() && 0 <= firstIndex && |buf| < 0x8000_0000
      requires PrintedAt(buf, firstIndex, r, more) && r.HeapDumpInfo?
      requires EntersSystemHeap(r) ==> 2 * (|cuts| + 1) <= STRIP_LIST_LENGTH
      requires 0 <= stripBytesSum && stripBytesSum + |Encode(r)| < 0x8000_0000
      modifies this`stripIndex, this`stripBytesSum, this`cuts, this`isCurrentSystemHeap, stripIndexListPair
      ensures Valid() && isCurrentSystemHeap == EntersSystemHeap(r)
      ensures Recorded(r, firstIndex, next, old(isCurrentSystemHeap), old(cuts), old(stripBytesSum))
    {
      TagAt(buf, firstIndex, r, more);
      HeapDumpInfoAt(buf, firstIndex, r, more);
      var heapType := buf[firstIndex + 1 + 3];
      isCurrentSystemHeap := heapType == HEAP_ZYGOTE || heapType == HEAP_IMAGE;
      next := firstIndex + 1 + 4 + 4;
      if isCurrentSystemHeap {
        Strip(firstIndex, next);
        stripBytesSum := stripBytesSum + (1 + 4 + 4);
      }
    }

    /** What scanning `r` at `at` has added to the interval list and to the byte count. */
    ghost predicate Recorded(
        r: Record, at: int, next: int, heap: bool, cuts': seq<Interval>, stripBytesSum': int)
      requires HprofFormat.Valid(r, false)
      reads this
    {
      && next == at + |Encode(r)|
      && stripBytesSum == stripBytesSum' + (if Drops(r, heap) then |Encode(r)| else 0)
      && match CutOf(r, heap, at)
         case None => cuts == cuts'
         case Some(cut) => cuts == cuts' + [cut]
    }

    /** The record of a known tag at `firstIndex`. */
    method ProcessRecord(buf: seq<Byte>, firstIndex: Int32, arraySerialNo: nat, ghost r: Record, ghost more: seq<Byte>)
      returns (next: Int32, serialNo: nat)
      requires Valid() && 0 <= firstIndex && |buf| < 0x8000_0000
      requires PrintedAt(buf, firstIndex, r, more)
      requires CutOf(r, isCurrentSystemHeap, firstIndex).Some? ==> 2 * (|cuts| + 1) <= STRIP_LIST_LENGTH
      requires 0 <= stripBytesSum && stripBytesSum + |Encode(r)| < 0x8000_0000
      modifies this`stripIndex, this`stripBytesSum, this`cuts, this`isCurrentSystemHeap, stripIndexListPair
      ensures Valid() && isCurrentSystemHeap == HeapAfter(r, old(isCurrentSystemHeap))
      ensures Recorded(r, firstIndex, next, old(isCurrentSystemHeap), old(cuts), old(stripBytesSum))
      ensures serialNo == arraySerialNo + if r.PrimitiveArrayDump? then 1 else 0
    {
      TagAt(buf, firstIndex, r, more);
      serialNo := arraySerialNo;
      var subtag := buf[firstIndex];
      if PlainSize(subtag) != -1 {
        next := firstIndex + 1 + PlainSize(subtag);
      } else if subtag == CLASS_DUMP {
        next := SkipClassDump(buf, firstIndex, r, more);
      } else if subtag == INSTANCE_DUMP {
        next := ProcessInstanceDump(buf, firstIndex, r, more);
      } else if subtag == OBJECT_ARRAY_DUMP {
        next := ProcessObjectArrayDump(buf, firstIndex, r, more);
      } else if subtag == PRIMITIVE_ARRAY_DUMP {
        serialNo := serialNo + 1;
        PrimitiveArrayDumpAt(buf, firstIndex, r, more);
        next := ProcessPrimitiveArrayDump(buf, firstIndex, r);
      } else {
        next := ProcessHeapDumpInfo(buf, firstIndex, r, more);
      }
    }

    /**
     The first of the records that remain.  What has been recorded so far and what the remaining
     records will add always make up the same whole.
     */
    method ProcessNext(buf: seq<Byte>, firstIndex: Int32, arraySerialNo: nat,
                       ghost rs: seq<Record>, ghost tail: seq<Byte>)
      returns (next: Int32, serialNo: nat)
      requires Valid() && AllValid(rs, false) && rs != []
      requires 0 <= firstIndex <= |buf| < 0x8000_0000 && buf[firstIndex..] == EncodeAll(rs, tail)
      requires 2 * (|cuts| + |Cuts(rs, isCurrentSystemHeap, firstIndex)|) <= STRIP_LIST_LENGTH
      requires 0 <= stripBytesSum <= firstIndex
      modifies this`stripIndex, this`stripBytesSum, this`cuts, this`isCurrentSystemHeap, stripIndexListPair
      ensures Valid() && AllValid(rs[1..], false)
      ensures next == firstIndex + |Encode(rs[0])| && 0 <= stripBytesSum <= next
      ensures cuts + Cuts(rs[1..], isCurrentSystemHeap, next)
        == old(cuts) + Cuts(rs, old(isCurrentSystemHeap), firstIndex)
      ensures stripBytesSum + DroppedBytes(rs[1..], isCurrentSystemHeap)
        == old(stripBytesSum) + DroppedBytes(rs, old(isCurrentSystemHeap))
      ensures HeapAfterAll(rs[1..], isCurrentSystemHeap) == HeapAfterAll(rs, old(isCurrentSystemHeap))
      ensures serialNo + PrimitiveArrays(rs[1..]) == arraySerialNo + PrimitiveArrays(rs)
    {
      ghost var r, more, heap := rs[0], EncodeAll(rs[1..], tail), isCurrentSystemHeap;
      RestValid(rs);
      CutsCons(rs, heap, firstIndex, cuts);
      FirstSize(rs, tail, heap);
      ghost var moreCuts := Cuts(rs[1..], HeapAfter(r, heap), firstIndex + |Encode(r)|);
      next, serialNo := ProcessRecord(buf, firstIndex, arraySerialNo, r, more);
      assert moreCuts == Cuts(rs[1..], isCurrentSystemHeap, next);
    }

    /**
     Scans the records of a segment from `firstIndex` on, up to its end or to an unknown tag.
     The records `rs` and the unread `tail` are what the buffer holds there.
     */
    method ProcessHeap(buf: seq<Byte>, firstIndex: Int32, maxLen: Int32, heapSerialNo: nat, arraySerialNo: nat,
                       ghost rs: seq<Record>, ghost tail: seq<Byte>)
      returns (serialNo: nat)
      requires Valid() && AllValid(rs, false) && (tail == [] || !Known(tail[0]))
      requires 0 <= firstIndex <= maxLen == |buf| && buf[firstIndex..] == EncodeAll(rs, tail)
      requires 2 * (|cuts| + |Cuts(rs, isCurrentSystemHeap, firstIndex)|) <= STRIP_LIST_LENGTH
      requires 0 <= stripBytesSum <= firstIndex
      modifies this`stripIndex, this`stripBytesSum, this`cuts, this`isCurrentSystemHeap, stripIndexListPair
      ensures Valid()
      ensures cuts == old(cuts) + Cuts(rs, old(isCurrentSystemHeap), firstIndex)
      ensures stripBytesSum == old(stripBytesSum) + DroppedBytes(rs, old(isCurrentSystemHeap))
      ensures isCurrentSystemHeap == HeapAfterAll(rs, old(isCurrentSystemHeap))
      ensures serialNo == arraySerialNo + PrimitiveArrays(rs)
      decreases maxLen - firstIndex
    {
      serialNo := arraySerialNo;
      if firstIndex >= maxLen {
        NothingAt(buf, firstIndex, rs, tail);
        return;
      }
      var subtag := buf[firstIndex];
      KnownTagAt(buf, firstIndex, rs, tail);
      if Known(subtag) {
        var next;
        next, serialNo := ProcessNext(buf, firstIndex, serialNo, rs, tail);
        NextAt(buf, firstIndex, next, rs, tail);
        SameLength(cuts, Cuts(rs[1..], isCurrentSystemHeap, next),
                   old(cuts), Cuts(rs, old(isCurrentSystemHeap), firstIndex));
        serialNo := ProcessHeap(buf, next, maxLen, heapSerialNo, serialNo, rs[1..], tail);
      }
    }

    /** Takes the dropped bytes off the big-endian length field at bytes 5 to 8. */
    method PatchLength(buf: array<Byte>)
      requires HEADER_SIZE <= buf.Length < 0x8000_0000
      requires 0 <= stripBytesSum <= Unsigned4(buf[..], 5) < 0x8000_0000
      modifies buf
      ensures buf[..] == Patched(old(buf[..]), stripBytesSum)
    {
      var recordLength := GetIntFromBytes(buf[..], 5);
      recordLength := recordLength - stripBytesSum;
      var bits := ToUnsigned(recordLength);
      ShiftsAreDigits(bits);
      buf[5] := bits / 0x100_0000;
      buf[6] := bits / 0x1_0000 % 0x100;
      buf[7] := bits / 0x100 % 0x100;
      buf[8] := bits % 0x100;
    }

    /** Writes what lies between the recorded intervals. */
    method WriteGaps(kernel: Kernel, buf: seq<Byte>) returns (totalWrite: nat)
      requires Valid() && Ordered(cuts, 0, |buf|)
      modifies kernel
      ensures kernel.Contents(hprofFd) == old(kernel.Contents(hprofFd)) + Gaps(buf, cuts, 0)
      ensures forall f :: f != hprofFd ==> kernel.Contents(f) == old(kernel.Contents(f))
      ensures totalWrite == |Gaps(buf, cuts, 0)|
    {
      totalWrite := 0;
      var startIndex: nat := 0;
      ghost var before, out := kernel.Contents(hprofFd), [];
      var i := 0;
      while i < stripIndex
        invariant 0 <= i <= |cuts| && Ordered(cuts[i..], startIndex, |buf|)
        invariant kernel.Contents(hprofFd) == before + out && totalWrite == |out|
        invariant out + Gaps(buf, cuts[i..], startIndex) == Gaps(buf, cuts, 0)
        invariant forall f :: f != hprofFd ==> kernel.Contents(f) == old(kernel.Contents(f))
      {
        OrderedBounds(cuts[i..], startIndex, |buf|);
        assert cuts[i..][0] == cuts[i] && cuts[i..][1..] == cuts[i + 1..];
        var left: nat := stripIndexListPair[i * 2];
        var writeLen: nat := left - startIndex;
        if writeLen > 0 {
          var written := FullyWrite(kernel, hprofFd, buf[startIndex..left]);
          totalWrite := totalWrite + written;
          Assoc(before, out, buf[startIndex..left]);
          Assoc(out, buf[startIndex..left], Gaps(buf, cuts[i + 1..], cuts[i].right));
          out := out + buf[startIndex..left];
        }
        startIndex := stripIndexListPair[i * 2 + 1];
        i := i + 1;
      }
      var writeLen: nat := |buf| - startIndex;
      if writeLen > 0 {
        var written := FullyWrite(kernel, hprofFd, buf[startIndex..]);
        totalWrite := totalWrite + written;
        Assoc(before, out, buf[startIndex..]);
      }
    }

    /** Scans a whole segment with an empty interval list. */
    method ScanSegment(buf: seq<Byte>, ghost rs: seq<Record>, ghost tail: seq<Byte>)
      requires Valid() && cuts == [] && stripBytesSum == 0
      requires Segment(buf, rs, tail) && Fits(rs, isCurrentSystemHeap)
      modifies this`stripIndex, this`stripBytesSum, this`cuts, this`isCurrentSystemHeap,
               this`heapSerialNum, stripIndexListPair
      ensures Valid() && heapSerialNum == old(heapSerialNum) + 1
      ensures cuts == Cuts(rs, old(isCurrentSystemHeap), HEADER_SIZE)
      ensures stripBytesSum == DroppedBytes(rs, old(isCurrentSystemHeap))
      ensures isCurrentSystemHeap == HeapAfterAll(rs, old(isCurrentSystemHeap))
    {
      var serialNo := ProcessHeap(buf, HEADER_SIZE, |buf|, heapSerialNum, 0, rs, tail);
      heapSerialNum := heapSerialNum + 1;
    }

    /** A record for the dump file. */
    method WriteRecord(kernel: Kernel, buf: array<Byte>, ghost rs: seq<Record>, ghost tail: seq<Byte>)
      requires Valid() && Acceptable(buf[..], isCurrentSystemHeap, rs, tail)
      modifies this`stripIndex, this`stripBytesSum, this`cuts, this`isCurrentSystemHeap,
               this`heapSerialNum, this`hookWriteSerialNum, stripIndexListPair, kernel, buf
      ensures Valid()
      ensures forall f :: f != hprofFd ==> kernel.Contents(f) == old(kernel.Contents(f))
      ensures kernel.Contents(hprofFd)
        == old(kernel.Contents(hprofFd)) + Emitted(old(buf[..]), old(isCurrentSystemHeap), rs, tail)
      ensures isCurrentSystemHeap == HeapAfterWrite(old(buf[..]), old(isCurrentSystemHeap), rs)
    {
      Reset();
      var tag := buf[0];
      if IsHeapTag(tag) {
        ScanSegment(buf[..], rs, tail);
        DroppedAtMost(rs, old(isCurrentSystemHeap), tail);
        PatchLength(buf);
        PatchedGaps(old(buf[..]), old(isCurrentSystemHeap), rs, tail);
      } else {
        assert buf[0..] == buf[..];
      }
      var totalWrite := WriteGaps(kernel, buf[..]);
      hookWriteSerialNum := hookWriteSerialNum + 1;
    }

    /**
     The hooked `write`.  `rs` and `tail` are the records of the buffer if it is a heap segment
     for the dump file; otherwise they do not matter.
     */
    method HookWriteInternal(kernel: Kernel, fd: int, buf: array<Byte>, ghost rs: seq<Record>, ghost tail: seq<Byte>)
      returns (result: int)
      requires Valid()
      requires fd == hprofFd ==> Acceptable(buf[..], isCurrentSystemHeap, rs, tail)
      modifies this`stripIndex, this`stripBytesSum, this`cuts, this`isCurrentSystemHeap,
               this`heapSerialNum, this`hookWriteSerialNum, stripIndexListPair, kernel, buf
      ensures Valid()
      ensures forall f :: f != fd ==> kernel.Contents(f) == old(kernel.Contents(f))
      ensures fd != hprofFd ==>
        && -1 <= result <= buf.Length && buf[..] == old(buf[..])
        && kernel.Contents(fd) == old(kernel.Contents(fd)) + buf[..if result < 0 then 0 else result]
        && isCurrentSystemHeap == old(isCurrentSystemHeap)
      ensures fd == hprofFd ==>
        && result == buf.Length
        && kernel.Contents(fd)
           == old(kernel.Contents(fd)) + Emitted(old(buf[..]), old(isCurrentSystemHeap), rs, tail)
        && isCurrentSystemHeap == HeapAfterWrite(old(buf[..]), old(isCurrentSystemHeap), rs)
      ensures fd == hprofFd ==>
        AsMeant(old(buf[..]), old(isCurrentSystemHeap), rs, tail,
                Emitted(old(buf[..]), old(isCurrentSystemHeap), rs, tail))
    {
      if fd != hprofFd {
        result := kernel.Write(fd, buf[..]);
        return;
      }
      EmittedAsMeant(buf[..], isCurrentSystemHeap, rs, tail);
      WriteRecord(kernel, buf, rs, tail);
      result := buf.Length;
    }
  }

  // ----- what one hooked write of the dump file does

  predicate IsHeapTag(tag: Byte) {
    tag == HEAP_DUMP || tag == HEAP_DUMP_SEGMENT
  }

  /** A heap record: a header whose length field counts the bytes after it, records, a tail. */
  predicate Segment(buf: seq<Byte>, rs: seq<Record>, tail: seq<Byte>) {
    && HEADER_SIZE <= |buf| < 0x8000_0000 && Unsigned4(buf, 5) == |buf| - HEADER_SIZE
    && AllValid(rs, false) && (tail == [] || !Known(tail[0]))
    && buf[HEADER_SIZE..] == EncodeAll(rs, tail)
  }

  /** What the filter relies on when the dump file is written. */
  predicate Acceptable(buf: seq<Byte>, heap: bool, rs: seq<Record>, tail: seq<Byte>) {
    |buf| > 0 && (IsHeapTag(buf[0]) ==> Segment(buf, rs, tail) && Fits(rs, heap))
  }

  /** The header with its length field reduced by the bytes that are dropped. */
  function NewHeader(buf: seq<Byte>, dropped: nat): (h: seq<Byte>)
    requires |buf| >= HEADER_SIZE && dropped <= Unsigned4(buf, 5)
    ensures |h| == HEADER_SIZE
  {
    buf[..5] + BigEndian4(Unsigned4(buf, 5) - dropped)
  }

  function Emitted(buf: seq<Byte>, heap: bool, rs: seq<Record>, tail: seq<Byte>): seq<Byte>
    requires Acceptable(buf, heap, rs, tail)
  {
    if IsHeapTag(buf[0]) then
      DroppedAtMost(rs, heap, tail);
      NewHeader(buf, DroppedBytes(rs, heap)) + EncodeAll(Stripped(rs, heap), tail)
    else buf
  }

  function HeapAfterWrite(buf: seq<Byte>, heap: bool, rs: seq<Record>): bool
    requires |buf| > 0 && (IsHeapTag(buf[0]) ==> AllValid(rs, false))
  {
    if IsHeapTag(buf[0]) then HeapAfterAll(rs, heap) else heap
  }

  lemma DroppedAtMost(rs: seq<Record>, heap: bool, tail: seq<Byte>)
    requires AllValid(rs, false)
    ensures DroppedBytes(rs, heap) <= |EncodeAll(rs, tail)|
  {
    Accounting(rs, heap, tail);
  }

  lemma PatchedGaps(buf: seq<Byte>, heap: bool, rs: seq<Record>, tail: seq<Byte>)
    requires Segment(buf, rs, tail) && Fits(rs, heap) && IsHeapTag(buf[0])
    ensures DroppedBytes(rs, heap) <= Unsigned4(buf, 5)
    ensures var p, cuts := Patched(buf, DroppedBytes(rs, heap)), Cuts(rs, heap, HEADER_SIZE);
      Ordered(cuts, 0, |p|) && Gaps(p, cuts, 0) == Emitted(buf, heap, rs, tail)
  {
    DroppedAtMost(rs, heap, tail);
    var dropped := DroppedBytes(rs, heap);
    var p := Patched(buf, dropped);
    Joined(NewHeader(buf, dropped), buf[HEADER_SIZE..]);
    GapsAreStripped(p, rs, tail, heap, HEADER_SIZE);
    EarlierStart(p, Cuts(rs, heap, HEADER_SIZE), 0, HEADER_SIZE);
    assert p[0..HEADER_SIZE] == p[..HEADER_SIZE];
  }

  /**
   What is written of a record of the dump file.  A record of another tag is written as it is.  Of a
   heap segment without announcements, roots and classes are written in a system heap; in the app heap
   everything, under its old header, but for the array contents.  Announcements divide a segment into
   such parts.  The length field counts what is written and what the array headers ask for.
   */
  ghost predicate AsMeant(buf: seq<Byte>, system: bool, rs: seq<Record>, tail: seq<Byte>, out: seq<Byte>)
    requires Acceptable(buf, system, rs, tail)
  {
    if buf[0] != 0x0C && buf[0] != 0x1C then out == buf
    else
      var kept := Stripped(rs, system);
      && |buf| >= 9 && |out| >= 9 && out[..5] == buf[..5] && out[9..] == EncodeAll(kept, tail)
      && KeptByKind(rs, system, kept)
      && Unsigned4(out, 5) == |out| - 9 + MissingBytes(kept)
      && (NoInfo(rs) && !system ==> out[5..9] == buf[5..9])
  }

  lemma {:induction false} NothingDropped(rs: seq<Record>)
    requires AllValid(rs, false) && NoInfo(rs)
    ensures DroppedBytes(rs, false) == 0
  {
    if rs != [] {
      NothingDropped(rs[1..]);
    }
  }

  lemma HeaderParts(buf: seq<Byte>, dropped: nat)
    requires |buf| >= 9 && dropped <= Unsigned4(buf, 5)
    ensures NewHeader(buf, dropped)[..5] == buf[..5]
    ensures dropped == 0 ==> NewHeader(buf, dropped)[5..] == buf[5..9]
  {
    BigEndian4Inverts(buf, 5);
  }

  lemma EmittedLength(buf: seq<Byte>, heap: bool, rs: seq<Record>, tail: seq<Byte>)
    requires Segment(buf, rs, tail) && Fits(rs, heap) && IsHeapTag(buf[0])
    ensures var out := Emitted(buf, heap, rs, tail);
      && |out| >= 9 && out[..5] == buf[..5] && out[9..] == EncodeAll(Stripped(rs, heap), tail)
      && Unsigned4(out, 5) == |out| - 9 + DataBytes(Survivors(rs, heap))
      && (DroppedBytes(rs, heap) == 0 ==> out[5..9] == buf[5..9])
  {
    var dropped, body := DroppedBytes(rs, heap), EncodeAll(Stripped(rs, heap), tail);
    DroppedAtMost(rs, heap, tail);
    Accounting(rs, heap, tail);
    HeaderParts(buf, dropped);
    var header := NewHeader(buf, dropped);
    HeaderLength(buf, dropped, body);
    FrontOfSum(header, body);
  }

  lemma FrontOfSum(header: seq<Byte>, body: seq<Byte>)
    requires |header| == 9
    ensures (header + body)[..5] == header[..5] && (header + body)[5..9] == header[5..]
    ensures (header + body)[9..] == body
  {
  }

  lemma EmittedAsMeant(buf: seq<Byte>, heap: bool, rs: seq<Record>, tail: seq<Byte>)
    requires Acceptable(buf, heap, rs, tail)
    ensures AsMeant(buf, heap, rs, tail, Emitted(buf, heap, rs, tail))
  {
    if IsHeapTag(buf[0]) {
      EmittedLength(buf, heap, rs, tail);
      StrippedByKind(rs, heap);
      MissingIsRemoved(Survivors(rs, heap));
      if NoInfo(rs) && !heap {
        NothingDropped(rs);
      }
    }
  }

  /**
   The segment that reaches the file is a well-formed segment once its arrays are refilled: the
   reduced length field counts exactly the refilled body, which holds the surviving records of
   the original with zeroed array contents.
   */
  lemma RefilledSegment(buf: seq<Byte>, heap: bool, rs: seq<Record>, tail: seq<Byte>)
    requires Segment(buf, rs, tail) && Fits(rs, heap) && IsHeapTag(buf[0])
    ensures var out, zeroed := Emitted(buf, heap, rs, tail), AllZeroed(Survivors(rs, heap));
      && |out| >= HEADER_SIZE && out[..5] == buf[..5]
      && Refill(out[HEADER_SIZE..]) == Some(EncodeAll(zeroed, tail))
      && Segment(out[..HEADER_SIZE] + EncodeAll(zeroed, tail), zeroed, tail)
  {
    var dropped, zeroed := DroppedBytes(rs, heap), AllZeroed(Survivors(rs, heap));
    DroppedAtMost(rs, heap, tail);
    RefillRestores(rs, heap, tail);
    var header := NewHeader(buf, dropped);
    Joined(header, EncodeAll(Stripped(rs, heap), tail));
    Joined(header, EncodeAll(zeroed, tail));
    HeaderLength(buf, dropped, EncodeAll(zeroed, tail));
    assert Emitted(buf, heap, rs, tail)[..5] == header[..5] == buf[..5];
  }

  lemma HeaderLength(buf: seq<Byte>, dropped: nat, body: seq<Byte>)
    requires |buf| >= HEADER_SIZE && dropped <= Unsigned4(buf, 5)
    ensures Unsigned4(NewHeader(buf, dropped) + body, 5) == Unsigned4(buf, 5) - dropped
  {
    var n := Unsigned4(buf, 5) - dropped;
    assert (NewHeader(buf, dropped) + body)[5..9] == BigEndian4(n);
    Unsigned4Inverts(NewHeader(buf, dropped) + body, 5, n);
  }

  /** Whether a buffer is a segment can be found out by reading it, and it is one in one way only. */
  lemma SegmentIsReadable(buf: seq<Byte>, rs: seq<Record>, tail: seq<Byte>)
    ensures Segment(buf, rs, tail) <==>
      && HEADER_SIZE <= |buf| < 0x8000_0000 && Unsigned4(buf, 5) == |buf| - HEADER_SIZE
      && Parse(buf[HEADER_SIZE..], false) == Parsed(rs, tail)
  {
    if Segment(buf, rs, tail) {
      ParseInverts(rs, false, tail);
    } else if HEADER_SIZE <= |buf| && Parse(buf[HEADER_SIZE..], false) == Parsed(rs, tail) {
      ParseSound(buf[HEADER_SIZE..], false);
    }
  }
}
