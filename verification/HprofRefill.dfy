/**
 Why the stripped file stays usable: its length field counts exactly the bytes that are there
 once the contents of the surviving primitive arrays are filled in again, and the places to fill
 can be found by reading the file.
 */
module HprofRefill {
  import opened Wrappers
  import opened Bytes
  import opened HprofFormat
  import opened HprofStripping

  // ----- length accounting

  lemma {:induction false} Accounting(rs: seq<Record>, heap: bool, tail: seq<Byte>)
    requires AllValid(rs, false)
    ensures |EncodeAll(Stripped(rs, heap), tail)| + DataBytes(Survivors(rs, heap))
            + DroppedBytes(rs, heap)
      == |EncodeAll(rs, tail)|
    decreases |rs|
  {
    if rs != [] {
      var heap' := HeapAfter(rs[0], heap);
      var more := Survivors(rs[1..], heap');
      Accounting(rs[1..], heap', tail);
      StrippedCons(rs, heap, tail);
      if !Drops(rs[0], heap) {
        assert ([rs[0]] + more)[1..] == more;
        HeaderSize(rs[0]);
      }
    }
  }

  lemma HeaderSize(r: Record)
    requires Valid(r, false)
    ensures |Encode(r)|
      == |Encode(WithoutData(r))| + if r.PrimitiveArrayDump? then |r.data| else 0
  {
  }

  // ----- refilling

  function Zeros(n: nat): (s: seq<Byte>)
    ensures |s| == n && forall i :: 0 <= i < n ==> s[i] == 0
  {
    seq(n, _ => 0)
  }

  /** A dataless record with the contents its type and length ask for, all zero. */
  function Filled(k: Record): (r: Record)
    requires Valid(k, true)
    ensures Valid(r, false)
  {
    if k.PrimitiveArrayDump?
    then PrimitiveArrayDump(k.head, k.length, k.ty, Zeros(ArraySize(k.ty, k.length)))
    else k
  }

  function AllFilled(ks: seq<Record>): (rs: seq<Record>)
    requires AllValid(ks, true)
    ensures AllValid(rs, false)
  {
    if ks == [] then [] else [Filled(ks[0])] + AllFilled(ks[1..])
  }

  /** Reads a stripped segment body and puts zeros where array contents were removed. */
  function Refill(b: seq<Byte>): Option<seq<Byte>> {
    match Parse(b, true)
    case Overrun => None
    case Parsed(ks, tail) =>
      ParseSound(b, true);
      Some(EncodeAll(AllFilled(ks), tail))
  }

  /** A record of the original segment with its array contents, if any, zeroed. */
  function Zeroed(r: Record): (z: Record)
    requires Valid(r, false)
    ensures Valid(z, false)
  {
    if r.PrimitiveArrayDump? then PrimitiveArrayDump(r.head, r.length, r.ty, Zeros(|r.data|)) else r
  }

  function AllZeroed(rs: seq<Record>): (zs: seq<Record>)
    requires AllValid(rs, false)
    ensures AllValid(zs, false)
  {
    if rs == [] then [] else [Zeroed(rs[0])] + AllZeroed(rs[1..])
  }

  lemma {:induction false} FilledIsZeroed(rs: seq<Record>)
    requires AllValid(rs, false)
    ensures AllFilled(AllWithoutData(rs)) == AllZeroed(rs)
  {
    if rs != [] {
      var more := AllWithoutData(rs[1..]);
      assert AllWithoutData(rs)[0] == WithoutData(rs[0]) && AllWithoutData(rs)[1..] == more;
      FilledIsZeroed(rs[1..]);
    }
  }

  lemma {:induction false} ZeroedSize(rs: seq<Record>, tail: seq<Byte>)
    requires AllValid(rs, false)
    ensures |EncodeAll(AllZeroed(rs), tail)| == |EncodeAll(AllWithoutData(rs), tail)| + DataBytes(rs)
  {
    if rs != [] {
      ZeroedSize(rs[1..], tail);
      assert AllZeroed(rs)[1..] == AllZeroed(rs[1..]);
      assert AllWithoutData(rs)[1..] == AllWithoutData(rs[1..]);
      ZeroedRecordSize(rs[0]);
    }
  }

  lemma ZeroedRecordSize(r: Record)
    requires Valid(r, false)
    ensures |Encode(Zeroed(r))|
      == |Encode(WithoutData(r))| + if r.PrimitiveArrayDump? then |r.data| else 0
  {
  }

  /** A stripped body is read back as the records that were written, in one way only. */
  lemma StrippedIsReadable(rs: seq<Record>, heap: bool, tail: seq<Byte>)
    requires AllValid(rs, false) && (tail == [] || !Known(tail[0]))
    ensures Parse(EncodeAll(Stripped(rs, heap), tail), true) == Parsed(Stripped(rs, heap), tail)
  {
    ParseInverts(Stripped(rs, heap), true, tail);
  }

  /**
   Refilling gives the original segment without the dropped system-heap records and with the
   contents of the other primitive arrays zeroed; it is shorter by exactly the dropped bytes.
   */
  lemma RefillRestores(rs: seq<Record>, heap: bool, tail: seq<Byte>)
    requires AllValid(rs, false) && (tail == [] || !Known(tail[0]))
    ensures Refill(EncodeAll(Stripped(rs, heap), tail))
      == Some(EncodeAll(AllZeroed(Survivors(rs, heap)), tail))
    ensures |EncodeAll(AllZeroed(Survivors(rs, heap)), tail)|
      == |EncodeAll(rs, tail)| - DroppedBytes(rs, heap)
  {
    StrippedIsReadable(rs, heap, tail);
    FilledIsZeroed(Survivors(rs, heap));
    ZeroedSize(Survivors(rs, heap), tail);
    Accounting(rs, heap, tail);
  }
}
