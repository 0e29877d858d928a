/** How many intervals a segment can produce, against the fixed list the filter keeps them in. */
module HprofCapacity {
  import opened Bytes
  import opened HprofFormat
  import opened HprofStripping

  /** The number of ints in the interval list. */
  const STRIP_LIST_LENGTH := 65536 * 2 * 2 + 2

  const HEADER_SIZE := 9

  /** The intervals of a segment with the records `rs` fit into the list. */
  predicate Fits(rs: seq<Record>, heap: bool)
    requires AllValid(rs, false)
  {
    2 * |Cuts(rs, heap, HEADER_SIZE)| <= STRIP_LIST_LENGTH
  }

  /** A segment of `count` bytes: a header of 9 bytes, records, and what follows an unknown tag. */
  predicate SegmentOf(count: nat, rs: seq<Record>, tail: seq<Byte>) {
    AllValid(rs, false) && (tail == [] || !Known(tail[0]))
    && count == HEADER_SIZE + |EncodeAll(rs, tail)|
  }

  /** Every record that leaves an interval takes at least nine bytes of the segment. */
  lemma {:induction false} NineBytesEach(rs: seq<Record>, heap: bool, at: int, tail: seq<Byte>)
    requires AllValid(rs, false)
    ensures 9 * |Cuts(rs, heap, at)| + |tail| <= |EncodeAll(rs, tail)|
  {
    if rs != [] {
      NineBytesEach(rs[1..], HeapAfter(rs[0], heap), at + |Encode(rs[0])|, tail);
      CutRecordSize(rs[0], heap, at);
    }
  }

  lemma CutRecordSize(r: Record, heap: bool, at: int)
    requires Valid(r, false)
    ensures CutOf(r, heap, at).Some? ==> |Encode(r)| >= 9
  {
  }

  // A segment that produces as many intervals as its size allows: records that announce the
  // zygote heap, followed by padding under an unknown tag.

  const ZYGOTE_INFO := HeapDumpInfo([0, 0, 0, HEAP_ZYGOTE], [0, 0, 0, 0])

  function Announcements(n: nat): (rs: seq<Record>)
    ensures AllValid(rs, false) && |rs| == n
  {
    seq(n, _ => ZYGOTE_INFO)
  }

  lemma {:induction false} AnnouncementsCut(n: nat, heap: bool, at: int, tail: seq<Byte>)
    ensures |Cuts(Announcements(n), heap, at)| == n
    ensures |EncodeAll(Announcements(n), tail)| == 9 * n + |tail|
  {
    if n > 0 {
      assert Announcements(n)[1..] == Announcements(n - 1);
      AnnouncementsCut(n - 1, true, at + 9, tail);
    }
  }

  function Padding(n: nat): (s: seq<Byte>)
    ensures |s| == n && (s == [] || !Known(s[0]))
  {
    seq(n, _ => 0)
  }

  lemma OverflowingSegment(count: nat) returns (rs: seq<Record>, tail: seq<Byte>)
    requires count >= 1179675
    ensures SegmentOf(count, rs, tail) && !Fits(rs, false)
  {
    rs, tail := Announcements(131074), Padding(count - 1179675);
    AnnouncementsCut(131074, false, HEADER_SIZE, tail);
  }

  lemma FitsBelow(count: nat, rs: seq<Record>, tail: seq<Byte>, heap: bool)
    requires count < 1179675 && SegmentOf(count, rs, tail)
    ensures Fits(rs, heap)
  {
    NineBytesEach(rs, heap, HEADER_SIZE, tail);
  }

  /** The list is long enough for every segment of a given size exactly below 1179675 bytes. */
  lemma CapacityIsExact(count: nat)
    ensures count < 1179675 <==>
      forall rs, tail, heap :: SegmentOf(count, rs, tail) ==> Fits(rs, heap)
  {
    if count < 1179675 {
      forall rs, tail, heap | SegmentOf(count, rs, tail)
        ensures Fits(rs, heap)
      {
        FitsBelow(count, rs, tail, heap);
      }
    } else {
      var rs, tail := OverflowingSegment(count);
    }
  }
}
