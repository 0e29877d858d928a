/** Where the fields of a printed record lie in a buffer that contains it at position `at`. */
module HprofFields {
  import opened Bytes
  import opened HprofFormat

  /** `r` is printed in `buf` from `at` on, followed by `more`. */
  predicate PrintedAt(buf: seq<Byte>, at: nat, r: Record, more: seq<Byte>) {
    at <= |buf| && Valid(r, false) && buf[at..] == Encode(r) + more
  }

  lemma ShiftedIndex(buf: seq<Byte>, at: nat, b: seq<Byte>, i: nat)
    requires at <= |buf| && buf[at..] == b && i < |b|
    ensures at + i < |buf| && buf[at + i] == b[i]
  {
    assert buf[at..][i] == b[i];
  }

  lemma Shifted4(buf: seq<Byte>, at: nat, b: seq<Byte>, i: nat)
    requires at <= |buf| && buf[at..] == b && i + 4 <= |b|
    ensures at + i + 4 <= |buf| && Unsigned4(buf, at + i) == Unsigned4(b, i)
  {
    ShiftedIndex(buf, at, b, i);
    ShiftedIndex(buf, at, b, i + 1);
    ShiftedIndex(buf, at, b, i + 2);
    ShiftedIndex(buf, at, b, i + 3);
  }

  lemma Shifted2(buf: seq<Byte>, at: nat, b: seq<Byte>, i: nat)
    requires at <= |buf| && buf[at..] == b && i + 2 <= |b|
    ensures at + i + 2 <= |buf| && Unsigned2(buf, at + i) == Unsigned2(b, i)
  {
    ShiftedIndex(buf, at, b, i);
    ShiftedIndex(buf, at, b, i + 1);
  }

  lemma TagAt(buf: seq<Byte>, at: nat, r: Record, more: seq<Byte>)
    requires PrintedAt(buf, at, r, more)
    ensures at + |Encode(r)| + |more| == |buf| && at < |buf| && buf[at] == TagOf(r)
    ensures PlainSize(buf[at]) != -1 <==> r.Plain?
  {
    FirstByte(r, false, more);
    ShiftedIndex(buf, at, Encode(r) + more, 0);
  }

  lemma InstanceDumpAt(buf: seq<Byte>, at: nat, r: Record, more: seq<Byte>)
    requires PrintedAt(buf, at, r, more) && r.InstanceDump?
    ensures at + 17 <= |buf| && Unsigned4(buf, at + 13) == |r.data| && |Encode(r)| == 17 + |r.data|
  {
    Pieces([INSTANCE_DUMP], r.head, BigEndian4(|r.data|), r.data, more);
    Unsigned4Inverts(Encode(r) + more, 13, |r.data|);
    Shifted4(buf, at, Encode(r) + more, 13);
  }

  lemma ObjectArrayDumpAt(buf: seq<Byte>, at: nat, r: Record, more: seq<Byte>)
    requires PrintedAt(buf, at, r, more) && r.ObjectArrayDump?
    ensures at + 13 <= |buf| && Unsigned4(buf, at + 9) == r.length && |Encode(r)| == 17 + 4 * r.length
  {
    Pieces([OBJECT_ARRAY_DUMP] + r.head, BigEndian4(r.length), r.classId, r.elements, more);
    Unsigned4Inverts(Encode(r) + more, 9, r.length);
    Shifted4(buf, at, Encode(r) + more, 9);
  }

  lemma PrimitiveArrayDumpAt(buf: seq<Byte>, at: nat, r: Record, more: seq<Byte>)
    requires PrintedAt(buf, at, r, more) && r.PrimitiveArrayDump?
    ensures at + 14 <= |buf| && Unsigned4(buf, at + 9) == r.length && buf[at + 13] == r.ty
    ensures |Encode(r)| == 14 + ArraySize(r.ty, r.length)
  {
    var b := Encode(r) + more;
    Pieces([PRIMITIVE_ARRAY_DUMP] + r.head, BigEndian4(r.length), [r.ty], r.data, more);
    Unsigned4Inverts(b, 9, r.length);
    Shifted4(buf, at, b, 9);
    assert b[13] == b[13..14][0];
    ShiftedIndex(buf, at, b, 13);
  }

  lemma HeapDumpInfoAt(buf: seq<Byte>, at: nat, r: Record, more: seq<Byte>)
    requires PrintedAt(buf, at, r, more) && r.HeapDumpInfo?
    ensures at + 9 <= |buf| && buf[at + 4] == r.heapType[3] && |Encode(r)| == 9
  {
    ShiftedIndex(buf, at, Encode(r) + more, 4);
  }

  // ----- class dumps

  /** The table `es` without its count, then `more`, is printed in `buf` from `at` on. */
  predicate EntriesAt(buf: seq<Byte>, at: nat, es: seq<Entry>, idSize: nat, more: seq<Byte>) {
    at <= |buf| && AllEntries(es, idSize) && buf[at..] == EncodeEntries(es) + more
  }

  lemma EntryAt(buf: seq<Byte>, at: nat, es: seq<Entry>, idSize: nat, more: seq<Byte>)
    requires EntriesAt(buf, at, es, idSize, more) && es != []
    ensures at + idSize < |buf|
    ensures EntriesAt(buf, at + idSize + 1 + SizeOf(buf[at + idSize]), es[1..], idSize, more)
  {
    var e := es[0];
    var b := EncodeEntry(e) + (EncodeEntries(es[1..]) + more);
    Assoc(EncodeEntry(e), EncodeEntries(es[1..]), more);
    EntryPieces(e, idSize, EncodeEntries(es[1..]) + more);
    ShiftedIndex(buf, at, b, idSize);
    assert buf[at + |EncodeEntry(e)|..] == b[|EncodeEntry(e)|..];
  }

  lemma TableAt(buf: seq<Byte>, at: nat, es: seq<Entry>, idSize: nat, more: seq<Byte>)
    requires at <= |buf| && ValidTable(es, idSize) && buf[at..] == EncodeTable(es) + more
    ensures at + 2 <= |buf| && Unsigned2(buf, at) == |es| && EntriesAt(buf, at + 2, es, idSize, more)
  {
    var count, rest := BigEndian2(|es|), EncodeEntries(es) + more;
    Assoc(count, EncodeEntries(es), more);
    Joined(count, rest);
    assert (count + rest)[0..2] == count;
    Unsigned2Inverts(count + rest, 0, |es|);
    Shifted2(buf, at, count + rest, 0);
    assert buf[at + 2..] == buf[at..][2..];
  }

  /** The three variable-length tables of a class dump start one after the other. */
  lemma ClassDumpAt(buf: seq<Byte>, at: nat, r: Record, more: seq<Byte>)
    requires PrintedAt(buf, at, r, more) && r.ClassDump?
    ensures var fields := EncodeFields(r.fieldCount, r.fields) + more;
      at + 37 <= |buf|
      && buf[at + 37..] == EncodeTable(r.constants) + (EncodeTable(r.statics) + fields)
  {
    var fields := EncodeFields(r.fieldCount, r.fields);
    var head := [CLASS_DUMP] + r.head;
    Assoc4(head, EncodeTable(r.constants), EncodeTable(r.statics), fields, more);
    Joined(head, EncodeTable(r.constants) + (EncodeTable(r.statics) + (fields + more)));
    assert buf[at + 37..] == buf[at..][37..];
  }

  lemma FieldsAt(buf: seq<Byte>, at: nat, n: nat, fields: seq<Byte>, more: seq<Byte>)
    requires n < 0x1_0000 && |fields| == 5 * n
    requires at <= |buf| && buf[at..] == EncodeFields(n, fields) + more
    ensures at + 2 <= |buf| && Unsigned2(buf, at) == n && at + 2 + 5 * n + |more| == |buf|
  {
    var b := EncodeFields(n, fields) + more;
    assert b[0..2] == BigEndian2(n);
    Unsigned2Inverts(b, 0, n);
    Shifted2(buf, at, b, 0);
  }
}
