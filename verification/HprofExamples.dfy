/** Segments, byte for byte, and what is written of them. */
module HprofExamples {
  import opened Bytes
  import opened HprofFormat
  import opened HprofStripping
  import opened HprofCapacity
  import opened HprofMeaning
  import opened HprofStrip

  const ZEROS_8: seq<Byte> := [0, 0, 0, 0, 0, 0, 0, 0]
  const ZEROS_36: seq<Byte> := seq(36, _ => 0)

  /** A class dump of the zygote heap without fields: its announcement vanishes, the class dump stays. */
  lemma ZygoteClassDump()
    ensures var rs := [HeapDumpInfo([0, 0, 0, 90], [0, 0, 0, 1]), ClassDump(ZEROS_36, [], [], 0, [])];
      var buf := [0x1C, 0, 0, 0, 0, 0, 0, 0, 52]
        + ([0xFE, 0, 0, 0, 90, 0, 0, 0, 1] + ([0x20] + ZEROS_36 + [0, 0, 0, 0, 0, 0]));
      && Acceptable(buf, false, rs, [])
      && Emitted(buf, false, rs, []) == [0x1C, 0, 0, 0, 0, 0, 0, 0, 43] + ([0x20] + ZEROS_36 + [0, 0, 0, 0, 0, 0])
      && HeapAfterWrite(buf, false, rs)
  {
    var info, class_ := HeapDumpInfo([0, 0, 0, 90], [0, 0, 0, 1]), ClassDump(ZEROS_36, [], [], 0, []);
    var rs := [info, class_];
    var body := [0x20] + ZEROS_36 + [0, 0, 0, 0, 0, 0];
    var buf := [0x1C, 0, 0, 0, 0, 0, 0, 0, 52] + ([0xFE, 0, 0, 0, 90, 0, 0, 0, 1] + body);
    assert Encode(info) == [0xFE, 0, 0, 0, 90, 0, 0, 0, 1];
    assert Encode(class_) == body;
    assert EncodeAll([class_], []) == body;
    assert rs[1..] == [class_];
    assert buf[9..] == EncodeAll(rs, []);
    SystemHeapStripped([class_]);
    assert RootsAndClasses([class_]) == [class_];
    assert rs == [info] + [class_];
    AnnouncementStripped(info, [class_], false);
    assert DroppedBytes([class_], true) == 0;
    assert DroppedBytes(rs, false) == 9;
    FitsBelow(61, rs, [], false);
    assert buf[..5] == [0x1C, 0, 0, 0, 0];
  }

  const ARRAY := PrimitiveArrayDump(ZEROS_8, 2, 9, [1, 2, 3, 4])
  const HEADER := PrimitiveArrayDump(ZEROS_8, 2, 9, [])
  const HEADER_BYTES: seq<Byte> := [0x23] + ZEROS_8 + [0, 0, 0, 2] + [9]

  lemma ArrayBytes()
    ensures Valid(ARRAY, false) && Valid(HEADER, true)
    ensures Encode(ARRAY) == HEADER_BYTES + [1, 2, 3, 4] && Encode(HEADER) == HEADER_BYTES
  {
    assert BigEndian4(2) == [0, 0, 0, 2];
  }

  lemma OneRecord(r: Record, dataless: bool)
    requires Valid(r, dataless)
    ensures EncodeAll([r], []) == Encode(r)
  {
    assert [r][1..] == [];
  }

  /** Two shorts of the app heap: the header stays under the old length, the four bytes vanish. */
  lemma AppShortArray(buf: seq<Byte>)
    requires buf == [0x0C, 0, 0, 0, 0, 0, 0, 0, 18] + (HEADER_BYTES + [1, 2, 3, 4])
    ensures Acceptable(buf, false, [ARRAY], [])
    ensures Emitted(buf, false, [ARRAY], []) == [0x0C, 0, 0, 0, 0, 0, 0, 0, 18] + HEADER_BYTES
  {
    ArrayBytes();
    OneRecord(ARRAY, false);
    OneRecord(HEADER, true);
    assert buf[9..] == HEADER_BYTES + [1, 2, 3, 4];
    FitsBelow(27, [ARRAY], [], false);
    AppHeapStripped([ARRAY]);
    assert HeadersOnly([ARRAY]) == [HEADER];
    NothingDropped([ARRAY]);
    HeaderParts(buf, 0);
    assert NewHeader(buf, 0) == buf[..5] + buf[5..9] == buf[..9];
  }
}
