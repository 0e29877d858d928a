/**
 The layout of the sub-records in numbers, and what stripping means kind by kind, in the words of
 the file format rather than of the definitions that the filter is proved against.
 */
module HprofMeaning {
  import opened Bytes
  import opened HprofFormat
  import opened HprofStripping

  // ----- the layout

  lemma BigEndianWeights(s: seq<Byte>, i: nat)
    requires i + 4 <= |s|
    ensures Unsigned2(s, i) == 256 * s[i] as int + s[i + 1]
    ensures Unsigned4(s, i) == 16777216 * s[i] as int + 65536 * s[i + 1] as int + 256 * s[i + 2] as int + s[i + 3]
  {
  }

  /** The bytes behind the tag: identifiers, serial numbers and frame numbers of four bytes each. */
  lemma RootSizes(tag: Byte)
    ensures PlainSize(tag) ==
      if tag in {0xFF, 0x05, 0x07, 0x89, 0x8B, 0x8D} then 4
      else if tag in {0x01, 0x04, 0x06} then 8
      else if tag in {0x02, 0x03, 0x08, 0x8E} then 12
      else if tag in {0x8A, 0x8C, 0x90, 0xC3} then 0
      else -1
    ensures Known(tag) <==> PlainSize(tag) != -1 || tag in {0x20, 0x21, 0x22, 0x23, 0xFE}
  {
  }

  /** The bytes of a table behind its count. */
  function TableBytes(es: seq<Entry>): nat {
    if es == [] then 0 else |es[0].id| + 1 + |es[0].value| + TableBytes(es[1..])
  }

  lemma {:induction false} EntriesSize(es: seq<Entry>)
    ensures |EncodeEntries(es)| == TableBytes(es)
  {
    if es != [] {
      EntriesSize(es[1..]);
    }
  }

  /** An entry has an index of two bytes or a name of four, a type, and a value of the type's size. */
  lemma EntryParts(r: Record, e: Entry)
    requires Valid(r, false) && r.ClassDump? && (e in r.constants || e in r.statics)
    ensures |e.id| == 2 || |e.id| == 4
    ensures e in r.constants ==> |e.id| == 2
    ensures e in r.statics ==> |e.id| == 4
    ensures |e.value| == if e.ty == 2 then 4 else if e.ty == 4 || e.ty == 8 then 1
      else if e.ty == 5 || e.ty == 9 then 2 else if e.ty == 6 || e.ty == 10 then 4
      else if e.ty == 7 || e.ty == 11 then 8 else 0
  {
  }

  lemma ClassDumpLayout(r: Record)
    requires Valid(r, false) && r.ClassDump?
    ensures var b := Encode(r);
      && |b| == 43 + TableBytes(r.constants) + TableBytes(r.statics) + 5 * r.fieldCount
      && b[0] == 0x20 && b[1..37] == r.head && Unsigned2(b, 37) == |r.constants|
  {
    EntriesSize(r.constants);
    EntriesSize(r.statics);
    var head, rest := [CLASS_DUMP] + r.head, EncodeEntries(r.constants)
      + (EncodeTable(r.statics) + EncodeFields(r.fieldCount, r.fields));
    var b := Encode(r);
    assert b == head + (BigEndian2(|r.constants|) + rest);
    Joined(head, BigEndian2(|r.constants|) + rest);
    assert b[1..37] == head[1..];
    assert b[37..39] == BigEndian2(|r.constants|);
    Unsigned2Inverts(b, 37, |r.constants|);
  }

  lemma InstanceDumpLayout(r: Record)
    requires Valid(r, false) && r.InstanceDump?
    ensures var b := Encode(r);
      && |b| == 17 + |r.data| && b[0] == 0x21 && b[1..13] == r.head
      && Unsigned4(b, 13) == |r.data| && b[17..] == r.data
  {
    Pieces([INSTANCE_DUMP], r.head, BigEndian4(|r.data|), r.data, []);
    assert Encode(r) + [] == Encode(r);
    Unsigned4Inverts(Encode(r), 13, |r.data|);
  }

  lemma ObjectArrayDumpLayout(r: Record)
    requires Valid(r, false) && r.ObjectArrayDump?
    ensures var b := Encode(r);
      && |b| == 17 + 4 * r.length && b[0] == 0x22 && b[1..9] == r.head
      && Unsigned4(b, 9) == r.length && b[13..17] == r.classId && b[17..] == r.elements
  {
    var head := [OBJECT_ARRAY_DUMP] + r.head;
    Pieces(head, BigEndian4(r.length), r.classId, r.elements, []);
    assert Encode(r) + [] == Encode(r);
    assert Encode(r)[1..9] == Encode(r)[..9][1..];
    Unsigned4Inverts(Encode(r), 9, r.length);
  }

  lemma PrimitiveArrayDumpLayout(r: Record)
    requires Valid(r, false) && r.PrimitiveArrayDump?
    ensures var b := Encode(r);
      && b[0] == 0x23 && |b| == 14 + SizeOf(r.ty) * r.length && b[1..9] == r.head
      && Unsigned4(b, 9) == r.length && b[13] == r.ty && b[14..] == r.data
  {
    var head := [PRIMITIVE_ARRAY_DUMP] + r.head;
    Pieces(head, BigEndian4(r.length), [r.ty], r.data, []);
    assert Encode(r) + [] == Encode(r);
    assert Encode(r)[1..9] == Encode(r)[..9][1..];
    assert Encode(r)[13] == Encode(r)[13..14][0];
    Unsigned4Inverts(Encode(r), 9, r.length);
  }

  lemma OtherLayouts(r: Record)
    requires Valid(r, false)
    ensures r.Plain? ==> Encode(r) == [r.tag] + r.payload && |r.payload| == PlainSize(r.tag)
    ensures r.HeapDumpInfo? ==>
      var b := Encode(r); |b| == 9 && b[0] == 0xFE && b[1..5] == r.heapType && b[5..] == r.nameId
  {
    if r.HeapDumpInfo? {
      var b := Encode(r);
      assert b[1..5] == r.heapType && b[5..] == r.nameId;
    }
  }

  // ----- what vanishes, what is cut, what stays

  predicate NoInfo(rs: seq<Record>) {
    forall i :: 0 <= i < |rs| ==> !rs[i].HeapDumpInfo?
  }

  /** The records of a system heap that stay. */
  function RootsAndClasses(rs: seq<Record>): (ks: seq<Record>)
    ensures AllValid(rs, false) ==> AllValid(ks, false) && AllValid(ks, true)
  {
    if rs == [] then []
    else if rs[0].Plain? || rs[0].ClassDump? then [rs[0]] + RootsAndClasses(rs[1..])
    else RootsAndClasses(rs[1..])
  }

  /** The records of the app heap, where primitive arrays keep identifier, serial number, length and type. */
  function HeadersOnly(rs: seq<Record>): (ks: seq<Record>)
    ensures |ks| == |rs|
    ensures AllValid(rs, false) ==> AllValid(ks, true)
  {
    seq(|rs|, i requires 0 <= i < |rs| =>
      match rs[i]
      case PrimitiveArrayDump(head, length, ty, data) => PrimitiveArrayDump(head, length, ty, [])
      case _ => rs[i])
  }

  /** In a system heap exactly roots and classes stay, as they are and in their order. */
  lemma {:induction false} SystemHeapStripped(rs: seq<Record>)
    requires AllValid(rs, false) && NoInfo(rs)
    ensures Stripped(rs, true) == RootsAndClasses(rs) && HeapAfterAll(rs, true)
  {
    if rs != [] {
      SystemHeapStripped(rs[1..]);
      StrippedStep(rs, true);
    }
  }

  /** In the app heap every record stays, and only primitive arrays change. */
  lemma {:induction false} AppHeapStripped(rs: seq<Record>)
    requires AllValid(rs, false) && NoInfo(rs)
    ensures Stripped(rs, false) == HeadersOnly(rs) && !HeapAfterAll(rs, false)
  {
    if rs != [] {
      AppHeapStripped(rs[1..]);
      StrippedStep(rs, false);
      HeadersOnlyFirst(rs);
    }
  }

  lemma HeadersOnlyFirst(rs: seq<Record>)
    requires AllValid(rs, false) && rs != []
    ensures HeadersOnly(rs) == [WithoutData(rs[0])] + HeadersOnly(rs[1..])
  {
    assert HeadersOnly(rs)[0] == WithoutData(rs[0]);
  }

  lemma StrippedStep(rs: seq<Record>, heap: bool)
    requires AllValid(rs, false) && rs != []
    ensures var more := Stripped(rs[1..], HeapAfter(rs[0], heap));
      Stripped(rs, heap) == if Drops(rs[0], heap) then more else [WithoutData(rs[0])] + more
  {
    var more := Survivors(rs[1..], HeapAfter(rs[0], heap));
    if !Drops(rs[0], heap) {
      assert ([rs[0]] + more)[1..] == more;
    }
  }

  /** The heap announced by `r` is the zygote's or the boot image's. */
  predicate AnnouncesSystem(r: Record)
    requires r.HeapDumpInfo? && Valid(r, false)
  {
    r.heapType[3] as char == 'Z' || r.heapType[3] as char == 'I'
  }

  /** An announcement of a system heap vanishes and one of another heap stays; what follows is in that heap. */
  lemma AnnouncementStripped(r: Record, rs: seq<Record>, heap: bool)
    requires Valid(r, false) && r.HeapDumpInfo? && AllValid(rs, false)
    ensures AllValid([r] + rs, false)
    ensures Stripped([r] + rs, heap)
      == if AnnouncesSystem(r) then Stripped(rs, true) else [r] + Stripped(rs, false)
    ensures HeapAfterAll([r] + rs, heap) == HeapAfterAll(rs, AnnouncesSystem(r))
  {
    assert ([r] + rs)[1..] == rs;
    StrippedStep([r] + rs, heap);
  }

  lemma {:induction false} StrippedInParts(a: seq<Record>, b: seq<Record>, heap: bool)
    requires AllValid(a, false) && AllValid(b, false)
    ensures AllValid(a + b, false)
    ensures Stripped(a + b, heap) == Stripped(a, heap) + Stripped(b, HeapAfterAll(a, heap))
    decreases |a|
  {
    if a == [] {
      assert a + b == b;
    } else {
      assert (a + b)[1..] == a[1..] + b;
      StrippedInParts(a[1..], b, HeapAfter(a[0], heap));
      StrippedStep(a, heap);
      StrippedStep(a + b, heap);
      Assoc([WithoutData(a[0])], Stripped(a[1..], HeapAfter(a[0], heap)), Stripped(b, HeapAfterAll(a, heap)));
    }
  }

  /**
   Any list of records, taken apart at its first announcement: what comes before is treated by the
   heap that went before, what comes after by the one announced.
   */
  lemma StrippedAtAnnouncement(rs: seq<Record>, i: nat, heap: bool)
    requires AllValid(rs, false) && i < |rs| && rs[i].HeapDumpInfo? && NoInfo(rs[..i])
    ensures Stripped(rs, heap)
      == (if heap then RootsAndClasses(rs[..i]) else HeadersOnly(rs[..i]))
         + if AnnouncesSystem(rs[i]) then Stripped(rs[i + 1..], true) else [rs[i]] + Stripped(rs[i + 1..], false)
  {
    var a, r, b := rs[..i], rs[i], rs[i + 1..];
    if heap {
      SystemHeapStripped(a);
    } else {
      AppHeapStripped(a);
    }
    AnnouncementStripped(r, b, heap);
    StrippedInParts(a, [r] + b, heap);
    assert rs == a + ([r] + b);
  }

  /** What is left of `rs`, kind by kind, up to its first announcement and by that from there on. */
  ghost predicate KeptByKind(rs: seq<Record>, system: bool, kept: seq<Record>)
    requires AllValid(rs, false)
  {
    && (NoInfo(rs) ==> kept == if system then RootsAndClasses(rs) else HeadersOnly(rs))
    && forall i | 0 <= i < |rs| && rs[i].HeapDumpInfo? && NoInfo(rs[..i]) ::
         kept == (if system then RootsAndClasses(rs[..i]) else HeadersOnly(rs[..i]))
           + if AnnouncesSystem(rs[i]) then Stripped(rs[i + 1..], true) else [rs[i]] + Stripped(rs[i + 1..], false)
  }

  lemma StrippedByKind(rs: seq<Record>, heap: bool)
    requires AllValid(rs, false)
    ensures KeptByKind(rs, heap, Stripped(rs, heap))
  {
    if NoInfo(rs) && heap {
      SystemHeapStripped(rs);
    } else if NoInfo(rs) {
      AppHeapStripped(rs);
    }
    forall i | 0 <= i < |rs| && rs[i].HeapDumpInfo? && NoInfo(rs[..i])
      ensures Stripped(rs, heap) == (if heap then RootsAndClasses(rs[..i]) else HeadersOnly(rs[..i]))
        + if AnnouncesSystem(rs[i]) then Stripped(rs[i + 1..], true) else [rs[i]] + Stripped(rs[i + 1..], false)
    {
      StrippedAtAnnouncement(rs, i, heap);
    }
  }

  /** The contents that the primitive arrays among `ks` ask for. */
  function MissingBytes(ks: seq<Record>): nat {
    if ks == [] then 0
    else (if ks[0].PrimitiveArrayDump? then SizeOf(ks[0].ty) * ks[0].length else 0) + MissingBytes(ks[1..])
  }

  lemma {:induction false} MissingIsRemoved(rs: seq<Record>)
    requires AllValid(rs, false)
    ensures MissingBytes(AllWithoutData(rs)) == DataBytes(rs)
  {
    if rs != [] {
      MissingIsRemoved(rs[1..]);
      assert AllWithoutData(rs)[1..] == AllWithoutData(rs[1..]);
      if rs[0].PrimitiveArrayDump? {
        ArraySizeIsProduct(rs[0].ty, rs[0].length);
      }
    }
  }
}
