/**
 The sub-records of a HEAP_DUMP or HEAP_DUMP_SEGMENT record of the HPROF binary format with
 the Android sub-tags, in the layout the strip filter assumes: identifiers of four bytes, and
 each obsolete sub-tag one byte long.  `Encode` prints a record, `Parse` reads a segment body.
 */
module HprofFormat {
  import opened Bytes

  // Sub-record tags.
  const ROOT_UNKNOWN: Byte := 0xFF
  const ROOT_JNI_GLOBAL: Byte := 0x01
  const ROOT_JNI_LOCAL: Byte := 0x02
  const ROOT_JAVA_FRAME: Byte := 0x03
  const ROOT_NATIVE_STACK: Byte := 0x04
  const ROOT_STICKY_CLASS: Byte := 0x05
  const ROOT_THREAD_BLOCK: Byte := 0x06
  const ROOT_MONITOR_USED: Byte := 0x07
  const ROOT_THREAD_OBJECT: Byte := 0x08
  const CLASS_DUMP: Byte := 0x20
  const INSTANCE_DUMP: Byte := 0x21
  const OBJECT_ARRAY_DUMP: Byte := 0x22
  const PRIMITIVE_ARRAY_DUMP: Byte := 0x23
  const HEAP_DUMP_INFO: Byte := 0xFE
  const ROOT_INTERNED_STRING: Byte := 0x89
  const ROOT_FINALIZING: Byte := 0x8A
  const ROOT_DEBUGGER: Byte := 0x8B
  const ROOT_REFERENCE_CLEANUP: Byte := 0x8C
  const ROOT_VM_INTERNAL: Byte := 0x8D
  const ROOT_JNI_MONITOR: Byte := 0x8E
  const UNREACHABLE: Byte := 0x90
  const PRIMITIVE_ARRAY_NODATA_DUMP: Byte := 0xC3

  const HEAP_ZYGOTE: Byte := 90 // 'Z'
  const HEAP_IMAGE: Byte := 73 // 'I'

  /** The byte size of a basic type, 0 for a type the filter does not know. */
  function SizeOf(ty: Byte): (n: nat)
    ensures n == 0 || n == 1 || n == 2 || n == 4 || n == 8
  {
    if ty == 4 || ty == 8 then 1
    else if ty == 5 || ty == 9 then 2
    else if ty == 6 || ty == 10 || ty == 2 then 4
    else if ty == 11 || ty == 7 then 8
    else 0
  }

  /** From code 4 to 11 the sizes 1, 2, 4 and 8 take turns; besides there is the object reference, code 2. */
  lemma SizeByCode(ty: Byte)
    ensures SizeOf(ty)
      == if 4 <= ty <= 11 then [1, 2, 4, 8][ty % 4] else if ty == 2 then SizeOf(6) else 0
  {
  }

  /** The bytes of a primitive array's contents. */
  function ArraySize(ty: Byte, length: nat): nat {
    if SizeOf(ty) == 1 then length
    else if SizeOf(ty) == 2 then 2 * length
    else if SizeOf(ty) == 4 then 4 * length
    else if SizeOf(ty) == 8 then 8 * length
    else 0
  }

  lemma ArraySizeIsProduct(ty: Byte, length: nat)
    ensures ArraySize(ty, length) == SizeOf(ty) * length
  {
  }

  /** An entry of a constant pool (two-byte index) or of a static field table (four-byte name). */
  datatype Entry = Entry(id: seq<Byte>, ty: Byte, value: seq<Byte>)

  datatype Record =
    | Plain(tag: Byte, payload: seq<Byte>) // a root, or an obsolete tag with no payload
    | ClassDump(head: seq<Byte>, constants: seq<Entry>, statics: seq<Entry>,
                fieldCount: nat, fields: seq<Byte>)
    | InstanceDump(head: seq<Byte>, data: seq<Byte>)
    | ObjectArrayDump(head: seq<Byte>, length: nat, classId: seq<Byte>, elements: seq<Byte>)
    | PrimitiveArrayDump(head: seq<Byte>, length: nat, ty: Byte, data: seq<Byte>)
    | HeapDumpInfo(heapType: seq<Byte>, nameId: seq<Byte>)

  /** The bytes after the tag of a record of fixed layout, or -1 for every other tag. */
  function PlainSize(tag: Byte): (n: int)
    ensures n == -1 || n == 0 || n == 4 || n == 8 || n == 12
  {
    if tag == ROOT_UNKNOWN || tag == ROOT_STICKY_CLASS || tag == ROOT_MONITOR_USED
       || tag == ROOT_INTERNED_STRING || tag == ROOT_DEBUGGER || tag == ROOT_VM_INTERNAL then 4
    else if tag == ROOT_JNI_GLOBAL || tag == ROOT_NATIVE_STACK || tag == ROOT_THREAD_BLOCK then 8
    else if tag == ROOT_JNI_LOCAL || tag == ROOT_JAVA_FRAME || tag == ROOT_JNI_MONITOR
            || tag == ROOT_THREAD_OBJECT then 12
    else if tag == ROOT_FINALIZING || tag == ROOT_REFERENCE_CLEANUP || tag == UNREACHABLE
            || tag == PRIMITIVE_ARRAY_NODATA_DUMP then 0
    else -1
  }

  predicate Known(tag: Byte) {
    PlainSize(tag) != -1 || tag == CLASS_DUMP || tag == INSTANCE_DUMP || tag == OBJECT_ARRAY_DUMP
    || tag == PRIMITIVE_ARRAY_DUMP || tag == HEAP_DUMP_INFO
  }

  predicate ValidEntry(e: Entry, idSize: nat) {
    |e.id| == idSize && |e.value| == SizeOf(e.ty)
  }

  /** `dataless` is the format after stripping: primitive arrays keep type and length, not data. */
  predicate Valid(r: Record, dataless: bool) {
    match r
    case Plain(tag, payload) => PlainSize(tag) == |payload|
    case ClassDump(head, constants, statics, fieldCount, fields) =>
      |head| == 36 && ValidTable(constants, 2) && ValidTable(statics, 4)
      && fieldCount < 0x1_0000 && |fields| == 5 * fieldCount
    case InstanceDump(head, data) => |head| == 12 && |data| < 0x1_0000_0000
    case ObjectArrayDump(head, length, classId, elements) =>
      |head| == 8 && length < 0x1_0000_0000 && |classId| == 4 && |elements| == 4 * length
    case PrimitiveArrayDump(head, length, ty, data) =>
      && |head| == 8 && length < 0x1_0000_0000
      && |data| == if dataless then 0 else ArraySize(ty, length)
    case HeapDumpInfo(heapType, nameId) => |heapType| == 4 && |nameId| == 4
  }

  predicate AllEntries(es: seq<Entry>, idSize: nat) {
    forall i :: 0 <= i < |es| ==> ValidEntry(es[i], idSize)
  }

  predicate ValidTable(es: seq<Entry>, idSize: nat) {
    |es| < 0x1_0000 && AllEntries(es, idSize)
  }

  predicate AllValid(rs: seq<Record>, dataless: bool) {
    forall i :: 0 <= i < |rs| ==> Valid(rs[i], dataless)
  }

  // ----- printing

  function EncodeEntry(e: Entry): (s: seq<Byte>)
    ensures |s| == |e.id| + 1 + |e.value|
  {
    e.id + ([e.ty] + e.value)
  }

  function EncodeEntries(es: seq<Entry>): seq<Byte> {
    if es == [] then [] else EncodeEntry(es[0]) + EncodeEntries(es[1..])
  }

  function EncodeTable(es: seq<Entry>): seq<Byte>
    requires |es| < 0x1_0000
  {
    BigEndian2(|es|) + EncodeEntries(es)
  }

  function EncodeFields(count: nat, fields: seq<Byte>): seq<Byte>
    requires count < 0x1_0000
  {
    BigEndian2(count) + fields
  }

  function Encode(r: Record): (s: seq<Byte>)
    requires Valid(r, true) || Valid(r, false)
    ensures |s| > 0
  {
    match r
    case Plain(tag, payload) => [tag] + payload
    case ClassDump(head, constants, statics, fieldCount, fields) =>
      ([CLASS_DUMP] + head)
      + (EncodeTable(constants) + (EncodeTable(statics) + EncodeFields(fieldCount, fields)))
    case InstanceDump(head, data) => [INSTANCE_DUMP] + head + BigEndian4(|data|) + data
    case ObjectArrayDump(head, length, classId, elements) =>
      [OBJECT_ARRAY_DUMP] + head + BigEndian4(length) + classId + elements
    case PrimitiveArrayDump(head, length, ty, data) =>
      [PRIMITIVE_ARRAY_DUMP] + head + BigEndian4(length) + [ty] + data
    case HeapDumpInfo(heapType, nameId) => [HEAP_DUMP_INFO] + heapType + nameId
  }

  /** The records `rs` printed one after the other, in front of `tail`. */
  function EncodeAll(rs: seq<Record>, tail: seq<Byte>): seq<Byte>
    requires AllValid(rs, true) || AllValid(rs, false)
  {
    if rs == [] then tail else Encode(rs[0]) + EncodeAll(rs[1..], tail)
  }

  // ----- reading

  datatype Parsed<+T> = Overrun | Parsed(value: T, rest: seq<Byte>)

  function ParseEntries(b: seq<Byte>, idSize: nat, n: nat): Parsed<seq<Entry>> {
    if n == 0 then Parsed([], b)
    else if |b| < idSize + 1 || |b| < idSize + 1 + SizeOf(b[idSize]) then Overrun
    else
      var end := idSize + 1 + SizeOf(b[idSize]);
      match ParseEntries(b[end..], idSize, n - 1)
      case Overrun => Overrun
      case Parsed(es, rest) =>
        Parsed([Entry(b[..idSize], b[idSize], b[idSize + 1..end])] + es, rest)
  }

  function ParseTable(b: seq<Byte>, idSize: nat): Parsed<seq<Entry>> {
    if |b| < 2 then Overrun else ParseEntries(b[2..], idSize, Unsigned2(b, 0))
  }

  function ParseFields(b: seq<Byte>): Parsed<seq<Byte>> {
    if |b| < 2 || |b| < 2 + 5 * Unsigned2(b, 0) then Overrun
    else
      var end := 2 + 5 * Unsigned2(b, 0);
      Parsed(b[2..end], b[end..])
  }

  function ParseClassDump(b: seq<Byte>): Parsed<Record> {
    if |b| < 37 then Overrun else
    match ParseTable(b[37..], 2)
    case Overrun => Overrun
    case Parsed(constants, b1) =>
      match ParseTable(b1, 4)
      case Overrun => Overrun
      case Parsed(statics, b2) =>
        match ParseFields(b2)
        case Overrun => Overrun
        case Parsed(fields, rest) =>
          Parsed(ClassDump(b[1..37], constants, statics, Unsigned2(b2, 0), fields), rest)
  }

  function ParseInstanceDump(b: seq<Byte>): Parsed<Record> {
    if |b| < 17 || |b| < 17 + Unsigned4(b, 13) then Overrun
    else
      var end := 17 + Unsigned4(b, 13);
      Parsed(InstanceDump(b[1..13], b[17..end]), b[end..])
  }

  function ParseObjectArrayDump(b: seq<Byte>): Parsed<Record> {
    if |b| < 17 || |b| < 17 + 4 * Unsigned4(b, 9) then Overrun
    else
      var end := 17 + 4 * Unsigned4(b, 9);
      Parsed(ObjectArrayDump(b[1..9], Unsigned4(b, 9), b[13..17], b[17..end]), b[end..])
  }

  function ParsePrimitiveArrayDump(b: seq<Byte>, dataless: bool): Parsed<Record> {
    if |b| < 14 then Overrun
    else
      var end := 14 + if dataless then 0 else ArraySize(b[13], Unsigned4(b, 9));
      if |b| < end then Overrun
      else Parsed(PrimitiveArrayDump(b[1..9], Unsigned4(b, 9), b[13], b[14..end]), b[end..])
  }

  function ParsePlain(b: seq<Byte>): Parsed<Record>
    requires |b| > 0 && PlainSize(b[0]) != -1
  {
    var end := 1 + PlainSize(b[0]);
    if |b| < end then Overrun else Parsed(Plain(b[0], b[1..end]), b[end..])
  }

  function ParseHeapDumpInfo(b: seq<Byte>): Parsed<Record> {
    if |b| < 9 then Overrun else Parsed(HeapDumpInfo(b[1..5], b[5..9]), b[9..])
  }

  function ParseRecord(b: seq<Byte>, dataless: bool): Parsed<Record>
    requires |b| > 0 && Known(b[0])
  {
    var tag := b[0];
    if PlainSize(tag) != -1 then ParsePlain(b)
    else if tag == CLASS_DUMP then ParseClassDump(b)
    else if tag == INSTANCE_DUMP then ParseInstanceDump(b)
    else if tag == OBJECT_ARRAY_DUMP then ParseObjectArrayDump(b)
    else if tag == PRIMITIVE_ARRAY_DUMP then ParsePrimitiveArrayDump(b, dataless)
    else ParseHeapDumpInfo(b)
  }

  /**
   Reads records up to the end of `b` or up to the first unknown tag, where the filter stops;
   `rest` is what it leaves unread.  `Overrun`: some record reaches beyond `b`.
   */
  function Parse(b: seq<Byte>, dataless: bool): Parsed<seq<Record>>
    decreases |b|
  {
    if b == [] || !Known(b[0]) then Parsed([], b)
    else
      match ParseRecord(b, dataless)
      case Overrun => Overrun
      case Parsed(r, rest) =>
        ParseRecordSound(b, dataless);
        match Parse(rest, dataless)
        case Overrun => Overrun
        case Parsed(rs, tail) => Parsed([r] + rs, tail)
  }

  // ----- what is read is what is there

  lemma {:induction false} ParseEntriesSound(b: seq<Byte>, idSize: nat, n: nat)
    requires ParseEntries(b, idSize, n).Parsed?
    ensures var Parsed(es, rest) := ParseEntries(b, idSize, n);
      |es| == n && AllEntries(es, idSize) && b == EncodeEntries(es) + rest
    decreases n
  {
    if n > 0 {
      var end := idSize + 1 + SizeOf(b[idSize]);
      var e := Entry(b[..idSize], b[idSize], b[idSize + 1..end]);
      var Parsed(es, rest) := ParseEntries(b[end..], idSize, n - 1);
      ParseEntriesSound(b[end..], idSize, n - 1);
      EntrySound(b, idSize, end);
      EncodeEntriesCons(e, es);
      Assoc(EncodeEntry(e), EncodeEntries(es), rest);
    }
  }

  lemma EntrySound(b: seq<Byte>, idSize: nat, end: nat)
    requires idSize < |b| && end == idSize + 1 + SizeOf(b[idSize]) <= |b|
    ensures b == EncodeEntry(Entry(b[..idSize], b[idSize], b[idSize + 1..end])) + b[end..]
  {
    assert b[idSize..end] == [b[idSize]] + b[idSize + 1..end];
    assert b[..end] == b[..idSize] + b[idSize..end];
    Cut(b, end);
  }

  lemma EncodeEntriesCons(e: Entry, es: seq<Entry>)
    ensures EncodeEntries([e] + es) == EncodeEntry(e) + EncodeEntries(es)
  {
    assert ([e] + es)[1..] == es;
  }

  lemma ParseTableSound(b: seq<Byte>, idSize: nat)
    requires ParseTable(b, idSize).Parsed?
    ensures var Parsed(es, rest) := ParseTable(b, idSize);
      ValidTable(es, idSize) && b == EncodeTable(es) + rest
  {
    ParseEntriesSound(b[2..], idSize, Unsigned2(b, 0));
    var Parsed(es, rest) := ParseTable(b, idSize);
    BigEndian2Inverts(b, 0);
    Cut(b, 2);
    Assoc(BigEndian2(|es|), EncodeEntries(es), rest);
  }

  lemma ParseFieldsSound(b: seq<Byte>)
    requires ParseFields(b).Parsed?
    ensures var Parsed(fields, rest) := ParseFields(b);
      |fields| == 5 * Unsigned2(b, 0) && b == EncodeFields(Unsigned2(b, 0), fields) + rest
  {
    var n := Unsigned2(b, 0);
    BigEndian2Inverts(b, 0);
    assert b[..2 + 5 * n] == b[0..2] + b[2..2 + 5 * n];
    Cut(b, 2 + 5 * n);
  }

  lemma ParseClassDumpSound(b: seq<Byte>)
    requires |b| > 0 && b[0] == CLASS_DUMP && ParseClassDump(b).Parsed?
    ensures var Parsed(r, rest) := ParseClassDump(b);
      r.ClassDump? && Valid(r, false) && Valid(r, true) && b == Encode(r) + rest
  {
    var Parsed(constants, b1) := ParseTable(b[37..], 2);
    ParseTableSound(b[37..], 2);
    var Parsed(statics, b2) := ParseTable(b1, 4);
    ParseTableSound(b1, 4);
    var Parsed(fields, rest) := ParseFields(b2);
    ParseFieldsSound(b2);
    Cut(b, 37);
    assert b[..37] == [CLASS_DUMP] + b[1..37];
    Assoc4(b[..37], EncodeTable(constants), EncodeTable(statics),
           EncodeFields(Unsigned2(b2, 0), fields), rest);
  }

  lemma ParseInstanceDumpSound(b: seq<Byte>)
    requires |b| > 0 && b[0] == INSTANCE_DUMP && ParseInstanceDump(b).Parsed?
    ensures var Parsed(r, rest) := ParseInstanceDump(b);
      r.InstanceDump? && Valid(r, false) && Valid(r, true) && b == Encode(r) + rest
  {
    BigEndian4Inverts(b, 13);
    var end := 17 + Unsigned4(b, 13);
    FivePieces(b, 1, 13, 17, end);
    assert b[..1] == [INSTANCE_DUMP];
    var r := ParseInstanceDump(b).value;
    assert Encode(r) == b[..1] + b[1..13] + b[13..17] + b[17..end];
  }

  lemma ParseObjectArrayDumpSound(b: seq<Byte>)
    requires |b| > 0 && b[0] == OBJECT_ARRAY_DUMP && ParseObjectArrayDump(b).Parsed?
    ensures var Parsed(r, rest) := ParseObjectArrayDump(b);
      r.ObjectArrayDump? && Valid(r, false) && Valid(r, true) && b == Encode(r) + rest
  {
    BigEndian4Inverts(b, 9);
    var end := 17 + 4 * Unsigned4(b, 9);
    FivePieces(b, 9, 13, 17, end);
    assert b[..9] == [OBJECT_ARRAY_DUMP] + b[1..9];
    var r := ParseObjectArrayDump(b).value;
    assert Encode(r) == b[..9] + b[9..13] + b[13..17] + b[17..end];
  }

  lemma ParsePrimitiveArrayDumpSound(b: seq<Byte>, dataless: bool)
    requires |b| > 0 && b[0] == PRIMITIVE_ARRAY_DUMP && ParsePrimitiveArrayDump(b, dataless).Parsed?
    ensures var Parsed(r, rest) := ParsePrimitiveArrayDump(b, dataless);
      r.PrimitiveArrayDump? && Valid(r, dataless) && b == Encode(r) + rest
  {
    BigEndian4Inverts(b, 9);
    var end := 14 + if dataless then 0 else ArraySize(b[13], Unsigned4(b, 9));
    FivePieces(b, 9, 13, 14, end);
    assert b[..9] == [PRIMITIVE_ARRAY_DUMP] + b[1..9];
    assert b[13..14] == [b[13]];
    var r := ParsePrimitiveArrayDump(b, dataless).value;
    assert Encode(r) == b[..9] + b[9..13] + b[13..14] + b[14..end];
  }

  lemma ParsePlainSound(b: seq<Byte>)
    requires |b| > 0 && PlainSize(b[0]) != -1 && ParsePlain(b).Parsed?
    ensures var Parsed(r, rest) := ParsePlain(b);
      r.Plain? && Valid(r, false) && Valid(r, true) && b == Encode(r) + rest
  {
    var end := 1 + PlainSize(b[0]);
    assert b[..end] == [b[0]] + b[1..end];
    Cut(b, end);
  }

  lemma ParseHeapDumpInfoSound(b: seq<Byte>)
    requires |b| > 0 && b[0] == HEAP_DUMP_INFO && ParseHeapDumpInfo(b).Parsed?
    ensures var Parsed(r, rest) := ParseHeapDumpInfo(b);
      r.HeapDumpInfo? && Valid(r, false) && Valid(r, true) && b == Encode(r) + rest
  {
    assert b[..5] == [b[0]] + b[1..5];
    assert b[..9] == b[..5] + b[5..9];
    Cut(b, 9);
  }

  lemma ParseRecordSound(b: seq<Byte>, dataless: bool)
    requires |b| > 0 && Known(b[0]) && ParseRecord(b, dataless).Parsed?
    ensures var Parsed(r, rest) := ParseRecord(b, dataless);
      Valid(r, dataless) && b == Encode(r) + rest
  {
    var tag := b[0];
    if PlainSize(tag) != -1 {
      ParsePlainSound(b);
    } else if tag == CLASS_DUMP {
      ParseClassDumpSound(b);
    } else if tag == INSTANCE_DUMP {
      ParseInstanceDumpSound(b);
    } else if tag == OBJECT_ARRAY_DUMP {
      ParseObjectArrayDumpSound(b);
    } else if tag == PRIMITIVE_ARRAY_DUMP {
      ParsePrimitiveArrayDumpSound(b, dataless);
    } else {
      ParseHeapDumpInfoSound(b);
    }
  }

  lemma EncodeAllCons(r: Record, rs: seq<Record>, tail: seq<Byte>, dataless: bool)
    requires Valid(r, dataless) && AllValid(rs, dataless)
    ensures AllValid([r] + rs, dataless)
    ensures EncodeAll([r] + rs, tail) == Encode(r) + EncodeAll(rs, tail)
  {
    assert ([r] + rs)[1..] == rs;
  }

  /** Printing what was read gives back the body: `Parse` loses and invents nothing. */
  lemma {:induction false} ParseSound(b: seq<Byte>, dataless: bool)
    requires Parse(b, dataless).Parsed?
    ensures var Parsed(rs, tail) := Parse(b, dataless);
      && AllValid(rs, dataless) && b == EncodeAll(rs, tail)
      && (tail == [] || !Known(tail[0]))
    decreases |b|
  {
    if b != [] && Known(b[0]) {
      var Parsed(r, rest) := ParseRecord(b, dataless);
      ParseRecordSound(b, dataless);
      ParseSound(rest, dataless);
      var Parsed(rs, tail) := Parse(rest, dataless);
      EncodeAllCons(r, rs, tail, dataless);
    }
  }

  // ----- what is printed is read back

  lemma {:induction false} ParseEntriesInverts(es: seq<Entry>, idSize: nat, rest: seq<Byte>)
    requires AllEntries(es, idSize)
    ensures ParseEntries(EncodeEntries(es) + rest, idSize, |es|) == Parsed(es, rest)
  {
    if es == [] {
      assert EncodeEntries(es) + rest == rest;
    } else {
      var e := es[0];
      var more := EncodeEntries(es[1..]) + rest;
      var b := EncodeEntries(es) + rest;
      Assoc(EncodeEntry(e), EncodeEntries(es[1..]), rest);
      EntryPieces(e, idSize, more);
      ParseEntriesInverts(es[1..], idSize, rest);
      assert [e] + es[1..] == es;
    }
  }

  lemma EntryPieces(e: Entry, idSize: nat, more: seq<Byte>)
    requires ValidEntry(e, idSize)
    ensures var b, end := EncodeEntry(e) + more, idSize + 1 + SizeOf(e.ty);
      && end <= |b| && b[..idSize] == e.id && b[idSize] == e.ty
      && b[idSize + 1..end] == e.value && b[end..] == more
  {
  }

  lemma ParseTableInverts(es: seq<Entry>, idSize: nat, rest: seq<Byte>)
    requires ValidTable(es, idSize)
    ensures ParseTable(EncodeTable(es) + rest, idSize) == Parsed(es, rest)
  {
    var b := EncodeTable(es) + rest;
    Assoc(BigEndian2(|es|), EncodeEntries(es), rest);
    Joined(BigEndian2(|es|), EncodeEntries(es) + rest);
    assert b[0..2] == b[..2];
    Unsigned2Inverts(b, 0, |es|);
    ParseEntriesInverts(es, idSize, rest);
  }

  lemma ParseFieldsInverts(n: nat, fields: seq<Byte>, rest: seq<Byte>)
    requires n < 0x1_0000 && |fields| == 5 * n
    ensures var b := EncodeFields(n, fields) + rest;
      |b| >= 2 && Unsigned2(b, 0) == n && ParseFields(b) == Parsed(fields, rest)
  {
    var b := EncodeFields(n, fields) + rest;
    assert b[0..2] == BigEndian2(n);
    Unsigned2Inverts(b, 0, n);
    assert b[2..2 + |fields|] == fields;
    Joined(EncodeFields(n, fields), rest);
  }

  lemma ParseClassDumpInverts(r: Record, rest: seq<Byte>)
    requires r.ClassDump? && Valid(r, false)
    ensures ParseClassDump(Encode(r) + rest) == Parsed(r, rest)
  {
    var b := Encode(r) + rest;
    var head := [CLASS_DUMP] + r.head;
    var b2 := EncodeFields(r.fieldCount, r.fields) + rest;
    var b1 := EncodeTable(r.statics) + b2;
    Assoc4(head, EncodeTable(r.constants), EncodeTable(r.statics),
           EncodeFields(r.fieldCount, r.fields), rest);
    Joined(head, EncodeTable(r.constants) + b1);
    assert b[1..37] == head[1..] == r.head;
    ParseTableInverts(r.constants, 2, b1);
    ParseTableInverts(r.statics, 4, b2);
    ParseFieldsInverts(r.fieldCount, r.fields, rest);
  }

  lemma ParseInstanceDumpInverts(r: Record, rest: seq<Byte>)
    requires r.InstanceDump? && Valid(r, false)
    ensures ParseInstanceDump(Encode(r) + rest) == Parsed(r, rest)
  {
    var b := Encode(r) + rest;
    Pieces([INSTANCE_DUMP], r.head, BigEndian4(|r.data|), r.data, rest);
    Unsigned4Inverts(b, 13, |r.data|);
  }

  lemma ParseObjectArrayDumpInverts(r: Record, rest: seq<Byte>)
    requires r.ObjectArrayDump? && Valid(r, false)
    ensures ParseObjectArrayDump(Encode(r) + rest) == Parsed(r, rest)
  {
    var b := Encode(r) + rest;
    Pieces([OBJECT_ARRAY_DUMP] + r.head, BigEndian4(r.length), r.classId, r.elements, rest);
    assert b[1..9] == b[..9][1..];
    Unsigned4Inverts(b, 9, r.length);
  }

  lemma ParsePrimitiveArrayDumpInverts(r: Record, dataless: bool, rest: seq<Byte>)
    requires r.PrimitiveArrayDump? && Valid(r, dataless)
    ensures ParsePrimitiveArrayDump(Encode(r) + rest, dataless) == Parsed(r, rest)
  {
    var b := Encode(r) + rest;
    Pieces([PRIMITIVE_ARRAY_DUMP] + r.head, BigEndian4(r.length), [r.ty], r.data, rest);
    assert b[1..9] == b[..9][1..];
    assert b[13] == b[13..14][0];
    Unsigned4Inverts(b, 9, r.length);
  }

  lemma ParsePlainInverts(r: Record, rest: seq<Byte>)
    requires r.Plain? && Valid(r, false)
    ensures ParsePlain(Encode(r) + rest) == Parsed(r, rest)
  {
    var b := Encode(r) + rest;
    assert b[1..1 + |r.payload|] == r.payload;
    Joined(Encode(r), rest);
  }

  lemma ParseHeapDumpInfoInverts(r: Record, rest: seq<Byte>)
    requires r.HeapDumpInfo? && Valid(r, false)
    ensures ParseHeapDumpInfo(Encode(r) + rest) == Parsed(r, rest)
  {
    var b := Encode(r) + rest;
    assert b[1..5] == r.heapType && b[5..9] == r.nameId;
    Joined(Encode(r), rest);
  }

  function TagOf(r: Record): Byte {
    match r
    case Plain(tag, _) => tag
    case ClassDump(_, _, _, _, _) => CLASS_DUMP
    case InstanceDump(_, _) => INSTANCE_DUMP
    case ObjectArrayDump(_, _, _, _) => OBJECT_ARRAY_DUMP
    case PrimitiveArrayDump(_, _, _, _) => PRIMITIVE_ARRAY_DUMP
    case HeapDumpInfo(_, _) => HEAP_DUMP_INFO
  }

  lemma FirstByte(r: Record, dataless: bool, rest: seq<Byte>)
    requires Valid(r, dataless)
    ensures (Encode(r) + rest)[0] == Encode(r)[0] == TagOf(r) && Known(TagOf(r))
  {
  }

  /** What the reader of the right kind gives is what the tag leads to. */
  lemma ReadByTag(b: seq<Byte>, dataless: bool, r: Record, rest: seq<Byte>)
    requires |b| > 0 && b[0] == TagOf(r) && (r.Plain? ==> PlainSize(b[0]) != -1)
    requires match r
      case Plain(_, _) => ParsePlain(b) == Parsed(r, rest)
      case ClassDump(_, _, _, _, _) => ParseClassDump(b) == Parsed(r, rest)
      case InstanceDump(_, _) => ParseInstanceDump(b) == Parsed(r, rest)
      case ObjectArrayDump(_, _, _, _) => ParseObjectArrayDump(b) == Parsed(r, rest)
      case PrimitiveArrayDump(_, _, _, _) => ParsePrimitiveArrayDump(b, dataless) == Parsed(r, rest)
      case HeapDumpInfo(_, _) => ParseHeapDumpInfo(b) == Parsed(r, rest)
    ensures Known(b[0]) && ParseRecord(b, dataless) == Parsed(r, rest)
  {
  }

  lemma ParseRecordInverts(r: Record, dataless: bool, rest: seq<Byte>)
    requires Valid(r, dataless)
    ensures var b := Encode(r) + rest;
      Known(b[0]) && ParseRecord(b, dataless) == Parsed(r, rest)
  {
    FirstByte(r, dataless, rest);
    match r {
      case Plain(_, _) => ParsePlainInverts(r, rest);
      case ClassDump(_, _, _, _, _) => ParseClassDumpInverts(r, rest);
      case InstanceDump(_, _) => ParseInstanceDumpInverts(r, rest);
      case ObjectArrayDump(_, _, _, _) => ParseObjectArrayDumpInverts(r, rest);
      case PrimitiveArrayDump(_, _, _, _) => ParsePrimitiveArrayDumpInverts(r, dataless, rest);
      case HeapDumpInfo(_, _) => ParseHeapDumpInfoInverts(r, rest);
    }
    ReadByTag(Encode(r) + rest, dataless, r, rest);
  }

  /** A record in front of what is read as the other records. */
  lemma ParseCons(b: seq<Byte>, dataless: bool, rs: seq<Record>, rest: seq<Byte>, tail: seq<Byte>)
    requires |b| > 0 && Known(b[0]) && rs != []
    requires ParseRecord(b, dataless) == Parsed(rs[0], rest)
    requires Parse(rest, dataless) == Parsed(rs[1..], tail)
    ensures Parse(b, dataless) == Parsed(rs, tail)
  {
    assert [rs[0]] + rs[1..] == rs;
  }

  lemma EncodeAllFirst(rs: seq<Record>, dataless: bool, tail: seq<Byte>)
    requires AllValid(rs, dataless) && rs != []
    ensures Valid(rs[0], dataless) && AllValid(rs[1..], dataless)
    ensures EncodeAll(rs, tail) == Encode(rs[0]) + EncodeAll(rs[1..], tail)
  {
  }

  /** Reading what was printed gives back the records, whatever unread tail follows them. */
  lemma {:induction false} ParseInverts(rs: seq<Record>, dataless: bool, tail: seq<Byte>)
    requires AllValid(rs, dataless) && (tail == [] || !Known(tail[0]))
    ensures Parse(EncodeAll(rs, tail), dataless) == Parsed(rs, tail)
    decreases |rs|
  {
    if rs != [] {
      EncodeAllFirst(rs, dataless, tail);
      var more := EncodeAll(rs[1..], tail);
      ParseRecordInverts(rs[0], dataless, more);
      ParseInverts(rs[1..], dataless, tail);
      ParseCons(Encode(rs[0]) + more, dataless, rs, more, tail);
    }
  }
}
