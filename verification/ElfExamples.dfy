/** Files on which the ELF reader reads outside the file or through null. */
module ElfExamples {
  import opened Wrappers
  import opened Bytes
  import opened Bits
  import opened ElfHashes
  import opened ElfMeaning
  import opened ElfReader

  // A GNU hash section right behind the header of a 32-bit file: symbols 0 to 20 are not hashed,
  // and symbol 21, "a", lies in the first of two buckets.  Anything may follow.

  const GNU_SECTION: seq<Word> := [2, 21, 1, 0, 0xFFFF_FFFF, 21, 0, 177671]
  const STRINGS: seq<Byte> := [0, 97, 0]
  const SYMS: seq<Sym> := seq(21, _ => Sym(0, 0, 0)) + [Sym(1, STT_FUNC, 0x1000)]
  const SECTIONS := [
    Section(DynsymType, OtherName, 352, 16, true, 21, SYMS, []),
    Section(StrtabType, DynstrName, 3, 0, true, 109, [], STRINGS),
    Section(OtherType, GnuHashName, 32, 0, true, 13, [], [])]

  function Image(header: seq<Word>, more: seq<Word>): (image: seq<Word>)
    requires |header| == 13 && header[0] == ELF_MAGIC
    ensures IsElf(image) && |image| >= 21
    ensures forall i :: 0 <= i < 8 ==> image[13 + i] == GNU_SECTION[i]
  {
    header + GNU_SECTION + more
  }

  lemma {:induction false} AllOnes(n: nat, k: nat)
    requires k < n
    ensures Bit(Pow2(n) - 1, k)
  {
    assert (Pow2(n) - 1) / 2 == Pow2(n - 1) - 1;
    if k > 0 {
      AllOnes(n - 1, k - 1);
    }
  }

  lemma FullFilter(image: seq<Word>, x: GnuIndex, h: nat)
    requires x.bits == 32 && x.mask == 0 && x.Filter(1) <= |image| && image[x.Filter(0)] == 0xFFFF_FFFF
    ensures InFilter(image, x, h)
  {
    Pow2Values();
    AllOnes(32, x.BitInWord(h));
    AllOnes(32, x.BitInWord(Shr(h, x.shift2)));
  }

  lemma Hashes()
    ensures GnuHashOf([97]) == 177670 && GnuHashOf([98]) == 177671
  {
    assert Times33([97]) == Times33([]) * 33 + 97 by { assert [97][..0] == []; }
    assert Times33([98]) == Times33([]) * 33 + 98 by { assert [98][..0] == []; }
  }

  /** In every such file the table is well formed, and looking up "b", which it lacks, reads outside the file. */
  lemma LookupCanWalkOff(header: seq<Word>, more: seq<Word>)
    requires |header| == 13 && header[0] == ELF_MAGIC
    ensures var image := Image(header, more);
      var x := GnuAt(image, 32, 13);
      GnuTable(image, x, SYMS, STRINGS) && WalksOff(image, x, [98])
  {
    var image := Image(header, more);
    var x := GnuAt(image, 32, 13);
    assert x == GnuIndex(32, 2, 0, 0, 17, 18, -1);
    assert x.mask + 1 == Pow2(0);
    assert CString(STRINGS, 2) == [] && CString(STRINGS, 1) == [97];
    Hashes();
    FullFilter(image, x, 177670);
    FullFilter(image, x, 177671);
    assert Hashed(image, x, 21, GnuHashOf(NameOf(SYMS[21], STRINGS)));
  }

  lemma ScanOfExample(image: seq<Word>, before: Tables)
    requires |image| >= 21
    ensures (forall i :: 0 <= i < 3 ==> !Faults(SECTIONS[i], image))
    ensures var t := Scanned(before, SECTIONS, 3, image, 32);
      t.dynsym == Some(SYMS) && t.dynstr == Some(STRINGS) && t.gnu == Some(GnuAt(image, 32, 13))
      && t.sysv == before.sysv
  {
    assert Last(SECTIONS, 3, Dynsym) == Last(SECTIONS, 2, Dynsym) == Last(SECTIONS, 1, Dynsym) == Some(0);
    assert Last(SECTIONS, 3, Dynstr) == Last(SECTIONS, 2, Dynstr) == Some(1);
    assert Last(SECTIONS, 3, GnuHashSection) == Some(2);
    assert Last(SECTIONS, 3, SysvHashSection) == Last(SECTIONS, 2, SysvHashSection)
      == Last(SECTIONS, 1, SysvHashSection) == None;
  }

  /** The whole way, from reading the section headers to the lookup. */
  method LookupOffTheFile(header: seq<Word>, more: seq<Word>) returns (r: Found)
    requires |header| == 13 && header[0] == ELF_MAGIC
    ensures r == OutsideImage
  {
    var image := Image(header, more);
    var reader := new ElfReader(image, 32);
    LookupCanWalkOff(header, more);
    ScanOfExample(image, reader.Snapshot());
    var loaded := reader.Init(Some(SECTIONS));
    ghost var dyn;
    r, dyn := reader.LookupSymbol(Some([98]), 0, false);
  }

  lemma ScanOfSymtab(s: Section, image: seq<Word>, before: Tables)
    requires s.ty == SymtabType && s.size == s.entsize == 16
    ensures !Faults(s, image)
    ensures Scanned(before, [s], 1, image, 32) == before.(symtab := s.Symbols(), symtabEntCount := 1)
  {
    ScannedNext(before, [s], 0, image, 32);
    assert Scanned(before, [s], 0, image, 32) == before;
  }

  /** A symbol table beyond the file, or one without names: its first function is read through null. */
  method LookupThroughNull(inFile: bool) returns (r: Found)
    ensures r == OutsideImage
  {
    var reader := new ElfReader([ELF_MAGIC], 32);
    var section := Section(SymtabType, OtherName, 16, 16, inFile, 0, [Sym(0, STT_FUNC, 0x1000)], []);
    ScanOfSymtab(section, reader.image, reader.Snapshot());
    var loaded := reader.Init(Some([section]));
    assert !reader.FallbackTable().Readable(0);
    ghost var dyn;
    r, dyn := reader.LookupSymbol(Some([97]), 0, false);
  }

  // ----- symbols that are found, at a load base

  const SYMS_64 := [Sym(0, 0, 0), Sym(1, STT_FUNC, 0x2000)]
  const STRINGS_64: seq<Byte> := [0, 97, 97, 0]
  const SECTIONS_64 := [
    Section(DynsymType, OtherName, 48, 24, true, 26, SYMS_64, []),
    Section(StrtabType, DynstrName, 4, 0, true, 38, [], STRINGS_64),
    Section(OtherType, GnuHashName, 40, 0, true, 16, [], [])]

  /** The section lies behind the 16 words of the header. */
  predicate Holds64(image: seq<Word>) {
    && |image| >= 26 && image[0] == ELF_MAGIC
    && image[16] == 1 && image[17] == 1 && image[18] == 2 && image[19] == 6 // header
    && image[20] == 0x1000_0000 && image[21] == 128 && image[22] == 0 && image[23] == 0 // filter
    && image[24] == 1 && image[25] == 5863207 // bucket, chain word
  }

  lemma HashOfAa()
    ensures GnuHashOf([97, 97]) == 5863207
    ensures CString(STRINGS_64, 1) == [97, 97]
  {
    assert [97, 97][..1] == [97] && [97][..0] == [];
    assert Times33([97]) == Times33([]) * 33 + 97;
    assert Times33([97, 97]) == Times33([97]) * 33 + 97;
    assert CString(STRINGS_64, 3) == [] && CString(STRINGS_64, 2) == [97];
  }

  /** A 64-bit filter of two words, whose second one is empty, and which is tested with a shift of 6. */
  lemma FilterOf64Bits(image: seq<Word>)
    requires Holds64(image)
    ensures GnuAt(image, 64, 16) == GnuIndex(64, 1, 1, 6, 20, 24, 24)
    ensures InFilter(image, GnuAt(image, 64, 16), 5863207)
  {
    Pow2Values();
    assert Pow2(6) == 64 && Pow2(7) == 128;
    FilterBits(image, 64, 16, 5863207);
    assert FileBit(image, 20, 39) && FileBit(image, 20, 28);
  }

  lemma ChainOf64Bits(image: seq<Word>, x: GnuIndex, h: nat)
    requires x == GnuIndex(64, 1, 1, 6, 20, 24, 24) && |image| >= 26 && image[24] == 1 && image[25] == 5863207
    ensures GnuLayout(image, x, 2) && Bucket(image, x, h) == 1
    ensures h == 5863207 && InFilter(image, x, h) ==> Hashed(image, x, 1, h)
  {
    assert x.mask + 1 == Pow2(1);
  }

  lemma TableOf64Bits(image: seq<Word>)
    requires Holds64(image)
    ensures GnuTable(image, GnuAt(image, 64, 16), SYMS_64, STRINGS_64)
  {
    var x := GnuAt(image, 64, 16);
    FilterOf64Bits(image);
    HashOfAa();
    ChainOf64Bits(image, x, 5863207);
    forall h: nat
      ensures Bucket(image, x, h) == 1
    {
      ChainOf64Bits(image, x, h);
    }
  }

  lemma ScanOf64Bits(image: seq<Word>, before: Tables)
    requires |image| >= 26
    ensures (forall i :: 0 <= i < 3 ==> !Faults(SECTIONS_64[i], image))
    ensures var t := Scanned(before, SECTIONS_64, 3, image, 64);
      t.dynsym == Some(SYMS_64) && t.dynstr == Some(STRINGS_64) && t.gnu == Some(GnuAt(image, 64, 16))
      && t.sysv == before.sysv
  {
    var s := SECTIONS_64;
    assert Last(s, 3, Dynsym) == Last(s, 2, Dynsym) == Last(s, 1, Dynsym) == Some(0);
    assert Last(s, 3, Dynstr) == Last(s, 2, Dynstr) == Some(1);
    assert Last(s, 3, GnuHashSection) == Some(2);
    assert Last(s, 3, SysvHashSection) == Last(s, 2, SysvHashSection) == Last(s, 1, SysvHashSection) == None;
  }

  /** "aa" of a 64-bit file is found through its filter, at the load base. */
  method FindBehindFilter(image: seq<Word>) returns (r: Found)
    requires Holds64(image)
    ensures r == At(0x70_0000_2000)
  {
    var reader := new ElfReader(image, 64);
    TableOf64Bits(image);
    FilterOf64Bits(image);
    HashOfAa();
    ChainOf64Bits(image, GnuAt(image, 64, 16), 5863207);
    ScanOf64Bits(image, reader.Snapshot());
    var loaded := reader.Init(Some(SECTIONS_64));
    SearchFinds(SYMS_64, STRINGS_64, 1, 1);
    ghost var dyn;
    r, dyn := reader.LookupSymbol(Some([97, 97]), 0x70_0000_0000, true);
  }

  const SYMS_SYSV := [Sym(0, 0, 0), Sym(1, STT_FUNC, 0x1000)]
  const SECTIONS_SYSV := [
    Section(DynsymType, OtherName, 32, 16, true, 19, SYMS_SYSV, []),
    Section(StrtabType, DynstrName, 3, 0, true, 27, [], STRINGS),
    Section(HashType, OtherName, 24, 4, true, 13, [], [])]

  /** The section lies behind the 13 words of the header. */
  predicate HoldsSysv(image: seq<Word>) {
    && |image| >= 19 && image[0] == ELF_MAGIC
    && image[13] == 2 && image[14] == 2 // buckets and chain words
    && image[15] == 0 && image[16] == 1 && image[17] == 0 && image[18] == 0
  }

  lemma TableOfSysv(image: seq<Word>)
    requires HoldsSysv(image)
    ensures SysvTable(image, SysvAt(image, 13), SYMS_SYSV, STRINGS, [[], [1]])
    ensures CString(STRINGS, 1) == [97]
  {
    var x := SysvAt(image, 13);
    assert CString(STRINGS, 2) == [];
    HashOfA();
    assert IsChain(image, x, 0, [1][1..]);
    assert IsChain(image, x, 1, [1]);
  }

  lemma HashOfA()
    ensures AbiHash([97]) == 97
  {
    HashOfShort([], 97, 97, 0);
    assert [] + [97] == [97];
    SysvHashIsAbi([97]);
  }

  lemma ScanOfSysv(image: seq<Word>, before: Tables)
    requires |image| >= 19
    ensures (forall i :: 0 <= i < 3 ==> !Faults(SECTIONS_SYSV[i], image))
    ensures var t := Scanned(before, SECTIONS_SYSV, 3, image, 32);
      t.dynsym == Some(SYMS_SYSV) && t.dynstr == Some(STRINGS) && t.sysv == Some(SysvAt(image, 13))
      && t.gnu == before.gnu
  {
    var s := SECTIONS_SYSV;
    assert Last(s, 3, Dynsym) == Last(s, 2, Dynsym) == Last(s, 1, Dynsym) == Some(0);
    assert Last(s, 3, Dynstr) == Last(s, 2, Dynstr) == Some(1);
    assert Last(s, 3, SysvHashSection) == Some(2);
    assert Last(s, 3, GnuHashSection) == Last(s, 2, GnuHashSection) == Last(s, 1, GnuHashSection) == None;
  }

  /** "a" of a 32-bit file is found by its SysV hash, at the load base. */
  method FindBySysvHash(image: seq<Word>) returns (r: Found)
    requires HoldsSysv(image)
    ensures r == At(0x7000_1000)
  {
    var reader := new ElfReader(image, 32);
    TableOfSysv(image);
    ScanOfSysv(image, reader.Snapshot());
    var loaded := reader.Init(Some(SECTIONS_SYSV));
    SearchFinds(SYMS_SYSV, STRINGS, 1, 1);
    ghost var dyn;
    r, dyn := reader.LookupSymbol(Some([97]), 0x7000_0000, true);
  }

  /** The first "a" of the symbol table is a section, type 3; the function comes after it. */
  const SYMS_LAST := [Sym(0, 0, 0), Sym(1, 3, 0x500), Sym(1, 2, 0x1000)]
  const SECTIONS_LAST := [
    Section(SymtabType, OtherName, 48, 16, true, 13, SYMS_LAST, []),
    Section(StrtabType, StrtabName, 3, 0, true, 25, [], STRINGS)]

  lemma ScanOfLast(image: seq<Word>, before: Tables)
    ensures (forall i :: 0 <= i < 2 ==> !Faults(SECTIONS_LAST[i], image))
    ensures Scanned(before, SECTIONS_LAST, 2, image, 32)
      == before.(symtab := Some(SYMS_LAST), symtabEntCount := 3, strtab := Some(STRINGS))
  {
    var s := SECTIONS_LAST;
    assert Last(s, 2, Symtab) == Last(s, 1, Symtab) == Some(0);
    assert Last(s, 2, Strtab) == Some(1);
    assert Last(s, 2, Dynsym) == Last(s, 1, Dynsym) == None;
    assert Last(s, 2, Dynstr) == Last(s, 1, Dynstr) == None;
    assert Last(s, 2, SysvHashSection) == Last(s, 1, SysvHashSection) == None;
    assert Last(s, 2, GnuHashSection) == Last(s, 1, GnuHashSection) == None;
  }

  /** In a file without dynamic symbols it is found at any load base, and the sum wraps around. */
  method FindInSymtab(loadBase: nat) returns (r: Found)
    ensures r == At((loadBase + 0x1000) % 0x1_0000_0000)
  {
    var reader := new ElfReader([ELF_MAGIC], 32);
    ScanOfLast(reader.image, reader.Snapshot());
    var loaded := reader.Init(Some(SECTIONS_LAST));
    assert CString(STRINGS, 2) == [] && CString(STRINGS, 1) == [97] && CString(STRINGS, 0) == [];
    var t := reader.FallbackTable();
    assert SearchSymtab(t, [97], 2) == At(0x1000);
    assert SearchSymtab(t, [97], 1) == SearchSymtab(t, [97], 2);
    assert SearchSymtab(t, [97], 0) == SearchSymtab(t, [97], 1);
    ghost var dyn;
    r, dyn := reader.LookupSymbol(Some([97]), loadBase, false);
  }
}
