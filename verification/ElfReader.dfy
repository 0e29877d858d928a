/**
 The symbol lookup of the ELF reader.  The mapped file is an array of 32-bit words; a hash section
 is known by the index of its first word.  Symbol and string tables are given as values.
 */
module ElfReader {
  import opened Wrappers
  import opened Bytes
  import opened Bits
  import opened ElfHashes

  const STT_OBJECT := 1
  const STT_FUNC := 2

  datatype Sym = Sym(name: nat, info: Byte, value: nat)

  /** The C string at an offset of a string table. */
  function CString(table: seq<Byte>, at: nat): seq<Byte>
    decreases |table| - at
  {
    if at >= |table| || table[at] == 0 then [] else [table[at]] + CString(table, at + 1)
  }

  function NameOf(s: Sym, strings: seq<Byte>): seq<Byte> {
    CString(strings, s.name)
  }

  // ----- what the indexes stand for

  /** The value of the first symbol from index `i` on with this name, 0 if there is none. */
  function Search(syms: seq<Sym>, strings: seq<Byte>, symbol: seq<Byte>, i: nat): nat
    decreases |syms| - i
  {
    if i >= |syms| then 0
    else if NameOf(syms[i], strings) == symbol then syms[i].value
    else Search(syms, strings, symbol, i + 1)
  }

  /** No two symbols share a name; entry 0 is the reserved null symbol. */
  predicate UniqueNames(syms: seq<Sym>, strings: seq<Byte>) {
    forall i, j :: 1 <= i < j < |syms| ==> NameOf(syms[i], strings) != NameOf(syms[j], strings)
  }

  lemma {:induction false} SearchFinds(syms: seq<Sym>, strings: seq<Byte>, i: nat, from: nat)
    requires UniqueNames(syms, strings) && 1 <= from <= i < |syms|
    ensures Search(syms, strings, NameOf(syms[i], strings), from) == syms[i].value
    decreases i - from
  {
    if from < i {
      SearchFinds(syms, strings, i, from + 1);
    }
  }

  lemma {:induction false} SearchMisses(syms: seq<Sym>, strings: seq<Byte>, symbol: seq<Byte>, from: nat)
    requires forall i :: from <= i < |syms| ==> NameOf(syms[i], strings) != symbol
    ensures Search(syms, strings, symbol, from) == 0
    decreases |syms| - from
  {
    if from < |syms| {
      SearchMisses(syms, strings, symbol, from + 1);
    }
  }

  // ----- the SysV hash section: nbucket, nchain, buckets, chains

  datatype SysvIndex = SysvIndex(nbucket: nat, nchain: nat, bucket: nat, chain: nat)

  /** `path` lists the symbols of the chain that starts with `n`, which ends in 0. */
  predicate IsChain(image: seq<Word>, x: SysvIndex, n: nat, path: seq<nat>)
    decreases |path|
  {
    if path == [] then n == 0
    else
      && n == path[0] && 0 < n < x.nchain && x.chain + n < |image|
      && IsChain(image, x, image[x.chain + n], path[1..])
  }

  /**
   The table as the ABI describes it: every chain ends, and every symbol except entry 0 lies on the
   chain of its bucket.
   */
  ghost predicate SysvTable(image: seq<Word>, x: SysvIndex, syms: seq<Sym>, strings: seq<Byte>,
                            paths: seq<seq<nat>>)
  {
    && x.nbucket > 0 && x.nchain == |syms| && |paths| == x.nbucket
    && x.bucket + x.nbucket <= |image|
    && (forall b :: 0 <= b < x.nbucket ==> IsChain(image, x, image[x.bucket + b], paths[b]))
    && (forall i :: 1 <= i < |syms| ==>
          i in paths[AbiHash(NameOf(syms[i], strings)) % x.nbucket])
  }

  lemma {:induction false} ChainInRange(image: seq<Word>, x: SysvIndex, n: nat, path: seq<nat>)
    requires IsChain(image, x, n, path)
    ensures forall k :: 0 <= k < |path| ==> 0 < path[k] < x.nchain
    decreases |path|
  {
    if path != [] {
      ChainInRange(image, x, image[x.chain + n], path[1..]);
      assert forall k :: 1 <= k < |path| ==> path[k] == path[1..][k - 1];
    }
  }

  /** The section that starts at word `start`. */
  function SysvAt(image: seq<Word>, start: nat): (x: SysvIndex)
    requires start + 2 <= |image|
    ensures x.nbucket == image[start] && x.nchain == image[start + 1]
    ensures x.bucket == start + 2 && x.chain == x.bucket + x.nbucket
  {
    SysvIndex(image[start], image[start + 1], start + 2, start + 2 + image[start])
  }

  // ----- the GNU hash section: header, Bloom filter, buckets, chain words

  /**
   `bits` is the size of an address, 32 or 64; `mask` is one less than the number of filter words.
   Chain words are counted from `chain` on, which may lie before the image: only those from the
   first hashed symbol on exist.
   */
  datatype GnuIndex = GnuIndex(
    bits: nat, nbucket: nat, mask: nat, shift2: nat, bloom: nat, bucket: nat, chain: int)
  {
    /** The first symbol that is hashed; its chain word follows the buckets. */
    function FirstHashed(): int {
      bucket + nbucket - chain
    }

    /** The image words before filter word `n`. */
    function Filter(n: nat): nat {
      if bits == 32 then bloom + n else bloom + 2 * n
    }

    function WordOfBit(h: nat): nat {
      if bits == 32 then h / 32 else h / 64
    }

    function BitInWord(h: nat): nat {
      if bits == 32 then h % 32 else h % 64
    }
  }

  /** The section that starts at word `start`: header, filter, buckets and chain words in a row. */
  function GnuAt(image: seq<Word>, bits: nat, start: nat): (x: GnuIndex)
    requires start + 4 <= |image|
    ensures x.FirstHashed() == image[start + 1]
    ensures x.Filter(0) == start + 4 && x.Filter(image[start + 2]) == x.bucket
    ensures (x.mask + 1) % WORD == image[start + 2] && x.nbucket == image[start] && x.shift2 == image[start + 3]
  {
    var maskwords: nat := image[start + 2];
    var bloom := start + 4;
    var bucket := bloom + if bits == 32 then maskwords else 2 * maskwords;
    GnuIndex(bits, image[start], if maskwords == 0 then WORD - 1 else maskwords - 1, image[start + 3], bloom,
             bucket, bucket + image[start] - image[start + 1])
  }

  function GnuHashOf(name: seq<Byte>): Word {
    Times33(name) % WORD
  }

  /** An address-sized word of the filter, low half first. */
  function FilterWord(image: seq<Word>, x: GnuIndex, n: nat): nat
    requires x.Filter(n + 1) <= |image|
  {
    if x.bits == 32 then image[x.Filter(n)]
    else image[x.Filter(n)] + image[x.Filter(n) + 1] * WORD
  }

  /** The two bits that a builder of the table sets for a hash are set. */
  predicate InFilter(image: seq<Word>, x: GnuIndex, h: nat)
    requires x.Filter(x.mask + 1) <= |image|
  {
    var word := FilterWord(image, x, x.WordOfBit(h) % (x.mask + 1));
    Bit(word, x.BitInWord(h)) && Bit(word, x.BitInWord(Shr(h, x.shift2)))
  }

  /** The lookup's test, with a mask for the remainder and one word for both bits. */
  lemma FilterTest(image: seq<Word>, x: GnuIndex, h: nat, k: nat)
    requires x.Filter(x.mask + 1) <= |image| && x.mask + 1 == Pow2(k)
    ensures var n := And(x.WordOfBit(h), x.mask);
      && n <= x.mask
      && var word := FilterWord(image, x, n);
         And(And(1, Shr(word, x.BitInWord(h))), Shr(word, x.BitInWord(Shr(h, x.shift2)))) != 0
         <==> InFilter(image, x, h)
  {
    MaskIsMod(x.WordOfBit(h), k);
    var word := FilterWord(image, x, And(x.WordOfBit(h), x.mask));
    BothBits(word, x.BitInWord(h), x.BitInWord(Shr(h, x.shift2)));
  }

  function ChainWord(image: seq<Word>, x: GnuIndex, n: nat): Word
    requires 0 <= x.chain + n < |image|
  {
    image[x.chain + n]
  }

  function Bucket(image: seq<Word>, x: GnuIndex, h: nat): Word
    requires x.nbucket > 0 && x.bucket + x.nbucket <= |image|
  {
    image[x.bucket + h % x.nbucket]
  }

  /** The section lies in the image, filter, buckets and chain words one after the other. */
  ghost predicate GnuLayout(image: seq<Word>, x: GnuIndex, count: nat) {
    && (x.bits == 32 || x.bits == 64) && x.shift2 < 32 && x.nbucket > 0
    && (exists k: nat :: x.mask + 1 == Pow2(k))
    && x.Filter(x.mask + 1) == x.bucket
    && 1 <= x.FirstHashed() <= count && x.chain + count <= |image|
  }

  /** The symbols from the first hashed one on are in the filter and on the chain of their bucket. */
  ghost predicate GnuTable(image: seq<Word>, x: GnuIndex, syms: seq<Sym>, strings: seq<Byte>) {
    && GnuLayout(image, x, |syms|)
    && (forall i :: x.FirstHashed() <= i < |syms| ==> Hashed(image, x, i, GnuHashOf(NameOf(syms[i], strings))))
    && (forall h: nat :: Bucket(image, x, h) == 0 || x.FirstHashed() <= Bucket(image, x, h) < |syms|)
    && (if x.FirstHashed() < |syms| then ChainWord(image, x, |syms| - 1) % 2 == 1
        else forall n: nat :: n <= x.mask ==> FilterWord(image, x, n) == 0)
    && syms[0].value == 0
  }

  /** No end mark comes between `start` and symbol `i`, whose chain word is `h` but for the mark. */
  predicate OnChain(image: seq<Word>, x: GnuIndex, start: nat, i: nat, h: nat)
    requires x.FirstHashed() <= start && x.FirstHashed() <= i && x.chain + i < |image|
  {
    && start <= i && ChainWord(image, x, i) / 2 == h / 2
    && forall j :: start <= j < i ==> ChainWord(image, x, j) % 2 == 0
  }

  /** Symbol `i` with hash `h` passes the filter and lies on the chain of its bucket. */
  ghost predicate Hashed(image: seq<Word>, x: GnuIndex, i: nat, h: nat)
    requires GnuLayout(image, x, i + 1) && x.FirstHashed() <= i
  {
    && InFilter(image, x, h)
    && x.FirstHashed() <= Bucket(image, x, h)
    && OnChain(image, x, Bucket(image, x, h), i, h)
  }

  /** What the lookup by GNU hash takes for granted about symbols that are not hashed. */
  predicate OnlyHashedDefined(x: GnuIndex, syms: seq<Sym>) {
    forall i :: 1 <= i < x.FirstHashed() && i < |syms| ==> syms[i].value == 0
  }

  lemma {:induction false} NoBits(k: nat)
    ensures !Bit(0, k)
  {
    if k > 0 {
      NoBits(k - 1);
    }
  }

  /** Without hashed symbols the filter lets nothing through. */
  lemma EmptyFilter(image: seq<Word>, x: GnuIndex, syms: seq<Sym>, strings: seq<Byte>, h: nat)
    requires GnuTable(image, x, syms, strings) && x.FirstHashed() == |syms|
    ensures !InFilter(image, x, h)
  {
    NoBits(x.BitInWord(h));
  }

  // ----- the answers of the two lookups

  /**
   The one situation in which the lookup reads outside the image: a name that passes the filter
   and belongs to an empty bucket, whose walk starts with a chain word that does not exist.
   */
  ghost predicate WalksOff(image: seq<Word>, x: GnuIndex, symbol: seq<Byte>)
    requires x.Filter(x.mask + 1) <= |image| && x.nbucket > 0 && x.bucket + x.nbucket <= |image|
  {
    var h := GnuHashOf(symbol);
    InFilter(image, x, h) && Bucket(image, x, h) == 0 && x.chain < 0
  }

  /** `value` is that of a symbol with this name, or 0 and no symbol from `first` on has it. */
  ghost predicate Answers(syms: seq<Sym>, strings: seq<Byte>, symbol: seq<Byte>, first: int, value: nat) {
    || (exists i :: 1 <= i < |syms| && NameOf(syms[i], strings) == symbol && syms[i].value == value)
    || (value == 0 && forall i :: 0 <= i < |syms| && first <= i ==> NameOf(syms[i], strings) != symbol)
  }

  /**
   With unique names, and nothing but zero values before the first indexed symbol, an answer is
   what a linear search of the symbol table finds.
   */
  lemma AnswerIsSearch(syms: seq<Sym>, strings: seq<Byte>, symbol: seq<Byte>, first: int, value: nat)
    requires UniqueNames(syms, strings) && 1 <= first
    requires forall i :: 1 <= i < first && i < |syms| ==> syms[i].value == 0
    requires Answers(syms, strings, symbol, first, value)
    ensures value == Search(syms, strings, symbol, 1)
  {
    if i :| 1 <= i < |syms| && NameOf(syms[i], strings) == symbol {
      SearchFinds(syms, strings, i, 1);
    } else {
      SearchMisses(syms, strings, symbol, 1);
    }
  }

  /** The two indexes of one symbol table cannot give different answers. */
  lemma AnswersAgree(syms: seq<Sym>, strings: seq<Byte>, symbol: seq<Byte>, first: int, sysv: nat, gnu: nat)
    requires UniqueNames(syms, strings) && 1 <= first
    requires forall i :: 1 <= i < first && i < |syms| ==> syms[i].value == 0
    requires Answers(syms, strings, symbol, 1, sysv) && Answers(syms, strings, symbol, first, gnu)
    ensures sysv == gnu
  {
    AnswerIsSearch(syms, strings, symbol, 1, sysv);
    AnswerIsSearch(syms, strings, symbol, first, gnu);
  }

  // ----- the section headers

  datatype SectionType = DynsymType | StrtabType | SymtabType | HashType | ProgbitsType | OtherType

  /** The names that matter: ".dynstr", ".strtab" and ".gnu.hash". */
  datatype SectionName = DynstrName | StrtabName | GnuHashName | OtherName

  /**
   A section header: `inFile` is whether the section ends within the file, `start` the word it
   starts at, `syms` and `chars` what lies there if it is read as symbols or as strings.
   */
  datatype Section = Section(
    ty: SectionType, name: SectionName, size: nat, entsize: nat, inFile: bool, start: nat,
    syms: seq<Sym>, chars: seq<Byte>)
  {
    function Symbols(): Option<seq<Sym>> {
      if inFile then Some(syms) else None
    }

    function Characters(): Option<seq<Byte>> {
      if inFile then Some(chars) else None
    }

    /** The number of entries, which is taken from the header even if the table is not in the file. */
    function Count(): nat
      requires entsize > 0
    {
      size / entsize
    }
  }

  /** What each of the reader's tables is taken from; a hash section beyond the file is ignored. */
  datatype Table = Dynsym | Dynstr | Strtab | Symtab | SysvHashSection | GnuHashSection

  predicate Supplies(s: Section, t: Table) {
    && s.size > 0
    && match t
       case Dynsym => s.ty == DynsymType
       case Dynstr => s.ty == StrtabType && s.name == DynstrName
       case Strtab => s.ty == StrtabType && s.name == StrtabName
       case Symtab => s.ty == SymtabType
       case SysvHashSection => s.ty == HashType && s.inFile
       case GnuHashSection => s.ty == OtherType && s.name == GnuHashName && s.inFile
  }

  /** The last of the first `n` sections that supplies the table. */
  function Last(sections: seq<Section>, n: nat, t: Table): (r: Option<nat>)
    requires n <= |sections|
    ensures match r
      case Some(i) =>
        i < n && Supplies(sections[i], t) && forall j :: i < j < n ==> !Supplies(sections[j], t)
      case None => forall j :: 0 <= j < n ==> !Supplies(sections[j], t)
  {
    if n == 0 then None
    else if Supplies(sections[n - 1], t) then Some(n - 1)
    else Last(sections, n - 1, t)
  }

  /** The scan divides by an entry size of zero, or reads the head of a hash section beyond the file. */
  predicate Faults(s: Section, image: seq<Word>) {
    || (Supplies(s, Symtab) && s.entsize == 0)
    || (Supplies(s, SysvHashSection) && s.start + 2 > |image|)
    || (Supplies(s, GnuHashSection) && s.start + 4 > |image|)
  }

  function CountOf(s: Section, image: seq<Word>): nat
    requires Supplies(s, Symtab) && !Faults(s, image)
  {
    s.Count()
  }

  function SysvOf(s: Section, image: seq<Word>): SysvIndex
    requires Supplies(s, SysvHashSection) && !Faults(s, image)
  {
    SysvAt(image, s.start)
  }

  function GnuOf(s: Section, image: seq<Word>, bits: nat): GnuIndex
    requires Supplies(s, GnuHashSection) && !Faults(s, image)
  {
    GnuAt(image, bits, s.start)
  }

  /** Everything the reader takes from the section headers. */
  datatype Tables = Tables(
    dynsym: Option<seq<Sym>>, dynstr: Option<seq<Byte>>, strtab: Option<seq<Byte>>,
    symtab: Option<seq<Sym>>, symtabEntCount: nat, sysv: Option<SysvIndex>, gnu: Option<GnuIndex>)

  /** The tables after one more section header. */
  function Added(b: Tables, s: Section, image: seq<Word>, bits: nat): Tables
    requires !Faults(s, image)
  {
    Tables(
      if Supplies(s, Dynsym) then s.Symbols() else b.dynsym,
      if Supplies(s, Dynstr) then s.Characters() else b.dynstr,
      if Supplies(s, Strtab) then s.Characters() else b.strtab,
      if Supplies(s, Symtab) then s.Symbols() else b.symtab,
      if Supplies(s, Symtab) then CountOf(s, image) else b.symtabEntCount,
      if Supplies(s, SysvHashSection) then Some(SysvOf(s, image)) else b.sysv,
      if Supplies(s, GnuHashSection) then Some(GnuOf(s, image, bits)) else b.gnu)
  }

  /** Every table is taken from the last section of its kind among the first `n`, or as it was before. */
  function Scanned(b: Tables, sections: seq<Section>, n: nat, image: seq<Word>, bits: nat): Tables
    requires n <= |sections| && forall i :: 0 <= i < n ==> !Faults(sections[i], image)
  {
    Tables(
      match Last(sections, n, Dynsym) case Some(i) => sections[i].Symbols() case None => b.dynsym,
      match Last(sections, n, Dynstr) case Some(i) => sections[i].Characters() case None => b.dynstr,
      match Last(sections, n, Strtab) case Some(i) => sections[i].Characters() case None => b.strtab,
      match Last(sections, n, Symtab) case Some(i) => sections[i].Symbols() case None => b.symtab,
      match Last(sections, n, Symtab) case Some(i) => CountOf(sections[i], image) case None => b.symtabEntCount,
      match Last(sections, n, SysvHashSection)
        case Some(i) => Some(SysvOf(sections[i], image))
        case None => b.sysv,
      match Last(sections, n, GnuHashSection)
        case Some(i) => Some(GnuOf(sections[i], image, bits))
        case None => b.gnu)
  }

  /** Adding the next section to what the first ones gave. */
  lemma ScannedNext(b: Tables, sections: seq<Section>, n: nat, image: seq<Word>, bits: nat)
    requires n < |sections| && forall i :: 0 <= i < n ==> !Faults(sections[i], image)
    requires !Faults(sections[n], image)
    ensures forall i :: 0 <= i < n + 1 ==> !Faults(sections[i], image)
    ensures Scanned(b, sections, n + 1, image, bits)
      == Added(Scanned(b, sections, n, image, bits), sections[n], image, bits)
  {
  }

  const ELF_MAGIC: Word := 0x464C_457F

  predicate IsElf(image: seq<Word>) {
    image != [] && image[0] == ELF_MAGIC
  }

  // ----- the reader

  /** How reading the section headers ends. */
  datatype Loaded = NotLoaded | Fault | Ready

  /** The size of an address. */
  type AddressBits = b: nat | b == 32 || b == 64 witness 32

  /** What a lookup returns; `OutsideImage` stands for a read outside the mapped file or through null. */
  datatype Found = OutsideImage | Null | At(address: nat)

  /** The symbol table that is searched in the end; the number of entries does not come with it. */
  datatype SymbolTable = SymbolTable(entries: Option<seq<Sym>>, count: nat, names: Option<seq<Byte>>)
  {
    predicate Present(i: nat) {
      entries.Some? && i < |entries.value|
    }

    predicate Typed(i: nat)
      requires Present(i)
    {
      entries.value[i].info % 16 == STT_FUNC || entries.value[i].info % 16 == STT_OBJECT
    }

    /** Nothing that looking at entry `i` takes is missing. */
    predicate Readable(i: nat) {
      Present(i) && (Typed(i) ==> names.Some?)
    }

    /** Entry `i` is a function or object with this name. */
    predicate Hit(i: nat, symbol: seq<Byte>) {
      Readable(i) && Typed(i) && NameOf(entries.value[i], names.value) == symbol
    }
  }

  /** What the first entry from `i` on decides that is a hit or cannot be read. */
  function SearchSymtab(t: SymbolTable, symbol: seq<Byte>, i: nat): Found
    decreases t.count - i
  {
    if i >= t.count then Null
    else if !t.Readable(i) then OutsideImage
    else if t.Hit(i, symbol) then At(t.entries.value[i].value)
    else SearchSymtab(t, symbol, i + 1)
  }

  /** Some entry cannot be read, and there is no hit before it. */
  predicate FaultFirst(t: SymbolTable, symbol: seq<Byte>, i: nat) {
    exists j :: i <= j < t.count && !t.Readable(j) && forall l :: i <= l < j ==> !t.Hit(l, symbol)
  }

  lemma {:induction false} SearchSymtabFaults(t: SymbolTable, symbol: seq<Byte>, i: nat)
    ensures SearchSymtab(t, symbol, i) == OutsideImage <==> FaultFirst(t, symbol, i)
    ensures SearchSymtab(t, symbol, i) == Null
      <==> forall j :: i <= j < t.count ==> t.Readable(j) && !t.Hit(j, symbol)
    decreases t.count - i
  {
    if i < t.count && t.Readable(i) && !t.Hit(i, symbol) {
      SearchSymtabFaults(t, symbol, i + 1);
    }
  }

  /** An entry of type object, 1, or function, 2, with this name. */
  predicate IsNamed(s: Sym, strings: seq<Byte>, symbol: seq<Byte>) {
    (s.info % 16 == 1 || s.info % 16 == 2) && CString(strings, s.name) == symbol
  }

  predicate IsFirstNamed(syms: seq<Sym>, strings: seq<Byte>, symbol: seq<Byte>, i: nat) {
    && i < |syms| && IsNamed(syms[i], strings, symbol)
    && forall j :: 0 <= j < i ==> !IsNamed(syms[j], strings, symbol)
  }

  /** An address comes from the first function or object with the name. */
  lemma {:induction false} SearchSymtabFinds(t: SymbolTable, symbol: seq<Byte>, i: nat)
    requires forall j :: 0 <= j < i && t.Present(j) && t.names.Some? ==>
      !IsNamed(t.entries.value[j], t.names.value, symbol)
    ensures SearchSymtab(t, symbol, i).At? ==>
      && t.entries.Some? && t.names.Some?
      && exists k :: 0 <= k < t.count && IsFirstNamed(t.entries.value, t.names.value, symbol, k)
           && SearchSymtab(t, symbol, i).address == t.entries.value[k].value
    ensures SearchSymtab(t, symbol, i) == Null && t.names.Some? ==>
      forall k :: 0 <= k < t.count && t.Present(k) ==> !IsNamed(t.entries.value[k], t.names.value, symbol)
    decreases t.count - i
  {
    if i < t.count && t.Readable(i) {
      if t.Hit(i, symbol) {
        assert IsFirstNamed(t.entries.value, t.names.value, symbol, i);
      } else {
        SearchSymtabFinds(t, symbol, i + 1);
      }
    }
  }

  /**
   With as many entries as are counted: the search goes wrong exactly if there are entries, and the
   table is not in the file, or there are no names and some entry is a function or object.
   */
  lemma WholeSymtabFaults(t: SymbolTable, symbol: seq<Byte>)
    requires t.entries.Some? ==> t.count <= |t.entries.value|
    ensures SearchSymtab(t, symbol, 0) == OutsideImage
      <==> t.count > 0 && (t.entries == None || (t.names == None && exists i :: 0 <= i < t.count && t.Typed(i)))
  {
    SearchSymtabFaults(t, symbol, 0);
    if t.entries.None? && t.count > 0 {
      assert !t.Readable(0);
    } else if t.names.None? {
      forall i | 0 <= i < t.count && t.Typed(i)
        ensures !t.Readable(i)
      {
      }
    }
  }

  class ElfReader {
    /** The mapped file, and the size of an address in bits. */
    const image: seq<Word>
    const addressBits: AddressBits

    var dynsym: Option<seq<Sym>>
    var dynstr: Option<seq<Byte>>
    var symtab: Option<seq<Sym>>
    var symtabEntCount: nat
    var strtab: Option<seq<Byte>>
    var elfHash: SysvIndex
    var hasElfHash: bool
    var gnuHash: GnuIndex
    var hasGnuHash: bool

    constructor (image: seq<Word>, addressBits: AddressBits)
      ensures this.image == image && this.addressBits == addressBits
      ensures !hasElfHash && !hasGnuHash && dynsym == None && dynstr == None
      ensures symtab == None && symtabEntCount == 0 && strtab == None
    {
      this.image, this.addressBits := image, addressBits;
      dynsym, dynstr, symtab, symtabEntCount, strtab := None, None, None, 0, None;
      elfHash, hasElfHash := SysvIndex(0, 0, 0, 0), false;
      gnuHash, hasGnuHash := GnuIndex(addressBits, 0, 0, 0, 0, 0, 0), false;
    }

    /**
     `section` is the word at which the section starts, if it ends within the file.  The result is
     whether the words that are read lie in the file.
     */
    method BuildHash(section: Option<nat>) returns (ok: bool)
      modifies this`elfHash, this`hasElfHash
      ensures ok <==> section.Some? ==> section.value + 2 <= |image|
      ensures ok && section.Some? ==> hasElfHash && elfHash == SysvAt(image, section.value)
      ensures !ok || section.None? ==> elfHash == old(elfHash) && hasElfHash == old(hasElfHash)
    {
      if section.None? {
        return true;
      }
      var s := section.value;
      if s + 2 > |image| {
        return false;
      }
      elfHash := SysvIndex(image[s], image[s + 1], s + 2, s + 2 + image[s]);
      hasElfHash := true;
      return true;
    }

    method BuildGnuHash(section: Option<nat>) returns (ok: bool)
      modifies this`gnuHash, this`hasGnuHash
      ensures ok <==> section.Some? ==> section.value + 4 <= |image|
      ensures ok && section.Some? ==> hasGnuHash && gnuHash == GnuAt(image, addressBits, section.value)
      ensures !ok || section.None? ==> gnuHash == old(gnuHash) && hasGnuHash == old(hasGnuHash)
    {
      if section.None? {
        return true;
      }
      var s := section.value;
      if s + 4 > |image| {
        return false;
      }
      var maskwords: nat := image[s + 2];
      var bloom := s + 4;
      var bucket := bloom + if addressBits == 32 then maskwords else 2 * maskwords;
      var chain := bucket + image[s] - image[s + 1];
      var mask := if maskwords == 0 then WORD - 1 else maskwords - 1;
      gnuHash := GnuIndex(addressBits, image[s], mask, image[s + 3], bloom, bucket, chain);
      hasGnuHash := true;
      return true;
    }

    ghost function Snapshot(): Tables
      reads this
    {
      Tables(dynsym, dynstr, strtab, symtab, symtabEntCount,
             if hasElfHash then Some(elfHash) else None, if hasGnuHash then Some(gnuHash) else None)
    }

    /** `headers` are the section headers, if they and the section names lie in the file. */
    method Init(headers: Option<seq<Section>>) returns (r: Loaded)
      modifies this
      ensures r == NotLoaded <==> !IsElf(image) || headers.None?
      ensures r == Fault
        <==> IsElf(image) && headers.Some? && exists i :: 0 <= i < |headers.value| && Faults(headers.value[i], image)
      ensures r == Ready ==>
        Snapshot() == Scanned(old(Snapshot()), headers.value, |headers.value|, image, addressBits)
    {
      if !IsElf(image) || headers.None? {
        return NotLoaded;
      }
      var ok := ScanSections(headers.value);
      return if ok then Ready else Fault;
    }

    method ScanSections(sections: seq<Section>) returns (ok: bool)
      modifies this
      ensures ok <==> forall i :: 0 <= i < |sections| ==> !Faults(sections[i], image)
      ensures ok ==> Snapshot() == Scanned(old(Snapshot()), sections, |sections|, image, addressBits)
    {
      ghost var before := Snapshot();
      for index := 0 to |sections|
        invariant forall i :: 0 <= i < index ==> !Faults(sections[i], image)
        invariant Snapshot() == Scanned(before, sections, index, image, addressBits)
      {
        var section := sections[index];
        var fine := AddSection(section);
        if !fine {
          return false;
        }
        ScannedNext(before, sections, index, image, addressBits);
      }
      return true;
    }

    /** One section header; the result is whether handling it goes well. */
    method AddSection(s: Section) returns (ok: bool)
      modifies this
      ensures ok <==> !Faults(s, image)
      ensures ok ==> Snapshot() == Added(old(Snapshot()), s, image, addressBits)
    {
      if s.size == 0 {
        return true;
      }
      ok := true;
      match s.ty {
        case DynsymType => dynsym := s.Symbols();
        case StrtabType =>
          if s.name == DynstrName {
            dynstr := s.Characters();
          } else if s.name == StrtabName {
            strtab := s.Characters();
          }
        case SymtabType =>
          symtab := s.Symbols();
          if s.entsize == 0 {
            return false;
          }
          symtabEntCount := s.size / s.entsize;
        case HashType => ok := BuildHash(if s.inFile then Some(s.start) else None);
        case ProgbitsType =>
        case OtherType =>
          if s.name == GnuHashName {
            ok := BuildGnuHash(if s.inFile then Some(s.start) else None);
          }
      }
    }

    ghost predicate SysvReady()
      reads this
    {
      hasElfHash && dynsym.Some? && dynstr.Some? ==>
        exists paths :: SysvTable(image, elfHash, dynsym.value, dynstr.value, paths)
    }

    ghost predicate GnuReady()
      reads this
    {
      hasGnuHash && dynsym.Some? && dynstr.Some? ==>
        GnuTable(image, gnuHash, dynsym.value, dynstr.value)
    }

    method LookupByElfHash(symbol: seq<Byte>) returns (value: nat)
      requires SysvReady()
      ensures if hasElfHash && dynsym.Some? && dynstr.Some?
        then Answers(dynsym.value, dynstr.value, symbol, 1, value) else value == 0
    {
      if !hasElfHash || dynsym.None? || dynstr.None? {
        return 0;
      }
      var syms, strings := dynsym.value, dynstr.value;
      ghost var paths :| SysvTable(image, elfHash, syms, strings, paths);
      var hash := ElfHash(symbol);
      SysvHashIsAbi(symbol);
      var bucket := hash % elfHash.nbucket;
      assert IsChain(image, elfHash, image[elfHash.bucket + bucket], paths[bucket]);
      value := WalkSysvChain(elfHash, syms, strings, symbol, image[elfHash.bucket + bucket], paths[bucket]);
    }

    /** The walk from symbol to symbol along `path`, up to one with the name. */
    method WalkSysvChain(x: SysvIndex, syms: seq<Sym>, strings: seq<Byte>, symbol: seq<Byte>, start: nat,
                         ghost path: seq<nat>)
      returns (value: nat)
      requires x.nchain == |syms| && IsChain(image, x, start, path)
      ensures
        || (exists i :: 1 <= i < |syms| && NameOf(syms[i], strings) == symbol && syms[i].value == value)
        || (value == 0 && forall i :: 1 <= i < |syms| && i in path ==> NameOf(syms[i], strings) != symbol)
    {
      var n: nat := start;
      ghost var k := 0;
      ChainInRange(image, x, n, path);
      while n != 0
        invariant 0 <= k <= |path| && IsChain(image, x, n, path[k..])
        invariant forall j :: 0 <= j < k ==> NameOf(syms[path[j]], strings) != symbol
        decreases |path| - k
      {
        assert path[k..][0] == path[k] && path[k..][1..] == path[k + 1..];
        var sym := syms[n];
        if CString(strings, sym.name) == symbol {
          return sym.value;
        }
        n := image[x.chain + n];
        k := k + 1;
      }
      return 0;
    }

    /** `None` stands for a read outside the image. */
    method LookupByGnuHash(symbol: seq<Byte>) returns (r: Option<nat>)
      requires GnuReady()
      ensures if hasGnuHash && dynsym.Some? && dynstr.Some?
        then (r.None? <==> WalksOff(image, gnuHash, symbol))
          && (r.Some? ==> Answers(dynsym.value, dynstr.value, symbol, gnuHash.FirstHashed(), r.value))
        else r == Some(0)
    {
      if !hasGnuHash || dynsym.None? || dynstr.None? {
        return Some(0);
      }
      var syms, strings, x := dynsym.value, dynstr.value, gnuHash;
      var hash := GnuHash(symbol);
      FilterTestHolds(image, x, hash);
      var wordNum := And(x.WordOfBit(hash), x.mask);
      var bloomWord := FilterWord(image, x, wordNum);
      var h1 := x.BitInWord(hash);
      var h2 := x.BitInWord(Shr(hash, x.shift2));
      if And(And(1, Shr(bloomWord, h1)), Shr(bloomWord, h2)) == 0 {
        Rejected(image, x, syms, strings, symbol);
        return Some(0);
      }
      WalkStarts(image, x, syms, strings, symbol);
      var start := image[x.bucket + hash % x.nbucket];
      r := WalkChain(x, syms, strings, symbol, hash, start);
    }

    /** The walk over the chain words, which ends at the first one with its lowest bit set. */
    method WalkChain(x: GnuIndex, syms: seq<Sym>, strings: seq<Byte>, symbol: seq<Byte>, hash: Word, start: nat)
      returns (r: Option<nat>)
      requires x.chain + |syms| <= |image| && 1 <= x.FirstHashed() < |syms| && syms[0].value == 0
      requires start == 0 || x.FirstHashed() <= start < |syms|
      requires ChainWord(image, x, |syms| - 1) % 2 == 1
      requires forall i :: x.FirstHashed() <= i < |syms| && NameOf(syms[i], strings) == symbol ==>
          start > 0 && OnChain(image, x, start, i, hash)
      ensures r.None? <==> start == 0 && x.chain < 0
      ensures r.Some? ==> Answers(syms, strings, symbol, x.FirstHashed(), r.value)
    {
      var n := start;
      while true
        invariant start <= n < |syms| && (start == 0 && n > 0 ==> x.chain >= 0)
        invariant forall i :: x.FirstHashed() <= i < |syms| && NameOf(syms[i], strings) == symbol ==> n <= i
        decreases |syms| - n
      {
        if !(0 <= x.chain + n < |image|) {
          return None;
        }
        var sym, word := syms[n], image[x.chain + n];
        XorIgnoresLowBit(word, hash);
        if Shr(Xor(word, hash), 1) == 0 && CString(strings, sym.name) == symbol {
          return Some(sym.value);
        }
        LowBit(word);
        assert ChainWord(image, x, n) == word;
        n := n + 1;
        if And(word, 1) != 0 {
          break;
        }
      }
      return Some(0);
    }

    /** The hash table in use covers a symbol table in which a name means one symbol. */
    ghost predicate Indexed()
      reads this
    {
      && dynsym.Some? && dynstr.Some? && UniqueNames(dynsym.value, dynstr.value)
      && if hasGnuHash then OnlyHashedDefined(gnuHash, dynsym.value) else hasElfHash
    }

    function FallbackTable(): SymbolTable
      reads this
    {
      SymbolTable(symtab, symtabEntCount, strtab)
    }

    ghost predicate ReadsOff(symbol: seq<Byte>)
      requires GnuReady()
      reads this
    {
      hasGnuHash && dynsym.Some? && dynstr.Some? && WalksOff(image, gnuHash, symbol)
    }

    /**
     `dyn` is what the dynamic symbols give, where `None` stands for a read outside the image.  A
     value other than 0 decides; otherwise the symbol table does, unless it is excluded.
     */
    method LookupSymbol(symbol: Option<seq<Byte>>, loadBase: nat, onlyDynsym: bool)
      returns (r: Found, ghost dyn: Option<nat>)
      requires SysvReady() && GnuReady()
      ensures symbol.None? ==> r == Null
      ensures symbol.Some? ==>
        && (dyn.None? <==> ReadsOff(symbol.value))
        && (dyn.Some? && Indexed() ==> dyn.value == Search(dynsym.value, dynstr.value, symbol.value, 1))
        && (dynsym.None? || dynstr.None? || (!hasGnuHash && !hasElfHash) ==> dyn == Some(0))
        && r == Resolve(dyn, FallbackTable(), symbol.value, loadBase, onlyDynsym, addressBits)
      ensures symbol.Some? ==> (r == OutsideImage <==>
        dyn.None? || (dyn.value == 0 && !onlyDynsym && FaultFirst(FallbackTable(), symbol.value, 0)))
      ensures symbol.Some? ==>
        AddressComesOut(r, dyn, FallbackTable(), symbol.value, loadBase, onlyDynsym, addressBits)
    {
      if symbol.None? {
        return Null, None;
      }
      SearchSymtabFaults(FallbackTable(), symbol.value, 0);
      var value := LookupDynsym(symbol.value);
      dyn := value;
      if value.None? {
        r := OutsideImage;
      } else if value.value != 0 {
        r := At((loadBase + value.value) % Span(addressBits));
      } else if onlyDynsym {
        r := Null;
      } else {
        r := LookupSymtab(symbol.value);
        r := Relocated(r, loadBase, addressBits);
      }
      ResolveComesOut(dyn, FallbackTable(), symbol.value, loadBase, onlyDynsym, addressBits);
    }

    /** The lookup among the dynamic symbols, by GNU hash if there is such a section. */
    method LookupDynsym(symbol: seq<Byte>) returns (r: Option<nat>)
      requires SysvReady() && GnuReady()
      ensures r.None? <==> ReadsOff(symbol)
      ensures r.Some? && Indexed() ==> r.value == Search(dynsym.value, dynstr.value, symbol, 1)
      ensures dynsym.None? || dynstr.None? || (!hasGnuHash && !hasElfHash) ==> r == Some(0)
    {
      if hasGnuHash {
        r := LookupByGnuHash(symbol);
      } else {
        var value := LookupByElfHash(symbol);
        r := Some(value);
      }
      ghost var first := if hasGnuHash then gnuHash.FirstHashed() else 1;
      if r.Some? && Indexed() {
        AnswerIsSearch(dynsym.value, dynstr.value, symbol, first, r.value);
      }
    }

    method LookupSymtab(symbol: seq<Byte>) returns (r: Found)
      ensures r == SearchSymtab(FallbackTable(), symbol, 0)
    {
      for index := 0 to symtabEntCount
        invariant SearchSymtab(FallbackTable(), symbol, index) == SearchSymtab(FallbackTable(), symbol, 0)
      {
        if symtab.None? || index >= |symtab.value| {
          return OutsideImage;
        }
        var sym := symtab.value[index];
        if sym.info % 16 != STT_FUNC && sym.info % 16 != STT_OBJECT {
          continue;
        }
        if strtab.None? {
          return OutsideImage;
        }
        if CString(strtab.value, sym.name) == symbol {
          return At(sym.value);
        }
      }
      return Null;
    }
  }

  function Relocated(r: Found, loadBase: nat, addressBits: nat): Found {
    if r.At? then At((loadBase + r.address) % Span(addressBits)) else r
  }

  /** The answer once the dynamic symbols gave `dyn`. */
  function Resolve(
    dyn: Option<nat>, t: SymbolTable, symbol: seq<Byte>, loadBase: nat, onlyDynsym: bool, addressBits: nat): Found
  {
    if dyn.None? then OutsideImage
    else if dyn.value != 0 then Relocated(At(dyn.value), loadBase, addressBits)
    else if onlyDynsym then Null
    else Relocated(SearchSymtab(t, symbol, 0), loadBase, addressBits)
  }

  /** The number of addresses; sums of addresses wrap around at it. */
  function Span(addressBits: nat): (n: nat)
    ensures n > 0
  {
    if addressBits == 32 then WORD else WORD * WORD
  }

  /**
   The address that a lookup returns: the load base plus the value from the dynamic symbols, if that
   is not 0, and otherwise plus the value of the first function or object with the name; sums wrap
   around at the size of an address.
   */
  predicate AddressComesOut(
    r: Found, dyn: Option<nat>, t: SymbolTable, symbol: seq<Byte>, loadBase: nat, onlyDynsym: bool, bits: AddressBits)
  {
    var span := if bits == 32 then 0x1_0000_0000 else 0x1_0000_0000_0000_0000;
    && (dyn.Some? && dyn.value != 0 ==> r == At((loadBase + dyn.value) % span))
    && (dyn.Some? && dyn.value != 0 && loadBase + dyn.value < span ==> r == At(loadBase + dyn.value))
    && (dyn == Some(0) && r.At? ==>
          && !onlyDynsym && t.entries.Some? && t.names.Some?
          && exists i :: 0 <= i < t.count && IsFirstNamed(t.entries.value, t.names.value, symbol, i)
               && r.address == (loadBase + t.entries.value[i].value) % span)
    && (dyn == Some(0) && r == Null && !onlyDynsym && t.entries.Some? && t.names.Some? ==>
          forall i :: 0 <= i < t.count && i < |t.entries.value| ==>
            !IsNamed(t.entries.value[i], t.names.value, symbol))
  }

  lemma ResolveComesOut(
    dyn: Option<nat>, t: SymbolTable, symbol: seq<Byte>, loadBase: nat, onlyDynsym: bool, bits: AddressBits)
    ensures AddressComesOut(
      Resolve(dyn, t, symbol, loadBase, onlyDynsym, bits), dyn, t, symbol, loadBase, onlyDynsym, bits)
  {
    SearchSymtabFinds(t, symbol, 0);
  }

  lemma FilterTestHolds(image: seq<Word>, x: GnuIndex, h: nat)
    requires x.Filter(x.mask + 1) <= |image| && exists k: nat :: x.mask + 1 == Pow2(k)
    ensures var n := And(x.WordOfBit(h), x.mask);
      && n <= x.mask
      && var word := FilterWord(image, x, n);
         And(And(1, Shr(word, x.BitInWord(h))), Shr(word, x.BitInWord(Shr(h, x.shift2)))) != 0
         <==> InFilter(image, x, h)
  {
    var k: nat :| x.mask + 1 == Pow2(k);
    FilterTest(image, x, h, k);
  }

  /** A hashed name is never rejected. */
  lemma Rejected(image: seq<Word>, x: GnuIndex, syms: seq<Sym>, strings: seq<Byte>, symbol: seq<Byte>)
    requires GnuTable(image, x, syms, strings) && !InFilter(image, x, GnuHashOf(symbol))
    ensures Answers(syms, strings, symbol, x.FirstHashed(), 0)
  {
    forall i | x.FirstHashed() <= i < |syms|
      ensures NameOf(syms[i], strings) != symbol
    {
      assert Hashed(image, x, i, GnuHashOf(NameOf(syms[i], strings)));
    }
  }

  /** What the walk can rely on for a name that passes the filter. */
  lemma WalkStarts(image: seq<Word>, x: GnuIndex, syms: seq<Sym>, strings: seq<Byte>, symbol: seq<Byte>)
    requires GnuTable(image, x, syms, strings) && InFilter(image, x, GnuHashOf(symbol))
    ensures var hash, start := GnuHashOf(symbol), Bucket(image, x, GnuHashOf(symbol));
      && x.FirstHashed() < |syms| && ChainWord(image, x, |syms| - 1) % 2 == 1
      && (start == 0 || x.FirstHashed() <= start < |syms|)
      && forall i :: x.FirstHashed() <= i < |syms| && NameOf(syms[i], strings) == symbol ==>
           x.FirstHashed() <= start && OnChain(image, x, start, i, hash)
  {
    var hash, start := GnuHashOf(symbol), Bucket(image, x, GnuHashOf(symbol));
    SomeHashed(image, x, syms, strings, hash);
    forall i | x.FirstHashed() <= i < |syms| && NameOf(syms[i], strings) == symbol
      ensures x.FirstHashed() <= start && OnChain(image, x, start, i, hash)
    {
      assert Hashed(image, x, i, GnuHashOf(NameOf(syms[i], strings)));
    }
  }

  lemma SomeHashed(image: seq<Word>, x: GnuIndex, syms: seq<Sym>, strings: seq<Byte>, h: nat)
    requires GnuTable(image, x, syms, strings) && InFilter(image, x, h)
    ensures x.FirstHashed() < |syms|
  {
    if x.FirstHashed() == |syms| {
      EmptyFilter(image, x, syms, strings, h);
    }
  }
}