/** Where the words and bits of the hash sections lie in the file, and what a C string is. */
module ElfMeaning {
  import opened Bytes
  import opened Bits
  import opened ElfHashes
  import opened ElfReader

  /** Bit `k` of the number whose lowest 32 bits are word `at` of the file, and so on upwards. */
  predicate FileBit(image: seq<Word>, at: nat, k: nat)
    requires at + k / 32 < |image|
  {
    image[at + k / 32] / Pow2(k % 32) % 2 == 1
  }

  lemma WordBit(image: seq<Word>, x: GnuIndex, at: nat, p: nat, k: nat)
    requires (x.bits == 32 || x.bits == 64) && k < x.bits && x.Filter(p + 1) <= |image|
    requires at == if x.bits == 32 then x.bloom + p else x.bloom + 2 * p
    ensures Bit(FilterWord(image, x, p), k) <==> FileBit(image, at, k)
  {
    ShrIsDiv(image[at + k / 32], k % 32);
    if x.bits == 64 {
      Pow2Values();
      BitOfSum(image[at], image[at + 1], 32, k);
    }
  }

  /**
   A hash passes the filter if and only if two bits are set in one of the filter words, which have
   the size of an address and follow the four words of the header.
   */
  lemma FilterBits(image: seq<Word>, bits: AddressBits, start: nat, h: nat)
    requires start + 4 <= |image| && image[start + 2] > 0
    requires start + 4 + (if bits == 32 then image[start + 2] as int else 2 * image[start + 2] as int) <= |image|
    ensures var x, p := GnuAt(image, bits, start), h / bits % image[start + 2];
      var at := start + 4 + if bits == 32 then p else 2 * p;
      && x.Filter(x.mask + 1) <= |image|
      && (InFilter(image, x, h) <==>
            FileBit(image, at, h % bits) && FileBit(image, at, h / Pow2(image[start + 3]) % bits))
  {
    var x, p := GnuAt(image, bits, start), h / bits % image[start + 2];
    var at := start + 4 + if bits == 32 then p else 2 * p;
    ShrIsDiv(h, image[start + 3]);
    WordBit(image, x, at, p, h % bits);
    WordBit(image, x, at, p, h / Pow2(image[start + 3]) % bits);
  }

  /** Buckets follow the filter, and chain words the buckets, beginning with the first hashed symbol's. */
  lemma GnuWords(image: seq<Word>, bits: AddressBits, start: nat, h: nat, i: nat)
    requires start + 4 <= |image| && image[start] > 0
    ensures var x := GnuAt(image, bits, start);
      var bucket := start + 4 + if bits == 32 then image[start + 2] as int else 2 * image[start + 2] as int;
      && x.FirstHashed() == image[start + 1]
      && (bucket + image[start] <= |image| ==> Bucket(image, x, h) == image[bucket + h % image[start]])
      && (image[start + 1] <= i && bucket + image[start] + i - image[start + 1] < |image| ==>
            ChainWord(image, x, i) == image[bucket + image[start] + i - image[start + 1]])
  {
  }

  /** A file is taken for an ELF file if its first word holds the bytes 0x7F, 'E', 'L' and 'F', lowest first. */
  lemma ElfMark(image: seq<Word>)
    ensures IsElf(image) <==>
      image != [] && image[0] == 0x7F + 256 * ('E' as int + 256 * ('L' as int + 256 * 'F' as int))
  {
  }

  /** The string at an offset has no zero byte and goes up to one, or to the end of the table. */
  lemma {:induction false} CStringEnds(table: seq<Byte>, at: nat)
    requires at <= |table|
    ensures var s := CString(table, at);
      && at + |s| <= |table| && table[at..at + |s|] == s && 0 !in s
      && (at + |s| < |table| ==> table[at + |s|] == 0)
    decreases |table| - at
  {
    if at < |table| && table[at] != 0 {
      CStringEnds(table, at + 1);
      var s := CString(table, at + 1);
      assert table[at..at + 1 + |s|] == [table[at]] + table[at + 1..at + 1 + |s|];
    }
  }
}
