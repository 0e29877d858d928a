# Verification of the app performance monitors

This project models, in Dafny, the parts of the performance-monitoring library whose correctness is
hardest to see, and proves what they are for. `dafny verify dfyconfig.toml` checks everything.

**The heap-dump strip filter** (`Bytes`, `HprofFormat`, `HprofFields`, `HprofStripping`, `HprofMeaning`,
`HprofRefill`, `HprofCapacity`, `Kernel`, `HprofStrip`, `HprofRuns`, `HprofExamples`). A hooked `write` receives one record of an HPROF
file at a time. In a heap segment it drops what belongs to the zygote and image heaps, and cuts the
primitive arrays of the app down to their headers. The class `HprofStrip` parses with indexes, an array
of intervals and a retrying writer, as the original does. It is proved against a transformation of
lists of records (`Stripped`). The transformation in turn is proved to be readable in one way only,
refillable, and correctly accounted for in the length field, over single writes and over whole runs.
`HprofMeaning` says the same in the numbers of the file format, kind by kind.

**The ELF symbol lookup** (`Bits`, `ElfHashes`, `ElfReader`, `ElfMeaning`, `ElfExamples`). The two hash indexes are proved to answer
as a linear search of the symbol table does. Tables lie in an array of 32-bit words; shifts, masks and
exclusive ors are functions on numbers, related to division and remainder by lemmas.

**The main-thread stuck detector** (`StuckQueue`, `StuckProtocol`, `StuckTimes`, `StuckMonitor`). A transition system
with a delay queue: every step keeps an invariant that says, for every looper message, which messages
about it are in the queue. `StuckMonitor` is the printer and the handler, each proved to take a step of it; `StuckTimes` says what is
reported in terms of when looper messages begin and end in the run.

**The out-of-memory monitors** (`OomHysteresis`, `OomScheduler`). When the counting monitors report, in
terms of the whole sequence of samples; and how many instances of each monitor are scheduled.

**The list of all threads** (`ThreadMatching`, `ThreadAssignment`). Tasks of the process are matched with threads
of the virtual machine by name. The greedy matching, its conservation law, how it compares with every other
matching, and the stable sort of the result.

## Where the code and the intention differ

Each of these is proved with a failing input and with the exact condition under which the code does
what is intended.

- The interval list of the filter is long enough for every segment of a given size exactly if that size is
  below 1179675 bytes (`HprofCapacity.CapacityIsExact`). The filter does not check; `HookWriteInternal`
  requires that the intervals fit.
- The lookup by GNU hash has no test for an empty bucket. It reads outside the file exactly if the name
  passes the filter, its bucket is empty and the chain words are numbered from before the start of the file
  (`ElfReader.WalksOff`). `ElfExamples.LookupOffTheFile` goes the whole way to such a read, in any 32-bit file
  with a certain table behind its header. Otherwise an empty bucket is harmless, because the walk only meets
  symbols of value 0 or a real match.
- The reader counts the entries of a symbol table that lies beyond the file, and searches a symbol table
  without names. The lookup then reads through null exactly if the dynamic symbols gave 0, the symbol table is
  not excluded, and an entry that cannot be read comes before any hit (`ElfReader.ElfReader.LookupSymbol`,
  `ElfReader.WholeSymtabFaults`; `ElfExamples.LookupThroughNull`). Reading the section headers goes wrong exactly
  if a symbol table has an entry size of zero or the head of a hash section is not in the file
  (`ElfReader.Faults`).
- With a time limit of zero, the end of a looper message and the handling of its start can fall on the same
  instant, and the message then counts as in time although it met the limit (`StuckProtocol.ZeroLimitTie`).
  The outcomes are exact if and only if the limit is positive (`StuckProtocol.ExactForPositiveLimits`).
- If the monitors are stopped and started, by a listener or by any other thread, while one of them runs, that one
  is scheduled twice from then on (`OomScheduler.RestartInRunDuplicates`). Nothing but creating a handler during
  a run does that (`OomScheduler.InstancesAreExact`).
- For a heap below 192 MB the overflow threshold is a number of MB, but it is compared with a share of the heap. Outside
  strict mode a sample can count as high if and only if the heap has 192 MB or more, or less than 2
  (`OomHysteresis.HighIsReachable`); in between the counting branch is dead (`OomHysteresis.NothingToConfirm`).
- `copy` in the thread list forgets whether a thread is a daemon: the entry is right exactly if the thread is no
  daemon (`ThreadMatching.DaemonIsLost`). It also overwrites the native id: a task keeps it exactly if it takes no
  thread or had the id -1 (`ThreadMatching.NativeIdIsLost`). `ThreadMatching.TakenDaemon` loses both.
- The greedy matching can leave a task native that another matching would serve
  (`ThreadAssignment.GreedyCanMiss`). It serves as many tasks as any other matching, for all tasks and threads with
  names from given sets, if and only if any two of the task names match the same of the thread names or none in
  common (`ThreadAssignment.GreedyIsBestExactly`).

## Model

| member | source | states |
|---|---|---|
| `HprofFormat.SizeByCode` | hprof/hprofclipper/src/main/cpp/hprof_strip.cpp:143-161 | types 4 to 11 have 1, 2, 4 and 8 bytes in turn, an object reference as many as an int, every other type none |
| `HprofFormat.ParseRecordSound` | hprof/hprofclipper/src/main/cpp/hprof_strip.cpp:163-516 | what is read as one record is valid and prints to the bytes that were read |
| `HprofFormat.ParseSound` | hprof/hprofclipper/src/main/cpp/hprof_strip.cpp:163-516 | whatever a segment body is read as, it prints back to the same bytes; reading stops at the end or at an unknown tag |
| `HprofFormat.ParseClassDumpSound` | hprof/hprofclipper/src/main/cpp/hprof_strip.cpp:263-337 | a class dump with its three variable tables is read as the bytes that are there |
| `HprofFormat.ParseClassDumpInverts` | hprof/hprofclipper/src/main/cpp/hprof_strip.cpp:263-337 | reading a printed class dump with any constant pool, static and instance fields gives it back |
| `HprofFormat.ParseRecordInverts` | hprof/hprofclipper/src/main/cpp/hprof_strip.cpp:163-516 | reading any printed record gives it back and ends right behind it |
| `HprofFormat.ParseInverts` | hprof/hprofclipper/src/main/cpp/hprof_strip.cpp:163-516 | reading any printed list of records gives it back, with the unread tail |
| `HprofMeaning.BigEndianWeights` | hprof/hprofclipper/src/main/cpp/hprof_strip.cpp:132-141 | the first byte of a number weighs most |
| `HprofMeaning.RootSizes` | hprof/hprofclipper/src/main/cpp/hprof_strip.cpp:178-245 | which tags are known, and the bytes behind each root and obsolete tag, by the tags' numbers |
| `HprofMeaning.EntryParts` | hprof/hprofclipper/src/main/cpp/hprof_strip.cpp:286-316 | an entry of a constant pool has an index of two bytes, one of a static field table a name of four, and a value of its type's size |
| `HprofMeaning.ClassDumpLayout` | hprof/hprofclipper/src/main/cpp/hprof_strip.cpp:263-337 | tag 0x20, 36 bytes, and three tables with counts of two bytes |
| `HprofMeaning.InstanceDumpLayout` | hprof/hprofclipper/src/main/cpp/hprof_strip.cpp:349-353 | tag 0x21, 12 bytes, and contents of the size at bytes 13 to 16 |
| `HprofMeaning.ObjectArrayDumpLayout` | hprof/hprofclipper/src/main/cpp/hprof_strip.cpp:382-386 | tag 0x22, a length at bytes 9 to 12, and four bytes for each element from byte 17 on |
| `HprofMeaning.PrimitiveArrayDumpLayout` | hprof/hprofclipper/src/main/cpp/hprof_strip.cpp:442-463 | tag 0x23, a length at bytes 9 to 12, a type at byte 13, and elements of the type's size |
| `HprofMeaning.OtherLayouts` | hprof/hprofclipper/src/main/cpp/hprof_strip.cpp:479-490 | a heap announcement has tag 0xFE and nine bytes, a root its tag and its payload |
| `HprofStripping.HeaderOf` | hprof/hprofclipper/src/main/cpp/hprof_strip.cpp:450-457 | an app array without its data is printed as the first 14 bytes of the whole array, so head, length and type stay |
| `HprofStripping.OrderedBounds` | hprof/hprofclipper/src/main/cpp/hprof_strip.cpp:615-635 | ordered intervals lie between start and end, none begins before the one before it ends, so no gap length is negative |
| `HprofStripping.CutsInOrder` | hprof/hprofclipper/src/main/cpp/hprof_strip.cpp:357-495 | the intervals of every segment lie in order within the records |
| `HprofStripping.GapsSize` | hprof/hprofclipper/src/main/cpp/hprof_strip.cpp:615-635 | bytes written are the bytes of the buffer less the lengths of the intervals |
| `HprofStripping.EarlierStart` | hprof/hprofclipper/src/main/cpp/hprof_strip.cpp:615-635 | bytes before the first interval are copied unchanged |
| `HprofStripping.StrippedCons` | hprof/hprofclipper/src/main/cpp/hprof_strip.cpp:357-495 | the first record vanishes or is printed without data in front of the rest |
| `HprofMeaning.SystemHeapStripped` | hprof/hprofclipper/src/main/cpp/hprof_strip.cpp:349-476 | of records of a system heap exactly the roots and class dumps stay, as they are and in order |
| `HprofMeaning.AppHeapStripped` | hprof/hprofclipper/src/main/cpp/hprof_strip.cpp:450-457 | of records of the app heap each one stays, and only primitive arrays change, to their headers |
| `HprofMeaning.AnnouncementStripped` | hprof/hprofclipper/src/main/cpp/hprof_strip.cpp:479-502 | an announcement vanishes if and only if the fourth byte of its type is 'Z' or 'I', and what follows belongs to the heap announced |
| `HprofMeaning.StrippedInParts` | hprof/hprofclipper/src/main/cpp/hprof_strip.cpp:163-516 | a list of records can be stripped in two parts |
| `HprofMeaning.StrippedByKind` | hprof/hprofclipper/src/main/cpp/hprof_strip.cpp:163-516 | what is left of any list of records, kind by kind, up to its first announcement and by that from there on |
| `HprofMeaning.MissingIsRemoved` | hprof/hprofclipper/src/main/cpp/hprof_strip.cpp:460-472 | the contents that the kept array headers ask for are those that were removed |
| `HprofStripping.GapsAreStripped` | hprof/hprofclipper/src/main/cpp/hprof_strip.cpp:615-635 | copying the gaps between the intervals writes exactly the transformed records and the unread tail |
| `HprofRefill.Accounting` | hprof/hprofclipper/src/main/cpp/hprof_strip.cpp:598-635 | bytes written, removed array contents and dropped records add up to the segment |
| `HprofRefill.StrippedIsReadable` | hprof/hprofclipper/src/main/cpp/hprof_strip.cpp:450-451 | a parser that takes arrays as dataless recovers exactly the kept records |
| `HprofRefill.FilledIsZeroed` | hprof/hprofclipper/src/main/cpp/hprof_strip.cpp:450-451 | filling in zeros by type and length gives the kept records with zeroed contents |
| `HprofRefill.ZeroedSize` | hprof/hprofclipper/src/main/cpp/hprof_strip.cpp:468-472 | refilling adds exactly the removed contents |
| `HprofRefill.RefillRestores` | hprof/hprofclipper/src/main/cpp/hprof_strip.cpp:450-472 | refilling a stripped body gives the original without the dropped records and with zeroed arrays, shorter by the dropped bytes |
| `HprofCapacity.NineBytesEach` | hprof/hprofclipper/src/main/cpp/hprof_strip.cpp:357-495 | every interval stands for at least nine bytes of the segment |
| `HprofCapacity.OverflowingSegment` | hprof/hprofclipper/src/main/cpp/include/hprof_strip.h:66-67 | for every size from 1179675 bytes on there is a segment whose intervals do not fit |
| `HprofCapacity.CapacityIsExact` | hprof/hprofclipper/src/main/cpp/include/hprof_strip.h:66-67 | all segments of a size fit into the list if and only if the size is below 1179675 |
| `Kernel.Kernel.Write` | hprof/hprofclipper/src/main/cpp/hprof_strip.cpp:567-568 | the system call delivers some prefix, or fails; other files stay as they are |
| `HprofStrip.GetShortFromBytes` | hprof/hprofclipper/src/main/cpp/hprof_strip.cpp:132-135 | a big-endian 16-bit number |
| `HprofStrip.GetIntFromBytes` | hprof/hprofclipper/src/main/cpp/hprof_strip.cpp:137-141 | a big-endian 32-bit number as a signed int |
| `HprofStrip.ShiftsAreDigits` | hprof/hprofclipper/src/main/cpp/hprof_strip.cpp:604-612 | the shifted and masked bytes are the big-endian form |
| `HprofStrip.SignedSize` | hprof/hprofclipper/src/main/cpp/hprof_strip.cpp:460-463 | value size times the signed length is the size of the contents, even for an unknown type with a length beyond the signed range |
| `HprofStrip.HprofStrip.constructor` | hprof/hprofclipper/src/main/cpp/hprof_strip.cpp:714-724 | no dump file, an empty list, the app's heap |
| `HprofStrip.HprofStrip.FullyWrite` | hprof/hprofclipper/src/main/cpp/hprof_strip.cpp:562-572 | for every pattern of failures and short writes, the buffer is delivered once, in order |
| `HprofStrip.HprofStrip.Reset` | hprof/hprofclipper/src/main/cpp/hprof_strip.cpp:556-559 | empties the interval list and the byte count, keeps the heap flag |
| `HprofStrip.HprofStrip.Strip` | hprof/hprofclipper/src/main/cpp/hprof_strip.cpp:358-361 | appends one interval to the list and stays inside the array |
| `HprofStrip.HprofStrip.SkipClassDump` | hprof/hprofclipper/src/main/cpp/hprof_strip.cpp:263-337 | ends right behind the class dump, whatever its tables hold |
| `HprofStrip.HprofStrip.SkipEntries` | hprof/hprofclipper/src/main/cpp/hprof_strip.cpp:283-316 | ends right behind a constant pool or a static field table |
| `HprofStrip.HprofStrip.ProcessInstanceDump` | hprof/hprofclipper/src/main/cpp/hprof_strip.cpp:349-370 | in a system heap records the whole instance and counts its bytes, otherwise nothing |
| `HprofStrip.HprofStrip.ProcessObjectArrayDump` | hprof/hprofclipper/src/main/cpp/hprof_strip.cpp:382-408 | in a system heap records the whole array and counts its bytes, otherwise nothing |
| `HprofStrip.HprofStrip.DataSize` | hprof/hprofclipper/src/main/cpp/hprof_strip.cpp:460-463 | the size in an int is the size of the contents |
| `HprofStrip.HprofStrip.ProcessPrimitiveArrayDump` | hprof/hprofclipper/src/main/cpp/hprof_strip.cpp:442-476 | records the whole array in a system heap, else only its contents, which are not counted |
| `HprofStrip.HprofStrip.ProcessHeapDumpInfo` | hprof/hprofclipper/src/main/cpp/hprof_strip.cpp:479-502 | sets the heap flag by the low byte of the type; the record itself vanishes if it announces a system heap |
| `HprofStrip.HprofStrip.ProcessRecord` | hprof/hprofclipper/src/main/cpp/hprof_strip.cpp:171-514 | every kind of record: where it ends, what it adds to the list, the count, the flag and the array number |
| `HprofStrip.HprofStrip.ProcessNext` | hprof/hprofclipper/src/main/cpp/hprof_strip.cpp:171-514 | recorded so far plus what the remaining records will add is the same before and after a record |
| `HprofStrip.HprofStrip.ProcessHeap` | hprof/hprofclipper/src/main/cpp/hprof_strip.cpp:163-516 | over a whole segment: the intervals, dropped bytes and flag of its records, and one array number for each primitive array |
| `HprofStrip.HprofStrip.PatchLength` | hprof/hprofclipper/src/main/cpp/hprof_strip.cpp:598-613 | only bytes 5 to 8 change, and they hold the length less the dropped bytes |
| `HprofStrip.HprofStrip.WriteGaps` | hprof/hprofclipper/src/main/cpp/hprof_strip.cpp:615-635 | the file grows by exactly the bytes outside the intervals |
| `HprofStrip.HprofStrip.ScanSegment` | hprof/hprofclipper/src/main/cpp/hprof_strip.cpp:584-596 | scanning starts behind the nine-byte header with an empty list |
| `HprofStrip.HprofStrip.WriteRecord` | hprof/hprofclipper/src/main/cpp/hprof_strip.cpp:578-644 | a record for the dump file: scanned, patched and written with its gaps left out |
| `HprofStrip.HprofStrip.HookWriteInternal` | hprof/hprofclipper/src/main/cpp/hprof_strip.cpp:574-645 | of the dump file, a record of a tag other than 0x0C and 0x1C is written byte for byte; of a heap segment the header, with a length that counts what is written and what array headers ask for, and the records by kind; any other file is written as asked |
| `HprofStrip.PatchedGaps` | hprof/hprofclipper/src/main/cpp/hprof_strip.cpp:598-635 | the gaps of the patched buffer are the new header and the transformed records |
| `HprofStrip.EmittedLength` | hprof/hprofclipper/src/main/cpp/hprof_strip.cpp:598-613 | the first five bytes stay, the length field counts the bytes written and the array contents removed, and it stays if nothing is dropped |
| `HprofStrip.EmittedAsMeant` | hprof/hprofclipper/src/main/cpp/hprof_strip.cpp:574-635 | what is written, by tag numbers, kinds of records and heaps |
| `HprofExamples.ZygoteClassDump` | hprof/hprofclipper/src/main/cpp/hprof_strip.cpp:263-337 | a segment of the zygote heap, byte for byte: the announcement goes, the class dump stays, the length falls from 52 to 43 |
| `HprofExamples.AppShortArray` | hprof/hprofclipper/src/main/cpp/hprof_strip.cpp:442-476 | a segment with an array of the app, byte for byte: its four bytes go, the length stays |
| `HprofStrip.DroppedAtMost` | hprof/hprofclipper/src/main/cpp/hprof_strip.cpp:598-603 | no more is dropped than there is, so the new length is not negative |
| `HprofStrip.RefilledSegment` | hprof/hprofclipper/src/main/cpp/hprof_strip.cpp:468-472 | the emitted header is right for the refilled body, which makes a well-formed segment |
| `HprofStrip.HeaderLength` | hprof/hprofclipper/src/main/cpp/hprof_strip.cpp:598-613 | the new length field reads as the old length less the dropped bytes |
| `HprofStrip.SegmentIsReadable` | hprof/hprofclipper/src/main/cpp/hprof_strip.cpp:163-516 | a buffer is a well-formed segment of these records if and only if it is read as them |
| `HprofRuns.FlagIsLastAnnouncement` | hprof/hprofclipper/src/main/cpp/hprof_strip.cpp:479-502 | after any run of writes the flag tells the last heap announced in any of them, the app's if none |
| `HprofRuns.LastAnnouncementDecides` | hprof/hprofclipper/src/main/cpp/hprof_strip.cpp:479-483 | the heap of a history is a system heap if and only if its last announcement has 'Z' or 'I' in the fourth byte of its type |
| `HprofRuns.KeepIsStripped` | hprof/hprofclipper/src/main/cpp/hprof_strip.cpp:556-596 | stripping with the inherited flag equals judging each record by the last announcement before it |
| `HprofRuns.StrippedSnoc` | hprof/hprofclipper/src/main/cpp/hprof_strip.cpp:357-495 | the treatment of a record does not depend on the records after it |
| `HprofRuns.RemovedIsDropped` | hprof/hprofclipper/src/main/cpp/hprof_strip.cpp:556-603 | the bytes deducted from a segment are those of the records that the history before each of them removes |
| `HprofRuns.RunIsAsExpected` | hprof/hprofclipper/src/main/cpp/hprof_strip.cpp:574-645 | the file that the inherited flag leads to is the one that judging every record by the whole history leads to |
| `HprofRuns.WriteNext` | hprof/hprofclipper/src/main/cpp/hprof_strip.cpp:574-645 | a hooked write of any file, as one step of a run |
| `HprofRuns.WriteAll` | hprof/hprofclipper/src/main/cpp/hprof_strip.cpp:574-645 | any run of hooked writes leaves in the dump file exactly what judging every record by the whole history leads to |
| `Bits.MaskIsMod` | hprof/hprofdumper/src/main/cpp/elf_reader.cpp:243-243 | masking with one less than a power of two is the remainder |
| `Bits.BothBits` | hprof/hprofdumper/src/main/cpp/elf_reader.cpp:248-250 | the filter expression is nonzero if and only if both bits are set |
| `Bits.XorIgnoresLowBit` | hprof/hprofdumper/src/main/cpp/elf_reader.cpp:256-256 | the shifted exclusive or is zero if and only if the words agree but for the lowest bit |
| `Bits.LowBit` | hprof/hprofdumper/src/main/cpp/elf_reader.cpp:260-260 | the end mark of a chain is the parity of its word |
| `Bits.BitOfSum` | hprof/hprofdumper/src/main/cpp/elf_reader.cpp:244-244 | the bits of a number put together from two words are those of the words |
| `ElfHashes.ElfHash` | hprof/hprofdumper/src/main/cpp/include/elf_reader.h:33-44 | the loop computes its round function over the name, in 32-bit words |
| `ElfHashes.RoundIsAbi` | hprof/hprofdumper/src/main/cpp/include/elf_reader.h:36-41 | a round is the round of chapter 5 of the System V ABI and leaves the top four bits clear |
| `ElfHashes.SysvHashIsAbi` | hprof/hprofdumper/src/main/cpp/include/elf_reader.h:33-44 | for every name the hash is that of the System V ABI and below 2 to the 28 |
| `ElfHashes.HashOfLonger` | hprof/hprofdumper/src/main/cpp/include/elf_reader.h:36-41 | with one more character, the top four of the shifted bits come back in, four bits from the bottom |
| `ElfHashes.GnuHash` | hprof/hprofdumper/src/main/cpp/include/elf_reader.h:54-61 | the wrapping loop computes times 33 plus character, from 5381, modulo 2 to the 32 |
| `ElfReader.SearchFinds` | hprof/hprofdumper/src/main/cpp/elf_reader.cpp:218-233 | with unique names, searching a symbol's name finds its value |
| `ElfReader.SearchMisses` | hprof/hprofdumper/src/main/cpp/elf_reader.cpp:218-233 | searching an absent name gives 0 |
| `ElfReader.SysvAt` | hprof/hprofdumper/src/main/cpp/elf_reader.cpp:192-195 | where buckets and chains of a SysV section lie |
| `ElfReader.GnuAt` | hprof/hprofdumper/src/main/cpp/elf_reader.cpp:204-213 | filter, buckets and chain words follow each other, chain words are numbered so that the first one belongs to the first hashed symbol, and the mask is one less than the filter words in 32 bits |
| `ElfReader.FilterTest` | hprof/hprofdumper/src/main/cpp/elf_reader.cpp:242-250 | the test passes if and only if the two bits that a builder sets are set |
| `ElfMeaning.FilterBits` | hprof/hprofdumper/src/main/cpp/elf_reader.cpp:207-250 | the filter test by bits of the file: two bits of the word of address size that the hash chooses behind the four words of the header |
| `ElfMeaning.GnuWords` | hprof/hprofdumper/src/main/cpp/elf_reader.cpp:207-213 | which words of the file the buckets and chain words are |
| `ElfMeaning.CStringEnds` | hprof/hprofdumper/src/main/cpp/elf_reader.cpp:257-257 | a name goes up to the next zero byte |
| `ElfMeaning.ElfMark` | hprof/hprofdumper/src/main/cpp/elf_reader.cpp:60-63 | the first four bytes of an ELF file |
| `ElfReader.Rejected` | hprof/hprofdumper/src/main/cpp/elf_reader.cpp:247-250 | no hashed symbol has a name that the filter rejects |
| `ElfReader.WalkStarts` | hprof/hprofdumper/src/main/cpp/elf_reader.cpp:251-254 | from the bucket's symbol the walk meets every symbol with the name before an end mark |
| `ElfReader.AnswerIsSearch` | hprof/hprofdumper/src/main/cpp/elf_reader.cpp:217-262 | what a lookup may answer is what a linear search of the symbol table finds |
| `ElfReader.AnswersAgree` | hprof/hprofdumper/src/main/cpp/elf_reader.cpp:138-139 | the two indexes of one table give the same value |
| `ElfExamples.LookupCanWalkOff` | hprof/hprofdumper/src/main/cpp/elf_reader.cpp:252-260 | in every 32-bit file with a certain section behind its header, the table is well formed and looking up an absent name walks off |
| `ElfExamples.LookupOffTheFile` | hprof/hprofdumper/src/main/cpp/elf_reader.cpp:65-262 | the same from reading the section headers to a read outside the file |
| `ElfExamples.LookupThroughNull` | hprof/hprofdumper/src/main/cpp/elf_reader.cpp:103-157 | a symbol table beyond the file, or without names, is read through null |
| `ElfExamples.FindBehindFilter` | hprof/hprofdumper/src/main/cpp/elf_reader.cpp:131-262 | a symbol of a 64-bit file with two filter words and a shift is found, at a load base |
| `ElfExamples.FindBySysvHash` | hprof/hprofdumper/src/main/cpp/elf_reader.cpp:131-233 | a symbol of a 32-bit file with a SysV hash section is found, at a load base |
| `ElfExamples.FindInSymtab` | hprof/hprofdumper/src/main/cpp/elf_reader.cpp:148-159 | the function after a section of the same name is found, and its address wraps around at 2 to the 32 |
| `ElfReader.Last` | hprof/hprofdumper/src/main/cpp/elf_reader.cpp:84-127 | the section that counts for a table is the last one that supplies it |
| `ElfReader.ScannedNext` | hprof/hprofdumper/src/main/cpp/elf_reader.cpp:84-127 | one more section header changes the tables that it supplies and no others |
| `ElfReader.SearchSymtabFaults` | hprof/hprofdumper/src/main/cpp/elf_reader.cpp:148-159 | the search of the symbol table reads through null or beyond the table if and only if an unreadable entry comes before any hit, and finds nothing if and only if all entries are readable and none is a hit |
| `ElfReader.SearchSymtabFinds` | hprof/hprofdumper/src/main/cpp/elf_reader.cpp:148-159 | a value comes from the first entry of type 1 or 2 with the name, and none is missed |
| `ElfReader.WholeSymtabFaults` | hprof/hprofdumper/src/main/cpp/elf_reader.cpp:148-159 | with as many entries as counted: exactly if there are entries, and the table is missing, or the names are and some entry is a function or object |
| `ElfReader.ElfReader.Init` | hprof/hprofdumper/src/main/cpp/elf_reader.cpp:65-129 | a file without the ELF mark or section headers is rejected; reading goes wrong exactly if a section is faulty; otherwise every table is taken from the last section of its kind, and kept if there is none |
| `ElfReader.ElfReader.ScanSections` | hprof/hprofdumper/src/main/cpp/elf_reader.cpp:84-127 | the loop over the section headers |
| `ElfReader.ElfReader.AddSection` | hprof/hprofdumper/src/main/cpp/elf_reader.cpp:85-126 | which table a section header sets; a symbol or string section beyond the file unsets it, a symbol table is counted even then, a hash section beyond the file does nothing |
| `ElfReader.ElfReader.BuildHash` | hprof/hprofdumper/src/main/cpp/elf_reader.cpp:187-197 | takes over the section's layout, or does nothing without a section; when the two words are not in the file |
| `ElfReader.ElfReader.BuildGnuHash` | hprof/hprofdumper/src/main/cpp/elf_reader.cpp:199-215 | takes over the section's layout, or does nothing without a section; when the four words are not in the file |
| `ElfReader.ElfReader.LookupByElfHash` | hprof/hprofdumper/src/main/cpp/elf_reader.cpp:218-233 | the value of a symbol with the name, or 0 and there is none |
| `ElfReader.ElfReader.WalkSysvChain` | hprof/hprofdumper/src/main/cpp/elf_reader.cpp:224-232 | the walk ends, and finds a symbol with the name if its chain has one |
| `ElfReader.ElfReader.LookupByGnuHash` | hprof/hprofdumper/src/main/cpp/elf_reader.cpp:236-262 | the value of a symbol with the name, or 0 and no hashed symbol has it; a read outside the file exactly when `WalksOff` |
| `ElfReader.ElfReader.WalkChain` | hprof/hprofdumper/src/main/cpp/elf_reader.cpp:252-261 | the walk ends, meets every candidate, and leaves the file only from an empty bucket |
| `ElfReader.ElfReader.LookupDynsym` | hprof/hprofdumper/src/main/cpp/elf_reader.cpp:137-139 | either index answers as the linear search does |
| `ElfReader.ElfReader.LookupSymtab` | hprof/hprofdumper/src/main/cpp/elf_reader.cpp:148-159 | the first function or object with the name, or a read through null or beyond the table, whichever comes first |
| `ElfReader.ResolveComesOut` | hprof/hprofdumper/src/main/cpp/elf_reader.cpp:140-169 | the address is the load base plus the value, wrapped at 2 to the 32 or 64, and whose value it is |
| `ElfReader.ElfReader.LookupSymbol` | hprof/hprofdumper/src/main/cpp/elf_reader.cpp:131-170 | the load base plus the value that a linear search of the dynamic symbols finds, or, if it finds none and unless excluded, plus that of the first function or object with the name; exactly when either reads outside the file or through null |
| `StuckQueue.EnqueueSorted` | crashcatcher/src/main/java/com/sissi/apm/crashcatcher/CrashCatcher.kt:255-255 | sending keeps the queue ordered by due time |
| `StuckQueue.RemoveSorted` | crashcatcher/src/main/java/com/sissi/apm/crashcatcher/CrashCatcher.kt:262-262 | revoking keeps the queue ordered by due time |
| `StuckQueue.AboutEnqueue` | crashcatcher/src/main/java/com/sissi/apm/crashcatcher/CrashCatcher.kt:255-255 | sending about one looper message inserts among its messages and leaves those about the others alone |
| `StuckQueue.AboutRemove` | crashcatcher/src/main/java/com/sissi/apm/crashcatcher/CrashCatcher.kt:262-262 | revoking about one looper message leaves those about the others alone |
| `StuckProtocol.DispatchKeeps` | crashcatcher/src/main/java/com/sissi/apm/crashcatcher/CrashCatcher.kt:296-308 | the start of a dispatch keeps the invariant |
| `StuckProtocol.FinishedLife` | crashcatcher/src/main/java/com/sissi/apm/crashcatcher/CrashCatcher.kt:309-325 | what the end of a dispatch leaves pending: nothing if short, otherwise FINISHED in its place by time |
| `StuckProtocol.FinishKeeps` | crashcatcher/src/main/java/com/sissi/apm/crashcatcher/CrashCatcher.kt:309-325 | the end of a dispatch keeps the invariant |
| `StuckProtocol.HandledLife` | crashcatcher/src/main/java/com/sissi/apm/crashcatcher/CrashCatcher.kt:247-283 | what handling a message leaves pending about its looper message |
| `StuckProtocol.HandleKeeps` | crashcatcher/src/main/java/com/sissi/apm/crashcatcher/CrashCatcher.kt:247-283 | handling keeps the invariant |
| `StuckProtocol.StepKeeps` | crashcatcher/src/main/java/com/sissi/apm/crashcatcher/CrashCatcher.kt:246-327 | every step keeps the invariant |
| `StuckProtocol.After` | crashcatcher/src/main/java/com/sissi/apm/crashcatcher/CrashCatcher.kt:246-327 | every run keeps the invariant |
| `StuckProtocol.NoFalseReport` | crashcatcher/src/main/java/com/sissi/apm/crashcatcher/CrashCatcher.kt:266-280 | whatever is reported has been running, or ran in all, for at least 100 ms plus the limit |
| `StuckProtocol.ReportedOnce` | crashcatcher/src/main/java/com/sissi/apm/crashcatcher/CrashCatcher.kt:266-280 | a looper message is reported at most once |
| `StuckProtocol.OutcomeIsExact` | crashcatcher/src/main/java/com/sissi/apm/crashcatcher/CrashCatcher.kt:246-327 | a watch is disarmed if and only if the end came before the handling of the start plus the limit, for a positive limit; what a zero limit changes |
| `StuckProtocol.ZeroLimitTie` | crashcatcher/src/main/java/com/sissi/apm/crashcatcher/CrashCatcher.kt:255-262 | a run with limit zero in which a message that met the limit is not reported |
| `StuckProtocol.ExactForPositiveLimits` | crashcatcher/src/main/java/com/sissi/apm/crashcatcher/CrashCatcher.kt:246-327 | all outcomes of all runs are exact if and only if the limit is positive |
| `StuckProtocol.DoneForever` | crashcatcher/src/main/java/com/sissi/apm/crashcatcher/CrashCatcher.kt:259-264 | once revoked as short or finished, no message about it is in the queue or ever comes back |
| `StuckProtocol.WatchStep` | crashcatcher/src/main/java/com/sissi/apm/crashcatcher/CrashCatcher.kt:249-257 | a TIMEOUT is created only by handling START, and not twice |
| `StuckProtocol.OneTimeoutEach` | crashcatcher/src/main/java/com/sissi/apm/crashcatcher/CrashCatcher.kt:249-257 | over any run, exactly one TIMEOUT is created for each looper message whose START is handled, none for the others |
| `StuckProtocol.NothingMissed` | crashcatcher/src/main/java/com/sissi/apm/crashcatcher/CrashCatcher.kt:246-327 | when nothing is due, every ended message is settled and a running one is within its limit or reported |
| `StuckTimes.RunRemembers` | crashcatcher/src/main/java/com/sissi/apm/crashcatcher/CrashCatcher.kt:295-327 | the clock of a run, and that every dispatch is remembered with its time |
| `StuckTimes.HandledIsStart` | crashcatcher/src/main/java/com/sissi/apm/crashcatcher/CrashCatcher.kt:249-257 | a watch starts when the START message is handled in the run |
| `StuckTimes.LifeOfRun` | crashcatcher/src/main/java/com/sissi/apm/crashcatcher/CrashCatcher.kt:246-327 | what is remembered of a looper message is when it began and ended in the run |
| `StuckTimes.ReportsAreTrue` | crashcatcher/src/main/java/com/sissi/apm/crashcatcher/CrashCatcher.kt:266-280 | over any run: what is reported began 100 ms plus the limit before, and took as long if it has ended |
| `StuckTimes.ReportsAreExact` | crashcatcher/src/main/java/com/sissi/apm/crashcatcher/CrashCatcher.kt:246-327 | over any run with a positive limit, when nothing is due: a looper message is reported if and only if its START was handled and it had not ended within the limit from then on; START is handled unless it takes less than 100 ms |
| `StuckMonitor.StuckMonitor.constructor` | crashcatcher/src/main/java/com/sissi/apm/crashcatcher/CrashCatcher.kt:286-294 | starts in the initial state, which satisfies the invariant |
| `StuckMonitor.StuckMonitor.Println` | crashcatcher/src/main/java/com/sissi/apm/crashcatcher/CrashCatcher.kt:295-327 | a dispatch line and a finished line are the two steps of the main thread, any other line does nothing |
| `StuckMonitor.StuckMonitor.HandleMessage` | crashcatcher/src/main/java/com/sissi/apm/crashcatcher/CrashCatcher.kt:247-283 | handling is the step of the watching thread |
| `OomHysteresis.RunIsMaximal` | oom/src/main/java/com/sissi/apm/oom/OomMonitor.kt:106-144 | the run at the end consists of marked samples and cannot be longer |
| `OomHysteresis.CounterSteps` | oom/src/main/java/com/sissi/apm/oom/OomMonitor.kt:116-135 | a counter reset by a third mark and by an unmarked sample is the length of the run modulo three |
| `OomHysteresis.CountRunIsLongest` | oom/src/main/java/com/sissi/apm/oom/OomMonitor.kt:106-184 | the run counted is the longest at the end of samples above the threshold that have not fallen by more than 20 |
| `OomHysteresis.CountMonitor.Run` | oom/src/main/java/com/sissi/apm/oom/OomMonitor.kt:112-144 | over any samples, reports if and only if the run of suspicious samples has a positive multiple of three; the next delay is short if and only if it is no multiple; strict mode reports above the threshold |
| `OomHysteresis.HighIsReachable` | oom/src/main/java/com/sissi/apm/oom/OomMonitor.kt:44-58 | outside strict mode a share of the heap can exceed the overflow threshold if and only if the heap has 192 MB or more, or less than 2 |
| `OomHysteresis.NothingToConfirm` | oom/src/main/java/com/sissi/apm/oom/OomMonitor.kt:75-87 | in between no run of high samples ever begins |
| `OomHysteresis.VerdictByConfig` | oom/src/main/java/com/sissi/apm/oom/OomMonitor.kt:66-75 | each condition in terms of the configuration, 0.95, 0.98 and the thresholds for heaps of 192, 384 and 512 MB |
| `OomHysteresis.HeapRunIsLongest` | oom/src/main/java/com/sissi/apm/oom/OomMonitor.kt:72-87 | the run counted is the longest at the end of samples that meet the fourth condition only and have not fallen by more than 0.05 |
| `OomHysteresis.MemMonitor.Run` | oom/src/main/java/com/sissi/apm/oom/OomMonitor.kt:60-101 | over any samples, each kind of report if and only if its condition holds and none before it; the overflow threshold reports when the run of samples that count has a positive multiple of three; strict mode never counts |
| `OomScheduler.StepKeeps` | oom/src/main/java/com/sissi/apm/oom/OomMonitor.kt:200-224 | starting, stopping, beginning and ending a run keep the number of instances |
| `OomScheduler.LiveIsWanted` | oom/src/main/java/com/sissi/apm/oom/OomMonitor.kt:200-224 | there is a handler if and only if the last call was start |
| `OomScheduler.InstancesAreExact` | oom/src/main/java/com/sissi/apm/oom/OomMonitor.kt:200-224 | in every run: nothing pending without a handler; with one, one instance of each monitor, and two exactly of one that ran when the handler was created |
| `OomScheduler.OneInstanceEach` | oom/src/main/java/com/sissi/apm/oom/OomMonitor.kt:200-212 | if no handler is created within a run, each monitor has exactly one pending or running instance |
| `OomScheduler.RestartInRunDuplicates` | oom/src/main/java/com/sissi/apm/oom/OomMonitor.kt:90-100 | stop and start within a run leave two pending instances |
| `OomScheduler.OomMonitor.Start` | oom/src/main/java/com/sissi/apm/oom/OomMonitor.kt:200-212 | the step Start |
| `OomScheduler.OomMonitor.Stop` | oom/src/main/java/com/sissi/apm/oom/OomMonitor.kt:215-224 | the step Stop |
| `OomScheduler.OomMonitor.EndRun` | oom/src/main/java/com/sissi/apm/oom/OomMonitor.kt:100-100 | a run posts itself again if and only if there still is a handler |
| `ThreadMatching.GreedyIsUnique` | proc/src/main/java/com/sissi/apm/proc/ThreadInfo.kt:127-141 | the description of the matching admits one matching only |
| `ThreadMatching.NamesThatMatch` | proc/src/main/java/com/sissi/apm/proc/ThreadInfo.kt:130-133 | names match if they are equal, or the task's has 15 characters and is part of the thread's |
| `ThreadMatching.NativeMatchesNoSpare` | proc/src/main/java/com/sissi/apm/proc/ThreadInfo.kt:127-141 | a task that stays native matches no thread that is left over |
| `ThreadAssignment.GreedyAssigns` | proc/src/main/java/com/sissi/apm/proc/ThreadInfo.kt:127-141 | the greedy matching gives different matching threads to the tasks |
| `ThreadAssignment.StarvedMeansTaken` | proc/src/main/java/com/sissi/apm/proc/ThreadInfo.kt:127-141 | if names are separate and some task of a kind stays native, every thread of the kind is taken by a task of the kind |
| `ThreadAssignment.GreedyServesMost` | proc/src/main/java/com/sissi/apm/proc/ThreadInfo.kt:127-141 | if names are separate, no other matching serves more tasks |
| `ThreadAssignment.ContendedIsMissed` | proc/src/main/java/com/sissi/apm/proc/ThreadInfo.kt:127-141 | a thread that two tasks match and one that only the first matches: one task is served, though both could be |
| `ThreadAssignment.GreedyIsBestExactly` | proc/src/main/java/com/sissi/apm/proc/ThreadInfo.kt:127-141 | the greedy matching serves most for all tasks and threads with given names if and only if task names match the same thread names or none in common |
| `ThreadAssignment.NamesAreServed` | proc/src/main/java/com/sissi/apm/proc/ThreadInfo.kt:130-135 | a task stays native only if a thread that matches no task of another name is taken by a task of its own |
| `ThreadAssignment.GreedyCanMiss` | proc/src/main/java/com/sissi/apm/proc/ThreadInfo.kt:132-133 | two tasks and two threads of which the greedy matching serves one task and another matching both |
| `ThreadMatching.LeftAfterTaking` | proc/src/main/java/com/sissi/apm/proc/ThreadInfo.kt:135-135 | taking removes exactly the taken thread from the list and keeps the order of the rest |
| `ThreadMatching.Conserved` | proc/src/main/java/com/sissi/apm/proc/ThreadInfo.kt:127-141 | threads taken and threads left over are together every thread once |
| `ThreadMatching.SizeOfList` | proc/src/main/java/com/sissi/apm/proc/ThreadInfo.kt:143-151 | one entry for each task, and one more if and only if a thread named main is left over |
| `ThreadMatching.EachThreadOnce` | proc/src/main/java/com/sissi/apm/proc/ThreadInfo.kt:127-151 | no thread of the virtual machine is listed twice |
| `ThreadMatching.DaemonIsLost` | proc/src/main/java/com/sissi/apm/proc/ThreadInfo.kt:65-73 | a taken thread is listed as it is if and only if it is no daemon |
| `ThreadMatching.NativeIdIsLost` | proc/src/main/java/com/sissi/apm/proc/ThreadInfo.kt:65-73 | a task keeps its native id if and only if it takes no thread or had the id -1 |
| `ThreadMatching.TakenDaemon` | proc/src/main/java/com/sissi/apm/proc/ThreadInfo.kt:65-73 | a daemon thread that loses its flag, in the entry of a task that loses its id |
| `ThreadMatching.SortIsStable` | proc/src/main/java/com/sissi/apm/proc/ThreadInfo.kt:149-151 | the result is a permutation with threads of the virtual machine first, in the order they had among themselves, and so for the native ones |
| `ThreadMatching.StableSortIsUnique` | proc/src/main/java/com/sissi/apm/proc/ThreadInfo.kt:149-151 | no other list is a stable sort by this key |
| `ThreadMatching.TakingAreListed` | proc/src/main/java/com/sissi/apm/proc/ThreadInfo.kt:136-136 | the entries of threads are, in task order, what is known of the threads taken |
| `ThreadMatching.NativeAreListed` | proc/src/main/java/com/sissi/apm/proc/ThreadInfo.kt:121-121 | the native entries are, in task order, what is known of the tasks that take none |
| `ThreadMatching.OrderOfList` | proc/src/main/java/com/sissi/apm/proc/ThreadInfo.kt:143-151 | the spare main thread is first, the tasks that take a thread follow, then the native ones |
| `ThreadMatching.ThreadInfo.Copy` | proc/src/main/java/com/sissi/apm/proc/ThreadInfo.kt:65-73 | all fields are taken over except whether it is a daemon |
| `ThreadMatching.GetJvmThreadsInfo` | proc/src/main/java/com/sissi/apm/proc/ThreadInfo.kt:97-104 | one new object for each thread, in order, with native id -1 |
| `ThreadMatching.GetTasks` | proc/src/main/java/com/sissi/apm/proc/ThreadInfo.kt:116-125 | one new native object for each task, in order |
| `ThreadMatching.TakeTurn` | proc/src/main/java/com/sissi/apm/proc/ThreadInfo.kt:128-140 | the first match is removed from the list and copied into the entry; without a match nothing changes |
| `ThreadMatching.TurnTakesFirst` | proc/src/main/java/com/sissi/apm/proc/ThreadInfo.kt:129-137 | the first match in the shrinking list is the first free match among all threads |
| `ThreadMatching.MatchAll` | proc/src/main/java/com/sissi/apm/proc/ThreadInfo.kt:127-141 | the loop matches greedily and leaves the spare threads in order |
| `ThreadMatching.FindMain` | proc/src/main/java/com/sissi/apm/proc/ThreadInfo.kt:143-145 | the first thread on the list named main |
| `ThreadMatching.GetAllThreads` | proc/src/main/java/com/sissi/apm/proc/ThreadInfo.kt:111-152 | new objects, field by field: the spare main thread, the tasks that take a thread in task order, the native tasks in task order |

## Left out

- HookWriteInternal: requires a segment that is all there, with a length field that counts it and intervals that fit; what the filter does with records that reach beyond the buffer, with an empty buffer or with more intervals than the list holds is not modelled. The error number of a failed `write` is not modelled either.
- ProcessHeap: the recursive call stands once behind the switch instead of in every branch, and the two loops over the tables of a class dump are one method; the depth of the C stack, and the wrap-around of the serial numbers after two billion writes, are not modelled.
- ScanSegment: requires a well-formed segment, as `HookWriteInternal` does.
- Kernel.Kernel.Write: a call that fails for ever is ruled out, see `FullyWrite`.
- FullyWrite: a `write` that fails or writes nothing for ever is excluded, because the loop then never ends; any finite number of failures in a row is possible.
- The hooks on `open` and `write`, the choice of the dump file by name, native bridges and logging.
- The heap dumper that suspends the virtual machine and forks, and the native crash catcher: what they rely on lies outside the repository.
- LookupSymbol: requires that the hash sections describe the dynamic symbols, as their builders make them; strings are values, so one that runs beyond the file is not modelled, nor are symbol versions and the compressed debug data that the code no longer reads.
- Init: the size fields of the ELF header; section headers or section names beyond the file are one input. Section names are the three that matter or another. A file is seen as little-endian 32-bit words, so sections start at multiples of four bytes.
- The builders of the hash tables are not in the repository; the tables are described as the System V ABI and the GNU linker describe them.
- The dynamic loader wrappers and memory maps: elf_wrapper.h, kwai_dlfcn.cpp and map_util.hpp are not part of this model.
- Println: called in pairs by the looper and never nested. The wall clock and the uptime clock are one; a limit changed while messages are pending, the listener being absent, and the text of the report are not modelled. Taking a message off the queue and handling it is one step, as is each line printed.
- CountMonitor: one class stands for the thread and the descriptor monitor, which differ in the threshold and in what they report.
- WriteAll: stands for the callers of the hooked `write`; every write gets a buffer of its own.
- MemMonitor: ratios are real numbers, so rounding is not modelled; the record before the sample is an input, since others may record in between.
- OomMonitor: delays and the order of pending runs are not modelled, nor are the listeners' bodies, except that they may start and stop the monitors.
- GetAllThreads: reading the task directory and the stack traces; both lists are inputs. `sortedBy` is represented by its documented result, a stable sort.
- Reading of memory, descriptors and garbage collection figures, formatting, activity callbacks, demos and build files.
