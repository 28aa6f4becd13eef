# FAT32 storage and C library search routines: a verified model

This project models two parts of a bare-metal Raspberry Pi system and proves what they are for.

* **FAT32 storage.** A block device with blocks that can fail to be read or written; the FAT on it as an
  array of links; files as chains of clusters with a position; directories as slots laid over a chain,
  with long-name runs, 0xE5 marks and a 0x00 end mark; 8.3 names with numeric tails.  The format is that
  of the Microsoft FAT32 File System Specification v1.03.
* **Search and conversion.** `memmem` with its Two-Way and pair-hash paths, `memchr` and `memcmp` word by
  word, `strtol`, `utoa` and `itoa`, and the regular-expression compiler and matcher, up to the search for a
  setting on the kernel command line.

`dafny verify dfyconfig.toml` checks everything.

## Files

| file | what it holds |
|---|---|
| `Memory.dfy` | bytes, aligned words, `memchr`, `memcmp` |
| `Words.dfy`, `CriticalFactorization.dfy` | periods, local repetitions, the critical factorization theorem and the two scans |
| `TwoWay.dfy`, `Memmem.dfy` | the Two-Way search, the pair-hash search and `memmem` |
| `Numbers.dfy` | number conversion |
| `Regex.dfy`, `RegexCompiler.dfy`, `RegexPatterns.dfy` | the matcher and its declarative meaning; compiling the text of a pattern; words, character ranges and settings |
| `FatLayout.dfy`, `FatAdapter.dfy` | the device, where things lie on it, chains, and the adapter |
| `Volumes.dfy` | the FAT as an allocator: the steps that every operation is a run of, and what they keep |
| `BlockSequences.dfy`, `FatFile.dfy` | blocks laid end to end, directory-entry fields, and files |
| `DirectorySlots.dfy`, `DirectoryCluster.dfy`, `Directories.dfy` | slots and listings, slots over clusters, the directory class and its iterator |
| `LongNames.dfy`, `ShortNames.dfy`, `NameRules.dfy` | long names, 8.3 names with tails, valid names and names that are 8.3 names as they stand |
| `NameConflicts.dfy`, `NameSearch.dfy` | the search for a free tail, and for an entry by its name |
| `DirectoryOperations.dfy`, `DirectoryRemovals.dfy` | creating, renaming, new directories; deleting |
| `ShortNameClashes.dfy` | inputs for which a short name is in use already, or an absent tail is read |

## How the model reads the code

* The device is a sequence of bytes read and written in whole blocks.  Every operation may fail; a write
  that fails leaves the device as it was.  A device that is `reliable` fails only beyond its end; on one, the
  contracts say that an operation succeeds, or which reason there is for it not to: no free cluster where the
  search looks, a name that is invalid or taken, an entry that is not there.
* The adapter, the file handle, the directory, its iterator and the short name are classes with the
  fields of the originals.  A chain, and the place of the current cluster in it, are ghost fields; every
  method's contract is about the FAT map, the bytes of the file or the slots of the directory.
* `Confined` is the frame of every operation that writes: clusters in use outside the chain keep their FAT entries,
  and, except for the cluster of the directory that holds the file's entry, their data, whatever fails.  In that
  cluster `Write` and `Append` change the one entry, and only in the way they say.  `OtherFilesKept` and
  `OtherHandleKept` turn this into statements about other files and other handles.
* `Leads` ties an operation to the allocator: a run of single FAT updates, each of which can be the last, leads
  from the FAT and the chains before to those after.  `Volumes.OperationKeeps` says what that keeps.  A chain that
  nothing names any more, because its entry could not be written or because it was cut off, is in the ghost result
  `lost`.
* `Front` is what a write runs through before it grows the file: the clusters up to the first one, from the current
  one on, that reaches the size.  The chain may go on behind it.
* A listing is a function of the slots.  `Directories.DirectoryIterator.NextEntry` reports it item by item.
* The stack buffer of `Write`, and an entry's name blocks before they are filled, are parameters: they
  hold anything.
* `IsClusterOutOfRange` is modelled as written: it lets the first index past the FAT and every value from
  0x0FFFFFF7 up through.  `FindNextEmptyCluster` without a start begins at the larger of the hint and the
  root cluster, so clusters freed below the hint are not found again.
* The documented format ends a chain with any value from 0x0FFFFFF8 up; the directory iterator tests for
  0x0FFFFFFF only.  Chains in the model end with 0x0FFFFFFF.
* In `critical_factorization` the value `SIZE_MAX` of an index is the integer -1.
* Inner loops and repeated steps are methods of their own with their own contracts; the two scans of
  `critical_factorization` are one method with the order as a flag.

### Where the code does less than one would expect

* A link whose mark fails, and in a directory whose back-out fails too, stays open: the chain runs into a cluster
  that is still free and can be given out again (`Volumes.OpenLinkSharesCluster`).  The chains are well formed after
  an operation exactly if no link is open (`Volumes.OperationKeeps`).
* When the entry of an empty file cannot be written, the cluster taken for the file stays marked and belongs to
  nothing (`FatFile.FatFile.TakeNamedCluster`).
* `Write` does not read a cluster before writing to its start: bytes behind the buffer in its last cluster are
  what the stack held or a copy of the cluster before (`BlockSequences.BehindSurvivesExactlyIf` says exactly when
  they survive).
* The range check of the adapter asks less than it should: where there is one FAT, the first number past it has its
  entry in the data (`FatLayout.MaximumOverwritesData`, `FatLayout.EntryWriteKeepsDataExactlyIf`).
* The count of vacant slots is not reset between the passes of the search for room.  With long names, clusters of
  sixteen entries, and vacant slots at both ends of a directory, it leads to a place that runs over the end
  (`DirectorySlots.Misled`, `DirectorySlots.SomeSearchIsMisled`).
* A write that finds the device full keeps the clusters it has taken and leaves the size as it was, so the chain is
  longer than the size needs and the position is past the size.  A later write that grows the file from the cluster
  in which its size ends overwrites the link to the others, which are lost then: `FatFile.FatFile.Write` says
  exactly when, and `Volumes.FullDeviceLosesCluster` is a run that gets there.  An append on the same handle puts its
  buffer behind what was written of the first one (`FatFile.FatFile.Append`, `FatFile.AppendAfterFull`).
* A read from a position past the size returns what the current cluster still holds (`FatFile.FatFile.Read`).
* The search for the cluster before another does not end on a FAT whose links lead round
  (`FatAdapter.WalkEndsExactlyIf`).
* `Seek` backwards to another place than the start does not arrive (`FatFile.FatFile.Seek`).
* A long-name slot left over right before a new entry becomes part of its long name
  (`DirectorySlots.CreatingAddsOne`).
* A short name that would conflict is recognised exactly if the basis has a tail (`ShortNames.ConflictIsSeen`), so a
  new entry can get a short name that is in use: `DirectoryOperations.CreateEntry` says exactly when, and
  `ShortNameClashes.dfy` has inputs.
* When only what lies behind a new entry could not be read or written, creating fails with the entry in place;
  `CreateDirectory` then frees the cluster that the entry names (`DirectoryOperations.EnterDirectory`).
* A dash at the end of a class behind a range is not found (`RegexMeaning.DashAtTheEnd`).
* A pattern is cut silently behind its 29th symbol, so a setting whose name has more than 26 characters is looked for
  by what is left of it (`RegexPatterns.FindSetting`).
* Beyond tail 999,999 the search leaves the name as it was, and its caller goes on
  (`NameConflicts.InsureShortFilenameDoesNotConflict`).
* `RenameEntry` reports success also when the old entry could not be removed.
* `DeleteFile` and `RemoveDirectory` work on a directory object whose first cluster is 0, so the walk back over
  the long-name slots cannot leave the cluster of the entry: a run that began in the cluster before is left over
  in part (`DirectoryRemovals.DeleteEntry` says exactly when), and becomes part of the next name written behind it.
* An 8.3 name loses spaces inside it and leading zeros of a tail (`NameRules.EightDotThreeReadsBack`), and the check
  for a name taken looks at entries of one type and at the names they go by, so an 8.3 name may be in use already
  as the short name of a long one, or by a directory where a file is created.
* A name that needs no tail, while an entry has its very basis name without a tail, makes the search ask for a tail
  that is not there (`DirectoryOperations.TailAbsent`, `ShortNameClashes.TailIsAbsent`).  The model stops there with a
  result of its own, `TAIL_ABSENT`.
* A file grows only into clusters with a higher number than the one it grows from, so a device can be full for it that
  has free clusters (`FatFile.FatFile.Write`).

## Model

| member | source | states |
|---|---|---|
| `WordBits.DetectNullIffZeroLane` | minimalclib/src/c/memchr.c:62-71 | the bit trick is non-zero exactly if one of the eight bytes of the word is zero |
| `WordBits.DetectCharIffLaneEqual` | minimalclib/src/c/memchr.c:77-79 | after the exclusive or with the mask it is non-zero exactly if one of the bytes is the target |
| `WordBits.SpreadMask` | minimalclib/src/c/memchr.c:118-121 | the three steps that build the mask put the target into every byte of the word |
| `WordBits.LanesDetermineWord` | minimalclib/src/c/memcmp.c:100 | two words are equal exactly if their eight bytes are |
| `MemoryScan.WordHolds` | minimalclib/src/c/memchr.c:125 | the test of one aligned word answers whether the target is among its bytes |
| `MemoryScan.SkipWords` | minimalclib/src/c/memchr.c:123-129 | the word loop skips whole words without the target only, and stops at a word with it or with less than a word left |
| `MemoryScan.Memchr` | minimalclib/src/c/memchr.c:84-147 | for every alignment and length: the least index of the target within the length, or none exactly if it does not occur |
| `MemoryScan.SkipEqualWords` | minimalclib/src/c/memcmp.c:98-105 | the word loop skips equal words only |
| `MemoryScan.Memcmp` | minimalclib/src/c/memcmp.c:64-123 | zero exactly if the stretches are equal, and otherwise the difference of the first bytes that differ |
| `Words.CriticalFactorizationTheorem` | minimalclib/src/c/str-two-way.h:82-90 | the longer of the two maximal suffixes, under the byte order and its reverse, starts at a critical position: no local repetition there is shorter than the period of the right part allows |
| `Words.LocalPeriodIsGlobalPeriod` | minimalclib/src/c/str-two-way.h:82-84 | at the chosen split every local repetition is as long as the period of the whole word |
| `Words.FittingPeriodMakesWordPeriodic` | minimalclib/src/c/str-two-way.h:371-375 | at the split, a period of the whole needle that fits into the right part makes the least period of the right part one of the whole needle; in a needle with distinct halves there is none, which is what the maximal shift rests on |
| `CriticalFactorization.EverySuffixStands` | minimalclib/src/c/str-two-way.h:102-109 | every suffix that the scan has passed over is below the candidate, or agrees with it as far as has been read |
| `CriticalFactorization.ScanForMaximalSuffix` | minimalclib/src/c/str-two-way.h:111-144 | one scan finds the maximal suffix in its order and the least period of it, in fewer than twice as many turns as the needle is long |
| `CriticalFactorization.CriticalFactorization` | minimalclib/src/c/str-two-way.h:91-186 | the split is critical, the left part is shorter than every period of the needle, and the period reported is the least period of the right part |
| `TwoWay.BuildShiftTable` | minimalclib/src/c/str-two-way.h:307-314 | for each byte the distance from its last occurrence to the end of the needle, or the needle length |
| `TwoWay.BadByteShift` | minimalclib/src/c/str-two-way.h:327-343 | shifting by the table entry of the last byte of the window passes no occurrence |
| `TwoWay.RightMismatchShift` | minimalclib/src/c/str-two-way.h:364-368 | a mismatch in the right part allows the shift behind it |
| `TwoWay.PeriodShift` | minimalclib/src/c/str-two-way.h:350-363 | with the right part matched, a periodic needle can be shifted by its period |
| `TwoWay.MaximalShift` | minimalclib/src/c/str-two-way.h:403 | with the right part matched and a left mismatch, a needle with distinct halves can be shifted by the longer half and one more |
| `TwoWay.MemoryShift` | minimalclib/src/c/str-two-way.h:331-339 | after a remembered match, a bad last byte with a small table entry allows the shift by the needle length less the period |
| `TwoWay.RememberedMatch` | minimalclib/src/c/str-two-way.h:359-362 | after a shift by the period the prefix of length needle length less period still matches |
| `TwoWay.LeftPartRepeatsIffPeriod` | minimalclib/src/c/str-two-way.h:318 | the comparison of the left part with the bytes one period on decides whether the needle has that period |
| `TwoWay.SearchPeriodic` | minimalclib/src/c/str-two-way.h:318-370 | the loop with memory answers the first occurrence, or none exactly if there is none, within the bound on comparisons |
| `TwoWay.SearchDistinct` | minimalclib/src/c/str-two-way.h:371-408 | the loop for distinct halves answers the first occurrence, or none exactly if there is none, within the bound on comparisons |
| `TwoWay.PeriodicTable` | minimalclib/src/c/str-two-way.h:331-339 | in a needle with a period the table holds less than the period for a byte that occurs, and the needle length for one that does not |
| `TwoWay.TwoWayLongNeedle` | minimalclib/src/c/str-two-way.h:278-410 | for every needle that is not empty and every haystack no shorter: the least index at which the needle occurs, or none exactly if it occurs nowhere; in fewer comparisons than twice the haystack length less the needle length |
| `Memmem.HashDeterminesSecondByte` | minimalclib/src/c/memmem.c:100 | pairs with the same hash and the same first byte have the same second byte |
| `Memmem.BuildPairTable` | minimalclib/src/c/memmem.c:149-153 | the table holds, modulo the hash, the last place of each pair of the needle |
| `Memmem.PairShift` | minimalclib/src/c/memmem.c:165-169 | moving the window so that the pair found lies under its last place in the needle passes no occurrence |
| `Memmem.LastPairShift` | minimalclib/src/c/memmem.c:152-183 | after a window whose last pair matched, the shift to the pair before passes no occurrence |
| `Memmem.AllButLastByte` | minimalclib/src/c/memmem.c:171-176 | an equal last pair hash and equality of all bytes but the last make a match |
| `Memmem.FilterRejects` | minimalclib/src/c/memmem.c:173 | a window that the eight-byte filter rejects is no match |
| `Memmem.SkipPairs` | minimalclib/src/c/memmem.c:157-163 | the inner loop skips only windows without a match and strictly advances |
| `Memmem.PairHashSearch` | minimalclib/src/c/memmem.c:142-185 | for needles of 3 to 256 bytes: the first occurrence, or none exactly if there is none |
| `Memmem.TwoByteSearch` | minimalclib/src/c/memmem.c:130-136 | the rolling comparison answers the first occurrence of a two-byte needle |
| `Memmem.Memmem` | minimalclib/src/c/memmem.c:113-186 | for every haystack and needle: the first occurrence, or none exactly if there is none; an empty needle is found at 0 |
| `Numbers.CutoffIsExact` | minimalclib/src/c/strtol.c:92-105 | the quotient and remainder test decides exactly whether one more digit still fits the limit |
| `Numbers.TakeDigit` | minimalclib/src/c/strtol.c:134-180 | one digit is taken in without overflow of 64 bits, or overflow is noted exactly if the number leaves the range |
| `Numbers.Accumulate` | minimalclib/src/c/strtol.c:107-183 | the loop gives the number of the maximal digit run clamped to the 64-bit range |
| `Numbers.ReadHead` | minimalclib/src/c/strtol.c:40-84 | white space, sign, prefix and base are taken off as the numeral says |
| `Numbers.Strtol` | minimalclib/src/c/strtol.c:14-191 | the value of the maximal digit run in the base, with its sign, clamped to -2^63 and 2^63-1; the unconverted rest starts behind the run, or at the start when clamped |
| `Numbers.FillBackwards` | minimalclib/src/c/utoa.c:27-39 | the digits written, read backwards, are the numeral of the value, in any buffer with room for just these |
| `Numbers.ReverseInPlace` | minimalclib/src/c/utoa.c:41-48 | the stretch is reversed and nothing else is touched |
| `Numbers.Utoa` | minimalclib/src/c/utoa.c:10-51 | a zero-terminated numeral of the value in the base, without leading zeros, and its length, in any buffer with room for it; refused exactly outside bases 2 to 36 |
| `Numbers.Itoa` | minimalclib/src/c/itoa.c:12-42 | the numeral with a sign in base 10, of the unsigned 32-bit pattern in other bases, in any buffer with room for it |
| `Numbers.RoomForWord` | rpibaremetalos/src/c/filesystem/fat32_filenames.cpp:125-127 | a 32-bit value takes at most 32 digits in any base and at most 10 in base 10, so the 32 bytes of the caller are enough |
| `Numbers.NumeralUnique` | minimalclib/src/c/utoa.c:31-37 | a value has only one numeral in each base |
| `Numbers.StrtolUndoesUtoa` | minimalclib/src/c/strtol.c:14-191 | reading what `utoa` wrote gives the value back, in every base |
| `Numbers.StrtolUndoesItoa` | minimalclib/src/c/strtol.c:14-191 | reading what `itoa` wrote in base 10 gives back every 32-bit value, the least one included |
| `Numbers.HeadIsRead` | minimalclib/src/c/strtol.c:40-84 | any white space, then a sign or none, then no prefix, 0x, 0X or 0 as the base asked for allows, then a numeral of that base: the signed value is read, to the end of the text |
| `Numbers.NoHexPrefix` | minimalclib/src/c/strtol.c:70-76 | 0x without one of 0-9, A-F, a-f behind it is no prefix: the digit 0 is read and the rest starts at the x |
| `Numbers.CaseDoesNotMatter` | minimalclib/src/c/strtol.c:111-126 | texts that differ only in the case of their letters are read as the same number, with the same rest |
| `RegexMeaning.ClassMeaning` | rpibaremetalos/src/c/utility/regex.cpp:351-387 | the scan of the text of a bracket class finds exactly the characters that its items, and a dash before the first or behind the last of them, stand for |
| `RegexMeaning.DashAtTheEnd` | rpibaremetalos/src/c/utility/regex.cpp:374-376 | a dash at the end of a class without escapes is found exactly if the class has no range |
| `RegexMeaning.AcceptsFirst` | rpibaremetalos/src/c/utility/regex.cpp:498-531 | acceptance split by the first piece of the pattern |
| `Regex.MatchCharClass` | rpibaremetalos/src/c/utility/regex.cpp:351-387 | the loop over the text of a class decides membership in it |
| `Regex.MatchStar` | rpibaremetalos/src/c/utility/regex.cpp:406-424 | greedy with back-off decides: some number of repetitions, then the rest |
| `Regex.MatchPlus` | rpibaremetalos/src/c/utility/regex.cpp:426-442 | the same for at least one repetition |
| `Regex.MatchQuestion` | rpibaremetalos/src/c/utility/regex.cpp:444-459 | the rest at once, or after one character |
| `Regex.MatchPattern` | rpibaremetalos/src/c/utility/regex.cpp:498-532 | succeeds exactly if some prefix of the text is in the language of the pattern (all of the text with a trailing `$`); the recursion ends; the match length is left alone by a failure in front of the only repetition |
| `Regex.ReMatchp` | rpibaremetalos/src/c/utility/regex.cpp:84-113 | the least index before the end of the text at which the pattern accepts, or -1; an anchored pattern is tried at 0 only; where nothing but the last piece of the pattern is repeated, and that any number of times, the match length is that of the characters before it and the longest run |
| `RegexPatterns.WordAlone` | rpibaremetalos/src/c/utility/regex.cpp:402 | the pieces of a word accept exactly the texts that begin with it, and anchored at the end the word itself |
| `RegexPatterns.WordThen` | rpibaremetalos/src/c/utility/regex.cpp:398-402 | a word and more pieces accept exactly the texts that begin with the word and go on as the other pieces accept |
| `RegexPatterns.OneSymbol` | rpibaremetalos/src/c/utility/regex.cpp:389-404 | a pattern of one symbol accepts the texts that begin with a character it stands for, where the dot, the escapes and their complements stand for ranges of character codes; anchored at the end and with `*`, `+` or `?` it accepts the texts of any number of such characters, at least one, at most one |
| `RegexPatterns.OneSymbolFound` | rpibaremetalos/src/c/utility/regex.cpp:84-113 | a search for one symbol answers the index of the first character that it stands for, or -1 exactly if there is none |
| `RegexPatterns.RangeClass` | rpibaremetalos/src/c/utility/regex.cpp:351-387 | a class of one range stands for the characters from one end to the other, its inverse for all others, one of single characters for these, one of an escape for what that stands for |
| `RegexPatterns.EscapesInClasses` | rpibaremetalos/src/c/utility/regex.cpp:337-349 | the escapes stand for the same ranges inside a class; any other escaped character for itself |
| `RegexCompiler.ReCompile` | rpibaremetalos/src/c/utility/regex.cpp:115-255 | for every text of a pattern: the symbols that reading it from the front gives, at most 29 of them, or nothing where a class is not closed or its text does not fit |
| `RegexCompiler.CompilesPattern` | rpibaremetalos/src/c/utility/regex.cpp:115-255 | a pattern written out - anchors, atoms with their escapes, classes, marks - is compiled into exactly its symbols, cut behind the 29th, or into nothing exactly if the texts of its classes take more than 39 bytes |
| `RegexCompiler.RawAccepts` | rpibaremetalos/src/c/utility/regex.cpp:351-387 | classes of which only the text is kept match what their items stand for |
| `RegexCompiler.ReMatch` | rpibaremetalos/src/c/utility/regex.cpp:79-82 | the text of a pattern against a text: the least index at which the pattern, cut behind its 29th symbol, accepts, or -1 |
| `RegexPatterns.FindWord` | rpibaremetalos/src/c/utility/regex.cpp:79-82 | a word of at most 29 characters: the least index at which it stands in the text, or -1 exactly if it stands nowhere; of a longer one 29 characters count |
| `RegexPatterns.FindSetting` | rpibaremetalos/src/c/platform/kernel_command_line.cpp:45-67 | the first place of the name with its equals sign on the command line, or -1 exactly if there is none, and the longest run of characters behind it that are no white space; for names of more than 26 characters, what is found instead |
| `FatLayout.ClustersDisjoint` | rpibaremetalos/include/filesystem/fat32_blockio_adapter.h:306-310 | different clusters lie in different bytes of the device |
| `FatLayout.FatBeforeData` | rpibaremetalos/include/filesystem/fat32_blockio_adapter.h:296-310 | every FAT entry of a cluster below the maximum lies before the data |
| `FatLayout.SectorOfEntry` | rpibaremetalos/src/c/filesystem/fat32_blockio_adapter.cpp:110-113 | sector and offset of an entry, computed by division, address its place in the FAT |
| `FatLayout.SectorOfCluster` | rpibaremetalos/include/filesystem/fat32_blockio_adapter.h:306-310 | the sectors of a cluster are its bytes |
| `FatLayout.SectorOnDevice` | rpibaremetalos/src/c/filesystem/fat32_blockio_adapter.cpp:306-321 | the sector of every FAT entry up to the maximum lies on the device |
| `FatLayout.EntryBytes` | rpibaremetalos/include/filesystem/fat32_blockio_adapter.h:296-310 | the entry of a number is the four bytes at byte 4 times the number behind the start of the FAT, the least significant first; setting it makes these bytes the number and changes no other byte |
| `FatLayout.ClusterBytes` | rpibaremetalos/include/filesystem/fat32_blockio_adapter.h:306-310 | the data of a cluster are the bytes from block (first data block + (number - 2) * blocks in a cluster) on |
| `FatLayout.WriteEntry` | rpibaremetalos/src/c/filesystem/fat32_blockio_adapter.cpp:177-214 | writing one word of the FAT changes one entry of the map, no other, and no data |
| `FatLayout.WriteData` | rpibaremetalos/include/filesystem/fat32_blockio_adapter.h:188-192 | writing a cluster changes that cluster, no other, and no FAT entry |
| `Chains.ChainUnique` | rpibaremetalos/src/c/filesystem/fat32_blockio_adapter.cpp:97-128 | a FAT has at most one chain with a given head |
| `FatAdapter.BlockIoAdapter.ReadCluster` | rpibaremetalos/include/filesystem/fat32_blockio_adapter.h:175-179 | the bytes of the cluster, or a failure |
| `FatAdapter.BlockIoAdapter.WriteCluster` | rpibaremetalos/include/filesystem/fat32_blockio_adapter.h:188-192 | replaces the cluster and keeps the FAT and all other clusters; a failure changes nothing |
| `FatAdapter.BlockIoAdapter.NextClusterInChain` | rpibaremetalos/src/c/filesystem/fat32_blockio_adapter.cpp:97-128 | the entry of the FAT map; out of range exactly for 0, 1, and the numbers above the maximum and below 0x0FFFFFF7 |
| `FatAdapter.BlockIoAdapter.PreviousClusterInChain` | rpibaremetalos/src/c/filesystem/fat32_blockio_adapter.cpp:130-175 | on any FAT on which the walk ends: the number whose link is the first to be the one asked for, the end-of-file mark included, and the exact reason of each failure |
| `FatAdapter.WalkEndsExactlyIf` | rpibaremetalos/src/c/filesystem/fat32_blockio_adapter.cpp:156-171 | the walk along the links ends exactly if it does not come back, while it goes on, to a number it has been at |
| `FatAdapter.CycleNeverEnds` | rpibaremetalos/src/c/filesystem/fat32_blockio_adapter.cpp:156-171 | with two clusters linked to each other the search for a third one never ends |
| `FatAdapter.FoundOnChain` | rpibaremetalos/src/c/filesystem/fat32_blockio_adapter.cpp:156-171 | on a well-formed chain the walk stays in the chain: what is found is the cluster before, and what is not found is not in the chain |
| `FatAdapter.BlockIoAdapter.UpdateFatTableEntry` | rpibaremetalos/src/c/filesystem/fat32_blockio_adapter.cpp:177-214 | the read-modify-write changes exactly one entry, and no data if the entry lies before the data or behind it; refused exactly for the numbers the range check refuses; a failure changes nothing |
| `FatLayout.EntryWriteKeepsDataExactlyIf` | rpibaremetalos/include/filesystem/fat32_blockio_adapter.h:312-323 | setting an entry leaves the data alone, whatever is written, exactly if the entry lies before the data or behind it, which the range check does not ask |
| `FatLayout.EntryBeforeData` | rpibaremetalos/include/filesystem/fat32_blockio_adapter.h:312-323 | which numbers have their entry before the data; the first past the FAT does exactly if the data does not follow the FAT at once |
| `FatLayout.MaximumOverwritesData` | rpibaremetalos/include/filesystem/fat32_blockio_adapter.h:312-323 | the first number past the FAT passes the range check, and where the data follows the FAT at once, setting its entry overwrites the start of cluster 2 |
| `FatAdapter.BlockIoAdapter.FindNextEmptyCluster` | rpibaremetalos/src/c/filesystem/fat32_blockio_adapter.cpp:216-275 | the least free cluster at or behind the start given, or, when that is 0, at or behind both the root cluster and the hint; device full exactly when there is none below the maximum; the hint never goes back |
| `FatAdapter.BlockIoAdapter.ScanForFreeEntry` | rpibaremetalos/src/c/filesystem/fat32_blockio_adapter.cpp:236-266 | the buffered scan equals the plain one: the buffer always holds the sector of the current index |
| `FatAdapter.BlockIoAdapter.ReadFatBlock` | rpibaremetalos/src/c/filesystem/fat32_blockio_adapter.cpp:306-321 | the buffer holds the sector of the entry |
| `FatAdapter.BlockIoAdapter.ReleaseChain` | rpibaremetalos/src/c/filesystem/fat32_blockio_adapter.cpp:277-304 | on a chain: exactly its entries, or on failure a first part of them, become free; on any FAT contents at all the walk ends |
| `FatAdapter.ZeroingAWord` | rpibaremetalos/src/c/filesystem/fat32_blockio_adapter.cpp:292-301 | each turn of the release walk that goes on lowers the number of non-zero words |
| `Volumes.ExtendChain` | rpibaremetalos/src/c/filesystem/fat32_file.cpp:296-311 | a free cluster linked behind the last one makes a chain longer by one |
| `Volumes.RelinkChain` | rpibaremetalos/src/c/filesystem/fat32_file.cpp:296-311 | one linked behind any cluster of a chain makes a chain of it and those up to there |
| `Volumes.CutKeeps` | rpibaremetalos/src/c/filesystem/fat32_file.cpp:305 | and what lay behind there is a chain of its own, disjoint from it and all others |
| `Volumes.StepKeeps` | rpibaremetalos/src/c/filesystem/fat32_file.cpp:296-311 | every single update, also the link that `Write` sets from a cluster in the middle of a chain, keeps the live chains disjoint and in range, with at most one link open, and every cluster free or in a chain |
| `Volumes.OperationKeeps` | rpibaremetalos/src/c/filesystem/fat32_file.cpp:296-311 | an operation whose updates lead from one FAT to another, beside any other live chains: every cluster is free or in a chain afterwards as before, and the chains are well formed exactly if no link is left open |
| `Volumes.OperationLosesExactlyIf` | rpibaremetalos/src/c/filesystem/fat32_file.cpp:305-306 | of the clusters that are free or in the chain of a file or directory none is missing afterwards exactly if the operation has left no chain to nothing |
| `Volumes.NumberConserved` | rpibaremetalos/src/c/filesystem/fat32_file.cpp:296-311 | and then the number of free clusters and the lengths of all live chains add up to the same |
| `Volumes.LinkSteps` | rpibaremetalos/src/c/filesystem/fat32_directory_cluster.cpp:792-806 | a link followed by its mark extends the chain, one followed by its back-out restores it, and one alone is open |
| `Volumes.LinkFromSteps` | rpibaremetalos/src/c/filesystem/fat32_file.cpp:296-311 | a link from any cluster of a chain, alone or with its mark, leads to the chain up to there with the new cluster, and to what it cuts off |
| `Volumes.OpenLinkSharesCluster` | rpibaremetalos/src/c/filesystem/fat32_file.cpp:305-306 | an input where the mark fails after the link: the chain is none any more, its new cluster is still free, and given out again it is in two chains |
| `Volumes.CutLosesCluster` | rpibaremetalos/src/c/filesystem/fat32_file.cpp:305-306 | an input where a link from the middle of a chain and its mark leave a cluster neither free nor in a chain |
| `Volumes.FullDeviceLosesCluster` | rpibaremetalos/src/c/filesystem/fat32_file.cpp:281-306 | a run of three operations without any failure that gets there: a write that finds the device full, a deletion, an append |
| `Volumes.ReleasedBySteps` | rpibaremetalos/src/c/filesystem/fat32_blockio_adapter.cpp:277-304 | releasing any first part of a chain is a run of steps that loses no cluster and leaves no link open |
| `Volumes.ReachableStatesAreWellFormed` | rpibaremetalos/src/c/filesystem/fat32_directory_cluster.cpp:750-811 | in every state of every run of such operations all chains are well formed and disjoint, exactly as long as none has left a link open, every cluster is free or in a chain, and none is missing exactly if no operation has left a chain to nothing |
| `BlockSequences.PreReadDecides` | rpibaremetalos/src/c/filesystem/fat32_file.cpp:240-259 | one turn leaves the rest of its cluster alone, whatever the stack held, exactly if the offset was past the start or the cluster is filled |
| `BlockSequences.WriteResultIs` | rpibaremetalos/src/c/filesystem/fat32_file.cpp:232-312 | what a whole write leaves of the bytes: those before it, the buffer, and behind it in its last cluster the old ones, those of the stack buffer, or a copy of those one cluster before |
| `BlockSequences.BehindSurvivesExactlyIf` | rpibaremetalos/src/c/filesystem/fat32_file.cpp:232-312 | all bytes behind a write survive, whatever the stack held, exactly if there are none, it ends in a cluster it began inside, it fills a cluster, or the copy happens to be the same |
| `BlockSequences.PatchedBlock` | rpibaremetalos/src/c/filesystem/fat32_file.cpp:240-259 | what one turn of `Write` changes in the bytes of the file |
| `EntryFields.FirstClusterIsSet` | rpibaremetalos/include/filesystem/fat32_directory_cluster.h:757-761 | the first cluster is set in bytes 26 and 27 and, the upper half, 20 and 21 of the entry; it reads back, and no other byte changes |
| `EntryFields.SizeIsSet` | rpibaremetalos/include/filesystem/fat32_directory_cluster.h:778-781 | the size is set in bytes 28 to 31 of the entry; it reads back, and no other byte changes |
| `EntryFields.OtherEntriesKept` | rpibaremetalos/src/c/filesystem/fat32_directory.cpp:526-578 | neither changes what any other entry of the cluster says |
| `FatFile.SetDirectoryEntryFirstCluster` | rpibaremetalos/src/c/filesystem/fat32_directory.cpp:526-551 | changes the first cluster in the one entry on the disk and nothing else; nothing at all when it fails |
| `FatFile.UpdateDirectoryEntrySize` | rpibaremetalos/src/c/filesystem/fat32_directory.cpp:553-578 | changes the size in the one entry on the disk and nothing else; nothing at all when it fails |
| `FatFile.OtherFilesKept` | rpibaremetalos/src/c/filesystem/fat32_file.cpp:188-334 | whatever a write does, a file with a disjoint chain keeps its chain and its bytes |
| `FatFile.LinkNewCluster` | rpibaremetalos/src/c/filesystem/fat32_file.cpp:296-311 | the first free cluster behind the current one, wherever that is in the chain, is linked and marked; after a failure the FAT is as it was, or the link is there and open; what lay behind is cut off; all data stay |
| `FatFile.TakeNewCluster` | rpibaremetalos/src/c/filesystem/fat32_file.cpp:207-221 | the first free cluster at or behind both the root cluster and the hint is marked, or the FAT stays |
| `FatFile.FatFile.Seek` | rpibaremetalos/src/c/filesystem/fat32_file.cpp:19-101 | from any position, also past the size: arrives at the target, cut at the size, exactly if it is the start or not behind the position, and stops at the end of the current cluster otherwise |
| `FatFile.FatFile.SeekEnd` | rpibaremetalos/src/c/filesystem/fat32_file.cpp:14-17 | arrives at the size, or at the end of the current cluster when the position is past the size; what lies before it there is `AppendBase` |
| `FatFile.FatFile.Read` | rpibaremetalos/src/c/filesystem/fat32_file.cpp:103-186 | whatever happens, the bytes appended are those the position moved over; on success they are as many as fit and remain, up to the size, or up to the end of the current cluster from a position past the size |
| `FatFile.FatFile.ReadInTurn` | rpibaremetalos/src/c/filesystem/fat32_file.cpp:103-186 | any run of reads, each with a space of its own, appends together what one read into all the space would |
| `FatFile.ReadsConcatenate` | rpibaremetalos/src/c/filesystem/fat32_file.cpp:103-186 | what such a run appends is one stretch of the contents |
| `FatFile.FatFile.ReachedIs` | rpibaremetalos/src/c/filesystem/fat32_file.cpp:188-334 | what a file holds is the first part of what a write can leave in place |
| `FatFile.FatFile.WriteCurrent` | rpibaremetalos/src/c/filesystem/fat32_file.cpp:240-270 | one cluster becomes what the buffer and the block buffer make of it (`TurnResult`); the bytes before the position stay, and those from the point the pre-read decides on |
| `FatFile.FatFile.NextOrGrow` | rpibaremetalos/src/c/filesystem/fat32_file.cpp:281-311 | inside the file the next cluster; otherwise a new one behind the current one, wherever that is in the chain, which loses exactly what lay behind it; the bytes so far stay; after a failure all is as it was unless a link is left open |
| `FatFile.FatFile.WriteAll` | rpibaremetalos/src/c/filesystem/fat32_file.cpp:232-312 | the loop ends with the whole buffer written or, unless a link is left open, with a first part of it; it is full only when no cluster behind the last it could reach is free; inside the clusters of the file the bytes become exactly `WriteResult` |
| `FatFile.FatFile.TakeFirstCluster` | rpibaremetalos/src/c/filesystem/fat32_file.cpp:207-228 | an empty file gets a chain of one cluster, which its entry names |
| `FatFile.FatFile.EmptyHasRoom` | rpibaremetalos/src/c/filesystem/fat32_file.cpp:207-228 | an empty file can take a cluster exactly if one below the maximum is free at or behind both the root cluster and the hint, and a buffer of at most one cluster fits then |
| `FatFile.FatFile.UpdateSize` | rpibaremetalos/src/c/filesystem/fat32_file.cpp:314-331 | the size grows to the position, in the handle and in the entry on the disk; when that fails the entry is as it was |
| `FatFile.FatFile.Write` | rpibaremetalos/src/c/filesystem/fat32_file.cpp:188-334 | from any position, also past the size, and with any chain: what lay before the position and the buffer; inside the clusters of the file the bytes become exactly `WriteResult`; on a reliable device it succeeds exactly if the new end fits the clusters it can reach; it loses clusters exactly if it grows the file from a cluster that is not its last; when the device is full, the position, the chain, the size and the bytes written; on every outcome the new state of the entry and what becomes of the FAT; unless a link is left open or the entry could not be updated, also after a failure what the file holds |
| `FatFile.FatFile.Append` | rpibaremetalos/src/c/filesystem/fat32_file.cpp:336-350 | on success old contents and buffer exactly if the position is not past the size or the size is 0, and what lies before the end of the current cluster and the buffer otherwise; the same about room, loss, entry and FAT as `Write`; after a failure the contents are the old ones unless a link is left open or the entry could not be updated |
| `FatFile.WriteToEmpty` | rpibaremetalos/src/c/filesystem/fat32_file.cpp:188-334 | on a reliable device a write of at most one cluster to an empty file succeeds exactly if a cluster below the maximum is free at or behind both the root cluster and the hint; the file then holds the buffer and nothing else, and otherwise the device is full and the file stays empty |
| `FatFile.AppendAfterFull` | rpibaremetalos/src/c/filesystem/fat32_file.cpp:336-350 | an append that finds the device full after a part, and then an append of nothing: the file has become longer by that part |
| `FatFile.OtherHandleKept` | rpibaremetalos/src/c/filesystem/fat32_file.cpp:188-334 | a second handle open on another file stays valid and its file holds the same, also with both entries in one cluster |
| `FatFile.WriteBeside` | rpibaremetalos/src/c/filesystem/fat32_file.cpp:188-334 | so whatever becomes of a write, a handle on another file is not affected |
| `DirectorySlots.ScanOfRun` | rpibaremetalos/src/c/filesystem/fat32_directory_cluster.cpp:1101-1165 | the entry iterator reports an entry with the long-name slots gathered in front of it, at most 21 |
| `DirectorySlots.NoRoomMeansNoRun` | rpibaremetalos/src/c/filesystem/fat32_directory_cluster.cpp:214-277 | the count of vacant slots never reaches the number exactly if no such run exists |
| `DirectorySlots.SecondPass` | rpibaremetalos/src/c/filesystem/fat32_directory_cluster.cpp:221-270 | the second pass wraps around to too little room exactly if the search is misled: vacant slots at the end and at the start of the directory together make up the number |
| `DirectorySlots.SomeSearchIsMisled` | rpibaremetalos/src/c/filesystem/fat32_directory_cluster.cpp:221-270 | a directory for which it is |
| `DirectorySlots.EndMarkStays` | rpibaremetalos/src/c/filesystem/fat32_directory_cluster.cpp:721-727 | under the end-mark invariant the mark set behind the new entry is there already |
| `DirectorySlots.CreatingAddsOne` | rpibaremetalos/src/c/filesystem/fat32_directory_cluster.cpp:611-748 | a later scan lists the old entries in their old order and the new one once, and the end-mark invariant is kept; the long name listed is the one written exactly if no long-name slot is left over right before it |
| `DirectorySlots.RemovingTakesOne` | rpibaremetalos/src/c/filesystem/fat32_directory_cluster.cpp:402-492 | marking an entry and any last part of its long-name run takes exactly that entry out of the listing |
| `DirectorySlots.MarkBytes` | rpibaremetalos/include/filesystem/fat32_directory_cluster.h:560-635 | what 0x00, 0xE5, 0x0F and the flag say in the bytes of a slot; a removed entry has 0xE5 in its first byte and 0 in the four bytes of its first cluster, a removed long-name slot 0xE5 in its first byte, and the other bytes stay |
| `DirectorySlots.PartOfRunIsSkipped` | rpibaremetalos/src/c/filesystem/fat32_directory_cluster.cpp:611-748 | a first part of a run without its entry leaves the listing and the end-mark invariant |
| `ClusterSlots.WholeEntries` | rpibaremetalos/include/filesystem/fat32_directory_cluster.h:1126-1134 | clusters hold whole entries |
| `ClusterSlots.OverlaidPatched` | rpibaremetalos/src/c/filesystem/fat32_directory_cluster.cpp:653 | replacing an entry in the cluster buffer replaces the one slot of the directory that lies there |
| `ClusterSlots.OverlaidWritten` | rpibaremetalos/src/c/filesystem/fat32_directory_cluster.cpp:657-660 | writing the buffer back makes the directory what the buffer showed |
| `ClusterSlots.DirectoryGrown` | rpibaremetalos/src/c/filesystem/fat32_directory_cluster.cpp:750-811 | a zeroed cluster behind the last one adds end marks and nothing else |
| `ClusterSlots.EndsAppended` | rpibaremetalos/src/c/filesystem/fat32_directory_cluster.cpp:750-811 | which leaves the listing and the end-mark invariant |
| `Directories.DirectoryCluster.LastCluster` | rpibaremetalos/src/c/filesystem/fat32_directory_cluster.cpp:774-790 | the walk ends at the last cluster of the chain |
| `Directories.DirectoryCluster.LinkOrBackOut` | rpibaremetalos/src/c/filesystem/fat32_directory_cluster.cpp:792-806 | the new link and mark, or on failure the FAT as it was unless the back-out fails too |
| `Directories.DirectoryCluster.AddNewCluster` | rpibaremetalos/src/c/filesystem/fat32_directory_cluster.cpp:750-811 | the slots grow by one cluster of end marks; a failure leaves them, unless the back-out fails too, which leaves the link open |
| `Directories.DirectoryCluster.FindInPass` | rpibaremetalos/src/c/filesystem/fat32_directory_cluster.cpp:229-264 | one pass finds the first room or shows that there is none, also with a count left from the pass before, unless vacant slots at the start make that count up to the number |
| `Directories.DirectoryCluster.FindEmptyBlockOfEntries` | rpibaremetalos/src/c/filesystem/fat32_directory_cluster.cpp:214-277 | the first room for the slots, in the directory or the clusters added to it, exactly if the search is not misled; given up only when two clusters cannot hold them |
| `Directories.DirectoryCluster.PutSlot` | rpibaremetalos/src/c/filesystem/fat32_directory_cluster.cpp:649-719 | one slot is written into the buffer, crossing to the next cluster when this one is full |
| `Directories.DirectoryCluster.WriteLfnSequenceAndClusterEntry` | rpibaremetalos/src/c/filesystem/fat32_directory_cluster.cpp:611-734 | the slots are the old ones and those added, with the run written over the first room and the end mark behind it; after a failure a first part of the run is there |
| `Directories.DirectoryCluster.StepBack` | rpibaremetalos/src/c/filesystem/fat32_directory_cluster.cpp:433-460 | the slot before, in the cluster before if need be; fails at the first slot of the directory |
| `Directories.DirectoryCluster.GetClusterEntry` | rpibaremetalos/src/c/filesystem/fat32_directory_cluster.cpp:380-400 | the entry at the address |
| `Directories.DirectoryCluster.RemoveEntry` | rpibaremetalos/src/c/filesystem/fat32_directory_cluster.cpp:402-492 | marks exactly the entry and its long-name run, backwards across clusters; whatever fails, the directory has not changed or has lost the entry and a last part of its run; the walk falls off the front exactly where the run is not ended before; with 0 for the first cluster it stops at the start of the entry's cluster |
| `Directories.DirectoryIterator.AdvanceCurrentEntry` | rpibaremetalos/src/c/filesystem/fat32_directory_cluster.cpp:971-997 | the next slot, or the end behind the last one of the chain |
| `Directories.DirectoryIterator.NextSlot` | rpibaremetalos/src/c/filesystem/fat32_directory_cluster.cpp:1011-1037 | the slot iterator visits every slot in order |
| `Directories.DirectoryIterator.AsClusterEntry` | rpibaremetalos/src/c/filesystem/fat32_directory_cluster.cpp:1039-1062 | the slot the iterator stands on, read through its buffer |
| `Directories.DirectoryIterator.NextEntry` | rpibaremetalos/src/c/filesystem/fat32_directory_cluster.cpp:1101-1165 | reports the listing of the directory item by item: the next entry with its long-name slots, or the end exactly when nothing is left |
| `LongNames.FillBlocks` | rpibaremetalos/src/c/filesystem/fat32_directory_cluster.cpp:32-96 | the three blocks hold the fragment, a null behind it if there is room, and padding |
| `LongNames.PackedHolds` | rpibaremetalos/include/filesystem/fat32_directory_cluster.h:926-934 | the blocks read back from the 32 bytes, which are a long-name slot with the right flag |
| `LongNames.MakeLongEntry` | rpibaremetalos/src/c/filesystem/fat32_directory_cluster.cpp:15-97 | the entry for a fragment, with number, flag and checksum |
| `LongNames.AppendFilenamePart` | rpibaremetalos/src/c/filesystem/fat32_directory_cluster.cpp:103-144 | appends the characters up to the first null or padding |
| `LongNames.CreateLfnSequenceForFilename` | rpibaremetalos/src/c/filesystem/fat32_directory_cluster.cpp:941-965 | the fragments of thirteen from the last to the first, numbered downwards to 1, with 64 added in the first slot, and the checksum in every one |
| `LongNames.SequenceLies` | rpibaremetalos/src/c/filesystem/fat32_directory_cluster.cpp:941-965 | written in front of a slot, the slots lie there numbered 1, 2 and so on going back, up to the one with the flag; each holds its thirteen characters at bytes 1, 14 and 28 on, two bytes each, then a null and 0xFFFF |
| `LongNames.GetLongName` | rpibaremetalos/src/c/filesystem/fat32_directory_cluster.cpp:1260-1284 | joins the fragments from the last slot to the first |
| `LongNames.LongNameRoundTrip` | rpibaremetalos/src/c/filesystem/fat32_directory_cluster.cpp:941-965 | a name of 1 to 255 characters reads back with an underscore for every character that is not from 0x20 to 0x7E, so as itself exactly if there is none |
| `ShortNames.DecimalIsNumeral` | rpibaremetalos/src/c/filesystem/fat32_filenames.cpp:127 | the decimal text of a tail is its numeral |
| `ShortNames.StrtolOfDigits` | rpibaremetalos/src/c/filesystem/fat32_filenames.cpp:68 | the digits of a tail read as their number, below ten million |
| `ShortNames.ShortFilename.FromCompact` | rpibaremetalos/include/filesystem/fat32_filenames.h:197-228 | the name in an entry, without padding, parsed into name, tail and extension |
| `ShortNames.ShortFilename.FromParts` | rpibaremetalos/include/filesystem/fat32_filenames.h:160-185 | the permissible parts cut to eight and three, parsed into name and tail |
| `ShortNames.ShortFilename.DetectNumericTail` | rpibaremetalos/src/c/filesystem/fat32_filenames.cpp:46-70 | the tail is the digits behind a tilde at the end, and is taken off exactly if there is one |
| `ShortNames.ShortFilename.GenerateFilenameWithTail` | rpibaremetalos/src/c/filesystem/fat32_filenames.cpp:119-149 | name, tilde and digits within eight characters |
| `ShortNames.ShortFilename.AddNumericTail` | rpibaremetalos/include/filesystem/fat32_filenames.h:357-369 | tails from 1 to 999999 and no others |
| `ShortNames.ShortFilename.IsDerivativeOfBasisFilename` | rpibaremetalos/src/c/filesystem/fat32_filenames.cpp:72-117 | the same extension and the same name up to a tilde; without tails the same name |
| `ShortNames.TailIsFound` | rpibaremetalos/src/c/filesystem/fat32_filenames.cpp:46-138 | a tail put behind a name is found again |
| `ShortNames.ConflictIsDerivative` | rpibaremetalos/src/c/filesystem/fat32_filenames.cpp:72-117 | an entry with the very name the basis gets with a tail is a derivative with that tail |
| `ShortNames.ConflictIsSeen` | rpibaremetalos/src/c/filesystem/fat32_filenames.cpp:81-86 | such an entry is recognised exactly if the basis already has a tail |
| `ShortNames.TakePermissible` | rpibaremetalos/src/c/filesystem/fat32_filenames.cpp:263-284 | the permissible form of the text, cut at the room, and whether something was lost: letters become capitals, white space and periods go, and each of the characters forbidden in 8.3 names becomes an underscore |
| `ShortNames.SplitAtLastPeriod` | rpibaremetalos/src/c/filesystem/fat32_filenames.cpp:259-261 | the parts before and behind the last period |
| `ShortNames.GetBasisName` | rpibaremetalos/src/c/filesystem/fat32_filenames.cpp:250-326 | the permissible parts of the long name cut to eight and three, where every forbidden character has become an underscore; the tail 1 exactly if something of the long name does not survive |
| `ShortNames.ImageIs` | rpibaremetalos/src/c/filesystem/fat32_filenames.cpp:20-44 | what becomes of each character: nothing, its capital, an underscore, or itself |
| `NameConflicts.NoteTail` | rpibaremetalos/src/c/filesystem/fat32_directory_cluster.cpp:534-566 | the table is found full exactly when it is |
| `NameConflicts.ScanWindow` | rpibaremetalos/src/c/filesystem/fat32_directory_cluster.cpp:507-580 | one pass over the entries: all tails of the window are taken, or the table shows which are; it comes upon an absent tail exactly if an entry is a derivative of the basis without having a tail |
| `NameConflicts.UnusedTailUnusedName` | rpibaremetalos/src/c/filesystem/fat32_directory_cluster.cpp:494-609 | with a basis that has a tail, an unused tail gives a name that no file or directory has |
| `NameConflicts.InsureShortFilenameDoesNotConflict` | rpibaremetalos/src/c/filesystem/fat32_directory_cluster.cpp:494-609 | ends, with the least tail from 1 on that no derivative uses; with fewer than 999,999 entries that tail is within bounds, and with a basis that has a tail the resulting 8.3 name is in use nowhere; beyond 999,999 the name is left as it was; it reads an absent tail exactly if an entry is a derivative of the basis without having one |
| `NameSearch.GetName` | rpibaremetalos/src/c/filesystem/fat32_directory_cluster.cpp:1260-1284 | the long name, or without one the label or the 8.3 name |
| `NameSearch.Strnicmp` | minimalclib/src/c/strnicmp.c:10-40 | the first pair of characters that are neither the same nor one letter in both cases decides by the codes of the capitals, or zero if the texts end or the count is used up before |
| `NameSearch.EqualIgnoringCase` | rpibaremetalos/src/c/filesystem/fat32_directory_cluster.cpp:921 | of the same length, and in every place the same character or one letter in both cases |
| `NameSearch.FindDirectoryEntry` | rpibaremetalos/src/c/filesystem/fat32_directory_cluster.cpp:880-939 | the first entry of one of the types asked for, with the name in any mixture of case if one is given, or none exactly if there is none |
| `NameSearch.TypeBits` | rpibaremetalos/include/filesystem/fat32_directory_cluster.h:54-67 | which bits of the attribute byte make an entry a file, a directory or a volume, and what type it is made as |
| `NameSearch.NamesStayDistinct` | rpibaremetalos/src/c/filesystem/fat32_directory_cluster.cpp:309-316 | an entry whose name was not found leaves names of its type distinct |
| `NameSearch.TakenNameClashes` | rpibaremetalos/src/c/filesystem/fat32_directory_cluster.cpp:309-316 | one whose name was found does not: the check is needed |
| `NameRules.StripSpacesAndTrailingPeriods` | rpibaremetalos/include/filesystem/fat32_filenames.h:622-633 | the name without spaces in front and without spaces and periods at its end |
| `NameRules.StrippedUnique` | rpibaremetalos/include/filesystem/fat32_filenames.h:622-633 | there is one such name only, and a stripped name stays as it is |
| `NameRules.IsValid` | rpibaremetalos/src/c/filesystem/fat32_filenames.cpp:157-178 | valid are names of 1 to 255 printable characters none of which is forbidden; which error stands for what |
| `NameRules.Is8Dot3Filename` | rpibaremetalos/src/c/filesystem/fat32_filenames.cpp:180-248 | decides whether the parts fit 8.3 with nothing in lower case or forbidden and one period at most, and gives the short name |
| `NameRules.TailPutBack` | rpibaremetalos/include/filesystem/fat32_filenames.h:160-185 | taking a tail off a name and putting it back gives the name exactly if the number has no leading zero |
| `NameRules.EightDotThreeReadsBack` | rpibaremetalos/src/c/filesystem/fat32_filenames.cpp:180-248 | a stripped 8.3 name reads back from its entry exactly if it has no space and no leading zero in a tail |
| `DirectoryOperations.EntryReadsBack` | rpibaremetalos/include/filesystem/fat32_directory_cluster.h:463-488 | the new entry gives back its name, extension and details |
| `DirectoryOperations.Checksum` | rpibaremetalos/include/filesystem/fat32_filenames.h:376-395 | the checksum over the eleven bytes that the short name has in its entry |
| `DirectoryOperations.CreatedListing` | rpibaremetalos/src/c/filesystem/fat32_directory_cluster.cpp:611-748 | room found, clusters added and run written: one more item in the listing, and slots in use stay where they were |
| `DirectoryOperations.CreatingKeepsRunsWhole` | rpibaremetalos/src/c/filesystem/fat32_directory_cluster.cpp:611-748 | where every long-name slot leads to its entry, writing a new run keeps it so, and none is left over in front of it |
| `DirectoryOperations.RemovingKeepsRunsWhole` | rpibaremetalos/src/c/filesystem/fat32_directory_cluster.cpp:402-492 | and so does removing an entry with its whole run |
| `DirectoryOperations.TailedName` | rpibaremetalos/src/c/filesystem/fat32_directory_cluster.cpp:332-336 | the basis name with the least tail that no entry takes; in use nowhere if the basis needs a tail; an absent tail is read exactly if an entry lacks one |
| `DirectoryOperations.ShortNameFor` | rpibaremetalos/src/c/filesystem/fat32_directory_cluster.cpp:325-338 | an 8.3 name stands for itself, any other name gets its basis with the least unused tail; an absent tail is read exactly where `TailAbsent` says |
| `DirectoryOperations.ClearExactlyIf` | rpibaremetalos/src/c/filesystem/fat32_directory_cluster.cpp:494-609 | the short name that the search for a tail leads to is in use nowhere exactly if: a tail that is needed is left to take, or else the one the name is left with is not in use |
| `DirectoryOperations.FewEntriesStayClear` | rpibaremetalos/src/c/filesystem/fat32_directory_cluster.cpp:494-609 | a name that needs a tail gets a short name in use nowhere, with fewer than 999,999 entries |
| `DirectoryOperations.FailedListing` | rpibaremetalos/src/c/filesystem/fat32_directory_cluster.cpp:611-748 | what a first part of the run written does to the listing: nothing before the entry is there |
| `ShortNameClashes.EightDotThreeClashes` | rpibaremetalos/src/c/filesystem/fat32_directory_cluster.cpp:325-330 | the 8.3 name FOO for a file, beside a directory of that name: its short name is in use |
| `ShortNameClashes.UntailedNameClashes` | rpibaremetalos/src/c/filesystem/fat32_directory_cluster.cpp:332-336 | the name foo.txt beside FOO~1.TXT: it needs no tail and gets that very short name |
| `ShortNameClashes.TailIsAbsent` | rpibaremetalos/src/c/filesystem/fat32_directory_cluster.cpp:528-534 | the name foo.txt beside a directory FOO.TXT: the search reads a tail that is not there |
| `ShortNameClashes.TailIsNotAbsent` | rpibaremetalos/src/c/filesystem/fat32_directory_cluster.cpp:528-534 | the name foo~1 beside a directory FOO~1: it does not |
| `DirectoryOperations.NewEntryReads` | rpibaremetalos/src/c/filesystem/fat32_directory_cluster.cpp:325-338 | the new entry reads with the name given exactly if that name comes through |
| `DirectoryOperations.CheckName` | rpibaremetalos/src/c/filesystem/fat32_directory_cluster.cpp:297-316 | an invalid name is refused with its own error; on a reliable device a valid one is refused exactly if an entry of the type has the name in any mixture of case |
| `DirectoryOperations.WriteNewEntry` | rpibaremetalos/src/c/filesystem/fat32_directory_cluster.cpp:340-361 | on success the directory lists what it listed and the new entry, with its numbered long-name slots right before it; a failure adds the entry or nothing; on a reliable device only a full device or too small clusters stop it |
| `DirectoryOperations.CreateEntry` | rpibaremetalos/src/c/filesystem/fat32_directory_cluster.cpp:279-362 | for every name: invalid names and names taken change nothing, and on a reliable device taken means that an entry of the type has the name; on success the directory lists what it listed and one new entry with the details given, of the type of its attribute bits, and with the right short name, which no entry had before exactly if it stays clear (`ShortNameClear`); after a failure the listing is the old one unless only what lies behind the entry failed; if no long-name slot was left over before, none is afterwards, and the name reads back exactly if it comes through, stays distinct then, and in any mixture of case is taken for the next one; the entry lies in a vacant slot, and unless it has an 8.3 name its long name lies right before it in slots numbered from 1 on going back, with the checksum of its eleven bytes of name; only a full device or too small clusters stop it; the FAT changes by steps that lose no cluster, and nothing outside the directory that is in use changes |
| `DirectoryOperations.RenameEntry` | rpibaremetalos/src/c/filesystem/fat32_directory.cpp:656-706 | on success the listing has the new entry with the old first cluster, size, attributes and stamps, and, if the removal did not fail, no longer the old one; names stay distinct; the long name lies right before the new entry, numbered and with the checksum, also when the old run has been removed; a name taken, its own included, changes nothing; the FAT changes by steps that lose no cluster, and nothing else in use changes |
| `DirectoryOperations.WriteEmptyDirectoryCluster` | rpibaremetalos/src/c/filesystem/fat32_directory_cluster.cpp:813-874 | the cluster holds an entry `.` that names the cluster itself, an entry `..` that names the parent, or 0 for the root directory, both with the attribute byte 0x10, the size 0 and the stamps given, and end marks; no other cluster changes |
| `DirectoryOperations.NewDirectoryIsOrderly` | rpibaremetalos/src/c/filesystem/fat32_directory_cluster.cpp:813-874 | such slots list two directories, `.` that leads to the new directory and `..` that leads to its parent, and can be worked on |
| `DirectoryOperations.NewDirectoryOpens` | rpibaremetalos/src/c/filesystem/fat32_directory.cpp:260-349 | the new cluster opened as a directory has exactly these slots |
| `DirectoryOperations.EnterDirectory` | rpibaremetalos/src/c/filesystem/fat32_directory.cpp:306-327 | the entry for the new cluster is created, or the cluster is free again unless freeing fails; it is set free even when the entry is there and only what lies behind it failed |
| `DirectoryOperations.CreateDirectory` | rpibaremetalos/src/c/filesystem/fat32_directory.cpp:260-349 | on success a new entry names a chain of one cluster apart from the parent's, whose cluster holds `.` with its own number and `..` with the parent's; when the entry cannot be created the cluster is free again unless freeing fails, and after a name taken or invalid the FAT is as it was; on every outcome the FAT changes by steps that lose no cluster, and nothing outside the directory that is in use changes |
| `DirectoryRemovals.WholeExactlyIf` | rpibaremetalos/src/c/filesystem/fat32_directory_cluster.cpp:402-492 | a removal leaves no long-name slot over exactly if it takes the whole run |
| `DirectoryRemovals.ReleaseContent` | rpibaremetalos/src/c/filesystem/fat32_directory.cpp:649 | the clusters of the entry become free, the directory stays as it is |
| `DirectoryRemovals.ContentSteps` | rpibaremetalos/src/c/filesystem/fat32_directory.cpp:649 | by steps that lose no cluster and leave no link open |
| `DirectoryRemovals.DeleteEntry` | rpibaremetalos/src/c/filesystem/fat32_directory.cpp:628-653 | on success the listing has lost exactly the entry and the FAT exactly its chain, as far as the device did not fail; data elsewhere stays; long-name slots are left over exactly if the run does not lie in the cluster of the entry; an entry that is none any more changes nothing |
| `DirectoryRemovals.DeletingUndoesCreating` | rpibaremetalos/src/c/filesystem/fat32_directory.cpp:628-653 | deleting an entry whose short name nothing else has restores the listing from before it was created, in its order |

## Left out

- The FAT copies after the first: the code writes the first one only.
- Mounting, the boot record, the entity registry, the file map, the directory cache, logging: the adapter and its layout are given.
- Characters past the class table, above 0x7F, in names that are given.
- NameRules.Is8Dot3Filename: excludes 8.3 names with nothing permissible before the period (`HasBase`), because the code then indexes before the first character of an empty name.
- ShortNames.ShortFilename.FromCompact: excludes names that start with a space, for the same reason.
- ShortNames.ShortFilename.FromParts: excludes names of which nothing permissible is left, for the same reason.
- DirectoryOperations.CreateEntry: excludes those names, and directories for which the search for room is misled; what is written there runs over the end of the directory.
- DirectoryOperations.RenameEntry: excludes the same.
- DirectoryOperations.CreateDirectory: excludes the same.
- Directories.DirectoryCluster.WriteLfnSequenceAndClusterEntry: excludes directories for which the search for room is misled.
- Directories.DirectoryCluster.FindEmptyBlockOfEntries: where the first slot is vacant, asks for no more slots than two clusters have, which is all the smallest clusters need.
- FatAdapter.BlockIoAdapter.PreviousClusterInChain: asks that the walk ends, because the code walks on for ever otherwise (`FatAdapter.WalkEndsExactlyIf`).
- How `DeleteFile` finds the entry and sees that the file is not open, and whether a directory to be removed is empty (it is not looked at): `DeleteEntry` starts behind that.
- The entry object that `WriteLFNSequenceAndClusterEntry` returns: its iterator's buffer is not loaded.  Results are about a fresh scan.
- Time stamps: their bytes are parameters.
- Positions and sizes that do not fit 32 bits: preconditions keep them in range.
- FatFile.FatFile.Write: does not say what the bytes of the file are after a failure that leaves a link open, nor when the new size could not be written to the entry; handle and disk disagree then.
- FatFile.FatFile.Append: leaves out the same.
- Two handles on the same file: one does not learn of the size and the chain the other has made.
- Numbers.Strtol: does not model the result code, because the code assigns the pointer instead of its target.
- Regex.ReMatchp: says nothing about the match length of patterns with other repetitions, or with `$`: what a failed try has counted behind its first character stays in it.
- RegexCompiler.ReMatch: asks for a pattern that is written out of atoms with at most one mark each; for other texts only `RegexCompiler.ReCompile` says what they become.
- RegexPatterns.FindSetting: asks for a name without characters that mean something in a pattern, and says what the value is for names of at most 26 characters; the string the value is put into is large enough.
- A class left in the compiler's buffer by an earlier pattern, where the text of a pattern ends in a backslash: the symbol is kept with its old text.
- Items with an escaped dash, and texts of classes that are not lists of items, mean what the scan makes of them.
- `two_way_short_needle`: it is the long search without the table, and `memmem` does not call it.
- Devices, interrupts, timers, the console, printing and scanning.
