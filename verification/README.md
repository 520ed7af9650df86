# A verified model of the NocturneOS kernel core

This project models the parts of NocturneOS, a kernel in C and Rust, whose
correctness rests on state or arithmetic, and proves what they are for:

- the kernel memory manager: the heap table, the bitmap of physical pages and
  the page map that ties them together (`HeapTable`, `HeapArray`,
  `PhysicalMemory`, `PageAllocator`, `PageSets`, `PageSpace`, `PageMapping`,
  `Paging`, `HeapView`, `KernelMemory`);
- the printf engine with its sinks, and `atoi` and `htoi` as its inverses
  (`NumberText`, `PrintfText`, `NtoaBuffer`, `Printf`, `PrintfLaws`,
  `PrintfFields`, `PrintfReadBack`, `PrintfCompose`, `PrintfSyntax`,
  `PrintfValues`, `PrintfPrefix`);
- byte-addressed access to sector devices by PIO, DMA and AHCI (`ByteRanges`,
  `SectorDisk`, `DmaMemory`, `DmaMachine`, `AtaDisk`, `AtaDma`, `AhciChunks`,
  `AhciDisk`);
- the text console, paths and the disk registry (`ConsoleSheet`, `Console`,
  `PathText`, `PathStack`, `DecimalText`, `DiskRegistry`, `DiskManager`);
- line drawing, the intrusive list, calendar conversion, Internet checksums,
  64-bit division, UTF-16 conversion and the memory operations (`Line`,
  `IntrusiveList`, `Calendar`, `OnesComplement`, `Checksum`, `Division`,
  `UtfText`, `Utf`, `MemText`, `MemOps`).

Code that changes state is a class or a method with loops, proved against
functions on values; the laws are lemmas about those functions. Integers are
unbounded, and 8-, 16-, 32- and 64-bit wrap-around is written out where it can
happen. `dafny verify dfyconfig.toml` checks the whole project.

## What the code does not keep

Some properties one would expect hold only under a condition. Each has a
lemma with the exact condition, and a failing input as a lemma of its own or as
the witness in the proof.

- Multi-page allocation skips full bitmap bytes without ending its run, so it
  can hand out a page in use (`HitRun`, `SkippedByteGivesUsedPage`).
- Freeing several pages adjusts the byte counter only for pages beyond the
  bitmap, so the account is kept exactly when nothing was in use
  (`FreeInsideAccount`, `FreeMultiDrifts`). Loading and dropping programs uses
  memory up with all of it free (`AllocAndFree`, `ExhaustsWithPagesFree`).
- Boot marks one page per 4096 bytes of a reserved entry, counted from the entry
  and not from its page, so the last page can stay free (`EntryCovered`,
  `LastPageMissed`).
- The bitmap can end before memory does (`BitmapReachesEnd`,
  `BitmapFallsShort`).
- Pages marked reserved at boot are not counted, so an allocation below the
  limit can answer 0, which the heap maps as if it were a frame (`NextIsZero`,
  `FrameZeroHappens`, `FrameZeroShared`); without such pages it never does
  (`RunNeverZero`).
- The first heap block ignores its alignment (`AllocAligned`,
  `FirstBlockMisaligned`).
- A moving `krealloc` reads its block from the table after the table may have
  shifted; contents survive exactly when the new block lands after the old one
  (`MoveSourceIsOldBlock`, `MoveLosesContents`). When it does not, the copy can
  also overwrite a third block (`MoveSparesExactly`, `MoveCanSpoilOther`) or
  run into an unmapped page (`Krealloc`, `MoveCanFault`).
- kmalloc maps a page that kfree never gives back (`MallocThenFree`).
- Disk transfers take the frames of a buffer for neighbours, which
  `kmalloc_common` does not make them: reads are right exactly when the frames
  are in step (`AtaDmaExactly`, `AhciRangeExactly`, `ScatteredBufferFails`).
- A number zero-padded to more than 32 characters comes out shorter
  (`FieldWidth`, `WideZeroField`) and loses its sign, as does one with a
  precision of 32 or more (`MinusShows`, `SignGetsLost`).
- The prefix of `%#x` takes the place of digits at certain widths
  (`PrefixedReadsBackExactly`, `PrefixTakesDigits`).
- `..` goes too far up when a name above the last ends in a colon
  (`ApplyUpExactly`, `ColonNameGoesTooFar`), and such a path is not taken for
  absolute (`AbsoluteExactly`, `ColonNameNotAbsolute`).
- A partition's bounds check uses its end on the disk and ignores the length of
  the request (`GuardExactly`, `GuardLetsOut`).
- Generated disk ids repeat after an older disk with partitions is rescanned
  (`RescanFresh`, `OlderRescanRepeats`).
- `ipv4_checksum` folds once only (`HeaderChecksum`, `SingleFoldFails`), and
  `checksum` overflows its 32-bit sum on data longer than 131074 bytes
  (`RightExactly`).

## Model

| member | source | states |
|---|---|---|
| `PhysicalMemory.SetPageView` | kernel/src/mem/pmm.c:56-60 | setting a page's bit makes that page used and changes no other page |
| `PhysicalMemory.ClearPageView` | kernel/src/mem/pmm.c:153-166 | clearing a page's bit frees that page and changes no other page |
| `PageAllocator.Allocator.AllocSinglePage` | kernel/src/mem/pmm.c:38-71 | takes the lowest free page, answers its address and counts 4096 bytes; answers 0 and changes nothing when no page is free; halts exactly at the limit |
| `PageAllocator.Allocator.FreeSinglePage` | kernel/src/mem/pmm.c:153-166 | frees exactly the page of the address and counts it back; the null address is ignored |
| `PageAllocator.Allocator.IsUsedPage` | kernel/src/mem/pmm.c:201-212 | answers whether the page's bit is set |
| `PageAllocator.Allocator.AllocMultiPages` | kernel/src/mem/pmm.c:78-147 | succeeds exactly when the scan meets its condition, then marks exactly `count` consecutive pages from the start of the first such run |
| `PageAllocator.Allocator.FreeMultiPages` | kernel/src/mem/pmm.c:173-198 | clears exactly the pages of the run that the bitmap holds, a count of 0 standing for 2^32; the counter is lowered only by the pages beyond the bitmap, modulo 2^32 |
| `PhysicalMemory.ClearClippedView` | kernel/src/mem/pmm.c:173-198 | after such a free a page of the bitmap is used if and only if it was and does not lie among the pages given back |
| `PhysicalMemory.FreeMultiAccount` | kernel/src/mem/pmm.c:173-198 | a multi-page free keeps the account if and only if what it takes off the counter is what the cleared pages in use amount to |
| `PhysicalMemory.FreeInsideAccount` | kernel/src/mem/pmm.c:173-198 | inside the bitmap: if and only if none of the pages was in use |
| `PhysicalMemory.FreeMultiDrifts` | kernel/src/mem/pmm.c:187-191 | concrete free of one page in use that leaves the account wrong |
| `PageAllocator.Allocator.AllocAndFree` | rust/noct-elfloader/src/lib.rs:77-92 | k rounds of allocating and freeing a free run leave the bitmap as it was and raise the counter by 4096 * count * k; the rounds end in the endless loop if and only if that reaches the size of memory |
| `PhysicalMemory.ExhaustsWithPagesFree` | kernel/src/mem/pmm.c:78-83 | concrete memory in which round 255 never ends although 255 pages are free |
| `PhysicalMemory.HitRun` | kernel/src/mem/pmm.c:88-147 | the run handed out was free if and only if no full (0xff) byte lies inside it; one more free page follows if and only if none lies there either |
| `PhysicalMemory.FailedSearch` | kernel/src/mem/pmm.c:88-147 | a failed search proves that no count + 1 consecutive free pages exist |
| `PhysicalMemory.SkippedByteGivesUsedPage` | kernel/src/mem/pmm.c:92-95 | concrete front of a bitmap of any length for which a page in use is handed out, because full bytes are skipped without ending the run |
| `PhysicalMemory.SkippedByteEndsRun` | kernel/src/mem/pmm.c:92-95 | concrete front with a free run and a full byte right behind it: the extra page is not free |
| `PhysicalMemory.FreeUndoesMark` | kernel/src/mem/pmm.c:173-198 | freeing a run restores the bitmap if and only if the run was free before it was marked |
| `PhysicalMemory.FirstFreeBelow` | kernel/src/mem/pmm.c:38-71 | pigeonhole: with fewer than n pages used, the lowest free page lies below n |
| `PhysicalMemory.RunKeepsAccount` | kernel/src/mem/pmm.c:38-71 | over every run of single-page allocations and frees of held pages, the byte counter stays 4096 times the number of set bits |
| `PhysicalMemory.AllocationSucceeds` | kernel/src/mem/pmm.c:38-71 | with exact accounting, any allocation below the limit finds a free page that is neither page 0 nor behind the end of memory |
| `PhysicalMemory.AllocationFailsWhen` | kernel/src/mem/pmm.c:38-71 | with reserved bytes the counter does not know of, an allocation below the limit fails if and only if counted and reserved bytes fill the bitmap |
| `PageAllocator.Allocator.MarkPageEntry` | kernel/src/mem/pmm.c:215-233 | sets or clears exactly that page's bit and never the counter; a page beyond the bitmap halts |
| `PhysicalMemory.MarkReserves` | kernel/src/mem/pmm.c:215-233 | marking a free page adds its bytes to those the counter does not know of; marking a used one adds none |
| `PageAllocator.Allocator.MarkReserved` | kernel/src/mem/pmm.c:239-261 | exactly the pages of reserved memory map entries become used and the counter stays; in bytes: a page becomes used only if some byte of it lies in an entry of a kind other than 1, and every page but 0 inside such an entry is used; halts if and only if such an entry runs beyond the bitmap |
| `PhysicalMemory.EntryCovered` | kernel/src/mem/pmm.c:252-256 | every page with a byte of a reserved entry is marked if and only if its offset in its first page and its length stay within the pages its length amounts to |
| `PhysicalMemory.LastPageMissed` | kernel/src/mem/pmm.c:252-256 | concrete entry whose last four bytes lie in a page that stays free |
| `PhysicalMemory.BitmapReachesEnd` | kernel/src/mem/pmm.c:298-347 | the bitmap reaches the end of memory if and only if the size is a page multiple or the page count is not a multiple of 256 |
| `PhysicalMemory.BitmapFallsShort` | kernel/src/mem/pmm.c:298-347 | concrete size whose last byte lies behind the bitmap |
| `PhysicalMemory.InitReservesKernel` | kernel/src/mem/pmm.c:298-347 | after initialisation the kernel's pages are the run from page 0 and the accounting is exact |
| `Bits.AlignIsCeiling` | kernel/include/common.h:27 | ALIGN to a power of two gives the least multiple not below the value |
| `HeapArray.Heap.AllocNoMap` | kernel/src/mem/vmm.c:123-240 | the table becomes the old one with the first-fit block inserted (which is at the lowest place of LowestPlace), used memory grows by the size; halts exactly on a full table; the table invariant is kept |
| `HeapArray.Heap.FindGap` | kernel/src/mem/vmm.c:186-223 | the search ends at the first entry behind which the block fits, and never falls through, because of the zero slot behind the last entry |
| `HeapTable.FitsExactly` | kernel/src/mem/vmm.c:186-223 | the test of the search accepts a gap if and only if the table with the block in that gap is sorted and disjoint |
| `HeapTable.LowestPlace` | kernel/src/mem/vmm.c:186-223 | a new block gets the lowest aligned address behind the first block at which it overlaps no block |
| `HeapTable.FreedPlaceReused` | kernel/src/mem/vmm.c:123-274 | after a block is freed, one of its size gets the same address if and only if no lower aligned address has room for it, and never a higher one |
| `HeapArray.Heap.FreeNoMap` | kernel/src/mem/vmm.c:242-274 | removes exactly the entry with that address, closes the hole and lowers used memory by its length |
| `HeapArray.Heap.GetBlockIndex` | kernel/src/mem/vmm.c:413-424 | the first entry with the address, or none |
| `HeapArray.Heap.Resize` | kernel/src/mem/vmm.c:516-575 | in-place length change keeps the table sorted and disjoint and the used memory equal to the sum of lengths |
| `HeapArray.Heap.IsPageUsedByEntries` | kernel/src/mem/vmm.c:373-387 | true exactly if some live block touches the page |
| `HeapTable.AllocWellPlaced` | kernel/src/mem/vmm.c:123-240 | allocation keeps the blocks sorted, pairwise disjoint and behind the heap start |
| `HeapTable.RemoveWellPlaced` | kernel/src/mem/vmm.c:242-274 | so does removal of any entry |
| `HeapTable.FreeUndoesAlloc` | kernel/src/mem/vmm.c:242-274 | removing the entry just inserted restores the table |
| `HeapView.MallocThenFree` | kernel/src/mem/vmm.c:276-474 | kmalloc and kfree of the block restore the table and leave exactly one page more mapped, the one behind those kfree visits, while visited pages no other block touches are unmapped |
| `HeapTable.AllocAligned` | kernel/src/mem/vmm.c:131-223 | the result is aligned if and only if the table was nonempty or the heap start is aligned: the first block ignores the alignment |
| `HeapTable.FirstBlockMisaligned` | kernel/src/mem/vmm.c:131-139 | concrete first block, at the usual heap start, that misses its alignment |
| `HeapTable.PageStartAligned` | kernel/src/mem/vmm.c:37-97 | with the page-aligned heap start, alignments up to a page always hold |
| `HeapTable.AddressNamesBlock` | kernel/src/mem/vmm.c:413-424 | while no block is empty, no two entries share an address |
| `PageMapping.NoAlias` | kernel/src/arch/x86/mem/paging.c:50-103 | distinct mapped virtual addresses never share a physical byte |
| `PageMapping.BackedAfterAlloc` | kernel/src/mem/vmm.c:276-342 | after the mapping loop every page touched by a live block, the new one included, is mapped |
| `PageMapping.MoveSourceIsOldBlock` | kernel/src/mem/vmm.c:556-565 | the copy of a moving reallocation reads the old block if and only if the new entry lands after the old one |
| `PageMapping.LandsAfterMeans` | kernel/src/mem/vmm.c:556-565 | that holds if and only if no gap before the old block takes the new size |
| `PageMapping.MoveLosesContents` | kernel/src/mem/vmm.c:556-565 | whenever it does not hold, there is memory for which the moved block has lost its contents |
| `PageMapping.MoveCanLandBefore` | kernel/src/mem/vmm.c:556-565 | concrete table in which the new entry lands before the old one |
| `PageMapping.MoveSparesExactly` | kernel/src/mem/vmm.c:556-565 | a move leaves every other block alone, whatever memory holds, if and only if it reads the old block or the new one, or a block too short to reach one behind the new place |
| `PageMapping.SparingMoveMeans` | kernel/src/mem/vmm.c:556-565 | without empty blocks that is: the new entry lands at or after the old slot, or the copied block ends before the next block |
| `PageMapping.MoveCanSpoilOther` | kernel/src/mem/vmm.c:556-565 | concrete table in which growing one block overwrites another that nobody named |
| `PageMapping.FrameZeroShared` | kernel/src/mem/vmm.c:297-315 | on every full bitmap two pages mapped one after the other share frame 0, since the answer of the allocator is not looked at |
| `PageMapping.NextFrame` | kernel/src/mem/vmm.c:297-315 | the next frame is the neighbour of the last one if and only if the neighbour is free |
| `PageSets.NeedCounts` | kernel/src/mem/vmm.c:292-328 | the frames a mapping loop needs are one for every unmapped page and one for every missing page table |
| `PageSets.TablesAfterHolds` | kernel/src/arch/x86/mem/paging.c:64-66 | a page table exists afterwards if and only if it did before or an unmapped page of the stretch lies in it |
| `PageSpace.VerdictExactly` | kernel/src/mem/pmm.c:38-71 | asking for k frames ends well, with frame 0 or in the endless loop, each in closed form from the counter, the limit and the free frames |
| `Paging.AddressSpace.NewFrame` | kernel/src/mem/pmm.c:38-71 | a frame that backs nothing yet, or the exact reason there is none |
| `Paging.AddressSpace.MapSinglePage` | kernel/src/arch/x86/mem/paging.c:50-103 | maps one page, taking a frame for a missing page table; it fails exactly if that frame cannot be had; the map stays injective and every frame in it is marked used |
| `Paging.AddressSpace.Release` | kernel/src/arch/x86/mem/paging.c:105-124 | unmaps one page and gives back its frame and no other, from any counter |
| `Paging.AddressSpace.EnsureMapped` | kernel/src/mem/vmm.c:292-328 | ends exactly as the frames needed decide, and then exactly the pages and page tables of the block have been added; no mapping changes |
| `KernelMemory.Kernel.Kmalloc` | kernel/src/mem/vmm.c:276-342 | returns exactly when the table has a slot and the frames needed are there; then the invariant holds, the first-fit block is added, and all other blocks keep their bytes |
| `KernelMemory.Kernel.Kfree` | kernel/src/mem/vmm.c:426-474 | keeps the whole invariant from any counter, removes exactly that block, unmaps exactly the visited pages that no live block touches, and keeps the bytes of all others |
| `HeapView.VisitsRelease` | kernel/src/mem/vmm.c:453-467 | kfree gives back one frame for each of exactly those pages |
| `KernelMemory.Kernel.Krealloc` | kernel/src/mem/vmm.c:476-578 | returns, halts, gets frame 0 or faults exactly as the value model says; then the table, map and counters are the model's; of a block found, exactly one block of the new size stands in place of the old one, at the old address if it was last, shrinks or ends before the next, and no other entry changes; the contents are kept if the new block lands after the old one, and all other blocks are kept if the move spares them |
| `PageMapping.ReallocHolds` | kernel/src/mem/vmm.c:476-578 | every reallocation of a block found, moved or not: as many blocks as before, the same but for one, which has the new size, and the sum of the lengths changes by the difference |
| `HeapView.SafeMoveNeverFaults` | kernel/src/mem/vmm.c:556-565 | a move that lands after the old block never runs into an unmapped page |
| `HeapView.MoveCanFault` | kernel/src/mem/vmm.c:556-565 | concrete table and pages for which krealloc faults |
| `KernelMemory.Kernel.Memcpy` | kernel/src/lib/string.c:132-155 | on mapped areas apart from each other, copies the bytes and changes no other virtual byte |
| `KernelMemory.Kernel.Run` | kernel/src/mem/vmm.c:276-578 | over every run of kmalloc, kfree and krealloc, from any counter: it ends exactly as the fold of the operations over table, map, counter and free frames does, with the invariant (touched pages mapped, frames distinct and marked used); a block no operation names keeps its entry and bytes if every move spares it |
| `HeapView.RunViewTable` | kernel/src/mem/vmm.c:276-578 | the block tables of a run are the fold of first fit, removal and reallocation alone |
| `HeapView.RunKeepsSum` | kernel/src/mem/vmm.c:276-578 | over every run, counted bytes and free frames add up to the same |
| `HeapView.RunNeverZero` | kernel/src/mem/vmm.c:276-578 | no run gets frame 0 as long as counted bytes and free frames reach the size of memory |
| `HeapView.ZeroPossible` | kernel/src/mem/vmm.c:276-342 | for a table with a free slot some kmalloc gets frame 0 if and only if they do not reach it |
| `HeapView.SumOfBitmap` | kernel/src/mem/pmm.c:298-347 | they do when nothing was marked behind the counter's back and the bitmap covers memory |
| `HeapView.NextIsZero` | kernel/src/kernel.c:149-154 | the next frame is frame 0 if and only if the counter is below the limit and counted and reserved bytes fill the bitmap |
| `HeapView.FrameZeroHappens` | kernel/src/mem/vmm.c:297-315 | with no free frame and the counter below the limit, the first kmalloc gets frame 0 |
| `NumberText.DigitsValue` | kernel/src/lib/sprintf.c:271-316 | the digit loop gives the value modulo base^32 |
| `NumberText.NoLeadingZero` | kernel/src/lib/sprintf.c:271-316 | untruncated digits have no leading zero except for zero itself |
| `NumberText.Atoi` | kernel/src/lib/string.c:403-416 | the optional sign and the digits up to the first other character, as a 32-bit two's complement int |
| `NumberText.Htoi` | kernel/src/lib/string.c:418-436 | the hexadecimal value of the text, modulo 2^32 |
| `NtoaBuffer.FillDigits` | kernel/src/lib/sprintf.c:271-291 | fills the buffer with the digits, lowest first, as many as fit |
| `NtoaBuffer.AddPrefix` | kernel/src/lib/sprintf.c:232-252 | the prefix of the '#' flag goes on top within the buffer, after one or two characters are dropped if the buffer is as long as the width or precision |
| `Printf.Strnlen` | kernel/src/lib/sprintf.c:161-166 | the length of a C string, at most the limit |
| `Printf.ReadNumber` | kernel/src/lib/sprintf.c:178-185 | the digit loop reads the number the reference grammar reads |
| `PrintfFields.NumberIsValue` | kernel/src/lib/sprintf.c:178-185 | that number is the decimal value of the digits modulo 2^32 |
| `Printf.ReadDirective` | kernel/src/lib/sprintf.c:591-671 | the loops and branches over flags, width, precision and length give the directive of the reference grammar, taking the same arguments |
| `Printf.Output.Emit` | kernel/src/lib/sprintf.c:133-156 | each sink stores, forwards or drops exactly one character |
| `Printf.Output.OutRev` | kernel/src/lib/sprintf.c:189-213 | emits the reversed buffer in its field, padded on the right side |
| `Printf.Output.NtoaFormat` | kernel/src/lib/sprintf.c:217-267 | emits the number with zeros, prefix, sign and padding of the reference text |
| `Printf.Output.PutDirective` | kernel/src/lib/sprintf.c:672-839 | emits for every specifier the text of the reference |
| `Printf.Output.PutConversion` | kernel/src/lib/sprintf.c:586-839 | reads a directive, emits its text and goes on behind it with the next argument |
| `Printf.Output.Vsnprintf` | kernel/src/lib/sprintf.c:567-847 | characters and return value equal the reference text whatever the sink and maxlen; the buffer sink holds the prefix of length min(n, maxlen-1) and a terminator and nothing else changes |
| `Printf.Vasprintf` | kernel/src/lib/asprintf.c:6-22 | the new buffer holds the whole text and its terminator: never truncated |
| `PrintfCompose.FormatsJoin` | kernel/src/lib/sprintf.c:577-841 | a format whose directives all end in it prints the arguments they take by itself, and whatever format follows prints the rest of the arguments |
| `PrintfCompose.SpecifierThenRest` | kernel/src/lib/sprintf.c:672-839 | each bare specifier d i u x X o b c s p f F e E g G prints and takes exactly one argument, whatever follows |
| `PrintfCompose.OtherThenRest` | kernel/src/lib/sprintf.c:830-838 | %% and unknown specifiers print the character and take no argument |
| `PrintfCompose.TextThenRest` | kernel/src/lib/sprintf.c:577-585 | text in front of any format prints as itself and takes no argument |
| `PrintfCompose.StringThenRest` | kernel/src/lib/sprintf.c:786-810 | %s in front of any format prints the string |
| `PrintfCompose.CharThenRest` | kernel/src/lib/sprintf.c:766-784 | %c in front of any format prints the character with that code |
| `PrintfSyntax.WrittenIsRead` | kernel/src/lib/sprintf.c:591-671 | any flags, width, precision and length written in this order are read with exactly their meaning: which flags occur, decimal values modulo 2^32, asterisks as arguments, 8, 16, 32 or 64 bits |
| `PrintfSyntax.DirectiveThenRest` | kernel/src/lib/sprintf.c:586-839 | any directive in front of any format: it takes one argument for each asterisk and one for its specifier, prints with the meaning it is written with, and the rest prints the rest |
| `PrintfValues.UnsignedReadsBack` | kernel/src/lib/sprintf.c:672-758 | u x X o b with any length field print, in base 10 16 16 8 2 and the right case, the number of that width congruent to the argument; b shows 32 bits of 64 |
| `PrintfValues.SignedReadsBack` | kernel/src/lib/sprintf.c:672-758 | d and i with any length field print the two's complement number of that width congruent to the argument |
| `PrintfValues.WrittenReadsBackExactly` | kernel/src/lib/sprintf.c:586-785 | atoi of a printed %d directive as it is written, asterisks included, returns the int if and only if its sign fits and no plus sign shows |
| `PrintfPrefix.PrefixedReadsBackExactly` | kernel/src/lib/sprintf.c:232-252 | %#x and %#X of any 32-bit number but 0 with any flags, width and precision show 0x and all digits if and only if a precision leaves room for the prefix and the width is not one at which it takes digits |
| `PrintfPrefix.PrefixTakesDigits` | kernel/src/lib/sprintf.c:232-252 | concrete number and width for which digits are lost |
| `PrintfPrefix.HashAlone` | kernel/src/lib/sprintf.c:232-252 | %#o and %#b without a width print 0 and 0b in front of the digits |
| `PrintfPrefix.BarePointer` | kernel/src/lib/sprintf.c:812-828 | %p prints eight upper-case hexadecimal digits with the value of the address |
| `PrintfLaws.LiteralFormat` | kernel/src/lib/sprintf.c:577-585 | a format without directives prints itself up to its terminator |
| `PrintfLaws.PlainText` | kernel/src/lib/sprintf.c:672-785 | a bare %d or %x prints exactly the digits of the argument |
| `PrintfLaws.DecimalPrintedReadsBack` | kernel/src/lib/string.c:403-416 | atoi of printed %d returns the value for every 32-bit int, the least one included |
| `PrintfLaws.HexPrintedReadsBack` | kernel/src/lib/string.c:418-436 | htoi of printed %x returns the value for every 32-bit value |
| `PrintfLaws.PrintedHasNoLeadingZero` | kernel/src/lib/sprintf.c:189-316 | printed numbers have no leading zero except for zero itself |
| `PrintfLaws.BinaryKeepsLowDigits` | kernel/src/lib/sprintf.c:296-316 | base 2 printing of a 64-bit value yields its low 32 digits, because the buffer holds 32 |
| `PrintfFields.FieldWidth` | kernel/src/lib/sprintf.c:217-267 | an integer field is at least as wide as asked for if and only if it is not zero-padded to more than 32 characters |
| `PrintfFields.WideZeroField` | kernel/src/lib/sprintf.c:217-267 | concrete field that comes out too narrow |
| `PrintfReadBack.MinusShows` | kernel/src/lib/sprintf.c:254-264 | for every int, flags, width and precision, the minus sign shows if and only if the number is negative and the 32-character buffer has room for it |
| `PrintfReadBack.DecimalReadsBackExactly` | kernel/src/lib/sprintf.c:189-267 | %d of any int with any flags, width and precision reads back through atoi, its spaces cut off, if and only if a minus sign fits and no plus sign shows; the least int needs no sign and 0 any |
| `PrintfReadBack.SignGetsLost` | kernel/src/lib/sprintf.c:254-264 | concrete negative number printed without its sign |
| `PrintfReadBack.FieldLength` | kernel/src/lib/sprintf.c:217-267 | the exact length of a printed int for any flags, width and precision: its sign column and the digits wanted, or the width, in zeros up to 32 |
| `PrintfReadBack.DigitsShown` | kernel/src/lib/sprintf.c:217-230 | without its spaces an int shows its sign and as many digits as it has or the precision asks for |
| `PrintfReadBack.SpaceShows` | kernel/src/lib/sprintf.c:254-264 | without a width a number starts with a space if and only if the space flag stands without plus and there is room |
| `PrintfFields.StringField` | kernel/src/lib/sprintf.c:786-810 | a string field has the width asked for, shows at most the precision, shows it at the end the flags say, and has spaces elsewhere |
| `PrintfFields.CharacterField` | kernel/src/lib/sprintf.c:766-784 | a character field has the width asked for, the character at the end the flags say and spaces elsewhere |
| `PrintfFields.IgnoredFlags` | kernel/src/lib/sprintf.c:680-720 | directives that differ only in a sign flag for an unsigned number, '#' for a decimal one, or '0' with a precision or '-' print the same |
| `PrintfReadBack.PointerReadsBackExactly` | kernel/src/lib/sprintf.c:812-828 | %p of any address with any flags and precision reads back through htoi if and only if it is 0, has neither sign nor '#' flag, or leaves them no room |
| `SectorDisk.SectorIsSlice` | kernel/src/drv/disk/ata_pio.c:11-54 | a sector is its slice of the disk seen as one byte array |
| `SectorDisk.WriteIsSplice` | kernel/src/drv/disk/ata_pio.c:108-150 | writing a sector replaces its slice and nothing else |
| `SectorDisk.SectorsCover` | kernel/src/drv/disk/ata.c:440-442 | the computed sectors cover the bytes and are no more than needed |
| `AtaDisk.Drive.PioReadSectors` | kernel/src/drv/disk/ata_pio.c:166-178 | reads the flat slice of the sectors into the buffer |
| `AtaDisk.Drive.PioWriteSectors` | kernel/src/drv/disk/ata_pio.c:153-162 | replaces the flat slice of the sectors by the buffer |
| `AtaDisk.AtaWrite` | kernel/src/drv/disk/ata.c:429-454 | turns the flat disk into the old one with exactly [location, location+length) replaced by the buffer |
| `AtaDma.FillPrdt` | kernel/src/drv/disk/ata_dma.c:199-222 | entries of 64 KiB and a last partial one describe consecutive physical bytes, with one end mark |
| `AtaDma.CoversOnce` | kernel/src/drv/disk/ata_dma.c:199-222 | the entries cover every byte of those exactly once and nothing else |
| `AtaDma.DmaReadSectors` | kernel/src/drv/disk/ata_dma.c:178-286 | the sectors are stored from the frame of the buffer's first page on, whatever frames follow; a count of 0 means 256 sectors |
| `AtaDma.AtaReadDma` | kernel/src/drv/disk/ata_dma.c:391-446 | for any frames under the buffer the caller gets exactly what arrived there; when the frames are in step (consecutive within each request) that is the flat slice |
| `DmaMemory.DmaExactly` | kernel/src/drv/disk/ata_dma.c:194-222 | a window that reaches every page of the buffer arrives, whatever the disk holds, if and only if the frames are in step |
| `AtaDma.AtaDmaExactly` | kernel/src/drv/disk/ata_dma.c:404-441 | every byte range is read right by DMA, whatever the disk holds, if and only if the frames are in step |
| `DmaMemory.ScatteredBufferFails` | kernel/src/drv/disk/ata_dma.c:194-222 | concrete buffer on two frames that are not neighbours: its second page does not arrive |
| `AtaDma.AtaRead` | kernel/src/drv/disk/ata.c:387-427 | the PIO path returns the flat slice, the DMA path does when the frames are in step; an offline drive changes nothing |
| `AtaDma.ReadBack` | kernel/src/drv/disk/ata.c:387-454 | reading after writing returns what was written, by PIO always and by DMA when the frames are in step |
| `AhciDisk.Port.ReadSectors` | kernel/src/drv/disk/ahci.c:470-615 | what is copied out is what arrived under any frames of the transfer buffer, its sectors stored from the first frame on, and one sector more |
| `AhciChunks.SpillIsBehind` | kernel/src/drv/disk/ahci.c:607 | the spill of each chunk lies behind the bytes read so far |
| `AhciDisk.AhciRead` | kernel/src/drv/disk/ahci.c:862-907 | for any frames the caller gets exactly what arrived in the chunks; when the frames of every transfer buffer are in step that is the flat slice, for either block size |
| `AhciChunks.AhciRangeExactly` | kernel/src/drv/disk/ahci.c:862-907 | every byte range is read right, whatever the disk holds, if and only if the frames of every transfer buffer are in step |
| `ConsoleSheet.TopStep` | rust/noct-tty/src/console.rs:137-167 | the scroll count never goes down and rises by at most one per character typed |
| `Console.ScrollShows` | rust/noct-tty/src/console.rs:273-278 | scrolling moves the window one row down the sheet |
| `Console.StoreShows` | rust/noct-tty/src/console.rs:77-79 | storing at the cursor's index is writing at its place on the sheet, and on no other cell |
| `Console.Console.constructor` | rust/noct-tty/src/console.rs:42-50 | a fresh console shows the top of a blank sheet |
| `Console.Console.CursorInBounds` | rust/noct-tty/src/console.rs:109-131 | row <= rows and column < columns in every state |
| `Console.Console.PrintChar` | rust/noct-tty/src/console.rs:137-167 | the grid stays exactly the window, from the scroll count on, of the unbounded sheet written with the same wrap rules, whose layout the laws below fix; no index leaves the grid |
| `Console.Console.PrintStr` | rust/noct-tty/src/console.rs:175-271 | the same for any text without escapes and backspaces |
| `Console.PrintableLayout` | rust/noct-tty/src/console.rs:109-116 | from any cursor on, text without control characters fills the sheet cell by cell and changes no other cell |
| `Console.NewlineLayout` | rust/noct-tty/src/console.rs:127-147 | after a text and a newline, of length n, character k of the next text stands in row n / columns + 1 + k / columns, column k % columns, the first text stays, and the cursor is behind the second |
| `Console.CarriageReturnLayout` | rust/noct-tty/src/console.rs:133-156 | after a carriage return the next text starts in column 0 of the same row, and cells it does not reach stay |
| `Console.TabLayout` | rust/noct-tty/src/console.rs:156-162 | a tab is four spaces wherever it stands |
| `PathText.SplitJoin` | rust/noct-path/src/lib.rs:63-94 | splitting undoes joining |
| `PathText.PartsOfText` | rust/noct-path/src/lib.rs:53-61 | disk name and path part of a canonical text are the parts it was made of |
| `PathText.ParentIsParent` | rust/noct-path/src/lib.rs:106-121 | parent gives the parent directory if and only if no name but the last ends in a colon |
| `PathStack.Path.RemoveTrailing` | rust/noct-path/src/lib.rs:96-104 | drops the trailing slashes behind the root |
| `PathStack.Path.Apply` | rust/noct-path/src/lib.rs:63-94 | the loop over segments computes the reference text for relative and absolute paths |
| `PathStack.ApplyRefinesStack` | rust/noct-path/src/lib.rs:63-94 | applying a relative path to a canonical one pushes, pops and skips names on a stack, and the text is canonical again |
| `PathStack.ApplyKeepsDisk` | rust/noct-path/src/lib.rs:53-55 | a relative path never changes the disk name |
| `PathStack.ApplyComposes` | rust/noct-path/src/lib.rs:63-94 | applying a/b is applying a, then b |
| `PathStack.DownAndStay` | rust/noct-path/src/lib.rs:63-94 | a name steps down to it; . and the empty path stay |
| `PathStack.ApplyAbsolute` | rust/noct-path/src/lib.rs:35-75 | an absolute path replaces the location, however many slashes trail it |
| `PathStack.AbsoluteExactly` | rust/noct-path/src/lib.rs:35-51 | a canonical text counts as absolute if and only if no name but the last ends in a colon |
| `PathStack.ColonNameNotAbsolute` | rust/noct-path/src/lib.rs:35-51 | concrete canonical text that does not |
| `PathStack.UpFromRootAndBack` | rust/noct-path/src/lib.rs:106-121 | the root is a fixed point of .. and .. undoes every step down |
| `PathStack.ApplyUpExactly` | rust/noct-path/src/lib.rs:106-121 | .. is right if and only if no name but the last ends in a colon |
| `PathStack.ColonNameGoesTooFar` | rust/noct-path/src/lib.rs:106-121 | concrete path for which .. goes too far up |
| `DiskRegistry.RescanParts` | rust/noct-diskman/src/lib.rs:189-239 | a rescan gives the disk exactly the partitions id.1 .. id.k it found and leaves those of other disks alone |
| `DiskRegistry.PartCovers` | rust/noct-diskman/src/lib.rs:205-231 | a byte of the disk is in a partition if and only if its 512-byte sector is among those of the record |
| `DiskRegistry.RescanDisks` | rust/noct-diskman/src/lib.rs:130-140 | a rescan neither adds nor drops a disk |
| `DiskRegistry.RescanUnchanged` | rust/noct-diskman/src/lib.rs:189-239 | rescanning an unchanged disk keeps the drives as a multiset |
| `DiskRegistry.RegisterKeeps` | rust/noct-diskman/src/lib.rs:34-52 | registering a new id keeps the invariant and gives the disk its partitions |
| `DiskRegistry.RunKeepsSound` | rust/noct-diskman/src/lib.rs:34-239 | over every run of registrations and rescans: distinct disks, every parent strictly before its partitions, partitions numbered without gaps |
| `DiskRegistry.ParentFoundBefore` | rust/noct-diskman/src/partition.rs:36-91 | the parent search ends at the disk before it reaches the partition's own entry |
| `DiskRegistry.PartitionAccess` | rust/noct-diskman/src/partition.rs:36-66 | a partition access never reads its own locked entry, goes to its disk at start + location with its length, and ends past the end exactly by the guard |
| `DiskRegistry.DriveAccess` | rust/noct-diskman/src/lib.rs:82-109 | where every request by id goes: which whole disk, at which offset, past the end, or nowhere for an unknown id; never into its own lock |
| `DiskRegistry.GuardExactly` | rust/noct-diskman/src/partition.rs:36-66 | a request stays inside its partition if and only if the guard turns it away, it is empty, or it ends within the partition's size |
| `DiskRegistry.GuardLetsOut` | rust/noct-diskman/src/partition.rs:36-66 | so some request leaves the partition if and only if the partition's end is not byte 0 |
| `DiskRegistry.GuardLetsByteOut` | rust/noct-diskman/src/partition.rs:36-66 | and some one-byte request does if and only if the partition does not start at byte 0 |
| `DiskManager.Manager.RemovePartitions` | rust/noct-diskman/src/lib.rs:130-140 | drops exactly the disk's partitions, in place, keeping the order |
| `DiskManager.Manager.RescanDisk` | rust/noct-diskman/src/lib.rs:189-239 | the list becomes the rescanned one; the invariant is kept |
| `DiskManager.Manager.RegisterDrive` | rust/noct-diskman/src/lib.rs:34-52 | the list becomes the registered one; the invariant is kept |
| `DecimalText.ParseOfDec` | rust/noct-diskman/src/lib.rs:54-71 | parsing undoes printing for every usize |
| `DiskManager.GeneratedIdFresh` | rust/noct-diskman/src/lib.rs:54-71 | the generated id is new if and only if the driver has no disk or its last entry belongs to its newest disk |
| `DiskManager.RescanFresh` | rust/noct-diskman/src/lib.rs:54-71 | after rescanning disk m the generated id is new if and only if m is the newest disk or no partition was found |
| `DiskManager.OlderRescanRepeats` | rust/noct-diskman/src/lib.rs:54-71 | concrete registry in which it repeats |
| `DiskManager.RunKeepsIdsFresh` | rust/noct-diskman/src/lib.rs:34-71 | over every run of prefix-free drivers that rescans older disks only to find nothing, every generated id is new |
| `DiskManager.EmptyIsReady` | rust/noct-diskman/src/lib.rs:24-32 | the empty registry is a start for such runs |
| `Line.DrawLine` | kernel/src/gui/line.c:6-43 | sets exactly the spans around the max(dx,dy)+1 nearest points from start to end, in order |
| `Line.TestsAreRight` | kernel/src/gui/line.c:30-41 | the two tests on the error term choose the next nearest point |
| `Line.NearestIsRounded` | kernel/src/gui/line.c:16-41 | the minor coordinate is the one integer nearest to the ideal line, ties towards the start |
| `Line.WithinHalfPixel` | kernel/src/gui/line.c:16-41 | after a x-steps and b y-steps, 2*abs(b*dx - a*dy) <= max(dx,dy) |
| `Line.LineEnds` | kernel/src/gui/line.c:26-28 | the first point is the start and the last is the end |
| `Line.EndsAtLast` | kernel/src/gui/line.c:26-28 | the end is reached with the last point only |
| `Line.StaysBetween` | kernel/src/gui/line.c:19-42 | no point lies outside the box between the ends |
| `Line.Connected` | kernel/src/gui/line.c:19-42 | consecutive points differ, and by at most one in each coordinate |
| `Line.Transposed` | kernel/src/gui/line.c:6-43 | swapping the axes swaps the coordinates of every point |
| `Line.ErrorBounded` | kernel/src/gui/line.c:30 | the doubled error term stays within three times the longer side |
| `Line.ThickMembers` | kernel/src/gui/line.c:21-23 | a pixel is set if and only if twice its distance to a centre in its row is at most the thickness, or the thickness is -1 and it is a centre |
| `IntrusiveList.List.Add` | kernel/src/lib/list.c:16-33 | appends at the tail if the item was never on a list, and changes nothing otherwise |
| `IntrusiveList.List.Remove` | kernel/src/lib/list.c:35-45 | deletes one member from the sequence and leaves the item's own fields, its list field included |
| `IntrusiveList.List.WalkForward` | kernel/src/lib/list.c:16-33 | following next from the first item visits the sequence |
| `IntrusiveList.List.WalkBackward` | kernel/src/lib/list.c:16-33 | following prev visits its mirror image |
| `IntrusiveList.Run` | kernel/src/lib/list.c:11-45 | every run of adds and removes of members does to the linked items what it does to the sequence; count stays the length |
| `IntrusiveList.PutAgain` | kernel/src/lib/list.c:17 | after any run, adding an item that was ever added changes nothing |
| `Calendar.ConvertUnix` | kernel/src/lib/time_conversion.c:29-69 | for every 32-bit time, the one legal date that many seconds after 1970; both loops end, the year fits in 16 bits |
| `Calendar.DateConvertToUnix` | kernel/src/lib/time_conversion.c:5-27 | the seconds of the date modulo 2^32 |
| `Calendar.MonthsByRule` | kernel/src/lib/time_conversion.c:14-21 | the days before a month are 59, the leap day and (153 * (m - 2) + 2) / 5 from March on |
| `Calendar.LeapDays` | kernel/src/lib/time_conversion.c:9-12 | the days before a year in closed form: 365 for each and the years divisible by 4, less those by 100, and those by 400 |
| `Calendar.SecondsOrder` | kernel/src/lib/time_conversion.c:5-27 | of two legal dates the earlier one, field by field from the year to the second, has fewer seconds |
| `Calendar.SecondsInjective` | kernel/src/lib/time_conversion.c:29-69 | no two legal dates have the same number of seconds |
| `Calendar.TimeRoundTrip` | kernel/src/lib/time_conversion.c:5-69 | every 32-bit time comes back |
| `Calendar.DateRoundTrip` | kernel/src/lib/time_conversion.c:5-69 | a legal date comes back if and only if its seconds fit in 32 bits |
| `Checksum.TcpChecksum` | kernel/src/net/tcp.c:66-86 | the complement of the folded 32-bit sum, which is the RFC 1071 checksum up to 131074 bytes |
| `Checksum.OddPadding` | kernel/src/net/tcp.c:75-78 | an odd byte counts as a word with a zero byte behind it |
| `Checksum.RightExactly` | kernel/src/net/tcp.c:66-86 | it is the RFC 1071 checksum for all data of a length if and only if the length is at most 131074 |
| `Checksum.OnesSumIsResidue` | kernel/src/net/tcp.c:66-86 | one's complement sums keep the residue modulo 65535 of the ordinary sum |
| `OnesComplement.FoldIsResidue` | kernel/src/net/tcp.c:80-83 | the fold loop ends in that residue |
| `Checksum.StoredChecksumVerifies` | kernel/src/net/tcp.c:66-86 | storing the checksum in a zeroed aligned field makes the checksum of the whole zero |
| `OnesComplement.SwapSwap` | kernel/src/net/endianess.c:8-14 | swapping the bytes of a word twice gives it back |
| `Checksum.ByteOrderIndependent` | kernel/src/net/endianess.c:8-14 | summing byte-swapped words gives the byte-swapped sum |
| `Checksum.Ipv4Checksum` | kernel/src/net/ipv4.c:67-83 | the complement of the once-folded sum of the ten swapped words |
| `OnesComplement.SingleFoldExactly` | kernel/src/net/ipv4.c:78-80 | a single fold equals the loop if and only if low half plus carry is below 65536 |
| `Checksum.HeaderChecksum` | kernel/src/net/ipv4.c:67-83 | the swapped result is the header's RFC 1071 checksum if and only if that holds |
| `Checksum.SingleFoldFails` | kernel/src/net/ipv4.c:67-102 | concrete header, built as ipv4_send_packet does, for which the single fold is wrong |
| `Division.UDivMod` | kernel/src/lib/intrin.c:3-32 | quotient and remainder for every 64-bit numerator and nonzero denominator; a divide fault for zero |
| `Division.Justify` | kernel/src/lib/intrin.c:14-17 | the denominator is shifted up to its top bit without losing one, and the shift ends |
| `Division.Halved` | kernel/src/lib/intrin.c:19-26 | the remaining numerator stays below twice the shifted denominator while the bit moves down |
| `Utf.Utf16ToUtf8` | kernel/src/lib/utf_conversion.c:8-44 | the front of the buffer holds the converted text and the rest is unchanged, for any input |
| `UtfText.ReadsWellExactly` | kernel/src/lib/utf_conversion.c:15-25 | the code points read are scalar values that make the input up if and only if the input is well-formed |
| `UtfText.OutputDecodes` | kernel/src/lib/utf_conversion.c:8-44 | then the output decodes strictly to the same code points |
| `UtfText.TextComesBack` | kernel/src/lib/utf_conversion.c:8-44 | any text, as UTF-16 through the conversion and decoded, comes back |
| `UtfText.DecodeUtf8All` | kernel/src/lib/utf_conversion.c:28-42 | decoding the bytes written for scalar values gives them back |
| `UtfText.DecoderIsStrict` | kernel/src/lib/utf_conversion.c:28-42 | the decoder accepts nothing but the bytes written for the values it returns |
| `MemOps.Memcpy` | kernel/src/lib/string.c:132-155 | copying by words and a tail copies exactly the bytes, for areas apart from each other |
| `MemOps.Memmove` | kernel/src/lib/string.c:229-252 | the destination gets the old source bytes and nothing else changes, for any overlap |
| `MemOps.Memset` | kernel/src/lib/string.c:166-220 | exactly the area is filled with the low byte of the value; word stores start at a word boundary |

## Left out

- Port and memory-mapped I/O, polling, interrupts and device identification in
  all drivers: hardware is an array of sectors whose transfers succeed.
- The scheduler and preemption: operations run one at a time.
- Floating-point formatting: the text of a floating-point conversion is a
  parameter of the printf model. `lib/math` is not part of the model.
- Page table bytes and the recursive last slot of the page directory: page
  tables and pages are maps from page numbers to frames.
- `kmalloc_common_contiguous`, which takes frames past the heap's own bookkeeping.
- `scan_partitions`: what a scan finds is a parameter of every rescan.
- Console escape sequences, attributes and backspace, with which the cursor can
  leave the grid.
- ATAPI reads over ATA, `ata_dma_write` and AHCI port set-up.
- Floppy driver, filesystem adapters, shell, graphics beyond lines, logging,
  TCP and DHCP state: glue, or sketches that stop on most packets.
- HeapArray.Heap.AllocNoMap: requires that the block and its alignment end below
  4 GiB, so that no address wraps; the same holds of Kmalloc and Krealloc with
  two pages to spare, and a run stops where it would not hold.
- KernelMemory.Kernel.Run: stops where the allocator answers 0. The code goes on
  and maps frame 0, also as a page table; maps from page numbers to frames do
  not capture two page tables in one frame.
- PageAllocator.Allocator.MarkReserved: addresses of memory map entries do not
  wrap at 32 bits.
- PageAllocator.Allocator.FreeMultiPages: the byte counter is not given a width;
  it agrees with the source's modulo 2^32.
- Printf.Output.Vsnprintf: missing or mistyped arguments read as 0 or the empty
  string, a format that ends inside a directive ends there, and the character
  index is not given a width. Writing behind a buffer shorter than maxlen is
  reported, not performed.
- AtaDisk.AtaWrite: location + length does not wrap at 32 bits, and lies within
  the disk.
- AtaDma.AtaReadDma: where `kmalloc_common` puts the buffer is a parameter; NextFrame
  says when its frames are neighbours. A transfer gone astray hits other frames
  too; the model follows it in physical memory, but the caller's buffer is not
  among those frames.
- AhciDisk.AhciRead: length is at least 1 and the range lies within the disk; where
  the transfer buffers lie is a parameter. The table has one entry, as it does
  for up to 64 sectors, which is all that is ever asked for.
- PathStack.ApplyRefinesStack: letters and digits are the ASCII ones; names ending
  in a colon are treated by ApplyUpExactly.
- DiskRegistry.RunKeepsSound: ids of whole disks have no dots; sector numbers do
  not wrap at 32 bits; `Partition::control` appears only through its parent search.
- DiskManager.RunKeepsIdsFresh: at most 2^32 - 1 disks per driver.
- Line.DrawLine: int overflow is not modelled; by ErrorBounded there is none for
  lines up to 715827882 pixels long. Pixels are listed, not stored.
- IntrusiveList.List.Remove: requires a member; removing an item twice would
  rewire stale neighbours.
- Calendar.DateConvertToUnix: requires a month of at most 13, since the source
  reads behind its table for more.
- Checksum.Ipv4Checksum: headers of 20 bytes, the size of the source's struct.
- Utf.Utf16ToUtf8: the unit behind the input, which the source reads after a
  surrogate at the end, is a parameter; the buffer is long enough.
- MemOps.Memset: addresses are array indices and do not wrap; the same holds of
  Memcpy, whose areas must not overlap, and of Memmove.
