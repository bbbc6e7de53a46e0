# Verified model of SeaBIOS cores

This project models the algorithms of SeaBIOS 1.13.0 that are hard to get right by reading
them, and proves what they are for. `dafny verify dfyconfig.toml` checks all of it.

| module | what it models |
|---|---|
| `E820` | the memory map: one routine that splits, merges, trims and inserts, as overwriting a map from addresses to types |
| `HList`, `Zones`, `ZoneLists`, `Allocator`, `HeapLists`, `Restore` | the zone allocator: pointer lists, entries that tile their regions, these as linked structures in memory, bookkeeping records that live in the zones they describe, and whole runs |
| `OptionRoms`, `Boot` | two clients of the allocator: option ROMs growing towards low memory, and the e820 map from start-up to boot with PMM requests in between |
| `BitStream`, `Huffman`, `Mcus` | the JPEG entropy decoder: a bit reader with refill and push-back, lookahead tables with a canonical fallback, and the blocks of an MCU, against ITU-T T.81 |
| `Leal` | the rewriting of `leal`, `call` and `ret` by vgafixup.py as a transformation that preserves meaning |
| `Layout`, `Reachable`, `Relocs` | the ROM: placing sections, finding the ones that are needed, recording relocations and moving the init code at run time |
| `Threads` | the cooperative thread ring on its pointers, its fairness over all runs, and mutexes |
| `Sha1`, `TpmLog` | SHA-1 against RFC 3174, and the TPM event log with the digests of TPM 2.0 |
| `Cdrom`, `Chs`, `Scroll` | CD sector re-blocking, disk geometry, and scrolling a text window in place |
| `Arith`, `Sequences`, `Wrappers` | arithmetic, facts about permutations and the optional value that several modules need |

Code that changes state is modelled by classes and methods with the source's own steps, each
tied to a function or predicate on values; what the source promises is then proved of those.
Machine words are integers with the wrap-around written out, and bit vectors in `Sha1`.

Where the code does less than one might expect, the model follows the code and the exact
condition is proved: `e820_add` loses addresses when its table is full (`E820.Map.Add`),
the wrap check of `alloc_new` fails for sizes near 2^32 (`Allocator.SafeSizes`), a live block
can be shadowed by an empty region (`Allocator.FreeableExactly`, `Restore.CannotBeFreed`), `retw` returns only below
64K (`Leal.FixedRetReturns`), no list covers a pc-relative reference from init code to a symbol
in no section (`Relocs.RelocatedIsRelinked`), `setSectionsStart` passes its limit when it
runs below zero (`Layout.SetSectionsStart`, `Layout.TooMuchCode`), `rom_reserve` accepts sizes near
2^32 (`OptionRoms.SafeRomSizes`), and the overflow test of the TPM log is right only for sizes that
do not wrap into the area (`TpmLog.OverflowTest`).

## Model

| member | source | states |
|---|---|---|
| `E820.CanonicalUnique` | bios/seabios-1.13.0/src/e820map.c:75-138 | A sorted, disjoint, non-empty and maximally merged list is the only one of its kind that denotes a given map from addresses to types |
| `E820.Map.RemoveEntry` | bios/seabios-1.13.0/src/e820map.c:21-28 | The entry at an index disappears from the array; the others keep their order |
| `E820.Map.InsertEntry` | bios/seabios-1.13.0/src/e820map.c:30-46 | An entry is inserted at its index; a full table drops it silently and nothing changes |
| `E820.Map.FindPosition` | bios/seabios-1.13.0/src/e820map.c:90-95 | The search stops at the first entry that ends at or behind the new start |
| `E820.Map.Split` | bios/seabios-1.13.0/src/e820map.c:103-108 | An entry of another type that spans the new start is cut, and its rest behind the new end is kept; only that rest can be lost to a full table |
| `E820.Map.Place` | bios/seabios-1.13.0/src/e820map.c:88-111 | Position, merge to the left and split: the list still owes exactly the overwritten range to the map |
| `E820.Map.Clear` | bios/seabios-1.13.0/src/e820map.c:112-133 | Overlapped entries go, the last one is trimmed or merged; the list still owes exactly the overwritten range |
| `E820.Map.Add` | bios/seabios-1.13.0/src/e820map.c:77-138 | The list becomes the canonical list of the map overwritten with the new type on [start, start+size) if and only if the entries needed, counted before the call from the pieces that the range leaves of each entry, are at most 32; that is at most two more than before (one for a hole); what a full table loses are whole addresses, never a wrong type |
| `E820.Map.Remove` | bios/seabios-1.13.0/src/e820map.c:140-145 | Addresses in the range have no type afterwards, all others keep theirs, and one free slot is enough |
| `E820.FitsOrNothingDoes` | bios/seabios-1.13.0/src/e820map.c:34-37 | The list that did not fit is the only canonical one: no other list of 32 entries would have done |
| `E820.AddIdempotent` | bios/seabios-1.13.0/src/e820map.c:77-138 | Adding a range twice gives the list of adding it once |
| `E820.DisjointAddsCommute` | bios/seabios-1.13.0/src/e820map.c:77-138 | Adds of ranges that do not meet give the same list in either order |
| `E820.LaterAddWins` | bios/seabios-1.13.0/src/e820map.c:77-138 | An add that covers an earlier one leaves no trace of it |
| `E820.InnerAddNeedsTwoSlots` | bios/seabios-1.13.0/src/e820map.c:102-108 | A range of another type inside an entry takes exactly two more entries, so the bound of two is reached |
| `E820.FinishStep` | bios/seabios-1.13.0/src/e820map.c:77-138 | The list that an unbounded table would get has exactly the entries counted beforehand |
| `E820.SomethingIsLost` | bios/seabios-1.13.0/src/e820map.c:34-37 | Where a full table makes the list differ from the right one, some address has lost its type |
| `E820.AlmostFull` | bios/seabios-1.13.0/src/e820map.c:30-46 | A table of 31 entries in which reserving a page inside one of them leaves an address without its type |
| `Leal.HandleLeal` | bios/seabios-1.13.0/scripts/vgafixup.py:29-71 | Every accepted operand form yields instructions that, on every state and whatever the flags become in between, set the destination to offset+base+index*scale mod 2^32, with scale 1 where none is written, and change no flag, no other register and no memory but the six bytes below %esp; exactly the forms with %esp as index or a written scale other than 1, 2, 4, 8 are refused |
| `Leal.SequenceReplaces` | bios/seabios-1.13.0/scripts/vgafixup.py:40-71 | The same for the sequence as produced from the rearranged operands |
| `Leal.RearrangedOk` | bios/seabios-1.13.0/scripts/vgafixup.py:40-46 | The rearrangement of base, index and scale keeps the address |
| `Leal.DirectReplaces` | bios/seabios-1.13.0/scripts/vgafixup.py:48-58 | The sequence computed in the destination register, with the +2 that makes up for the pushed flags when the base is %esp |
| `Leal.ImullReplaces` | bios/seabios-1.13.0/scripts/vgafixup.py:59-61 | The multiplication by scale+1 when base and index are the destination |
| `Leal.BorrowingReplaces` | bios/seabios-1.13.0/scripts/vgafixup.py:62-67 | The sequence that scales the index register in place gives the register back |
| `Leal.FixedCallLooksTheSame` | bios/seabios-1.13.0/scripts/vgafixup.py:84-85 | pushw %ax ; callw leaves every register as a 32-bit call does and differs in memory only in the four bytes of the return address |
| `Leal.FixedRetReturns` | bios/seabios-1.13.0/scripts/vgafixup.py:80-81 | After a callee that behaves the same behind either call, ret and retw $2 leave the same registers and the caller's stack pointer, and lead to the same place if and only if the return address is below 64K |
| `Leal.FarCallIsLost` | bios/seabios-1.13.0/scripts/vgafixup.py:80-85 | A call whose return address is 64K comes back to address 0 after the rewriting |
| `BitStream.UnstuffStuff` | bios/seabios-1.13.0/src/jpeg.c:483-509 | Byte stuffing is undone: the data between two markers comes back, and so do the marker and the position behind it |
| `BitStream.UnstuffNext` | bios/seabios-1.13.0/src/jpeg.c:493-504 | Reading byte by byte: ff 00 is ff, ff with another byte behind it ends the data with that marker, any other byte is itself |
| `BitStream.Reader.constructor` | bios/seabios-1.13.0/src/jpeg.c:475-481 | The reader starts with no bits at the first bit of the stream |
| `BitStream.Reader.FillBits` | bios/seabios-1.13.0/src/jpeg.c:483-509 | No bit is lost or repeated by a refill: the position in the stream stays, at least 16 bits are available afterwards, never more than 32, and zeros follow the last byte before a marker |
| `BitStream.Reader.FillZeros` | bios/seabios-1.13.0/src/jpeg.c:487-491 | Once a marker is seen, sixteen zero bits are supplied |
| `BitStream.Reader.GetBits` | bios/seabios-1.13.0/src/jpeg.c:527-531 | Returns the next n bits of the unstuffed stream, most significant first, and moves on by n |
| `BitStream.Reader.UngetBits` | bios/seabios-1.13.0/src/jpeg.c:533-535 | Gives the bits of the last read back: the position is n bits earlier |
| `BitStream.Reader.ReadMarker` | bios/seabios-1.13.0/src/jpeg.c:511-521 | Reports the marker that ends the stream, when the reader has come near it, and goes on behind it; otherwise the position stays |
| `Huffman.MaxFits` | bios/seabios-1.13.0/src/jpeg.c:639-666 | For lengths that satisfy the Kraft inequality no code overflows its length |
| `Huffman.CodeIsCanonical` | bios/seabios-1.13.0/src/jpeg.c:639-665 | The code list of ITU-T T.81 Annex C is the one the sizes loop counts through |
| `Huffman.MatchUnique` | bios/seabios-1.13.0/src/jpeg.c:538-569 | At most one code of a canonical list is a prefix of the stream |
| `Huffman.BelowMaxMatches` | bios/seabios-1.13.0/src/jpeg.c:549-555 | The first i bits below maxcode mean that a code of at most i bits is there |
| `Huffman.StartsUnique` | bios/seabios-1.13.0/src/jpeg.c:645-658 | No lookahead slot belongs to two codes |
| `Huffman.Table.FillBlock` | bios/seabios-1.13.0/src/jpeg.c:648-659 | All 1024-entry table slots that begin with one code get that code's entry, no other slot changes |
| `Huffman.Table.AddCode` | bios/seabios-1.13.0/src/jpeg.c:643-663 | One code more is in the tables |
| `Huffman.Table.AddLevel` | bios/seabios-1.13.0/src/jpeg.c:641-665 | All codes of one length more are in the tables |
| `Huffman.Table.Make` | bios/seabios-1.13.0/src/jpeg.c:621-667 | dec_makehuff fills every table as decoding needs it, from any contents before |
| `Huffman.LookaheadEntry` | bios/seabios-1.13.0/src/jpeg.c:628-637 | What a filled slot says, for every stream that begins with the code: run, whether the value is known, the value or its size, and the bits to give back |
| `Huffman.UnpackKnown` | bios/seabios-1.13.0/src/jpeg.c:631-632 | The packed fields of an entry with a known value come apart again, with the sign of the value |
| `Huffman.UnpackUnknown` | bios/seabios-1.13.0/src/jpeg.c:633-634 | The packed fields of an entry with an unknown value come apart again |
| `Huffman.SearchCode` | bios/seabios-1.13.0/src/jpeg.c:549-556 | The bit by bit search finds the code of more than ten bits if there is one, and reports a bad code if there is none |
| `Huffman.ExtendMagnitude` | bios/seabios-1.13.0/src/jpeg.c:565-566 | The magnitude categories of T.81: what t bits stand for has an absolute value of exactly t bits, is positive exactly when the top bit is set, and gives the bits back |
| `Huffman.DecRec2` | bios/seabios-1.13.0/src/jpeg.c:538-569 | The fallback decodes run and value as DECODE, RECEIVE and EXTEND of T.81 do and consumes the same bits; in numbers, the value has the magnitude category that the code names and the bits behind the code are its number in that category |
| `Huffman.DecRec` | bios/seabios-1.13.0/src/jpeg.c:571-587 | Table lookup with fallback succeeds exactly when a code is there, and then gives run, value and consumed bits of T.81 Annex F.2.2; in numbers, 2^(t-1) <= |value| < 2^t for a code of category t > 0, and the t bits v behind it are the value itself if positive, exactly when v >= 2^(t-1), and the value plus 2^t - 1 otherwise |
| `Huffman.DecodedUnique` | bios/seabios-1.13.0/src/jpeg.c:571-587 | Run, value and end of T.81 decoding are determined by the stream |
| `Huffman.DecodeAc` | bios/seabios-1.13.0/src/jpeg.c:602-614 | The coefficient loop writes exactly the 63 coefficients the stream encodes and a bound behind which they are zero |
| `Mcus.RemembersLast` | bios/seabios-1.13.0/src/jpeg.c:599-600 | The DC coefficient a component starts from is that of its last block |
| `Mcus.DecodeBlock` | bios/seabios-1.13.0/src/jpeg.c:598-614 | One block: the DC coefficient is the component's last one plus the coded difference, then the 63 AC coefficients; the bound for idct has only zeros behind it |
| `Mcus.DecodeMcus` | bios/seabios-1.13.0/src/jpeg.c:589-619 | All blocks of an MCU, each with the tables and the prediction of its component, are those the stream encodes; the stream is consumed up to their end, and nothing else of the buffer changes |
| `HList.Machine.Del` | bios/seabios-1.13.0/src/list.h:25-33 | The list loses the node and keeps the others in order; no cell outside list and node changes |
| `HList.Machine.Add` | bios/seabios-1.13.0/src/list.h:35-44 | The list has the node at the place that pprev names |
| `HList.Machine.AddBefore` | bios/seabios-1.13.0/src/list.h:52-56 | The node stands before the given one |
| `HList.Machine.AddAfter` | bios/seabios-1.13.0/src/list.h:58-62 | The node stands behind the given one |
| `HList.Machine.Replace` | bios/seabios-1.13.0/src/list.h:64-72 | The new node takes the old one's place |
| `HList.DelIsList` | bios/seabios-1.13.0/src/list.h:25-33 | Unlinking on pointers refines removal from the sequence |
| `HList.AddIsList` | bios/seabios-1.13.0/src/list.h:35-44 | Linking on pointers refines insertion into the sequence |
| `HList.ReplaceIsList` | bios/seabios-1.13.0/src/list.h:64-72 | Replacing on pointers refines replacement in the sequence |
| `HList.ListFrame` | bios/seabios-1.13.0/src/list.h:12-18 | A list depends on its own cells only |
| `HList.Machine.MoveRecord` | bios/seabios-1.13.0/src/malloc.c:90-94 | Copying a record and replacing its two nodes leaves the list sequences unchanged but for the record's address, for nodes in two lists, in one list and for neighbours; the other fields are those copied and no other cell changes |
| `Zones.TilesSorted` | bios/seabios-1.13.0/src/malloc.c:50-130 | Entries that tile their regions are in strictly descending order, except possibly an empty base entry |
| `Zones.ReserveTiles` | bios/seabios-1.13.0/src/malloc.c:60-66 | Giving up the top of an entry keeps the tiling |
| `Zones.ReleaseTiles` | bios/seabios-1.13.0/src/malloc.c:121-130 | Freeing a block merges its space into the next entry, which always adjoins, and keeps the tiling |
| `Zones.ReleaseReserve` | bios/seabios-1.13.0/src/malloc.c:252-256 | alloc_free undoes alloc_new |
| `Zones.TilesUnique` | bios/seabios-1.13.0/src/malloc.c:50-130 | A zone list is determined by its regions and its blocks |
| `Zones.AddTiles` | bios/seabios-1.13.0/src/malloc.c:97-113 | A region added at the place alloc_add finds keeps the tiling |
| `Zones.MoveLowestTiles` | bios/seabios-1.13.0/src/malloc.c:386-390 | Moving the start of the lowest entry keeps the tiling |
| `ZoneLists.AllocNew` | bios/seabios-1.13.0/src/malloc.c:49-70 | On the linked nodes: the list in memory, fields and links, becomes the list of which an entry is reserved first fit, or stays as it is exactly when there is no room; no cell of another list changes |
| `ZoneLists.Free` | bios/seabios-1.13.0/src/malloc.c:121-130 | On the linked nodes: the list in memory becomes the list with the entry released |
| `ZoneLists.MoveHome` | bios/seabios-1.13.0/src/malloc.c:90-94 | On the linked nodes: after the copy and the two replacements every list in memory is the same list with the record at its new address |
| `ZoneLists.HoldsFrame` | bios/seabios-1.13.0/src/malloc.c:33-44 | A zone list in memory depends on its own cells only |
| `HeapLists.ListsApart` | bios/seabios-1.13.0/src/malloc.c:33-44 | In a consistent heap whose list heads lie outside its records the five lists in memory have no cell in common and no two entries overlap |
| `HeapLists.Palloc` | bios/seabios-1.13.0/src/malloc.c:234-262 | malloc_palloc on the linked nodes of all zones, from a stack record outside what the allocator can give away: fails exactly as on the sequences, with all lists as they were, and otherwise leaves in memory the lists with the block and its record |
| `HeapLists.Pfree` | bios/seabios-1.13.0/src/malloc.c:271-285 | malloc_pfree on the linked nodes: succeeds exactly as on the sequences, and leaves in memory the lists without the block and its record |
| `Allocator.FitsIsRoom` | bios/seabios-1.13.0/src/malloc.c:57-58 | The test after ALIGN_DOWN, in 32-bit arithmetic, accepts an entry exactly when it has an aligned place for the block, and the place is the highest |
| `Allocator.SafeSizes` | bios/seabios-1.13.0/src/malloc.c:57-58 | That test is right for all entries if and only if size + alignment is at most 2^32 |
| `Allocator.BlocksDetermineZones` | bios/seabios-1.13.0/src/malloc.c:50-130 | Two states with the same regions and blocks have the same zone lists |
| `Allocator.PayloadsDisjoint` | bios/seabios-1.13.0/src/malloc.c:50-130 | All payloads, data blocks and bookkeeping records, in whatever zones, are disjoint |
| `Allocator.MoveConsistent` | bios/seabios-1.13.0/src/malloc.c:90-94 | A record that moves to its home in a zone leaves every list consistent |
| `Allocator.StartsAtItself` | bios/seabios-1.13.0/src/malloc.c:341-342 | Only a record's own entry starts at its own address |
| `Allocator.FreeableExactly` | bios/seabios-1.13.0/src/malloc.c:132-145 | A live block can be found and freed if and only if no empty region in a zone searched earlier starts at its address |
| `Allocator.LargestSpaceIsRoom` | bios/seabios-1.13.0/src/malloc.c:303-312 | The largest free space is the largest unaligned block that still fits |
| `Allocator.SpaceServes` | bios/seabios-1.13.0/src/malloc.c:297-318 | The 48 bytes kept back are enough: where ranges end at multiples of 16, every multiple of 16 up to the size reported for a zone of records can be had together with its record |
| `Allocator.SpaceOfOne` | bios/seabios-1.13.0/src/malloc.c:297-318 | Without that they may not be: all that is reported for a single range is refused, when no other zone has room for the record, if and only if its free part begins 1 to 11 bytes above a multiple of 16 |
| `Allocator.SpaceElsewhere` | bios/seabios-1.13.0/src/malloc.c:297-318 | What is reported for the other zones can be had if and only if there is room for a record |
| `Allocator.Heap.AllocNew` | bios/seabios-1.13.0/src/malloc.c:49-70 | The first entry with room gives up the highest aligned place in its free part; nothing is touched exactly when none has room |
| `Allocator.Heap.AllocNewDetail` | bios/seabios-1.13.0/src/malloc.c:72-94 | The record gets a home, first fit, in ZoneTmpHigh, or in ZoneTmpLow if that has no room; exactly when neither has room nothing changes |
| `Allocator.Heap.AllocFind` | bios/seabios-1.13.0/src/malloc.c:132-145 | The first entry in search order with that start |
| `Allocator.Heap.AddRegion` | bios/seabios-1.13.0/src/malloc.c:96-119 | Fails, and then changes nothing, exactly when with the new entry linked in no zone has room for its record; otherwise the region is added where its start belongs, and its record lies in the first fit of ZoneTmpHigh, or else of ZoneTmpLow |
| `Allocator.Heap.Palloc` | bios/seabios-1.13.0/src/malloc.c:234-262 | Fails exactly when nothing is asked for, the zone has no room, or no record would fit once the block is placed, and then leaves every zone as it was; success adds exactly one block, first fit and as high as possible, and its record |
| `Allocator.Heap.Pfree` | bios/seabios-1.13.0/src/malloc.c:271-285 | Succeeds exactly for the start of a live block that the search finds, and then removes that block and its record; otherwise nothing changes |
| `Allocator.Heap.GetSpace` | bios/seabios-1.13.0/src/malloc.c:297-318 | The largest free space, less 48 bytes in the zones that hold records |
| `Allocator.Heap.SetHandle` | bios/seabios-1.13.0/src/malloc.c:320-331 | Only the handle of the record of that block changes |
| `Allocator.Heap.FindHandle` | bios/seabios-1.13.0/src/malloc.c:333-350 | The start of a block with that handle, 0 exactly when there is none |
| `Allocator.Heap.MoveLowestLow` | bios/seabios-1.13.0/src/malloc.c:386-390 | Moving the base of ZoneLow keeps the heap consistent |
| `Allocator.SameStartSameBlock` | bios/seabios-1.13.0/src/malloc.c:132-145 | Live blocks that start at one address are one block |
| `Allocator.AddedHasHome` | bios/seabios-1.13.0/src/malloc.c:115-118 | A new region gets its record wherever 64 bytes are free in a zone for records, or in the region itself |
| `Allocator.SpareHomed` | bios/seabios-1.13.0/src/malloc.c:72-94 | A record takes no more than 64 bytes from the free space of an entry |
| `Restore.ReleaseOne` | bios/seabios-1.13.0/src/malloc.c:271-285 | free() releases a block of one's own, and nothing else, exactly when malloc_pfree can find it; freeing nothing or a lost block changes nothing |
| `Restore.Session` | bios/seabios-1.13.0/src/malloc.c:234-285 | The calls make a run of which each step is one allocation or release with its exact outcome; when every allocation that succeeds is released later, in whatever order, the heap ends as it began if and only if no empty region shadows a block of the run |
| `Restore.RunRestores` | bios/seabios-1.13.0/src/malloc.c:234-285 | In every run that releases all it gets, in whatever order, zone lists and records at the end are those of the beginning if and only if no block is shadowed |
| `Restore.NothingLeft` | bios/seabios-1.13.0/src/malloc.c:234-285 | At any point of a run the heap is what it was at the beginning if and only if none of its own blocks is left |
| `Restore.OwnFreeable` | bios/seabios-1.13.0/src/malloc.c:271-285 | A block of one's own can be freed if and only if no empty region shadows it |
| `Restore.SmallMachine` | bios/seabios-1.13.0/src/malloc.c:425-450 | The regions of a machine with two stretches of RAM of which the lower one is just large enough for ZoneHigh |
| `Restore.CannotBeFreed` | bios/seabios-1.13.0/src/malloc.c:271-285 | There, a block that takes all of ZoneHigh is live but shadowed, and malloc_pfree refuses it |
| `OptionRoms.Roms.constructor` | bios/seabios-1.13.0/src/malloc.c:508-511 | With ZoneLow set up from zonelow_base on, option ROMs and low memory start apart |
| `OptionRoms.Roms.Separated` | bios/seabios-1.13.0/src/malloc.c:357-405 | In every state RomEnd+16 is at most the start of RomBase, which ends at or below every live ZoneLow block |
| `OptionRoms.Roms.GetMax` | bios/seabios-1.13.0/src/malloc.c:362-370 | The highest multiple of 2048 that leaves a header's room below RomBase's end |
| `OptionRoms.Roms.Reserve` | bios/seabios-1.13.0/src/malloc.c:379-392 | Succeeds exactly when the end of the ROM, rounded up in 32 bits, and a header end below the free part of ZoneLow, and then moves the base of ZoneLow right above them, never below zonelow_base; otherwise nothing changes. The separation stays exactly when that end does not fall below RomEnd, or below zonelow_base where RomEnd has not reached it |
| `OptionRoms.Roms.Confirm` | bios/seabios-1.13.0/src/malloc.c:394-405 | Under the same condition RomEnd becomes that end; the separation stays exactly when it does not fall below the start of the option ROM space |
| `OptionRoms.SafeRomSizes` | bios/seabios-1.13.0/src/malloc.c:383 | The end leaves room for the ROM if and only if the rounded sum does not wrap in 32 bits |
| `OptionRoms.WrappedRom` | bios/seabios-1.13.0/src/malloc.c:383 | A size for which the end lies below the option ROM space |
| `OptionRoms.Roms.Alloc` | bios/seabios-1.13.0/src/malloc.c:234-262 | An allocation fails exactly when the allocator refuses it, is first fit and keeps the separation; a ZoneLow block lies at least a header above RomEnd |
| `OptionRoms.Roms.Free` | bios/seabios-1.13.0/src/malloc.c:271-285 | Freeing keeps the separation |
| `Boot.Firmware.Preinit` | bios/seabios-1.13.0/src/malloc.c:412-451 | ZoneHigh is the top of the highest usable stretch of RAM that is large enough, every usable stretch of 64 bytes or more is in ZoneTmpHigh up to ZoneHigh, ZoneTmpLow has its fixed range, and the three updates of the map are overwrites; all memory of ZoneTmpHigh and ZoneHigh was RAM, no part of ZoneHigh and of the BIOS range still is, and no address has become RAM |
| `Boot.Firmware.PopulateHigh` | bios/seabios-1.13.0/src/malloc.c:434-443 | One stretch: it becomes a region of ZoneTmpHigh if it has 64 bytes, less its top if ZoneHigh is taken from it, which happens exactly for the first one that is large enough |
| `Boot.HighFromIs` | bios/seabios-1.13.0/src/malloc.c:425-441 | The place of ZoneHigh is the highest multiple of 16 with 256K of RAM from it in one stretch that ends above 1 MiB and below 4 GiB, or 0 if there is none |
| `Boot.ShareIs` | bios/seabios-1.13.0/src/malloc.c:425-441 | A share of ZoneTmpHigh is such a stretch of RAM, up to ZoneHigh if that is in it |
| `Boot.PreinitMap` | bios/seabios-1.13.0/src/malloc.c:417-450 | With six spare slots malloc_preinit makes the hole, the BIOS range and ZoneHigh, and changes the type of no other address |
| `Boot.Firmware.Init` | bios/seabios-1.13.0/src/malloc.c:506-522 | ZoneLow gets the space from zonelow_base on and ZoneFSeg its range; they fail only for want of room for a record, which malloc_preinit leaves; the invariant stays |
| `Boot.Firmware.AddReserved` | bios/seabios-1.13.0/src/malloc.c:542-543 | Reserving memory overwrites the map, and even with a full table makes no RAM and takes the range out of it |
| `Boot.Firmware.Palloc` | bios/seabios-1.13.0/src/malloc.c:234-262 | Allocation keeps the invariant that nothing in ZoneHigh and no permanent block is RAM |
| `Boot.Firmware.Pfree` | bios/seabios-1.13.0/src/pmm.c:114-125 | So does a PMM release |
| `Boot.Firmware.AllocateHigh` | bios/seabios-1.13.0/src/pmm.c:77-91 | A permanent block comes from ZoneHigh unless that refuses, then from ZoneTmpHigh, and is then reserved in the map and joins the invariant |
| `Boot.Firmware.PmmAllocate` | bios/seabios-1.13.0/src/pmm.c:28-101 | Without a length the largest free space of the zone asked for, and no change; else which zone serves the request, exactly when it fails, what block and record with which handle the heap gains, and that the invariant stays; data is a multiple of 16 and, when asked for, of every power of two that divides the size |
| `Boot.Firmware.PmmSpace` | bios/seabios-1.13.0/src/pmm.c:39-60 | The largest free space of the low zone, of the high zone, or of either |
| `Boot.Firmware.PmmFind` | bios/seabios-1.13.0/src/pmm.c:104-112 | A block with the handle, 0 exactly for the default handle or when there is none |
| `Boot.Firmware.PmmFree` | bios/seabios-1.13.0/src/pmm.c:114-125 | 0 exactly when the block can be freed |
| `Boot.Firmware.AllocatePlaced` | bios/seabios-1.13.0/src/pmm.c:69-97 | Low, high, or low if possible and else high: the zone that serves the request and the only block gained |
| `Boot.NewRecordFound` | bios/seabios-1.13.0/src/pmm.c:98-99 | The handle goes to the record of the new block |
| `Boot.LowestBit` | bios/seabios-1.13.0/src/pmm.c:64-68 | A power of two that divides the size with an odd quotient |
| `Boot.LowestBitLargest` | bios/seabios-1.13.0/src/pmm.c:64-68 | Every power of two that divides the size divides it |
| `Boot.PmmAlign` | bios/seabios-1.13.0/src/pmm.c:63-68 | The alignment is 16, or with flag 4 a larger power of two that divides the size with an odd quotient |
| `Boot.Firmware.Prepboot` | bios/seabios-1.13.0/src/malloc.c:541-558 | The map is overwritten with the reserved low memory and with RAM on the whole free pages at the bottom of ZoneHigh; no live ZoneHigh block and no permanent block is RAM |
| `Boot.PrepbootMap` | bios/seabios-1.13.0/src/malloc.c:541-558 | With four spare slots exactly these two ranges of the map change |
| `Relocs.UpdateHits` | bios/seabios-1.13.0/src/post.c:242-249 | Each listed word grows by delta modulo 2^32, once |
| `Relocs.UpdateMisses` | bios/seabios-1.13.0/src/post.c:242-249 | A word that overlaps no listed word keeps its value |
| `Relocs.UpdateOutside` | bios/seabios-1.13.0/src/post.c:242-249 | No byte outside the listed words changes |
| `Relocs.UpdateRelocs` | bios/seabios-1.13.0/src/post.c:242-249 | The loop has the effect of which the two lemmas above speak |
| `Relocs.InGetRelocs` | bios/seabios-1.13.0/scripts/layoutrom.py:357-362 | The list has exactly the fields of the selected references |
| `Relocs.GetRelocsSpread` | bios/seabios-1.13.0/scripts/layoutrom.py:357-362 | No two of them overlap when sections and fields do not |
| `Relocs.TableSpread` | bios/seabios-1.13.0/scripts/layoutrom.py:349-354 | Whatever the order of the emitted table |
| `Relocs.TableEffect` | bios/seabios-1.13.0/src/post.c:242-249 | Updating by a table changes exactly the recorded fields |
| `Relocs.Lists` | bios/seabios-1.13.0/scripts/layoutrom.py:398-400 | Which list a reference is in |
| `Relocs.FieldMoves` | bios/seabios-1.13.0/src/post.c:272-279 | How the value the linker stores in a field depends on the place of the init code |
| `Relocs.FieldRelocated` | bios/seabios-1.13.0/src/post.c:272-279 | After the move a field holds what the linker computes for the new place if and only if it is not a pc-relative reference from init code to a symbol in no section |
| `Relocs.RelocatedIsRelinked` | bios/seabios-1.13.0/src/post.c:252-281 | The moved image is the image linked for the new place if and only if there is no such reference |
| `Relocs.LostReference` | bios/seabios-1.13.0/src/post.c:252-281 | An image with a pc-relative reference from init code to a constant address, which the move breaks |
| `Relocs.CodeMoves` | bios/seabios-1.13.0/src/post.c:274 | Bytes of the init code that belong to no field move as they are |
| `Relocs.RelocPreinit` | bios/seabios-1.13.0/src/post.c:252-285 | The memory afterwards is the copied and updated one of which the lemmas above speak; it is the image linked for the new place under their condition, and the function is called at its place after the move |
| `Layout.SetSectionsStart` | bios/seabios-1.13.0/scripts/layoutrom.py:47-63 | Sections lie in list order, without overlap and aligned; their span ends within the largest alignment of the limit, and not beyond it if and only if it fits between zero and the limit or the difference is a multiple of that alignment |
| `Layout.TruncatedIs` | bios/seabios-1.13.0/scripts/layoutrom.py:56 | The division that truncates toward zero stays below the limit exactly for a non-negative or divisible difference |
| `Layout.EndShift` | bios/seabios-1.13.0/scripts/layoutrom.py:51-62 | Packing from a common multiple of the alignments is packing from zero, shifted |
| `Layout.PickFit` | bios/seabios-1.13.0/scripts/layoutrom.py:117-130 | Picks the last section, in order of size, that fits; if none is picked none fits |
| `Layout.FillGap` | bios/seabios-1.13.0/scripts/layoutrom.py:116-142 | Sections put into a gap lie in it without overlap, and none that is left over would still fit |
| `Layout.FindGaps` | bios/seabios-1.13.0/scripts/layoutrom.py:91-105 | The free spaces behind the fixed sections, none meeting another or a fixed section, and the lowest fixed address |
| `Layout.SharedAddress` | bios/seabios-1.13.0/scripts/layoutrom.py:91-116 | Behind an empty fixed section that comes after a non-empty one at its address, the space to be filled begins inside the other |
| `Layout.FitSections` | bios/seabios-1.13.0/scripts/layoutrom.py:71-150 | Fixed sections are at their addresses and the fitted ones between them, all below 64K and without overlap; fails exactly when a fixed section asks for alignment |
| `Layout.DoLayout` | bios/seabios-1.13.0/scripts/layoutrom.py:177-263 | If every group ends where it should, all placed sections are apart, in the order of the groups and, but for the 16-bit ones, aligned, init and low data lie where reported and ZoneFSeg meets nothing that stays; when no group is empty, the groups are in order only then. It is so whenever sizes, alignments and the 2048 bytes for ZoneFSeg sum up to no more than the address of the lowest fixed section. In any case every placed fixed, 16-bit, 32seg and 32fseg section has a segment address 0xf0000 below its address and every 32textfseg, 32flat and 32init section one equal to it, ZoneFSeg has at least 2048 bytes and, with more, ends at the lowest section that stays, and low data ends at its final place and is addressed by its final segment |
| `Layout.ChosenInOrder` | bios/seabios-1.13.0/scripts/layoutrom.py:183-242 | Within a group code comes before constants, these before data and data before zeroed data, and sections of one kind stay in the order of the input |
| `Layout.EnoughRoom` | bios/seabios-1.13.0/scripts/layoutrom.py:190-263 | Sections that need no more space than there is below the lowest fixed one all end where they should |
| `Layout.OrderedFit` | bios/seabios-1.13.0/scripts/layoutrom.py:190-263 | With no group empty, groups in order end where they should: the condition is exact |
| `Layout.AllPlaced` | bios/seabios-1.13.0/scripts/layoutrom.py:190-263 | Groups that end where they should make a good layout |
| `Layout.TooMuchCode` | bios/seabios-1.13.0/scripts/layoutrom.py:56 | Flat code one byte longer than the space below the 16-bit segment is lifted into ZoneFSeg |
| `Reachable.FindReachable` | bios/seabios-1.13.0/scripts/layoutrom.py:463-477 | The worklist finds exactly the sections reached from the anchors along references that pass the test |
| `Reachable.ClosedHasReached` | bios/seabios-1.13.0/scripts/layoutrom.py:463-477 | A set that has the anchors and is closed under such references has all that is reached |
| `Threads.Threads.constructor` | bios/seabios-1.13.0/src/stacks.c:476-478 | The ring starts as the main thread alone |
| `Threads.Threads.HaveThreads` | bios/seabios-1.13.0/src/stacks.c:481-487 | True exactly when the ring has another thread than the main one |
| `Threads.Threads.SwitchNext` | bios/seabios-1.13.0/src/stacks.c:519-539 | The ring turns by one: the running thread is saved with its stack pointer behind all others and the next one resumes from what was saved for it, so that each finds its stack pointer again (ResumesWithStack) |
| `Threads.Threads.RunThread` | bios/seabios-1.13.0/src/stacks.c:552-577 | The new thread runs on its own stack and its creator waits behind all others; without memory for a stack nothing changes |
| `Threads.Threads.EndThread` | bios/seabios-1.13.0/src/stacks.c:579-592 | The ended thread leaves the ring and the next one resumes |
| `Threads.Threads.WaitThreads` | bios/seabios-1.13.0/src/stacks.c:658-664 | wait_threads returns exactly when the ring is the main thread alone; until then the other threads do what their schedule says, in order, with a yield of the main thread whenever its turn comes |
| `Threads.RingAdd` | bios/seabios-1.13.0/src/list.h:58-62 | Adding behind the current node keeps the ring a ring |
| `Threads.RingDel` | bios/seabios-1.13.0/src/list.h:25-33 | Deleting the current node keeps the ring a ring |
| `Threads.Resumes` | bios/seabios-1.13.0/src/stacks.c:519-592 | A waiting thread at place p runs again after exactly p turns, however many threads start meanwhile, with the stack pointer it had |
| `Threads.OneTurnEach` | bios/seabios-1.13.0/src/stacks.c:617-635 | While a thread waits no other one runs twice |
| `Threads.ResumesWithStack` | bios/seabios-1.13.0/src/stacks.c:519-539 | Over every run: when a thread that had the processor has it again, its stack pointer is the one it had, unless its node was made a new thread meanwhile |
| `Threads.NewThreadsStack` | bios/seabios-1.13.0/src/stacks.c:559-574 | Over every run: a started thread runs, each time, with the stack pointer 4092 bytes above its node |
| `Threads.RoundOfYields` | bios/seabios-1.13.0/src/stacks.c:519-539 | As many yields as there are threads restore ring and stack pointer |
| `Threads.RingIsLive` | bios/seabios-1.13.0/src/stacks.c:541-592 | In every run the ring has the main thread and the live threads, each once |
| `Threads.Mutex.TryLock` | bios/seabios-1.13.0/src/stacks.c:666-675 | One pass of the loop in mutex_lock: the thread becomes the only holder exactly when nobody holds the mutex; otherwise nothing changes |
| `Threads.Mutex.Acquire` | bios/seabios-1.13.0/src/stacks.c:666-675 | Whatever others do while it yields, a thread comes out of mutex_lock as the only holder, or another one still holds the mutex |
| `Threads.Mutex.Unlock` | bios/seabios-1.13.0/src/stacks.c:677-684 | After the holder unlocks, nobody holds the mutex and the flag says so |
| `Threads.MutualExclusion` | bios/seabios-1.13.0/src/stacks.c:666-684 | In every run of scheduling, locking and unlocking at most one thread holds the mutex |
| `Sha1.Schedule` | bios/seabios-1.13.0/src/sha1.c:37-44 | The message schedule of RFC 3174, section 6.1 |
| `Sha1.Sha1Block` | bios/seabios-1.13.0/src/sha1.c:25-83 | One block is compressed as in RFC 3174, section 6.1 |
| `Sha1.FullBlocks` | bios/seabios-1.13.0/src/sha1.c:96-101 | All whole blocks of the message are processed in order |
| `Sha1.LastBlocks` | bios/seabios-1.13.0/src/sha1.c:103-121 | What the end of sha1_do processes is the rest of the padded message, in one block or, for 56 to 63 bytes, in two |
| `Sha1.PaddedProcessed` | bios/seabios-1.13.0/src/sha1.c:103-121 | Processing the padded message is processing the whole blocks and then those |
| `Sha1.Finish` | bios/seabios-1.13.0/src/sha1.c:103-121 | The code does that on its block buffer |
| `Sha1.Sha1` | bios/seabios-1.13.0/src/sha1.c:86-148 | For every message the digest with the length field 8 * length mod 2^32; below 2^29 bytes the digest of RFC 3174 |
| `Sha1.AbcDigest` | bios/seabios-1.13.0/src/sha1.c:86-148 | The digest of "abc" is a9993e36 4706816a ba3e2571 7850c26c 9cd0d89d, as in section 7.3 of RFC 3174 |
| `Sha1.RotateIs` | bios/seabios-1.13.0/src/x86.h:136-141 | Rotation in numbers: x * 2^n mod 2^32 and x / 2^(32-n), for the three amounts in use |
| `Sha1.RootConstants` | bios/seabios-1.13.0/src/sha1.c:33-34 | The round constants are the square roots of 2, 3, 5 and 10 in units of 2^-30 |
| `Sha1.FirstChooses` | bios/seabios-1.13.0/src/sha1.c:52-54 | In rounds 0 to 19 each bit of b chooses between those of c and d |
| `Sha1.ThirdIsMajority` | bios/seabios-1.13.0/src/sha1.c:58-60 | In rounds 40 to 59 each bit is that of the majority |
| `Sha1.OthersAreParity` | bios/seabios-1.13.0/src/sha1.c:55-63 | In the other rounds it is the parity: flipping any bit flips the result's |
| `Sha1.InitialBytes` | bios/seabios-1.13.0/src/sha1.c:135-141 | The initial state byte by byte |
| `TpmLog.TpmState.SetLogArea` | bios/seabios-1.13.0/src/tcgbios.c:51-64 | An empty, zeroed log; a missing area changes nothing |
| `TpmLog.TpmState.LogEvent` | bios/seabios-1.13.0/src/tcgbios.c:100-141 | Accepted exactly when a log is there and the record fits; then the area is the old log followed by the record, otherwise nothing changes |
| `TpmLog.WrappedEvent` | bios/seabios-1.13.0/src/tcgbios.c:121-126 | An event whose size wraps to nothing passes the overflow test, however small the area |
| `TpmLog.OverflowTest` | bios/seabios-1.13.0/src/tcgbios.c:122-126 | The 32-bit overflow test tells whether a record fits if and only if the sum stays below 2^32 or wraps to more than the length of the area |
| `TpmLog.ParseBack` | bios/seabios-1.13.0/src/tcgbios.c:118-133 | A concatenation of records parses back to its events, whatever follows |
| `TpmLog.RecordBytes` | bios/seabios-1.13.0/src/tcgbios.c:121-134 | A record byte by byte: PCR index, event type, digest, size and event, numbers with the low byte first |
| `TpmLog.LogParses` | bios/seabios-1.13.0/src/tcgbios.c:111-141 | In every state the area parses back to the accepted events, entry_count is their number and the last entry's address that of the last record |
| `TpmLog.BuildDigest` | bios/seabios-1.13.0/src/tcgbios.c:314-385 | Succeeds exactly for a selection whose banks end where it ends, are all known and fit; then the digests of all banks in the byte order asked for |
| `TpmLog.BanksOfListed` | bios/seabios-1.13.0/src/tcgbios.c:330-379 | A selection written bank by bank, with algorithm, length and bitmap, is read as these banks and ends where they end |
| `TpmLog.SameDigests` | bios/seabios-1.13.0/src/tcgbios.c:379-384 | Both byte orders give the same length, and the count field is the number of digests |
| `TpmLog.DigestAt` | bios/seabios-1.13.0/src/tcgbios.c:359-373 | Each digest is at its place with its algorithm and the hash cut or zero-filled to its size |
| `TpmLog.SizeInBits` | bios/seabios-1.13.0/src/tcgbios.c:165-209 | The five known algorithms with their sizes of 160, 256, 384, 512 and 256 bits; SHA-1 takes the hash as it is and the others with zeros behind |
| `TpmLog.TpmBuildDigest` | bios/seabios-1.13.0/src/tcgbios.c:387-405 | The SHA-1 hash itself for TPM 1.2, the list of digests for TPM 2.0 |
| `TpmLog.BothForms` | bios/seabios-1.13.0/src/tcgbios.c:958-967 | The length taken from the form for the TPM is that of the form for the log |
| `TpmLog.AddMeasurement` | bios/seabios-1.13.0/src/tcgbios.c:943-968 | A measurement is logged, whole and with the digest of its data, if and only if the TPM works and took it, its banks can be built, and there is a log in which the record fits; otherwise the log stays |
| `Cdrom.Cd.ProcessOp` | bios/seabios-1.13.0/src/block.c:618-639 | More than 64K is refused; success exactly when every block can be read; an error with the count unchanged means that nothing was transferred |
| `Cdrom.ReadPart` | bios/seabios-1.13.0/src/cdrom.c:43-59 | Some of the four parts of one CD sector through the bounce buffer, exactly when that sector can be read |
| `Cdrom.Advance` | bios/seabios-1.13.0/src/cdrom.c:29-86 | A further step extends what is delivered and harms nothing delivered before |
| `Cdrom.CdemuRead` | bios/seabios-1.13.0/src/cdrom.c:29-86 | Succeeds if and only if every CD sector the request touches can be read, and then delivers exactly the requested 512-byte sectors; otherwise the count is the one the failing stage leaves, and that many leading sectors are correct; nothing outside the two buffers changes |
| `Cdrom.AnswerIsLeading` | bios/seabios-1.13.0/src/cdrom.c:29-86 | With a driver that reports what it has read, the count is the number of sectors before the first CD sector that cannot be read |
| `Cdrom.FirstReadable` | bios/seabios-1.13.0/src/cdrom.c:42-60 | A request is its part in the first CD sector and a request from the next one on |
| `Cdrom.ReadEmulated` | bios/seabios-1.13.0/src/block.c:618-639 | The same through the count rules of process_op, which admit at most 128 sectors |
| `Chs.Drive.GetTranslation` | bios/seabios-1.13.0/src/block.c:79-108 | A host geometry always wins, then the two stored bits, 0 for none, 1 for LBA, 2 for large and 3 for r-echs; else none exactly for a small physical geometry that fits the drive, large exactly for one with at most 131072 tracks, and LBA in all other cases |
| `Chs.Drive.SetupTranslation` | bios/seabios-1.13.0/src/block.c:110-191 | The geometry of each translation, cut to 1024 cylinders, with that of 15 heads for r-echs; for ATA geometries no translation but the host's own gives more blocks than the drive has |
| `Chs.Shift` | bios/seabios-1.13.0/src/block.c:162-170 | As many halvings of the cylinders and doublings of the heads as needed, which never gain blocks |
| `Chs.LbaGeometry` | bios/seabios-1.13.0/src/block.c:127-148 | 63 sectors and the fewest heads out of 16, 32, 64, 128, 255 for about 1024 cylinders, never more blocks than the drive has |
| `Chs.BasicAccess` | bios/seabios-1.13.0/src/disk.c:118-150 | Accepts exactly the triples on the logical disk, read off the bits of the registers, and gives the block number (c * heads + h) * sectors + s - 1, without wrap-around, below C*H*S |
| `Chs.OneToOne` | bios/seabios-1.13.0/src/disk.c:148-150 | Different triples, different blocks |
| `Chs.Onto` | bios/seabios-1.13.0/src/disk.c:126-150 | Every block of the logical disk can be named by the registers |
| `Scroll.MoveStep` | bios/seabios-1.13.0/vgasrc/vgafb.c:18-28 | In the order chosen by the direction each row is taken from a row that is still unchanged |
| `Scroll.MemmoveStride` | bios/seabios-1.13.0/vgasrc/vgafb.c:18-28 | Rows copied one by one in place equal a simultaneous move of the rectangle |
| `Scroll.Memset16Stride` | bios/seabios-1.13.0/vgasrc/vgafb.c:37-42 | Exactly the rectangle is filled |
| `Scroll.InRectIs` | bios/seabios-1.13.0/vgasrc/vgafb.c:18-42 | The cells of a rectangle are those at base + y * cols + x for its rows and columns |
| `Scroll.Screen.MoveChars` | bios/seabios-1.13.0/vgasrc/vgafb.c:557-574 | The characters of a rectangle come from so many rows below or above |
| `Scroll.Screen.ClearChars` | bios/seabios-1.13.0/vgasrc/vgafb.c:576-594 | Exactly the window is blanked, with the given attribute or 7 in the high byte |
| `Scroll.Screen.Scroll` | bios/seabios-1.13.0/vgasrc/vgafb.c:596-623 | The window is shifted as a whole with blank revealed rows, for shifts smaller than its height in either direction; all other cells stay |
| `Scroll.VerifyScroll` | bios/seabios-1.13.0/vgasrc/vgabios.c:391-427 | The same for a scroll request by registers: cut to the screen, cleared when the shift reaches the height |

## Left out

- E820.Map.Add: ranges that end at or beyond 2^64 are not modelled; callers pass physical addresses far below.
- E820.Map.Remove: the same.
- Leal.HandleLeal: operands are parsed fields, and one of base and index is present; the text matching and the 16-bit `leaw` used for %esp as destination have no semantics here. The `leave` rewrite is the definition of that instruction.
- BitStream.Reader.FillBits: the callback at M_EOF, which nothing in the file sets, is not modelled, and the cached locals are written back at once.
- Huffman.DecRec: behaviour after a bad code is not modelled beyond the reported marker; `c | d` on disjoint bits is addition.
- Allocator.Heap.Palloc: growing ZoneLow by moving the EBDA (zonelow_expand) is not modelled; zone lists are sequences here, their nodes in memory are those of HeapLists; records are a map.
- Boot.Firmware.PmmAllocate: the dispatch by function number is not modelled, nor is malloc_csm_preinit, calcRamSize or clearing memory.
- Boot.Firmware.Preinit: which stretches of less than 64 bytes become regions depends on the room for records above them and is not stated.
- Relocs.RelocPreinit: only 32-bit references; the allocation of the new home is a parameter, and so is the linked image. Low data is moved later by other code.
- Layout.FindGaps: a fixed section at the address of a non-empty one that comes before it is left out; the script would fill the space of the other (`Layout.SharedAddress`).
- Layout.FitSections: no alignment is claimed for a section fitted between fixed ones, because the source records the unaligned start of its aligned span; statistics are not modelled.
- Layout.SetSectionsStart: the quotient is that of Python 3, exact for addresses; Python 2 would round down.
- Reachable.FindReachable: the chain kept for error messages is not modelled.
- Threads.Threads.RunThread: what the function does on its creator's stack when there is no memory is part of the creator's run; interrupts and preemption are not modelled.
- Threads.Threads.WaitThreads: the loop is followed along a finite schedule of the other threads.
- Threads.Mutex.Acquire: the loop is followed for a finite number of turns.
- Sha1.Sha1: the words and the bytes of the block buffer are two arrays.
- TpmLog.TpmState.LogEvent: events for which the overflow test is wrong are not modelled further; the source then writes behind the area.
- TpmLog.AddMeasurement: the TPM is an oracle that takes or refuses the extension; a failed extension only ends the measurement.
- Cdrom.CdemuRead: the drive is an oracle that tells for each block whether it can be read and, for each failing request, the count the driver leaves; a count larger than what was read is taken for one left unchanged.
- Chs.Drive.SetupTranslation: nothing is claimed of the size of a translation that an emulator stored for a physical geometry beyond the drive's size, nor of the doubling of 32768 heads or more, which wraps.
- Scroll.Screen.Scroll: text mode only, and offsets are counted in cells of two bytes.
- The inverse DCT and colour conversion of the JPEG decoder, finite tables, fonts and key maps.
- Drivers, port I/O, inline assembly as machine code, menus and printing.
- Linker script text, parsing of objdump output and of the build configuration.
