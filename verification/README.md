# Verified models of the storage, heap, loader and divider code

This project models, in Dafny, five pieces of the system whose correctness rests on state that many functions
share, and proves what each of them promises to its callers over every run. Code that changes state in place is
modelled by classes whose methods update the same fields and arrays; each method is proved against a function or
relation on values, and the lemmas beside it are about those.

| part | files | source |
|---|---|---|
| TLSF heap allocator | `Tlsf*.dfy` | `system/tlsf.c` |
| FAT12/16/32 volume, files, mounting, long names | `Fat*.dfy` | `system/ff.c` |
| SPI flash with its write-back sector | `Flash*.dfy` | `system/spi_flashdev.c`, `system/flashdisc.c` |
| XMODEM-CRC/1K receiver and the line it serves | `Crc16.dfy`, `Xmodem*.dfy` | `init/xmodem_server.c` |
| iterative divider | `Divider.dfy` | `rtl/femtorv32_gracilis.v` |

`Bits.dfy` has the arithmetic of binary digits on naturals that all parts use.

**Heap.** `Tlsf.Allocator` owns the control structure and a word array that holds headers and payloads alike: the
word that says where the previous block starts is the last payload word of that block while it is in use, as in
the C code. `Valid()` is everything `tlsf_check` and `tlsf_check_pool` insist on and more: blocks tile each pool up
to its sentinel, header bits and back links agree, no two neighbours are free, each free block is on the one list
its size maps to, and both bitmaps are exact. `TlsfClient` forgets all of this: to a program the heap is a map from
addresses to independent arrays, and every run of allocator calls and writes is a run of that map.

**FAT.** `FatVolume.Volume` is the medium with the one-sector window over it; `Disc()` is what both show together
and `Fat()` the table read from it. `FatFile.File` adds the private sector buffer, and `Data()` is the file seen
through buffer, window and cluster chain. `FatClient` shows that calls on a file are calls on a plain byte array
with a cursor, whose growth is limited by the clusters it has and those that are free (`FatLedger` keeps that
account); `FatPairs` that calls on two open files are calls on two such arrays; `FatMount` which accepted boot
sectors give a sound geometry. `FatDirectory.Dir` is a directory object on the volume, `FatEntries` the one sequence
of entries it stands for, and `FatNames` how a long name is cut into entries.

**Flash.** `Flash.NorFlash` can only erase a sector and clear bits; `FlashDevice` buffers one sector for up to four
handles and `FlashDisc` gives out 512-byte sectors. `View()` is the chip under the buffer.

**XMODEM.** `Xmodem.Server` is the byte-driven receiver with its timers; `XmodemLink.Link` puts it at the end of a
line that keeps order, loses frames and acknowledgements and damages frames in ways the CRC shows, with a sender
that goes on only when acknowledged.

**Divider.** `Divider.DivUnit` has the registers of the Verilog and one method per clock edge.

Run `dafny verify dfyconfig.toml` to check everything; it takes a few minutes.

## Behaviours that do not hold, and exactly when

| behaviour | holds if and only if | members |
|---|---|---|
| `tlsf_realloc` keeps the heap intact | not (the block has at least 16 bytes and the request is above 2^30 - 4 and at most 2^32 - 4). Otherwise the old pointer is returned and the block's header says size 0, so that no sequence of blocks tiles the pool. A block of 12 bytes survives and is returned although too small. | `TlsfOversize.SpoilingSizes`, `TlsfOversize.CutHasNoMap`, `Tlsf.Allocator.Realloc`, `TlsfLimits.OversizeRealloc` |
| a non-empty request is adjusted to at least its size, when it is not refused | the size is at most 2^32 - 4; above, rounding up wraps and 12 bytes are looked for | `TlsfAlign.AdjustWords` |
| the size `tlsf_memalign` searches for covers the largest gap | the alignment is below 2^31; at 2^31 rounding wraps, and every call succeeds that finds any free block at all, aligned only if that is at address 2^31 | `TlsfAlign.PaddingCoversGap`, `TlsfLimits.HugeAlignment`, `TlsfLimits.SmallHugeAlignment` |
| the block of an accepted pool has a free list | the pool is not the largest one `tlsf_add_pool` accepts, whose block has 2^30 bytes | `TlsfLimits.PoolHasList` |
| the scan of `f_getfree` counts the free clusters | the volume is FAT12, or neither entry 0 nor entry 1 of the table is zero | `FatVolume.ScanExact`, `FatVolume.Volume.GetFree` |
| writing FSInfo keeps the table and the two FATs alike (cluster 2 in use) | the volume has more than one reserved sector; mounting accepts one, and then FSInfo is written over the first sector of the table | `FatVolume.InfoKeepsTable`, `FatVolume.Volume.SyncFs` |
| a boot sector that `mount_volume` accepts describes areas that follow each other on the disc | the sizes of the FAT area and of the system area fit 32 bits and the last cluster ends on the disc; two FATs of 2^31 sectors add up to zero and are accepted | `FatMount.AcceptedIsSound`, `FatMount.WrappedIsAccepted`, `FatMount.Mount` |
| an open file stays usable whatever is done to another one | its buffer is empty or shows a sector of its own; its bytes stay the same in any case, but a buffer that shows a freed sector goes stale when the other file takes and writes that sector. Truncating at a multiple of 512 is the one call that can leave such a buffer | `FatPairs.SettledExactly`, `FatPairs.ValidIff`, `FatPairs.PerformBeside` |

`mount_volume` also takes the free-cluster count from FSInfo without looking: the count is exact at first only if it
was exact there. Nor does it compare the two FATs: the volume is in order only if they agree.

Three things in the code differ from what one might expect and are modelled as they are: the receiver answers a
packet that is ready but handed out too late with a NAK and drops it; an STX where a block number was expected
starts a new frame with the size of the old one; and a repeated packet is not acknowledged again, so the line of
`XmodemLink` is proved safe but can stall.

## Model

| member | source | states |
|---|---|---|
| `TlsfMapping.MappingInsert` | system/tlsf.c:516-534 | The two indices found with the generic bit scans are the row and column of the class of the size, for every 32-bit size. |
| `TlsfMapping.ClassMono` | system/tlsf.c:516-534 | A larger block never belongs to an earlier list. |
| `TlsfMapping.ClassInRange` | system/tlsf.c:516-534 | The list index is inside the table of lists if and only if the size is below the maximum block size. |
| `TlsfMapping.MappingSearch` | system/tlsf.c:536-544 | A search starts at the class of the request rounded up to the next class boundary. |
| `TlsfMapping.GoodFit` | system/tlsf.c:536-544 | Any block, of a size divisible by 4, whose class is at or after the one the search starts at is at least as large as the request. |
| `TlsfMapping.SearchedExactly` | system/tlsf.c:516-544 | Which blocks a search takes in, in numbers: for requests below 128 bytes all that are large enough, and for requests from 32 * 2^j up to 64 * 2^j bytes exactly those that are still large enough when rounded down to a multiple of 2^j. |
| `Tlsf.Allocator.SearchSuitableBlock` | system/tlsf.c:546-576 | The two-level bitmap search returns the head of the least non-empty list at or after the given one, and null if and only if all of those are empty. |
| `Tlsf.Allocator.BlockRemove` | system/tlsf.c:579-635 | Taking a block off its list keeps every other list, both bitmaps and the whole heap in order, and changes no payload. |
| `Tlsf.Allocator.BlockInsert` | system/tlsf.c:608-642 | Filing a detached free block puts it on the list of its size, keeps lists, bitmaps and heap in order, and changes no payload. |
| `TlsfLists.ListIsClass` | system/tlsf.c:579-642 | Following the links from the head of a list meets exactly the free blocks filed under its class, each once; the list is empty exactly when there are none. |
| `Tlsf.Allocator.BlockMergePrev` | system/tlsf.c:682-694 | Merging a detached free block into a free predecessor keeps the heap invariant and every live payload; the result has a used predecessor. |
| `Tlsf.Allocator.BlockMergeNext` | system/tlsf.c:697-710 | Merging a free successor into a detached free block keeps the heap invariant and every live payload; the result has no free successor. |
| `Tlsf.Allocator.BlockLocateFree` | system/tlsf.c:756-784 | A block is found whenever some list at or after the request's class is non-empty; it is taken off the least such list and is large enough. |
| `TlsfAlign.AdjustWords` | system/tlsf.c:495-508 | A request becomes its size rounded up to a word and at least 12; it becomes 0 exactly when it is 0 or between 2^30 - 3 and 2^32 - 4; the three largest sizes wrap around to 12. |
| `Tlsf.Allocator.Malloc` | system/tlsf.c:1119-1125 | Malloc fails exactly when no free block is in a large enough class, and then changes nothing; otherwise the result is new, from the least such class, word aligned, at least as large as asked and less than 16 bytes larger than the adjusted size; every other allocation and its contents stay, and the heap invariant holds. |
| `TlsfAlign.AlignmentGap` | system/tlsf.c:1147-1173 | The distance to the aligned payload is 0 or at least a whole header, and for alignments below 2^31 at most the alignment plus 12; the moved pointer is aligned. |
| `TlsfAlign.PaddingCoversGap` | system/tlsf.c:1130-1148 | The padded request covers the largest gap if and only if the alignment is below 2^31, where it wraps to 12. |
| `TlsfAlign.PaddedWords` | system/tlsf.c:1127-1148 | The size an aligned request is searched with, in numbers: the request itself up to alignment 4; above, the first multiple of the alignment that holds request, alignment and a header of 16 bytes, if it is below 2^30; and 12 at alignment 2^31. |
| `Tlsf.Allocator.Memalign` | system/tlsf.c:1127-1182 | For every power of two: fails exactly when no class can serve the padded size; otherwise gives a new block, leaves all others alone and keeps the heap invariant; for alignments below 2^31 the result is a multiple of the alignment and large enough. |
| `TlsfLimits.HugeAlignment` | system/tlsf.c:1127-1182 | On every heap and for every size that is not refused, a request at alignment 2^31 succeeds if and only if any block is free, and the result is aligned if and only if it is at 2^31. |
| `TlsfLimits.SmallHugeAlignment` | system/tlsf.c:1127-1182 | On a concrete heap of one pool of 1024 bytes every such request succeeds misaligned, and with a block that is too small when more than 1016 bytes are asked for. |
| `Tlsf.Allocator.Free` | system/tlsf.c:1184-1197 | Freeing takes exactly that allocation away, merges and files the block, keeps every other allocation with its contents, and keeps the heap invariant; null changes nothing. |
| `Tlsf.Allocator.Realloc` | system/tlsf.c:1212-1268 | For every live pointer or null and every size: the pointer stays exactly if the block is large enough or a free successor makes it so; otherwise the array moves, and null is returned exactly if no class can serve the request. The result holds the first min(old, new) words on all paths, other allocations keep their contents, failure changes nothing, size 0 frees, and the heap stays intact, except for the oversize requests, after which no block map describes the pools. |
| `TlsfOversize.SpoilingSizes` | system/tlsf.c:1228-1263 | Which requests those are: exactly sizes above 2^30 - 4 and up to 2^32 - 4 on blocks of at least 16 bytes. |
| `TlsfOversize.CutHasNoMap` | system/tlsf.c:644-670 | Once the header of a block that is not a sentinel says size 0 and the headers before it are unchanged, no blocks tile the pools any more. |
| `TlsfLimits.OversizeRealloc` | system/tlsf.c:1212-1268 | A concrete heap on which asking for 2^30 bytes returns the old pointer and ruins the heap. |
| `Tlsf.Allocator.constructor` | system/tlsf.c:800-826 | Creating the control structure gives an allocator that satisfies the whole invariant, without pools or blocks. |
| `Tlsf.Allocator.AddPool` | system/tlsf.c:983-1030 | Exactly the word aligned regions of 20 to 2^30 + 11 bytes are accepted; one becomes a free block of the size that is left after its two headers, and a sentinel; existing allocations are untouched and the invariant holds; a refused one changes nothing and null is returned. |
| `TlsfLimits.PoolHasList` | system/tlsf.c:983-1008 | Among accepted pools, the block has a free list if and only if it is smaller than 2^30 bytes; a pool of that size is accepted. |
| `TlsfPool.PoolConserved` | system/tlsf.c:305-345 | In every heap that satisfies the invariant, the blocks of a pool plus their headers add up to the pool, and the walk meets exactly the blocks of the pool. |
| `TlsfPool.LiveDisjoint` | system/tlsf.c:305-345 | Live allocations are word aligned, at least 12 bytes, inside a pool and pairwise disjoint. |
| `Tlsf.Allocator.Store` | system/tlsf.c:305-330 | A program writing any word of its own live allocation, including the one that doubles as a back link, keeps the invariant and every other allocation. |
| `Tlsf.Allocator.Check` | system/tlsf.c:847-897 | `tlsf_check` returns 0 on every heap that satisfies the invariant. |
| `Tlsf.Allocator.CheckPool` | system/tlsf.c:830-842 | `tlsf_check_pool` returns 0 for every pool of such a heap: each block's flags repeat those of the block before. |
| `TlsfClient.Execute` | system/tlsf.c:983-1268 | Any program of allocator calls, pool additions and writes, choosing each operation from the results and from what is in its arrays then, runs for as many steps as wanted unless it asks for what it may not; the operations are the ones it chose, and the run is one of a map from addresses to independent arrays: allocation adds an array, free removes one, realloc keeps the common prefix, a write changes one cell, nothing else changes. |
| `TlsfClient.UntouchedArrayPersists` | system/tlsf.c:1119-1268 | Over any stretch of a run in which an array is not written, resized or freed, it stays allocated with the same contents. |
| `TlsfClient.AddressReuse` | system/tlsf.c:1119-1268 | In any run, an address handed out twice was freed, or its array moved away, in between. |
| `FatVolume.Volume.SyncWindow` | system/ff.c:1055-1074 | Writing the window back never changes the logical disc; afterwards the medium equals it, both FATs included. |
| `FatVolume.Volume.MoveWindow` | system/ff.c:1077-1098 | Moving the window never changes the logical disc and leaves the wanted sector in the window. |
| `FatDisk.ClustersApart` | system/ff.c:1144-1152 | Two clusters that share a sector are the same cluster. |
| `FatSteps.Clst2SectIs` | system/ff.c:1144-1152 | A cluster number gives the first sector of that cluster, the cluster size times its distance from 2 into the data area, when it is in range, and 0 exactly when it is not. |
| `FatSteps.ByteOnDisc` | system/ff.c:3914-4006 | Where a byte of a file is on the disc: the sector of its position is counted along the clusters of the chain, and the byte is at its position modulo 512. |
| `FatVolume.Volume.GetFat` | system/ff.c:1161-1229 | On all three FAT types the value is that of the entry in the logical disc, its hexadecimal digits where the format has them, 1 for a number out of range, and the window only ever goes to the first FAT. |
| `FatDisk.LittleEndian` | system/ff.c:1161-1229 | Words are read from bytes low byte first, each counting 256 times the one before it. |
| `FatVolume.Volume.PutFat` | system/ff.c:1239-1288 | On all three FAT types exactly one entry of the table changes, to the value cut to the entry's width; every sector outside the FATs stays, both FATs stay equal, FAT32 entries keep their upper four bits, and a number out of range is refused. |
| `FatTable.Put12` | system/ff.c:1252-1264 | Replacing first one and then the other of the two packed bytes of a 12-bit entry, in whichever sectors they are, changes that entry and no other. |
| `FatTable.Put16` | system/ff.c:1266-1271 | Replacing two bytes changes that 16-bit entry and no other. |
| `FatTable.Put32` | system/ff.c:1273-1284 | Replacing four bytes changes the low 28 bits of that entry and no other. |
| `FatTable.Bytes32Number` | system/ff.c:1273-1284 | And written likewise: the four bytes of a word are the digits of that number to the base 256. |
| `FatVolume.EocEndsChain` | system/ff.c:1239-1288 | The end mark as stored reads back as no cluster number, and every cluster number fits its entry. |
| `FatVolume.Volume.RemoveChain` | system/ff.c:1429-1515 | On every table and for every pair of arguments, removal ends with exactly the table and result of freeing entry after entry, cyclic chains included, or refuses numbers out of range; the logical disc outside the FATs does not change, an exact free count stays exact unless the predecessor named was a free cluster, and FSInfo becomes due exactly if the count rose. |
| `FatChains.FreedOnlyFrees` | system/ff.c:1454-1486 | Whatever the table, removal changes entries only to zero, the first one among them when it succeeds. |
| `FatChains.RemoveCuts` | system/ff.c:1429-1515 | On every well-formed table, removal from a position of a chain frees exactly that suffix, ends the chain before it, keeps all other chains and raises the number of free clusters by the length of the suffix. |
| `FatVolume.Volume.NextFree` | system/ff.c:1585-1598 | From every starting point the cyclic scan finds the nearest free cluster, reports 0 only when none is free anywhere, and 1 only when the table holds the reserved value. |
| `FatVolume.Volume.CreateChain` | system/ff.c:1524-1615 | From every hint, 0, 1 and 0xFFFFFFFF included: an existing successor is returned, otherwise one free cluster is marked as an end and linked: the very next one if it is free, or else the nearest going round from the last one allocated; it becomes the last one allocated, the count falls by one and FSInfo becomes due; 0 is returned only when no cluster is free, and the free count stays exact. |
| `FatChains.GrowKeepsForm` | system/ff.c:1524-1615 | Linking a free cluster to the end of a chain, or starting one with it, keeps the table a set of disjoint chains and changes only that chain. |
| `FatChains.Acyclic` | system/ff.c:1429-1615 | In a well-formed table no chain comes back to a cluster. |
| `FatChains.OwnedIffUsed` | system/ff.c:1429-1615 | In a well-formed table an entry is in use if and only if a chain owns it, and none holds the reserved value. |
| `FatVolume.Volume.GetFree` | system/ff.c:4834-4898 | The known count is returned if there is one; otherwise the table is scanned, FAT12 giving an error exactly when an entry holds 1; the scanned count is the number of free clusters, and except on FAT12 one more for each of the entries 0 and 1 that is zero. |
| `FatVolume.ScanExact` | system/ff.c:4834-4898 | Up to every entry, the scan counts the zero cluster entries and, except on FAT12, entries 0 and 1 where they are zero: it is exact if and only if it is not misled by those. |
| `FatVolume.Volume.SyncFs` | system/ff.c:1108-1135 | Syncing leaves on the medium exactly the logical disc with the FSInfo sector replaced when it is due; the table and the free count stay when that sector is in front of the FAT, and cluster 2 reads as free when it is not. |
| `FatVolume.InfoKeepsTable` | system/ff.c:1108-1135 | On any volume whose cluster 2 is in use, writing FSInfo keeps the table and the two FATs equal if and only if its place is in front of the FAT. |
| `FatVolume.InfoReadsBack` | system/ff.c:1116-1126 | The FSInfo sector written carries the three signatures mounting looks for, the two counts read back, and everything else is zero. |
| `FatFile.File.Read` | system/ff.c:3914-4006 | Through buffer and direct transfers alike, reading returns exactly the bytes of the file from the pointer on, as many as asked for and there; the file and all other sectors stay as they were. |
| `FatFile.File.Write` | system/ff.c:4014-4126 | Exactly the first `bw` bytes land in the file at the pointer and nothing else of it changes; fewer than asked only if the pointer reaches 2^32 - 1 or stands at the end of the last cluster with none free; the chain grows exactly to what is needed. |
| `FatFile.File.Lseek` | system/ff.c:4433-4588 | Without write access the pointer goes to the offset or the end of the file, whichever is nearer; with it, to the offset, the file growing as far as that with its bytes kept and its chain exactly as long as needed, and stops short only at the end of the last cluster with none free. |
| `FatFile.File.Truncate` | system/ff.c:4912-4953 | The file becomes its bytes up to the pointer, exactly the clusters past it are freed, and no sector outside the FATs and the file's own chain changes. |
| `FatFile.File.Sync` | system/ff.c:4135-4205 | After a change, the medium alone holds the file: all its bytes, the table, and in its directory sector an entry brought up to date in every byte (archive bit, no access date, first cluster, time, size) with nothing else changed; syncing changes no byte of the file. |
| `FatSteps.EntryReadsBack` | system/ff.c:4187-4199 | Whatever the directory entry held, first cluster and size written to it read back the same, on every FAT type that can hold them. |
| `FatSteps.UpdatedIs` | system/ff.c:4187-4199 | All 32 bytes of the updated entry: name and creation fields stay, the archive bit is set, the access date is zero, time, first cluster and size are stored low byte first, the upper cluster word on FAT32 only. |
| `FatLedger.Ledger` | system/ff.c:1429-1615 | Where two well-formed tables differ in one chain only, the length of that chain and the number of free clusters add up to the same. |
| `FatClient.Execute` | system/ff.c:3914-4953 | Any sequence of reads, writes, seeks, truncations and syncs on an open file is a run of a plain byte array with a cursor: writes are cut at 2^32 - 1 bytes, seeks at the end of the file without write access, and both at the clusters the file has and the volume has free. |
| `FatClient.ClustersConserved` | system/ff.c:3914-4953 | Over any such run the clusters of the file and the free ones add up to the same. |
| `FatClient.AmountsDetermined` | system/ff.c:3914-4953 | Sizes, pointers and amounts read over a run depend only on the calls and on size, pointer, clusters and free clusters at the start. |
| `FatClient.BytePersists` | system/ff.c:3914-4953 | Over any such run a byte keeps its value until a write covers it or a truncation removes it. |
| `FatClient.WriteThenRead` | system/ff.c:3914-4588 | Writing, seeking back and reading gives what was written, all of it if and as far as there was room, and then what the file has. |
| `FatClient.CloseAndReopen` | system/ff.c:4135-4222 | A changed file that is synced and opened again from its directory entry has the same bytes, all on the medium. |
| `FatPairs.PerformBeside` | system/ff.c:3914-4953 | Any call on one file does to it exactly what it does when it is alone; another open file keeps its bytes, pointer and clusters, though both allocate from one table through one window, and stays usable if its buffer was not left behind. |
| `FatPairs.ValidIff` | system/ff.c:4912-4953 | The other file may be used if and only if its buffer shows a sector of its own or nothing, or still agrees with the disc. |
| `FatPairs.SettledExactly` | system/ff.c:4912-4953 | A waiting file stays valid under everything that can happen beside it if and only if its buffer shows a sector of its own or nothing. |
| `FatPairs.Execute` | system/ff.c:3914-4953 | Any interleaving of calls on two files, up to a truncation at a multiple of 512, is an interleaving of calls on two plain files that share the free clusters. |
| `FatMount.AcceptedIsSound` | system/ff.c:3511-3561 | A boot sector that passes all tests describes reserved, FAT, root and cluster areas that follow each other on the disc, with a FAT large enough for all entries of the type decided on, if and only if the sums of its sizes fit 32 bits and its last cluster ends on the disc. |
| `FatMount.RootAreaOk` | system/ff.c:3527-3552 | Then the fixed root directory lies between the FATs and the clusters. |
| `FatMount.WrappedIsAccepted` | system/ff.c:3518-3535 | A concrete boot sector that is accepted although its data area starts inside its first FAT, because the size of two FATs wraps to zero. |
| `FatMount.MountsExactly` | system/ff.c:3511-3561 | A sector is accepted with some geometry if and only if its bytes, read as the numbers at their places, are those of such a volume: sector and cluster size, one or two FATs that hold the entries, the root size, and the number of clusters within the limits of the type, from 1, 4086 and 65526 on. |
| `FatMount.Mount` | system/ff.c:3511-3584 | For every disc and boot sector: mounting succeeds exactly on boot sectors of a volume and gives its geometry, the start and size of its root directory and, where there is an FSInfo sector, the two counts at bytes 488 and 492 of it, low byte first; the volume is in order if and only if the geometry is sound and the FATs agree, it then shows the disc unchanged, and its FSInfo sector is apart from the FAT if and only if it is unused or there are at least two reserved sectors. |
| `FatMount.SyncAndRemount` | system/ff.c:3564-3584 | Syncing a volume whose counts are due and mounting the medium again gives the same free count and the same last cluster. |
| `FatNames.Checksum` | system/ff.c:2053-2064 | The checksum loop computes the rotate-and-add sum of the 11 bytes. |
| `FatNames.SumDigits` | system/ff.c:2053-2064 | Each byte is added, modulo 256, to the sum so far with its eight binary digits rotated right by one. |
| `FatNames.PutLfn` | system/ff.c:1959-1984 | The entry filled is the wanted part of the name: its ordinal with the last-part mark, the attribute, the checksum, and its 13 units at bytes 1, 3, 5, 7, 9, 14, 16, 18, 20, 22, 24, 28 and 30, low byte first, terminated once and then padded. |
| `FatNames.PickLfn` | system/ff.c:1921-1951 | The loop leaves the buffer and the result that copying unit after unit gives. |
| `FatNames.PickExactly` | system/ff.c:1921-1951 | Exactly the entries are refused whose word at byte 26 is not zero, which have anything but filler behind the terminator, or whose units, with a terminator behind the last part, do not fit the buffer; otherwise the units, and that terminator, are in the buffer at 13 times the ordinal less one, and nothing else of it changes. |
| `FatEntries.PutEntry` | system/ff.c:1697-1734 | Writing 32 bytes where an entry is in its sector changes that entry of the directory and no other, along any chain and in the fixed area. |
| `FatEntries.EntryOnDisc` | system/ff.c:1697-1734 | Where an entry is on the disc: sixteen to a sector, counted from the start of the fixed area or along the clusters of the chain. |
| `FatEntries.CountIs` | system/ff.c:1697-1797 | How many entries there are: what the fixed area or the chain holds, 65536 at most. |
| `FatDirectory.Dir.Sdi` | system/ff.c:1697-1734 | Moving to a byte offset succeeds exactly for offsets of entries there are, and ends in the right cluster and sector. |
| `FatDirectory.Dir.Next` | system/ff.c:1745-1797 | The next entry is reached across sectors and clusters; at the end it is reported, or the directory gets one more cluster whose entries are all cleared, and no entry before it changes; that fails only when no cluster is free. |
| `FatDirectory.Dir.Alloc` | system/ff.c:1806-1837 | The first run of as many free entries as asked for is found, over sector and cluster boundaries; it is refused only when there is none in the whole directory and the directory cannot get larger. |
| `FatDirectory.Dir.Register` | system/ff.c:2470-2557 | A name is stored with its parts, last first, and a short entry of the name, the case flags and zeroes in the first free entries that hold it; every other entry is as it was, and if what ends the directory was behind all entries in use the name is in front of it. |
| `FatDirectory.Dir.Read` | system/ff.c:2306-2374 | Over sectors and clusters, reading stops at the first entry from the current one on that is a file, skipping deleted entries, dot entries, volume labels and parts, unless the directory ends before; exactly if there is none, nothing is found. A long name is reported only if the entries from its place up to the file are parts that count down to 1 and carry the checksum of its short name. |
| `FatNames.ReadFinds` | system/ff.c:2306-2374 | The same of the sequence of entries: from any scanner state the first file is found if the directory does not end before it, and nothing otherwise. |
| `FatNames.NamedRightly` | system/ff.c:2306-2374 | Whatever the entries, a long name is reported only where the marked first part and all after it count down to the file found, with the checksum of its short name. |
| `FatNames.ReadsBack` | system/ff.c:1921-2374 | From any earlier scanner state, reading where a name of 1 to 255 units was registered stops at its short entry with exactly that name in the buffer and the block offset at its first entry. |
| `FatEntries.ReachesName` | system/ff.c:1921-2557 | Reading from any earlier entry meets another file first or stops at the name with its units in the buffer. |
| `FatDirectory.NameRoundTrip` | system/ff.c:1697-2557 | A name of 1 to 255 units stored on a volume and then read from there comes back, whatever sectors and clusters it falls across, with the place of its first entry. |
| `FlashSteps.ProgramStores` | system/spi_flashdev.c:238-297 | Programming stores a byte if and only if it sets no bit the cell has cleared. |
| `FlashSteps.ProgramErased` | system/spi_flashdev.c:238-297 | On an erased page programming stores any data. |
| `Flash.FlashDevice.WriteBuffer` | system/spi_flashdev.c:238-297 | Erasing and programming sixteen pages makes the sector equal to the buffer, changes no other cell and gives up the buffer; the array handles see stays the same. |
| `Flash.FlashDevice.Read` | system/spi_flashdev.c:129-142 | Each read returns the latest bytes written through any handle, buffered or not, and moves only its own cursor; an unknown handle gets -EIO. |
| `Flash.FlashDevice.Write` | system/spi_flashdev.c:146-210 | The loop over sectors ends, every byte lands in the array at the cursor, nothing else of it changes and only this handle's cursor moves. |
| `Flash.FlashDevice.Lseek` | system/spi_flashdev.c:302-320 | Only the handle's cursor changes: to the offset, by the offset, or to the offset from 16777215, on 32 bits; an unknown mode or handle changes nothing. |
| `Flash.FlashDevice.Open` | system/spi_flashdev.c:93-126 | The first free entry is taken with its cursor at 0, or -EMFILE when all four are in use. |
| `Flash.FlashDevice.Sync` | system/spi_flashdev.c:231-234 | Afterwards the chip alone holds the array. |
| `Flash.FlashDevice.Close` | system/spi_flashdev.c:336-344 | Closing writes the buffer out and frees the handle; the array is the same. |
| `FlashClient.Execute` | system/spi_flashdev.c:107-344 | Any interleaving of calls through any handles returns the bytes, and leaves the array and cursors, of a plain byte array. |
| `FlashClient.LatestWrite` | system/spi_flashdev.c:129-297 | After any run each byte is what the latest write that covered it put there. |
| `FlashClient.ReadSeesWrite` | system/spi_flashdev.c:129-210 | What one handle writes, another reads at once. |
| `Flash.FlashDisc.ReadSectors` | system/flashdisc.c:35-58 | Reading sectors returns their bytes of the disc image, which starts 262144 bytes into the flash; without a handle it is refused. |
| `Flash.FlashDisc.WriteSectors` | system/flashdisc.c:86-110 | Writing sectors replaces exactly those of the image, 262144 bytes into the flash. |
| `Flash.FlashDisc.SyncDisc` | system/flashdisc.c:112-116 | After syncing, the chip's cells are the image. |
| `Crc16.ExtendByte` | init/xmodem_server.c:39-49 | The shift loop on 16 bits computes the CRC extended by one byte. |
| `Crc16.CrcIsRemainder` | init/xmodem_server.c:39-49 | For every message the CRC is the remainder of the message times x^16 divided by x^16 + x^12 + x^5 + 1 in arithmetic without carries: the only 16-bit number that, added to it, gives a multiple. |
| `Crc16.CrcLinear` | init/xmodem_server.c:39-49 | The CRC of the XOR of two messages is the XOR of their CRCs. |
| `Crc16.ExtendInjective` | init/xmodem_server.c:39-49 | One byte step gives equal results for equal bytes only from equal CRCs, and for equal CRCs only from equal bytes. |
| `Crc16.BurstDetected` | init/xmodem_server.c:39-49 | Messages alike outside two adjacent bytes have equal CRCs if and only if those bytes agree too. |
| `Crc16.ByteDetected` | init/xmodem_server.c:39-49 | The same for a single byte. |
| `Crc16.SelfCheck` | init/xmodem_server.c:107-115 | Appending a message's CRC, high byte first, gives CRC 0. |
| `Xmodem.Server.RxByte` | init/xmodem_server.c:51-130 | Every byte takes the state, buffer, packet size and control bytes where the protocol says, and keeps the invariant: while data arrives the position is inside a packet of 128 or 1024 bytes that repeats the line, one ACK per packet delivered and for the end, one NAK per error, one CAN exactly on failure, and the k-th packet delivered is reported as block k and is the data of a frame numbered k + 1 with right complement and CRC. |
| `Xmodem.Server.Process` | init/xmodem_server.c:157-190 | At every time: more than 500 ms in the starting state send a C, more than 1000 ms in any other a NAK and count an error, and from 100 errors on a CAN ends the transfer; a packet is handed out and acknowledged exactly when one is ready and neither intervenes; the next state and the moment the timers count from are given, the invariant holds, and after success or failure nothing happens. |
| `XmodemLink.FeedFrame` | init/xmodem_server.c:51-130 | A whole frame with the next number is accepted if and only if its CRC fits; one with the previous number is passed over in silence if it fits; either is refused with a NAK if not. |
| `XmodemLink.Link.Happen` | init/xmodem_server.c:51-190 | Each event changes channel, acknowledgements and deliveries as it should; a frame that is wanted is delivered and acknowledged unless the receiver has just timed out or given up, and no other frame is. |
| `XmodemLink.Link.Execute` | init/xmodem_server.c:51-190 | Over every run of such events, at all times what is delivered is a prefix of the blocks sent, in order and without repetition, and all of them when the receiver is in success. |
| `Divider.Steps` | rtl/femtorv32_gracilis.v:220-251 | One step of restoring division keeps the identity between dividend, digits found and rest, for every dividend and divisor. |
| `Divider.DivUnit.Divide` | rtl/femtorv32_gracilis.v:205-258 | For all operands the unit is busy for exactly 32 clocks and then gives: for divisor 0, 2^32 - 1 as quotient and the dividend as rest; for signed overflow, the dividend and 0; otherwise the quotient or rest of the pair with x = y q + rest, the rest smaller than the divisor and with the dividend's sign, signed or unsigned as the instruction says. |
| `Divider.RequiredMeets` | rtl/femtorv32_gracilis.v:205-258 | The specification function gives those values for every instruction, division by zero and signed overflow included. |
| `Divider.SignedIs` | rtl/femtorv32_gracilis.v:205-258 | Signed operands and results are in two's complement on 32 bits. |
| `Divider.SignFix` | rtl/femtorv32_gracilis.v:205-232 | The final negation turns quotient and rest of the magnitudes into the required result for all operands. |
| `Divider.QuoRest` | rtl/femtorv32_gracilis.v:205-258 | The quotient and remainder required are the only pair with a = b q + r, a rest smaller than the divisor and with the sign of the dividend. |

## Left out

- Short names: they are given; generating them, the numbered forms after a collision, and comparing names (`dir_find`,
  `cmp_lfn`) are not modelled, nor are following a path and `f_open`: an open file starts from the place of its entry.
- Removing entries (`dir_remove`) and volume labels.
- Code pages and case folding: names are sequences of 16-bit units.
- exFAT, GPT, `f_mkfs`, `f_fdisk` and the functions that `system/ffconf.h` leaves out.
- Disc, SPI and SD card errors: every transfer succeeds, so `fp->err`, FR_DISK_ERR and 0xFFFFFFFF results do not occur.
- Object validation (`validate`) and reads of removed media: handles are valid.
- Damaged volumes at the level of files and directories: chains and free count are in order when one is opened; removal
  of chains and the search for clusters are proved on any table.
- FatFile.File.Lseek: bytes between the old end and the new one are not specified, as in the code.
- FatPairs.Execute: stops before a truncation at a multiple of 512, after which the file's buffer may be left behind.
- FatVolume.Volume.SyncFs: on a volume whose FSInfo sector is the first sector of the FAT nothing is said about the
  volume afterwards beyond the medium's contents and the lost entry.
- The search for the boot sector in a partition table and `check_fs`.
- Tlsf.Allocator.AddPool: requires memory of its own for the pool and not the one size that has no list;
  `tlsf_remove_pool`, `tlsf_destroy` and the size queries are left out, `tlsf_create_with_pool` is creation and addition.
- Tlsf.Allocator.Free: requires a live pointer or null; the assertion against freeing twice is that requirement.
- TlsfClient.Execute: requests are of sizes for which the calls keep their promises, alignments below 2^31.
- The 64-bit variant and the compiler-builtin bit scans of `system/tlsf.c`, and alignments that are not powers of two.
- Flash.FlashDevice.Write: a sector buffer can always be allocated, so -ENOMEM does not occur; transfers stay inside the
  16 MB chip, which the code does not check, since what lies behind it is not known here.
- Flash.FlashDevice.Read: transfers stay inside the chip, likewise.
- Flash.FlashDisc.ReadSectors: the sectors asked for are on the disc; the code leaves this to its caller.
- Flash.FlashDisc.WriteSectors: the sectors written are on the disc, likewise.
- SPI commands and busy-waiting: erasing a sector and programming a page are single steps; `spiflash_fstat`,
  `intflash_init`, `intflash_ioctl` and `intflash_release` are left out.
- XmodemLink.Link.Execute: safety only; that a transfer ends is not stated. Damage is of a kind the CRC shows, and
  control bytes from the receiver are lost or arrive, but are not changed.
- Xmodem.Server.Process: times are unbounded integers, not 64-bit ones.
- Divider.DivUnit.Divide: one instruction at a time with operands held; the processor's state machine, multiplication
  and reset are left out.
- `system/raw_econet.c`, the command line, the supervisor calls and all other hardware.
