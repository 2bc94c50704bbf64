# vmread: guest memory access and the structures read through it

vmread reads and writes the memory of a Windows guest from outside. This project models three
parts of it in Dafny and proves what they keep.

**Virtual memory access (`mem.c` with `intmem.c` and `vmmem.c`).** A virtual address is translated
by a four-level page walk behind two stacked caches: a direct-mapped, timed translation cache of
1024 entries, and (in the external build) four timed copies of table pages under the walk. A
virtual range is cut at page boundaries, translated piece by piece, compacted into an array and
handed to a physical back end.

**Guest structures (`wintools.c`).** The export table parser with its 32-bit wrapping checks, the
walk of a circular module list, and the process list.

**Queued writes (`hlapi`).** A `WriteList` gathers values in one byte buffer and commits them as one
batch.

## How it is modelled

- The guest runs on while it is read: a `World` gives a clock reading and the contents of physical
  memory at every tick, and every access happens at a tick of its own. A page walk may therefore
  see each level at another moment. `m` stands for one memory, and "frozen" says that the table
  entries on the path of an address are at every tick what they are in `m`.
- `Cache` (in `TlbCache.dfy`) is the thread-local cache with its arrays updated in place. Each
  of its methods is proved to do what a function of `TlbModel.dfy` does to the abstract state; what
  runs of these functions keep is proved in `TlbRuns.dfy` and `TlbHistory.dfy`. A run is any
  sequence of translations, flushes and cache-time changes.
- The build switch for the page cache is a field, so the theorems about translation and the split
  (`TlbRuns.dfy`, `TlbHistory.dfy`, `Reverify.dfy`, `VMemBytes.FillIsWalk`) hold for both builds. The
  theorems about bytes are stated for `intmem.c`, the back end of the mapped builds, which have no
  page cache; `External.dfy` carries them over to `vmmem.c`, the back end of the external build.
- `World` supplies what the page walk reads. Guest RAM as the back end moves it is the array `ram`,
  and the program's own memory is the array `buf`; a local address is an index into it.
  `TablesInRam.dfy` ties the two together: there the page tables live in `ram` itself.
- Each part has a reference that is not written in terms of the code: `Architecture.dfy` states paging
  in the manual's bit fields, `ExportLayout.dfy` states what an export table means in raw bytes,
  `GuestLists.IsProcessList` and `IsModuleList` what the lists hold, `VMemBytes.ReadDone` and
  `VMemWrites.WriteDone` what a transfer does to every byte.
- Addresses and sizes are naturals; every place where the C arithmetic can wrap or truncate does so
  explicitly (`Wrap64`, `Wrap32`, `ToInt32`). `Bits.dfy` defines `&` and `|` bit by bit and proves
  that each mask in the code is the quotient and remainder the rest of the model computes with.

Where the code does not do what its documentation says, the code is followed, and the exact
condition is a theorem:

- `mem.h` says that `VTranslate` returns 0 when there is no translation. A failed walk is cached as
  0, and a later hit ors the page offset onto it: `TlbRuns.CacheTransparency` says that this is the
  only way in which the cache can be told from the walk, and `TlbHistory.RememberedFault` that every
  unaligned faulting address shows it.
- `mem.h` says that `VMemRead` and `VMemWrite` return the data moved. The first page of a range is
  transferred even when it has no translation: `VMemBytes.ReadExactly` and `VMemWrites.WriteExactly`
  give the exact condition, and `VMemBytes.UnmappedFirstPage` says what is read instead.
- The bounds test of `intmem.c` refuses a transfer that ends at the last byte of RAM, and lets some
  transfers longer than RAM through (`PhysMem.AcceptsExactly`, `PhysMem.TestProtectsExactly`).
- The array for one request is large enough exactly up to 2^31 - 2 pages (`VMem.SplitSizeExactly`).
- A cache time of 2^64 ns or more is shortened (`Clock.CacheTimeKeptExactly`); 2^58 ms counts as zero.
- `CalculateDataCount` counts one slot too few for every empty entry at a page start, and wraps at
  2^31 slots (`DataCount.CountIsSlots`); `VMem.ListSizeExactly` says exactly when the array used is
  large enough.
- `WriteList` is to be a batch of writes. A refused transfer ends the whole batch, `Commit` ignores
  that and clears the queue: what was queued later is lost, where separate writes would still have
  happened (`BatchCalls.LostWrite`). `CommitExact.CommitExactly` says exactly when a commit equals
  its writes.
- `VerifyTlb` passes page and table base in the opposite order. Its walk is the one the entry stands
  for, whatever the tables, exactly when the two are equal (`Reverify.VerifyIsRightExactly`); in every
  other case there are tables on which it loses the translation (`Reverify.VerifyCanLose`).
- `VTranslate` clears only bits 0 to 3 of the table base. With one of bits 4 to 11 set (page-cache
  disable, PCID) the walk starts at another entry than the architecture's
  (`TableBase.RootIsArchitecturalExactly`, `TableBase.BaseIsArchitecturalExactly`).
- The page walk reads 36-bit frames and ignores the present bit of the last entry. On tables whose
  pointers above the leaf fit 36 bits, with no page-size bit at the top level,
  `TableBase.WalkIsArchitectural` says exactly when this agrees with the Intel SDM, Volume 3A,
  section 4.5. On other tables the code follows a pointer that the
  architecture extends beyond 36 bits or faults on.
- `MemReadMul` in `vmmem.c` returns the result of its last call only
  (`IovBatch.ReturnIsTotalExactly`), and the flush test of `MemWriteMul` comes one entry late
  (`IovBatch.WriteIndicesFit`).
- The export checks keep the names table inside the copy, whatever its bytes, exactly when the
  directory ends below 2^32 + 5 (`ExportTable.NamesInsideExactly`); a directory that ends at 2^32 or
  later yields no export at all (`ExportTable.WrappedYieldsNothing`).
- Ordinals are compared with the number of names, so an accepted one may lie past the functions
  table. Every copy with given counts has its accepted slots inside exactly when there are fewer
  names than functions or more than 0xffff functions (`ExportTable.SlotsInsideExactly`).
- The walk of a circular process list ends exactly when some process of it is listed
  (`GuestLists.RingEndsExactly`), and the walk of a module list exactly when it has no tail before its
  cycle or the cycle is one node (`GuestLists.LassoStopsExactly`).

## Hypotheses that recur

- `Settled(w, limit)`: the clock is monotone, below 2^63 ns, and always reads at least `limit`, the
  largest cache time in use. Without the last part a zero stamp is not old.
- `Inv`: the cache invariant, which holds initially and after every run (`TlbRuns.RunInv`) and which
  every translation and every split keeps.
- `ReadBy`: the cache has read the clock before, if it has a page cache. A cache that has not is the
  unused one, for which `Reverify.VerifyUnused` says what verifying does.
- `RangeFrozen`: the table entries on the paths of the range do not change.
- `Fits`: the request lies in local memory, and RAM holds its largest transfer, which is a page or the
  request if that is shorter. The request itself may be longer than RAM.
- `Readable`: the request fits and is not empty, its first page is mapped to a frame other than
  page 0, and every mapped byte is before the last byte of RAM.

A frame on physical page 0 counts as "no translation" throughout, as it does in the code for every
page but the first.

## Model

| member | source | states |
|---|---|---|
| Bits.PageMask | mem.c:268 | `x & ~0xfff` in 64 bits, with `&` defined bit by bit, is the largest multiple of the page size not above x |
| Bits.OffsetMask | mem.c:280 | `x & 0xfff` is the remainder by the page size |
| Bits.TableMask | mem.c:62 | PMASK keeps bits 12 to 35 and nothing else |
| Bits.GbMask | mem.c:333 | the 1 GB leaf mask keeps bits 30 to 51 |
| Bits.DirBaseMask | mem.c:180 | masking the table base clears its low four bits |
| Bits.OrOffsetIsSum | mem.c:297 | or-ing a page offset onto a cached page is adding it |
| Bits.OperatorBits | mem.c:297 | a bit of an or is set iff it is set in either word, one of `x & y` iff in both |
| Clock.TimeDiffIsNanos | mem.c:270 | the wrapped second/nanosecond difference is the difference in nanoseconds, 10^9 to the second, modulo 2^64, whatever is borrowed |
| Clock.FreshExactly | mem.c:293-295 | for readings less than 2^64 ns apart the age test passes exactly for ages in [0, T) or stamps so far ahead that the difference wraps below T |
| Clock.FreshMeansYoung | mem.c:270-272 | with a cache time and readings up to 2^63 ns the test is true iff 0 <= now - stamp < T, future stamps included |
| Clock.CacheTimeKeptExactly | mem.c:22 | the cache time in force is the one set iff it is below 2^64 ns, and a shorter one otherwise |
| Clock.LongCacheTimeCollapses | mem.c:22 | 2^58 ms, which a size_t holds, is taken as zero: nothing is ever fresh |
| GuestMemory.WordInsidePage | mem.c:280 | an aligned table entry lies inside one page, so taking it from a copy of the page is reading it |
| GuestMemory.WordByte | mem.c:130-135 | byte i of the eight-byte word read at an address is the byte of guest memory at address + i |
| GuestMemory.WordIsBytes | mem.c:278 | the word is these bytes in little-endian order and nothing more |
| Architecture.IndexBits | mem.c:317-320 | the table index of each level is nine bits of the address, by shift and mask |
| Architecture.EntryAddressIs | mem.c:323-343 | the entry read at each level is the one the architecture names |
| Architecture.FlagBits | mem.c:324-338 | presence is bit 0 and the large-page flag bit 7 of an entry |
| Architecture.LeafBits | mem.c:332-348 | the address of a page of each size is frame bits and offset bits put together |
| Architecture.ArchIsTranslation | mem.c:315-349 | the walk that the code's is compared with is 4-level paging in the manual's bit fields |
| Architecture.FrameOfBytes | mem.c:343 | the frame of a last-level entry, byte by byte, above 4 GB as below |
| Architecture.LastLevelOfBytes | mem.c:343-348 | so the last level translates to exactly the frame these bytes name plus the offset, or faults if they name none |
| PageWalk.WalkOfPage | mem.c:315-349 | the walk of an address is the walk of its page plus the offset, and faults exactly when that does, even if each level is read from another memory |
| PageWalk.FrozenWalk | mem.c:315-349 | a walk whose levels are read at different moments equals the walk in one memory if the entries on its path stay the same |
| PageWalk.SameTablesOfPage | mem.c:315-349 | all addresses of a page depend on the same table entries |
| PageWalk.LeafAgreement | mem.c:332-348 | at the last entry, of any of the three leaf sizes, the code and the architecture give the same result exactly when the entry meets the stated bit conditions |
| TableBase.MaskIsAnd | mem.c:180 | the table base is and-ed with ~0xf |
| TableBase.RootIsArchitecturalExactly | mem.c:180 | the walk starts at the architecture's first entry iff bits 4 to 11 of the table base are clear |
| TableBase.WalkIsArchitectural | mem.c:315-349 | with these bits clear, on tables whose pointers fit 36 bits, the walk is the architectural four-level translation if and only if the last entry read meets those conditions |
| TableBase.BaseIsArchitecturalExactly | mem.c:178-180 | a table base gives the architectural translation on all such tables iff these bits are clear |
| TableBase.WrongBase | mem.c:180 | for every table base with one of them set, tables on which an unmapped address is translated |
| TlbCache.Cache.constructor | mem.c:54-60 | static storage: everything zero |
| TlbCache.Cache.VtUpdateCurTime | mem.c:260-263 | sets the current time and nothing else |
| TlbCache.Cache.VtMemReadU64 | mem.c:265-284 | updates the slots in place as the function Fetch does, whose result FetchedRecently characterises |
| TlbCache.Cache.VTranslateInternal | mem.c:315-349 | the unrolled walk over cached pages equals the recursive one, result and slots |
| TlbCache.Cache.VtCheckCachedResult | mem.c:286-301 | if the slot of the page number modulo 1024 has this page and table base and is young, the translation or-ed with the offset and one hit counted; otherwise 0 |
| TlbCache.Cache.VtUpdateCachedResult | mem.c:303-313 | replaces entry and stamp of the slot of the page number modulo 1024, and no other |
| TlbCache.Cache.VTranslate | mem.c:178-194 | the whole translation refines Translate, about which the runs are proved |
| TlbCache.Cache.SetMemCacheTime | mem.c:196-199 | the cache time is the one given, and nothing else changes |
| TlbCache.Cache.FlushTlb | mem.c:235-244 | zeroes every stamp; entries and the page cache stay |
| TlbCache.Cache.VerifyTlb | mem.c:211-233 | does to the worker's slice what Verify does to the abstract state |
| TlbCache.Cache.StampSlice | mem.c:231-232 | sets the stamps of a slice and nothing else |
| TlbRuns.FetchedRecently | mem.c:265-284 | every fetched entry is the word guest memory held at some tick less than T before the call, through the page cache or not |
| TlbRuns.WalkedRecently | mem.c:315-349 | every walk through the page cache is the plain walk over memories of the last T, level by level, and keeps the slots truthful |
| TlbRuns.TranslateMiss | mem.c:187-193 | a translation not answered from the cache is a walk over memories of the last T |
| TlbRuns.TranslateHit | mem.c:286-298 | a hit returns the walk over memories of the last 2T, or the bare page offset if that walk faults |
| TlbRuns.TranslateOk | mem.c:178-194 | hit or miss, the result is a walk over memories of the last 2T up to a remembered fault, and the invariant is kept |
| TlbRuns.ApplyInv | mem.c:178-244 | every translation, flush and cache-time change keeps the invariant |
| TlbRuns.RunInv | mem.c:178-244 | the invariant holds after every run |
| TlbRuns.BoundedStaleness | mem.h:209-216 | after any run on a guest that changes its memory at will, each table word a translation depends on was current less than twice the largest cache time before the call |
| TlbRuns.FlushHalvesStaleness | mem.c:235-244 | right after a flush the bound is once the cache time, and no remembered fault is returned |
| TlbRuns.CacheTransparency | mem.c:286-313 | with frozen tables the cached translation equals the uncached walk if and only if it is not a hit on a remembered fault at an unaligned address; the page part always agrees |
| TlbRuns.RunTransparency | mem.c:178-194 | after any run from the initial state the translation of a mapped or page-aligned address is its uncached walk |
| TlbHistory.ApplyFollows | mem.c:303-313 | an event changes a slot only through the record it leaves, so no translation disturbs another index |
| TlbHistory.SlotIsLatestInstall | mem.c:286-313 | after any run each slot holds the last (page, table base, translation) installed at its index, with its stamp or a zero stamp if flushed since |
| TlbHistory.TimeInForce | mem.c:196-199 | the cache time in force after any run is the one set last, or the first one |
| TlbHistory.HitIffYoungInstall | mem.c:286-301 | a lookup hits exactly when the last install at its index is for that page and table base, younger than the cache time set last, and not flushed since |
| TlbHistory.TagsStayAligned | mem.c:303-313 | every run keeps all page tags aligned, as re-verification needs |
| TlbHistory.RememberedFault | mem.c:297 | a faulting address translated twice within the cache time gives 0 first and its page offset then |
| TlbLaws.SameSlotExactly | mem.c:248-251 | two addresses share a slot iff the numbers of their pages differ by a multiple of 1024 |
| TlbLaws.InstallStillHits | mem.c:286-313 | what a walk installed is found again, for every address of the page and with that page, after any translations of pages with other slots, while younger than the cache time in force |
| TlbLaws.CongruentEvicts | mem.c:303-312 | a walk for another page of the same slot takes its place |
| TlbLaws.ZeroTimeNeverHits | mem.c:196-199 | after the cache time was set to zero no lookup hits until another is set |
| TlbLaws.ZeroTimeIsUncached | mem.c:196-199 | and every translation reads the tables as they are at its own ticks, in either build |
| TlbLaws.FetchUsesSlot | mem.c:265-284 | with a young copy of the page in its slot a fetch reads nothing; otherwise the slot becomes a copy of the page as it is, stamped with the cache's clock reading |
| TlbLaws.CountersStep | mem.c:296-312 | a lookup that hits counts one hit, a walk counts one miss |
| TlbSlices.SlicesPartition | mem.c:213-218 | for fewer than 2^54 workers every slot belongs to exactly one worker's slice |
| TlbSlices.SlicesAreEven | mem.c:217-218 | a worker's slice starts at its share of the slots, rounded down, and no slice is longer than another by more than one |
| TlbSlices.SlicesCoverExactly | mem.c:213-218 | the slices cover the cache if and only if there are fewer than 2^54 workers |
| TlbSlices.VerifyFrame | mem.c:220-232 | a worker changes entries and stamps of its own slice only, never a tag, and stamps the whole slice with one reading |
| Reverify.SliceIsReverified | mem.c:220-227 | in either build every entry of the slice keeps its tag and gets the walk with page and table base exchanged, through table words current less than T before the cache's last clock reading |
| Reverify.VerifySwaps | mem.c:211-233 | the same for the whole worker, stamps included |
| Reverify.VerifiedOnStillGuest | mem.c:220-227 | on a guest that stands still each entry of a verified slice holds exactly the exchanged walk |
| Reverify.VerifyUnused | mem.c:211-233 | with a page cache, verifying a slice of a cache that was never used sets its stamps and nothing else |
| Reverify.VerifyIsRightExactly | mem.c:225 | for aligned tags the exchanged walk is the entry's own walk on all tables if and only if page and table base are equal |
| Reverify.VerifyCanLose | mem.c:225 | for every tag whose page and table base differ there are tables on which the page is mapped and verifying its entry gives 0 |
| Reverify.RootsDiffer | mem.c:323 | the two walks of such a tag start at different table entries, sums that wrap included |
| Reverify.FlushAfterVerify | mem.c:211-244 | verifying a slice and then flushing restores the cache invariant |
| TlbSlices.PlainWalk | mem.c:279-283 | without the page cache the cached walk is the plain walk over the memories at its own ticks and changes nothing |
| Splitter.PiecesTile | mem.c:374-406 | the pieces of a range follow each other without gap or overlap, end at its end, and none crosses a page, wrapping ranges included |
| Splitter.OnePieceHolds | mem.c:385-403 | every byte of the range is in exactly one piece |
| Splitter.ChunksAreKeptPieces | mem.c:378-403 | a piece is in the compacted list iff it is the first or has a translation, at the position given by the kept pieces before it, with its own offset, address and size |
| Splitter.PiecesLength | mem.c:391-403 | how many slots a split can write, for every offset and length |
| Splitter.SingleCapacity | mem.c:81 | the array of the single form holds all pieces, the scratch slot of dropped ones included |
| DataCount.CalculateDataCount | mem.c:352-360 | the loop computes the sum in int arithmetic, term by term |
| DataCount.TermCounts | mem.c:357 | each 64-bit term is the number of slots the entry needs modulo 2^32, even when the range wraps; one less for an empty aligned entry |
| DataCount.CountIsSlots | mem.c:352-372 | for any list the computed size is the slots the split can write less the empty aligned entries, as an int; it suffices for every pattern of unmapped pages iff there are none and the slots are fewer than 2^31 |
| VMem.ListSizeExactly | mem.c:144-149 | the array used, fixed or allocated, holds every split iff the slots are fewer than 2^31 and there is no empty aligned entry or the fixed array suffices |
| PhysMem.Memcpy | intmem.c:17 | copies a range between two arrays and touches nothing else |
| PhysMem.MemRead | intmem.c:12-19 | result and local memory of one bounds-checked read |
| PhysMem.MemReadMul | intmem.c:21-33 | result and local memory of the reads in order, cut at the first one out of range |
| PhysMem.MemWrite | intmem.c:35-42 | result and guest RAM of one bounds-checked write |
| PhysMem.MemWriteMul | intmem.c:44-56 | result and guest RAM of the writes in order, cut at the first one out of range |
| PhysMem.AcceptsExactly | intmem.c:15 | for transfers no longer than RAM the test accepts exactly those that end before its last byte |
| PhysMem.TestProtectsExactly | intmem.c:15 | the test keeps a transfer inside RAM iff its length is at most the RAM size or the wrapped bound refuses it |
| PhysMem.RemapBijective | intmem.c:10 | for both settings the remap is one to one from RAM onto [0, size), with inverse Unmap |
| PhysMem.AboveHole | intmem.c:8-10 | RAM above the hole starts at mapping offset 2 GB for Q35 and 3 GB for XP |
| PhysMem.RemapMonotone | intmem.c:10 | it keeps the order of RAM addresses |
| PhysMem.RemapLinear | intmem.c:10 | it moves a transfer inside one page as a whole |
| PhysMem.ReadAllTotal | intmem.c:23-32 | a list of reads returns the sum of its sizes if all are in range, and -1 if any is not |
| PhysMem.ReadAllFrame | intmem.c:21-33 | local bytes in no transfer keep their value, even if the list is cut short |
| PhysMem.ReadAllBytes | intmem.c:21-33 | reads into ascending ranges deliver every byte from the remapped address |
| PhysMem.WriteAllTotal | intmem.c:46-55 | the same count for writes |
| PhysMem.WriteAllFrame | intmem.c:44-56 | guest bytes that are no target keep their value, even if the list is cut short |
| PhysMem.LastWriteWins | intmem.c:44-56 | a guest byte gets its value from the last transfer that targets it |
| VMem.FillRWInfo | mem.c:374-406 | the loop with its scratch slot leaves exactly the compacted list of Fill, the cache as the translations in order leave it, and the array before it untouched |
| VMem.FillRWInfoMul | mem.c:362-372 | the lists of all entries one after the other |
| VMem.FastPathIsSplit | mem.c:78-79 | where the fast path is taken the split gives the same single transfer and the same cache state |
| VMem.FastPathExactly | mem.c:78-79 | where the fast path is taken its transfer is the split's iff the size is below a page; the only others are sizes within a page of 2^64 that wrap into the same page |
| VMem.SplitSizeExactly | mem.c:81-88 | the array computed in int arithmetic holds every split of a request, for every address, iff the size is at most 2^31 - 2 pages |
| VMem.SplitSize | mem.c:81-88 | off the fast path the size is positive and, up to that limit, the computed array is enough |
| VMem.VMemRead | mem.c:76-95 | result, local memory and cache after a virtual read, fast or split, as the split and the reads in order give them |
| VMem.VMemWrite | mem.c:97-116 | the same for a virtual write and guest RAM |
| VMem.VMemReadMul | mem.c:142-158 | the same for a list of reads, with the array sized by CalculateDataCount |
| VMem.VMemWriteMul | mem.c:160-176 | the same for a list of writes |
| VMem.ChunksProper | mem.c:374-406 | every transfer of a request stays in local memory, is no longer than a page or the request, and is protected by the bounds test, for requests of any length |
| VMem.FillProper | mem.c:374-406 | the same of the split through the cache |
| VMemBytes.FillIsNearWalk | mem.c:374-406 | whatever the cache holds, on frozen tables the split uses the uncached walk for every piece, save that an unmapped first piece gets something on page 0 |
| VMemBytes.FillIsWalk | mem.c:374-406 | with the first page mapped the split through the cache is the split by uncached walks |
| VMemBytes.MappedByteChunk | mem.c:391-403 | each mapped byte is in a transfer that moves it to or from where its own walk leads, through the remap |
| VMemBytes.ReadRefinesBytes | mem.c:76-95 | VMemRead sets every byte of a mapped page to the guest byte at that byte's own walk, leaves all other local bytes alone, and returns the number of mapped bytes |
| VMemBytes.ReadExactly | mem.c:76-95 | it does so if and only if the first page is mapped and every mapped byte is before the last byte of RAM |
| VMemBytes.EmptyReadExactly | mem.c:76-95 | an empty read meets the specification iff its one translation is in range |
| VMemBytes.StillGuestRead | mem.c:76-95 | the same from the start: on a guest that stands still, after any run, VMemRead meets its byte-by-byte specification under exactly that condition |
| VMemBytes.UnmappedFirstPage | mem.c:378 | with an unmapped first page the call fails or fills that part from physical page 0 and counts it |
| VMemWrites.WriteRefinesBytes | mem.c:97-116 | VMemWrite gives every guest byte the last request byte whose own walk leads there, aliased frames included, keeps all others, and returns the number of mapped bytes |
| VMemWrites.WriteExactly | mem.c:97-116 | it does so under exactly the condition of ReadExactly |
| VMemWrites.EmptyWriteExactly | mem.c:97-116 | an empty write under exactly that of EmptyReadExactly |
| VMemWrites.RoundTrip | mem.c:76-116 | a write and a read of the same range at any other time, each through any cache, return the written bytes, report full sizes, and change no other guest byte |
| TablesInRam.SparedTablesFrozen | mem.c:160-176 | requests that go to no table entry any of them needs leave the paths of all of them as they were, if nothing else writes the tables |
| TablesInRam.WrittenStage | mem.c:160-176 | RAM after the first k requests differs from the start only where the requests write |
| TablesInRam.RoundTripInRam | mem.c:76-116 | the round trip when the page tables live in the RAM being written |
| TablesInRam.WriteMulIsCallsInRam | mem.c:160-176 | VMemWriteMul equals its calls when each call sees the tables in RAM as the ones before it left them |
| TablesInRam.CommitIsEachWriteInRam | hlapi/winprocess.cpp:87-102 | the same for a commit whose writes spare the tables they need |
| Batch.ReadMulIsCalls | mem.c:142-158 | on frozen tables VMemReadMul leaves local memory as one VMemRead per request does, through any cache and in any other run of the guest, and returns what they return in all |
| Batch.WriteMulIsCalls | mem.c:160-176 | on frozen tables VMemWriteMul leaves guest RAM as one VMemWrite per request in order does, through any cache and in any other run of the guest, and returns what they return in all |
| BatchCalls.ReadMulIsCallsHere | mem.c:142-158 | whatever the tables, from the same cache and tick: if every transfer is in range, VMemReadMul is its calls in result, local memory and cache |
| BatchCalls.WriteMulIsCallsHere | mem.c:160-176 | the same for VMemWriteMul and guest RAM |
| BatchCalls.PerformedExactly | intmem.c:46-55 | the transfers a batch makes are a prefix of those its requests make as calls, and all of them iff no refused request is followed by one whose first transfer is accepted |
| BatchCalls.ReadTransfersExactly | mem.c:142-158 | VMemReadMul and the calls leave the same cache, and make the same transfers iff that condition holds |
| BatchCalls.WriteTransfersExactly | mem.c:160-176 | the same for VMemWriteMul |
| BatchCalls.LostWrite | intmem.c:49-50 | a concrete batch whose second write is lost because the first is refused |
| BatchBytes.ReadMulExactly | mem.c:142-158 | VMemReadMul gives each local byte the guest byte at the walk of the last request that covers it with a mapped byte, keeps all others, and returns the mapped bytes, if and only if every request is readable |
| BatchBytes.WriteMulExactly | mem.c:160-176 | VMemWriteMul gives each guest byte the last byte of the last request that goes to it, keeps all others, and returns the mapped bytes, under exactly that condition |
| WriteList.PushTiles | hlapi/hlapi.h:160-164 | appending a value keeps the slices tiling the buffer in order, each holding its value's bytes |
| WriteList.Queue.constructor | hlapi/winprocess.cpp:74-78 | an empty queue |
| WriteList.Queue.Write | hlapi/hlapi.h:160-164 | appends one request and its bytes and keeps all slices |
| WriteList.Queue.Rebase | hlapi/winprocess.cpp:95-96 | adds the buffer's address to every slice, once |
| WriteList.Queue.Commit | hlapi/winprocess.cpp:87-102 | guest RAM as the batch leaves it, and an empty queue |
| WriteList.CallsWriteValues | mem.c:97-116 | one VMemWrite per value, each through the cache the one before it left, writes the values where their walks lead |
| WriteList.CommitIsEachWrite | hlapi/winprocess.cpp:87-102 | on frozen tables and with first pages mapped, a commit leaves guest RAM exactly as one VMemWrite per queued value in order would, through any cache and in any other run of the guest, overlaps and aliased frames included |
| CommitExact.CommitExactly | hlapi/winprocess.cpp:87-102 | whatever the tables and the cache, a commit leaves RAM as its writes one by one do, for all values of given lengths and all contents of RAM, if and only if after a refused transfer no nonempty value has its first transfer accepted |
| CommitExact.KeepsAll | intmem.c:44-56 | under that condition stopping at the first refused transfer and going on with the next value leave the same RAM |
| CommitExact.LosesSome | intmem.c:49-50 | otherwise values and contents of RAM for which they do not |
| CommitExact.CommitLoses | hlapi/winprocess.cpp:98 | and a stored queue whose commit loses a value |
| IovBatch.MemReadMul | vmmem.c:44-71 | the calls made are the batches in order up to the first failure, and the last call's result is returned, for any number of entries, every index in bounds |
| IovBatch.MemWriteMul | vmmem.c:84-111 | one call with all entries, for at most 1024 of them |
| IovBatch.BatchesPartition | vmmem.c:53-68 | the batches concatenate to the entries, none empty or above the limit, all but the last full |
| IovBatch.IssuedIsPrefix | vmmem.c:59-64 | the calls are a prefix of the batches that ends only at the end or at the first failure |
| IovBatch.ReturnIsTotalExactly | vmmem.c:60-70 | when all calls succeed the returned value is the total iff there is at most one batch |
| IovBatch.WriteIndicesFit | vmmem.c:93-104 | the write loop stays inside its arrays iff there are at most 1024 entries |
| External.ReadsMoveBytes | vmmem.c:44-71 | if every call moves its segments, MemReadMul makes all calls, leaves local memory as the mapped build would with one more byte of RAM, and returns the bytes of its last call |
| External.WritesMoveBytes | vmmem.c:84-111 | for at most 1024 transfers MemWriteMul makes one call that leaves RAM as the mapped build would |
| External.ExternalRead | mem.c:142-158 | virtual reads in the external build give every local byte the guest byte at the walk of the last request that covers it, the last byte of RAM included |
| External.ExternalWrite | mem.c:160-176 | virtual writes of at most 1024 transfers give every guest byte the last byte that goes to it |
| ExportTable.TableSoundExactly | wintools.c:231-245 | a nonempty table at or above a given address that passes the wrapping check lies behind the start of the copy iff the directory ends below 2^32 plus that address plus one entry |
| ExportTable.NamesInsideExactly | wintools.c:211-245 | whatever its bytes, a copy that passes the checks has its names table inside iff the directory ends below 2^32 + 5 |
| ExportTable.WrappedYieldsNothing | wintools.c:252-254 | a directory that ends at 2^32 or later yields no export, and none of its ordinals, functions or strings is looked at |
| ExportTable.FitsMeansInside | wintools.c:231-245 | a table that passes lies inside the copy as a whole |
| ExportTable.ParseExportTable | wintools.c:211-265 | the error code of every case, and on success a list with one export for every entry the raw bytes qualify, in order, each with the name at its address and the module base plus the function's address |
| ExportTable.CollectExports | wintools.c:250-258 | the loop leaves the accepted entries in order in an array of one slot per name |
| ExportTable.ErrorIsCode | wintools.c:224-245 | the checks in terms of the words of the directory |
| ExportTable.AcceptedIsTaken | wintools.c:253 | an entry is accepted iff the 32-bit word of its name is in the wrapped range and its 16-bit ordinal at most the number of names |
| ExportTable.EntryAddress | wintools.c:256 | its address is the module base plus the word of the functions table at its ordinal, modulo 2^64 |
| ExportTable.EntryName | wintools.c:255 | its name is what stands at the word of the names table up to the first zero |
| ExportTable.ExportsAreListed | wintools.c:250-258 | the parsed list is the list the raw bytes mean |
| ExportTable.CountsKeepInside | wintools.c:253-256 | with fewer names than functions, or more than 0xffff functions, every accepted ordinal is read inside the copy |
| ExportTable.SlotInsideExactly | wintools.c:256 | with the functions table at the end of the copy an accepted slot is inside iff its ordinal is below the number of functions |
| ExportTable.OrdinalPastCopy | wintools.c:253-256 | for every other pair of counts a copy that passes all checks and whose first entry is accepted and read past its end |
| ExportTable.SlotsInsideExactly | wintools.c:253-256 | copies with given counts have every accepted slot inside iff there are fewer names than functions or more than 0xffff functions |
| ExportTable.ExportAt | wintools.c:252-258 | an entry is in the output iff accepted, at the position given by the accepted entries before it |
| ExportTable.FindProcAddress | wintools.c:316-322 | the loop finds what the recursive search finds |
| ExportTable.FindFirst | wintools.c:318-320 | the address returned is that of the first entry with the name |
| ExportTable.FindNone | wintools.c:321 | 0 if no entry has the name |
| ExportTable.ParsedLookup | wintools.c:211-322 | looking a name up gives the module base plus the function address of the first qualifying entry with that name, and 0 if there is none |
| GuestLists.FillAnyModuleList64 | wintools.c:768-790 | the nodes visited follow the links from the head up to the first that leads back to it or to itself, and the module of every node that has one is appended in order, always inside the doubled capacity |
| GuestLists.VisitedIsWalk | wintools.c:776-789 | that order of visit |
| GuestLists.DecodedIsList | wintools.c:786-787 | that list of modules |
| GuestLists.RingIsVisitedOnce | wintools.c:768-790 | on any circular list of distinct nodes the walk stops and has visited every node exactly once in link order |
| GuestLists.LassoStopsExactly | wintools.c:768-790 | on a list with a tail before its cycle the walk stops iff the tail is empty or the cycle one node, and has then visited every node once |
| GuestLists.GenerateProcessList | wintools.c:324-381 | wherever the links lead: every place before the end whose pid is below 2^31 and whose stack count is not 0 is in the array, in order, and nothing else, each with its virtual and physical address and the table base and pid read there; each place is the link of the one before less the offset, and its translation; always inside the doubled capacity |
| GuestLists.ListedIsList | wintools.c:341-361 | that list of processes |
| GuestLists.ReasonsExactly | wintools.c:335-377 | the walk stops at the first place where there are more than 1000 processes, one with pid 0, no next place, or the first place again with something found |
| GuestLists.RingIsListed | wintools.c:324-381 | on a circular list with some listed process the walk ends, with the listed processes in order, cut after the first pid 0 or at 1001 entries |
| GuestLists.RingEndsExactly | wintools.c:335 | on a circular list the walk ends iff some process of it is listed |
| GuestLists.CutIsUnique | wintools.c:358-360 | that cut is determined by the list |
| Arrays.Grow | wintools.c:363-369 | a larger array with the same contents |

## Left out

- TlbSlices.VerifyFrame: leaves the translations in the slice to `Reverify.VerifySwaps`.
- TlbRuns.RunInv: runs do not contain `VerifyTlb`, after which the translations need not be walks of their tags; a flush restores the invariant (`Reverify.FlushAfterVerify`).
- Reverify.SliceIsReverified: the bound is relative to the cache's last clock reading, because `VerifyTlb` does not read the clock before it walks.
- VMem.VMemRead: requests of more than 2^31 - 2 pages, for which the array is too small, and RAM smaller than one page of a request, where the bounds test may let a transfer past its end.
- PhysMem.MemRead: transfers longer than RAM that the bounds test lets through; those it refuses are modelled.
- VMem.VMemReadMul: lists that need 2^31 slots or more, and lists with an empty entry at a page start unless the fixed array of 1024 suffices; there the array is too small.
- WriteList.Queue.Commit: the same lists; its result is ignored, as in the source.
- External.ExternalWrite: more than 1024 transfers, as in `IovBatch.MemWriteMul`.
- BatchBytes.ReadMulExactly: lists with an empty request; for a single one see `VMemBytes.EmptyReadExactly`.
- IovBatch.MemWriteMul: more than 1024 entries, where the loop writes outside its arrays.
- ExportTable.ParseExportTable: copies that pass the checks although the names table starts before the copy or an accepted slot lies past it; these accesses are outside the copy.
- GuestLists.FillAnyModuleList64: lists on which the walk never stops.
- GuestLists.GenerateProcessList: lists on which the walk never ends.
- `VMemReadU64`, and `VMemWriteU64`/`MemWriteU64`, which call `MemRead` and so write nothing.
- A failing read of a table page: table pages are taken to be readable, as the code assumes.
- The outcomes of `process_vm_readv` and `process_vm_writev`, the clock, and the bytes read from list nodes are parameters; `malloc` and `realloc` always succeed.
- Other threads, and local memory that overlaps guest RAM.
- The hit and miss counters are unbounded.
- Module and process names, the 32-bit module list, and `GetBaseModule`.
- The destructor of `WriteList`, which frees offsets as if they were pointers.
- `kmem.c`, `pmparser.c`, process discovery, `CheckLow`, `FindNTKernel`, `GetNTVersion`, `GetNTBuild` and `SetupOffsets`: file and kernel access, or constant tables.
- The other iterators of `hlapi`, the examples and the benchmark.
