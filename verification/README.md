# Verified models of the SoC libraries and applications

This project models, in Dafny, the stateful and pointer-heavy parts of a small SoC's firmware and
libraries, and proves what they keep and what they compute. `dafny verify dfyconfig.toml` checks
everything. Where the C code changes things in place, so does the model: classes whose methods update
fields, arrays and a memory of words, each proved against functions of sequences and values, about which
the main theorems are then stated.

* **Arena allocator** (`Lib/malloc.c`). `BlockSpec` says what `malloc`, `free` and `malloc_add` do to the
  blocks in address order and to the order of the free chain; `BlockProofs` and `BlockTheorems` prove what
  every step and every run keeps, that bytes are conserved, that an allocation is disjoint from all others,
  and that `free` undoes `malloc`. `Memory`, `Chains` and `Cells` are about doubly linked chains of words in
  memory, `ArenaRep` about both chains being threaded through the block headers, and `Arena` is the
  allocator itself, writing those words. `ArenaTorn` is about the requests that wrap, and `BlockAlign` about
  alignment. Memory is addressed by
  words; `size_t` is 32 bits and wraps.
* **Directory browser** (`Lib/fat.c`). `DirSpec` has the eight best of a set of entries and the window as a
  slice of the sorted directory; `DirTable` the table of entries with its index permutation, sorted by one
  bubble pass; `DirBrowser` the scan modes, each rescanning the unsorted directory, and what any sequence of
  them does.
* **Cluster-chain cursor** (`lib832soc/minfat.c`). `FatVolume` says what a file is, by walking its chain on
  the volume; `FatFile` has the shared sector buffer, the bookmarks, seeking and reading, proved to deliver
  just those bytes. `FatLayout` is an encoder of FATs and files, which reading undoes.
* **Memory pool** (`lib832soc/memorypool.c`). `FragSpec` is about merging fragments that touch; `MemoryPool`
  is the root pool, its fragment list kept in the free memory itself; `PageFit` is the placement arithmetic.
* **PS/2 ports** (`lib832soc/ps2.c`, `lib832soc/hw_ringbuffer.c`). `PortTrace` is the order of events on the
  keyboard line, `PortRing` the ring buffer, `Ps2Port` the interrupt handler and the calls that interleave
  with it. Every call of the handler is given the two register readings it sees.
* **S-record loader** (`SoC/Firmware/main.c`). `SRecordSpec` is the byte-driven machine, `SRecordProofs` what
  it makes of records, `SRecordLoader` an encoder, the round trip, and the loader with its memory.
* **uBasic expressions** (`Apps/UBasic`). `UbasicTokens` and `UbasicTokenizer` are the tokenizer, `UbasicText` texts
  written token by token, which it reads back, `UbasicTree` how expressions are written and what they are worth, `UbasicEval` the recursive-descent
  evaluator.
* **ProTracker sequencer** (`Apps/Modplayer/ptreplay.c`). `SongSpec` is the sequencer's state and one tick of
  it, `SongLayout` an encoder of modules, `SongPlay` what the effects come to, `SongRuns` how often and for how
  long rows are played over a run of ticks, `SongPlayer` the player with its mutable state.
* **SAM's interpolator** (`Apps/SAM/createtransitions.c`). `Interpolation`, against the line it should draw; `Divisors`
  has the greatest common divisor, which says how big its error can get.

`Words` holds 32-bit words, chars and division toward zero, and `Bits` what bitwise operations do to each bit.

## Where the code falls short

Each of these is a theorem, with the exact condition under which the code is right.

* `malloc` serves a request rightly if and only if it is at most 2^32 - 32 bytes; above that the size wraps
  (`BlockTheorems.MallocServesIff`). Splitting a block for what is left of such a size tears the headers
  apart: `BlockTheorems.TornExactly` says when that happens, and `ArenaTorn.MallocOverflows` that after a size of
  0 memory stands for no arena at all.
* `FileRead` leaves the cursor fit for another read if and only if it did not take exactly the rest of a
  sector it started inside; if it did, reads from then on deliver bytes from one sector earlier
  (`FatFile.FileHandle.FileRead`, and an instance, `FatFile.ReadsAgain`). For all 32-bit sizes and cursors its length
  is right with just three exceptions (`FatFile.ClampIsRight`; `FatFile.ClampGoesWrong` has one of each): a
  negative count that goes back beyond the start, when less than 2 GB of the file are left; a count that goes on
  past 4 GB, unless it comes out past the end again; and a count from more than 2 GB past the end that does not lead
  back into the file, since what is left looks positive there.
* `SCAN_NEXT` moves on by one exactly when the window has not been left short by `SCAN_INIT_FIRST`
  (`DirBrowser.NextMoves`; `DirBrowser.NextStays` is a screen where it does not); `DirBrowser.NextThenPrev` says
  when `SCAN_PREV` takes that back, and `DirBrowser.NextThenPrevSlips` is a case where it goes too far.
* As long as the unused indices name the unused slots (`Tidy()`), `SCAN_INIT_NEXT` leaves a slice of the directory
  on the screen if and only if there was one entry on it; if there were more, the second one is doubled
  (`DirBrowser.Browser.InitNext`). `SCAN_INIT` and `SCAN_INIT_FIRST` make it so, and all modes keep it but those that
  scroll a short screen (`DirBrowser.Browser.ScanDirectory`). After those, stale slots are sorted in, and it can even
  happen that a slice comes out (`DirBrowser.StaleEntry`).
* `checkmask` answers rightly if and only if the request is no bigger than a page or there is no room from
  the first boundary on (`PageFit.CheckMaskExactly`; `PageFit.CheckMaskCrosses` is a request that crosses one).
* `hw_ringbuffer_count` is 16 short exactly when an interrupt moves `in_hw` past the end of the buffer
  between the two places where it is read (`PortRing.CountedRight`; `PortRing.CountedShort` is a case).
* `SREC_MAX_ADDR` is the greatest end address exactly when no record reaches the 2 GB line
  (`SRecordProofs.HighestExactly`; `SRecordProofs.HighestWraps` is a record that does).
* `interpolate` draws every line of a slope d over a width w exactly if and only if w + r - gcd(r, w) is below 256,
  where r is |d| mod w (`Interpolation.RightExactly`, for all widths but 0): above that its error byte overflows and
  a carry is missed, as in `Interpolation.WideLineLost`, of width 200. Up to width 129, which is as wide as a
  transition gets, that only happens to a slope of -128 over 129 frames (`Interpolation.TransitionsRight`). A
  transition is straight exactly when its ends differ by what a char can hold; over 129 frames a difference of -128
  does not do, but one of 128 from 0 does (`Interpolation.StraightExactly`).
* A letter is a uBasic variable if and only if no keyword starts with it, even as part of a longer word
  (`UbasicTokens.LexVariable`; `UbasicTokens.LexNotVariable` is one that is none), and a number is read as
  what it spells if and only if that is a char (`UbasicEval.LiteralKept`; `UbasicEval.LiteralsWrap` is 200).

The comment in `CreateTransitions` about which phoneme's blend lengths are used differs from its code; the
model follows the code, where it only takes the two lengths as given.

## Model

| member | source | states |
|---|---|---|
| `BlockTheorems.StepKeeps` | Lib/malloc.c:54-228 | every legal malloc_add, malloc (up to 2^32 - 32 bytes) or free keeps the invariant: blocks disjoint and ascending, the free chain naming exactly the free blocks, no two touching blocks both free |
| `BlockTheorems.RunKeeps` | Lib/malloc.c:54-228 | over every run from the empty pool the invariant holds, block sizes sum to the seeded total, and the blocks cover exactly the seeded memory |
| `BlockTheorems.StepConserves` | Lib/malloc.c:92-185 | malloc and free leave the bytes of all blocks the same; malloc_add adds size - size mod 512 |
| `BlockTheorems.StepCovers` | Lib/malloc.c:92-185 | malloc and free leave the set of covered addresses the same; malloc_add adds those from the arena's address on, as many |
| `BlockTheorems.AddGrows` | Lib/malloc.c:153-185 | what malloc_add adds is a multiple of 512, at most the arena's size and more than 512 less; and exactly those addresses become covered |
| `BlockTheorems.FirstArena` | Lib/malloc.c:158-158 | an arena of 64K becomes one free block of 64K, one of 1000 bytes a block of 512 |
| `BlockAlign.RunAligned` | Lib/malloc.c:54-228 | over every run, if arenas start on multiples of 16, so do all blocks and all pointers that malloc returns, and all sizes are multiples of 16 |
| `BlockTheorems.DrainedIsWhole` | Lib/malloc.c:92-150 | in a run after which nothing is in use, every block is a whole maximal stretch of seeded memory |
| `BlockTheorems.DrainedSums` | Lib/malloc.c:262-274 | and then the free chain adds up to all that was ever seeded |
| `BlockTheorems.ChainSums` | Lib/malloc.c:262-274 | walking the free chain adds up exactly the bytes of the free blocks |
| `BlockTheorems.NeedBounds` | Lib/malloc.c:199-200 | up to 2^32 - 32 bytes a request grows by 16 to 31 bytes, to a multiple of 16 and at least 32; a bigger one wraps to 0 or 16 |
| `BlockTheorems.MallocChooses` | Lib/malloc.c:196-208 | malloc fails exactly for 0 or when no free block is big enough; otherwise it takes the first such block of the free chain |
| `BlockTheorems.MallocGrants` | Lib/malloc.c:54-90 | a grant adds one live block, cut from the front of one free block, of at least the request and its header and fewer than 64 bytes more than the request, and leaves every other live block as it was |
| `BlockTheorems.MallocServesIff` | Lib/malloc.c:188-215 | requests are served with a block as big as asked for if and only if they are at most 2^32 - 32 bytes |
| `BlockTheorems.TornExactly` | Lib/malloc.c:199-206 | a split tears headers apart exactly for requests above 2^32 - 32 that wrap to 0 with any block free, or to one header with three in the first free block |
| `BlockTheorems.TornOnce` | Lib/malloc.c:199-206 | 2^32 - 31 bytes is such a request |
| `ArenaTorn.MallocOverflows` | Lib/malloc.c:62-83 | a request that wraps to 0 leaves one header, in use and of size 0, that is its own next and previous block and still first on the free chain, and no arena that memory could stand for |
| `ArenaTorn.LinksOverwritten` | Lib/malloc.c:77-83 | a request that wraps to one header reads its type and size back as links, and writes where they point |
| `BlockTheorems.FreeReclaims` | Lib/malloc.c:217-228 | free takes exactly its own block off the live ones |
| `BlockTheorems.FreeUndoesMalloc` | Lib/malloc.c:188-228 | freeing a fresh allocation restores every block, and the set of free ones, with the block now first on the free chain |
| `BlockProofs.CarveKeeps` | Lib/malloc.c:54-90 | splitting or using a free block keeps the pool in order; a split remainder has at least 32 bytes |
| `BlockProofs.ReleaseKeeps` | Lib/malloc.c:92-150 | merging on both sides restores the order of the pool and leaves nothing to merge |
| `BlockProofs.InsertKeeps` | Lib/malloc.c:153-185 | a fresh arena put in its place and merged keeps the pool in order |
| `BlockSpec.Choose` | Lib/malloc.c:201-208 | the chosen node is on the free chain, and its block is big enough |
| `BlockSpec.FitIsFirst` | Lib/malloc.c:201-208 | no node before the chosen one would have done |
| `BlockSpec.PlaceIsSorted` | Lib/malloc.c:170-174 | the place found for an arena keeps addresses ascending |
| `Chains.LinkedInsert` | Lib/malloc.c:73-82 | four writes put a node between two neighbours of a circular doubly linked chain |
| `Chains.LinkedRemove` | Lib/malloc.c:30-46 | two writes take a node out |
| `Chains.LinkedReplace` | Lib/malloc.c:79-83 | four writes put one node in the place of another |
| `Cells.Link` | Lib/malloc.c:176-181 | linking a header into one chain disturbs no word of the other |
| `Cells.Unlink` | Lib/malloc.c:30-46 | and neither does unlinking one |
| `ArenaRep.RepPush` | Lib/malloc.c:121-134 | the writes that put a block at the front of the free chain leave both chains and all labels in step with the blocks |
| `ArenaRep.RepJoin` | Lib/malloc.c:111-117 | so do those by which a block grows over its neighbour and that header leaves the main chain |
| `ArenaRep.RepJoinFree` | Lib/malloc.c:139-146 | and those by which it grows over a free neighbour, which leaves both chains |
| `ArenaRep.SplitDone` | Lib/malloc.c:62-83 | the twelve writes of a split leave memory in step with the split blocks |
| `ArenaRep.RepWhole` | Lib/malloc.c:84-87 | and those of using a block whole |
| `ArenaRep.RepInsert` | Lib/malloc.c:157-181 | and those that link in a fresh arena |
| `ArenaRep.BackTest` | Lib/malloc.c:111-112 | the test on the previous header's words says whether that block is free and touches |
| `ArenaRep.OnTest` | Lib/malloc.c:139-140 | and so does the test on the next one's |
| `ArenaRep.PayloadWrite` | Lib/malloc.h:23-51 | writing any word of a live payload leaves both chains and all labels standing |
| `Arena.Allocator.constructor` | Lib/malloc.c:15-28 | both chains start empty, at the head node |
| `Arena.Allocator.RemoveFromMainChain` | Lib/malloc.c:30-37 | its two writes take the header out of the main chain |
| `Arena.Allocator.RemoveFromFreeChain` | Lib/malloc.c:39-46 | and these out of the free chain |
| `Arena.Allocator.MallocFromBlock` | Lib/malloc.c:54-90 | memory represents the pool with the chosen block split or used; if less than two headers are split off, it is as the twelve writes leave it |
| `Arena.Allocator.CoalesceBack` | Lib/malloc.c:111-120 | the previous block grows over this one |
| `Arena.Allocator.PushFree` | Lib/malloc.c:121-135 | the block becomes free at the front of the free chain |
| `Arena.Allocator.CoalesceOn` | Lib/malloc.c:139-146 | the block grows over the next, which leaves both chains |
| `Arena.Allocator.FreeBlock` | Lib/malloc.c:92-150 | memory represents the pool with the block released, and the address of the block that now holds it is returned |
| `Arena.Allocator.FindPlace` | Lib/malloc.c:170-174 | the search backwards ends at the arena's predecessor in address order |
| `Arena.Allocator.MallocAdd` | Lib/malloc.c:153-185 | memory represents the pool with the arena added |
| `Arena.Allocator.FirstFit` | Lib/malloc.c:201-208 | the walk along the free chain finds the first block that is big enough |
| `Arena.Allocator.MallocRequest` | Lib/malloc.c:188-215 | for any size_t, the answer is that of the specification, and so is the pool unless the size wrapped and a block was split; then memory is as the twelve writes leave it |
| `Arena.Allocator.FreePointer` | Lib/malloc.c:217-228 | freeing a live block, or NULL, gives the pool of the specification |
| `Arena.Allocator.Store` | Lib/malloc.h:23-51 | an owner's write to its payload changes nothing the allocator relies on |
| `Arena.Allocator.AvailMem` | Lib/malloc.c:262-274 | the bytes of all free blocks, as a 32-bit int |
| `Arena.Int32Adds` | Lib/malloc.c:264-273 | adding up in 32 bits is adding up and then taking 32 bits |
| `DirSpec.OfferKeepsBest` | Lib/fat.c:670-702 | offering one more entry keeps the table the eight best of all offered, sorted |
| `DirSpec.BestIsUnique` | Lib/fat.c:668-703 | a set of entries has only one such table |
| `DirSpec.SameBest` | Lib/fat.c:668-703 | so the table does not depend on the order on disk |
| `DirSpec.AboveBest` | Lib/fat.c:837-876 | the best eight above an entry are the slice of the sorted directory after it |
| `DirSpec.BelowBest` | Lib/fat.c:877-915 | the best eight below it, downwards, are the slice before it, reversed |
| `DirSpec.FirstBest` | Lib/fat.c:668-703 | the best eight from a rank on are the slice that starts there |
| `DirSpec.Successor` | Lib/fat.c:762-796 | the least entry above the last one shown is the next in the sorted directory |
| `DirSpec.Predecessor` | Lib/fat.c:797-836 | the greatest below the first one shown is the one before |
| `DirSpec.Find` | Lib/fat.c:704-722 | -1, or a place in the sorted directory; which one, the next row says |
| `DirSpec.FindIsLast` | Lib/fat.c:704-722 | it is the last one listed with the wanted first cluster, and there is none exactly when no listed entry has it |
| `DirSpec.FollowedBest` | Lib/fat.c:723-761 | offering what comes after a single entry keeps the best eight from it on |
| `DirSpec.FollowedDoubled` | Lib/fat.c:723-761 | on a screen of more entries the second one is shown twice once it has been offered |
| `DirSpec.InsertRises` | Lib/fat.c:692-702 | the bubble pass keeps a table in order even with equal entries in it |
| `DirTable.Table.Reset` | Lib/fat.c:533-534 | sort_table becomes the identity |
| `DirTable.Table.Bubble` | Lib/fat.c:692-702 | one pass from the end sinks the last entry to its place, keeping sort_table a permutation |
| `DirTable.SunkKeeps` | Lib/fat.c:692-702 | the pass from the end keeps sort_table a permutation, from whatever slots it starts |
| `DirTable.SunkSorts` | Lib/fat.c:692-702 | and sinks the last entry to its place among the sorted ones before it |
| `DirTable.Table.Put` | Lib/fat.c:670-702 | from any slots a new entry goes into the next one, or over the last in order if it belongs before that; on a sorted table whose unused indices name the unused slots, the outcome is sorted |
| `DirTable.Table.ScrollNext` | Lib/fat.c:775-780 | the indices rotate by one: the first becomes the last |
| `DirTable.Table.ScrollPrev` | Lib/fat.c:815-820 | and the other way |
| `DirTable.Table.PageNext` | Lib/fat.c:985-991 | the swaps bring the entries that stay to the front, in order |
| `DirTable.Table.PagePrev` | Lib/fat.c:1001-1007 | or to the back |
| `DirBrowser.Browser.Gather` | Lib/fat.c:668-703 | one accepted entry keeps the screen the best of what has been seen |
| `DirBrowser.Browser.Init` | Lib/fat.c:529-535 | SCAN_INIT shows the first eight of the sorted directory |
| `DirBrowser.Browser.InitFirst` | Lib/fat.c:704-722 | SCAN_INIT_FIRST shows just the entry with the given first cluster, if there is one |
| `DirBrowser.Browser.InitNext` | Lib/fat.c:723-761 | whatever its unused indices name, SCAN_INIT_NEXT takes the table's slots to those that offering every entry after the first one shown makes of them; that fills a screen of one entry with what follows it, and leaves no slice of a tidy screen with more |
| `DirBrowser.Browser.Next` | Lib/fat.c:541-550 | SCAN_NEXT moves within the screen, or scrolls by one |
| `DirBrowser.Browser.NextSlot` | Lib/fat.c:762-796 | one accepted entry keeps the last slot the least of those above the old last entry |
| `DirBrowser.Browser.Prev` | Lib/fat.c:551-558 | SCAN_PREV moves within the screen, or scrolls back by one |
| `DirBrowser.Browser.PrevSlot` | Lib/fat.c:797-836 | one accepted entry keeps the first slot the greatest of those below the old first entry |
| `DirBrowser.Browser.Collect` | Lib/fat.c:837-915 | the temporary table ends as the best eight beyond the screen |
| `DirBrowser.Browser.NextPage` | Lib/fat.c:983-998 | SCAN_NEXT_PAGE goes to the last entry shown, or down by up to eight |
| `DirBrowser.Browser.PrevPage` | Lib/fat.c:999-1017 | SCAN_PREV_PAGE goes to the first entry shown, or up by up to eight |
| `DirBrowser.Browser.ScanDirectory` | Lib/fat.c:529-1017 | whatever the mode, the screen shows the slice, the length and the selection of the specification; but no slice at all after SCAN_INIT_NEXT on a tidy screen of more than one entry. The browser stays valid in every mode, so that SCAN_INIT can follow; SCAN_INIT and a successful SCAN_INIT_FIRST tidy the table, and only scrolling a short screen untidies it |
| `DirBrowser.StaleEntry` | Lib/fat.c:529-836 | three files listed in the order 2, 1, 3: SCAN_INIT, SCAN_INIT_FIRST for the third, SCAN_PREV and SCAN_INIT_NEXT on two entries leave the slice of all three, by way of a stale slot |
| `DirBrowser.RunInBounds` | Lib/fat.c:529-1017 | over any sequence of modes, SCAN_INIT_NEXT coming on at most one entry, the screen is a slice [k, k + len) of the sorted directory with a selected entry in it, and stays as full as it can be unless SCAN_INIT_FIRST intervenes |
| `DirBrowser.NextMoves` | Lib/fat.c:541-550 | SCAN_NEXT moves the selected rank by exactly one, or not at all at the end, if and only if the screen is full or the selection is not on its last entry |
| `DirBrowser.NextStays` | Lib/fat.c:541-550 | it does not with the first of two entries shown alone |
| `DirBrowser.PrevMoves` | Lib/fat.c:551-558 | SCAN_PREV moves the selected rank back by exactly one, or not at all at the start |
| `DirBrowser.NextThenPrev` | Lib/fat.c:541-558 | SCAN_NEXT then SCAN_PREV selects the same entry again if and only if there is a next entry on the screen or a full screen can scroll to it, or there is nowhere to go back to |
| `DirBrowser.NextThenPrevSlips` | Lib/fat.c:541-558 | with the second of two entries shown alone that ends on the first |
| `DirBrowser.MovesWithin` | Lib/fat.c:541-575 | within the screen the window stays; SCAN_NEXT and SCAN_PREV move by one, the page modes go to the last entry shown and to the first |
| `DirBrowser.ScrollsDown` | Lib/fat.c:541-998 | from the last entry shown a full screen moves on by one, or by a page of eight or what is left, and a short one does not |
| `DirBrowser.ScrollsUp` | Lib/fat.c:551-1017 | from the first entry shown the window goes back by one, or by eight or as many as there are, and a short one grows by as many until it is full |
| `DirBrowser.PagesBack` | Lib/fat.c:559-1017 | a page down and two up come back to the same window if and only if there was a whole page to go down by, or it is the first window |
| `DirBrowser.WalksDown` | Lib/fat.c:541-550 | from a full screen n times SCAN_NEXT selects the entry n ranks on, so that from SCAN_INIT every entry is reached |
| `DirBrowser.WalksUp` | Lib/fat.c:551-558 | n times SCAN_PREV selects the entry n ranks back |
| `DirBrowser.Starts` | Lib/fat.c:529-761 | SCAN_INIT starts at rank 0 with eight entries or all; SCAN_INIT_FIRST shows and selects just the last entry listed with the cluster, or changes nothing if there is none; SCAN_INIT_NEXT on one entry keeps it first and fills the screen |
| `DirBrowser.ShownFirst` | Lib/fat.c:668-703 | a listed entry is among the first eight if and only if fewer than eight listed entries come before it |
| `DirSpec.AcceptsMeans` | Lib/fat.c:619-666 | by the bits of the attributes, which slots count: those in use, neither hidden nor a volume label nor part of a long name nor ".", with the extension wanted, or directories |
| `DirSpec.SameMeans` | Lib/fat.c:666-666 | extensions are the same up to the end of the string |
| `DirSpec.Disk.ListedAre` | Lib/fat.c:595-666 | the entries listed are just those of the slots that count |
| `DirBrowser.SortedLists` | Lib/fat.c:664-666 | every directory without equal entries has a sorted listing |
| `FatVolume.Volume.ContentSplits` | lib832soc/minfat.c:504-524 | a stretch of the file is the stretch up to a point followed by the rest |
| `FatVolume.Volume.SameSector` | lib832soc/minfat.c:490-500 | bytes that lie in one sector of the file are that part of the sector |
| `FatFile.Drive.ReadSector` | lib832soc/minfat.c:338-341 | the stretch of the buffer gets the sector, and nothing else in it changes |
| `FatFile.Drive.Load` | lib832soc/minfat.c:337-341 | a sector read into the shared buffer, or one outside the FAT into another, leaves the cache label true |
| `FatVolume.Volume.SectorClear` | lib832soc/minfat.c:334-337 | no sector of a file is in the FAT |
| `FatFile.Drive.GetCluster` | lib832soc/minfat.c:224-249 | the link on the volume, for FAT16 and FAT32, whatever the shared buffer held before |
| `FatLayout.LinkIsEntry` | lib832soc/minfat.c:224-249 | on a volume whose FAT an encoder has laid out, two or four bytes an entry, the link of every cluster is its entry, modulo 2^28 for FAT32 |
| `FatLayout.StoredChain` | lib832soc/minfat.c:224-249 | clusters whose links have been made are a chain |
| `FatLayout.ReadsBack` | lib832soc/minfat.c:330-342 | the content of a file whose bytes were put into its clusters, number 2 being the first of the data area, is those bytes |
| `FatLayout.ReadStored` | lib832soc/minfat.c:285-526 | such a file opened, sought anywhere and read to its end delivers what was put there |
| `FatFile.ThresholdMeans` | lib832soc/minfat.c:306-306 | the threshold is the greatest number of sectors of which 8 times the number of bookmarks fit into the file |
| `FatFile.FileHandle.constructor` | lib832soc/minfat.c:292-307 | after opening, the cursor is at the start, every bookmark is at sector 0 and the first cluster, and the threshold is the size in sectors over eight times their number |
| `FatFile.FileHandle.FileNextSector` | lib832soc/minfat.c:316-327 | the sector moves by count, and the cluster is the one walking the chain reaches |
| `FatFile.FileHandle.FileReadSector` | lib832soc/minfat.c:330-342 | the buffer gets the file's current sector, and the cache stays coherent even when the buffer is a caller's |
| `FatFile.FileHandle.BestBookmark` | lib832soc/minfat.c:371-387 | the nearest bookmark at or before the sector, which there always is |
| `FatFile.FileHandle.WorstBookmark` | lib832soc/minfat.c:391-409 | the upper bookmark of the closest pair; always a valid index |
| `FatFile.FileHandle.WorstSparesZero` | lib832soc/minfat.c:400-401 | giving it up leaves a bookmark at sector 0 |
| `FatFile.FileHandle.MoveTo` | lib832soc/minfat.c:412-457 | the wanted sector becomes current, within the cluster without a link, or by way of the nearest bookmark with exactly the links from there |
| `FatFile.FileHandle.Jump` | lib832soc/minfat.c:426-440 | some bookmark always serves, and the one taken is the nearest at or before the goal |
| `FatFile.FileHandle.Remember` | lib832soc/minfat.c:444-454 | the old place is recorded, in the place of the worst bookmark, exactly when it is more than the threshold from the start and from every bookmark before it; all stay sound and one at the start |
| `FatFile.FileHandle.FileSeek` | lib832soc/minfat.c:412-460 | whatever came before, the sector, the cluster and the buffer are those of plain walking to pos; no link is followed within a cluster, and otherwise exactly those from the nearest bookmark at or before pos, which are never more than from the start; and leaving a cluster records a bookmark just when it should |
| `FatFile.FileHandle.ReadHead` | lib832soc/minfat.c:490-500 | the first piece is the rest of the buffered sector, or as much as was asked for |
| `FatFile.FileHandle.ReadWhole` | lib832soc/minfat.c:506-515 | whole sectors go straight to the caller, and the last is left in the shared buffer's place |
| `FatFile.FileHandle.ReadTail` | lib832soc/minfat.c:516-523 | the tail comes by way of the shared buffer |
| `FatFile.FileHandle.FileRead` | lib832soc/minfat.c:479-526 | for all 32-bit sizes and cursors: exactly the bytes of the file from the cursor on are delivered, the cursor moves by as many, nothing else in the buffer changes; another read can follow if and only if this one did not drain a partial sector, and every read that does sets the bytes of later ones back by 512 |
| `FatFile.ReadsAgain` | lib832soc/minfat.c:479-526 | after 256 bytes from byte 256 on, the next 256 are bytes 0 to 255 |
| `FatFile.FileHandle.ClampInFile` | lib832soc/minfat.c:485-489 | a rightly clamped read stays inside a chain that holds the file |
| `FatFile.ClampIsRight` | lib832soc/minfat.c:485-489 | for all 32-bit sizes and cursors the length is min(count, what is left), or nothing, with exactly three exceptions: a negative count beyond the cursor with less than 2 GB left, a count past 4 GB that comes out in the file again, and one from over 2 GB past the end that does not lead back |
| `FatFile.ClampGoesWrong` | lib832soc/minfat.c:485-489 | one of each |
| `FragSpec.SwallowCovers` | lib832soc/memorypool.c:131-142 | a merge keeps which bytes are covered, and with which flags |
| `FragSpec.SwallowGood` | lib832soc/memorypool.c:131-142 | a merge keeps fragments disjoint |
| `FragSpec.OneWay` | lib832soc/memorypool.c:131-137 | a fragment can be followed by only one other, and not both ways |
| `FragSpec.ScanForward` | lib832soc/memorypool.c:131-136 | a merge forwards keeps what the scan has established |
| `FragSpec.ScanAgain` | lib832soc/memorypool.c:137-143 | after a merge backwards at most one pair is left to merge |
| `FragSpec.ScanDone` | lib832soc/memorypool.c:121-151 | at the end of the scan no pair can be merged |
| `FragSpec.SwallowBanked` | lib832soc/memorypool.c:131-142 | fragments that touch are of one bank, since a record starts every bank |
| `MemoryPool.RootPool.constructor` | lib832soc/memorypool.c:546-554 | a pool with no fragment, no chunk and no bank is in order |
| `MemoryPool.RootPool.RemoveFragment` | lib832soc/memorypool.c:95-113 | the list loses exactly that fragment, whose own words stay |
| `MemoryPool.RootPool.Swallows` | lib832soc/memorypool.c:133-135 | one fragment grows by the other, which leaves the list |
| `MemoryPool.RootPool.MergeFragments` | lib832soc/memorypool.c:116-153 | it ends for every list, keeps what is covered, and when only the first fragment could be merged with any leaves nothing to merge |
| `MemoryPool.RootPool.AddFragment` | lib832soc/memorypool.c:80-92 | a stretch bigger than a header goes to the front of the list, and a smaller one is lost |
| `MemoryPool.RootPool.SeedMemory` | lib832soc/memorypool.c:556-567 | a bank less its record joins the pool, and all bytes stay accounted for |
| `MemoryPool.RootPool.AddFreeRecord` | lib832soc/memorypool.c:48-56 | the record at the start of a bank heads the list of records and disturbs no fragment or chunk |
| `MemoryPool.RootPool.HeaderFits` | lib832soc/memorypool.c:403-403 | the test on a header's words is the test on the fragment |
| `MemoryPool.RootPool.FindFragment` | lib832soc/memorypool.c:398-417 | the first fragment big enough and of a wanted kind, or none |
| `MemoryPool.MatchesBits` | lib832soc/memorypool.c:404-404 | the test on the flags says that the fragment and the request have the same bit wherever the mask has one |
| `MemoryPool.MasksAtTheEnds` | lib832soc/memorypool.c:404-404 | so mask 0 takes any fragment, and a mask of 32 bits only one of just these flags |
| `MemoryPool.RootPool.Cut` | lib832soc/memorypool.c:406-408 | the chunk is cut off the front and the rest kept if it is bigger than a header |
| `MemoryPool.RootPool.AddAllocTag` | lib832soc/memorypool.c:253-264 | the tag disturbs no fragment or other chunk |
| `MemoryPool.RootPool.Alloc` | lib832soc/memorypool.c:396-429 | 0 exactly when nothing fits; else a chunk from the first fragment that does, with that fragment's flags; fragments and chunks stay disjoint, in their banks and merged, with at most 12 bytes lost per allocation |
| `MemoryPool.RootPool.Free` | lib832soc/memorypool.c:432-443 | the chunk returns with its bank's flags, what is free covers exactly that much more, and nothing is left to merge |
| `MemoryPool.RootPool.Store` | lib832soc/memorypool.c:396-429 | an owner's write to a chunk past its tag changes nothing the pool relies on |
| `MemoryPool.AllocAccounts` | lib832soc/memorypool.c:396-429 | every byte of the banks stays free, handed out or lost, and what is left of the fragment can be merged with nothing |
| `MemoryPool.FreeAccounts` | lib832soc/memorypool.c:432-443 | after a release only the chunk itself can be merged with anything |
| `MemoryPool.SeedAccounts` | lib832soc/memorypool.c:556-567 | a new bank touches no fragment |
| `PageFit.CheckAlignRight` | lib832soc/memorypool.c:173-190 | the answer is the least aligned address with room, and 0 exactly when there is none |
| `PageFit.CheckMaskRight` | lib832soc/memorypool.c:207-250 | for a request of at most a page the answer is a place in the chunk that crosses no boundary, and 0 exactly when there is none |
| `PageFit.CheckMaskExactly` | lib832soc/memorypool.c:207-250 | for any request, it is right if and only if the request is at most a page or does not fit from the first boundary on |
| `PageFit.OnePageMeans` | lib832soc/memorypool.c:216-237 | two addresses have the same page exactly when no boundary comes after the first |
| `PageFit.CheckMaskPrefers` | lib832soc/memorypool.c:216-250 | the start of the chunk is taken if no boundary is in the way there, or else its end, and only then the first boundary |
| `PageFit.CheckMaskCrosses` | lib832soc/memorypool.c:207-250 | 10 bytes on pages of 4 are given a place, and fit nowhere |
| `PortTrace.WaitingMeans` | lib832soc/ps2.c:25-46 | the line waits exactly when some sent byte has had no answer since |
| `PortTrace.OrderlyMore` | lib832soc/ps2.c:46-57 | sending only when the line does not wait keeps an answer between any two sent bytes |
| `PortTrace.RegisterReads` | lib832soc/ps2.c:20-46 | bits 10 and 11 of the register, whatever the others are, and its low byte |
| `PortTrace.RaisedMore` | lib832soc/ps2.c:20-90 | a reply's flag has been raised if the reply has come while the line was waiting and its flag has not been taken away since: what each event does to that |
| `PortTrace.TellsMore` | lib832soc/ps2.c:22-43 | flags that tell what has happened on the line still do after a byte sent, a byte received or flags taken away |
| `PortTrace.MarkedKeeps` | lib832soc/ps2.c:116-119 | the queued word carries the char and the mark, for signed and unsigned chars |
| `PortRing.CountedRight` | lib832soc/hw_ringbuffer.c:62-67 | with interrupts between its two readings of in_hw the count is right if and only if in_hw does not pass the end of the buffer just then; otherwise it is 16 short |
| `PortRing.CountedShort` | lib832soc/hw_ringbuffer.c:62-67 | one byte in slot 14 and another coming in slot 15 between the readings count as -14 |
| `PortRing.Ring.constructor` | lib832soc/hw_ringbuffer.c:6-21 | an empty ring |
| `PortRing.Ring.Fill` | lib832soc/hw_ringbuffer.c:23-30 | the byte is stored in any case; an overrun is counted exactly when the ring was full |
| `PortRing.Ring.Take` | lib832soc/hw_ringbuffer.c:54-58 | until there is an overrun the next byte received, after one still one of the latest sixteen |
| `PortRing.Ring.Count` | lib832soc/hw_ringbuffer.c:62-67 | the number of bytes received and not read, until there is an overrun |
| `PortRing.Ring.Overruns` | lib832soc/hw_ringbuffer.c:69-74 | the count so far, which starts over |
| `PortRing.Ring.FullMeans` | lib832soc/hw_ringbuffer.c:36-39 | the index tests for full and empty mean fifteen words and none |
| `PortRing.Ring.Put` | lib832soc/hw_ringbuffer.c:40-41 | the word joins those still to go out, in order |
| `PortRing.Ring.Send` | lib832soc/ps2.c:50-54 | the oldest word not sent goes out |
| `Ps2Port.Ports.constructor` | lib832soc/ps2.c:129-136 | nothing has passed |
| `Ps2Port.Ports.KeyboardHandler` | lib832soc/ps2.c:17-57 | a byte that came is kept, and one goes out exactly when the line is free, the port ready and a byte queued; the line stays in order |
| `Ps2Port.Ports.TakeIn` | lib832soc/ps2.c:20-44 | a reply while waiting frees the line and sets its flag, 0xAA, 0xFA, 0xFC and 0xFE each its own, as the trace of the line says; every byte is kept |
| `Ps2Port.Ports.SendOne` | lib832soc/ps2.c:46-57 | the next byte goes out if it may, and the line then waits |
| `Ps2Port.Ports.MouseHandler` | lib832soc/ps2.c:59-70 | the same for the mouse, which waits for no answers |
| `Ps2Port.Ports.Handler` | lib832soc/ps2.c:12-71 | one reading of both registers, and nothing more, passes through the ports |
| `Ps2Port.Ports.Interrupts` | lib832soc/ps2.c:12-71 | a run of readings passes through, each once and in order |
| `Ps2Port.Ports.Write` | lib832soc/hw_ringbuffer.c:33-45 | the word is queued once there is room, the handler having been called with no reading after the first on which a full ring sends, and then with one more |
| `Ps2Port.Ports.KeyboardWriteChar` | lib832soc/ps2.c:116-119 | one marked char joins the written ones |
| `Ps2Port.Ports.MouseWriteChar` | lib832soc/ps2.c:122-125 | one char joins the mouse's |
| `Ps2Port.Ports.Read` | lib832soc/hw_ringbuffer.c:48-59 | -1 exactly when the ring looked empty; else, until there is an overrun, the next byte received, whatever interrupts came in between |
| `Ps2Port.Ports.TestFlags` | lib832soc/ps2.c:82-90 | of the flags asked for, exactly those are reported whose reply has come to a waiting line since they were last taken away; just those are taken away, whatever interrupts come in between, and a reply that comes meanwhile stays to be seen |
| `Ps2Port.Ports.Run` | lib832soc/ps2.c:12-125 | any calls in any order with any interrupts keep the order of the line and of both rings |
| `Ps2Port.Ports.Meaning` | lib832soc/ps2.c:12-57 | bytes go out in the order written with none lost, each answered before the next; until an overrun the bytes read are a prefix of those received; and which replies have come is what the flags say |
| `SRecordSpec.DecodeHex` | SoC/Firmware/main.c:41-50 | a hex digit of either case is shifted in as its value, within 32 bits |
| `SRecordSpec.DigitIsHex` | SoC/Firmware/main.c:43-46 | the arithmetic on the char gives the digit's value |
| `SRecordProofs.AddrPhase` | SoC/Firmware/main.c:82-86 | after i digits the address is the number they spell |
| `SRecordProofs.DataPhase` | SoC/Firmware/main.c:90-104 | after two digits a byte the bytes are stored one after another from the address on |
| `SRecordProofs.RestPhase` | SoC/Firmware/main.c:105-113 | checksum and line ending leave no trace |
| `SRecordProofs.NothingLeftOver` | SoC/Firmware/main.c:105-112 | whatever the stream, even garbage, past a record's data nothing is stored: the branch for a digit without a partner never runs |
| `SRecordProofs.StreamLoads` | SoC/Firmware/main.c:52-117 | whatever came before, a stream of records of any type but the end types makes exactly the stores its S1, S2 and S3 records ask for, in order, and does not start the program |
| `SRecordProofs.HighestIsEnd` | SoC/Firmware/main.c:99-101 | SREC_MAX_ADDR becomes the greatest end of all records with data, or stays what it was |
| `SRecordProofs.HighestExactly` | SoC/Firmware/main.c:98-101 | which it does if and only if no record with data reaches the 2 GB line |
| `SRecordProofs.HighestWraps` | SoC/Firmware/main.c:98-101 | a byte at 2 GB leaves SREC_MAX_ADDR as it was |
| `SRecordProofs.EndBoots` | SoC/Firmware/main.c:64-133 | an S7, S8 or S9 record starts the program at its checksum, and not before, with SREC_ADDR past all that was loaded |
| `SRecordLoader.LineEncodes` | SoC/Firmware/main.c:52-117 | the encoder's line for a record, in either case and with any line ending, is one of its texts |
| `SRecordLoader.LineSums` | SoC/Firmware/main.c:52-117 | the bytes of an encoded line, with its checksum, add up to 0xff, as S-records have it |
| `SRecordLoader.RoundTrip` | SoC/Firmware/main.c:52-117 | decoding an encoded file makes exactly the stores of its records |
| `SRecordLoader.Loader.HandleByte` | SoC/Firmware/main.c:52-143 | one byte takes the variables and memory to the specified next state |
| `SRecordLoader.Loader.SumLoaded` | SoC/Firmware/main.c:124-130 | SREC_ADDR ends at the first word from BOOT_ADDR on that is not below SREC_MAX_ADDR |
| `SRecordLoader.Loader.Receive` | SoC/Firmware/main.c:52-143 | a stream does so byte by byte |
| `SRecordLoader.Loader.Load` | SoC/Firmware/main.c:52-117 | after a whole file memory holds its records and SREC_MAX_ADDR its highest end |
| `UbasicTokens.LexNumber` | Apps/UBasic/tokenizer.c:126-144 | one to five digits with no digit after them are a number |
| `UbasicText.TextReads` | Apps/UBasic/tokenizer.c:117-221 | a program written token by token, numbers, letters, keywords, strings and signs with a space after each, and comments to the end of their line, is read as just those tokens, one after another, and then the end |
| `UbasicText.LexLong` | Apps/UBasic/tokenizer.c:126-144 | six digits or more are an error |
| `UbasicText.NumeralReads` | Apps/UBasic/tokenizer.c:225-228 | the decimal digits of a number are read as that number |
| `UbasicTokens.LexVariable` | Apps/UBasic/tokenizer.c:155-167 | a letter is a variable if and only if no keyword starts with it |
| `UbasicTokens.LexNotVariable` | Apps/UBasic/tokenizer.c:155-162 | the i of "if" is none |
| `UbasicTokens.KeywordFrom` | Apps/UBasic/tokenizer.c:156-161 | the first keyword in the table that the text starts with |
| `UbasicTokenizer.Tokenizer.GetNextToken` | Apps/UBasic/tokenizer.c:117-171 | the token at ptr, with nextptr after it unless it is an error |
| `UbasicTokenizer.Tokenizer.NumberToken` | Apps/UBasic/tokenizer.c:126-144 | the counting loop accepts up to five digits |
| `UbasicTokenizer.Tokenizer.WordToken` | Apps/UBasic/tokenizer.c:155-170 | a keyword, a variable or an error |
| `UbasicTokenizer.Tokenizer.Next` | Apps/UBasic/tokenizer.c:195-221 | to the next token after spaces and comments |
| `UbasicTokenizer.Tokenizer.Num` | Apps/UBasic/tokenizer.c:225-228 | the decimal number at ptr, cut down to a char |
| `UbasicTree.BitByBit` | Apps/UBasic/ubasic.c:212-217 | bitwise and and or go bit by bit |
| `UbasicTree.LetterReads` | Apps/UBasic/ubasic.c:641-646 | the letters a to z read the 26 variables in order |
| `UbasicTree.IntMeans` | Apps/UBasic/ubasic.c:163-219 | a value is defined exactly when 32 bits hold it |
| `Words.WordMeans` | Lib/malloc.c:199-200 | unsigned and signed words are in their range, and off by a multiple of 2^32 |
| `Words.QuotientMeans` | Apps/UBasic/ubasic.c:176-181 | division leaves over less than the divisor, with the sign of the number divided |
| `Words.CharMeans` | Apps/UBasic/vartype.h:34-34 | a number cut down to a char is off by a multiple of 256, and in a char's range |
| `UbasicTree.StandsBin` | Apps/UBasic/ubasic.c:163-186 | in the text of an operation its operands and operator lie where the evaluator looks for them |
| `UbasicTree.StandsParen` | Apps/UBasic/ubasic.c:145-149 | and so do the parts of a parenthesis |
| `UbasicTree.Starts` | Apps/UBasic/ubasic.c:139-153 | an expression starts with a number, a variable or a parenthesis |
| `UbasicEval.NextOp` | Apps/UBasic/ubasic.c:163-186 | after part of a run of operators of one level stands the next of them, and what follows its operand is none of a lower level |
| `UbasicEval.Basic.Accept` | Apps/UBasic/ubasic.c:110-121 | past the expected token and spaces and comments after it, and nowhere when the token is another one |
| `UbasicEval.Basic.VarFactor` | Apps/UBasic/ubasic.c:124-131 | the variable's value |
| `UbasicEval.Basic.Factor` | Apps/UBasic/ubasic.c:134-155 | the value of a number, a variable or a parenthesis, taking in just its text |
| `UbasicEval.Basic.Term` | Apps/UBasic/ubasic.c:158-187 | the value of a run of multiplications and divisions, left to right |
| `UbasicEval.Basic.Expr` | Apps/UBasic/ubasic.c:190-223 | the value of a run of additions and bit operations on terms, left to right, as a char |
| `UbasicEval.Basic.Relation` | Apps/UBasic/ubasic.c:226-254 | the value of a run of comparisons of expressions, left to right |
| `UbasicEval.Evaluate` | Apps/UBasic/ubasic.c:134-254 | tokenizing and evaluating a program that starts with the text of any expression tree, and goes on with no operator and no comment, takes in exactly that text and gives the tree's value |
| `UbasicEval.Precedence` | Apps/UBasic/ubasic.c:158-223 | evaluating 7-2-1 and 1+2*3 gives 4 and 7 |
| `UbasicEval.LiteralKept` | Apps/UBasic/tokenizer.c:224-228 | a number is read as what it spells if and only if that is below 128, or 256 where char is unsigned |
| `UbasicEval.LiteralsWrap` | Apps/UBasic/vartype.h:34 | so 200 is read as -56 where char is signed |
| `SongSpec.Patterns` | Apps/Modplayer/ptreplay.c:1064-1070 | one more than the greatest pattern in the order list |
| `SongSpec.TickKeeps` | Apps/Modplayer/ptreplay.c:986-1053 | after every tick, whatever the effects on the four channels, the row is a multiple of 16 below 1024, the position is in the song, and nothing is left pending |
| `SongSpec.RunInside` | Apps/Modplayer/ptreplay.c:986-1053 | over every run from mt_init the row to be fetched lies among the patterns mt_init counted |
| `SongSpec.RowInside` | Apps/Modplayer/ptreplay.c:1005-1007 | the row at a position in the song lies in the patterns |
| `SongSpec.PlayRowKeeps` | Apps/Modplayer/ptreplay.c:1011-1020 | the effects of four voices keep breaks and loop marks below row 64 |
| `SongSpec.DSkipKeeps` | Apps/Modplayer/ptreplay.c:956-981 | the end of a row leads back to a steady state from whatever the effects left |
| `SongPlay.PlainRow` | Apps/Modplayer/ptreplay.c:956-981 | without effects rows follow one another, and after row 63 the next position |
| `SongPlay.JumpRow` | Apps/Modplayer/ptreplay.c:389-394 | Bxx alone leads to row 0 of position xx, or of the first when there is no such position |
| `SongPlay.BreakTo` | Apps/Modplayer/ptreplay.c:404-411 | Dxy alone leads to row 10x + y of the next position, or its row 0 when there is no such row |
| `SongPlay.JumpAndBreak` | Apps/Modplayer/ptreplay.c:389-411 | Bxx and Dyz in one row lead to position xx, and to row 10y + z of it exactly if Dyz comes on the later channel, else to row 0 |
| `SongPlay.SpeedRow` | Apps/Modplayer/ptreplay.c:413-432 | Fxx alone sets the ticks of the rows that follow to xx, up to 31, or any xx when there is no timer; F00 changes nothing |
| `SongRuns.SpeedLasts` | Apps/Modplayer/ptreplay.c:413-432 | over a run of ticks the row after that takes exactly so many ticks |
| `SongLayout.HoldsModule` | Apps/Modplayer/ptreplay.c:1064-1070 | a module an encoder has laid out has all the patterns its order list mentions |
| `SongLayout.PositionsFollow` | Apps/Modplayer/ptreplay.c:946-954 | the next position is the following one below the song's length, and else the first |
| `SongLayout.FetchIsCell` | Apps/Modplayer/ptreplay.c:1005-1007 | on such a module what is fetched for a channel at a row of a position is that cell of the position's pattern |
| `SongPlay.DelayRow` | Apps/Modplayer/ptreplay.c:371-378 | EEx alone holds the row and owes x more row times |
| `SongPlay.HeldFor` | Apps/Modplayer/ptreplay.c:960-970 | a held row is left exactly when the row times it owes are over, counted in row times |
| `SongPlay.LoopsExactly` | Apps/Modplayer/ptreplay.c:264-272 | the counter of E6x makes it jump back exactly x times and is then ready to start over |
| `SongPlay.LoopVisit` | Apps/Modplayer/ptreplay.c:251-277 | each visit to E6x on a row's first tick is one step of that count |
| `SongRuns.OffTicks` | Apps/Modplayer/ptreplay.c:1039-1052 | ticks between rows only count |
| `SongRuns.OneVoice` | Apps/Modplayer/ptreplay.c:1011-1020 | a row with at most one effect that matters does what that voice does by itself |
| `SongRuns.Loop.LoopStage` | Apps/Modplayer/ptreplay.c:251-277 | in the i-th round of a loop marked by E60 and closed by E6x on one channel, row by row, each is due when its turn comes |
| `SongRuns.Loop.LoopPlays` | Apps/Modplayer/ptreplay.c:251-277 | over a run of ticks the rows from E60 to E6x are each played exactly x + 1 times, and then the player goes on with the count ready for another time |
| `SongRuns.DelayLasts` | Apps/Modplayer/ptreplay.c:371-378 | over a run of ticks a row with EEx alone lasts exactly (x + 1) times the speed, and then the player goes on |
| `SongRuns.RunOf` | Apps/Modplayer/ptreplay.c:986-1053 | every state has such a run, and it is that of the ticks |
| `SongPlayer.Player.constructor` | Apps/Modplayer/ptreplay.c:1056-1099 | the initial state, with the patterns counted |
| `SongPlayer.Player.CountPatterns` | Apps/Modplayer/ptreplay.c:1064-1070 | the loop finds one more than the greatest pattern in use |
| `SongPlayer.Player.JumpLoop` | Apps/Modplayer/ptreplay.c:251-277 | marks the row, or counts and jumps, as specified |
| `SongPlayer.Player.PatternDelay` | Apps/Modplayer/ptreplay.c:371-378 | asks for the row to be held, unless it is already |
| `SongPlayer.Player.PatternBreak` | Apps/Modplayer/ptreplay.c:404-411 | asks for the row of the next position |
| `SongPlayer.Player.SetSpeed` | Apps/Modplayer/ptreplay.c:413-432 | sets the ticks of a row, unless the value is a tempo |
| `SongPlayer.Player.ECommands` | Apps/Modplayer/ptreplay.c:724-745 | of the E commands only 6 and E steer the sequencer |
| `SongPlayer.Player.CheckMoreEfx` | Apps/Modplayer/ptreplay.c:747-761 | B, D, E and F steer it when a row is played |
| `SongPlayer.Player.CheckEfx` | Apps/Modplayer/ptreplay.c:763-794 | only E does between rows |
| `SongPlayer.Player.PlayVoice` | Apps/Modplayer/ptreplay.c:848-943 | the cell is fetched from inside the patterns, and its effect takes place once |
| `SongPlayer.Player.NextPosition` | Apps/Modplayer/ptreplay.c:946-954 | the row and the position asked for, wrapped to the song |
| `SongPlayer.Player.DSkip` | Apps/Modplayer/ptreplay.c:956-981 | the row that follows, held, looped to, broken to or next |
| `SongPlayer.Player.Music` | Apps/Modplayer/ptreplay.c:986-1053 | one tick as specified; exactly the four cells of the row are fetched when a new row is due, and none otherwise |
| `SongPlayer.Player.Play` | Apps/Modplayer/ptreplay.c:986-1053 | over any number of ticks everything fetched lies in the module's patterns |
| `Divisors.RemainderAtMost` | Apps/SAM/createtransitions.c:112-118 | what a multiple of the remainder leaves, divided by the width, is at least their greatest common divisor below the width |
| `Divisors.RemainderReached` | Apps/SAM/createtransitions.c:112-118 | and some multiple leaves just that |
| `Interpolation.DrawsLine` | Apps/SAM/createtransitions.c:102-122 | for any width from 1 to 255, up to where the error byte first overflows, frame k is start + trunc(k * delta / width), except that a line from 0 rising by less than one a frame stays 0 |
| `Interpolation.WantedInside` | Apps/SAM/createtransitions.c:102-122 | the line stays between its ends |
| `Interpolation.LineMonotone` | Apps/SAM/createtransitions.c:102-122 | and runs one way |
| `Interpolation.RightWithoutOverflow` | Apps/SAM/createtransitions.c:112-118 | all lines of a slope and a width are right if and only if the error byte never overflows |
| `Interpolation.OverflowExactly` | Apps/SAM/createtransitions.c:112-118 | it never does if and only if width + remainder - gcd(remainder, width) is below 256 |
| `Interpolation.RightExactly` | Apps/SAM/createtransitions.c:102-122 | so this is exactly when all lines of a slope are right, for every width from 1 to 255 |
| `Interpolation.TransitionsRight` | Apps/SAM/createtransitions.c:194-196 | for the widths of transitions, 2 to 129, they are if and only if the width is not 129 with a slope of -128 |
| `Interpolation.WideLineLost` | Apps/SAM/createtransitions.c:124-136 | of the widths only pitch has, 200 with a slope of -120 goes wrong: frame 4 from 200 on is 199, not 198 |
| `Interpolation.Interpolate` | Apps/SAM/createtransitions.c:102-122 | just the width - 1 frames after the given one are redrawn, with frame numbers wrapping |
| `Interpolation.StraightExactly` | Apps/SAM/createtransitions.c:194-196 | for all widths a transition can have, 2 to 129, it is straight if and only if its ends differ by what a char holds; for 129 not by -128, but from 0 to 128 too |
| `Interpolation.TransitionStraight` | Apps/SAM/createtransitions.c:194-196 | up to width 129 it is straight for every difference a char holds, the pair 129 and -128 aside |
| `Interpolation.FarApart` | Apps/SAM/createtransitions.c:194-196 | from 0 to 200 in two frames it goes by way of 228 |
| `Interpolation.Join` | Apps/SAM/createtransitions.c:175-199 | one table is joined between the frames at the two phonemes' blend lengths when the width is 2 to 129, straight if and only if the values there can be joined so, and left alone otherwise |

## Left out

- `calloc`, probing for the size of RAM and debug output (`Lib/malloc.c`): no part of the allocator's logic.
- Addresses that are not word-aligned, and the size of words other than 4 bytes: memory is a map from
  addresses to words, and the headers' offsets are those of a 32-bit target.
- `CompareDirEntries`, long file names, and walking the directory's own clusters (`Lib/fat.c`): an entry has one key in a
  strict total order, and the disk is a list of raw slots, filtered by attributes and extension as in the code.
- The search for a letter in `ScanDirectory`.
- DirBrowser.Browser.InitNext: on a screen of several entries with stale slots, what is shown is given slot by slot, and
  not said to be a slice or none, because it can be either.
- DirBrowser.RunInBounds: covers runs in which SCAN_INIT_NEXT comes on at most one entry, because it leaves no slice otherwise.
- Failing disk reads and writing, directories and partitions (`lib832soc/minfat.c`): reads succeed, and opening a
  file starts from its size and first cluster.
- FatFile.FileHandle.FileSeek: covers volumes whose cluster size is a power of two, cluster chains without a cycle and
  sector numbers below 2^31, because masks are written as division and bookmark distances are 32-bit.
- FatFile.FileHandle.FileRead: a read that the clamp lets run past the end of the cluster chain, or to 4 GB where the cursor
  wraps; what it delivers is no part of a file.
- `FileGetCh`, `LoadFileAbs`, and `FileSeek` without bookmarks.
- Child pools, `AllocAligned` and `AllocMasked` as a whole (`lib832soc/memorypool.c`): the bookkeeping of what is left around
  an aligned chunk, marked FIXME in the code, does not keep fragments disjoint; only the placement arithmetic is modelled.
- PageFit.CheckAlignRight: for alignments that are powers of two, masking being written as division.
- MemoryPool.RootPool.SeedMemory: covers banks of 8 bytes or more. With fewer the comparison at `memorypool.c:84` is
  unsigned, and the code keeps a fragment of negative size.
- Arena.Allocator.MallocAdd: covers arenas of 512 bytes or more. A smaller one is rounded down to size 0, and the code
  links in an empty block.
- Freeing a pointer whose guard words are damaged.
- `PS2KeyboardWrite`, the version for strings, and the timing of the mouse driver.
- Ps2Port.Ports.Write: a call that finds the ring full and never sees room does not end in the code; in the model it ends
  unfinished when the given readings run out.
- PortRing.Ring.Overruns: the count is read and cleared in one step; in the code an overrun that an interrupt counts between
  the two is lost.
- Overrun counts and column numbers that pass 2^31.
- Checksums of S-records, which the loader does not look at, the sum over what was loaded, which is only printed, and what
  starting the program does.
- SRecordLoader.Loader.SumLoaded: with SREC_MAX_ADDR within three bytes of 2 GB the address overflows and the loop does not
  end in the code; in the model it ends at 2 GB.
- A stream that does not begin with an S, before the first S.
- uBasic statements, the line index, strings, peek and poke, and malformed expressions.
- UbasicTokenizer.Tokenizer.GetNextToken: an unterminated string ends with the program, where the code reads on past its end.
- UbasicTokenizer.Tokenizer.Next: so does a comment on the last line.
- UbasicEval.Evaluate: covers divisors other than 0 and results that fit an int, because C leaves the rest undefined, and
  expressions that no comment follows, since the one on the next line would be read as their continuation.
- Pitch, vibrato, samples, volume and output of the ProTracker player, and the timer settings of a tempo.
- SAM's reciter, its tables, pitch interpolation, and the choice of blend lengths in `CreateTransitions`.
- Interpolation.DrawsLine: for a `char` that is signed, and a width other than 0, by which the code would divide.
