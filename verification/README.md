# Verified model of a set of operating-systems assignments

Six programs and kernel parts are modelled in Dafny and proved correct, or proved correct exactly under a
stated condition:

- **fisopfs** (`Bitmap`, `FsStorage`, `FsTree`, `FsPaths`, `FsSteps`, `FsDisk`): a block file system. A class updates
  inodes, blocks and bitmaps in place; it is proved to act on a tree of names and byte sequences, with an
  ownership invariant that ties bitmaps, inodes, directory entries and block contents together.
- **Paging** (`Mmu`, `PmapModel`, `Pmap`): physical pages, two-level page tables, and the creation and
  teardown of address spaces. Reference counts are exact, the tables refine a flat map from page number
  to page and permissions, and the processor lets user code do what that map says.
- **Copy-on-write fork** (`Cow`, `PageCalls`): any number of environments that fork, fault and write, one system call at
  a time, refine environments whose pages are copied when they fork. `PageCalls` has the system calls
  behind these steps on the page tables, and proves that they leave the same entries.
- **Kernel** (`Kernel`, `Lottery`): processors that trap, schedule, create, destroy and message environments
  under one lock, as a step machine; the lottery draw and its ticket accounting as a class.
- **malloc** (`HeapModel`, `Malloc`, `Realloc`): linked blocks and regions edited through pointers, proved against a
  layout that tiles every block, and against the set of objects in use.
- **Prime sieve and symbol search** (`Primes`, `Sieve`, `Stab`): a growing chain of processes over bounded
  pipes in any interleaving, and a binary search over a sparsely typed table.

`Arithmetic` and `Wrappers` hold what several modules share. `dafny verify dfyconfig.toml` checks everything.

Sequential code that changes state is a class whose methods are proved against functions of the state;
what the source promises is then proved about those functions. Concurrent code is a state machine with one
function for the next state, an invariant kept by every step, and theorems over all runs.

Points where the code differs from its comments or from what a caller may expect, each with its own lemma:

- The guard of the page fault handler uses `!` where a bit complement is meant and never fires
  (`Cow.GuardNeverFires`), so a write fault on a read-only page is served with a private copy.
- Between the two system calls of `duppage` a write by the parent reaches the child (`Cow.WindowLeaks`,
  `Cow.StepRefines`). `fork` meets this window each time on its own stack page, which it shares like any
  other: the second call's arguments are pushed there before the page loses its write permission. What that
  does is `Cow.ParentWritesBetween` and, over the whole call, `Cow.Machine.Fork`. It reaches no page but the child's copy, and what is copied from that by
  later forks (`Cow.RunRefines`, `Cow.Isolation`). The comment excludes I/O pages from copy-on-write; the code does not, and the model
  follows the code.
- `sys_ipc_recv` at a bad address leaves the receive flag set. With it, and with `sys_env_set_status` and
  `env_destroy` on environments of other processors, one environment can come to run on two processors; the
  restriction of `Kernel.StepInvExactly` excludes these steps, and `Kernel.RestrictionsNeeded` has a run for each.
- `env_page_alloc` does not give its page back when `page_insert` fails, as its caller's comment asks. The
  last free page is lost exactly when the mapping also needs a table (`PageCalls.Environments.PageAllocate`,
  `PageCalls.LosesPage`).
- `sys_page_map` promises to refuse inappropriate permissions and never checks them: a word of more than twelve
  bits can change the page that is mapped (`Mmu.PteExactly`), and the counts are then wrong (`PmapModel.OutOfStep`).
- `SYS_reduce_priority` has no return of its own (`Lottery.Scheduler.ReducePriorityCall`), and percentages
  from 100 on break the accounting (`Lottery.KeepsATicket`), unless the percentage is the caller's own identifier.
- The draw starts at 0 and stops below the total of all tickets, while it falls on runnable environments only:
  the first of them has one chance more, and the last has the running environment's whole share less one on
  top of its own (`Lottery.ActualShare`).
- `stab_binsearch` documents left above right for an address that no entry contains; the code does that only
  when the type does not occur at all (`Stab.SearchEnds`). An exact match moves the address,
  which can lose the match (`Stab.SuccessorMisleads`, `Stab.TopWraps`); `Stab.BracketExactly` says
  when. A table without an entry at the next address is always searched correctly
  (`Stab.RightWithoutSuccessor`).
- Requests of the three largest sizes wrap to the least region (`Malloc.RoundingIsExact`).
- `realloc` is documented to use free neighbours. It follows a null pointer when the first object of a block
  grows next to a free region, may return less than was asked for, returns memory marked free when it moves
  into the region before, and can swallow the object before. Each is reached by calls of malloc and free
  (`Realloc.ReachesFault`, `Realloc.ReachesShort`, `Realloc.ReachesPrevious`, `Realloc.ReachesBoth`), and
  `Realloc.Grow` says exactly when it does what it should.
- The random generator has the multiplier and the modulus of a well-known one the other way round. It still
  permutes its states and never stands still (`Lottery.DrawPermutes`, `Lottery.DrawsMoveOn`).
- The generator of the sieve compares an unsigned counter with the number, so the largest one never ends
  (`Sieve.FinishesExactly`).

## Model

| member | source | states |
|---|---|---|
| `Bitmaps.BitwiseAt` | fisopfs/bitmap.c:4-20 | bit `i` of an OR, AND or AND NOT is the connective of the operands' bits `i` |
| `Bitmaps.MaskTest` | fisopfs/bitmap.c:16-20 | masking a word with one bit is nonzero exactly when that bit is set |
| `Bitmaps.WordUpdates` | fisopfs/bitmap.c:4-13 | OR with a mask sets one bit and AND NOT clears one; all other bits of the word stay |
| `Bitmaps.NonzeroHasBit` | fisopfs/bitmap.c:16-20 | a nonzero word has a set bit, which is what the comparison with 0 relies on |
| `Bitmaps.FirstFree` | fisopfs/bitmap.c:23-43 | the result is the lowest clear bit, or -1 exactly when every bit is set |
| `Bitmaps.Bitmap.SetBit` | fisopfs/bitmap.c:4-7 | the bit sequence changes at `n` only, to true |
| `Bitmaps.Bitmap.ClearBit` | fisopfs/bitmap.c:10-13 | the bit sequence changes at `n` only, to false |
| `Bitmaps.Bitmap.GetBit` | fisopfs/bitmap.c:16-20 | the answer is element `n` of the bit sequence |
| `Bitmaps.Bitmap.GetFreeBit` | fisopfs/bitmap.c:23-43 | the two nested loops find the lowest clear bit, -1 when there is none |
| `FsStorage.OwnershipMeans` | fisopfs/fisopfs.c:205-245 | a data bit is set exactly when one pair (allocated inode, index below its block count) holds the block, and no second pair does |
| `FsStorage.InvReadable` | fisopfs/fisopfs.c:49-64 | every block number of an allocated inode is a block of the disk, and its size fits its blocks |
| `FsStorage.AbsUpdate` | fisopfs/fisopfs.c:272-335 | changing one inode and only its own blocks changes one node of the tree |
| `FsStorage.WriteBlockOk` | fisopfs/fisopfs.c:302-332 | writing into one block keeps ownership and sizes and splices the bytes into the file's content; every other node is unchanged |
| `FsStorage.SpliceBytes` | fisopfs/fisopfs.c:325-327 | laying bytes over a content gives the new byte at every offset inside, the old byte at every offset outside, and reaches as far as the longer of the two |
| `FsStorage.WriteBlockFrame` | fisopfs/fisopfs.c:302-332 | a block write touches no inode but the file's and no block another inode holds |
| `FsStorage.ShrinkOk` | fisopfs/fisopfs.c:343-364 | giving back the blocks past the new end keeps the invariant and cuts the content to a prefix |
| `FsStorage.NewInodeOk` | fisopfs/fisopfs.c:206-230 | a freshly taken inode adds an empty node and owns nothing |
| `FsStorage.ReleasedOk` | fisopfs/fisopfs.c:807-822 | releasing an inode without blocks removes its node and nothing else |
| `FsStorage.SlotSetEntries` | fisopfs/fisopfs.c:73-85 | overwriting one directory slot replaces that entry and no other |
| `FsStorage.WidenedOk` | fisopfs/fisopfs.c:248-269 | a directory gets a block exactly when its last one is full |
| `FsStorage.EntryAddedOk` | fisopfs/fisopfs.c:248-269 | inserting an entry appends it to the directory's list; other nodes stay |
| `FsStorage.LastDroppedOk` | fisopfs/fisopfs.c:805-817 | dropping the last entry shortens the list by one and frees its block exactly when that block becomes empty |
| `FsTree.UniquePath` | fisopfs/fisopfs.c:115-160 | two paths that lead to the same inode are the same path |
| `FsTree.ExactlyOnePath` | fisopfs/fisopfs.c:115-160 | every inode of the tree has exactly one path: the namespace is a tree |
| `FsTree.ExactlyOneEntry` | fisopfs/fisopfs.c:751-866 | every inode but the root has exactly one entry, in the directory its parent field names |
| `FsTree.LinkedResolves` | fisopfs/fisopfs.c:568-675 | after a name is added its path leads to the new inode and every other path leads where it did |
| `FsTree.LinkedInv` | fisopfs/fisopfs.c:568-675 | adding a name keeps names unique, parents right and every inode reachable |
| `FsTree.LinkedIs` | fisopfs/fisopfs.c:568-675 | a name more is an empty node of the kind asked for and one entry at the end of its directory; every other node stays |
| `FsTree.UnlinkedResolves` | fisopfs/fisopfs.c:751-866 | after a name is removed its path leads nowhere and every other path leads where it did |
| `FsTree.UnlinkedInv` | fisopfs/fisopfs.c:751-866 | removing the name of a childless node keeps the namespace a tree |
| `FsTree.UnlinkedIs` | fisopfs/fisopfs.c:751-866 | a name less takes its node and its entry, the entries behind it move up by one, and every other node stays |
| `FsTree.ContentKeepsNames` | fisopfs/fisopfs.c:458-566 | changing a file's content changes no path |
| `FsTree.ContentInv` | fisopfs/fisopfs.c:458-566 | changing a file's content keeps the namespace invariant |
| `FsPaths.NameLength` | fisopfs/fisopfs.c:115-160 | the run of characters up to the next delimiter |
| `FsPaths.TokensOfJoin` | fisopfs/fisopfs.c:115-160 | cutting a joined list of names into tokens gives the list back |
| `FsPaths.TokensOfPath` | fisopfs/fisopfs.c:115-160 | every list of valid names has an absolute path, and tokenising the path gives the list back |
| `FsPaths.LastName` | fisopfs/fisopfs.c:163-185 | the last delimiter of a normalised path separates the parent's path from the last name |
| `FsPaths.SplitPath` | fisopfs/fisopfs.c:163-185 | walking back to the last delimiter yields the parent path and the last name |
| `FsDisk.Disk.constructor` | fisopfs/fisopfs.c:698-749 | a new file system satisfies the invariant and consists of the root directory alone |
| `FsDisk.Disk.InitInode` | fisopfs/fisopfs.c:206-230 | takes the lowest free inode, or reports that there is none and changes nothing |
| `FsDisk.Disk.InitDataBlock` | fisopfs/fisopfs.c:233-245 | takes the lowest free data block, or reports that there is none and changes nothing |
| `FsDisk.Disk.GetDirent` | fisopfs/fisopfs.c:73-85 | yields entry `e` of the directory's list across block boundaries |
| `FsDisk.Disk.FindInDir` | fisopfs/fisopfs.c:95-108 | yields what the tree's lookup yields, and nothing for a file |
| `FsDisk.Disk.FindInode` | fisopfs/fisopfs.c:115-160 | yields the inode the path's names lead to from the root, or nothing |
| `FsDisk.Disk.WriteOneBlock` | fisopfs/fisopfs.c:302-332 | one turn of the write loop changes the state by exactly one block write, or finds the disk full and changes nothing |
| `FsDisk.Disk.WriteFile` | fisopfs/fisopfs.c:272-335 | byte by byte: the new content reaches to the longer of its old length and off + r, is buffer[k - off] at every offset written and the old byte at every other; r is short only when no data block is free; errors exactly for directories, gaps and oversize, with no change |
| `FsDisk.Disk.ClearBlocks` | fisopfs/fisopfs.c:351-363 | the loop frees exactly the blocks past the new length |
| `FsDisk.Disk.ShrinkFile` | fisopfs/fisopfs.c:343-364 | a longer file is cut to the prefix; otherwise nothing changes |
| `FsDisk.Disk.Read` | fisopfs/fisopfs.c:459-510 | returns exactly the requested slice of the content, with the error codes of each failing case; the count read equals the count wanted |
| `FsDisk.Disk.ReadBlocks` | fisopfs/fisopfs.c:484-507 | the loop over blocks collects content[offset..offset+count] |
| `FsDisk.Disk.Write` | fisopfs/fisopfs.c:513-530 | the same bytes for the file the path names, and no other node; no path changes; each failing case has its code, and changes nothing |
| `FsDisk.Disk.WriteThenRead` | fisopfs/fisopfs.c:459-530 | what was written is what is then read: r bytes at the same offset, equal to the first r of the buffer |
| `FsDisk.Disk.Truncate` | fisopfs/fisopfs.c:533-566 | a prefix of the old content, or the old content and zeros behind it, byte by byte; shorter than asked for only when no data block is free; every result has its code; no path and no other node changes |
| `FsDisk.Disk.InsertDentry` | fisopfs/fisopfs.c:248-269 | appends one entry; fails exactly when a block is needed and none is free, changing nothing |
| `FsDisk.Disk.ShiftEntries` | fisopfs/fisopfs.c:767-803 | the nested loops move every entry behind the match up by one place and change no other directory or file |
| `FsDisk.Disk.ShiftOne` | fisopfs/fisopfs.c:767-803 | one turn of the compaction compares one entry and, from the match on, overwrites it with the next |
| `FsSteps.OneMoreShrunk` | fisopfs/fisopfs.c:351-363 | one turn of the shrink loop clears the next block's bit and counts the block off |
| `FsSteps.ScanStep` | fisopfs/fisopfs.c:767-803 | one turn of the compaction extends the part of the list that is final by one entry |
| `FsSteps.ShiftedNotEmpty` | fisopfs/fisopfs.c:767-817 | the shifted list without its last element is the old list without the match, in the same order |
| `FsDisk.Disk.DropLastEntry` | fisopfs/fisopfs.c:805-817 | the directory loses its last entry, and its last block exactly when that entry was alone in it |
| `FsSteps.EntryGone` | fisopfs/fisopfs.c:767-817 | compaction and drop together remove precisely the matching entry and keep the order of all others, across blocks |
| `FsSteps.ContentGone` | fisopfs/fisopfs.c:807-822 | an inode about to be released holds no block any more, and its blocks' bits are clear |
| `FsSteps.AllGone` | fisopfs/fisopfs.c:752-825 | the steps of an unlink together remove one name and one node, and free exactly that node's blocks |
| `FsDisk.Disk.UnlinkInode` | fisopfs/fisopfs.c:752-825 | a nonempty directory is refused without a change; otherwise exactly the named node goes |
| `FsDisk.Disk.Unlink` | fisopfs/fisopfs.c:829-841 | removes exactly the named file, all other paths resolve as before; error codes in exactly the failing cases |
| `FsDisk.Disk.Rmdir` | fisopfs/fisopfs.c:845-866 | removes exactly the named empty directory; the root, files and nonempty directories are refused with their own codes |
| `FsDisk.Disk.Make` | fisopfs/fisopfs.c:569-675 | create and mkdir: on success exactly the named node appears, with the ignored result of the insertion being 0; every failure has the code of the first failing check and changes nothing |
| `FsSteps.FreshInode` | fisopfs/fisopfs.c:591-612 | after the checks of create, taking the inode still leaves room for the entry, so the insertion cannot fail |
| `FsSteps.MakeDone` | fisopfs/fisopfs.c:591-675 | the new inode and the appended entry together are one new name in the tree |
| `FsSteps.EntryAddedBits` | fisopfs/fisopfs.c:248-269 | an inserted entry takes one data bit exactly when the last block was full, and no inode bit |
| `FsDisk.Disk.CreateThenUnlink` | fisopfs/fisopfs.c:569-841 | create followed by unlink restores both bitmaps and every path |
| `FsSteps.BitsRestored` | fisopfs/fisopfs.c:569-841 | the bits set by a creation are exactly those cleared by the removal |
| `Mmu.Fields` | sched/inc/mmu.h:30-40 | each field macro as division and remainder of the address |
| `Mmu.Assembled` | sched/inc/mmu.h:41-42 | PGADDR of in-range fields is their weighted sum |
| `Mmu.AddressRoundTrip` | sched/inc/mmu.h:30-42 | PGADDR puts together what PDX, PTX and PGOFF take apart, for every 32-bit address |
| `Mmu.FieldsRoundTrip` | sched/inc/mmu.h:30-42 | PDX, PTX and PGOFF take apart what PGADDR puts together, so addresses and field triples are in bijection |
| `Mmu.PteRoundTrip` | sched/kern/pmap.c:501-502 | an entry made of a page and permissions gives both back, with the present bit set |
| `Mmu.PteExactly` | sched/kern/pmap.c:501-502 | a permission word of any width leaves the entry's page as it is if and only if it adds no bit to the page number |
| `PmapModel.CountMeans` | sched/kern/pmap.c:347-388 | the count of a managed page is the number of live directories stored in it, directory entries below UTOP using it as a table, and table entries below UTOP mapping it |
| `PmapModel.FreePagesIdle` | sched/kern/pmap.c:347-377 | the free list has no duplicates and its pages have count 0 |
| `PmapModel.PopFree` | sched/kern/pmap.c:347-360 | taking the head of the free list keeps it a duplicate-free chain and yields a page nobody references |
| `PmapModel.PushChain` | sched/kern/pmap.c:367-377 | a page that is off the list can be pushed and the list stays a duplicate-free chain |
| `PmapModel.IncRefOk` | sched/kern/pmap.c:413-429 | a counted reference more keeps every count exact |
| `PmapModel.DecRefOk` | sched/kern/pmap.c:384-388 | a reference less keeps every count exact, and the page goes to the free list exactly with its last one |
| `PmapModel.HeldIsCounted` | sched/kern/pmap.c:367-388 | a referenced page has a positive count, a null link and is off the free list, so page_free cannot panic |
| `PmapModel.RenameOk` | sched/kern/pmap.c:490-505 | moving a reference from the caller's hand into an entry changes no count |
| `PmapModel.OutOfStep` | sched/kern/pmap.c:490-505 | an entry written with another page than the one counted for it leaves tables that fit the counts under no reading |
| `PmapModel.NoHolders` | sched/kern/pmap.c:347-360 | a page with count 0 is no directory, no table and mapped nowhere |
| `PmapModel.TablesApart` | sched/kern/pmap.c:413-429 | a table is named by one directory entry only and is no directory, so address spaces share no table |
| `PmapModel.UnheldFrame` | sched/kern/pmap.c:355-357 | zeroing a page nobody references is invisible to every address space |
| `PmapModel.ProcessorAgrees` | sched/kern/pmap.c:405-429 | the processor, which needs both levels to allow an access, lets user code read and write exactly what the permissions in the flat map allow |
| `PmapModel.TableWord` | sched/kern/pmap.c:501-502 | writing one table entry is seen through that entry alone, in no other table or address space |
| `PmapModel.ClearPage` | sched/kern/pmap.c:550-568 | clearing an entry removes exactly its reference |
| `PmapModel.LinkTable` | sched/kern/pmap.c:413-429 | a zeroed, unreferenced page becomes the table of an empty directory entry without any mapping appearing |
| `PmapModel.UnlinkTable` | sched/kern/env.c:448-451 | a directory entry whose table maps nothing can be cleared |
| `PmapModel.OpenDir` | sched/kern/env.c:164-197 | a page filled from the kernel's directory, with its own window at UVPT, is a new directory with nothing below UTOP |
| `PmapModel.CloseDir` | sched/kern/env.c:453-456 | a directory without tables stops being live and loses one reference |
| `PmapModel.UserAddress` | sched/inc/mmu.h:30-42 | an address below UTOP selects an entry below UTOP, and the entry determines its page number |
| `PmapModel.LookupFacts` | sched/kern/pmap.c:519-532 | the walked entry is nonzero exactly when the flat map has the page number, and then holds its page and permissions |
| `PmapModel.WriteSpaces` | sched/kern/pmap.c:490-505 | writing the entry of an address updates that address space at that page number and no other space |
| `PmapModel.OwnedCount` | sched/kern/env.c:414-460 | a page's references split into those of one directory and the rest |
| `Pmap.PageTables.constructor` | sched/kern/pmap.c:292-332 | the free list has exactly the pages that are not page 0, not page 7, not in the I/O hole and not in the kernel image, the highest first |
| `Pmap.PageTables.PageAlloc` | sched/kern/pmap.c:347-360 | hands out the head of the free list, zeroed on request; null exactly when the list is empty, with no change; no mapping changes |
| `Pmap.PageTables.PageFree` | sched/kern/pmap.c:367-377 | the page becomes the head of the list; both panic conditions are excluded |
| `Pmap.PageTables.PageDecref` | sched/kern/pmap.c:384-388 | drops one reference, freeing the page with the last, and keeps counts and free list exact |
| `Pmap.PageTables.PgdirWalk` | sched/kern/pmap.c:413-429 | the entry is found; a missing table is created exactly on request and with memory, otherwise nothing changes; the directory's word names the table and is present, writable and the user's, and no address space changes |
| `Pmap.PageTables.PageLookup` | sched/kern/pmap.c:519-532 | is the lookup of the flat map |
| `Pmap.PageTables.PageRemove` | sched/kern/pmap.c:550-568 | is the deletion from the flat map, drops one reference, and changes no other address space |
| `Pmap.PageTables.PageInsert` | sched/kern/pmap.c:490-505 | an update of the flat map, or no memory and no change; user code may then read and write the page exactly as the permission word says, and nothing changes at any other address or in any other address space; re-inserting a page neither frees it nor changes its count |
| `Pmap.PageTables.EnvSetupVm` | sched/kern/env.c:164-197 | adds an empty address space with the kernel's upper part, or reports no memory and changes nothing |
| `Pmap.PageTables.EnvFree` | sched/kern/env.c:414-460 | drops exactly that directory's references from every page's count, frees what it alone held, and leaves every other address space as it was |
| `Cow.GuardNeverFires` | sched/lib/fork.c:28-29 | the panic condition of the fault handler is 0 for every error code and entry, so any write fault is served |
| `Cow.OnlyMine` | sched/lib/fork.c:62-96 | a page of an environment outside its handler is mapped writable nowhere else |
| `Cow.OnlyTemp` | sched/lib/fork.c:35-44 | the handler's new page is mapped nowhere else until it is moved into place |
| `Cow.FaultMapInv` | sched/lib/fork.c:41-44 | moving the copy into place keeps writable pages exclusive |
| `Cow.DupChildInv` | sched/lib/fork.c:78-82 | mapping a page into the child keeps writable pages exclusive but for the pending parent |
| `Cow.DupParentInv` | sched/lib/fork.c:84-86 | marking the parent's own page ends the exception |
| `Cow.StepInv` | sched/lib/fork.c:14-48 | every step of fork, fault handler, write, allocation and exit keeps the sharing invariant |
| `Cow.WritableIsUnshared` | sched/lib/fork.c:61-96 | in every reachable state a page mapped writable in one environment is mapped in no other, except by a parent between the two calls of duppage |
| `Cow.FaultRefines` | sched/lib/fork.c:35-47 | the page fault handler changes no page any environment sees |
| `Cow.WriteIsSeen` | sched/lib/fork.c:61-96 | a write shows as the one byte written in the page written, and every other byte of it stays |
| `Cow.NewPageIs` | sched/kern/syscall.c:256-274 | a page from sys_page_alloc reads as zeros, is writable, and is mapped nowhere else |
| `Cow.WriteRefines` | sched/lib/fork.c:61-96 | a write changes exactly the writer's page, and the child's too exactly when it leaks through a pending duppage |
| `Cow.StepRefines` | sched/lib/fork.c:14-48 | a step acts on the private memories exactly as a fork that copies at once, if and only if it is not a leaking write |
| `Cow.StepRefinesAt` | sched/lib/fork.c:61-96 | page by page: a step changes a memory as the copying fork does, if and only if it does not leak onto that very page; the set of pages is always the same |
| `Cow.RunRefines` | sched/lib/fork.c:206-251 | after any run of any environments every memory has the pages that copying at fork time would give, and the same bytes in them but for those leaked by a parent inside duppage and copies of them made since; without a leak the memories are equal |
| `Cow.TracksExactly` | sched/lib/fork.c:61-96 | a run keeps all memories equal to those of the copying fork at every moment, if and only if none of its steps leaks |
| `Cow.EagerAgrees` | sched/lib/fork.c:206-251 | how differing bytes spread: a fork copies them, and a write of the byte, a new page or an exit removes them |
| `Cow.Isolation` | sched/lib/fork.c:206-251 | a page keeps its contents until its own environment changes it, over any run in which no step leaks onto that page, whatever happens to all others |
| `Cow.ForkSnapshot` | sched/lib/fork.c:61-96 | a forked page holds what the parent's page held when it was shared, until the child changes it, over any such run |
| `Cow.ParentWritesBetween` | sched/lib/fork.c:80-86 | whatever the parent writes to a writable page between the two calls of duppage, both have afterwards: the child starts from the page as it is at the second call, neither side can write it, and no other environment sees a difference |
| `Cow.DupedIsClean` | sched/lib/fork.c:62-96 | after duppage both entries have the page, are the user's and not writable, and both are copy-on-write exactly when the parent's was writable or copy-on-write |
| `Cow.WindowLeaks` | sched/lib/fork.c:78-86 | a run in which a byte written between the two calls of duppage shows up in the child |
| `Cow.Machine.Duppage` | sched/lib/fork.c:62-96 | both halves, with any bytes the parent writes to that page in between: a page that was writable or copy-on-write is copy-on-write and read-only in both environments, any other is neither; the contents are as if the writes came first, and nothing else changes |
| `Cow.PushesSeen` | sched/lib/fork.c:80-86 | the parent's writes to its writable stack page change that page of its own memory and nobody else's |
| `Cow.OwnPagesKept` | sched/lib/fork.c:207-251 | over fork the set of pages the parent can write or will be able to is the same as before, and the child's is equal to it below the exception stack |
| `Cow.Machine.Fork` | sched/lib/fork.c:207-251 | fork, with any bytes the parent pushes on its stack page between the two calls for that page, ends as a fork after those pushes: the child sees the parent's user pages and an exception stack of zeros, nobody else sees a change, every shared page is read-only on both sides and copy-on-write exactly where the parent's was writable or copy-on-write, and the two sets of such pages are the parent's old one |
| `Cow.Machine.Pgfault` | sched/lib/fork.c:15-48 | the faulting page becomes private and writable with the same contents; no memory changes |
| `PageCalls.DupPermIs` | sched/lib/fork.c:64-73 | bit by bit: the permissions duppage computes are present and the user's, never writable, copy-on-write exactly where the entry is writable or copy-on-write, and keep the I/O bits |
| `PageCalls.WriteCheck` | sched/kern/syscall.c:66-71 | the bit expression of the check refuses exactly write permission on a page mapped without it |
| `PageCalls.EntryUpdated` | sched/kern/pmap.c:490-505 | an update of one address space is an update of one entry of the map of all environments |
| `PageCalls.UserReaches` | sched/kern/pmap.c:405-429 | user code reaches a page, or writes to it, exactly when the entry that fork works with says so |
| `PageCalls.Environments.PageMap` | sched/kern/syscall.c:294-322 | refuses exactly bad addresses, an unmapped source and write permission the source has not; otherwise the map of all entries is updated at the destination with the source's page, or nothing changes, exactly when a table is missing and no page is free; only that page's count and a new table's can grow |
| `PageCalls.Environments.PageAllocate` | sched/kern/syscall.c:256-274 | refuses exactly bad addresses and permission words with a bit outside the mask; memory is short exactly without a free page, or when the only one is wanted for a table too, and exactly then the page taken is lost; otherwise the map of all entries is updated with a page that no entry had |
| `PageCalls.LosesPage` | sched/kern/syscall.c:47-59 | a run on a machine of three pages in which the last free page is lost |
| `PageCalls.Environments.PageUnmap` | sched/kern/syscall.c:333-347 | the map of all entries loses the one at the address |
| `PageCalls.Environments.NewSpace` | sched/kern/env.c:164-197 | a new environment adds no entry |
| `PageCalls.Environments.DropSpace` | sched/kern/env.c:414-460 | exactly the environment's entries go from the map of all |
| `PageCalls.Environments.Duppage` | sched/lib/fork.c:62-96 | the one or two mapping calls leave, on page tables, both entries read-only and copy-on-write exactly where the parent's was writable or copy-on-write, and change no mapped page; memory may be short for a table |
| `PageCalls.Environments.CopyPage` | sched/lib/fork.c:41-42 | copying a page as the processor lets user code do it: it faults exactly when one page cannot be read or the other not written, and changes that page alone |
| `PageCalls.Environments.Pgfault` | sched/lib/fork.c:35-47 | the three system calls and the copy leave at the faulting address a private, writable page that no entry had, with the contents the page had; the copy faults exactly when the page cannot be read; no other mapped page changes |
| `PageCalls.Environments.Fork` | sched/lib/fork.c:207-251 | the system calls of fork leave every user page below the exception stack read-only and copy-on-write exactly where the parent's was writable or copy-on-write, in both environments, and a zeroed private exception stack that no entry had; the parent's set of such pages is the same as before and the child's equal to it; no mapped page changes its contents, and no count overflows while every count could double |
| `PageCalls.ForkMeans` | sched/lib/fork.c:207-251 | with the stack page zeroed and the child let go, those entries are the result of fork on memories |
| `Kernel.NextId` | sched/kern/env.c:220-224 | a new identifier ends in its slot, is positive in 32 bits, and differs from the slot's last one |
| `Kernel.NextIdIs` | sched/kern/env.c:220-225 | the identifiers of a slot go up by 4096, and start over where they would turn negative |
| `Kernel.IdsRepeat` | sched/kern/env.c:220-225 | a slot gives the same identifier to two environments exactly when their numbers differ by a multiple of 524287 |
| `Kernel.StepInv` | sched/kern/trap.c:256-313 | every allowed step of any processor keeps the lock, current-environment and message invariants |
| `Kernel.StepInvExactly` | sched/kern/syscall.c:195-214 | a step keeps the invariant if and only if it is no receive at a bad address, no destroy of a zombie, and no status change of an environment another processor runs or, to runnable, of one that waits for a message |
| `Kernel.OneInKernel` | sched/kern/spinlock.c:60-124 | in every reachable state at most one processor is in the kernel and it holds the lock; each entry took it once and each exit released it once |
| `Kernel.NeverRunsTwice` | sched/kern/env.c:504-539 | in every reachable state no environment is current on two processors, and every running or dying one is current on one |
| `Kernel.Outside` | sched/kern/trap.c:256-313 | while one processor is in the kernel, the environment of every other one is running or dying and waits for no message |
| `Kernel.LetsGo` | sched/kern/sched.c:22-155 | a processor in the kernel always has a step, and every step brings it nearer to releasing the lock |
| `Kernel.SchedulerChoice` | sched/kern/sched.c:22-128 | the scheduler may choose any runnable environment, without one the current environment if it still runs, and halts in exactly the remaining case; the halt is final exactly when every environment is free or blocked |
| `Kernel.ExactlyOnce` | sched/lib/ipc.c:22-60 | over any run the messages an environment's ipc_recv returns are, in order and with the sender's identifier, those of the successful sends to it, but for one still in its inbox |
| `Kernel.OneSendPerReceive` | sched/kern/syscall.c:388-458 | between two receives at most one send to an environment succeeds |
| `Kernel.SendWakes` | sched/kern/syscall.c:425-432 | a send to an environment that waits makes it runnable, with the value and the sender's identifier, and any processor that schedules next may pick it; any other send changes no environment |
| `Kernel.SendArrives` | sched/kern/syscall.c:389-432 | from every reachable state, after a successful send a run of the kernel ends with the receiver in user mode, its ipc_recv having returned exactly this value and sender, and nothing left to deliver |
| `Kernel.LifeCycle` | sched/kern/env.c:208-539 | what every step does to the status of an environment: which steps create, wake, run, displace, block, destroy and collect it, and that no other step does |
| `Kernel.CallReturns` | sched/kern/trap.c:303-313 | a system call that neither blocks nor ends its caller leads back to it on its own processor, with the call's effect alone |
| `Kernel.RestrictionsNeeded` | sched/kern/syscall.c:139-458 | for every kind of step excluded there is a run from boot with one such step, all others allowed, that ends with one environment on two processors: a receive at a bad address, the destruction of a zombie, waking or blocking an environment another processor runs, and waking one that waits for a message |
| `Lottery.WinnerInRange` | sched/kern/sched.c:158-170 | the winner is below the number of tickets for every seed below the modulus, wrap-around included, and is the exact fraction up to 2580 tickets |
| `Lottery.NextRandomIs` | sched/kern/sched.c:158-171 | below the modulus the product does not wrap: the next state is 2^32 times the state plus 1013904223, modulo 1664525 |
| `Lottery.DrawPermutes` | sched/kern/sched.c:158-171 | the generator permutes the states below 1664525, and this is its inverse |
| `Lottery.NeverStays` | sched/kern/sched.c:158-171 | no draw leaves the state as it is |
| `Lottery.DrawsMoveOn` | sched/kern/sched.c:158-171 | the state comes back only after a multiple of 25 draws |
| `Lottery.FirstDraw` | sched/kern/sched.c:158-171 | the first draw after boot is 767137, and 138 of 300 tickets |
| `Lottery.FractionExactly` | sched/kern/sched.c:158-170 | the winner is the exact fraction for every random number if and only if there are at most 2580 tickets |
| `Lottery.ChosenOnce` | sched/kern/sched.c:72-85 | no draw falls on two environments |
| `Lottery.ProportionalShare` | sched/kern/sched.c:72-85 | exactly tickets[i] of the draws 1 to the pool size fall on runnable environment i |
| `Lottery.ShareBelow` | sched/kern/sched.c:68-85 | of the draws below any n from the pool size on, a runnable environment wins its tickets, the first one more, and the last n less the pool size less one more |
| `Lottery.ActualShare` | sched/kern/sched.c:68-85 | of the draws below total_tickets, which include the running environment's, each runnable environment wins its tickets, the first one more, and the last also the running environment's tickets less one |
| `Lottery.Extremes` | sched/kern/sched.c:72-85 | draw 0 falls on the first runnable environment and a draw above the pool on the last |
| `Lottery.KeepsATicket` | sched/kern/syscall.c:120-131 | a caller keeps a ticket if and only if the percentage is at most 99 |
| `Lottery.ReducedExactly` | sched/kern/syscall.c:120-131 | what is taken is the percentage of the tickets rounded down; where that is nothing, or negative, one ticket is left |
| `Lottery.SwitchedOnly` | sched/kern/env.c:504-524 | a switch changes who runs and nothing else |
| `Lottery.Scheduler.constructor` | sched/kern/env.c:117-130 | all slots are free and the first is allocated first |
| `Lottery.Scheduler.GeneratePseudorandomValue` | sched/kern/sched.c:158-171 | the state becomes the next one of the congruence, and the winner is the scaled value of it, below the number of tickets |
| `Lottery.Scheduler.Draw` | sched/kern/sched.c:72-85 | the loop finds the environment the draw falls on, or the current one when none is runnable |
| `Lottery.Scheduler.SchedYield` | sched/kern/sched.c:22-93 | the drawn environment runs and the former goes back to the pool; tickets and accounting are unchanged |
| `Lottery.Scheduler.EnvAlloc` | sched/kern/env.c:208-273 | the slot freed last gets full tickets and a new identifier, and the total grows with it |
| `Lottery.Scheduler.EnvDestroy` | sched/kern/env.c:468-486 | the environment takes its tickets out of the total, and another is drawn if it was current |
| `Lottery.Scheduler.ReduceCurrentEnvPrio` | sched/kern/sched.c:197-209 | ten tickets less, or all but one, for the current environment alone; the total stays the sum |
| `Lottery.Scheduler.SchedBoost` | sched/kern/sched.c:212-223 | the loop gives every live environment full tickets and recomputes the total |
| `Lottery.Scheduler.TimerTick` | sched/kern/trap.c:231-245 | total tickets stay the sum over live environments, each with at least one, and with timer reductions only each has at least 100 less ten a tick since the boost |
| `Lottery.Scheduler.SysReducePriority` | sched/kern/syscall.c:120-131 | the total follows the caller's tickets, and the accounting stays valid if and only if the percentage is at most 99 |
| `Lottery.Scheduler.Envid2Env` | sched/kern/env.c:75-108 | 0 is the caller; any other identifier finds a live environment exactly when one has it, and with the permission check only the caller or its child |
| `Lottery.Scheduler.ReducePriorityCall` | sched/kern/syscall.c:473-476 | the call runs on into env_destroy: for every percentage it destroys the environment the percentage names, the caller for 0, or gives the bad environment error; the accounting is in order afterwards if and only if the percentage is below 100 or the caller's own identifier |
| `HeapModel.RegionsDisjoint` | malloc/malloc.c:300-361 | no byte belongs to two regions, as payload or header, so no header is written inside an object in use |
| `HeapModel.LoneRegion` | malloc/malloc.c:211-217 | a region alone in its block has exactly the size the block was mapped with |
| `HeapModel.SplitLinked` | malloc/malloc.c:301-323 | split keeps the chain of headers in step with the layout and fills the same space |
| `HeapModel.MergeLinked` | malloc/malloc.c:329-343 | merge keeps the chain of headers in step with the layout and fills the same space |
| `HeapModel.SplitTiled` | malloc/malloc.c:301-323 | split keeps every block tiled exactly |
| `HeapModel.MergeTiled` | malloc/malloc.c:329-343 | merge keeps every block tiled exactly |
| `HeapModel.GrowTiled` | malloc/malloc.c:97-136 | a new mapping is tiled by one region and disturbs no block |
| `HeapModel.TakenNeat` | malloc/malloc.c:155-186 | a region handed out holds the request, wastes under 96 bytes, and leaves sizes of at least 64 in multiples of 4 and no two free neighbours |
| `HeapModel.FreedNeat` | malloc/malloc.c:189-218 | freeing and coalescing leaves no two free neighbours, and either something in use or a single region |
| `HeapModel.TakenLive` | malloc/malloc.c:155-186 | handing out a region adds one object to its block and moves none |
| `HeapModel.FreedLive` | malloc/malloc.c:189-218 | giving back a region removes one object from its block and moves none |
| `HeapModel.PushLinked` | malloc/malloc.c:113-125 | a new block in front keeps its list doubly linked and free of duplicates |
| `HeapModel.RemoveLinked` | malloc/malloc.c:364-379 | taking a block out keeps its list doubly linked, and the head moves exactly when it was first |
| `Malloc.RoundingIsExact` | malloc/malloc.c:161-164 | up to 64 and above 2^64-4 the size is 64; between, it is the next multiple of 4 |
| `Malloc.KindFor` | malloc/malloc.c:139-150 | the smallest kind of block that holds the request and both headers |
| `Malloc.TooBig` | malloc/malloc.c:17-18 | requests refused without a search fit in no region of any block |
| `Malloc.NothingFits` | malloc/malloc.c:15-55 | three searches without a result mean that no region of any block fits |
| `Malloc.Heap.FindFirst` | malloc/malloc.c:63-73 | the earliest region of the block that fits |
| `Malloc.Heap.FindBest` | malloc/malloc.c:74-89 | the earliest of the smallest regions of the block that fit |
| `Malloc.Heap.FindInList` | malloc/malloc.c:22-31 | the choice in the first block of the list that has a fit |
| `Malloc.Heap.FindFreeRegion` | malloc/malloc.c:15-55 | null exactly when no region fits; otherwise the choice in the first block, small before medium before large |
| `Malloc.Heap.SizeThatFits` | malloc/malloc.c:139-150 | the size of the smallest kind that fits, 0 for none |
| `Malloc.Heap.GrowHeap` | malloc/malloc.c:97-136 | adds one block in front of its list; null exactly at 32 blocks, for an oversized request or without a mapping |
| `Malloc.Heap.Split` | malloc/malloc.c:301-323 | the layout's region is cut in two exactly when the rest can be a region; the heap stays sound |
| `Malloc.Heap.Merge` | malloc/malloc.c:329-343 | the layout's two regions become one; the heap stays sound |
| `Malloc.Heap.Coalesce` | malloc/malloc.c:352-361 | the region is joined with its free neighbours on both sides |
| `Malloc.Heap.Unmap` | malloc/malloc.c:364-382 | the block leaves the list its size names, and the count of blocks follows |
| `Malloc.Heap.Obtain` | malloc/malloc.c:166-175 | the search's choice, or the only region of a new block when nothing fits |
| `Malloc.Heap.Alloc` | malloc/malloc.c:155-186 | null exactly for size 0 or when nothing fits and no block can be added; otherwise the chosen region, cut to size; every heap invariant is kept |
| `Malloc.Heap.Free` | malloc/malloc.c:189-218 | null and free regions are ignored; otherwise the region is coalesced and its block unmapped exactly when it is empty; every heap invariant is kept |
| `Malloc.Heap.Calloc` | malloc/malloc.c:221-231 | the object is the one malloc gives for the product as it wraps; its bytes up to the product are 0 and no other byte changes; the object holds the product exactly unless that is one of the three largest sizes |
| `Malloc.Heap.ReallocShrink` | malloc/malloc.c:248-251 | the heap stays tiled, and stays neat if and only if nothing is cut off or the size is one malloc would choose and no free region follows |
| `Malloc.ObjectsDisjoint` | malloc/malloc.c:155-218 | objects in use never overlap |
| `Malloc.AllocAddsOne` | malloc/malloc.c:155-186 | malloc adds exactly one object and leaves all others where they were |
| `Malloc.FreeRemovesOne` | malloc/malloc.c:189-218 | free removes exactly the object it is given |
| `Realloc.NextServes` | malloc/malloc.c:254-261 | taking in the free region after an object gives it the size asked for if and only if that region is large enough, which the source does not test |
| `Realloc.PreviousFails` | malloc/malloc.c:262-279 | a result in the region before never serves: it is marked free, or another object was there and is lost |
| `Realloc.MoveServes` | malloc/malloc.c:282-288 | allocating and then freeing replaces the one object by the other and changes no third |
| `Realloc.NextNeat` | malloc/malloc.c:254-261 | taking in the next region keeps the block neat if and only if nothing is cut off or the size is a multiple of 4 |
| `Realloc.Move` | malloc/malloc.c:282-288 | null exactly when malloc fails, with nothing changed; otherwise the object is replaced by one of the size asked for, with the old contents, and no other byte changes |
| `Realloc.TakeNext` | malloc/malloc.c:254-261 | merge and split of the object's region, with the exact condition under which the object is served |
| `Realloc.TakePrevious` | malloc/malloc.c:262-279 | merge into the region before, and on into the one after: the heap stays sound, the object is never served |
| `Realloc.Grow` | malloc/malloc.c:253-289 | the object is served if and only if it moves or the free region after it is taken in and large enough; its contents then stay; the result is null exactly when a null pointer is followed, which happens for the first object of a block with a free region after it, or when it has to move and no memory is left |
| `Realloc.Resize` | malloc/malloc.c:234-289 | free for size 0, malloc for null; otherwise the object gets the size asked for, keeps its contents and disturbs no other, if and only if it shrinks or grows well; the result is null in exactly the listed cases |
| `Realloc.GoesWrong` | malloc/malloc.c:253-279 | four neat blocks, filled exactly, on which growth takes each of the failing paths |
| `Realloc.ReachesFault` | malloc/malloc.c:253-255 | malloc and then realloc to a larger size follows a null pointer |
| `Realloc.ReachesShort` | malloc/malloc.c:254-259 | calls of malloc and free after which realloc returns less than asked for |
| `Realloc.ReachesPrevious` | malloc/malloc.c:262-269 | calls of malloc and free after which realloc returns memory that is marked free |
| `Realloc.ReachesBoth` | malloc/malloc.c:272-278 | two calls of malloc after which realloc of the second object swallows the first |
| `Primes.InputElements` | fork/primes.c:47-51 | stage k is fed exactly the numbers of 2..n that none of the first k primes divides |
| `Primes.HeadIsPrime` | fork/primes.c:34-39 | the first number a stage reads is prime |
| `Primes.HeadIsKthPrime` | fork/primes.c:34-39 | the first number stage k reads is prime number k |
| `Primes.SurvivesMeans` | fork/primes.c:47-51 | passing k stages means that none of the first k primes divides the number |
| `Primes.HeadsArePrimes` | fork/primes.c:26-57 | the stages up to the first with nothing to read print exactly the primes up to n, ascending |
| `Primes.HeadsArePrefix` | fork/primes.c:26-57 | the numbers printed by any number of stages are a prefix of the primes |
| `Sieve.StepFlow` | fork/primes.c:27-57 | over every step, what a stage has read and has still to read is its input |
| `Sieve.SpawnFlow` | fork/primes.c:40-46 | a new stage will read exactly what its parent lets through |
| `Sieve.StepInv` | fork/primes.c:21-63 | every step of every process keeps the flow, pipe and output invariants |
| `Sieve.NoDeadlock` | fork/primes.c:21-63 | until all processes have ended one of them can move, for any pipe capacity |
| `Sieve.StepLosesWork` | fork/primes.c:21-63 | below the largest unsigned number, every step lowers a bound on the steps left, so every run ends |
| `Sieve.OutputIsPrefix` | fork/primes.c:39-39 | below the largest unsigned number, at every moment of every interleaving the output is a prefix of the ascending primes |
| `Sieve.StageReadsSifted` | fork/primes.c:47-51 | a stage reads only numbers that no earlier stage's prime divides |
| `Sieve.StageReadsAll` | fork/primes.c:47-51 | when all processes have ended, stage k has read exactly the numbers of 2..n that no earlier stage's prime divides |
| `Sieve.RunsPrintThePrimes` | fork/primes.c:21-63 | below the largest unsigned number, a run that can go no further has ended every process and printed exactly the primes up to n |
| `Sieve.NeverCloses` | fork/primes.c:60-62 | at the largest unsigned number the generator never leaves its loop, whatever the other processes do |
| `Sieve.FinishesExactly` | fork/primes.c:21-63 | some run ends every process if and only if the number is below the largest |
| `Stab.StabBinsearch` | sched/kern/kdebug.c:60-106 | the loops of the source return what the specification of the search describes, for every table and type |
| `Stab.FindBack` | sched/kern/kdebug.c:72-73 | the inner loop finds the last entry of the type in its half |
| `Stab.SettleBack` | sched/kern/kdebug.c:98-105 | the last loop goes back to an entry of the type or the left end |
| `Stab.TurnShrinks` | sched/kern/kdebug.c:68-94 | every turn narrows the range, or keeps it while the first entry stops matching: the search ends, exact match included |
| `Stab.TurnOk` | sched/kern/kdebug.c:68-94 | every turn keeps smaller entries on the left and larger ones on the right |
| `Stab.SearchEnds` | sched/kern/kdebug.c:60-106 | left ends above right exactly when the type does not occur; when all entries lie above the address the result is the stretch before the first of them |
| `Stab.HitsExactly` | sched/kern/kdebug.c:68-94 | the search matches its address exactly when an entry in the range still open has it |
| `Stab.WrapEnds` | sched/kern/kdebug.c:87-93 | after a match at the top address the range closes in front of that entry |
| `Stab.BracketExactly` | sched/kern/kdebug.c:26-106 | for every sorted table, range, type and address the result is the bracket of the address if and only if an entry lies at or below it and the search is not misled: it has matched the address and an entry at the next one is left in the range, or the next one wraps |
| `Stab.AgreesWithScan` | sched/kern/kdebug.c:60-106 | for an address with an entry at or below it the result is that of a linear scan if and only if the search is not misled |
| `Stab.RightWithoutSuccessor` | sched/kern/kdebug.c:60-106 | the result is the bracket of the address, and the linear scan's, for every sorted table with an entry at or below the address, when the address itself has no entry or the next address has none and does not wrap |
| `Stab.ScanIsBracket` | sched/kern/kdebug.c:26-58 | what scanning finds is a bracket |
| `Stab.BracketIsScan` | sched/kern/kdebug.c:26-58 | a bracket is what scanning finds, so there is only one |
| `Stab.SuccessorMisleads` | sched/kern/kdebug.c:87-93 | a table in which the entry after the exact match is returned |
| `Stab.TopWraps` | sched/kern/kdebug.c:87-93 | at the top address the moved address wraps and the match is lost |

## Left out

- FsDisk.Disk.WriteFile: does not cover a write that ends exactly at 32 * 4096, where the inclusive loop visits block index 32, because that access lies outside the inode's block array.
- FsDisk.Disk.Write: has the same restriction as WriteFile.
- FsDisk.Disk.Truncate: has the same restriction for a length of exactly 32 * 4096.
- FsDisk.Disk.FindInode: covers normalised absolute paths of at most 10 names, each below 256 characters, and a path length other than 1024; beyond that the source overruns its own buffers.
- FsDisk.Disk.Make: one method stands for create and mkdir, which differ in the node's kind and in one error code.
- Cow.Machine.Fork: the parent's writes to its stack before and after the two calls for that page are ordinary writes and faults, and not part of the call.
- Malloc.Heap.Calloc: for a product among the three largest sizes the clearing runs past the object and over headers, which are not part of the bytes modelled.
- Realloc.Resize: sizes above 2^64 - 4 are excluded, because malloc rounds them to the least region and the copy then runs past it.
- Realloc.TakePrevious: leaves all bytes unknown, because the places copied between may overlap and the header that gives the length may have been overwritten.
- Lottery.Scheduler.ReducePriorityCall: the product of tickets and percentage is not bounded to 32 bits; where it overflows the source is undefined.
- PageCalls.Environments.PageMap: a permission word that changes the page is excluded, because the page tables are then out of step with the counts, as OutOfStep shows.
- PageCalls: the environments named are found. User code writes to pages here only in the copy of the fault handler; all other writes are in the fork model.
- Lottery.Scheduler.TimerTick: covers one processor with live environments that are runnable or running; zombies and blocked environments are outside the ticket accounting of the source.
- fisopfs: FUSE glue, getattr and readdir, permissions, owners, timestamps, superblock counters, and saving to and loading from a file.
- fisopfs: a data block is either 4096 bytes or 8 directory slots; the byte layout of a slot is not modelled.
- Pmap.PageTables.PageInsert: the page is one its caller allocated or one that is mapped already, which is what every caller passes; page directories and tables are not inserted.
- pmap: kernel mappings above UTOP made by boot_map_region, memory-mapped I/O, the TLB, and the self-tests. Pages the boot code uses for the kernel's own tables count as reserved.
- pmap: counts are below 2^16, as a requirement of page_insert.
- Copy-on-write fork: failing system calls (the source panics), read faults on absent pages, `fork_v0`, and sharing pages by system calls outside fork. The page directory bits tested by the loop follow from the page being present.
- Kernel steps: the contents of trap frames and address spaces, the round-robin variant's order (any runnable environment may be picked), the page-transfer half of IPC, and the retry loop of `ipc_send`, of which only the last turn has an effect.
- Kernel steps: `envid2env` permission checks; any live environment may be named, which includes those the source allows.
- Lottery: statistics counters and the unused percentage of the generator.
- malloc: statistics, magic numbers, a failing `munmap`, and pointers that malloc did not return (undefined in the source). New memory comes in as an argument, apart from all blocks.
- Prime sieve: process creation failures and argument parsing; each print is one atomic line and each read and write moves one number.
- Debug symbols: the rest of debuginfo_eip.
- Assembly, device drivers, the shell and the other fork exercises.
