# Nuke: paging, memory, tasks and loading, proved

Nuke is a small x86-64 kernel with a 32-bit loader, Rocket. This project models the parts of both in which a
wrong step is hard to see, and proves what they promise, for all inputs, all runs and all reachable states.
`dafny verify dfyconfig.toml` checks everything. Offsets, masks, vectors and bounds that a specification shares with the
code are stated as plain numbers besides, so that they do not rest on the names they have in common.

## What is modelled

**Address spaces** (`Words`, `Translation`, `Hardware`, `Frames`, `AddressSpaces`, `TableEdits`, `AccessRights`,
`Paging`). Physical memory is frames of 512 entries. An entry is a 64-bit word read field by field; word and entry determine each
other, and what `PagingManager` puts into a table has gone through the shifts and masks of `PagingStructure` or is a
constant of the source. `Translation.Walk` is the translation of the AMD64 Architecture
Programmer's Manual, volume 2, section 5.3, with 4 KiB and 2 MiB leaves; `Locate` finds a table by the indices that
lead to it. `Hardware.Machine` has a translation buffer that may load the current translation of any page at any
moment and keeps what it has loaded until the page is invalidated; every load and store of the kernel goes through
it. `PagingManager` is the class of paging.cpp, store by store: `Map` and `UnMap` edit the tables of any address space
through the single scratch page of the active one, and take new tables from the free stack whose links lie in the
free frames themselves. The invariant `AddressSpaces.Sound` says that no frame holds two tables, that free frames
hold none and differ from each other, that the scratch page of the active address space leads to its scratch entry, that
free frames are reached at their own address, and that the buffer contradicts no mapped page. What `Map` and `UnMap` do
to memory is stated to the last word (`TableEdits.Stored`, `TableEdits.Emptied`), and in 64-bit numbers where it matters
to the processor: what a program may do with a page is the conjunction of what all entries on its way allow
(`AccessRights.Effective`).

**Whole runs** (`Runs`, `RunProperties`, `CallerDuties`). Any sequence of map, unmap, allocate, free and open (four
zeroed frames become an address space), on any number of address spaces, against a specification that is a function from
pages to frames, a function from tables to frames, and three sets of frames. Every sound state has such a specification
(`Runs.AbstractionRefines`). Everything about runs is proved on the specification and holds of the machine because every
run refines it; and no run writes anything but tables and the links of frames that are given back. `CallerDuties` proves
that what `Runs.Legal` asks of the callers of `Map`, `UnMap` and `PFree` is exactly what keeps the frames accounted for,
and free frames and the scratch entry within reach.

**Boot** (`Boot`, `PoolCounts`, `PoolContents`, `MemoryPool`, `Startup`). The tables that Rocket builds are the start of
the invariant; the collection of free memory by `MemoryManager::Initialize` keeps it, and is itself a run of the
specification, so that it is known exactly when it halts and what memory holds afterwards. `Startup.StartAndRun` goes the
whole way: the loader builds the tables, the static constructors run, the kernel walks its memory map, and any legal run
follows.

**The walk over the memory map** (`MapWalk`, `MapFindings`, `MapLosses`, `MapShelter`). The map lies in memory that the
walk itself gives away, so what is read depends on what has been done with the entries before. `MapWalk.Seen` says what
the kernel finds, and the loop is proved against it; the other modules say when that is what the loader has left.

**Splay tree** (`SplayShapes`, `SplaySets`, `SplayCosts`, `SplayTrees`). The pointer surgery of splay.h refines a function
on shapes; order, membership, counts and the amortised cost are proved of the shapes, and hold of the pointers over any
run (`SplayTree.Perform`).

**Tasks** (`Interrupts`, `TaskList`, `Scheduler`, `TaskRuns`). The stubs and `int_common` as a push and pop machine,
the task list, `Schedule`, and runs of the interrupted system, which `TaskRuns.Live` ties to the objects.

**Memory primitives** (`StringMoves`, `StringFills`). `memmove` and `memset` by words, on a memory that faults
outside its bounds, against the byte loops of the loader.

**Loader** (`LittleEndian`, `BootInformation`, `Backup`, `ElfLoader`). The copy of the multiboot information
(Multiboot Specification 0.6.96, section 3.3) with its relocated pointers, the kernel's walk over the memory map in
it, and the copy of PT_LOAD segments (System V gABI, chapter 5, "Program Header"). Memory is a sequence of bytes here.

**Radix conversion** (`Conversion`). `Console::Convert` and its inverse.

## What the code does not keep

Where the code falls short of what it is for, the model follows the code, and the exact condition under which it does
keep its promise is proved.

- The memory map lies above the boot tables, at 0x280000 and behind (rocket.c:74), in memory that it offers itself, and
  the kernel gives that memory away while it reads the map (kernel.cpp:65-101): each page gets a link in its first word,
  and may be taken and zeroed for a table. In every round, whatever the loader has left where the kernel still has to
  read is what it finds, if and only if no such byte lies in a table or in the link of a free frame
  (`MapFindings.UndisturbedExactly`; for single bytes, `FoundExactly`); if so, the entries are found as they are
  (`UndisturbedSeen`). That is the case when the map fits into one page, 24 bytes to spare and not at its beginning, and
  the entry that contributes the page goes on for one page more than four for each entry that reaches beyond 256 MiB
  from then on (`MapShelter.Sheltered`, `ShelteredSeen`). `MapLosses.MapLost` has a map of three entries the third of
  which is not found, because the page it lies in has become the page table of the second; `LinkFound` has one in which
  an address is read from a link.
- `Map` sets the presence bit of a new table, at each of the three levels, before it zeroes the frame behind it
  (paging.cpp:91-97, 114-120, 137-143). For that time the pages behind the entry are absent if and only if the words that
  the frame still holds lead to none (`TableEdits.PublishedEarly`); `Boot.StaleFrame` and `StaleTable` have cases in
  which they do. The translation buffer may pick up translations then, which is why the invariant says nothing about
  unmapped pages (`TableEdits.StaleKept`). `Map` invalidates the page it maps. `UnMap` invalidates its page if and only
  if there is a last-level table or a leaf for it; otherwise it leaves in the buffer what was there
  (`Paging.PagingManager.UnMap`), and a page without a translation may go on being answered (`Boot.StaleRemains`).
- What `Map` puts into a table allows everything, but a page allows only what all tables on its way do
  (`AccessRights.MapRights`). In an address space that the constructor has opened, every mapped page can be written, and
  ring 3 reaches it if and only if it lies below the last 512 GiB, over any run (`AdmittedRights`, `Runs.Run`). The boot
  tables keep ring 3 out of the first and the last 512 GiB, also of pages that `Map` adds there (`Boot.BootRights`).
- `Map` over a 2 MiB leaf drops the other 511 pages, and `UnMap` on one drops all 512 (paging.cpp:131-150, 200-207);
  `AfterMap` and `AfterUnMap` say so. `UnMap` invalidates only the page it is called with; that the processor drops
  the whole leaf from its buffer is not assumed.
- Mapping over, or unmapping, the page through which a free frame or the scratch entry is reached takes that frame out
  of reach. `Map` and `UnMap` of the active address space leave everything that is still needed within reach if and only
  if `Runs.Spares` or `Runs.Dispensable` holds (`CallerDuties.SparesExactly`, `DispensableExactly`; on every state of
  the machine, `LegalExactly`). Over a 2 MiB leaf that includes the moment at which the leaf is gone and the next frame
  is popped: `CallerDuties.LeafOut` says what is out of reach then. `CallerDuties.BootCallsFail` has a failing `Map` and
  a failing `UnMap` over the boot tables. A call for the scratch page itself leaves the tables without it
  (`ScratchLost`): that cuts off the editor unless the buffer still holds the page, in which case `Map` goes on through
  it and SetPresence restores the entry. `PFree` is harmless if and only if the frame was handed out and is reached at
  its own address (`FreeExactly`).
- The constructor of `PagingManager` writes to four frames, and `Task` hands it one (task.cpp:25). On cleared frames
  that hold no table, the invariant holds afterwards if and only if none of the four is free
  (`Paging.PagingManager.constructor`).
- `SplayTree::Remove` writes `n->Right = Root->Right` (splay.h:174) and so loses the right subtree. It deletes exactly
  the key if and only if the key is absent, least or greatest (`SplaySets.RemovedExactly`, `RemovedCount`); of three
  nodes, removing the middle one loses the last (`MiddleRemoved`). With the assignment turned round it always deletes
  exactly the key (`JoinedExactly`).
- `MemoryBlock::==` compares address and size, `<` and `>` only the address (memory.cpp:383-396). `Add` keeps the
  search order if and only if no member has the same address with another size (`SplaySets.AddedOrder`; two that do,
  `SizesClash`).
- `memmove` begins its backward word loop seven bytes too high, and its alignment loop may run the counter below zero
  (string.cpp:57-61, 79-95). `StringMoves.MemmoveExactly` says for which calls it is right, and that it is wrong for
  all others on some content of memory. `NothingFaults` and `WordTooHigh` are a call of each kind.
- `memset` sign-extends fill bytes from 0x80 on, and has the same alignment loop (string.cpp:110-129).
  `StringFills.MemsetExactly` says when it is right, for each content of memory: 0xFF is, other high bytes are not
  once a word is written (`HighByteSpreads`).
- `Convert` divides by zero when the base is a multiple of 36 and the number is not zero (console.cpp:192, 231). It
  writes two characters for the number zero and one for all others even if the stated size is less, and so runs over the
  end of a shorter buffer (console.cpp:218-224, 254).
- `Initialize` can halt on an empty free stack, because `Map` needs frames for the tables of pages above 256 MiB
  (memory.cpp:208-211). A call halts if and only if the frames at hand, counting those it has pushed before, are fewer
  than `PoolCounts.Enough` says: what the first page to be mapped and the first page behind its 2 MiB boundary lack
  (`PoolCounts.IntervalExactly`, `MemoryPool.Initialize`). A memory map never makes the kernel halt if wherever an entry
  reaches beyond 256 MiB, five frames below have come before it, and four more for each earlier entry that reached
  beyond (`MemoryPool.Supplied`); in particular, if it has no memory above 256 MiB. `HighMemoryAlone` is a map that
  makes it halt.
- `Initialize` leaves out whole pages that nothing lies in: those between the kernel and the boot tables, the one that
  ends where the kernel begins, those below the kernel if the range reaches the boot tables, and those that begin at the
  very end of kernel or tables (memory.cpp:204, 220). `MemoryPool.AcceptedExactly` says which pages are given, and
  `AcceptedWholly` that ranges apart from both are given to the last whole page.
- `MemoryStack::Pop` tests for the address of its own field, which a copied stack no longer points to
  (memory.cpp:55, 76, 103); it then hands out whatever address the field holds and counts below zero
  (`Frames.MemoryStack.Pop`). `PAlloc` tests the count first.
- `Convert` in base 1 shows 255 zeros, as far as they fit, for every number but zero (`Conversion.Convert`).
- The multiboot copy leaves the pointer to the boot loader's name as it is (rocket.c:127-131 clears the
  configuration table only), so it still points into the original memory.
- `List` never counts its elements (list.h:95-159).

## Model

| member | source | states |
|---|---|---|
| Words.EncodedEntry | src/kernel4/paging.cpp:242-298 | A 64-bit word is the only one that reads as its entry: words and entries determine each other |
| Words.PagingStructure.Clear | src/kernel4/paging.cpp:251-254 | All fields become zero |
| Words.PagingStructure.GetAddress | src/kernel4/paging.cpp:261-264 | The address has the frame bits of the entry and zeros elsewhere, and names its frame |
| Words.PagingStructure.SetAccess | src/kernel4/paging.cpp:276-280 | Changes the access field and nothing else; after the first of its two stores the field is clear |
| Words.PagingStructure.SetAddress | src/kernel4/paging.cpp:282-286 | Changes the frame and nothing else, for any address, aligned or not; after the first of its two stores the field is clear |
| Words.PagingStructure.SetCachability | src/kernel4/paging.cpp:288-292 | Changes the cache field and nothing else; after the first of its two stores the field is clear |
| Words.PagingStructure.SetPresence | src/kernel4/paging.cpp:294-298 | Changes the presence field and nothing else; after the first of its two stores the field is clear |
| Translation.LocateStep | src/kernel4/paging.cpp:83-150 | A table is found in the entry of the table above it, if that entry is present and no 2 MiB leaf |
| Translation.WalkTables | src/kernel4/paging.cpp:83-160 | The hardware walk of a page is decided by the entries of the tables that the three steps of Map go through |
| Translation.WalkDetour | src/kernel4/paging.cpp:79-160 | Frame condition: changing two entries and frames that hold no table changes no translation but those that read one of the entries, in any address space |
| Translation.Linked | src/kernel4/paging.cpp:85-98 | Linking a zeroed frame that held no table keeps all tables in separate frames and adds exactly that table |
| Hardware.Machine.Load | src/kernel4/paging.cpp:53-73 | A load through a page sees the frame that buffer and tables agree on |
| Hardware.Machine.Store | src/kernel4/paging.cpp:53-73 | A store changes one word of that frame; the buffer may be refilled from the new tables, but keeps what it has loaded |
| Hardware.Machine.Invlpg | src/kernel4/paging.cpp:62-73 | Afterwards the buffer holds for that page at most what the tables say now |
| Frames.ChainPop | src/kernel4/memory.cpp:72-91 | The link in the topmost free frame leads to the chain of the others |
| Frames.ChainPush | src/kernel4/memory.cpp:63-70 | A link written into a frame outside the chain puts that frame on top |
| Frames.PointerNumber | src/kernel4/memory.cpp:63-70 | The link in a free frame is, as a 64-bit number, the address of the next one |
| Frames.MemoryStack.Push | src/kernel4/memory.cpp:63-70 | Chain and size stay right, the frame comes on top, one word of memory changes |
| Frames.MemoryStack.Pop | src/kernel4/memory.cpp:72-91 | Takes the topmost frame and keeps the chain; with nothing pushed, halts if the field `stack` holds the address of `bottom`, and otherwise hands out the address it holds, takes the word there for the next link, and lets the count wrap |
| Frames.MemoryManager.PAlloc | src/kernel4/memory.cpp:260-284 | NULL for anything but one high frame, a halt when none is left, otherwise the topmost frame |
| Frames.MemoryManager.PFree | src/kernel4/memory.cpp:233-258 | The frame is on top of the chain, and its first word is the only one that changes |
| AddressSpaces.PathConstants | src/kernel4/paging.cpp:31-38 | address + 0x100B, 0x200B, 0x300B and 0x18F are present entries that lead to the next three frames and back to the first, for every aligned address |
| AddressSpaces.TwoStores | src/kernel4/paging.cpp:282-286 | Although the scratch entry points to frame 0 between the two stores of SetAddress, no page but the scratch page notices, and once that is invalidated the buffer is as after one store |
| AddressSpaces.SoundSelect | src/kernel4/paging.cpp:79-81 | Moving the scratch entry and invalidating the scratch page keeps the invariant and every translation but that of the scratch page |
| AddressSpaces.SoundLinked | src/kernel4/paging.cpp:85-98 | A frame popped, linked and zeroed leaves the invariant intact with one free frame less |
| AddressSpaces.SoundLeaf | src/kernel4/paging.cpp:152-160 | A last-level entry rewritten and its page invalidated keeps the invariant |
| AddressSpaces.SoundGiven | src/kernel4/memory.cpp:63-70 | A free-stack link written into a frame that holds no table changes no table and no translation |
| AddressSpaces.SpaceAdded | src/kernel4/paging.cpp:26-42 | Four frames with nothing but the path to the scratch page join the other address spaces; the invariant holds afterwards if and only if none of them is free |
| TableEdits.RegionLarge | src/kernel4/paging.cpp:200-207 | The pages of one 2 MiB region are mapped by a large leaf together or not at all |
| TableEdits.StaleWords | src/kernel4/paging.cpp:133-143 | Between SetPresence and memset, page k of the region shows what word k of the recycled frame happens to say |
| TableEdits.PublishedEarly | src/kernel4/paging.cpp:85-143 | At each of the three levels: between SetPresence and memset the pages behind the new entry are absent if and only if the words the frame still holds lead to no page |
| TableEdits.StaleKept | src/kernel4/paging.cpp:163-198 | A translation in the buffer of a page that has none in the tables does not disturb the invariant |
| TableEdits.MapWords | src/kernel4/paging.cpp:75-161 | Every word after Map: entries on the way to the page where they had to be made, the entry of the page, zero elsewhere in new tables, and otherwise what was there |
| AccessRights.EntryNumber | src/kernel4/paging.cpp:87-91 | The entry that Map makes is, as a 64-bit number, the address of the frame plus 0xF, and its own bits allow writing and ring 3 |
| AccessRights.GrantedAccess | src/kernel4/paging.cpp:276-280 | The access field of an entry is bits 1 and 2 of its word: writing and ring 3 |
| AccessRights.MapRights | src/kernel4/paging.cpp:83-160 | After Map the word of the page is the address of its frame plus 0xF, new tables are linked likewise, and the page allows exactly what the tables that were already on its way allow together: everything, if Map has made them all |
| AccessRights.AdmittedRights | src/kernel4/paging.cpp:26-42 | In an address space that admits, every mapped page but the scratch page can be written, and ring 3 reaches it if and only if it lies below the last 512 GiB |
| AccessRights.BareAdmits | src/kernel4/paging.cpp:26-42 | An address space admits as soon as the constructor has opened it |
| AccessRights.MapAdmits | src/kernel4/paging.cpp:75-161 | Map, in whatever address space, leaves every address space admitting that was |
| AccessRights.UnMapAdmits | src/kernel4/paging.cpp:163-218 | So does UnMap |
| TableEdits.MapKeeps | src/kernel4/paging.cpp:75-161 | Words of frames that hold no table afterwards are not written by Map |
| TableEdits.UnMapKeeps | src/kernel4/paging.cpp:163-218 | Nor by UnMap |
| TableEdits.EarlySteps | src/kernel4/paging.cpp:83-127 | The first two steps of Map change no translation |
| TableEdits.AllSteps | src/kernel4/paging.cpp:83-150 | After three steps the last-level table is there, the tables created are exactly the topmost free frames, and only a 2 MiB leaf in the way is lost |
| TableEdits.MapDone | src/kernel4/paging.cpp:75-161 | The states after the phases of Map add up to: invariant kept, v maps to p, everything else as AfterMap says |
| TableEdits.Dropped | src/kernel4/paging.cpp:200-217 | Clearing the presence bit and invalidating keeps the invariant, moves no table, and unmaps the page, or the 2 MiB around it |
| Paging.PagingManager.constructor | src/kernel4/paging.cpp:26-42 | Four stores and no other change to memory or to other address spaces; on cleared frames it opens an address space that maps nothing but the scratch page, and the invariant holds if and only if none of the four frames is free |
| Paging.PagingManager.Attach | src/kernel4/paging.cpp:26-42 | Run on an address space that exists already, as the kernel does on the boot tables, the four stores put down what is there, and the invariant is kept |
| Paging.PagingManager.UpdateIndexes | src/kernel4/paging.cpp:232-240 | The four indices are those of the page, and the scratch entry is that of the active address space |
| MemoryPool.PageNumber | src/kernel4/paging.cpp:232-240 | The four indices are the digits of the page number in base 512 |
| Paging.PagingManager.Select | src/kernel4/paging.cpp:79-81 | Two stores and an invalidation: whatever the buffer held, the next access through the scratch page sees the table just selected |
| Paging.PagingManager.SetEntryAddress | src/kernel4/paging.cpp:89-89 | Both stores of SetAddress go through the scratch page; the entry on show gets the frame of the address and nothing else changes |
| Paging.PagingManager.SetEntryPresence | src/kernel4/paging.cpp:202-202 | Likewise for SetPresence |
| Paging.PagingManager.WriteEntry | src/kernel4/paging.cpp:87-91 | A store through the scratch page changes that entry of the selected table and no other word, and the table stays selected |
| Paging.PagingManager.ZeroPage | src/kernel4/paging.cpp:95-97 | memset of the scratch page zeroes the selected frame and nothing else |
| Paging.PagingManager.NewTable | src/kernel4/paging.cpp:85-98 | Links the topmost free frame as an empty table, although it held a free-stack link; fails if and only if there is none |
| Paging.PagingManager.Enter | src/kernel4/paging.cpp:83-150 | One step: takes a frame if and only if the table is missing or a 2 MiB leaf stands in its place, and selects the next table |
| Paging.PagingManager.EnterAll | src/kernel4/paging.cpp:83-150 | Three steps take exactly as many frames as tables are missing |
| Paging.PagingManager.Map | src/kernel4/paging.cpp:75-161 | For the active or any other address space: halts if and only if fewer frames are free than tables are missing; otherwise the invariant holds, v maps to p, no other translation changes but in a 2 MiB leaf over v and the scratch page, and no stale translation of v is left; and every word of memory is as these stores leave it, new tables being the topmost free frames in order; the words of the page and of new tables are addresses plus 0xF, and the page allows what the older tables on its way allow |
| Paging.PagingManager.Follow | src/kernel4/paging.cpp:171-211 | Reads an entry and, if it leads to a table, selects that table |
| Paging.PagingManager.Drop | src/kernel4/paging.cpp:202-217 | Clears presence and invalidates: the page, or the 2 MiB around it, is unmapped, and the invariant kept |
| Paging.PagingManager.UnMap | src/kernel4/paging.cpp:163-218 | Afterwards v is unmapped, with the rest of its 2 MiB leaf if there was one; no other word of memory changes than the presence bit and the scratch entry, and no table is given back; v leaves the buffer whenever there is a last-level table or a leaf for it, and otherwise what the buffer holds of v is what it held before |
| Paging.OpenSpace | src/kernel4/kernel.cpp:104-110 | Four frames are zeroed and the constructor runs: a new address space with nothing but its scratch page, and no other word, table or translation changes |
| Runs.AbstractionRefines | src/kernel4/paging.cpp:75-218 | Every sound state realises a specification: its own translations, tables and free frames |
| Runs.MapRefines | src/kernel4/paging.cpp:75-161 | Map is one step of the specification: a partial function updated at one page, frames moved from free to table |
| Runs.UnMapRefines | src/kernel4/paging.cpp:163-218 | UnMap is one step of the specification |
| Runs.FreeRefines | src/kernel4/memory.cpp:233-258 | PFree is one step of the specification: the link it writes is invisible to all translations |
| Runs.AllocRefines | src/kernel4/memory.cpp:260-282 | PAlloc(1) is one step of the specification |
| Runs.OpenRefines | src/kernel4/kernel.cpp:104-110 | Opening an address space is one step of the specification |
| Runs.MapWhere | src/kernel4/paging.cpp:83-150 | Tables that Map makes are in the topmost free frames, the upper levels first |
| Runs.Step | src/kernel4/paging.cpp:75-218 | One operation of the kernel does what the specification says, halts exactly when it does, and writes no word but those of tables and the link of a frame given back; address spaces that admit go on admitting, and new ones do |
| Runs.Run | src/kernel4/paging.cpp:75-218 | Every legal run from every sound state refines the specification; whatever is no table in the end, such as a frame handed out throughout, keeps its contents, but for the first word of frames given back; in every address space opened by the run, mapped pages can be written and are reached from ring 3 below the last 512 GiB |
| CallerDuties.SparesExactly | src/kernel4/paging.cpp:75-161 | Map in the active address space leaves every frame that is still free and the scratch entry within reach, and the popped frame while a 2 MiB leaf is being replaced, if and only if the page spares them |
| CallerDuties.DispensableExactly | src/kernel4/paging.cpp:163-218 | UnMap in the active address space leaves every free frame and the scratch entry within reach if and only if none is reached through the page or the 2 MiB leaf around it |
| CallerDuties.LegalExactly | src/kernel4/paging.cpp:75-218 | In every state of the machine and for every address space, what is asked of the callers of Map and UnMap is exactly what keeps the call harmless |
| CallerDuties.FreeExactly | src/kernel4/memory.cpp:233-258 | PFree leaves each frame in one place, loses and invents none, and keeps the free stack within reach if and only if the frame was handed out, is reached at its own address and is not taken for the bottom of the stack |
| CallerDuties.MapNeeds | src/kernel4/paging.cpp:75-161 | On the machine: the invariant after Map implies that nothing needed was in the way |
| CallerDuties.UnMapNeeds | src/kernel4/paging.cpp:163-218 | On the machine: the invariant after UnMap implies that the page was needed by nobody |
| CallerDuties.LeafOut | src/kernel4/paging.cpp:131-135 | While the entry of a 2 MiB leaf is clear, exactly the frames reached through that leaf have no translation |
| CallerDuties.ScratchLost | src/kernel4/paging.cpp:152-160 | Clearing the scratch entry makes the scratch page unmapped, and no address put into the entry brings it back |
| CallerDuties.BootCallsFail | src/kernel4/paging.cpp:129-160 | Over the boot tables, with frame 0x300 free, Map and UnMap of page 0x200 take the free frame and the scratch entry out of reach, and are not legal |
| CallerDuties.WindowStays | src/kernel4/paging.cpp:163-218 | The scratch page of an inactive address space outlives every Map, and every UnMap but its own |
| CallerDuties.TableOverlaid | src/kernel4/paging.cpp:31-38 | If a frame that the constructor writes to holds a last-level table, the last page of that table shows another frame afterwards |
| RunProperties.Conservation | src/kernel4/memory.cpp:233-282 | Over a run no frame is lost, invented, or in two of free stack, tables and handed out |
| RunProperties.Untouched | src/kernel4/paging.cpp:75-218 | Pages that no operation of a run names keep their translation in every address space |
| RunProperties.InactiveEdits | src/kernel4/paging.cpp:77-160 | Any sequence of edits of inactive address spaces changes no translation of the active one |
| RunProperties.LastWins | src/kernel4/paging.cpp:75-218 | In any run the last operation on a page decides what it maps to |
| RunProperties.MapUnMap | src/kernel4/paging.cpp:75-218 | Unmapping undoes mapping, in every address space, if no 2 MiB leaf was in the way |
| Boot.LowConstants | src/rocket/paging.c:27-30 | address + 0x400B and 0x500B are present entries that lead to the fifth and sixth frame |
| Boot.BootTables | src/rocket/paging.c:24-46 | The boot tables are a well-formed tree: which tables exist, and where |
| Boot.BootWalk | src/rocket/paging.c:24-46 | They translate the first 256 MiB to themselves, the top page to the root table, and nothing else |
| Boot.BootIdentity | src/rocket/paging.c:34-37 | Exactly the pages below 0x10000000 are identity mapped |
| Boot.BootRights | src/rocket/paging.c:24-46 | The boot tables allow writing and keep ring 3 out, of what they map and of all that Map adds in the first and last 512 GiB |
| Boot.BootTableFrames | src/rocket/paging.c:22-49 | The tables lie in the first six of the eight frames set aside |
| Boot.BootSound | src/rocket/paging.c:22-49 | The boot tables, with any buffer they allow, satisfy the invariant |
| Boot.PagingInitialize | src/rocket/paging.c:22-49 | On zeroed memory, the boot tables are built at the next page boundary and no other frame changes |
| Boot.StaleFrame | src/kernel4/paging.cpp:133-143 | Over the boot tables, a recycled frame with a word that looks present maps the first page beyond 256 MiB to a frame nobody asked for, until it is zeroed |
| Boot.StaleTable | src/kernel4/paging.cpp:91-97 | Likewise for a new page-directory-pointer table: two stale words make a 2 MiB leaf out of nothing |
| Boot.StaleRemains | src/kernel4/paging.cpp:173-198 | A sound state over the boot tables in which UnMap returns early although the buffer holds its page, and the processor may keep it |
| Boot.ConstructorOnBoot | src/kernel4/paging.cpp:26-42 | Running the constructor on the boot tables changes nothing |
| MemoryPool.AcceptedApart | src/kernel4/memory.cpp:199-231 | Pages that are pushed lie inside the range and overlap neither the kernel image nor the 0x8000 bytes of boot tables |
| MemoryPool.AcceptedExactly | src/kernel4/memory.cpp:199-231 | A page is pushed if and only if it lies in the range as a whole and either ends below the kernel, with the range ending below the boot tables, or begins behind the first byte after both; stated without rounding |
| MemoryPool.AcceptedWholly | src/kernel4/memory.cpp:204-215 | Of a range below kernel and tables, or above them, exactly the pages that lie in it as a whole are pushed; pages between kernel and tables never are |
| MemoryPool.LowMemoryGiven | src/kernel4/memory.cpp:199-231 | Of 0 to 0x9FC00, with the kernel at 1 MiB, exactly the frames 0 to 0x9E are pushed |
| PoolCounts.GivenStep | src/kernel4/memory.cpp:206-214 | One more page of an interval: given or halted as the count of frames says, which tables exist and how many frames are free afterwards |
| PoolCounts.IntervalExactly | src/kernel4/memory.cpp:206-214 | All pages of an interval can be given if and only if the frames at hand cover what the first page to be mapped, and the first one in the next 2 MiB, lack; and exactly those frames are used up |
| PoolCounts.FiveSuffice | src/kernel4/memory.cpp:206-214 | Five frames are enough for any interval, and no interval uses up more than four |
| MemoryPool.AcceptedInterval | src/kernel4/memory.cpp:199-231 | The pages that the two loops push have no gap |
| MemoryPool.Give | src/kernel4/memory.cpp:208-211 | Halts if and only if the page has to be mapped and fewer frames are free than its tables need; otherwise the page is pushed and every link is written and read through an identity-mapped page |
| MemoryPool.CollectingPage | src/kernel4/memory.cpp:206-230 | A page about to be pushed is reached at its own address and holds no table |
| MemoryPool.MapCollecting | src/kernel4/memory.cpp:206-230 | Later Map calls never undo the identity of the pages in the pool |
| MemoryPool.Initialize | src/kernel4/memory.cpp:199-231 | Halts if and only if the frames are not enough for the range; otherwise exactly the accepted pages of the range join the pool, none of them is lost but to page tables, and memory holds what the specification says; of all frames that had been handed out, exactly those that the range offers, in terms of addresses, are free or tables afterwards |
| MemoryPool.GivenExactly | src/kernel4/memory.cpp:199-231 | What the calls for a range come to: every frame offered is free or a table in the end, and every other one is where it was |
| PoolContents.EntryStored | src/kernel4/paging.cpp:83-160 | While memory is collected, every entry of a table that Map has made leads where the specification says and is zero otherwise |
| PoolContents.MapContents | src/kernel4/memory.cpp:206-214 | Mapping a page of the pool changes frames that hold no table in no word |
| MemoryPool.BootCollecting | src/kernel4/kernel.cpp:49-65 | The boot tables are a state in which collecting can start |
| MemoryPool.NewPages | src/kernel4/kernel.cpp:65-101 | Entries of the memory map that do not overlap contribute different pages |
| MemoryPool.SuppliedSuffices | src/kernel4/kernel.cpp:65-101 | A supplied memory map never makes the kernel halt, and leaves at least the frames it has below 256 MiB less four for each entry beyond |
| MapWalk.ShownRight | src/kernel4/kernel.cpp:65-101 | What memory holds during the walk is a function of what it held at the start and of the specification: tables, links, and otherwise the old words |
| MapWalk.OctetsJoin | src/kernel4/kernel.cpp:65-101 | The eight bytes of a word, the lowest first, make up the word |
| MapWalk.CollectMap | src/kernel4/kernel.cpp:65-101 | The walk, with the collection of each entry before its size is read again: it finds what Seen says, halts if and only if the calls for that do, never on a supplied map, and otherwise each frame of the entries found is in the end either free or a page table, and only those frames are free |
| MapFindings.FoundExactly | src/kernel4/kernel.cpp:65-101 | A byte is found as the loader has left it, whatever it is, if and only if it lies in no table and in no link |
| MapFindings.UndisturbedExactly | src/kernel4/kernel.cpp:65-101 | So are all bytes that the kernel still has to read, in every round, if and only if the walk is undisturbed |
| MapFindings.UndisturbedSeen | src/kernel4/kernel.cpp:65-101 | An undisturbed walk finds the entries as they are, up to the one at which the kernel halts, if it does |
| MapLosses.MapTaken | src/kernel4/memory.cpp:206-214 | With the map in the last page of the first entry, the second entry turns that page into its page table |
| MapLosses.MapLost | src/kernel4/kernel.cpp:65-101 | Of the third entry the kernel then finds nothing, and its frames are neither free nor tables in the end |
| MapLosses.LinkFound | src/kernel4/kernel.cpp:65-101 | In a map that runs on into the next page the kernel finds, in place of an address, the link it has just written |
| MapShelter.IntervalEnds | src/kernel4/memory.cpp:206-214 | Whatever an interval takes for tables, the frames five below the top of the free stack stay where they are |
| MapShelter.NeverTaken | src/kernel4/kernel.cpp:65-101 | A page that is covered by enough others of its entry never becomes a table |
| MapShelter.ShelteredSeen | src/kernel4/kernel.cpp:65-101 | The walk of a sheltered map, which is a condition on the map alone, is undisturbed |
| MemoryPool.BootRefines | src/kernel4/kernel.cpp:49-65 | The machine on the boot tables realises a specification that is written down without looking at memory |
| MemoryPool.HighMemoryAlone | src/kernel4/memory.cpp:199-231 | A memory map with one page, the first beyond 256 MiB, makes the kernel halt |
| Startup.Start | src/kernel4/kernel.cpp:31-101 | From the loader's tables through the static constructors and the kernel's own to the end of the walk: halts exactly when the specification does, otherwise has arrived where the specification has, and has written nothing but tables and links |
| Startup.UndisturbedStarts | src/kernel4/kernel.cpp:65-101 | On an undisturbed map that is the state in which all entries have been collected |
| Startup.CopiedMap | src/rocket/rocket.c:74-145 | The map that the kernel starts to walk is the one that the loader was given |
| Startup.StartAndRun | src/kernel4/kernel.cpp:31-119 | From the boot tables, every legal run: halts exactly when the specification does, otherwise realises its outcome, and leaves alone what is neither table nor link; all address spaces but the first admit |
| Startup.StartConserves | src/kernel4/kernel.cpp:47-119 | After any such run the frames of the memory map and of the boot tables are each free, a table or handed out, in one of these places only, and there are no others |
| SplayShapes.SplayedInorder | src/include/splay.h:208-280 | Splaying keeps the exact in-order sequence of nodes, whatever the keys |
| SplayShapes.TopDownInorder | src/include/splay.h:220-279 | The loop keeps the sequence of left side tree, middle tree and right side tree |
| SplayShapes.RoundNarrows | src/include/splay.h:220-274 | Every round keeps the left side below and the right side above the key, and stops only when the middle tree is split by it |
| SplayShapes.SplayedSplits | src/include/splay.h:208-280 | A search tree stays one, everything left of the root is below the key and everything right above; a key that is present is at the root |
| SplayCosts.SplayedPulled | src/include/splay.h:208-280 | The loop with its two side trees does what a recursion without them does: zig and zig-zig steps from the bottom of the search up |
| SplayCosts.DepthHalved | src/include/splay.h:208-280 | The depth law: every node that the search comes by ends at most half as deep as it was, plus two |
| SplayCosts.ChainSplayed | src/include/splay.h:220-274 | A left chain of three nodes, splayed for the last, becomes the right chain of the same three |
| SplayCosts.RankPower | src/include/splay.h:208-280 | The rank of a number is its logarithm to the base two, rounded down |
| SplayCosts.SplayAmortised | src/include/splay.h:208-280 | The rounds of one splay and what it adds to the potential are at most six times the logarithm of the number of nodes, plus one |
| SplayCosts.CallAmortised | src/include/splay.h:95-199 | Any call of Add, Search or Remove takes, with what it adds to the potential, at most twelve times the logarithm plus two rounds |
| SplayCosts.RunAmortised | src/include/splay.h:95-199 | Any run of m calls on a tree of n nodes takes, with what it adds to the potential, at most m times twelve times the logarithm of n plus m, plus two rounds for each call |
| SplayCosts.RunBounded | src/include/splay.h:95-199 | Any m calls from the empty tree take at most m times twelve times the logarithm of m plus two rounds in all |
| SplaySets.SearchFinds | src/include/splay.h:182-199 | Search finds a key if and only if it is a member |
| SplaySets.AddedMembers | src/include/splay.h:105-136 | Add inserts the key and nothing else; a key that is found changes neither set nor count |
| SplaySets.AddedOrder | src/include/splay.h:105-136 | Add keeps the search order if and only if no member has the same address and another size |
| SplaySets.RemovedExactly | src/include/splay.h:154-179 | Remove as written deletes exactly the key if and only if it is absent, least or greatest |
| SplaySets.RemovedCount | src/include/splay.h:154-179 | For a key that is present the tree loses exactly one node, as Elements does, in the same cases only |
| SplaySets.MiddleRemoved | src/include/splay.h:154-179 | Of three nodes, removing the middle one leaves only the first |
| SplaySets.SizesClash | src/kernel4/memory.cpp:383-396 | Adding a block at the address of another with a different size leaves no search tree |
| SplaySets.JoinedExactly | src/include/splay.h:154-179 | With line 174 turned round, Remove deletes exactly the key from every search tree |
| SplaySets.CallRefines | src/include/splay.h:95-199 | One call keeps the tree a picture of the set if and only if the call fits, which is judged by the set alone |
| SplaySets.RunRefines | src/include/splay.h:95-199 | Any run of fitting calls refines a finite ordered set |
| SplayTrees.AssembleLHangs | src/include/splay.h:276-279 | The nodes linked to the right of the dummy, with the rest hung at the open end, are one proper tree |
| SplayTrees.AssembleRHangs | src/include/splay.h:276-279 | The mirror image, to the left of the dummy |
| SplayTrees.SplayTree.Turn | src/include/splay.h:220-274 | One round on the pointers does what the round on shapes does, on the same nodes |
| SplayTrees.SplayTree.Splay | src/include/splay.h:208-280 | The pointers end up in the splayed shape on the same set of nodes, acyclic; the loop ends because the middle tree shrinks, and takes as many rounds as SplayCosts.Cost says |
| SplayTrees.SplayTree.Add | src/include/splay.h:105-136 | The new shape, with Elements following the node count; a node whose key is found, or which is in the tree already, changes nothing but the shape |
| SplayTrees.SplayTree.Search | src/include/splay.h:182-199 | Returns the root with the key if and only if the key is a member of the search tree, otherwise null |
| SplayTrees.SplayTree.Remove | src/include/splay.h:154-179 | The shape that is left, Elements one less if the key was found, and where the assignment of line 174 went: into the node that has left the tree |
| SplayTrees.SplayTree.Perform | src/include/splay.h:95-204 | Any run of Add, Search and Remove on the pointers ends in the shape the model says; Elements is the number of nodes in any run without Remove, and in any run whose calls fit, where the tree is the ordered set as well; m calls on an empty tree take at most m times twelve times the logarithm of m plus two rounds of the loop |
| Interrupts.Processor.Deliver | src/kernel4/isrs.asm:23-92 | What processor and stub leave on the stack: the interrupted rip, cs, rflags, rsp and ss, the error code for vectors 8, 10 to 14 and 17 and zero for all others, and the vector |
| Interrupts.Processor.Save | src/kernel4/isrs.asm:94-118 | The stack holds a TaskState of the interrupted registers, field by field |
| Interrupts.Processor.Restore | src/kernel4/isrs.asm:121-145 | Whatever TaskState lies on the stack is in the registers afterwards, and the stack is as before the interrupt |
| Interrupts.ResumeCaptured | src/kernel4/isrs.asm:94-145 | An interrupt whose handler leaves the frame alone returns every register unchanged |
| TaskList.List.Add | src/include/list.h:95-109 | The node is appended, in both directions of links |
| TaskList.List.Remove | src/include/list.h:133-159 | Exactly that node leaves the sequence; both ends and both directions of links stay right |
| TaskList.List.Search | src/include/list.h:168-202 | The first node with the data, or the last in reverse; null if and only if there is none |
| Scheduler.TaskManager.Schedule | src/kernel4/task.cpp:92-114 | The frame goes to the task that was running, if any, the successor in the list runs, and its saved frame comes back; no other saved frame changes |
| Scheduler.TaskManager.AddTask | src/include/list.h:95-109 | A new task comes last and nothing else changes |
| TaskRuns.Passage | src/kernel4/isr.cpp:116-134 | Stub, int_common, handle_interrupt and return together are one interrupt step of the run model, on registers, stack and tasks; in numbers: vectors below 0x20 halt, 0x20 to 0x2F save the running task and resume the one behind it or the first, all others change nothing |
| TaskRuns.InterruptCases | src/kernel4/isr.cpp:116-134 | The three cases of a vector, as numbers, and which task is saved and which resumed |
| TaskRuns.Live | src/kernel4/isr.cpp:116-134 | Any sequence of steps, interrupts and new tasks on the processor and the linked list is a run of the model |
| TaskRuns.EventProjection | src/kernel4/task.cpp:92-114 | No event changes the registers of a task but its own work |
| TaskRuns.TraceProjection | src/kernel4/task.cpp:92-114 | With interrupts erased, what a task goes through in any interleaving is a run of that task alone on the inputs it answered |
| TaskRuns.SavedUntouched | src/kernel4/task.cpp:92-114 | No saved state but that of the interrupted task is written |
| TaskRuns.EveryTaskRuns | src/kernel4/task.cpp:92-111 | A task runs within its distance in the list plus the number of appends |
| TaskRuns.EveryTaskRunsInTime | src/kernel4/task.cpp:92-111 | Fairness: every task runs within as many calls as there are tasks, plus the number of appends |
| TaskRuns.RoundRobin | src/kernel4/task.cpp:92-111 | Any n consecutive calls on an unchanged list of n tasks run each task exactly once |
| TaskRuns.TurnAfter | src/kernel4/isr.cpp:116-125 | Whose turn it is after any run of events, by the number of vectors 0x20 to 0x2F in it; a scheduler that nothing ran on begins with the first task |
| TaskRuns.EveryTaskResumed | src/kernel4/isr.cpp:116-125 | Fairness over runs of events: without exceptions, every task is resumed in any run with as many vectors 0x20 to 0x2F as its distance and the arrivals add up to |
| TaskRuns.EachResumedOnce | src/kernel4/isr.cpp:116-125 | In any run of events with n vectors 0x20 to 0x2F, none below and no arrival, each of n tasks is resumed by exactly one of them |
| StringMoves.WordsUpMoves | src/libnuke/string.cpp:66-69 | Whole words copied upwards move the bytes they cover, however dest and src overlap |
| StringMoves.HandledMoves | src/libnuke/string.cpp:26-105 | A handled call leaves memory as the plain move does, whatever the overlap |
| StringMoves.UnderflowFaults | src/libnuke/string.cpp:57-61 | A counter that runs below zero makes memmove leave memory |
| StringMoves.BackwardWordsForget | src/libnuke/string.cpp:79-95 | The backward word loop leaves a byte of the destination as it was |
| StringMoves.MemmoveExactly | src/libnuke/string.cpp:26-105 | memmove is right on every content of memory if and only if the alignment loop does not underflow and no word is moved backwards |
| StringMoves.NothingFaults | src/libnuke/string.cpp:57-61 | Moving no bytes at address 1 leaves memory |
| StringMoves.WordTooHigh | src/libnuke/string.cpp:79-95 | One word moved from 0 to 16 moves bytes 7 to 14 to 23 instead |
| StringMoves.Memmove | src/libnuke/string.cpp:26-105 | The loops in place: they fault or end as the phases say |
| StringMoves.ByteMemmove | src/rocket/string.c:28-52 | The byte loop moves exactly the bytes it is meant to and touches nothing else |
| StringFills.WordRepeats | src/libnuke/string.cpp:122-129 | What the word that memset builds looks like, for every fill byte |
| StringFills.FillableFills | src/libnuke/string.cpp:107-144 | A fillable call sets exactly its bytes |
| StringFills.MemsetExactly | src/libnuke/string.cpp:107-144 | For every content of memory, memset is right if and only if the call is fillable |
| StringFills.HighByteSpreads | src/libnuke/string.cpp:107-144 | Eight bytes filled with 0x80 come out as 0x80 and seven times 0xFF |
| StringFills.Memset | src/libnuke/string.cpp:107-144 | The loops in place: they fault or end as the phases say |
| StringFills.ByteMemset | src/rocket/string.c:54-64 | The byte loop sets exactly its bytes and touches nothing else |
| BootInformation.Strlen | src/rocket/string.c:79-89 | The length up to and including the first zero byte |
| BootInformation.ViewBytes | src/rocket/multiboot.h:60-87 | Which bits of which byte say what is there, and at which offset the pointers and counts lie, as numbers |
| BootInformation.ModuleBytes | src/rocket/multiboot.h:40-46 | The record of a module, byte by byte |
| BootInformation.FirstVisited | src/kernel4/kernel.cpp:65-101 | The fields of an entry of the memory map at offsets 4, 12 and 20, type 1 for available memory, and where the next entry begins |
| BootInformation.SameEntries | src/kernel4/kernel.cpp:65-101 | A memory map moved elsewhere is walked entry by entry as before |
| BootInformation.VisitedRegions | src/kernel4/kernel.cpp:65-101 | Entries of at least 24 bytes, in memory that stands still, are read as they are |
| Backup.NamesLaid | src/rocket/rocket.c:91-96 | After k rounds k strings lie one behind the other, each named by its record; the rest of the table is as it was |
| Backup.CopyLaid | src/rocket/rocket.c:74-145 | Command line, module table, names and memory map lie consecutively behind the structure, with relocated pointers and equal content; the size field counts all of it and the flags of dropped parts are clear |
| Backup.LayoutBytes | src/rocket/rocket.c:74-145 | The pointers in the copy, at offsets 16, 24 and 48, and its size at 94, as numbers from 0x280000 on |
| Backup.CopyReads | src/rocket/rocket.c:74-145 | Whoever reads the copy through its own pointers learns what the original says, and no byte outside the copy changes |
| Backup.CopyDrops | src/rocket/rocket.c:99-145 | Unsupported fields are zero exactly when their flag was set |
| Backup.KernelSees | src/rocket/rocket.c:74-145 | The copied memory map, as the loader leaves it, has the regions of the original |
| Backup.TakeString | src/rocket/rocket.c:80-82 | A string outside the copy is appended, its pointer moved, and the size kept up to date |
| Backup.CopyAll | src/rocket/rocket.c:74-145 | The stores in place, in the order of the loader, produce the copy |
| Backup.Backup | src/rocket/rocket.c:74-145 | All of it together: layout, meaning, dropped fields, and nothing else touched |
| ElfLoader.ModuleKept | src/rocket/rocket.c:205-214 | Loading leaves the module alone, so headers read again in later rounds are the same |
| ElfLoader.LoadedStep | src/rocket/rocket.c:208-213 | One more segment does not disturb the earlier ones |
| ElfLoader.LoadedUnique | src/rocket/rocket.c:205-214 | The loaded image does not depend on the order of the headers |
| ElfLoader.LoadedAgain | src/rocket/rocket.c:205-214 | Loading a second time changes nothing |
| ElfLoader.KernelBytes | src/rocket/rocket.c:187-203 | The checks of the file header, in bytes and numbers |
| ElfLoader.SegmentSays | src/rocket/elf64.h:99-109 | What each program header means for each byte of memory, by offsets 0, 8, 16, 32 and 40 |
| ElfLoader.LoadedImage | src/rocket/rocket.c:205-214 | In numbers: the bytes from the address at offset 16 on are those of the module from the offset at 8 on, as many as the number at 32, then zeros up to the number at 40; all other bytes are as before |
| ElfLoader.Load | src/rocket/rocket.c:184-214 | Refuses anything but an x86-64 little-endian executable; otherwise each segment's file bytes are followed by zeros up to its memory size and all other memory is unchanged; both stated in byte offsets and numbers |
| Conversion.DigitsValue | src/kernel4/console.cpp:228-241 | The digits of a number stand for it |
| Conversion.PrefixValue | src/kernel4/console.cpp:248-251 | Cutting digits off divides by the base that many times |
| Conversion.FixedDigitsValue | src/kernel4/console.cpp:200-213 | k digits with leading zeros stand for the number if it has no more than k |
| Conversion.ShownCharacters | src/kernel4/console.cpp:228-241 | Each digit is shown by its character: 0 to 9, and from ten on the letters from A on |
| Conversion.Convert | src/kernel4/console.cpp:184-255 | Divides by zero exactly for a base that is a multiple of 36 and a number that is not zero; overruns the buffer exactly if that is shorter than two characters for the number zero, or empty; otherwise the buffer shows the leading digits that fit, zeros only in base 1, and nothing behind its stated size changes but what these two cases write |
| Conversion.RoundTrip | src/kernel4/console.cpp:184-255 | In bases 2 to 35 the text reads back as the number without a leading zero; a short buffer reads back as the number divided by the base to the count of digits cut |
| Conversion.FixedRoundTrip | src/kernel4/console.cpp:197-214 | HexFixed shows the leading ones of sixteen digits; they read back as the number divided by 16 to the count of digits cut, and with room for all sixteen as the number |

## Left out

- Words.PagingStructure.GetCachability and GetAccess: not called by Map or UnMap; GetAccess shifts by the wrong amount.
- Paging.PagingManager.Map: the scratch page of the active address space is excluded (CallerDuties.ScratchLost), also where the buffer still holds it; the bits of the virtual address above bit 51 that Invalidate sees and UpdateIndexes does not are not modelled, so addresses are frame numbers.
- Paging.PagingManager.UnMap: the scratch page of the active address space is excluded; CallerDuties.ScratchLost says what becomes of it.
- Paging.PagingManager.constructor: frames that cannot be reached, or that hold tables already; `Task` hands it a single frame (task.cpp:25), and of a run in which one of the three behind it is a table only CallerDuties.TableOverlaid is said.
- Hardware.Machine.Invlpg: global entries, 1 GiB pages, accessed and dirty bits, paging-structure caches, cachability, and a check of the access rights on loads and stores (AccessRights says what they are); loading CR3 after startup (Startup.Activate is the first time).
- MemoryPool.Initialize: ranges that wrap round 2^64 or reach beyond the last page whose number is unique; the page at the very top.
- MapWalk.CollectMap: is specified where the entries found are ranges that do not overlap; what the kernel does with entries that it reads from overwritten bytes and that offer frames twice is not described.
- Runs.Run: the contents of frames are described for frames that hold no table; the operations of tasks on their own memory are not part of a run.
- SplayTrees.SplayTree.Remove: the overload that takes a key dereferences the result of a failed Search (splay.h:141), and deletes nodes; neither is modelled. The ordering is that of MemoryBlock rather than of any T.
- SplayTrees.SplayTree.Add: a node that comes with children of its own into an empty tree.
- TaskList.List.Add: only the default index; Add, Search and Remove by index and Size depend on the count that is never kept.
- TaskList.List.Search: an element is compared by equality of data, without dereferencing.
- Interrupts.Processor.Save: the registers that handle_interrupt itself clobbers, and the alignment the processor gives the stack; all registers are restored from the frame afterwards.
- TaskRuns.TraceProjection: is about the register frame; CR3 per task and memory shared between tasks are not part of a task's state here, and a task's memory is part of its inputs. Interrupt 81 and the console are without effect on the frame.
- Scheduler.TaskManager.Schedule: the frame is passed in and out instead of by its address, and Task's constructor (descriptor selectors, initial mappings) is not modelled.
- StringMoves.Memmove: memory that exists lies below 2^63, and the regions a faulting call has overwritten before the fault are not described.
- Backup.Backup: sources have to lie outside the copy and strings have to end; what the loader does to overlapping sources is not described. Flag bits are tested in the byte that holds them.
- Backup.KernelSees: memory maps with entries shorter than 24 bytes, where the kernel would read on behind the copied entry.
- ElfLoader.Load: segments that overlap each other or the module; the search for the module with `--kernel` in its name.
- VAlloc, VFree and MemoryBitmap: VAlloc passes its flag as a block count, VFree ignores what it reads, the bitmap is a stub.
- Startup.StartAndRun: the switch to new paging structures in Kernel::Kernel, which relies on PAlloc(4) and gets NULL; the run goes on over the boot tables. Boot tables that overlap the frames 0x300 to 0x303, where a static constructor writes.
- Console drawing, GDT and IDT packing, port I/O, cpuid, reboot and the assembly that enters long mode.
