# Nachos kernel core, modelled in Dafny

This project models part of the Nachos teaching kernel (Java):

- **Indirect file blocks.** `singleBlock` is a sector holding a table of 32 sector numbers. `doubleBlock` is a table of 32 such children. The model covers growth (`allocateAdditional`), `deallocate`, the on-disk form (`fetchFrom`/`writeBack`) and the offset-to-sector translation (`byteToSector`).
- **User memory.** `MemoryManager` hands out physical pages from the top down and takes them back. `AddrSpace` builds page tables for a program and for forked threads, translates virtual addresses, frees a space or a thread's stack, and reads strings from user memory.
- **Console.** `ConsoleDriver` has a bounded output queue whose echo does line editing: backspace, Ctrl-U kill, Ctrl-R retype. The console system calls `write` and `read` feed characters through it.
- **Scheduler.** `MultilevelQueueOperator` keeps a list of FIFO levels (`LevelQueue`), each with a quantum that doubles from one level to the next. `SubNachosThread` carries the tick counters and flags the scheduler updates.

State that Java changes in place is modelled as classes:

- tables are `array<int32>`;
- the page array is an `array<int32>`;
- queues, lines and buffers are `seq` fields that methods reassign.

Each method is proved against a specification function, and the properties that matter are lemmas about those functions:

- decoding a written table gives it back (`StoreChildrenReadBack`, `DecodeEncode`);
- growth, in both tiers, takes exactly the sectors the new bytes need, each one newly marked and no sector twice (`Grant`, `TablesGrown`, `Fresh`);
- `allocatePMP` takes the highest free pages (`TakenPages`, `TakenHighest`);
- the echo keeps a terminal screen showing the edited line (`EchoDisplaysLine`);
- the loop of `read` computes the edited text of the keys it takes (`RunEdits`);
- the thread multiset grows and shrinks by exactly the thread that `offer` adds and `poll` removes (`OfferAdds`, `PollRemoves`).

Java `int` arithmetic wraps explicitly where it can overflow (`Wrap32`). Java's long and int division rounds toward zero; it is written out where operands can be negative (`RoundToPage`, `ExecPages`).

## Notes on the source

- **Free count in `allocateAdditional`.** The javadoc at singleBlock.java:80 says the method returns true when the space is added and false when it cannot be. The code takes the sectors with `find()` first (singleBlock.java:100-104, doubleBlock.java:113-156) and compares `numClear()` with the number needed only afterwards (singleBlock.java:106, doubleBlock.java:159). So success needs twice the sectors, and a failed call keeps what it took. The model follows the code. See Findings.
- **Double-tier `deallocate`.** The code releases the data sectors of each used child (doubleBlock.java:169-179). The sectors that hold the children's own tables stay marked. The model follows the code. See Findings.
- **Offsets in `byteToSector`.** Both tiers take the offset within the whole file. The single tier subtracts the 28 direct sectors itself (singleBlock.java:157). The double tier subtracts 28 + 32 sectors (doubleBlock.java:227).

## Model

| member | source | states |
|---|---|---|
| JavaTypes.Wrap32 | nachos/nachos/kernel/threads/MultilevelQueueOperator.java:38 | The Java `int` result agrees with the exact value modulo 2^32 and equals it when the value is in range. |
| JavaTypes.Wrap32Double | nachos/nachos/kernel/threads/MultilevelQueueOperator.java:38 | Doubling a wrapped int wraps to the same value as doubling the exact value. |
| JavaTypes.ByteToChar | nachos/nachos/kernel/userprog/Syscall.java:223 | `(char)` of a byte: non-negative bytes keep their value; negative ones are sign-extended into 16 bits (b + 65536). |
| JavaTypes.CharToByte | nachos/nachos/kernel/userprog/Syscall.java:283 | `(byte)` of a char agrees with the char's code modulo 256. |
| JavaTypes.CharToByteToChar | nachos/nachos/kernel/userprog/Syscall.java:223 | A byte cast to char and back is the same byte. |
| Layout.IntToBytes | nachos/nachos/kernel/filesys/singleBlock.java:71 | An int is stored as exactly four bytes. |
| Layout.BytesToIntToBytes | nachos/nachos/kernel/filesys/singleBlock.java:57-72 | Reading back the four bytes of an int gives the int (round trip of intToBytes/bytesToInt). |
| Layout.Encode | nachos/nachos/kernel/filesys/singleBlock.java:69-72 | The stored form of a table has four bytes per entry. |
| Layout.Decode | nachos/nachos/kernel/filesys/singleBlock.java:57-60 | The table read from bytes has one entry per whole four bytes. |
| Layout.EncodeAt | nachos/nachos/kernel/filesys/singleBlock.java:69-72 | Entry i is stored at bytes 4i to 4i+4. |
| Layout.DecodeAt | nachos/nachos/kernel/filesys/singleBlock.java:57-60 | Entry i is read from bytes 4i to 4i+4. |
| Layout.EncodeUnique | nachos/nachos/kernel/filesys/singleBlock.java:69-72 | A byte string holding each entry at its offset is the encoding of the table. |
| Layout.DecodeEncode | nachos/nachos/kernel/filesys/singleBlock.java:57-72 | Decoding an encoded table gives the table back. |
| Storage.CountClear | nachos/nachos/kernel/filesys/singleBlock.java:106 | `numClear()` never exceeds the number of sectors. |
| Storage.CountClearFull | nachos/nachos/kernel/filesys/singleBlock.java:102 | No sector is clear exactly when every sector is marked, which is when `find()` returns -1. |
| Storage.CountClearUpdate | nachos/nachos/kernel/filesys/singleBlock.java:125 | Flipping one bit changes the clear count by exactly one, or not at all. |
| Storage.CountClearMonotone | nachos/nachos/kernel/filesys/singleBlock.java:102 | Marking more sectors never raises the clear count. |
| Storage.BitMap.Find | nachos/nachos/kernel/filesys/singleBlock.java:102 | `find()` marks a previously clear sector and returns it; when none is clear it returns -1 and changes nothing; the clear count drops by one or stays 0. |
| Storage.BitMap.Clear | nachos/nachos/kernel/filesys/singleBlock.java:125 | `clear(s)` unmarks sector s only, and the count rises by one if s was marked. |
| Storage.Disk.ReadSector | nachos/nachos/kernel/filesys/singleBlock.java:132 | The buffer receives the sector's bytes. |
| Storage.Disk.WriteSector | nachos/nachos/kernel/filesys/singleBlock.java:143 | Only the written sector changes, to the buffer's bytes. |
| SingleBlocks.TableSizes | nachos/nachos/kernel/filesys/singleBlock.java:31-35 | NumDirect = 128/4 = 32 entries per table, MaxBlockSize = 32 * 128, and the tier starts after 28 direct sectors. |
| SingleBlocks.SectorsFor | nachos/nachos/kernel/filesys/singleBlock.java:84-85 | The sector count is the least number of sectors that holds the bytes. |
| SingleBlocks.FirstUnused | nachos/nachos/kernel/filesys/singleBlock.java:118-122 | The scan stops at the first -1: every earlier entry is used, and the entry it stops at is -1. |
| SingleBlocks.InUse | nachos/nachos/kernel/filesys/singleBlock.java:118-122 | The used sectors are exactly the prefix before the first -1. |
| SingleBlocks.OneFreeSectorIsNotEnough | nachos/nachos/kernel/filesys/singleBlock.java:100-107 | Growing an empty table by one byte with one free sector is feasible, yet the method as written reports failure. |
| SingleBlocks.Internalize | nachos/nachos/kernel/filesys/singleBlock.java:57-60 | Each entry is the int decoded from its four bytes at pos + 4i. |
| SingleBlocks.Externalize | nachos/nachos/kernel/filesys/singleBlock.java:69-72 | Each entry's four bytes are written at pos + 4i, and no other byte of the buffer changes. |
| SingleBlocks.ReadTable | nachos/nachos/kernel/filesys/singleBlock.java:130-134 | The table becomes the decoded contents of the sector. |
| SingleBlocks.WriteTable | nachos/nachos/kernel/filesys/singleBlock.java:140-144 | The sector becomes the table's encoding, and no other sector changes. |
| SingleBlocks.ClearEntries | nachos/nachos/kernel/filesys/singleBlock.java:123-126 | Exactly the sectors of the first n entries are unmarked, and the clear count rises by n. |
| SingleBlocks.FindSectors | nachos/nachos/kernel/filesys/singleBlock.java:100-104 | The entries from lo to hi hold distinct newly marked sectors while the map lasts and -1 after; the map marks exactly those sectors; nothing else changes. |
| SingleBlocks.GrantFresh | nachos/nachos/kernel/filesys/singleBlock.java:100-104 | The entries a run of `find()` fills are fresh: each was free and is marked after, none occurs twice, and the map gains exactly them. |
| SingleBlocks.FreshJoin | nachos/nachos/kernel/filesys/doubleBlock.java:113-156 | Two runs of `find()` one after the other took the sectors of both, and no sector twice. |
| SingleBlocks.SingleBlock.constructor | nachos/nachos/kernel/filesys/singleBlock.java:29-43 | A new table has 32 entries, all -1. |
| SingleBlocks.SingleBlock.FetchFrom | nachos/nachos/kernel/filesys/singleBlock.java:130-134 | The table becomes the one stored in the sector. |
| SingleBlocks.SingleBlock.WriteBack | nachos/nachos/kernel/filesys/singleBlock.java:140-144 | The sector holds the encoded table, and no other sector changes. |
| SingleBlocks.SingleBlock.AllocateAdditional | nachos/nachos/kernel/filesys/singleBlock.java:82-110 | As written: a request past 4096 bytes fails and changes nothing. Otherwise the sectors for the new bytes are found first, and the result is success exactly when twice the needed sectors were free; taken sectors stay taken. |
| SingleBlocks.SingleBlock.AllocateAdditionalAtomic | nachos/nachos/kernel/filesys/singleBlock.java:82-110 | Corrected: succeeds exactly when the request fits and enough sectors are free, and then every new entry holds a new sector; on failure nothing changes. |
| SingleBlocks.SingleBlock.Deallocate | nachos/nachos/kernel/filesys/singleBlock.java:116-127 | Exactly the sectors before the first -1 are unmarked (each must be marked, as the source asserts); the clear count rises by their number. |
| SingleBlocks.SingleBlock.ByteToSector | nachos/nachos/kernel/filesys/singleBlock.java:155-158 | For an offset in this tier, the result is the entry whose sector holds that byte. |
| SingleBlocks.SingleBlock.ByteToSectorForDouble | nachos/nachos/kernel/filesys/singleBlock.java:160-162 | The result is the table entry at the given index. |
| DoubleBlocks.TierSizes | nachos/nachos/kernel/filesys/doubleBlock.java:34-36 | The tier starts after 28 + 32 sectors and spans 32 children of 4096 bytes. |
| DoubleBlocks.ChildrenFor | nachos/nachos/kernel/filesys/doubleBlock.java:103-105 | The child count is the least number of 4096-byte children that holds the bytes. |
| DoubleBlocks.Remain | nachos/nachos/kernel/filesys/doubleBlock.java:118-123 | `remainSpace` is less than one child's capacity. |
| DoubleBlocks.UsedFacts | nachos/nachos/kernel/filesys/doubleBlock.java:118-123 | The used children hold the bytes in use plus `remainSpace`, and the tier's data-sector count splits into full children and the last one. |
| DoubleBlocks.SameChildPlan | nachos/nachos/kernel/filesys/doubleBlock.java:126-129 | When no new child is needed, the last used child grows by exactly the new data sectors and stays within its table. |
| DoubleBlocks.NewChildFacts | nachos/nachos/kernel/filesys/doubleBlock.java:131-156 | A request needing new children fills the last used one (`remainSpace`), then `numberOfFullBlock` full children, then a partial last one (`remainLastSpace`); these add up to the new child and sector counts. |
| DoubleBlocks.NewChildPlan | nachos/nachos/kernel/filesys/doubleBlock.java:131-156 | The sector ranges of these three steps are consecutive and cover exactly the new data sectors. |
| DoubleBlocks.LastUsedPlan | nachos/nachos/kernel/filesys/doubleBlock.java:118-143 | A partly filled last child is filled by exactly the sectors up to the first new child (`remainSpace` bytes); when it is full, the new children start right at the first new data sector. |
| DoubleBlocks.DataInUseMembers | nachos/nachos/kernel/filesys/doubleBlock.java:176-178 | A sector is among the used children's data sectors exactly when one used child holds it. |
| DoubleBlocks.TableSectorsNotData | nachos/nachos/kernel/filesys/doubleBlock.java:169-179 | When all the tier's sectors are distinct, no sector holding a child's table is among the used children's data sectors, so `deallocate` leaves every table sector marked. |
| DoubleBlocks.StoreChildrenKeeps | nachos/nachos/kernel/filesys/doubleBlock.java:206-213 | `writeBack` leaves unchanged every sector that no used entry names. |
| DoubleBlocks.StoreChildrenStores | nachos/nachos/kernel/filesys/doubleBlock.java:206-213 | With distinct entries, the sector each used entry names holds that child's encoded table. |
| DoubleBlocks.StoreChildrenReadBack | nachos/nachos/kernel/filesys/doubleBlock.java:182-214 | After `writeBack`, `fetchFrom` of the same sector reads the same entries and the same child tables (round trip). |
| DoubleBlocks.Fetched | nachos/nachos/kernel/filesys/doubleBlock.java:187-194 | After reading children 0 to i, each of those children holds the table decoded from its sector, and the others keep theirs. |
| DoubleBlocks.RegionSector | nachos/nachos/kernel/filesys/doubleBlock.java:225-234 | The child and entry `byteToSector` computes are in range and are the only ones whose sector holds the offset. |
| DoubleBlocks.NewDataLength | nachos/nachos/kernel/filesys/doubleBlock.java:126-156 | Children 0 to n hold exactly as many of the new data sectors as lie below n whole tables. |
| DoubleBlocks.StepFresh | nachos/nachos/kernel/filesys/doubleBlock.java:128-155 | Growing one more child by its share extends the fresh sectors taken so far by those the child took. |
| DoubleBlocks.TookChain | nachos/nachos/kernel/filesys/doubleBlock.java:113-156 | Taking a sectors and then b sectors takes a + b from the free count. |
| DoubleBlocks.GrowthOutcome | nachos/nachos/kernel/filesys/doubleBlock.java:159-162 | After a fitting request has taken its sectors, the check `numClear() < addSectors` fails exactly when `DoubleGrowthSucceeds` holds of the count before. |
| DoubleBlocks.FullShare | nachos/nachos/kernel/filesys/doubleBlock.java:144-146 | A child wholly inside the new range grows from empty by a whole table of 32 sectors. |
| DoubleBlocks.DoubleBlock.constructor | nachos/nachos/kernel/filesys/doubleBlock.java:30-48 | All 32 entries are -1, and each of the 32 children is a new table of -1 entries. |
| DoubleBlocks.DoubleBlock.GrowChild | nachos/nachos/kernel/filesys/doubleBlock.java:135 | One child's `allocateAdditional` fills its share of the tier's new data sectors (`Grant`): they are distinct and newly marked, and the map marks nothing else. The children before it keep their growth and their sectors stay fresh (`GrownTo`), and the free count drops by the share. |
| DoubleBlocks.DoubleBlock.StartGrowth | nachos/nachos/kernel/filesys/doubleBlock.java:126-156 | Before any child grows, the children below the range have nothing to take, and nothing has been taken. |
| DoubleBlocks.DoubleBlock.FinishGrowth | nachos/nachos/kernel/filesys/doubleBlock.java:126-156 | Once every child holding part of the range has grown, the children above it add nothing. |
| DoubleBlocks.DoubleBlock.AllocateAdditional | nachos/nachos/kernel/filesys/doubleBlock.java:86-163 | Zero space, or more than 32 children, changes nothing. Otherwise the new entries hold new child sectors and every child grows by its share of the new data sectors. All the sectors taken, tables and data, are distinct and newly marked, and the map marks nothing else (`Fresh` of `Added`). The result is the as-written success condition: the free count is checked only after everything was taken. |
| DoubleBlocks.DoubleBlock.Grow | nachos/nachos/kernel/filesys/doubleBlock.java:110-158 | The new entries and the children's new data sectors are found. Together they are distinct and newly marked, the map marks nothing else (`Fresh` of `Added`), and the free count drops by both. |
| DoubleBlocks.DoubleBlock.GrowChildren | nachos/nachos/kernel/filesys/doubleBlock.java:126-158 | Every child grows by its share of the tier's new data sectors, whether or not new children are needed. The sectors taken are distinct and newly marked, and the free count drops by their number. |
| DoubleBlocks.DoubleBlock.TakeChildSectors | nachos/nachos/kernel/filesys/doubleBlock.java:113-115 | Entries lo to hi receive sectors found by `find()`. They are distinct and were free, they are -1 once the map is full, and the map marks exactly them besides its old marks (`Grant`). The children are untouched. |
| DoubleBlocks.DoubleBlock.GrowLastChild | nachos/nachos/kernel/filesys/doubleBlock.java:126-129 | Without new children, the tier's new data sectors all go to the last used child, and they are distinct and newly marked. |
| DoubleBlocks.DoubleBlock.GrowNewChildren | nachos/nachos/kernel/filesys/doubleBlock.java:131-158 | With new children, every child receives exactly its share of the new data sectors, and all of them are distinct and newly marked. |
| DoubleBlocks.DoubleBlock.FillLastUsedChild | nachos/nachos/kernel/filesys/doubleBlock.java:132-143 | A partly filled last child is filled up with fresh sectors, and `numberOfFullBlock` = (space - remainSpace) / 4096. |
| DoubleBlocks.DoubleBlock.FillNewChildren | nachos/nachos/kernel/filesys/doubleBlock.java:144-156 | The full new children and then the partial last one receive their shares of the new data sectors. The growth so far stays fresh, and the free count drops by all the data sectors. |
| DoubleBlocks.DoubleBlock.GrowFullChildren | nachos/nachos/kernel/filesys/doubleBlock.java:144-146 | Each of `count` children from `first` on is filled with 32 fresh data sectors, and the free count drops by 32 per child. |
| DoubleBlocks.DoubleBlock.FillChild | nachos/nachos/kernel/filesys/doubleBlock.java:145 | One full child takes 32 fresh data sectors, and the growth so far stays fresh. |
| DoubleBlocks.DoubleBlock.Deallocate | nachos/nachos/kernel/filesys/doubleBlock.java:169-179 | As written: exactly the used children's data sectors are unmarked, every other sector keeps its mark, and the clear count rises by their number. |
| DoubleBlocks.DoubleBlock.DeallocateWithTables | nachos/nachos/kernel/filesys/doubleBlock.java:169-179 | Corrected: the data sectors and the children's table sectors are all unmarked, and the clear count rises by both. |
| DoubleBlocks.DoubleBlock.FetchFrom | nachos/nachos/kernel/filesys/doubleBlock.java:182-195 | The entries become those stored in the sector, each used child's table becomes the one stored in its sector, and the other children keep theirs. |
| DoubleBlocks.DoubleBlock.FetchChildren | nachos/nachos/kernel/filesys/doubleBlock.java:187-194 | The loop reads each used child's table, up to the first -1. |
| DoubleBlocks.DoubleBlock.FetchChild | nachos/nachos/kernel/filesys/doubleBlock.java:189 | Only child i changes, to the table stored in its sector. |
| DoubleBlocks.DoubleBlock.WriteBack | nachos/nachos/kernel/filesys/doubleBlock.java:201-214 | The sector holds the encoded entries, then each used child's table is written, in order, to the sector its entry names. |
| DoubleBlocks.DoubleBlock.WriteChildren | nachos/nachos/kernel/filesys/doubleBlock.java:206-213 | The loop writes each used child's table, up to the first -1. |
| DoubleBlocks.DoubleBlock.WriteChild | nachos/nachos/kernel/filesys/doubleBlock.java:208 | Only the sector entry i names changes, to child i's encoded table. |
| DoubleBlocks.DoubleBlock.ByteToSector | nachos/nachos/kernel/filesys/doubleBlock.java:225-234 | For an offset in this tier, the result is the entry (read with the child's `byteToSectorForDouble`) of the child whose sector holds that byte. |
| UserProg.StackSizes | nachos/nachos/kernel/userprog/AddrSpace.java:312-314 | A 1024-byte stack is exactly 8 pages of 128 bytes. |
| UserProg.FreeAboveMembers | nachos/nachos/kernel/userprog/MemoryManager.java:80-89 | The downward scan meets exactly the free pages at or above its start. |
| UserProg.FreeAboveDescending | nachos/nachos/kernel/userprog/MemoryManager.java:80-89 | The scan meets free pages in strictly decreasing order. |
| UserProg.FreeAbovePrefix | nachos/nachos/kernel/userprog/MemoryManager.java:80-89 | Scanning further down only extends what was already found. |
| UserProg.Taken | nachos/nachos/kernel/userprog/MemoryManager.java:80-89 | `allocatePMP(n)` takes at most n pages. |
| UserProg.Picked | nachos/nachos/kernel/userprog/MemoryManager.java:77 | The returned array always has n slots. |
| UserProg.TakenPages | nachos/nachos/kernel/userprog/MemoryManager.java:76-93 | The pages taken were free, are distinct and come highest first; fewer than n are taken only when every free page was taken. |
| UserProg.TakenHighest | nachos/nachos/kernel/userprog/MemoryManager.java:80-89 | No free page above the lowest page taken is left behind. |
| UserProg.MemoryManager.constructor | nachos/nachos/kernel/userprog/MemoryManager.java:19-32 | Every page is free, and the counters hold all pages and all bytes. |
| UserProg.MemoryManager.AllocatePM | nachos/nachos/kernel/userprog/MemoryManager.java:40-43 | The free-byte count drops by size; nothing else changes. |
| UserProg.MemoryManager.FreePM | nachos/nachos/kernel/userprog/MemoryManager.java:45-48 | The free-byte count rises by size, undoing `AllocatePM`. |
| UserProg.MemoryManager.AllocatePMP | nachos/nachos/kernel/userprog/MemoryManager.java:76-93 | Returns the highest free pages followed by 0 slots, and marks exactly those pages. The page count drops by n however many pages were found. |
| UserProg.MemoryManager.ClearPages | nachos/nachos/kernel/userprog/MemoryManager.java:54-59 | Exactly the listed pages become free. |
| UserProg.MemoryManager.FreeStackPMP | nachos/nachos/kernel/userprog/MemoryManager.java:65-73 | The listed pages become free, the page count rises by their number, and the byte count rises by 1024. |
| UserProg.MemoryManager.FreePMP | nachos/nachos/kernel/userprog/MemoryManager.java:51-63 | Every frame of the space is freed and the space's memory is zeroed. Every other byte of memory keeps its value. The counters rise by the page count and by the space's size. |
| UserProg.Vpn | nachos/nachos/kernel/userprog/AddrSpace.java:356 | The page number is the address divided by 128 for non-negative addresses; a negative address gives a page at or above 2^24. |
| UserProg.PhysicalAddress | nachos/nachos/kernel/userprog/AddrSpace.java:359 | The physical address keeps the offset within the page; for frames below 2^24 its page is the frame. |
| UserProg.ConvertPAFrame | nachos/nachos/kernel/userprog/AddrSpace.java:350-362 | `convertPA` keeps the offset within the page, and for a frame below 2^24 the address is frame * 128 + offset. |
| UserProg.FramesDisjoint | nachos/nachos/kernel/userprog/AddrSpace.java:356-359 | Different frames below 2^24 share no physical byte. |
| UserProg.Frames | nachos/nachos/kernel/userprog/AddrSpace.java:295-297 | One frame per page-table entry, in order. |
| UserProg.ZeroRange | nachos/nachos/kernel/userprog/AddrSpace.java:299-302 | Every byte of the virtual range is zero, and no byte outside its translation changes. |
| UserProg.TranslationEntry.constructor | nachos/nachos/kernel/userprog/AddrSpace.java:148-154 | A new entry maps the given page to the given frame, valid and with the other flags clear. |
| UserProg.ThreadCounter.constructor | nachos/nachos/kernel/userprog/AddrSpace.java:55-57 | The counter starts at 1. |
| UserProg.ThreadCounter.Increment | nachos/nachos/kernel/userprog/AddrSpace.java:59-63 | The counter rises by one, with int wrap-around. |
| UserProg.ThreadCounter.Decrement | nachos/nachos/kernel/userprog/AddrSpace.java:65-69 | The counter drops by one, with int wrap-around. |
| UserProg.ThreadCounter.CheckLastThread | nachos/nachos/kernel/userprog/AddrSpace.java:71-78 | True exactly when the counter is 1. |
| UserProg.IncrementDecrement | nachos/nachos/kernel/userprog/AddrSpace.java:59-69 | A decrement undoes an increment, even across wrap-around. |
| UserProg.RoundToPage | nachos/nachos/kernel/userprog/AddrSpace.java:280-282 | The result is a multiple of 128 and, for a non-negative size, at least the size and less than one page more. |
| UserProg.RoundToPageLeast | nachos/nachos/kernel/userprog/AddrSpace.java:280-282 | No multiple of 128 at or above the size lies below the rounded size. |
| UserProg.ExecSize | nachos/nachos/kernel/userprog/AddrSpace.java:131 | For a non-negative code size and data sizes whose int sum does not overflow, the size is page-aligned and holds code, data and the 1024-byte stack. |
| UserProg.AddrSpace.constructor | nachos/nachos/kernel/userprog/AddrSpace.java:100-105 | A new space is empty and has one thread. |
| UserProg.AddrSpace.Exec | nachos/nachos/kernel/userprog/AddrSpace.java:123-198 | An unreadable header gives -1 and changes nothing. Otherwise the space gets one fresh entry per page, mapping page i to the i-th page `allocatePMP` returned, and the counters drop by the pages and the size. |
| UserProg.AddrSpace.StackAllocate | nachos/nachos/kernel/userprog/AddrSpace.java:369-394 | The thread table shares this space's entries below the stack. It has 8 fresh stack entries mapped to the pages `allocatePMP(8)` returns. The page map marks exactly the pages taken, and the page count drops by 8. |
| UserProg.AddrSpace.Free | nachos/nachos/kernel/userprog/AddrSpace.java:285-304 | Returns the frames of every entry in order, and zeroes exactly the space's bytes. |
| UserProg.AddrSpace.FreeStack | nachos/nachos/kernel/userprog/AddrSpace.java:308-327 | As written: returns the given thread table's 8 stack frames, but zeroes the stack bytes through this space's own table. |
| UserProg.AddrSpace.FreeStackOf | nachos/nachos/kernel/userprog/AddrSpace.java:308-327 | Corrected: returns the thread's stack frames and zeroes the stack bytes through the thread's table. |
| UserProg.AddrSpace.StackFrames | nachos/nachos/kernel/userprog/AddrSpace.java:313-318 | The 8 frames just below `currentSize / 128`, in order. |
| UserProg.AddrSpace.ReadString | nachos/nachos/kernel/userprog/AddrSpace.java:329-348 | Returns the characters up to the first 0 byte, every one translated and non-zero, or the first address whose translation fails. |
| Console.Erase | nachos/nachos/kernel/devices/ConsoleDriver.java:208-212 | Erasing n characters prints backspace, space, backspace n times: 3n characters. |
| Console.EchoEditsEnd | nachos/nachos/kernel/devices/ConsoleDriver.java:192-241 | One echoed character either cuts the line back to a prefix of itself, or appends exactly that character, which is printable. A printable line stays printable. |
| Console.EchoAllSnoc | nachos/nachos/kernel/devices/ConsoleDriver.java:189-245 | Echoing one more character extends the line and the printed text of a whole sequence. |
| Console.RubOutDisplays | nachos/nachos/kernel/devices/ConsoleDriver.java:197-199 | Backspace, space, backspace removes the last character from a terminal screen. |
| Console.EraseDisplays | nachos/nachos/kernel/devices/ConsoleDriver.java:206-214 | n rub-outs remove the last n characters from the screen. |
| Console.TypeDisplays | nachos/nachos/kernel/devices/ConsoleDriver.java:237-241 | Printing printable characters appends them to what the screen shows. |
| Console.EchoDisplaysLine | nachos/nachos/kernel/devices/ConsoleDriver.java:189-245 | If a terminal shows the line before a character is echoed, it shows the edited line after (backspace, kill, retype, newline, printable, ignored). |
| Console.EchoAllDisplaysLine | nachos/nachos/kernel/devices/ConsoleDriver.java:189-245 | The same for a whole sequence of echoed characters. |
| Console.ConsoleDriver.constructor | nachos/nachos/kernel/devices/ConsoleDriver.java:76-88 | The queue, its count, the line and the input buffer start empty. |
| Console.ConsoleDriver.OperatePrint | nachos/nachos/kernel/devices/ConsoleDriver.java:181-187 | Exactly the character is handed to the device. |
| Console.ConsoleDriver.PrintErase | nachos/nachos/kernel/devices/ConsoleDriver.java:208-212 | n rub-outs are printed, and nothing else changes. |
| Console.ConsoleDriver.ProcessOutput | nachos/nachos/kernel/devices/ConsoleDriver.java:189-245 | With an empty queue nothing happens. Otherwise the oldest character leaves the queue and is echoed with line editing. The count keeps tracking the queue, and the line stays printable. |
| Console.ConsoleDriver.PutChar | nachos/nachos/kernel/devices/ConsoleDriver.java:142-159 | With room in the queue: from an idle queue the character is echoed at once; otherwise it is queued behind the others. |
| Syscall.Write | nachos/nachos/kernel/userprog/Syscall.java:220-226 | Every byte of `buffer[0..size)` is cast to char and passed to `putChar`. From an idle queue the result is the echo of the whole sequence; on a busy queue all of them are queued. Any other id changes nothing. |
| Syscall.WriteChar | nachos/nachos/kernel/userprog/Syscall.java:223 | One more character extends what `write` has done. |
| Syscall.EchoedOneMore | nachos/nachos/kernel/userprog/Syscall.java:223 | If the echo of the characters written so far gave the driver's line and printed text, one more echo gives those of the sequence with the new character added. |
| Syscall.EchoMatchesEdit | nachos/nachos/kernel/userprog/Syscall.java:249-272 | Until a line ends, the echo's line and the plain edited input agree. |
| Syscall.Run | nachos/nachos/kernel/userprog/Syscall.java:245-279 | The loop never takes more characters than were typed. |
| Syscall.RunEdits | nachos/nachos/kernel/userprog/Syscall.java:245-279 | The buffer `read` builds is the edited text of the characters it took (backspace, Ctrl-U, printable). |
| Syscall.RunTakes | nachos/nachos/kernel/userprog/Syscall.java:245-279 | Only the last character taken can be CR or LF. The loop stops early only on a full count, and waits only when the keys run out. The buffer stays printable. |
| Syscall.RunCounts | nachos/nachos/kernel/userprog/Syscall.java:245-279 | With Ctrl-U restarting the counter at 0 from an empty buffer, the counter equals the buffer length and never exceeds size. |
| Syscall.KillMiscounts | nachos/nachos/kernel/userprog/Syscall.java:259-263 | As written, `read(2)` of a, Ctrl-U, b, c returns only "b". |
| Syscall.KillCountsFixed | nachos/nachos/kernel/userprog/Syscall.java:259-263 | With the counter restarting at 0, the same keys give "bc". |
| Syscall.StaleBufferOverruns | nachos/nachos/kernel/userprog/Syscall.java:243-287 | As written, a buffer left holding "ab" makes `read(3)` of c, d, e gather five characters. |
| Syscall.EditLine | nachos/nachos/kernel/userprog/Syscall.java:245-279 | The loop ends as `Run` says. The input buffer, the remaining keys, the echo line and the printed text are those of the characters it took. |
| Syscall.TakeChar | nachos/nachos/kernel/userprog/Syscall.java:247-248 | The next typed character is taken and echoed. |
| Syscall.TakeEchoed | nachos/nachos/kernel/userprog/Syscall.java:247-248 | The character taken is the next typed one. The remaining keys, the line and the printed text are then those of one more character echoed. |
| Syscall.CopyOut | nachos/nachos/kernel/userprog/Syscall.java:281-284 | Copies the buffer as byte casts. The copy overruns exactly when the buffer is longer than the user's array; otherwise it returns the buffer's length. |
| Syscall.Read | nachos/nachos/kernel/userprog/Syscall.java:240-288 | As written: edits onto the old input buffer, waits when keys run out, and returns the buffer's length; it overruns exactly when the buffer is longer than the array. While waiting the array is untouched. After a count the bytes past it keep their values. On an overrun every byte of the array holds the buffer's cast. Any other id returns the buffer's length and changes nothing. |
| Syscall.ReadLine | nachos/nachos/kernel/userprog/Syscall.java:240-288 | Corrected: the buffer, the echo line and the printed text are those of the keys taken, edited. The count never exceeds size and never overruns an array of size bytes. The bytes past the count keep their values, and while waiting the array is untouched. |
| Scheduler.SubNachosThread.constructor | nachos/nachos/kernel/threads/SubNachosThread.java:23-28 | A new thread has 100 remaining ticks, queue index and sleep ticks 0 (Java's field defaults), and no flag set. |
| Scheduler.SubNachosThread.IsRemainingTicksZero | nachos/nachos/kernel/threads/SubNachosThread.java:30-32 | True exactly when the remaining ticks are 0. |
| Scheduler.SubNachosThread.IsSleepTicksBelowZero | nachos/nachos/kernel/threads/SubNachosThread.java:86-92 | True exactly when the sleep ticks are at or below 0. |
| Scheduler.SubNachosThread.DecrementRemainingTicks | nachos/nachos/kernel/threads/SubNachosThread.java:38-40 | Remaining ticks drop by 100 with wrap-around; nothing else changes. |
| Scheduler.SubNachosThread.ResetRemainingTicks | nachos/nachos/kernel/threads/SubNachosThread.java:42-44 | Remaining ticks become the argument; nothing else changes. |
| Scheduler.SubNachosThread.ResetRemainingTicksDefault | nachos/nachos/kernel/threads/SubNachosThread.java:46-48 | Remaining ticks become 800; nothing else changes. |
| Scheduler.SubNachosThread.SetQueueIndex | nachos/nachos/kernel/threads/SubNachosThread.java:50-52 | The queue index becomes the argument; nothing else changes. |
| Scheduler.SubNachosThread.SetExitFlag | nachos/nachos/kernel/threads/SubNachosThread.java:58-60 | The exit flag is set; nothing else changes. |
| Scheduler.SubNachosThread.SetAlreadyLoadedFlag | nachos/nachos/kernel/threads/SubNachosThread.java:66-68 | The loaded flag is set; nothing else changes. |
| Scheduler.SubNachosThread.SetSleepTicks | nachos/nachos/kernel/threads/SubNachosThread.java:74-76 | Sleep ticks become the argument; nothing else changes. |
| Scheduler.SubNachosThread.DecrementSleepTicks | nachos/nachos/kernel/threads/SubNachosThread.java:82-84 | Sleep ticks drop by 100 with wrap-around; nothing else changes. |
| Scheduler.SubNachosThread.SetWakeupFlag | nachos/nachos/kernel/threads/SubNachosThread.java:106-108 | The wake-up flag is set; nothing else changes. |
| Scheduler.SubNachosThread.ResetWakeupFlag | nachos/nachos/kernel/threads/SubNachosThread.java:110-112 | The wake-up flag is cleared; nothing else changes. |
| Scheduler.TickedLinear | nachos/nachos/kernel/threads/SubNachosThread.java:38-40 | Without overflow, n ticks take exactly 100n off the counter. |
| Scheduler.TicksRunOut | nachos/nachos/kernel/threads/SubNachosThread.java:30-40 | A quantum that is a multiple of 100 reaches exactly zero after q/100 ticks. A counter is at or below zero exactly once 100n reaches its start (`isSleepTicksBelowZero`). |
| Scheduler.QuantumDoubles | nachos/nachos/kernel/threads/MultilevelQueueOperator.java:31-41 | The closed form base * 2^i agrees with the constructor's repeated int doubling: each level has twice the previous quantum, wrapped. |
| Scheduler.QuantaIncrease | nachos/nachos/kernel/threads/MultilevelQueueOperator.java:31-41 | With a positive base and no overflow, the quanta are positive and strictly increase with the level. |
| Scheduler.FirstFit | nachos/nachos/kernel/threads/MultilevelQueueOperator.java:77-85 | The result is the lowest level whose quantum exceeds the estimate; none means every quantum is at most the estimate. |
| Scheduler.FirstFitMonotone | nachos/nachos/kernel/threads/MultilevelQueueOperator.java:77-85 | A larger estimate never lands on a lower level. |
| Scheduler.FirstNonEmpty | nachos/nachos/kernel/threads/MultilevelQueueOperator.java:90-97 | The result is the lowest non-empty level; none means every level is empty. |
| Scheduler.Offer | nachos/nachos/kernel/threads/MultilevelQueueOperator.java:79 | `offer` appends the thread at the tail of one level; that level's quantum and every other level are unchanged. |
| Scheduler.Poll | nachos/nachos/kernel/threads/MultilevelQueueOperator.java:93 | `poll` removes the head of one level and keeps the rest of it in order; its quantum and every other level are unchanged. |
| Scheduler.OfferAdds | nachos/nachos/kernel/threads/MultilevelQueueOperator.java:79 | Offering adds exactly the thread to the scheduler's threads and keeps every quantum. |
| Scheduler.PollRemoves | nachos/nachos/kernel/threads/MultilevelQueueOperator.java:93 | Polling removes exactly the head thread and keeps every quantum. |
| Scheduler.OfferThenPoll | nachos/nachos/kernel/threads/MultilevelQueueOperator.java:77-98 | A thread offered to an idle scheduler is the next chosen, and choosing it restores the scheduler. |
| Scheduler.MultilevelQueueOperator.constructor | nachos/nachos/kernel/threads/MultilevelQueueOperator.java:26-46 | numQueues empty levels; level i has quantum base * 2^i, wrapped. |
| Scheduler.MultilevelQueueOperator.OfferFirstFit | nachos/nachos/kernel/threads/MultilevelQueueOperator.java:77-85 | The thread joins the first fitting level, and takes its index and quantum; with no fitting level nothing changes. |
| Scheduler.MultilevelQueueOperator.PickPriorityQueueAndInsert | nachos/nachos/kernel/threads/MultilevelQueueOperator.java:61-86 | With one level the thread always joins level 0 (round robin). Otherwise it joins the first level whose quantum exceeds the prediction, taking that index and quantum. When none fits, nothing changes. The thread's sleep ticks and flags never change. |
| Scheduler.MultilevelQueueOperator.InsertQueue | nachos/nachos/kernel/threads/MultilevelQueueOperator.java:111-120 | First fit by the given estimate, with no single-level case. When none fits, nothing changes. The thread's sleep ticks and flags never change. |
| Scheduler.MultilevelQueueOperator.SearchNextThread | nachos/nachos/kernel/threads/MultilevelQueueOperator.java:89-98 | Takes and records the head of the lowest non-empty level; when every level is empty it returns none and changes nothing. |
| Scheduler.MultilevelQueueOperator.IsEmpty | nachos/nachos/kernel/threads/MultilevelQueueOperator.java:101-108 | As written: true exactly when some level holds a thread. |
| Scheduler.MultilevelQueueOperator.AllLevelsEmpty | nachos/nachos/kernel/threads/MultilevelQueueOperator.java:100-108 | Corrected: true exactly when the scheduler holds no thread. |
| Scheduler.NoThreadsIffAllEmpty | nachos/nachos/kernel/threads/MultilevelQueueOperator.java:101-108 | The scheduler holds no thread exactly when no level is non-empty. |

## Left out

- Printing (`print` in both block tiers, `Debug.println`): output only.
- `FileSystem.bytesToInt`/`intToBytes`, `BitMap` and `FileSystemReal` are not part of this model. Big-endian two's complement is assumed for the conversions. The bit map and the disk are given the contracts the block code relies on.
- Sector size: fixed at 128 bytes, which is what the hard-coded 28 and 32 in `byteToSector` assume.
- The block tables: fixed at 32 entries. The Java `int[]` is never reassigned, so it is a `const` array.
- DoubleBlocks.DoubleBlock.AllocateAdditional: requires that the used prefix of the table matches `numBytes`. The source assumes this of its caller but does not check it.
- DoubleBlocks.DoubleBlock.AllocateAdditional: no all-or-nothing version of the double tier's growth is modelled. The corrected, checked-first growth is given for the single tier only (`AllocateAdditionalAtomic`).
- Deallocate (both tiers): requires that the used sectors are distinct and marked. The first is an invariant of the file system; the second is the source's `Debug.ASSERT`.
- SingleBlocks.SingleBlock.ByteToSector: requires an offset inside this tier (28 * 128 to 60 * 128 bytes). For any other offset, `dataSectors[offset / 128 - 28]` throws `ArrayIndexOutOfBoundsException` in Java (singleBlock.java:157). Offset 0, for example, indexes entry -28. That exception is not modelled.
- SingleBlocks.SingleBlock.ByteToSectorForDouble: requires an index from 0 to 31. For any other index, Java throws `ArrayIndexOutOfBoundsException` (singleBlock.java:161). That exception is not modelled.
- DoubleBlocks.DoubleBlock.ByteToSector: requires an offset inside the double tier. Outside it, the computed child or entry index is out of range. Offset 7000, for example, gives entry -6, and Java throws `ArrayIndexOutOfBoundsException` (doubleBlock.java:227-233). That exception is not modelled.
- SingleBlocks.SingleBlock.AllocateAdditional: takes `space` and `numBytes` as naturals with `numBytes + space <= Integer.MAX_VALUE`. The Java `int`s also accept a negative argument, and a larger sum wraps to a negative `totalSize`. That passes the `totalSize > MaxBlockSize` test, gives `addSectors <= 0`, takes nothing and returns true. Those calls are not modelled.
- SingleBlocks.SingleBlock.AllocateAdditionalAtomic: the same restriction to naturals whose sum fits in an `int`.
- DoubleBlocks.DoubleBlock.AllocateAdditional: the same restriction to naturals whose sum fits in an `int`. Negative arguments and a wrapped sum are not modelled.
- `MemoryManager`'s static fields: modelled as the fields of one manager object.
- UserProg.MemoryManager.AllocatePMP: `numberOfPMLeft` and `numberOfPMPLeft` are unbounded integers, so their `long`/`int` overflow is not modelled.
- `getStartNumberOfPMP` and `pageFaultHanle`: a getter and an empty method.
- `exec`: `NoffHeader.readHeader` is an input (`None` for an unreadable header). The copying of the code and data segments through `OpenFile`, `initRegisters`, `saveState` and `restoreState` are left out, because `Machine` and `OpenFile` are not part of this model.
- The `SpaceIdManager` registration in the `AddrSpace` constructor and its semaphore: left out.
- The getters and setters of `AddrSpace` (`getPageTable`, `setPageTable`, `getStatus` and the rest): plain field accesses.
- UserProg.AddrSpace.Exec: the `Debug.ASSERT` that enough pages are left is a precondition.
- UserProg.AddrSpace.Exec: also requires that the page count `ExecPages` is not negative. A header with a large enough negative segment size gives a negative `numPages`, which passes the `Debug.ASSERT`. Then `new TranslationEntry[numPages]` throws `NegativeArraySizeException` (AddrSpace.java:143). That exception is not modelled.
- UserProg.AddrSpace.Exec and UserProg.AddrSpace.StackAllocate: a placeholder entry stands for Java's null slots while the table is filled.
- UserProg.AddrSpace.StackAllocate: its `func` argument is unused in the source and is dropped.
- UserProg.AddrSpace.ReadString: requires that the page table has fewer than 2^24 entries. Then the largest int address does not translate, so the scan stops before `VA++` could wrap around. A failed translation, which Java reports as an exception, is the result `Fault`.
- `ThreadCounter`'s semaphore: left out, along with all other locking and interrupt handling. The model is sequential.
- `getChar`: takes the next character from the `keyboard` sequence; the keyboard interrupt and `charAvail` are not modelled.
- Console.ConsoleDriver.PutChar: the branch that blocks on a full queue is left out. It busy-waits for the output interrupt, which is not modelled, so PutChar requires room in the queue.
- The output interrupt handler and `stop`: left out.
- Syscall.Read and Syscall.ReadLine: modelled from an idle output queue, where every echoed character is processed at once. With a busy queue, the echo depends on interrupts.
- Syscall.Write: requires room for all `size` characters when the queue is busy, because the blocking branch is left out.
- Syscall.Read: the loop counter `i` is unbounded, so its `int` overflow is not modelled. A Java exception from an overrun of the user's array is the result `IndexOutOfBounds`, with the bytes before it already written.
- `calculateAvg`, `prevPrediction`, `currentBurst` and `prevEstimate`: these are doubles. The prediction is an input of type `real`, and the getters and setters around them are left out.
- `NachosThread`, `sleepSem` and the thread name: not part of this model.
- Scheduler.MultilevelQueueOperator: `Valid` bounds the number of levels by `Integer.MAX_VALUE`, as a Java list's indices are.
- Scheduler.MultilevelQueueOperator.constructor: requires `numQueues >= 0`. For a negative count, `new ArrayList<>(numQueues)` throws `IllegalArgumentException` (MultilevelQueueOperator.java:29). That exception is not modelled.
- `LevelQueue` is folded into the `Level` datatype: a FIFO queue and its quantum.
- `getRemainingTicks`, `getQueueIndex` and the other getters: plain field reads.

## Findings

| source | as written | input that shows it | evidently intended | confidence | as-written member | corrected member |
|---|---|---|---|---|---|---|
| nachos/nachos/kernel/filesys/singleBlock.java:100-107 | Sectors are taken with `find()` first; the free count is compared with the number needed only afterwards, so success needs twice the sectors and a failure keeps the sectors taken | an empty table, space 1, exactly one free sector: it is taken, `numClear()` is then 0 < 1, and the call fails | check the free count before taking anything | not executed; high | SingleBlocks.OneFreeSectorIsNotEnough | SingleBlocks.SingleBlock.AllocateAdditionalAtomic |
| nachos/nachos/kernel/filesys/doubleBlock.java:169-179 | `deallocate` clears each used child's data sectors but never the sectors holding the children's own tables | one used child whose table is in sector 40 and names data sector 41: afterwards 41 is free and 40 stays marked | release the table sectors as well | not executed; high | DoubleBlocks.DoubleBlock.Deallocate | DoubleBlocks.DoubleBlock.DeallocateWithTables |
| nachos/nachos/kernel/userprog/AddrSpace.java:319-324 | `freeStack(pageTable)` reads frame numbers from its argument but zeroes the stack through `this.pageTable` | a forked thread's stack pages map to fresh frames (say 9) while the space's own stack page maps to frame 5: frame 5, the first thread's stack, is zeroed and frame 9 is not | zero through the thread's table that is passed in | not executed; high | UserProg.AddrSpace.FreeStack | UserProg.AddrSpace.FreeStackOf |
| nachos/nachos/kernel/userprog/Syscall.java:259-263 | Ctrl-U sets `i = 0` and the loop's increment then makes it 1, so one fewer character is accepted after a kill | `read(size 2)` of a, Ctrl-U, b, c returns "b" | restart the count at 0 so that c is accepted too ("bc") | not executed; high | Syscall.KillMiscounts | Syscall.KillCountsFixed |
| nachos/nachos/kernel/userprog/Syscall.java:243-287 | The driver's input buffer is never cleared, so each read appends to what earlier reads left and copies the whole buffer out | after a read that left "ab", `read(3)` of c, d, e gathers five characters and writes past the 3-byte array the caller allocates (ExceptionHandler.java:105) | start each read with an empty buffer | not executed; high | Syscall.StaleBufferOverruns | Syscall.ReadLine |
| nachos/nachos/kernel/threads/MultilevelQueueOperator.java:101-108 | `isEmpty` returns true when some level is non-empty and false when all are empty | one level holding one thread: `isEmpty()` is true | true exactly when no level holds a thread | not executed; medium (its callers are not part of this model) | Scheduler.MultilevelQueueOperator.IsEmpty | Scheduler.MultilevelQueueOperator.AllLevelsEmpty |
