# A verified model of the synx kernel core and the Limine undo log

synx is a small x86_64 kernel. Most of what can go wrong in it is aliasing: a page that two
address spaces own, a free list that runs through a live object, a directory entry that one
reference too few keeps alive, a relocation that overwrites the table it is read from. This
project models that code in Dafny and proves what it promises, for every input and over whole
runs. It has five parts.

1. **Process images** (`PageBitmap`, `PageTables`, `TableNodes`, `PteWords`, `AddressSpaces`,
   `Segments`, `ImageLoader`, `Relocations`, `RelocatedImage`, `InitialStack`, `Exec`,
   `LoadedProgram`, `Execve`). Physical memory is a map from frames to either 512 entries or 4096
   bytes, shared by all spaces. The user half of every root is a proper tree through every step,
   also one that fails midway, so distinct virtual pages never share a frame, and its frames can be
   counted by the indices that lead to them. From that follow the copy round trips, the exact
   contents and permissions of a loaded and relocated segment list (Intel SDM volume 3A, section
   4.5), the stack that reads back as the strings it was built from (System V ABI AMD64 supplement,
   sections 3.4.1 and 3.4.3), and the exact conditions under which `load_image` and `execve`
   succeed, down to the number of free pages; a failure leaves no trace. Every entry the walk stores
   is the reading of the 64-bit word the source stores.
2. **The dynamic linker** (`DynRelocs`, `DynLink`, `DynLoader`, `LinkedImage`). The flat image, the
   checks and their error codes, and RELA relocations applied in order (System V ABI AMD64
   supplement, section 4.4). The main result is rebasing: two load biases give images that differ by
   the difference of the biases at exactly the places that should move; the image itself is given in
   closed form.
3. **Limine's one-block write-back cache with an undo log** (`BlockCache`). Reads and writes refine
   a flat byte array; replaying the log after dropping a possibly dirty cache restores the original
   device, also through the file the log is stored in.
4. **Allocators** (`PageBitmap`, `SlabLists`, `SlabHeap`, `Slab`). The packed bitmap refines a set
   of free pages. The slab allocator's free lists run through the free objects themselves, and its
   headers lie in the same bytes; over every run of allocations, stores and matching frees no panic
   is reachable, no object overlaps another, a header or a free slot, and every byte stored stays.
5. **Files** (`Paths`, `DentryLists`, `Vfs`, `FileTable`, `Process`, `UserPaths`, `FileReads`,
   `RelativePaths`, `Dirents`, `Getdents`, `Cpio`, `TreeGrowth`, `Initramfs`, `Boot`). The dentry
   tree with its reference counts, path walking and path printing as inverses, descriptors,
   directory listing into the caller's memory, and the cpio "newc" loader with its round trip.

`Bytes` holds byte sequences, in-place updates and little-endian words.

The functions that the methods are proved against are themselves tied down by statements that do
not use them: `LinkedImage`, `LoadedProgram` and `RelativePaths`, and lemmas such as
`Paths.ResolveMeans`, `InitialStack.StackIsAbi`, `PteWords.EntryBits`, `Dirents.RecordIs` and
`Initramfs.RecordMeans`, say what they compute in the words of the file, the stack, the page table
entry or the tree, with the numbers of the formats written out.

C pointers are integers, with 0 for null, and what they point at is a map that the class owns;
ghost fields carry the tree, the lists and the owners, and each class's `Valid` (or `Inv`, `Shape`)
ties them to the real fields. Memory allocation may fail at any call where the source allocates.

## Where the code and the expectation part

- `sys_fchdir` stores the printed path of whatever directory is open. That path leads back to the
  directory exactly when the directory's own name is one that a path can carry: a directory named
  `.` or `..`, or with no name, can be opened through its parent and its path leads elsewhere.
  `Process.Process.SysFchdir` and `Process.PrintedLeadsBack` state the condition both ways,
  `Boot.FchdirGoesAstray` reaches the failing case from the archive records `d` and `d/`, and
  `Process.Run` asks for proper names only when `fchdir` is among the calls.
- `slab::alloc` counts the pages of a large object modulo 2^64, so a size above 2^64 - 4096 is given
  a single page. `Slab.LargeFits` states exactly when the pages hold the object, and
  `Slab.LargestWraps` is the largest such size.
- A large object of more than 1024 pages is never given back by `slab::free`; `Slab.LargeThenFree`
  states exactly when allocating and freeing restores the bitmap, and `Slab.LargeStays` is an input
  where it does not.
- `slab::free` does not look at where in a slab a pointer falls: one that is inside a slab but is no
  slot is linked into the list, and one into the header overwrites a field of it.
  `Slab.Allocator.FreeSmall` states the effect for every pointer, `Slab.HeaderFreed` at three of them,
  and `Slab.Run` that it never happens to objects freed with their own address and size.
- `ramfs_read` compares offset plus size with the file's length after the sum may have wrapped;
  `Initramfs.RamfsRead` and `FileReads.VfsRead` state exactly when it does, and
  `FileReads.ReadRunsOver` does it on any file of two bytes or more.
- `store_uninstall_data` fails on an entry of no bytes; `BlockCache.StoreLog` states this as the
  exact condition.
- The check of `symbol_delta` in `apply_relocations` never fails for a 32-bit index
  (`DynRelocs.DistanceFits`); the model keeps it.

## Model

| member | source | states |
|---|---|---|
| `PageBitmap.BitsDetermine` | mem/kmemory.cpp:14-27 | the packed bytes hold nothing but one bit per page: equal bits mean equal bytes |
| `PageBitmap.PageBits` | mem/kmemory.cpp:14-27 | page 8i + k is the bit of value 2^k in byte i |
| `PageBitmap.Pmm.Set` | mem/kmemory.cpp:19-22 | exactly one bit of the sequence the bytes stand for becomes used |
| `PageBitmap.Pmm.Clear` | mem/kmemory.cpp:24-27 | exactly one bit becomes free |
| `PageBitmap.Pmm.AllocPage` | mem/kmemory.cpp:78-87 | takes the lowest free page and only that one; 0 exactly when the free set is empty (or page 0 was free); the counter stays the number of free pages |
| `PageBitmap.Pmm.FreePage` | mem/kmemory.cpp:89-95 | the page leaves the used set, an unknown or already free page changes nothing, the counter stays exact |
| `PageBitmap.Pmm.SetPages` | mem/kmemory.cpp:107-117 | a free run becomes used, nothing else does, and the number of free pages drops by its length |
| `PageBitmap.Pmm.AllocPages` | mem/kmemory.cpp:97-119 | finds the lowest run of `count` free pages, fails only when there is none, and marks exactly that run |
| `PageBitmap.Pmm.FreePages` | mem/kmemory.cpp:121-129 | clears exactly the run counted modulo 2^64 from the address, with the counter exact |
| `PageBitmap.ClearAfterSet` | mem/kmemory.cpp:97-129 | clearing the run that was just set gives the bits back |
| `PageBitmap.AllocThenFree` | mem/kmemory.cpp:97-129 | allocating and freeing any number of pages leaves the bytes of the bitmap and the counter as they were, and the allocation succeeds exactly when such a run exists |
| `PteWords.PhysOf` | proc/elf_exec.cpp:110-115 | the address of every frame below 2^40 lies inside the address bits of an entry and is read back as that frame |
| `PteWords.DecodeEncode` | proc/elf_exec.cpp:154-208 | every entry on such a frame is the reading of one 64-bit word |
| `PteWords.EntryBits` | include/mem/paging.h:4-12 | the bits of every stored word by their places: 0 present, 1 writable, 2 user, 7 large, 63 no-execute, 12 to 51 the address, and no other |
| `PteWords.NewTableIs` | proc/elf_exec.cpp:186-197 | the word stored for a new table reads as a present, writable, user entry of that frame |
| `PteWords.NewPageIs` | proc/elf_exec.cpp:199-204 | the word stored for a new page reads as a present user entry with the flags asked for |
| `PteWords.ForUserIs` | proc/elf_exec.cpp:186-197 | or-ing the user bit into any stored word changes that field of the entry and no other |
| `PteWords.WidenIs` | proc/elf_exec.cpp:204-207 | or-ing in the writable flag and clearing the no-execute bit of any stored word widen those two permissions and touch nothing else |
| `PageTables.WalkUnique` | proc/elf_exec.cpp:154-172 | in a tree of tables two virtual pages reach the same table only if their indices agree that far |
| `PageTables.AddressParts` | proc/elf_exec.cpp:174-185 | an address below 2^47 is the sum of its four indices at bits 39, 30, 21 and 12 and the offset in the page |
| `PageTables.LeafOwned` | proc/elf_exec.cpp:174-208 | a mapped page is a small user page on an owned frame that is no table |
| `PageTables.LeafUnique` | proc/elf_exec.cpp:174-208 | distinct virtual pages never share a frame |
| `PageTables.GraftKeepsTree` | proc/elf_exec.cpp:174-203 | hanging a blank frame into an empty slot keeps the tables a tree in which each owned frame is pointed at once |
| `PageTables.GraftLeaf` | proc/elf_exec.cpp:174-203 | hanging a frame changes the one leaf it is meant for and no other |
| `PageTables.RetagKeepsTree` | proc/elf_exec.cpp:190-206 | changing the permissions of an entry keeps the tree |
| `PageTables.SetBytesView` | proc/elf_exec.cpp:210-228 | bytes stored in one page change those virtual bytes and no other virtual byte |
| `PageTables.BranchesDisjoint` | proc/elf_exec.cpp:117-130 | the subtrees below different entries of a table share no frame |
| `PageTables.SubtreeOfRoot` | proc/elf_exec.cpp:132-142 | the frames below the user half of the root are exactly the owned ones |
| `TableNodes.GraftNodes` | proc/elf_exec.cpp:174-203 | hanging a frame under the table a page leads to adds one node, named by the indices that lead there, and no other |
| `TableNodes.OwnedNodes` | proc/elf_exec.cpp:117-208 | a tree owns exactly as many frames as it has nodes: owned frames and names of nodes correspond one to one |
| `TableNodes.WaysBound` | proc/elf_exec.cpp:174-208 | pages take at most four frames each, and one for the root |
| `AddressSpaces.AddressSpace.AllocateZeroed` | proc/elf_exec.cpp:110-115 | one more page of the bitmap, blank, not owned before; failure changes nothing and means no page was free |
| `AddressSpaces.StoredEntry` | proc/elf_exec.cpp:186-204 | what the walk reads of the word stored for a new table or page is the entry the model keeps |
| `AddressSpaces.StoredForUser` | proc/elf_exec.cpp:190-197 | the same for a table opened to the user |
| `AddressSpaces.StoredWider` | proc/elf_exec.cpp:204-207 | the same for a page whose permissions are widened |
| `AddressSpaces.AddressSpace.EntriesAreWords` | proc/elf_exec.cpp:154-208 | every present entry of the user half of a valid space, at every level, is the reading of a 64-bit word |
| `AddressSpaces.AddressSpace.Create` | proc/elf_exec.cpp:144-152 | a root with no user page mapped and the kernel half copied, exactly when there is a kernel table and a free page; otherwise no page taken and no frame changed |
| `AddressSpaces.AddressSpace.EnsureTable` | proc/elf_exec.cpp:181-197 | the next table on the walk exists and is a user table, and is one node more if it was missing; failure leaves every leaf and node as it was |
| `AddressSpaces.AddressSpace.WidenLeaf` | proc/elf_exec.cpp:204-207 | permissions of a mapped page only grow, and only of that page |
| `AddressSpaces.AddressSpace.MapLeaf` | proc/elf_exec.cpp:198-207 | the page is mapped afterwards, zero-filled if it was not before; other leaves keep |
| `AddressSpaces.AddressSpace.MapUserPage` | proc/elf_exec.cpp:174-208 | every call, also one that fails midway, keeps the tree, the kernel half, the account of pages and all frames of others; success maps exactly this page with exactly the widened flags and adds exactly the missing nodes on the way to it; failure leaves all leaves, adds strictly fewer nodes, and means a kernel address or no free page |
| `AddressSpaces.AddressSpace.LocatePte` | proc/elf_exec.cpp:154-172 | finds the last-level table exactly when the walk through present tables reaches one |
| `AddressSpaces.AddressSpace.DestroyTableTree` | proc/elf_exec.cpp:117-130 | frees every frame of the subtree once and no other frame |
| `AddressSpaces.AddressSpace.DestroyAddressSpace` | proc/elf_exec.cpp:132-142 | frees every owned frame once, and none of the kernel half |
| `AddressSpaces.AddressSpace.CopyToSpace` | proc/elf_exec.cpp:210-228 | succeeds exactly on mapped ranges; the written bytes read back, every other virtual byte, all permissions, all tables and all frames of others keep; a failed copy wrote a prefix |
| `AddressSpaces.AddressSpace.CopyFromSpace` | proc/elf_exec.cpp:230-248 | succeeds exactly on mapped ranges and returns the bytes there |
| `AddressSpaces.AddressSpace.TranslateUser` | proc/syscall_user.cpp:18-44 | succeeds exactly when the page is mapped for the user (and writable when writing) and gives its frame |
| `AddressSpaces.AddressSpace.CopyFromUser` | proc/syscall_user.cpp:46-66 | reads succeed on exactly the ranges `copy_from_space` accepts, with the same bytes |
| `AddressSpaces.AddressSpace.CopyToUser` | proc/syscall_user.cpp:46-66 | writes succeed exactly on mapped writable ranges and change those bytes only |
| `AddressSpaces.UnmarkGrown` | proc/elf_exec.cpp:132-142 | unmarking the owned frames of a space built from nothing gives the earlier bitmap |
| `AddressSpaces.OthersKeep` | proc/elf_exec.cpp:117-248 | all spaces share one physical memory, and a change to frames of one leaves the tables, the leaves and the pages of any space on other frames as they were |
| `AddressSpaces.BuildAndDestroy` | proc/elf_exec.cpp:117-228 | create, any sequence of mappings and copies with any outcome, destroy: the bytes of the bitmap and the counter are as before and each owned frame was freed once; creation succeeds exactly when there is a kernel table and a free page |
| `Segments.ImagePermissions` | proc/elf_exec.cpp:250-297 | in any order of loading a page is mapped iff a segment touches it, writable iff one that is writable does, no-execute iff NX is on and none that is executable does |
| `Segments.ImageZeroes` | proc/elf_exec.cpp:274-297 | mapped bytes outside every file part are zero |
| `Segments.ImageFilePart` | proc/elf_exec.cpp:274-297 | a byte in file parts is that of the last segment bringing one |
| `Segments.ImageBytes` | proc/elf_exec.cpp:571-598 | with segments that do not overlap each byte of each segment is its file byte below filesz and zero above, also on shared pages |
| `Segments.ImageLimits` | proc/elf_exec.cpp:571-598 | page 0 and the stack are never mapped by segments, and bytes of executable segments are executable |
| `ImageLoader.MapPages` | proc/elf_exec.cpp:286-294 | all pages of the range are mapped with the widened flags, others keep, and exactly the nodes on the way to them are added; failure means memory ran out before the last of those nodes |
| `ImageLoader.MapSegment` | proc/elf_exec.cpp:274-297 | what is seen at every user address afterwards is what it was, widened and overwritten by this segment alone, and exactly the nodes on the way to its pages are there; failure means a bad segment, or that memory ran out before the last of those nodes |
| `ImageLoader.CheckSegments` | proc/elf_exec.cpp:571-598 | accepts exactly the lists of valid, pairwise disjoint segments with the entry point in an executable one |
| `ImageLoader.MapSegments` | proc/elf_exec.cpp:607-613 | from an empty space every user address shows the image the segment list describes, with exactly the nodes on the way to its pages; failure means memory ran out before the last of them |
| `Relocations.ScanDynamic` | proc/elf_exec.cpp:322-362 | the loop computes the last value of each tag up to the terminator, and refuses what it must |
| `Relocations.ApplyOne` | proc/elf_exec.cpp:369-382 | applied exactly when the entry is readable, RELATIVE and aims at mapped bytes of a writable segment; what is seen afterwards is base plus addend modulo 2^64 there and nothing else changed (the words themselves: `RelocatedImage.WordRelocated`) |
| `Relocations.ApplyRelativeRelocations` | proc/elf_exec.cpp:312-384 | succeeds exactly when the table is accepted and every entry can be applied in its turn, and then what is seen is the image with each applied in order; in all cases only bytes of writable segments changed |
| `Relocations.RelocateAgree` | proc/elf_exec.cpp:312-384 | whether an image can be relocated, and what it then shows, depends only on what it shows before |
| `Relocations.RelocatesWritable` | proc/elf_exec.cpp:369-382 | any run over the table changes bytes of writable segments only, and no permission |
| `RelocatedImage.StepsShow` | proc/elf_exec.cpp:369-382 | if the targets are apart from one another and from the table, then after k entries each of the first k targets reads base plus the addend found before any of them, and every other byte is as it was |
| `RelocatedImage.WordRelocated` | proc/elf_exec.cpp:369-382 | with targets apart, the word at the first word of each entry plus the base is the base plus its third word, modulo 2^64, all read from the image before |
| `RelocatedImage.AllRelocatableIs` | proc/elf_exec.cpp:369-382 | with targets apart, whether the whole table can be applied shows in the image before any of it |
| `RelocatedImage.RelocatableIs` | proc/elf_exec.cpp:297-310 | an entry can be applied if and only if it is of type 8 without a symbol and its eight bytes lie in one writable segment |
| `RelocatedImage.TableIs` | proc/elf_exec.cpp:312-366 | which dynamic tables are accepted, by the list of their tags and values up to the terminator: none of the tags 1, 2, 17, 18, 20, 22, 23; 7 and 8 both or neither; entries of 24 bytes; in user space |
| `RelocatedImage.TableNames` | proc/elf_exec.cpp:322-366 | the table lies where the last entry of tag 7 says and has as many entries as the last of tag 8 says |
| `InitialStack.StackPush` | proc/elf_exec.cpp:399-427 | pushing data below what the stack holds keeps what it holds |
| `InitialStack.PushStrings` | proc/elf_exec.cpp:403-422 | the strings lie in order below the earlier ones, at the addresses returned, unless the limit on bytes is exceeded |
| `InitialStack.WriteWords` | proc/elf_exec.cpp:436-463 | the words lie at their addresses and the strings above keep |
| `InitialStack.MapUserStack` | proc/elf_exec.cpp:386-467 | a 16-aligned stack pointer inside the stack; argc, argv, envp and auxv words below and apart from all strings; writable, no-execute when NX is on; everything off the stack keeps; failure means too many bytes, or that memory ran out before the last of the stack's nodes |
| `InitialStack.StackIsAbi` | proc/elf_exec.cpp:386-467 | what a process reads from its stack pointer up: the argument count, the two vectors, and the auxiliary pairs 3, 4, 5, 6, 7, 9, 31 and 0 with their values, 31 pointing at the path |
| `InitialStack.StringUnique` | proc/syscall_user.cpp:78-107 | an address holds at most one C string |
| `InitialStack.VectorUnique` | proc/syscall_user.cpp:78-107 | an address holds at most one null-terminated vector of strings |
| `InitialStack.CopyUserString` | proc/syscall_user.cpp:88-102 | returns the string there; each error means there is none, or none short enough |
| `InitialStack.CopyUserVector` | proc/syscall_user.cpp:78-107 | exactly the vector that is in memory; -7 only for one that exceeds the limits and can be read up to there, -14 only for one that cannot be read and is within them up to there |
| `InitialStack.OneReason` | proc/syscall_user.cpp:78-107 | a vector is too big or cannot be read, never both |
| `InitialStack.TooBigNoneFits` | proc/syscall_user.cpp:78-107 | either of the two means that no vector within the limits is there |
| `InitialStack.StackHasVectors` | proc/elf_exec.cpp:386-467 | the stack built holds argv and envp as vectors |
| `InitialStack.ReadBack` | proc/syscall_user.cpp:78-107 | reading argv and envp back from the new stack returns the original strings and counts |
| `Exec.Populate` | proc/elf_exec.cpp:606-617 | the space shows the segments with the relocations of the dynamic table applied in order; with a table that can be relocated, failure means that memory ran out before the last node was there |
| `Exec.LoadImage` | proc/elf_exec.cpp:482-660 | the status as a function of the strings, the file and the number of free pages: 0 if and only if strings and headers are accepted, there is a kernel table, the strings fit the stack, every relocation can be applied, and the free pages are at least the distinct tables and pages on the way to the segments and the stack; on success exactly that image, stack and number of pages, on failure the bitmap and the counter exactly as before; frames in use are never touched |
| `Exec.Fill` | proc/elf_exec.cpp:599-643 | segments, relocations and stack in an empty space: complete with exactly the nodes needed, or, if the file and the strings are in order, out of memory with strictly fewer |
| `Exec.PagesTaken` | proc/elf_exec.cpp:599-643 | the free pages before are those after and as many more as the new space has nodes |
| `Exec.FramesBound` | proc/elf_exec.cpp:599-643 | an image takes at most one frame, and four for every page of its segments and its stack |
| `Exec.EntryRuns` | proc/elf_exec.cpp:571-617 | in every image that loads, page zero and the stack's pages hold no segment, and the entry point lies below the stack on a page that can be executed |
| `Exec.RelocatedShows` | proc/elf_exec.cpp:606-617 | the closed form of a relocated image: with targets apart, each target reads base plus its addend, and every other byte of a segment is its file byte or zero behind those |
| `LoadedProgram.HeadersAre` | proc/elf_exec.cpp:565-598 | headers are accepted if and only if every segment is in the file, aligned to a power of two, not both written and executed and between page 1 and the stack, no address is in two segments, and the entry point is in an executable one |
| `LoadedProgram.RelocationsAre` | proc/elf_exec.cpp:312-384 | with targets apart, an image can be relocated if and only if its dynamic table is usable and every entry is RELATIVE and aims into a writable segment |
| `LoadedProgram.RelocatedWords` | proc/elf_exec.cpp:369-382 | with targets apart, each target of the finished image is the base plus the addend of its entry |
| `LoadedProgram.WordsInMemory` | proc/elf_exec.cpp:369-382 | the same, read from the memory that `load_image` leaves |
| `LoadedProgram.ReadOnlyKept` | proc/elf_exec.cpp:297-384 | relocating changes no byte of a page that the program cannot write |
| `LoadedProgram.StatusIs` | proc/elf_exec.cpp:482-660 | when `load_image` returns -22, -12, 0 and -8, in terms of the segments, the strings and the free pages |
| `Execve.Activate` | proc/elf_exec.cpp:675-692 | destroying the old space while the new one is in use frees each old frame once and no frame of the new one; physical memory keeps every byte |
| `Execve.Bystander` | proc/elf_exec.cpp:144-248 | a space on frames that were in use shows the same byte and permissions at every user address, and the same kernel half, after another was built in the same physical memory |
| `Execve.ExchangedBits` | proc/elf_exec.cpp:675-692 | the bitmap after a new space was built and the old one freed is the old bitmap with one set of pages exchanged for a disjoint one |
| `Execve.CopyStrings` | proc/syscall_process.cpp:24-40 | argv and envp as the caller holds them; an error if and only if one that is not null is not there within the limits they share, -7 or -14 for the reason it stands for |
| `Execve.ReadableIs` | proc/syscall_process.cpp:24-40 | both vectors can be read if and only if they are there, with at most 64 strings each and 16384 bytes in all |
| `Execve.FailsOnce` | proc/syscall_process.cpp:24-40 | there is at most one error that the vectors can stand for |
| `Execve.SysExecve` | proc/syscall_process.cpp:18-48 | fails exactly for unreadable vectors, with the error they stand for, or with the status of `load_image`; a failure leaves every page, the counter and all that the running space shows as they were; a success exchanges the pages, frees each old frame once, and leaves a complete image on the stack the ABI asks for, with exactly the vectors the caller passed |
| `BlockCache.Device.constructor` | assets/limine-bootloader/limine.c:233-264 | block zero is cached clean and the flat array is the contents |
| `BlockCache.Device.FlushCache` | assets/limine-bootloader/limine.c:266-285 | the device becomes the flat array that reads see; nothing seen changes |
| `BlockCache.Device.ReadBlock` | assets/limine-bootloader/limine.c:295-309 | the block is read whole, exactly when it lies on the device |
| `BlockCache.Device.CacheBlock` | assets/limine-bootloader/limine.c:287-312 | another block is cached without any seen byte changing |
| `BlockCache.Device.Read` | assets/limine-bootloader/limine.c:445-465 | returns the latest bytes across block boundaries, for exactly the ranges within whole blocks of the device |
| `BlockCache.Device.StoreBytes` | assets/limine-bootloader/limine.c:496-516 | the flat array gets the bytes at their place and no others; the device holds a mixture of old and new that the log covers |
| `BlockCache.Device.Write` | assets/limine-bootloader/limine.c:467-522 | logs the bytes that were there, then stores; fails exactly when the log is full or the range leaves the device, with the log as before |
| `BlockCache.Device.ReverseLog` | assets/limine-bootloader/limine.c:328-334 | the log turned around in place |
| `BlockCache.Device.RestoreEntry` | assets/limine-bootloader/limine.c:533-552 | one entry written back without being logged |
| `BlockCache.Device.Uninstall` | assets/limine-bootloader/limine.c:524-574 | drops the cache, dirty or not, and leaves on the device the replay of the log; succeeds exactly when every entry fits |
| `BlockCache.Device.RunStep` | assets/limine-bootloader/limine.c:445-522 | each step keeps the log able to undo everything since the start, for the device and for the flat array alike |
| `BlockCache.Device.Install` | assets/limine-bootloader/limine.c:1206-1226 | any sequence of reads and writes succeeds exactly when each lies on the device and the log holds all writes; then the device is the flat result, every read returned the latest bytes, and replaying the log gives the original; otherwise the device is restored at once |
| `BlockCache.FlatByte` | assets/limine-bootloader/limine.c:466-525 | after a run every byte is that of the last write to it, or what it was |
| `BlockCache.ReadAt` | assets/limine-bootloader/limine.c:446-464 | each read of a run returns the bytes there after the steps before it |
| `BlockCache.ReplayForgets` | assets/limine-bootloader/limine.c:524-556 | replaying depends only on bytes no entry covers |
| `BlockCache.SaveThenPut` | assets/limine-bootloader/limine.c:487-519 | saving what a write will overwrite keeps the log an undo of everything |
| `BlockCache.UndoesOther` | assets/limine-bootloader/limine.c:524-556 | the log undoes any device that differs from the flat array only where it has entries, such as one whose cache was dropped |
| `BlockCache.EntriesRoundTrip` | assets/limine-bootloader/limine.c:342-443 | entries stored anywhere in a file load back |
| `BlockCache.LogRoundTrip` | assets/limine-bootloader/limine.c:342-443 | the stored log loads back as it was |
| `BlockCache.EntryLayout` | assets/limine-bootloader/limine.c:342-380 | the file holds location, number of bytes and bytes, entry after entry |
| `BlockCache.StoreLog` | assets/limine-bootloader/limine.c:342-380 | the file loads back as the log; storing fails exactly for an empty entry |
| `BlockCache.LoadLog` | assets/limine-bootloader/limine.c:382-443 | the reading loop computes the log a file encodes, or refuses it |
| `BlockCache.InstallThenUninstall` | assets/limine-bootloader/limine.c:1206-1226 | install, store the log, uninstall from the file: the device is back to its original bytes; the log is stored exactly when the install succeeded without an empty write, and if it is not stored the device keeps the installed bytes |
| `SlabLists.SizeToIndex` | mem/slab.cpp:13-22 | the smallest class that holds the size |
| `SlabLists.ClassUnique` | mem/slab.cpp:13-26 | a size has one class |
| `SlabLists.ClassSizes` | mem/slab.cpp:13-26 | the nine classes are 16 to 4096 bytes |
| `SlabLists.PokeWord` | mem/slab.cpp:51-57 | a stored word reads back, and every word it shares no byte with keeps |
| `SlabHeap.ChainShort` | mem/slab.cpp:102-153 | a free list never has more elements than the slab has slots, so the count of free objects cannot wrap |
| `SlabHeap.SlabShapes` | mem/slab.cpp:28-49 | the pages and the objects of a slab of each class |
| `SlabHeap.LivesApart` | mem/slab.cpp:79-161 | in every valid heap live objects never overlap |
| `SlabHeap.LiveOffHeaders` | mem/slab.cpp:79-161 | no live object overlaps a slab header |
| `SlabHeap.LiveOffFree` | mem/slab.cpp:79-161 | no live object overlaps any byte of a free slot |
| `SlabHeap.Pop` | mem/slab.cpp:102-116 | taking the head of a free list keeps the heap invariant: lists acyclic, of distinct in-range slots, of length free_count, and every slot free or live |
| `SlabHeap.Push` | mem/slab.cpp:150-153 | returning a live object to its list keeps the invariant |
| `SlabHeap.Add` | mem/slab.cpp:45-60 | a new slab apart from the others keeps the invariant |
| `SlabHeap.WriteLive` | mem/slab.cpp:79-129 | a store into a live object keeps the invariant |
| `SlabHeap.ListedAdd` | mem/slab.cpp:49-60 | each cache still lists exactly the slabs of its class |
| `Slab.CountPages` | mem/slab.cpp:31-37 | the loop stops at the fewest pages that hold the header and four objects |
| `Slab.Allocator.constructor` | mem/slab.cpp:9-11 | before `init` no slab and no object exists |
| `Slab.Allocator.BuildList` | mem/slab.cpp:51-57 | the free list runs through all slots of the new slab; nothing outside it is written |
| `Slab.Allocator.TakePages` | mem/slab.cpp:39-43 | a run of pages apart from every run held, or 0 exactly when there is none |
| `Slab.Allocator.CreateSlab` | mem/slab.cpp:28-61 | a slab with all its slots free is added; live objects and their bytes keep; null exactly when no run of pages is free |
| `Slab.Allocator.Init` | mem/slab.cpp:65-77 | panics exactly when the pages left, taking the lowest run for each class in turn, do not hold all nine slabs: never with sixteen free pages in a row, always with fewer than sixteen free pages; otherwise every cache has a slab |
| `Slab.RoomTaken` | mem/slab.cpp:65-77 | taking the lowest run for one class leaves room for the others exactly when there was room for all |
| `Slab.RoomAtBoot` | mem/slab.cpp:65-77 | sixteen free pages in a row are enough for the nine slabs wherever the lowest runs are, and fewer than sixteen free pages never are |
| `Slab.Allocator.FindSlab` | mem/slab.cpp:98-119 | the first slab with a free object; none means that no slab of the class has one |
| `Slab.Allocator.TakeObject` | mem/slab.cpp:101-117 | the corruption panic is unreachable, and the object was not live |
| `Slab.Allocator.AllocSmall` | mem/slab.cpp:98-129 | a new object of the class, all others and their bytes keep; null exactly when no slab has a free slot and no run of pages is free |
| `Slab.Allocator.AllocLarge` | mem/slab.cpp:82-96 | whole pages with the header in memory in front, 16 bytes into a page, counted modulo 2^64 as the source does, apart from everything held; null exactly when there is no such run; live objects keep their bytes |
| `Slab.Allocator.Alloc` | mem/slab.cpp:79-129 | for every 64-bit size: null exactly for 0, or when neither a slot nor the run of pages asked for is free; never the corruption panic; all live objects keep their bytes |
| `Slab.Allocator.OnFreeList` | mem/slab.cpp:141-148 | the scan finds a pointer exactly when it is on the list |
| `Slab.Hit` | mem/slab.cpp:134-158 | a pointer inside a slab of the class is a live object, a free slot or no slot at all, and the scan of the free list tells which of the first two |
| `Slab.Miss` | mem/slab.cpp:134-161 | a pointer inside no slab of the class is neither |
| `Slab.Allocator.PutBack` | mem/slab.cpp:150-153 | linking a live object in keeps the heap and every other object's bytes; for any pointer memory is exactly what the three stores leave |
| `Slab.LinkInOff` | mem/slab.cpp:150-153 | for a pointer behind the header, its own first word and the head and count of the list are all that changes |
| `Slab.HeaderFreed` | mem/slab.cpp:150-153 | for a pointer to the header's first, third or fifth word, freeing overwrites the link to the next slab, the object size or the count with the head of the list |
| `Slab.Allocator.FreeSmall` | mem/slab.cpp:134-161 | for every pointer: the double-free panic means exactly a free slot of the class, success exactly a live object of it or a pointer inside a slab that is no slot, the invalid-free panic everything else; freeing an object keeps the bytes of all others, and a pointer that is no slot is linked in unchecked, with memory stated byte for byte |
| `Slab.Allocator.FreeLarge` | mem/slab.cpp:163-172 | for every pointer: the pages go back exactly when the word in memory in front of it says between 1 and 1024, whether it is a header or not; with the header of an object held the heap stays valid |
| `Slab.Allocator.Free` | mem/slab.cpp:131-173 | the cases of null, small and large pointers together, for every pointer and every 64-bit size; the heap stays valid for every pointer that aims at a slot or has a header |
| `Slab.Allocator.Store` | mem/slab.cpp:79-129 | a holder may write anywhere in an object without disturbing the heap |
| `Slab.HeldMatches` | mem/slab.cpp:131-161 | freeing a held object with its size always meets the object |
| `Slab.SmallHere` | mem/slab.cpp:46-57 | a live object lies behind the 40 bytes of its slab's header, at a multiple of its class's size |
| `Slab.Run` | mem/slab.cpp:79-161 | any sequence of allocations, stores and matching frees of small objects: no panic is reached; what is held follows from the calls and their results, is live, fits its size, and is apart from other objects, headers and free slots; every byte stored in it is still there; a request fails only if at the end no pages are left for its class |
| `Slab.LargeThenFree` | mem/slab.cpp:82-172 | allocating and freeing a large object restores the bytes of the bitmap if and only if no free run of that many pages exists, the size is at most 1023 pages, or it is so large that the page count wraps |
| `Slab.LargeFits` | mem/slab.cpp:82-96 | the pages taken hold the header and the object if and only if the size is at most 2^64 - 4096; at most 1024 pages are taken exactly for sizes up to 1023 pages or above that bound |
| `Slab.LargestWraps` | mem/slab.cpp:82-96 | a request of 2^64 - 1 bytes is given one page |
| `Slab.LargeStays` | mem/slab.cpp:82-172 | an object of 1024 pages, allocated and freed on an empty machine: `free` ignores it and all its 1025 pages stay used |
| `DynRelocs.BoundedString` | proc/dynlink.cpp:127-137 | a string is found exactly when a zero byte follows inside the table, and is the bytes up to the first one |
| `DynRelocs.RelocationRebased` | proc/dynlink.cpp:154-201 | at another load bias one relocation fails the same way or stores at the same place; its value is the same, or for RELATIVE ones and defined symbols that are not absolute moved by the difference modulo 2^64 |
| `DynRelocs.RelocationFrame` | proc/dynlink.cpp:154-201 | a relocation depends only on its entry, its symbol and the string table |
| `DynRelocs.DistanceFits` | proc/dynlink.cpp:154-201 | the distance to a symbol never overflows for a 32-bit index, so the check on it never fails |
| `DynRelocs.RelocateAppend` | proc/dynlink.cpp:154-202 | two tables applied one after the other are one longer run |
| `DynRelocs.RelocatePlaces` | proc/dynlink.cpp:154-202 | if no target overlaps a later target or what a later entry reads, each entry before the first bad one has stored the value computed from the memory before any of them, and nothing else changed |
| `DynRelocs.Rebase` | proc/dynlink.cpp:139-202 | under that condition two biases stop at the same entry with the same code, and the memories differ only at targets that follow the image, each by exactly the difference modulo 2^64 |
| `DynLink.ScanIsTight` | proc/dynlink.cpp:228-256 | the span holds every accepted loadable segment and both its ends are reached by one |
| `DynLink.CopiedKeeps` | proc/dynlink.cpp:257-269 | bytes that later segments do not bring keep |
| `DynLink.CopiedByte` | proc/dynlink.cpp:257-269 | each byte of the image is that of the last segment bringing one there, or zero as it was |
| `DynLink.NeededOk` | proc/dynlink.cpp:304-331 | the dependencies are accepted exactly when every entry of that tag before the terminator names a string of the table that could be loaded |
| `DynLoader.ReadPrograms` | proc/dynlink.cpp:228-250 | the loop computes the span, or refuses the file |
| `DynLoader.CopySegments` | proc/dynlink.cpp:257-269 | the image is the file parts copied in order, and the range check never fails |
| `DynLoader.FindString` | proc/dynlink.cpp:127-137 | the scanning loop finds the string the table holds |
| `DynLoader.ReadDynamic` | proc/dynlink.cpp:275-302 | the loop reads the table up to its terminator, the last entry of each tag counting |
| `DynLoader.AskDependencies` | proc/dynlink.cpp:304-331 | every dependency is asked for by its name, in order, until one fails |
| `DynLoader.RelocateEntries` | proc/dynlink.cpp:154-202 | the loop applies the entries in order, stopping at the first bad one |
| `DynLoader.ApplyRelocations` | proc/dynlink.cpp:139-202 | the checks of the table and then its entries |
| `DynLoader.CheckHeaders` | proc/dynlink.cpp:210-252 | the header checks with their error codes |
| `DynLoader.PrepareImage` | proc/dynlink.cpp:206-336 | everything done before the load bias is used |
| `DynLoader.LoadElf64` | proc/dynlink.cpp:206-357 | the whole load, array in place, is the function whose image and codes the rows of `LinkedImage` and `DynLoader.LoadRebased` give |
| `DynLoader.FinishIs` | proc/dynlink.cpp:337-357 | both relocation tables amount to one run over their entries, and the remaining error codes do not depend on the bias |
| `DynLoader.LoadRebased` | proc/dynlink.cpp:206-357 | loading one file at two biases gives the same code and size, entry points that differ by the biases, and images that differ only at RELATIVE targets and targets of defined non-absolute symbols, each by exactly the difference modulo 2^64; on success this covers every entry of both tables |
| `DynLoader.LoadedEntries` | proc/dynlink.cpp:206-357 | where no target overlaps a later target or what a later entry reads, the load stops at the first entry that is bad in the image before any relocation, or has applied all of them, each with its value from that image; every byte off their targets is that of the last segment bringing one, or zero |
| `LinkedImage.LoadedImage` | proc/dynlink.cpp:206-357 | under the same separation: every target reads B + A for type 8, S + A for type 1 and S for types 6 and 7, modulo 2^64, said in the words of the entry and of the symbol; the load stops at the first entry refused, for the reason its code stands for; on success every entry of both tables is done and the entry point is the base plus that of the header |
| `LinkedImage.StoredIs` | proc/dynlink.cpp:154-200 | one stored relocation in the words of its entry and its symbol |
| `LinkedImage.RefusedIs` | proc/dynlink.cpp:154-197 | one entry is refused if and only if its target, symbol or name is outside the image or a RELATIVE one has a symbol (-5), its type is another (-8), or its symbol has no definition and is not weak (-7) |
| `LinkedImage.DynamicIs` | proc/dynlink.cpp:275-302 | every field is the value of the last entry with its tag, and missing if and only if there is none |
| `LinkedImage.ProgramLayout` | proc/dynlink.cpp:56-65 | a program header laid out as ELF-64 lays it out is read back field by field |
| `LinkedImage.HeaderIs` | proc/dynlink.cpp:210-252 | the header checks by what the file must be, and the code of each failure |
| `LinkedImage.NeededStops` | proc/dynlink.cpp:304-331 | a failure is that of the first dependency that has no name (-5) or could not be loaded (-6) |
| `LinkedImage.PreparedIs` | proc/dynlink.cpp:254-336 | an accepted file spans exactly its loaded segments and has the last dynamic segment; the code of each failure up to the relocations |
| `Paths.WalkReaches` | fs/vfs.cpp:98-172 | what a walk reaches can be found again by names, with a printed path no longer than the walk |
| `Paths.ResolveAppend` | fs/vfs.cpp:98-172 | walking a longer path is walking its parts |
| `Paths.ResolveMeans` | fs/vfs.cpp:115-166 | after a path that leads to d: one dot stays, two dots go to the parent and stay at the root, any other name leads to the first child of that name; -20, -2 and -36 exactly for no directory, no such child and more than 255 bytes |
| `Paths.ResolveFailed` | fs/vfs.cpp:115-166 | a walk that failed fails the same way however the path goes on |
| `Paths.DownAndUp` | fs/vfs.cpp:126-132 | down to a child and two dots lead back |
| `Paths.ResolvePathOf` | proc/syscall_user.cpp:109-133 | the printed path of anything reached leads back to it |
| `Paths.PathRoundTrip` | proc/syscall_user.cpp:109-133 | a path under 256 bytes that resolves has a printed path of at most that length and under 128 components that resolves to the same dentry |
| `DentryLists.LinkTree` | fs/vfs.cpp:52-85 | linking a new dentry keeps the child and sibling links a tree |
| `DentryLists.UnlinkTree` | fs/vfs.cpp:33-50 | taking a childless dentry out of its sibling list keeps the tree |
| `Vfs.FileSystem.constructor` | fs/vfs.cpp:174-187 | a tree of the root directory alone, with the one reference the mount holds |
| `Vfs.FileSystem.DAlloc` | fs/vfs.cpp:52-85 | a new dentry with one reference, first among its siblings, all else as before; or nothing changed |
| `Vfs.FileSystem.FreeDentry` | fs/vfs.cpp:33-50 | the dentry leaves its sibling list, and every other link and count keeps |
| `Vfs.FileSystem.DPut` | fs/vfs.cpp:33-50 | one reference less, and with the last one the dentry goes |
| `Vfs.FileSystem.DLookup` | fs/vfs.cpp:87-96 | the first child of that name, or null if there is none |
| `Vfs.FileSystem.RamfsLookup` | fs/ramfs.cpp:51-67 | the first sibling of that name other than the dentry itself |
| `Vfs.FindOtherLinked` | fs/ramfs.cpp:51-67 | beside the temporary dentry lookup finds what the directory held before |
| `Vfs.LinkUnlink` | fs/vfs.cpp:33-85 | linking and unlinking undo each other on the whole heap |
| `Vfs.FileSystem.LookupMissing` | fs/vfs.cpp:141-159 | the temporary dentry leaves no trace and finds nothing that the first search missed |
| `Vfs.FileSystem.WalkStep` | fs/vfs.cpp:124-165 | one component with its effect on the counts; what it leads to is stated by `Paths.ResolveMeans` |
| `Vfs.FileSystem.ScanComponent` | fs/vfs.cpp:112-122 | the length of the next name, refused exactly when it is too long |
| `Vfs.FileSystem.ScanSlashes` | fs/vfs.cpp:108-109 | the next position that is not a slash |
| `Vfs.FileSystem.PathWalk` | fs/vfs.cpp:98-172 | on success only the dentry found gains one reference, on every error all counts and lists are as before; the result is what the path means |
| `Vfs.FileSystem.DentryPath` | proc/syscall_user.cpp:109-133 | prints the path of the dentry, failing exactly beyond 128 components or the capacity |
| `FileTable.CloseSlot` | proc/syscall_fs.cpp:56-62 | closing a slot keeps every count equal to its holders, and frees the file exactly when no slot holds it |
| `FileTable.ShareSlot` | proc/syscall_fs.cpp:83-87 | sharing a file keeps the counts |
| `FileTable.OpenSlot` | fs/vfs.cpp:270-286 | a new file keeps the counts |
| `Process.Process.constructor` | proc/syscall_fs.cpp:39-54 | no descriptor open, working directory the root |
| `Process.Process.VfsOpen` | fs/vfs.cpp:202-287 | the exact result for every path and flags, with one more way out when memory is short; a new file on the dentry the path names, which gains one reference; every error leaves counts and files as they were |
| `Process.Process.VfsClose` | fs/vfs.cpp:320-326 | one holder less, and with the last one the file and its reference on the dentry go |
| `UserPaths.CopyUserPath` | proc/syscall_user.cpp:68-77 | the string at the address; each error means exactly that none is there, that it is empty, or that it has 256 bytes or more |
| `Process.Process.SysClose` | proc/syscall_fs.cpp:56-62 | succeeds exactly on open descriptors from 3 on |
| `Process.Process.FindFreeFd` | proc/syscall_fs.cpp:64-69 | the lowest empty slot from the minimum on |
| `Process.Process.DuplicateFd` | proc/syscall_fs.cpp:71-88 | exact result for every case, also onto a slot that holds the same file; all counts balance and files keep their offsets and flags |
| `Process.Process.SysFcntl` | proc/syscall_fs.cpp:115-131 | exact result and effect of each command; F_SETFD looks at the low 32 bits of its argument |
| `Process.Process.CloseOnExec` | proc/syscall_process.cpp:49-55 | closes exactly the marked descriptors from 3 on |
| `Process.Process.CloseAll` | proc/syscall_process.cpp:62-67 | closes every descriptor from 3 on; with 0 to 2 empty no file is left and every dentry is back to one reference |
| `Process.Process.ResolveUserPath` | proc/syscall_user.cpp:135-169 | an absolute path as it is, a relative one joined to the working directory or to the path of an open directory; what that means on the tree is stated by `RelativePaths.JoinedWalk` and `RelativePaths.PathErrors` |
| `Process.Process.SysOpenat` | proc/syscall_fs.cpp:39-54 | the lowest free descriptor from 3 on, a new file on what the path names, counts balanced, or the exact error and nothing changed; what the path names is stated by `RelativePaths.OpenatMeans` |
| `Process.Process.SysChdir` | proc/syscall_fs.cpp:140-154 | the exact result for every input, with one more way out when memory is short; on success the working directory is the canonical path of the directory the path leads to; counts keep |
| `Process.Process.SysFchdir` | proc/syscall_fs.cpp:156-162 | the exact result for every descriptor; the new working directory leads back to the directory if and only if its own name is one a path can carry |
| `Process.PrintedLeadsBack` | proc/syscall_user.cpp:109-133 | the printed path of an opened dentry leads back to it if and only if it is the root or its name is proper |
| `Process.ImproperLeadsAway` | fs/vfs.cpp:98-172 | a dentry named `.`, `..` or nothing is never what the walk of that name finds |
| `Process.AllClosed` | proc/syscall_process.cpp:62-67 | with every slot empty no file is left and every dentry has one reference |
| `Process.Serve` | proc/syscall_fs.cpp:39-162 | one call of any kind returns and does exactly what the state before it demands, with one more way out when memory is short |
| `RelativePaths.JoinedWalk` | proc/syscall_user.cpp:135-168 | a relative path joined to the printed path of a directory is walked from that directory |
| `RelativePaths.OpenTargetIs` | fs/vfs.cpp:202-224 | opening looks for the last name in what the path before the last slash leads to |
| `RelativePaths.OpenatMeans` | proc/syscall_fs.cpp:39-57 | a relative path is followed from the open directory, or the working directory if none is given; the first child of the last name is opened; the error for each way this can fail |
| `RelativePaths.OpenatAbsolute` | proc/syscall_fs.cpp:39-57 | an absolute path is followed from the root whatever the descriptor |
| `RelativePaths.PathErrors` | proc/syscall_user.cpp:135-168 | the errors before any lookup, each exactly for its reason |
| `RelativePaths.OpenBelow` | proc/syscall_fs.cpp:39-57 | the call itself, with memory enough: exactly the child the path names is open afterwards |
| `RelativePaths.GoTo` | proc/syscall_fs.cpp:140-155 | `chdir` of a relative path leads where the path leads from the working directory before |
| `RelativePaths.GoUp` | proc/syscall_fs.cpp:140-155 | `chdir` of two dots makes the parent the working directory, and stays at the root |
| `Process.Run` | proc/syscall_fs.cpp:39-162 | over any sequence of open, close, duplicate, fcntl, chdir, fchdir and exec calls each returns and does what the state before it demands, the counts balance, and the working directory is the canonical path of an existing directory |
| `FileReads.VfsRead` | fs/vfs.cpp:288-298 | the next bytes from the offset on, and the offset moved past them; the exact error for write-only files and for directories, and exactly when offset plus size wraps around so that the copy would leave the file |
| `FileReads.ReadInPieces` | fs/vfs.cpp:288-298 | reads of any sizes from offset 0 give the bytes of the file in order, and the whole of it once one returns 0 |
| `FileReads.ReadRunsOver` | fs/vfs.cpp:288-298 | in any file of two bytes or more, reading one and then asking for 2^64 - 1 is not cut at the end and returns -1 |
| `Dirents.DecodeEncode` | proc/syscall_fs.cpp:201-216 | an encoded record reads back, and the next one starts where its length says |
| `Dirents.RecordIs` | proc/syscall_fs.cpp:183-217 | the bytes of a record: inode number, offset, length, type and name at 0, 8, 16, 18 and 19, zeros behind, a multiple of eight in all |
| `Dirents.RecordsRoundTrip` | proc/syscall_fs.cpp:201-216 | a buffer of records reads back as the entries, and is 8-aligned |
| `Getdents.Readdir` | fs/ramfs.cpp:85-109 | the children from the offset on, at most `count`, and the offset after them |
| `Getdents.MakeRecord` | proc/syscall_fs.cpp:201-216 | the record of a child, of the length its name needs |
| `Getdents.WriteRecord` | proc/syscall_fs.cpp:201-216 | a record is written whole exactly when its range is mapped and writable, otherwise at most a prefix of it is |
| `Getdents.PutRecord` | proc/syscall_fs.cpp:201-216 | the next record is put after those already written, which keep |
| `Getdents.FillRecords` | proc/syscall_fs.cpp:192-223 | as many records as fit, written one after the other into the caller's space and nowhere else, in list order; it stops before the end of a batch exactly when the next record does not fit or cannot be written, with an error exactly when that is the first one |
| `Getdents.SysGetdents64` | proc/syscall_fs.cpp:178-224 | exact result per case; the records are in the caller's space and every other byte of it keeps; the offset moves past exactly the children returned |
| `Getdents.ListDirectory` | proc/syscall_fs.cpp:178-224 | repeated calls with buffers of any sizes list every child exactly once in order and then return 0; more calls than there are children always reach the one that returns 0 or fail; a failure means the buffer did not hold the next record |
| `Getdents.ListingMeans` | proc/syscall_fs.cpp:199-217 | each record names a child with its inode number and the offset behind it, and is of type 4 if the first entry of that name is a directory, else 8 |
| `Cpio.HexRoundTrip` | fs/initramfs.cpp:33-45 | hexadecimal fields read back |
| `Cpio.NibbleIs` | fs/initramfs.cpp:33-45 | the digits are those of both cases and nothing else |
| `Cpio.ParseHex` | fs/initramfs.cpp:33-45 | the digit loop computes the value, or refuses a bad digit |
| `Cpio.NextRecord` | fs/initramfs.cpp:144-201 | the fields, the name and the data are taken from where the record format puts them, every bound refused that the format refuses |
| `Cpio.RecordProgress` | fs/initramfs.cpp:144-201 | each record ends further on inside the archive |
| `Cpio.ReadEncoded` | fs/initramfs.cpp:144-201 | an encoded entry is read back wherever it stands |
| `Cpio.ArchiveRoundTrip` | fs/initramfs.cpp:144-201 | the encoding of any list of entries is read back up to the trailer |
| `TreeGrowth.AddSound` | fs/ramfs.cpp:131-183 | adding a node under a directory keeps the tree sound |
| `TreeGrowth.AddFind` | fs/ramfs.cpp:131-183 | lookups change only for the new name in its directory |
| `TreeGrowth.AddPathOf` | fs/ramfs.cpp:131-183 | printed paths keep |
| `TreeGrowth.AddReached` | fs/ramfs.cpp:131-183 | what was found by its path is still found |
| `TreeGrowth.AddedReached` | fs/ramfs.cpp:131-183 | the new node is found by the path of its directory and its name |
| `Initramfs.SkipDots` | fs/initramfs.cpp:51-65 | the loop stops behind the last leading `./` pair |
| `Initramfs.NormalizePath` | fs/initramfs.cpp:51-65 | leading `./` pairs and one slash go, the rest is cut to fit |
| `Initramfs.NormalizedIs` | fs/initramfs.cpp:51-65 | any number of leading "./" and one "/" are dropped, a single dot is the root, at most 255 bytes stay |
| `Initramfs.CreateNode` | fs/ramfs.cpp:131-183 | a new node under a directory, or nothing changed |
| `Initramfs.Descend` | fs/initramfs.cpp:104-125 | the child of that name, or a new directory of that name if there was none; the reference moves along and all paths keep |
| `Initramfs.MakeDirs` | fs/initramfs.cpp:86-129 | from name to name each child found or made as a directory, until the path ends or there is no directory or memory to go on; with proper names the path leads to what is returned, and all earlier paths keep |
| `Initramfs.EnsureParentDir` | fs/initramfs.cpp:67-130 | the directory a name belongs in with one reference, found or created |
| `Initramfs.ParentFound` | fs/initramfs.cpp:67-130 | with parents before children the directory is already there |
| `Initramfs.NameFree` | fs/initramfs.cpp:132-251 | with distinct names the name is still free |
| `Initramfs.BuiltAdd` | fs/initramfs.cpp:217-246 | one more record keeps the tree exactly what the records describe |
| `Initramfs.LoadRecord` | fs/initramfs.cpp:217-246 | on any tree: the directory the path leads to, or with all that was missing made above it, gains exactly the record's node, unless it is no directory, the type is not supported or memory is short; all counts balance |
| `Initramfs.RecordMeans` | fs/initramfs.cpp:215-244 | counted are records of type 4, a new directory, and 8, a new file with the record's data, of the record's name, and all of those under a directory when memory is not short |
| `Initramfs.PlaceNode` | fs/initramfs.cpp:228-244 | the record's node under the directory found, or nothing and the reason |
| `Initramfs.OneAdded` | fs/initramfs.cpp:217-246 | where the directory is there already, the record's node is all that is added |
| `Initramfs.Load` | fs/initramfs.cpp:132-251 | on any bytes the tree goes from record to record as each of them demands and stays sound with balanced counts; the result is -1 exactly for an archive whose header, sizes, names or modes cannot be read, and else the number of nodes made; a well-formed archive gives exactly its tree |
| `Initramfs.RamfsRead` | fs/ramfs.cpp:69-83 | the bytes of the file from the offset on, cut at its end, for every size; the case where offset plus size wraps around is told apart exactly; the error for directories |
| `Initramfs.BuiltFinds` | fs/initramfs.cpp:132-251 | in the tree described every entry is found by its path, with its data |
| `Initramfs.PackAndLoad` | fs/initramfs.cpp:132-251 | encoding any list of directories and files with distinct names, parents first, and loading it returns the count and a tree where the walk finds every entry with its exact data |
| `Boot.BuiltProper` | fs/initramfs.cpp:132-251 | every name in a loaded tree is one that a path can carry |
| `Boot.LoadAndRun` | fs/initramfs.cpp:132-251 | a fresh file system, an archive loaded into it, then any sequence of calls: every entry is found by its path, each call does what the state before it demands, all counts balance, and the working directory is always canonical, fchdir included |
| `Boot.NamelessOpens` | fs/vfs.cpp:98-172 | with a directory of empty name below `d`, the path `d/` opens that directory |
| `Boot.LoadNameless` | fs/initramfs.cpp:217-246 | the records `d` and `d/` leave such a tree |
| `Boot.FchdirGoesAstray` | proc/syscall_fs.cpp:156-162 | opening `/d/` there and changing to it succeeds, and the working directory stored does not lead back to the directory opened |

## Left out

- `pmm::init` and the Limine memory map: the state it leaves (counter equal to the number of clear bits, page 0 used) is the stated starting point.
- Partial I/O errors and failing `malloc` in `limine.c`: devices fail only by being too short. Argument parsing, GPT and MBR probing and config enrolment are not modelled: they are callers of the cache, and whatever they read and write is a sequence of steps of `BlockCache.Device.Install`.
- ELF header and program-header parsing of `load_image` (`proc/elf_exec.cpp:482-570, 618-643`): the segments, the dynamic segment and the auxiliary-vector values are inputs. The dynamic linker's own header parsing is modelled.
- Execve.SysExecve: the path is an input, the scratch storage for the strings is always there, and the registers of the new image are not modelled; closing the marked descriptors is `Process.Process.CloseOnExec`.
- AddressSpaces.AddressSpace.MapUserPage: frames are below 2^40, as the 52-bit physical addresses of the architecture are; a frame holds either table entries or page bytes, never both views of the same bytes; the accessed and dirty bits that the processor sets are not modelled.
- CR3, MSR and CPUID access, interrupts, assembly stubs, GDT, IDT, APIC, PIT, console, keyboard and logging: hardware state without a law of its own in this repository.
- `proc/sched.cpp`: shared between processors without a lock.
- Atomic counters are plain integers of one thread; counters do not wrap around.
- DynLoader.LoadElf64: the pointers are not null, the buffer does not reach into the last 16 bytes of the address space, and the two callbacks are functions of the name alone.
- DynLoader.LoadRebased: asks that no relocation target overlaps a later target or what a later relocation reads, as the tables of a linked object do not; without it the stored values depend on the order.
- Exec.RelocatedShows: asks that targets are apart from one another and from the table, for the same reason; `Exec.LoadImage` states the order-dependent form without it.
- LinkedImage.LoadedImage: asks for the same separation as `DynLoader.LoadRebased`; `DynLoader.LoadElf64` holds without it.
- LoadedProgram.RelocationsAre: asks for the same separation as `Exec.RelocatedShows`, as do `LoadedProgram.RelocatedWords` and `LoadedProgram.WordsInMemory`.
- RelativePaths.OpenBelow: memory is not short and the joined path has fewer than 256 bytes; `Process.Process.SysOpenat` and `RelativePaths.PathErrors` cover the rest.
- RelativePaths.GoTo: as `RelativePaths.OpenBelow`.
- Slab.Allocator.constructor: the direct map of all pages ends below 2^64.
- Slab.Allocator.FreeSmall: after a pointer that is no slot has been linked in, memory is stated byte for byte, but not what later calls make of the damaged list.
- Slab.Run: the calls are on small objects; stores into large objects are not among them.
- Inode reference counts: in the file system modelled no inode is ever dropped.
- Second mounts, VFS writes and creation: the in-memory file system provides neither `write` nor `create`.
- Process.Process.SysOpenat: takes the string that `UserPaths.CopyUserPath` reads, or its absence.
- FileReads.VfsRead: file lengths are below 2^63.
- Initramfs.RamfsRead: file lengths are below 2^63.
- Initramfs.Load: archives are smaller than 2^63 bytes, and the inode numbers of the nodes made are not stated.
- `sys_lseek`, `sys_stat` and the vector input and output calls: each is one call of what is modelled, or a copy of fields.
- `mem/paging.cpp`, kallsyms and the C library functions: boot-time set-up and pure helpers that no property above rests on.
