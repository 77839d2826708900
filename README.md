# bakaos kernel bookkeeping, modelled in Dafny

This project models the sequential bookkeeping at the core of the bakaos
teaching kernel:

- the kernel message ring buffer behind `dmesg` and its character device;
- page-number arithmetic;
- the address-space areas, with their frame ownership and the growing and
  shrinking heap (`brk`) area;
- the initial user stack layout (strings, platform name, aux vector, envp,
  argv, argc);
- the in-memory directory tree with mount shadowing and path walking;
- the page-backed in-memory file;
- the null and zero devices;
- the two virtio block drivers' cursors;
- the decision logic of the task and file system calls (`exit`, `brk`,
  `pipe2`, `close`, `dup`, `dup3`, `ioctl`, `fcntl`, the directory-descriptor
  check of the `*at` calls, and `getdents64`'s packing of directory records).

Each module states what its operations compute and what state they leave.
It proves those contracts about specification functions, and it proves the
properties the kernel relies on as lemmas. The most important ones:

- the log always holds the last (at most 4096) bytes ever written, and pushing
  two messages equals pushing their concatenation;
- page conversions round-trip;
- growing the heap and shrinking it back restores the heap's range and removes
  exactly the pages the growth added, from the area and from the page table;
- `unmap_all_areas_that` leaves exactly the areas that do not match, in order;
- the initial stack holds argc, argv, envp and the aux vector exactly where
  the loader expects them, with the final top 16-aligned exactly when
  `argc + envc` is odd;
- mount followed by umount restores the directory's mounts;
- `open_child` resolves `.`/`..` first, then a mount, then an opened child,
  then a lookup;
- a walk through a path is the composition of walks through its parts;
- decoding what `getdents64` writes gives back, record by record, the index,
  type and UTF-8 name of each directory entry that fit.

Modules (one file each):

- `Wrappers`, `ByteOrder`, `FsTypes` and `Errno` hold shared values;
- `Console`, `PageNum`, `Memory`, `StackBuilder` and `RamFile`;
- `Tree`, which holds the specification functions, and `Vfs`, the tree as
  the kernel holds it;
- `SpecialInode`;
- `DiskPosition`, `VirtDisk` and `LoongArchDisk`;
- `TaskSyscalls` and `FileSyscalls`.

Where the source updates state in place, the model does the same:

- the ring buffer is a class over an `array`;
- mapping areas, the page table, the frame allocator, the stack builder, the
  directory tree, the in-memory file, the disks, open files and the
  descriptor table are classes whose methods modify their fields;
- loops stay loops, with invariants.

What the kernel asks of code it cannot see becomes a parameter:

- the frame allocator is a source of fresh frame numbers;
- the inodes of other filesystems are a `Backend` value of total functions;
- the path helpers' answers are passed in;
- the descriptor table's choice of index is passed in;
- the user-pointer checks are passed in as a boolean.

## Model

| member | source | states |
|---|---|---|
| Console.RingBuffer.constructor | kernel/src/firmwares/console.rs:22-27 | the log starts empty with head, tail and len 0 |
| Console.RingBuffer.PushMessage | kernel/src/firmwares/console.rs:40-68 | the log becomes the last 4096 bytes of old log ++ message; returns min(msg length, 4096); a longer message leaves head = tail = 0 and len = 4096; tail = (head + len) mod 4096 and len <= 4096 stay invariant |
| Console.RingBuffer.DropOldest | kernel/src/firmwares/console.rs:53-56 | one eviction step removes exactly the oldest byte of the log |
| Console.RingBuffer.AppendFitting | kernel/src/firmwares/console.rs:58-64 | writing at the tail appends the message to the log when it fits, head unchanged |
| Console.RingBuffer.ReadDmesg | kernel/src/firmwares/console.rs:29-38 | copies the first min(buffer length, len) logical bytes in order; rest of the buffer and the ring untouched |
| Console.KernelMessageInode.Metadata | kernel/src/firmwares/console.rs:73-79 | a character device named kmsg whose size is the log length |
| Console.KernelMessageInode.Stat | kernel/src/firmwares/console.rs:100-117 | character mode, size = log length, one 4096-byte block, one link |
| Console.KernelMessageInode.ReadAt | kernel/src/firmwares/console.rs:81-94 | offset >= len reads 0; otherwise reads min(buffer length, len - offset) log bytes starting at offset |
| Console.KernelMessageInode.WriteAt | kernel/src/firmwares/console.rs:96-98 | ignores the offset and behaves as push_message |
| Console.LongMessageKeepsItsTail | kernel/src/firmwares/console.rs:44-51 | a message of at least 4096 bytes leaves exactly its own last 4096 bytes |
| Console.FittingMessageIsAppended | kernel/src/firmwares/console.rs:53-64 | a message that fits is appended with nothing evicted |
| Console.PushTwiceIsPushConcat | kernel/src/firmwares/console.rs:40-68 | eviction drops oldest bytes first: two pushes equal one push of the concatenation |
| Console.SlotsDistinct | kernel/src/firmwares/console.rs:34 | distinct logical positions below the capacity occupy distinct slots of the ring |
| PageNum.AlignDown | crates/address/src/page_num.rs:26-28 | the largest multiple of the alignment not above the address |
| PageNum.AlignUp | crates/address/src/page_num.rs:30-32 | the smallest multiple of the alignment not below the address |
| PageNum.FromAddrFloor | crates/address/src/page_num.rs:26-28 | the page whose start <= addr < end |
| PageNum.FromAddrCeil | crates/address/src/page_num.rs:30-32 | the first page starting at or above addr, less than a page above it |
| PageNum.AtOffsetOfStart | crates/address/src/page_num.rs:42-44 | offset bytes past the page start, inside the page when offset < PAGE_SIZE |
| PageNum.AtOffsetOfEnd | crates/address/src/page_num.rs:46-48 | offset bytes before the page end, inside the page when 0 < offset <= PAGE_SIZE |
| PageNum.StartOffsetOfAddr | crates/address/src/page_num.rs:50-52 | signed distance from the page start, in [0, PAGE_SIZE) iff the address is in the page |
| PageNum.EndOffsetOfAddr | crates/address/src/page_num.rs:54-56 | signed distance from the page end, in [-PAGE_SIZE, 0) iff the address is in the page |
| PageNum.AddrRange | crates/address/src/page_num.rs:62-64 | a PAGE_SIZE-long range holding exactly the addresses whose floor page is n |
| PageNum.PageNumber.StepBy | crates/address/src/page_num.rs:14-16 | adds the offset to the page number in place |
| PageNum.PageNumber.Step | crates/address/src/page_num.rs:10-12 | step is step_by(1) |
| PageNum.PageNumber.StepBackBy | crates/address/src/page_num.rs:22-24 | subtracts the offset in place |
| PageNum.PageNumber.StepBack | crates/address/src/page_num.rs:18-20 | step_back is step_back_by(1) |
| PageNum.StepRoundTrip | crates/address/src/page_num.rs:14-24 | step_by(k) then step_back_by(k) is the identity, and diff_page_count from the start is then 0 |
| PageNum.EndIsNextStart | crates/address/src/page_num.rs:34-40 | end_addr(n) = start_addr(n + 1) = start_addr(n) + PAGE_SIZE |
| PageNum.StartAddrRoundTrip | crates/address/src/page_num.rs:26-36 | floor and ceil of start_addr(n) are both n |
| PageNum.FloorCeilBounds | crates/address/src/page_num.rs:26-32 | floor <= ceil <= floor + 1, equal iff the address is page-aligned |
| PageNum.ToIsize | crates/address/src/page_num.rs:59 | `as i64` / `as isize` and 64-bit wrapping subtraction: a signed 64-bit value congruent to the argument modulo 2^64 |
| PageNum.ToIsizeKeeps | crates/address/src/page_num.rs:59 | values that fit in an isize are kept |
| PageNum.ToIsizeOfLargeUsize | kernel/src/syscalls/task.rs:97 | a usize at or above 2^63 comes back as itself minus 2^64, a negative value |
| PageNum.SameIsize | crates/address/src/page_num.rs:59 | two isize values congruent modulo 2^64 are equal |
| PageNum.DiffPageCount | crates/address/src/page_num.rs:58-60 | an isize congruent to self - other modulo 2^64, equal to self - other whenever that fits in an isize |
| PageNum.WrappingDiff | crates/address/src/page_num.rs:59 | the i64 casts and the wrapping subtraction together agree with the true difference modulo 2^64, and equal it when it fits |
| PageNum.DiffPageCountAntisymmetric | crates/address/src/page_num.rs:58-60 | diff_page_count(a, b) + diff_page_count(b, a) is 0 modulo 2^64, and exactly 0 for page numbers below 2^63; diff_page_count(a + b, b) = a when a fits in an isize |
| PageNum.DiffPageCountAtWrap | crates/address/src/page_num.rs:58-60 | page 2^63 and page 0 are -2^63 apart in both directions, where antisymmetry fails |
| PageNum.AtOffsetZero | crates/address/src/page_num.rs:42-48 | offset 0 gives start_addr and end_addr |
| Memory.MappingArea.constructor | crates/paging/src/memory.rs:92-105 | a new area with the given range, types and permissions that owns no frames |
| Memory.MappingArea.CloneFrom | crates/paging/src/memory.rs:107-115 | copies range, area type, map type and permissions but owns no frames |
| Memory.MappingArea.ApplyMappingSingle | crates/paging/src/memory.rs:127-136 | maps the page to a fresh frame with the area's permissions and owns that frame; nothing else changes |
| Memory.MappingArea.ApplyMapping | crates/paging/src/memory.rs:138-145 | every page of the range is mapped to its own fresh frame with the area's permissions and owned; other pages unchanged |
| Memory.MappingArea.MapPages | crates/paging/src/memory.rs:142-144 | the mapping loop over [from, to) maps and owns exactly those pages |
| Memory.MappingArea.RevokeMappingSingle | crates/paging/src/memory.rs:147-154 | unmaps the page and gives up its frame |
| Memory.MappingArea.RevokeMapping | crates/paging/src/memory.rs:156-160 | every page of the range is unmapped and no longer owned; other pages unchanged |
| Memory.MappingArea.UnmapPages | crates/paging/src/memory.rs:157-159 | the revoking loop over [from, to) removes exactly those pages from ownership and the page table |
| Memory.Position | crates/paging/src/memory.rs:183 | the index of the first area satisfying the predicate, or none when no area does |
| Memory.RejectSkipsFirstMatch | crates/paging/src/memory.rs:195-199 | removing the first match does not change which areas survive all the removals |
| Memory.RejectNoMatch | crates/paging/src/memory.rs:195-199 | with no matching area every area survives |
| Memory.RemovedPages | crates/paging/src/memory.rs:195-199 | a page is removed by the loop exactly when some matching area's range holds it |
| Memory.RemovedPagesSkipsFirstMatch | crates/paging/src/memory.rs:195-199 | removing the first match takes its pages out, and the later rounds remove the rest |
| Memory.MappingArea.Contains | crates/paging/src/memory.rs:117-119 | true exactly when the page lies in [start, end) of the area's range |
| Memory.MappingArea.HasOwnershipOf | crates/paging/src/memory.rs:121-123 | true exactly when the area holds a frame for the page |
| Memory.MemorySpace.BrkPageRange | crates/paging/src/memory.rs:211-213 | the page range of the area at the brk index |
| Memory.MemorySpace.Empty | crates/paging/src/memory.rs:277-300 | no areas, an empty page table, brk index and start usize::MAX |
| Memory.MemorySpace.MapArea | crates/paging/src/memory.rs:175-180 | appends the area; every page of its range is mapped to a fresh frame the area owns; entries outside the range keep their values; the brk index and start are kept |
| Memory.MemorySpace.AreaPosition | crates/paging/src/memory.rs:183 | the search loop finds the first matching area |
| Memory.MemorySpace.RemoveArea | crates/paging/src/memory.rs:185-188 | removes the area at the index, keeping the others in order, and unmaps and disowns its pages |
| Memory.MemorySpace.UnmapFirstAreaThat | crates/paging/src/memory.rs:182-193 | false and nothing changes when no area matches; otherwise only the first match is removed and unmapped, order kept, true |
| Memory.MemorySpace.UnmapNextMatch | crates/paging/src/memory.rs:196 | one round removes and unmaps the first match, or changes nothing when none is left; the areas and the pages that survive all rounds are the same before and after it; surviving areas are untouched |
| Memory.MemorySpace.UnmapAllAreasThat | crates/paging/src/memory.rs:195-199 | afterwards no area matches; the areas left are exactly the non-matching ones, in order and untouched; the page table loses exactly the pages of the matching areas |
| Memory.MemorySpace.UnmapAreaStartsWith | crates/paging/src/memory.rs:201-203 | true exactly when some area starts at the page; then the first such area is removed, order kept, and its pages unmapped and disowned; otherwise nothing changes |
| Memory.MemorySpace.IncreaseBrk | crates/paging/src/memory.rs:215-241 | an end below the start is refused with nothing changed; otherwise the range becomes [start, new end) and each added page is mapped to a fresh frame and owned |
| Memory.MemorySpace.ShrinkBrk | crates/paging/src/memory.rs:243-273 | an end above the current end or below the start is refused with nothing changed; otherwise the range becomes [start, new end) and [new end, old end) is unmapped and disowned |
| Memory.MemorySpace.GrowThenShrinkBrk | crates/paging/src/memory.rs:215-273 | growing and then shrinking back restores the range and removes exactly the pages the growth added from the area's frames and from the page table |
| Memory.RangeSetExtend | crates/paging/src/memory.rs:142 | a page range extended by one page holds one more page |
| StackBuilder.MemorySpaceBuilder.constructor | crates/paging/src/memory.rs:388-401 | nothing pushed yet: argc 0 and both bases at the stack top |
| StackBuilder.MemorySpaceBuilder.Push | crates/paging/src/memory.rs:593-602 | the top moves down by the value's size and is aligned down to its alignment; the value is stored there; memory above the old top is kept |
| StackBuilder.MemorySpaceBuilder.PushByte | crates/paging/src/memory.rs:609-611 | pushing a u8 lowers the top by one and stores it |
| StackBuilder.MemorySpaceBuilder.PushWord | crates/paging/src/memory.rs:671 | pushing a usize on an 8-aligned top lowers it by 8 and stores the word little-endian |
| StackBuilder.MemorySpaceBuilder.PushBytes | crates/paging/src/memory.rs:610-612 | pushing bytes last to first leaves them in order below the old top |
| StackBuilder.MemorySpaceBuilder.PushString | crates/paging/src/memory.rs:609-613 | a NUL-terminated string ends up at the new top, which is returned |
| StackBuilder.MemorySpaceBuilder.PushStrings | crates/paging/src/memory.rs:608-614 | each string is stored NUL-terminated at its recorded address, the last string's address first |
| StackBuilder.MemorySpaceBuilder.PushStringTables | crates/paging/src/memory.rs:605-625 | envp strings then argv strings, each stored at its recorded address |
| StackBuilder.MemorySpaceBuilder.PushPlatformAndRandom | crates/paging/src/memory.rs:627-647 | the platform name starts 8-aligned and the AT_RANDOM placeholder sits just below it, at the returned base |
| StackBuilder.MemorySpaceBuilder.PushAuxTail | crates/paging/src/memory.rs:649-657 | the top is 16-aligned before AT_NULL, then AT_RANDOM pointing at the random base is pushed |
| StackBuilder.MemorySpaceBuilder.PushAuxEntries | crates/paging/src/memory.rs:663-666 | the inherited entries are stored as key, value pairs in their original order |
| StackBuilder.MemorySpaceBuilder.PushAuxVector | crates/paging/src/memory.rs:649-666 | the aux vector is the inherited entries, AT_RANDOM and AT_NULL, with AT_NULL 16-aligned; auxv is emptied |
| StackBuilder.MemorySpaceBuilder.PushWords | crates/paging/src/memory.rs:674-676 | pushing words in order leaves them reversed, last lowest, on top of what was stored |
| StackBuilder.MemorySpaceBuilder.PushEnvpArray | crates/paging/src/memory.rs:668-678 | NULL then the envp pointers; envp_base is the new top |
| StackBuilder.MemorySpaceBuilder.PushArgvArray | crates/paging/src/memory.rs:680-696 | NULL then the argv pointers, argv_base recorded, then argc on top |
| StackBuilder.MemorySpaceBuilder.PushPointerArrays | crates/paging/src/memory.rs:668-702 | argc, argv, NULL, envp and NULL stored from the new top; argv_base = top + 8 and envp_base after argv's NULL |
| StackBuilder.MemorySpaceBuilder.PushVectors | crates/paging/src/memory.rs:627-702 | everything below the strings is laid out as StackImage, and the strings stay intact |
| StackBuilder.MemorySpaceBuilder.InitStack | crates/paging/src/memory.rs:604-703 | argc = number of args, auxv empty, argv_base <= envp_base, the stack holds StackImage and every string at its pointer, and the final top is 16-aligned iff argc + envc is odd; the top only moves down and memory at or above the initial top is kept |
| StackBuilder.StackImageLayout | crates/paging/src/memory.rs:653-696 | the image is argc, the argv pointers and NULL, the envp pointers and NULL, the aux entries, AT_RANDOM and AT_NULL |
| StackBuilder.FinalParity | crates/paging/src/memory.rs:649-696 | counting words down from the 16-aligned AT_NULL entry, the final top is 16-aligned iff argc + envc is odd |
| StackBuilder.StackParity | crates/paging/src/memory.rs:650-651 | going down n words from a 16-byte boundary lands on one iff n is even |
| StackBuilder.AlignDownIsAligned | crates/paging/src/memory.rs:628-629 | aligning down gives an aligned address |
| StackBuilder.AlignedMod | crates/paging/src/memory.rs:629 | the alignment used in the proofs is remainder zero, as the debug assertions check |
| Tree.ToFileSystemError | crates/filesystem-abstractions/src/tree.rs:151-159 | which mount error becomes which filesystem error, both directions |
| Tree.ToErrNo | crates/filesystem-abstractions/src/tree.rs:161-169 | which mount error becomes which error number, both directions |
| Tree.MountNew | crates/filesystem-abstractions/src/tree.rs:273-327 | mounting a fresh node keeps the tree linked and adds exactly one node |
| Tree.MountNewShape | crates/filesystem-abstractions/src/tree.rs:296-306 | the new node replaces the name in mounted and shadows what was mounted there; no other node changes |
| Tree.MountOver | crates/filesystem-abstractions/src/tree.rs:296-306 | mounting over a name never fails and keeps the tree linked |
| Tree.MountEmptyDir | crates/filesystem-abstractions/src/tree.rs:647-662 | mounting one more empty directory at the root adds its name to the set of empty directories mounted there |
| Tree.UmountAtOutcome | crates/filesystem-abstractions/src/tree.rs:329-347 | unmounting keeps the tree linked and its node set |
| Tree.UmountAtResult | crates/filesystem-abstractions/src/tree.rs:329-347 | fails with FileNotExists and changes nothing iff the name is not mounted; otherwise returns the mounted node and remounts what it shadowed |
| Tree.MountThenUmount | crates/filesystem-abstractions/src/tree.rs:296-346 | mount then umount of a name returns the new node and restores the directory's mounts |
| Tree.Lookup | crates/filesystem-abstractions/src/tree.rs:483-493 | an empty directory has no children to look up |
| Tree.OpenChildOutcome | crates/filesystem-abstractions/src/tree.rs:373-420 | resolving a name keeps the tree linked and only ever adds what it opened |
| Tree.OpenChildQuiet | crates/filesystem-abstractions/src/tree.rs:379-397 | `.`, `..` and a mounted child resolve without changing the tree |
| Tree.OpenChildPrecedence | crates/filesystem-abstractions/src/tree.rs:379-419 | a mount beats a live opened child, which beats a lookup; a looked-up child is recorded in opened |
| Tree.ForgetThenOpen | crates/filesystem-abstractions/src/tree.rs:357-419 | after close, resolving the name asks the wrapped inode again |
| Tree.WalkOutcome | crates/filesystem-abstractions/src/tree.rs:673-681 | walking components keeps the tree linked and returns a node in it |
| Tree.WalkAppend | crates/filesystem-abstractions/src/tree.rs:673-681 | walking a + b is walking a and then b from where a ended |
| Tree.WalkMountedPath | crates/filesystem-abstractions/src/tree.rs:673-681 | a path through mounted children reaches the node it names and changes nothing |
| Tree.Split | crates/filesystem-abstractions/src/tree.rs:674 | the pieces between separators, none holding a separator |
| Tree.JoinSplit | crates/filesystem-abstractions/src/tree.rs:674 | splitting and joining back gives the path |
| Tree.SplitJoin | crates/filesystem-abstractions/src/tree.rs:674 | joining separator-free components and splitting gives them back |
| Tree.SkipEmpty | crates/filesystem-abstractions/src/tree.rs:675 | drops exactly the leading empty components |
| Tree.Names | crates/filesystem-abstractions/src/tree.rs:424-447 | the names from the topmost ancestor down end with the node's own name |
| Tree.FullPathOfChild | crates/filesystem-abstractions/src/tree.rs:424-447 | a child's full path is its parent's, a separator and its name |
| Tree.EmptyDirStat | crates/filesystem-abstractions/src/tree.rs:619-641 | an empty directory's stat: directory mode, size 0, one link, block size 512, no blocks |
| Tree.EntryOf | crates/filesystem-abstractions/src/tree.rs:583-595 | a mounted child is listed under its mount name, an empty one as a directory |
| Tree.UnexcludedMembers | crates/filesystem-abstractions/src/tree.rs:607-611 | the filter keeps exactly the entries whose names are not excluded |
| Tree.FilenamesUnexcluded | crates/filesystem-abstractions/src/tree.rs:607-611 | filtering removes exactly the excluded names |
| Vfs.DirectoryTree.Initialize | crates/filesystem-abstractions/src/tree.rs:647-662 | an unnamed root with exactly the top-level directories mounted as empty directories |
| Vfs.DirectoryTree.MountEmptyDirs | crates/filesystem-abstractions/src/tree.rs:653-661 | the loop mounts an empty directory under each name |
| Vfs.DirectoryTree.MountNode | crates/filesystem-abstractions/src/tree.rs:296-306 | the arena becomes MountNew of the old one; the new node's id is returned |
| Vfs.DirectoryTree.MountAs | crates/filesystem-abstractions/src/tree.rs:273-307 | the name defaults to the inode's filename, InvalidInput when that metadata fails; otherwise mounts as MountNew |
| Vfs.DirectoryTree.MountEmpty | crates/filesystem-abstractions/src/tree.rs:309-327 | mounts a fresh empty directory as MountNew |
| Vfs.DirectoryTree.UmountAt | crates/filesystem-abstractions/src/tree.rs:329-347 | the arena and result are UmountAtOutcome of the old arena |
| Vfs.DirectoryTree.Close | crates/filesystem-abstractions/src/tree.rs:357-364 | removes the name from opened and mounted and reports (was opened, was mounted) |
| Vfs.DirectoryTree.OpenChild | crates/filesystem-abstractions/src/tree.rs:373-420 | the arena, next id and result are OpenChildOutcome |
| Vfs.DirectoryTree.Fullpath | crates/filesystem-abstractions/src/tree.rs:424-447 | the climbing loop builds FullPath, the names from the top down joined by separators |
| Vfs.DirectoryTree.Metadata | crates/filesystem-abstractions/src/tree.rs:459-481 | an empty directory is a Directory of size 0 with children_count = number of mounts; a wrapped inode's metadata under the node's name |
| Vfs.DirectoryTree.Stat | crates/filesystem-abstractions/src/tree.rs:619-641 | an empty directory fills the fixed directory record; a wrapped inode answers itself |
| Vfs.DirectoryTree.MountedEntries | crates/filesystem-abstractions/src/tree.rs:579-596 | lists each mounted child once under its mount name |
| Vfs.DirectoryTree.ReadDirAsWritten | crates/filesystem-abstractions/src/tree.rs:572-617 | an empty directory lists exactly its mounts; a wrapped inode's listing is only the inode's own entries |
| Vfs.DirectoryTree.ReadDir | crates/filesystem-abstractions/src/tree.rs:572-617 | the inode's entries followed by every mount whose name they lack; the names are the inode's names plus the mounted names |
| Vfs.DirectoryTree.Mkdir | crates/filesystem-abstractions/src/tree.rs:509-528 | a mounted name gives AlreadyExists; a wrapped inode makes it itself; an empty directory mounts a fresh empty one |
| Vfs.DirectoryTree.Touch | crates/filesystem-abstractions/src/tree.rs:553-570 | a wrapped inode creates the file; an empty directory mounts a new in-memory file |
| Vfs.DirectoryTree.Rmdir | crates/filesystem-abstractions/src/tree.rs:530-540 | a mounted name is simply unmounted; otherwise the wrapped inode answers |
| Vfs.DirectoryTree.Remove | crates/filesystem-abstractions/src/tree.rs:542-551 | as rmdir, with the inode's remove |
| Vfs.DirectoryTree.Walk | crates/filesystem-abstractions/src/tree.rs:673-681 | the loop over components gives WalkOutcome |
| Vfs.DirectoryTree.GlobalOpen | crates/filesystem-abstractions/src/tree.rs:664-682 | a relative path with no base is InvalidInput and changes nothing; otherwise walks its components from the root or the base |
| Vfs.DirectoryTree.GlobalMount | crates/filesystem-abstractions/src/tree.rs:723-763 | a root path replaces the root by a node shadowing it; otherwise walks to the parent (FileNotExists if that fails) and mounts there |
| Vfs.DirectoryTree.GlobalUmount | crates/filesystem-abstractions/src/tree.rs:684-721 | a root path restores the shadowed root, or a fresh empty one; otherwise walks to the parent and unmounts there |
| RamFile.PagesFor | crates/filesystem-abstractions/src/tree.rs:54 | the fewest pages that hold n bytes |
| RamFile.RamFileInode.constructor | crates/filesystem-abstractions/src/tree.rs:25-33 | an empty file with no frames |
| RamFile.RamFileInode.Metadata | crates/filesystem-abstractions/src/tree.rs:37-46 | a File with the file's name, size = contents length, no children |
| RamFile.RamFileInode.Stat | crates/filesystem-abstractions/src/tree.rs:119-138 | a regular file with one link, size = contents length, 4096-byte blocks, just enough blocks for the contents |
| RamFile.RamFileInode.WriteAt | crates/filesystem-abstractions/src/tree.rs:48-84 | size becomes max(size, offset + len); the buffer reads back at offset; other old bytes are kept; returns the buffer length |
| RamFile.RamFileInode.ReadAt | crates/filesystem-abstractions/src/tree.rs:86-117 | offset >= size reads 0; otherwise reads min(len, size - offset) bytes of the file from offset |
| RamFile.ReadFrames | crates/filesystem-abstractions/src/tree.rs:95-114 | the copy loop, with the corrected in-page length, copies the file bytes [offset, end) to the front of the buffer, rest untouched |
| RamFile.ReadFrame | crates/filesystem-abstractions/src/tree.rs:97-113 | one pass copies the file bytes from the current position up to the end of the range or of the frame holding it (the corrected in-page length) |
| RamFile.WriteFrames | crates/filesystem-abstractions/src/tree.rs:62-83 | the frame loop splices the whole buffer in at offset and counts all of it |
| RamFile.SpliceRead | crates/filesystem-abstractions/src/tree.rs:48-84 | the written bytes read back and the bytes outside them are unchanged |
| RamFile.FrameSliceEnd | crates/filesystem-abstractions/src/tree.rs:63 | the frame range a write goes through covers the written bytes and never exceeds the frames the file has |
| RamFile.AlignedEndOverrunsFrames | crates/filesystem-abstractions/src/tree.rs:63 | as written, a write ending on a page boundary at or past the end of the file names one frame more than the file has |
| RamFile.FirstPageWriteOverruns | crates/filesystem-abstractions/src/tree.rs:53-63 | as written, writing one page at offset 0 of an empty file slices out of range |
| RamFile.InPageLength | crates/filesystem-abstractions/src/tree.rs:64-65 | one step copies up to the end of the range or the page, never past the page, and makes progress |
| RamFile.InPageCopyOverrunsPage | crates/filesystem-abstractions/src/tree.rs:64-65 | as written, a step overruns its page iff it starts inside a page and more bytes remain than the page has left |
| RamFile.TwoBytesAcrossPagesOverrun | crates/filesystem-abstractions/src/tree.rs:64-78 | as written, writing two bytes at offset 4095 copies one byte past frame 0 |
| SpecialInode.DeviceMetadata | crates/filesystem-abstractions/src/special_inode.rs:16-23 | Ok: a character device of size 0, no children, named "null" (the zero device, lines 63-70, reports the same) |
| SpecialInode.DeviceStat | crates/filesystem-abstractions/src/special_inode.rs:25-41 | Ok: character mode, size 0, 512-byte blocks, no blocks, one link, zero ids and times (the zero device, lines 72-88, reports the same) |
| SpecialInode.DeviceWriteAt | crates/filesystem-abstractions/src/special_inode.rs:48-50 | accepts the whole buffer (the zero device, lines 97-99, does the same) |
| SpecialInode.NullReadAt | crates/filesystem-abstractions/src/special_inode.rs:44-46 | reads 0 bytes and leaves the buffer untouched |
| SpecialInode.ZeroReadAt | crates/filesystem-abstractions/src/special_inode.rs:91-95 | fills the whole buffer with zeros and returns its length |
| DiskPosition.Split | crates/drivers/src/virt.rs:49-52 | the sector and in-sector offset recombine to the position, offset below 512 |
| DiskPosition.SplitJoin | crates/drivers/src/virt.rs:45-52 | a cursor with offset below 512 is recovered from its position |
| VirtDisk.VirtioDisk.constructor | crates/drivers/src/virt.rs:20-26 | a new disk starts at position 0 |
| VirtDisk.VirtioDisk.GetPosition | crates/drivers/src/virt.rs:45-47 | sector * 512 + offset; with the offset inside its sector, splitting it back gives the same sector and offset |
| VirtDisk.VirtioDisk.SetPosition | crates/drivers/src/virt.rs:49-52 | get_position then returns the position, and the offset is below 512 |
| VirtDisk.VirtioDisk.MoveCursor | crates/drivers/src/virt.rs:54-56 | the position grows by exactly the amount |
| VirtDisk.VirtioDisk.ReadBlocks | crates/drivers/src/virt.rs:33-37 | reads the sectors from the current sector |
| VirtDisk.VirtioDisk.WriteBlocks | crates/drivers/src/virt.rs:39-43 | writes the sectors at the current sector, the rest of the disk kept |
| LoongArchDisk.VirtioDisk.constructor | crates/drivers/src/loongarch64/virt/block.rs:18-24 | a new disk starts at sector 0, offset 0 |
| LoongArchDisk.VirtioDisk.GetPosition | crates/drivers/src/loongarch64/virt/block.rs:51-53 | sector * 512 + offset; with the offset inside its sector, splitting it back gives the same sector and offset |
| LoongArchDisk.VirtioDisk.SetPosition | crates/drivers/src/loongarch64/virt/block.rs:55-58 | get_position then returns the position, and the offset is below 512 |
| LoongArchDisk.VirtioDisk.ReadBlocks | crates/drivers/src/loongarch64/virt/block.rs:31-39 | a no-op at or past the capacity; otherwise reads the sectors from the current sector |
| LoongArchDisk.VirtioDisk.WriteBlocks | crates/drivers/src/loongarch64/virt/block.rs:41-49 | a no-op at or past the capacity; otherwise writes the sectors at the current sector |
| TaskSyscalls.ToI32 | kernel/src/syscalls/task.rs:22 | `as i32`: a 32-bit value congruent to the argument modulo 2^32 |
| TaskSyscalls.ToI32Keeps | kernel/src/syscalls/task.rs:22 | values that fit in 32 bits are kept |
| TaskSyscalls.ToI32Periodic | kernel/src/syscalls/task.rs:22 | codes 2^32 apart exit alike |
| TaskSyscalls.Exit | kernel/src/syscalls/task.rs:16-26 | status Exited, exit code the argument as i32, returns 0 |
| TaskSyscalls.Brk | kernel/src/syscalls/task.rs:76-113 | 0 or the current break reports it; lower is -1; below the heap's page end only moves the break; these keep the heap and page table; otherwise grows the heap to the ceiling page, mapping each added page to a fresh frame the heap owns and keeping every other entry and frame, storing and returning brk, or -1 with nothing changed; the break returned is cast to isize, so an address at or above 2^63 is returned negative |
| FileSyscalls.OpenFile.SetFlags | kernel/src/syscalls/file.rs:689-693 | stores the flags iff the file accepts them, and says whether it did |
| FileSyscalls.FdTable.Allocate | kernel/src/syscalls/file.rs:40-46 | the chosen free index gets the descriptor; a refusal changes nothing |
| FileSyscalls.FdTable.AllocateAt | kernel/src/syscalls/file.rs:216-219 | the requested index gets the descriptor when accepted; a refusal changes nothing |
| FileSyscalls.FdTable.Remove | kernel/src/syscalls/file.rs:159 | removes just that index |
| FileSyscalls.Pipe2 | kernel/src/syscalls/file.rs:20-57 | a bad pointer is BadAddress; no read slot is TooManyOpenFiles; no write slot removes the read end again (no leak) and is TooManyOpenFiles; otherwise both ends are added and 0 returned |
| FileSyscalls.Close | kernel/src/syscalls/file.rs:156-163 | always 0; the fd is gone and every other entry is kept |
| FileSyscalls.Dup | kernel/src/syscalls/file.rs:173-187 | a missing fd is BadFileDescriptor; otherwise the same descriptor at a new index, or TooManyOpenFiles with nothing changed |
| FileSyscalls.Dup3 | kernel/src/syscalls/file.rs:197-223 | equal fds return newfd untouched; a missing oldfd is BadFileDescriptor; an open newfd is closed before allocate_at |
| FileSyscalls.IoControl | kernel/src/syscalls/file.rs:654-664 | 0 iff the fd exists, BadFileDescriptor otherwise |
| FileSyscalls.FileControl | kernel/src/syscalls/file.rs:674-717 | SETFL stores the flags or reports a bad state; GETFD and GETFL return the flags; DUPFD duplicates; SETFD is 0; anything else InvalidArgument; a missing fd is BadFileDescriptor; the file's offset is always kept, and its flags too except under SETFL |
| FileSyscalls.ResolveDirfd | kernel/src/syscalls/file.rs:73-75 | rejected with BadFileDescriptor iff negative and not AT_FDCWD; AT_FDCWD means the working directory |
| FileSyscalls.EncodeChar | kernel/src/syscalls/file.rs:512 | UTF-8 encoding of one character: 1 to 4 bytes, none zero for a non-NUL character |
| FileSyscalls.Utf8NoNul | kernel/src/syscalls/file.rs:512 | a name without NUL characters encodes without zero bytes |
| FileSyscalls.TypeCode | kernel/src/syscalls/file.rs:530-534 | `d_type` 1 exactly for a regular file and 2 exactly for a directory |
| FileSyscalls.Record | kernel/src/syscalls/file.rs:513-541 | a record is 24 bytes of header plus the name plus a NUL |
| FileSyscalls.PackedStopsAtOverflow | kernel/src/syscalls/file.rs:515-517 | packing stops only at the first record that would overflow the buffer |
| FileSyscalls.UnpackPacked | kernel/src/syscalls/file.rs:502-545 | decoding the packed image gives back the records of the entries that fit, in order |
| FileSyscalls.ListingReadBack | kernel/src/syscalls/file.rs:502-545 | each decoded record has inode = index, type 1 or 2 and the entry's UTF-8 name, starting at the file offset |
| FileSyscalls.ZeroFill | kernel/src/syscalls/file.rs:502 | the buffer is zeroed first |
| FileSyscalls.ItemAt | kernel/src/syscalls/file.rs:512 | the entry at the index as the packing loop reads it: its name's UTF-8 bytes and type code |
| FileSyscalls.StoreRecord | kernel/src/syscalls/file.rs:519-544 | the record's bytes go into the buffer at offset, which then matches the packed image up to the record's end and zeros after it; the file's offset moves past the entry, flags kept |
| FileSyscalls.PackEntries | kernel/src/syscalls/file.rs:502-547 | entries before the offset are skipped; the buffer holds the packed image and zeros after it; returns its length <= len; the offset becomes last written index + 1 |
| FileSyscalls.GetDents64 | kernel/src/syscalls/file.rs:465-551 | BadAddress, BadFileDescriptor, FileDescriptorInBadState and NotADirectory in that order; otherwise PackEntries' result; on failure the buffer and the offset are untouched; the file's flags are always kept |
| ByteOrder.DecodeEncode | kernel/src/syscalls/file.rs:527-529 | a value that fits decodes back from its little-endian bytes |
| ByteOrder.EncodeDecode | kernel/src/syscalls/file.rs:527-529 | little-endian bytes re-encode to themselves |

## Left out

- Locks (`SpinMutex`, `RwSpinLock`) guard one call each. Atomics, logging and `debug_assert!` are not modelled.
- The SBI console calls are left out, and so are `dmesg`'s global instance and the `LegacyConsole` writer.
- Integers are unbounded except in these explicit conversions: `code as i32` in `exit` (TaskSyscalls.ToI32), `as isize` on the break `brk` returns and the `i64` casts and subtraction of `diff_page_count` (PageNum.ToIsize), and the `as u16` record length of `getdents64` (two little-endian bytes). The other `as isize` casts, of descriptor numbers and of the byte count `getdents64` returns, are taken as exact. A `usize` overflow in arithmetic is not modelled.
- PageNum.DiffPageCount: the `i64` subtraction is taken to wrap, as in a release build. A debug build panics on that overflow instead.
- PageNum.StepRoundTrip: requires that stepping forward stay within `usize`. The source's `+=` panics or wraps there.
- Memory.MemorySpace.UnmapFirstAreaThat: the predicate is a function of an area's description (range, types, permissions), not of the whole area as the source's `Fn(&MappingArea) -> bool` is. The source's predicates (`unmap_area_starts_with`) look only at the range; a predicate on the frames an area owns is not modelled. The same holds for UnmapNextMatch, UnmapAllAreasThat and AreaPosition.
- The `from_elf` loader is not modelled: it relies on an external ELF parser. The auxv entries it collects are a constructor argument of the stack builder.
- `clone_existing`, `register_kernel_area`, `satp` and activation are not modelled: they copy raw pages and write page-table entries directly.
- The page table is a map from virtual page to (frame, flags), and frames are numbers handed out fresh. Out-of-memory panics (`alloc_frame().unwrap()`, "Out of memory") are not modelled, so allocation always succeeds.
- Memory.MemorySpace.IncreaseBrk: requires that the new end not lie strictly inside the current range. There the source casts a negative page count to `usize` (crates/paging/src/memory.rs:223-230). Its only caller, `brk`, asks only for an end at or past the current one.
- PageNum.PageNumber.StepBackBy: requires no underflow below page 0. The source's `usize` subtraction panics or wraps there.
- PageNum.AtOffsetOfEnd: requires that the offset not exceed the page's end address, for the same reason.
- StackBuilder.MemorySpaceBuilder.InitStack: the stack holds 64-bit little-endian words. The value copy across page tables is a write into a byte-addressed memory below the stack top.
- StackBuilder.MemorySpaceBuilder.InitStack: requires enough room below the top, where the source would run into the guard page.
- The directory tree's reference counting, weak pointers and the `Drop` that closes a node are not modelled. Nodes live in an arena, and a closed name is forgotten explicitly.
- The inodes of other filesystems are the `Backend` parameter, a set of total functions. They cannot change between calls.
- The answers of the path helpers used by `global_mount` and `global_umount` are parameters: full qualification, parent path and file name.
- `read_dir`'s order follows the `mounted` map's iteration. The model states the listed names and entries, not the order of the mounts.
- `open_as_file` is not modelled, and neither is the `.`/`..` TODO in `read_dir`.
- Vfs.DirectoryTree.ReadDir: requires every mounted child to report metadata. The source panics ("Mounted node with no metadata") otherwise.
- RamFile.RamFileInode.WriteAt: a freshly allocated frame's contents are the parameter `blank`, one page shared by every frame one write allocates. The kernel does not clear frames, so each may hold different bytes; the model constrains the uncleared bytes a write past the end leaves readable more than the kernel does.
- RamFile.RamFileInode.WriteAt: modelled with the corrected frame range and in-page length (see Findings). The as-written code overruns.
- RamFile.RamFileInode.ReadAt: modelled with the corrected in-page length, as are its loop RamFile.ReadFrames and one pass RamFile.ReadFrame. The source's `readat` (crates/filesystem-abstractions/src/tree.rs:99) has the same in-page length as `writeat`: a read of 2 bytes at offset 4095 of an 8192-byte file returns frame 0's last byte and then the byte after frame 0, not the file's byte 4096. The model returns the file's bytes.
- VirtDisk.VirtioDisk.ReadBlocks: requires that the device hold the sectors. The driver panics through `expect` when the device refuses (crates/drivers/src/virt.rs:33-37). The virtio device itself is its contents.
- VirtDisk.VirtioDisk.WriteBlocks: requires that the device hold the sectors written. The driver panics through `expect` when the device refuses the write (crates/drivers/src/virt.rs:39-43); the panic is not modelled.
- LoongArchDisk.VirtioDisk.ReadBlocks: requires that a read starting below the capacity end inside the device. A read that starts below the capacity but runs past it makes the device refuse, and the driver panics through `expect` (crates/drivers/src/loongarch64/virt/block.rs:31-39); that panic is not modelled.
- LoongArchDisk.VirtioDisk.WriteBlocks: requires that a write starting below the capacity end inside the device. A write that starts below the capacity but runs past it panics through `expect` (crates/drivers/src/loongarch64/virt/block.rs:41-49); that panic is not modelled.
- FileSyscalls.FdTable.Allocate: the index `allocate` picks, or its refusal, is a parameter. So is whether `allocate_at` accepts an index. The table's own policy and limits are not modelled.
- FileSyscalls.Pipe2: the pipe ends are parameters. `PipeBuilder` is not modelled. The read end written to user memory as `i32` is taken to be the index allocated, so descriptors are assumed below 2^31.
- FileSyscalls.FileControl: flags are a number. `OpenFlags::from_bits_truncate` is not modelled. `F_DUPFD` ignores its minimum-descriptor argument, as the source does.
- FileSyscalls.GetDents64: requires the listing to hold no character devices. The source's `match` on the entry type has no arm for them (kernel/src/syscalls/file.rs:530-534).
- FileSyscalls.GetDents64: the directory's listing is a snapshot taken when the descriptor was opened. The `u64` header fields take their low 8 bytes, and `entry_len` its low 2.
- FileSyscalls.ListingReadBack: read-back is proved for names without NUL characters whose records are under 64 KiB, so that `entry_len` as `u16` is exact.
- FileSyscalls.ResolveDirfd: models only the directory-descriptor check. What `openat`, `mkdirat`, `newfstatat` and `unlinkat` do with the path afterwards is not modelled.
- The `times` system call (timers) and the async `nanosleep` loop are not modelled, nor the trap, boot and register-layout code.

## Findings

| source | as written | input that shows it | evidently intended | confidence | as-written member | corrected member |
|---|---|---|---|---|---|---|
| crates/filesystem-abstractions/src/tree.rs:607-611 | a mounted entry is appended only if `mounted` has no entry of its name, which never holds because every such entry comes from `mounted` | any inode-backed directory with a child mounted under it: `read_dir` lists only the inode's own entries | append each mounted entry whose name the inode's own listing lacks | medium, not executed | Vfs.DirectoryTree.ReadDirAsWritten | Vfs.DirectoryTree.ReadDir |
| crates/filesystem-abstractions/src/tree.rs:63 | the frames walked end at `end_size / 4096 + 1` | `writeat(0, 4096 bytes)` on an empty file: one frame, slice `0..2` out of range | end at the frames the bytes need, `(end_size + 4095) / 4096` | high, not executed | RamFile.FirstPageWriteOverruns | RamFile.FrameSliceEnd |
| crates/filesystem-abstractions/src/tree.rs:65 | the in-page length is `min(4096, end_size - current)`, ignoring where in the page `current` is (also line 99 in `readat`) | `writeat(4095, 2 bytes)`: copies 2 bytes from in-page offset 4095, one past frame 0 | `min(4096 - current % 4096, end_size - current)` | high, not executed | RamFile.TwoBytesAcrossPagesOverrun | RamFile.InPageLength |
