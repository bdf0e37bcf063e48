# MiniOS in Dafny

A model of the MiniOS kernel (`os/kernel`), of the memory unit of its RISC-V emulator (`cemu/src/mmu.cpp`) and of the two
image tools (`tools`), with proofs about whole runs. `dafny verify dfyconfig.toml` checks everything.

Each component has two forms. Functions over plain values say what an operation does; lemmas about them carry the
properties. Classes with fields that change in place follow the C and Python sources loop by loop, and every method is
proved to compute what its function says. The state of a class is exactly the state of the model, so what is proved of
all runs of the model holds of all sequences of method calls.

- MiniFS: `Bytes`, `Disk` (sectors and records), `FsBlocks` (allocation and ownership), `FsFiles` (contents), `DirTree`,
  `FsTree` (directories), `FsLeaks`, `BlockCounts`, `Paths`, `PathLaws`, `TreeChanges`, `FsRuns`, `PathCalls`, `StaleDir`; in place
  `MiniFs`.
- Descriptors and file calls: `Descriptors`, `DescriptorMap`, `FileCalls`, `CallLaws`, `SysIo`; in place `FdTable`, `FileLayer`.
- Processes: `TaskModel`, `TaskInv`, `Scheduling`, `Turns`, `ExitStatus`, `TaskTree`; in place `TaskTable`.
- Synchronisation: `Semaphores` and `Sync` (mutexes) under every interleaving; in place `MutexCell`.
- Memory: `PhysMem`, `Mmu` (the Sv39 walk), `MmuMarks`, `PageAlloc`, `Spaces`, `SpaceOps`, `SpaceCopy`, `SpaceView`, `ElfLoad`,
  `InitStack`, `Programs`, `PageNeeds`, `ElfFormat`, `ProgramFiles`, `Vm`, `KernelAccess`; in place `KernelMemory`.
- The whole kernel: `KernelModel` (tasks, descriptors, spaces and satp as one machine), `TaskOwners`, `SlotSpaces`,
  `KernelRuns`, `KernelIsolation`, `KernelCallers`, `ElfRuns`; in place `KernelLayer`.
- Images: `BootImage` with `BootLoader`; `Mkfs`, `MkfsImport`, `MkfsFits`, `MkfsImage` with `MkfsBuilder`.

The main results: block ownership, file contents and the directory tree over every run of MiniFS; exact reference counts
and no freed inode open over every run of file calls; agreement of the page-table walk with the list of mappings for every
address; from boot, over every run of the whole kernel (create, fork, exec, exit, kill, wait, interrupts, file calls and
user stores), a process table, descriptor tables, address spaces and satp that agree, isolation and exact page accounting;
the exact conditions under which fork, exec, creation and import succeed; bounded waiting and first-come order over every
run of the scheduler; no lost wake-up, and every exit code delivered once; mutual exclusion under every interleaving; and
the round trips from argument vectors to the start-up code, from the headers of a program file through exec and the page tables
to what the program reads, from `mkfs` to the kernel and from the installer to the boot loader.

Where the code does not keep a property everywhere, the exact condition is proved and the failing inputs are shown:
creating in a removed working directory (`StaleDir`), a failing creation that loses a block (`FsTree`, `FsLeaks`), idle
hanging in a wait and waiting for target 0 (`TaskInv`), creating a task or attaching a program from a process that
has an address space (`KernelRuns`, `KernelCallers`), a post between a failed test and the block (`Semaphores`), and reading a
gap that a seek left (`FsFiles`, `SysIo`).

Conventions: integers are unbounded and widths are written out where the code depends on them (32-bit sizes, offsets,
block numbers and checksums, 64-bit addresses and page-table entries). A disk has 16384 sectors of 512 bytes, and reading
or writing one fails only out of range. A path is the C string without its terminator. An exception of the Python tools is
a failure result. The console is a parameter: what is typed is an argument, what is printed is not kept.

The walk models what the emulator does, which is not all of sections 4.3.2 and 4.4 of the RISC-V Privileged Architecture
(version 20211203): address bits above 38 are ignored, 1 GiB leaves are refused, and the low page number of a 2 MiB leaf is
taken from the address.

## Model

| member | source | states |
|---|---|---|
| `FsBlocks.EnsureBlockSafe` | os/kernel/minifs.c:178-248 | `ensure_inode_block`, on every outcome: every stored block number stays in the data area, marked and stored exactly once; no block is leaked; no other block of any inode moves; no byte of any file changes; the result is the block now in place, and failure means it is still missing |
| `FsBlocks.EnsuredIndirect` | os/kernel/minifs.c:229-234 | the indirect block alone: in place afterwards with nothing else moved or leaked, or the file system as it was and the block still missing |
| `FsBlocks.EnsuredSlot` | os/kernel/minifs.c:235-247 | one entry of an indirect block that is there: the same guarantees as for the whole call |
| `FsBlocks.EnsureIff` | os/kernel/minifs.c:216-248 | it succeeds if and only if the index is in range and there are as many free blocks as it needs: none, one, or two when the indirect block is missing as well |
| `BlockCounts.EnsureSpends` | os/kernel/minifs.c:216-248 | the same by number: it succeeds if and only if that many blocks are free, and then exactly that many fewer are |
| `BlockCounts.WriteFromSpends` | os/kernel/minifs.c:717-735 | the copy loop gets past its first t bytes, for every t, if and only if the free blocks cover the missing ones those bytes overlap and a missing indirect block |
| `BlockCounts.WriteAtSpends` | os/kernel/minifs.c:705-737 | so does `write_at` at any offset, inside a block, over existing ones or past the end; a complete write takes exactly those blocks |
| `FsFiles.WriteAtRefines` | os/kernel/minifs.c:705-737 | `write_at` at any offset: contents become the old contents, zero-filled to the offset, with the written prefix laid over; every other inode is unchanged; exactly the blocks the prefix overlaps are added; nothing leaks when the disk fills midway, and only then is the write short |
| `FsFiles.ReadAfterWrite` | os/kernel/minifs.c:652-678 | `minifs_pread` of the range just written returns what was written, wherever in the file that was |
| `FsFiles.StoresIff` | os/kernel/minifs.c:705-737 | a write stores at least one byte if and only if the offset and kind of file allow it and its first block has room |
| `FsFiles.HolesAfterWrite` | os/kernel/minifs.c:705-737 | for every write to a file without holes: none is left if and only if the call is refused, or every block that begins at or after the old end and before the offset is there, the block the offset falls in excepted when a byte is stored |
| `FsFiles.FullDiskHole` | os/kernel/minifs.c:717-735 | counterexample family: on a full disk, or with no bytes to write, a write past the end of an empty file stores nothing, still moves the size, and reading the first byte then fails |
| `FsFiles.SparseRead` | os/kernel/minifs.c:664-669 | counterexample family: after a write one block or more past the end of an empty file its first byte is zero in the contents, but reading it fails |
| `FsFiles.TruncateSafe` | os/kernel/minifs.c:250-265 | `truncate_inode` frees exactly the blocks of the inode, leaks none, empties its contents and leaves every other inode alone |
| `FsTree.DirentRoundTrip` | os/kernel/minifs.c:54-58 | an entry written into a directory block reads back as the same entry |
| `FsTree.DirentLayout` | os/kernel/minifs.c:54-58 | inode, mode and name lie at bytes 0, 4 and 8 of an entry |
| `FsTree.DirAddRefines` | os/kernel/minifs.c:290-329 | `dir_add` succeeds if and only if the name is new and short enough and a slot is free or can be made; then it fills the first free slot and nothing else changes; failing, it leaves the file system as it was, except that it has allocated an indirect block if and only if that was the last free block |
| `FsLeaks.CreateIff` | os/kernel/minifs.c:429-444 | `create_node` in any directory succeeds if and only if an inode and the entry fit; the set of leaked blocks grows exactly by the block a failing `dir_add` left behind |
| `FsLeaks.EightyEntries` | os/kernel/minifs.c:290-329 | counterexample family: in a directory of 80 live entries with no indirect block and one block free on the disk, creation fails and that block is lost |
| `FsLeaks.CreateBlocksOk` | os/kernel/minifs.c:429-444 | in any directory, removed or not, creation leaves every block with one owner |
| `FsTree.CreateNodeSafe` | os/kernel/minifs.c:429-444 | `create_node` below any inode in use keeps ownership and the tree; on success the new name, and only it, leads to the new empty inode; on failure every inode is as before |
| `FsTree.UnlinkSafe` | os/kernel/minifs.c:864-893 | `minifs_unlink` changes nothing, or removes one unopened leaf of the tree, frees exactly its blocks and its number and leaves every other inode alone |
| `DirTree.AddLeafOk` | os/kernel/minifs.c:316-328 | entering a new leaf keeps names unique, each inode linked once from its recorded parent, and every parent chain ending at the root |
| `DirTree.RemoveLeafOk` | os/kernel/minifs.c:331-348 | so does removing a leaf |
| `StaleDir.CreateKeepsIff` | os/kernel/minifs.c:429-444 | creation in any directory, removed or not, keeps the file system sound if and only if the directory is in use or the creation fails |
| `StaleDir.StaleCan` | os/kernel/minifs.c:429-444 | in a removed directory it goes through if and only if an inode and a block are free, the name fits, and the record of the directory still is, or by this call becomes, a directory |
| `StaleDir.StaleMkdir` | os/kernel/minifs.c:848-893 | counterexample family: with a block free, `mkdir` in a removed working directory whose inode is the lowest free one enters that inode in itself, succeeds and breaks the tree |
| `Paths.ResolveParentAgrees` | os/kernel/minifs.c:399-427 | whenever `resolve_parent` yields a parent and a name, the name is a proper one and `resolve` of the whole path is the lookup of that name in that parent |
| `Paths.GetCwdResolves` | os/kernel/minifs.c:906-952 | a path `minifs_getcwd` reports for a directory resolves to that directory from anywhere |
| `Paths.AbsPathUnique` | os/kernel/minifs.c:916-944 | the reported path does not depend on how many upward steps are allowed once the root is reached |
| `Paths.ResolveUsed` | os/kernel/minifs.c:370-427 | in a sound tree, paths lead from inodes in use to inodes in use |
| `PathLaws.ResolveJoin` | os/kernel/minifs.c:370-397 | resolving p/q is resolving q from where p leads, for every path shorter than 256 bytes; -1 if p leads nowhere |
| `PathLaws.ResolveRoot` | os/kernel/minifs.c:370-397 | a leading slash means the root, whatever the working directory |
| `PathLaws.ResolveOne` | os/kernel/minifs.c:370-397 | a path of one component: "." leads to the working directory, ".." to its recorded parent, a name to its entry, and a name over 55 bytes nowhere |
| `PathLaws.ResolveSlash` | os/kernel/minifs.c:370-397 | a trailing slash changes nothing |
| `PathLaws.DotDot` | os/kernel/minifs.c:370-397 | in a sound tree p/.. leads to the recorded parent of what p leads to, and nowhere exactly when p does |
| `PathLaws.DownAndUp` | os/kernel/minifs.c:370-397 | for every name c entered in the directory p leads to, p/c/.. leads where p does |
| `PathLaws.DotStays` | os/kernel/minifs.c:370-397 | "." changes nothing at the end of a path or inside it |
| `PathLaws.RootUp` | os/kernel/minifs.c:370-397 | the root is its own parent: /.. is the root |
| `PathLaws.ChDirJoin` | os/kernel/minifs.c:895-904 | after a successful `minifs_chdir` to p every relative path q leads where p/q did before; it succeeds exactly on a directory |
| `PathLaws.GetCwdIs` | os/kernel/minifs.c:906-952 | `minifs_getcwd` reports exactly the names that lead from the root to the directory, each behind a slash, if and only if they fit the buffer and 256 bytes |
| `PathLaws.NamesLead` | os/kernel/minifs.c:906-952 | such names exist for every directory of a sound tree |
| `TreeChanges.NewPath` | os/kernel/minifs.c:370-444 | a name entered in the parent a path leads to makes exactly that path lead to the new inode |
| `TreeChanges.OldPath` | os/kernel/minifs.c:370-397 | after a leaf is removed every path leads where it did or nowhere |
| `PathCalls.CreateAtIs` | os/kernel/minifs.c:848-854 | `minifs_mkdir`, and creation by open, succeed if and only if the last name can be entered where the rest of the path leads; the path then leads to a new empty inode of that mode, the parent holds it under that name with every old entry, and no other inode changes; otherwise -1 and no inode changes |
| `PathCalls.OpenFileFound` | os/kernel/minifs.c:602-626 | a path that leads to a regular file opens that file, emptied if and only if truncation was asked for, with no other inode changed; anything else is refused without effect |
| `PathCalls.OpenFileMissing` | os/kernel/minifs.c:602-626 | a path that leads nowhere is refused without effect unless creation was asked for; then a new empty file is there, if and only if one can be made |
| `PathCalls.UnlinkIff` | os/kernel/minifs.c:864-893 | unlink below a directory succeeds if and only if the name is entered there, no open file has its inode, and it is not a directory with live entries |
| `PathCalls.UnlinkPathIs` | os/kernel/minifs.c:864-893 | for a path: success means it leads nowhere afterwards and only that inode and entry are gone; otherwise nothing changed |
| `FsRuns.OpenKeepsInv` | os/kernel/minifs.c:602-639 | the disk part of `minifs_open` keeps the invariant, leaks exactly the block a failing `dir_add` leaves, and yields a regular file in use, empty when truncation was asked for |
| `FsRuns.StepSafe` | os/kernel/minifs.c:602-893 | every open, mkdir, unlink and write keeps ownership, zero tails and the directory tree, and leaks a block if and only if it is a creation that meets the case of `FsTree.DirAddRefines` |
| `FsRuns.RunSafe` | os/kernel/minifs.c:602-893 | over every run: the same invariant, and the number of marked blocks nobody names grows by exactly the number of creations that met that case |
| `Disk.InodeRoundTrip` | os/kernel/minifs.c:126-146 | an inode record stored in a sector reads back unchanged |
| `Disk.InodeLayout` | os/kernel/minifs.c:44-52 | mode, size, parent, links, ten direct blocks, the indirect block and the reserved word lie at bytes 0, 4, 8, 12, 16 to 55, 56 and 60 of a record, and nothing else in the sector changes |
| `Disk.ViewPutInode` | os/kernel/minifs.c:137-146 | rewriting one sector of the inode table changes one inode of the file system on disk and nothing else |
| `Disk.ViewPutDataBit` | os/kernel/minifs.c:118-124 | writing back the one map sector that holds a bit changes that mark and nothing else |
| `Disk.ViewPutInodeBit` | os/kernel/minifs.c:155-176 | the same for the inode map |
| `MiniFs.MiniFs.BlockRead` | os/kernel/block.c:13 | the sector, or -1 out of range |
| `MiniFs.MiniFs.ReadInode` | os/kernel/minifs.c:126-135 | the stored record, or -1 out of range |
| `MiniFs.MiniFs.WriteInode` | os/kernel/minifs.c:137-146 | the file system on disk with that record replaced |
| `MiniFs.MiniFs.AllocInode` | os/kernel/minifs.c:155-167 | the lowest free inode marked, or -1 with the disk unchanged |
| `MiniFs.MiniFs.FreeInodeNumber` | os/kernel/minifs.c:169-176 | the mark of that inode cleared |
| `MiniFs.MiniFs.AllocDataBlock` | os/kernel/minifs.c:178-194 | the lowest free block marked and zeroed, the in-memory map still equal to sectors 2-5 |
| `MiniFs.MiniFs.FreeDataBlock` | os/kernel/minifs.c:196-203 | one mark cleared for a block of the data area |
| `MiniFs.MiniFs.InodeBlock` | os/kernel/minifs.c:205-214 | the block number at a logical index, zero for a hole |
| `MiniFs.MiniFs.EnsureInodeBlock` | os/kernel/minifs.c:216-248 | disk and record copy as the model of `ensure_inode_block` says, although scratch buffers are shared |
| `MiniFs.MiniFs.TruncateInode` | os/kernel/minifs.c:250-265 | the three freeing loops reach exactly the blocks that belong to the inode |
| `MiniFs.MiniFs.DirLookup` | os/kernel/minifs.c:267-288 | the inode of the first live entry with that name, or -1 |
| `MiniFs.MiniFs.DirAdd` | os/kernel/minifs.c:290-329 | the new state and result of the model, tombstone reuse and failure included |
| `MiniFs.MiniFs.DirRemove` | os/kernel/minifs.c:331-348 | the entry of that name turned into a tombstone |
| `MiniFs.NextComponent` | os/kernel/minifs.c:350-368 | the cursor moves past exactly the first component; a name over 55 bytes is refused |
| `MiniFs.MiniFs.Resolve` | os/kernel/minifs.c:370-397 | the walk over the components of the path |
| `MiniFs.MiniFs.ResolveParent` | os/kernel/minifs.c:399-427 | parent and last name as the model defines them |
| `MiniFs.MiniFs.CreateNode` | os/kernel/minifs.c:429-444 | the state and number of the model, with the number freed again on failure |
| `MiniFs.MiniFs.Pread` | os/kernel/minifs.c:652-678 | exactly the requested slice cut at the end of the file; failure exactly on a hole or anything but a file |
| `MiniFs.MiniFs.WriteAt` | os/kernel/minifs.c:705-737 | the chunk loop leaves the state of the model and returns its count |
| `MiniFs.MiniFs.OpenFile` | os/kernel/minifs.c:602-626 | resolve, create and truncate on disk as the model says, also from a working directory that was removed |
| `MiniFs.MiniFs.UnlinkPath` | os/kernel/minifs.c:864-893 | the state and result of the model, given the set of open inodes |
| `MiniFs.MiniFs.ChDir` | os/kernel/minifs.c:895-904 | the new working directory of the model, or -1 |
| `MiniFs.MiniFs.GetCwd` | os/kernel/minifs.c:906-952 | the upward loop ends within the depth of the tree and reports the absolute path, or fails for lack of room |
| `MiniFs.MiniFs.Init` | os/kernel/minifs.c:498-513 | succeeds exactly on a superblock of this version and layout; the in-memory map then equals the one on disk |
| `Descriptors.EmptyOk` | os/kernel/minifs.c:498-513 | the zeroed tables satisfy the counting invariant |
| `Descriptors.InitOk` | os/kernel/minifs.c:515-545 | `minifs_process_init` keeps counts exact and adds a table for the pid exactly when it reports success, even when the open files run out midway |
| `Descriptors.ForkOk` | os/kernel/minifs.c:547-561 | counts stay exact; the child gets a table naming what the parent names |
| `DescriptorMap.InitIff` | os/kernel/minifs.c:515-545 | a new process gets its table if and only if a slot and three open files are free |
| `DescriptorMap.ForkIff` | os/kernel/minifs.c:547-561 | so it does on a fork, under the same condition |
| `Descriptors.CloseAllOk` | os/kernel/minifs.c:563-574 | counts stay exact; exactly the table of this pid goes |
| `Descriptors.CloseExecOk` | os/kernel/minifs.c:588-600 | counts stay exact; exactly the marked descriptors close, and no mark is left |
| `Descriptors.CloseOk` | os/kernel/minifs.c:641-650 | counts stay exact; it succeeds exactly on an open descriptor |
| `Descriptors.CloexecOk` | os/kernel/minifs.c:576-586 | marks stay on open descriptors only |
| `Descriptors.Dup2Ok` | os/kernel/minifs.c:788-801 | counts stay exact; it succeeds exactly when the old descriptor is open and the new one in range |
| `Descriptors.InstallOk` | os/kernel/minifs.c:453-485 | success opens one file that was free, with one reference, under a descriptor that was free; failure opens nothing |
| `DescriptorMap.NamedStored` | os/kernel/minifs.c:487-496 | while counts are exact, whatever a table stores names an open file |
| `DescriptorMap.CloseMap` | os/kernel/minifs.c:641-650 | close removes one entry and its mark from the whole map from pid and descriptor to open file, and no other |
| `DescriptorMap.Dup2Map` | os/kernel/minifs.c:788-801 | dup2 sets one entry of the whole map to the file of another, unmarked, and no other; a descriptor onto itself keeps its mark |
| `DescriptorMap.CloexecMap` | os/kernel/minifs.c:576-586 | one mark changes and no name |
| `DescriptorMap.CloseExecMap` | os/kernel/minifs.c:588-600 | exactly the marked entries of one pid go |
| `DescriptorMap.CloseAllMap` | os/kernel/minifs.c:563-574 | all entries of one pid go and none of another |
| `DescriptorMap.InitMap` | os/kernel/minifs.c:515-545 | no entry of a process that has a table, or of another process, changes |
| `DescriptorMap.ForkMap` | os/kernel/minifs.c:547-561 | the child has the entries and marks of the parent; no other entry changes |
| `DescriptorMap.InstallMap` | os/kernel/minifs.c:476-485 | no entry and no mark but the new one changes, and the new one is unmarked |
| `DescriptorMap.InitNames` | os/kernel/minifs.c:515-545 | a process without a table gets exactly three descriptors: 0 for console input, 1 and 2 for console output, none marked |
| `FdTable.DescriptorTable.Find` | os/kernel/minifs.c:446-451 | the slot in use by that pid, or none |
| `FdTable.DescriptorTable.AllocOfd` | os/kernel/minifs.c:453-466 | the tables of the model, with the lowest free open file taken |
| `FdTable.DescriptorTable.PutOfd` | os/kernel/minifs.c:468-474 | one reference given back, the file freed with the last |
| `FdTable.DescriptorTable.Init` | os/kernel/minifs.c:515-545 | the tables and result of the model |
| `FdTable.DescriptorTable.Fork` | os/kernel/minifs.c:547-561 | the tables and result of the model |
| `FdTable.DescriptorTable.CloseEverything` | os/kernel/minifs.c:563-574 | the tables of the model |
| `FdTable.DescriptorTable.Mark` | os/kernel/minifs.c:576-586 | the tables and result of the model |
| `FdTable.DescriptorTable.CloseMarkedFds` | os/kernel/minifs.c:588-600 | the tables of the model |
| `FdTable.DescriptorTable.CloseFd` | os/kernel/minifs.c:641-650 | the tables and result of the model |
| `FdTable.DescriptorTable.Duplicate` | os/kernel/minifs.c:788-801 | the tables and result of the model |
| `FdTable.DescriptorTable.InstallFd` | os/kernel/minifs.c:476-485 | the lowest free descriptor, or -1 |
| `FdTable.DescriptorTable.OpenInode` | os/kernel/minifs.c:627-639 | the tables and descriptor of the model |
| `FdTable.DescriptorTable.Get` | os/kernel/minifs.c:487-496 | the open file a descriptor names, or -1 |
| `FileCalls.OpenOk` | os/kernel/minifs.c:602-639 | the machine invariant is kept; a descriptor returned was free and now names one new open file of a regular file in use |
| `FileCalls.WriteEffect` | os/kernel/minifs.c:739-764 | through a writable descriptor: bytes laid over at the position (or the end, for append), position moved past them, all other files and open files untouched |
| `FileCalls.ReadEffect` | os/kernel/minifs.c:680-703 | through a readable descriptor: the slice at the position, failure if and only if it meets a hole; the position moves past what was read and the disk is unchanged |
| `FileCalls.UnlinkOk` | os/kernel/minifs.c:856-893 | unlink frees no inode that an open file names |
| `FileCalls.StepOk` | os/kernel/minifs.c:515-893 | every call keeps the file system sound, the reference counts exact and every open file on a regular file in use |
| `FileCalls.RunOk` | os/kernel/minifs.c:515-893 | the same over every run of calls by any processes |
| `FileCalls.BootMachineOk` | os/kernel/minifs.c:498-513 | the state `minifs_init` leaves over a sound disk satisfies it |
| `CallLaws.FlagsRead` | os/kernel/minifs.h:12-17 | the access mode and the bits 0x040, 0x200 and 0x400 of a flag word read back as they were put together, and open accepts the word if and only if the mode exists and a reader asks neither to truncate nor to append |
| `CallLaws.FlagsWritten` | os/kernel/minifs.c:602-612 | every flag word open accepts is such a combination |
| `CallLaws.OpenRefused` | os/kernel/minifs.c:602-612 | any other flag word, or a process without a table: -1 and nothing changes |
| `CallLaws.OpenExisting` | os/kernel/minifs.c:602-639 | a path that leads to inode n: refused without effect unless n is a regular file; that file is emptied with 0x200 and untouched without, with every other inode as it was; the lowest free descriptor then names a new open file of n at offset 0, or at its size when appending, if and only if a descriptor and an open file are free |
| `CallLaws.OpenMissing` | os/kernel/minifs.c:602-639 | a path that leads nowhere: -1 and nothing changes without 0x040; with it the parent holds a new empty file under that name if and only if one can be made, and a descriptor for its start is handed out as above |
| `CallLaws.OpenIff` | os/kernel/minifs.c:602-639 | open returns a descriptor if and only if the process has a table, the flags fit together, a descriptor and an open file are free, and the path leads to a regular file or leads nowhere and can be created as asked |
| `CallLaws.MkdirIs` | os/kernel/minifs.c:848-854 | mkdir makes an empty directory at the path if and only if one can be made there, and changes no descriptor |
| `CallLaws.UnlinkIs` | os/kernel/minifs.c:856-893 | unlink succeeds if and only if the name is entered where the rest of the path leads, is no directory with entries, and no process has a descriptor for it; the path then leads nowhere; otherwise nothing changes |
| `CallLaws.OpenIsHeld` | os/kernel/minifs.c:856-862 | what `inode_is_open` finds is exactly what some descriptor of some process names |
| `CallLaws.SeekIs` | os/kernel/minifs.c:766-786 | from the start, the position or the end, by any distance: the position moves there and is returned if and only if it lies within 0 and 65536; otherwise, and on anything but an open regular file, -1 and nothing changes |
| `CallLaws.WriteIs` | os/kernel/minifs.c:739-764 | through a writable descriptor the bytes are laid over the contents at the position, or put behind them all for a file opened to append, and the position moves past them; short only on a full disk or at 65536; no other inode or open file changes |
| `CallLaws.Refusals` | os/kernel/minifs.c:680-764 | a write is refused, without effect, if and only if the descriptor names neither console output nor a file open for writing; a read is refused unless it names console input or a file open for reading |
| `FileLayer.FileLayer.Open` | os/kernel/minifs.c:602-639 | state and result of the model, disk and tables together |
| `FileLayer.FileLayer.Write` | os/kernel/minifs.c:739-764 | state and result of the model |
| `FileLayer.FileLayer.Read` | os/kernel/minifs.c:680-703 | state, result and bytes of the model |
| `FileLayer.FileLayer.Seek` | os/kernel/minifs.c:766-786 | state and result of the model |
| `FileLayer.FileLayer.OpenSet` | os/kernel/minifs.c:856-862 | exactly the inodes named by open regular files |
| `FileLayer.FileLayer.Unlink` | os/kernel/minifs.c:864-893 | state and result of the model |
| `FileLayer.FileLayer.SysWrite` | os/kernel/syscall.c:72-94 | the chunk loop leaves the state and result of the model |
| `FileLayer.FileLayer.SysRead` | os/kernel/syscall.c:96-121 | the chunk loop leaves the state, result and bytes of the model |
| `SysIo.SysWriteRefines` | os/kernel/syscall.c:72-94 | moving a buffer through 512-byte chunks is one write: what is reported lies at the position, every other file is untouched, and it stops short only for a full disk, a full file or an unmapped buffer |
| `SysIo.SysReadRefines` | os/kernel/syscall.c:96-121 | whatever part of the buffer is mapped: the bytes delivered are a prefix of the slice at the position and the position moves past what was read; a wholly mapped buffer receives the whole slice if and only if no hole is met |
| `SysIo.WriteSeekRead` | os/kernel/syscall.c:72-121 | what one process wrote comes back through any descriptor of the same open file, of any process, after seeking back, whatever the chunking and even if the disk filled up |
| `TaskInv.BootOk` | os/kernel/task.c:174-212 | the table `task_init` leaves satisfies the invariant |
| `TaskInv.SwitchOk` | os/kernel/task.c:126-172 | a switch keeps the table, always finds somebody and ends with a running task |
| `TaskInv.SpawnOk` | os/kernel/task.c:214-331 | create and fork keep the table whichever way setting up the descriptor table turns out |
| `TaskInv.DieOk` | os/kernel/task.c:419-463 | exit and kill keep the table: count, unique pids, live parents of smaller pid, descriptor owners, no lost wake-up |
| `TaskInv.DeathWakesIff` | os/kernel/task.c:426-433 | a parent blocked for the child that dies becomes ready if and only if its target is not 0 |
| `TaskInv.WaitOk` | os/kernel/task.c:465-511 | waiting keeps the table |
| `TaskInv.WaitKeepsIff` | os/kernel/task.c:465-511 | `task_waitpid` keeps the table if and only if it is not idle that hangs in it |
| `TaskInv.IdleHangs` | os/kernel/task.c:505-511 | counterexample family: if idle hangs while nobody is ready, no task is runnable and no switch finds one |
| `TaskInv.ChildLeft` | os/kernel/task.c:501-511 | blocking happens only while an awaited child is alive |
| `TaskInv.StepOk` | os/kernel/task.c:126-625 | every step keeps the table: one running task, idle ready unless current, distinct fresh stamps, slices in range, and every waiter with an awaited live child |
| `TaskInv.RunOk` | os/kernel/task.c:126-625 | so does every run |
| `TaskInv.EveryRunOk` | os/kernel/task.c:126-625 | from boot, over every run: the invariant, and so no waiting parent ever missed its child |
| `ExitStatus.CodeDelivered` | os/kernel/task.c:419-500 | whatever runs between a death and the wait that takes it, that wait returns the pid and the code of the death, and nobody has the pid afterwards |
| `ExitStatus.DeliveredOnce` | os/kernel/task.c:465-511 | once taken, no later wait by anybody returns that pid: pids are never reused |
| `ExitStatus.ZombieStep` | os/kernel/task.c:126-625 | no step but the wait that takes it changes a dead task, except to pass it to idle |
| `TaskTree.TreeListsAll` | os/kernel/task.c:667-685 | the recursion ends and prints every process on exactly one line, indented by its distance from idle, and nothing else |
| `Scheduling.RrCloser` | os/kernel/task.c:74-85 | one round-robin selection picks a given ready task or brings the scan strictly closer to it |
| `Scheduling.BoundedSelections` | os/kernel/task.c:74-172 | whatever the other tasks do, at most 14 selections pass a ready task by |
| `Scheduling.BoundedTicks` | os/kernel/task.c:126-172 | with a fixed quantum a ready task runs before 15 quanta of ticks have gone by |
| `Scheduling.FcfsIsHead` | os/kernel/task.c:87-96 | first-come selection is the head of the queue of ready tasks |
| `Scheduling.SwitchQueued` | os/kernel/task.c:126-172 | a switch dequeues; under first come it takes the head after the yielding task joined at the tail |
| `Scheduling.StepQueued` | os/kernel/task.c:126-599 | every step is a queue operation on the ready tasks: whoever becomes ready joins at the tail, whoever stops leaves |
| `Scheduling.RunQueued` | os/kernel/task.c:126-599 | so is every run |
| `Scheduling.FirstComeFirstServed` | os/kernel/task.c:87-172 | from boot, over every run: the ready tasks are that queue and first come runs its head |
| `Turns.SwitchIff` | os/kernel/task.c:148-172 | a selection moves the processor if and only if another slot is ready: the old task is then ready with the newest stamp, the new one runs with a full slice, and no third slot changes |
| `Turns.TickIff` | os/kernel/task.c:126-172 | a tick leaves the processor where it is if and only if nobody else is ready, or the running task is not idle and the policy is first come or more than one tick of its slice is left |
| `Turns.StepKeeps` | os/kernel/task.c:214-625 | of all other steps only yielding, exit, blocking and a hanging wait take the processor from the task that makes them |
| `Turns.FcfsStays` | os/kernel/task.c:135-137 | first come is not preemptive: through any run without such steps, however many ticks it has, the running task stays current and running |
| `Turns.SliceLasts` | os/kernel/task.c:139-145 | under round robin it stays through any such run with fewer ticks than its slice has left, and every tick takes one from the slice |
| `Turns.SliceEnds` | os/kernel/task.c:139-172 | and is switched away by the next tick: it keeps the processor for exactly `ticks_left - 1` more ticks |
| `Turns.FullTurn` | os/kernel/task.c:126-172 | a task that was just selected keeps it for exactly one quantum |
| `Turns.QuantumTurn` | os/kernel/task.c:615-625 | after `task_set_quantum` the running task has that many ticks, at least one |
| `Turns.KillIff` | os/kernel/task.c:440-463 | kill succeeds if and only if the pid is that of a live task other than idle, the caller and the shell, which is then a zombie with that code; otherwise -1 and nothing changes |
| `Turns.WaitIs` | os/kernel/task.c:465-511 | a dead child that matches is reaped and its pid returned; with live ones only, 0 if told not to hang and otherwise the caller blocks; without one, -1; each if and only if |
| `Turns.WakeOneIff` | os/kernel/task.c:569-583 | wake-one wakes somebody if and only if a task waits on the object: the one in the lowest slot, and nobody else |
| `Turns.NameProtects` | os/kernel/task.c:440-445 | a task that took the name of the shell cannot be killed by the task that runs next; one that took another name can |
| `Turns.FirstPid` | os/kernel/task.c:174-271 | the first process after boot is pid 1 in slot 1, a child of idle |
| `Turns.SpawnIff` | os/kernel/task.c:214-331 | creation succeeds if and only if a slot is free and the descriptor table can be had: the lowest free slot is then a ready child of the caller with a pid above all in use |
| `TaskTable.TaskTable.constructor` | os/kernel/task.c:174-212 | the booted table |
| `TaskTable.TaskTable.Find` | os/kernel/task.c:58-64 | the first slot in use with that pid |
| `TaskTable.TaskTable.HasReadyNonIdle` | os/kernel/task.c:66-72 | whether some task but idle is ready |
| `TaskTable.TaskTable.RoundRobinNext` | os/kernel/task.c:74-85 | the first ready slot after the current one, cyclically |
| `TaskTable.TaskTable.FirstComeNext` | os/kernel/task.c:87-96 | the ready slot with the least stamp |
| `TaskTable.TaskTable.Switch` | os/kernel/task.c:148-171 | the state of the model |
| `TaskTable.TaskTable.Tick` | os/kernel/task.c:395-405 | the state of the model |
| `TaskTable.TaskTable.Reschedule` | os/kernel/task.c:407-417 | the state of the model |
| `TaskTable.TaskTable.Spawn` | os/kernel/task.c:214-331 | the state and pid of the model, for either outcome of setting up the descriptor table |
| `TaskTable.TaskTable.Exit` | os/kernel/task.c:419-438 | the state of the model |
| `TaskTable.TaskTable.Kill` | os/kernel/task.c:440-463 | the state and result of the model |
| `TaskTable.TaskTable.WaitPid` | os/kernel/task.c:465-511 | the state and result of the model; the status is the code of the task taken |
| `TaskTable.TaskTable.Block` | os/kernel/task.c:550-567 | the state of the model |
| `TaskTable.TaskTable.WakeOne` | os/kernel/task.c:569-583 | the state and pid of the model |
| `TaskTable.TaskTable.WakeAll` | os/kernel/task.c:585-599 | the state of the model |
| `TaskTable.TaskTable.SetQuantum` | os/kernel/task.c:615-625 | the state of the model |
| `TaskTable.TaskTable.Rename` | os/kernel/task.c:535-538 | the state of the model |
| `TaskTable.TaskTable.MarkOwner` | os/kernel/task.c:333-340 | the state of the model |
| `Semaphores.SemaphoreConserves` | os/kernel/sync.c:5-35 | under every interleaving: value plus waits that passed their test equals the start plus posts, and a test passes if and only if there is a unit |
| `Semaphores.StepKeepsIff` | os/kernel/sync.c:11-35 | every step of tasks inside `sem_wait` and `sem_post` keeps each unit covered by a task that comes for it, whenever one will be left blocked; a post does so if and only if it is not one with a task past its failed test and not blocked yet, a wake-up under way for every blocked task, and a unit for every task that comes |
| `Semaphores.StuckIff` | os/kernel/sync.c:11-35 | from a state the calls already begun can end with units beside a blocked task and nothing under way if and only if a unit is not covered |
| `Semaphores.NeverStuck` | os/kernel/sync.c:11-35 | from any initial value, over every interleaving in which no post is lost in that way, that never happens |
| `Semaphores.LostPost` | os/kernel/sync.c:16-25 | counterexample: a post between the failed test and the block leaves the only task blocked beside the unit |
| `Sync.StepOk` | os/kernel/sync.c:37-71 | one step of any task keeps the mutex protocol |
| `Sync.MutualExclusion` | os/kernel/sync.c:37-71 | under every interleaving of the protected sections: value and holders make one, and a recorded owner is the holder |
| `Sync.OnlyTheHolderReleases` | os/kernel/sync.c:51-71 | after any run, a step by a task that does not hold the mutex releases nothing, its unlock changes nothing, and a try succeeds exactly when nobody holds it |
| `Sync.LockAndUnlock` | os/kernel/sync.c:44-71 | undisturbed, a lock of a free mutex makes the caller holder and owner and its unlock frees it again; a held one sends the caller to block |
| `MutexCell.MutexCell.Take` | os/kernel/sync.c:11-25 | the protected section of a wait is the step of the protocol |
| `MutexCell.MutexCell.Try` | os/kernel/sync.c:51-64 | so is a try |
| `MutexCell.MutexCell.Release` | os/kernel/sync.c:66-71 | an unlock is its three steps |
| `PhysMem.PteFields` | os/kernel/vm.h:9-26 | every field of a packed page-table entry reads back as it was packed |
| `PhysMem.WordSet` | os/kernel/vm.h:18-26 | storing one table word changes that word and no other |
| `Mmu.Agreement` | cemu/src/mmu.cpp:15-131 | under the satp of a space a user access to any 64-bit address succeeds, at the mapped page and offset, if and only if the list of mappings has the page of its low 39 bits with the needed permission; every other page but the leaf table keeps its bytes |
| `Mmu.AgreementLasts` | cemu/src/mmu.cpp:15-131 | and so it stays after any number of translations under any satp and mode |
| `Mmu.TranslateTouches` | cemu/src/mmu.cpp:122-127 | a translation changes nothing in memory but accessed and dirty bits |
| `MmuMarks.TouchedBits` | cemu/src/mmu.cpp:122-127 | the entry stored back has bit 6 set, bit 7 set after a store and as before otherwise, and every other bit as it was |
| `MmuMarks.TranslateMarks` | cemu/src/mmu.cpp:15-131 | whatever satp and mode: a paged translation that yields an address marks one word in this way, that of a valid entry that permits the access, and changes no other byte; a fault, or no paging, writes nothing |
| `MmuMarks.UserAccess` | cemu/src/mmu.cpp:15-131 | a user access under the satp of a space: the address the mappings promise with exactly the word of that page in the last table marked; or nothing written and the fault of the access kind where a page is mapped without the permission or belongs to the kernel, and a load page fault where no entry is valid |
| `PageAlloc.InitOk` | os/kernel/mem.c:28-42 | the heap starts with every page unclaimed and counted |
| `PageAlloc.KallocOk` | os/kernel/mem.c:44-61 | a page handed out belonged to nobody; failure means none is left; the count is exact |
| `PageAlloc.KfreeOk` | os/kernel/mem.c:63-81 | a page given back heads the free list threaded through the pages; the count is exact |
| `PageAlloc.FreeThenAlloc` | os/kernel/mem.c:44-81 | `kfree` ignores every address that is misaligned or outside 0x80200000 to 0x88000000; any other page is the next one `kalloc` hands out, and then the heap is as it was |
| `PageAlloc.OneOwner` | os/kernel/mem.c:44-81 | no page is at once free and in use, or in use twice |
| `SpaceOps.CreateOk` | os/kernel/user.c:85-106 | a new space has three tables of its own with the kernel entries copied, or the pages are all back; no page of another space changes |
| `SpaceOps.MapOk` | os/kernel/user.c:117-143 | mapping adds a zeroed page of its own or merges permissions; list and tables agree again; other spaces keep every page |
| `SpaceOps.DestroyOk` | os/kernel/user.c:408-421 | every page of the space is free again and no page of another space changes |
| `SpaceOps.WriteOwn` | os/kernel/user.c:145-164 | overwriting one data page disturbs no table, no free page and no other page of any space |
| `SpaceCopy.CloneOk` | os/kernel/user.c:390-406 | a clone has the same addresses, permissions and bytes on pages of its own, or everything is back; no existing page changes |
| `SpaceCopy.StoreIsolated` | cemu/src/mmu.cpp:15-131 | whatever a user program stores at whatever address, memory stays partitioned and no page of any other space changes |
| `SpaceCopy.OthersUnaware` | cemu/src/mmu.cpp:15-131 | no read by another program can tell that the store happened |
| `SpaceView.MappedView` | os/kernel/user.c:117-143 | a mapped page adds zeros where there was nothing and keeps the bytes there were; permissions are the union |
| `SpaceView.CopyToView` | os/kernel/user.c:145-164 | `copy_to_space` succeeds if and only if every page is mapped; then the bytes are in place and no other byte of the space changed |
| `ElfLoad.LoadElfOk` | os/kernel/user.c:188-287 | success: a space whose bytes and permissions are what the segments in file order say, an executable entry page and a zeroed stack; every rejection returns all pages and touches no other space |
| `ElfLoad.SegmentInPlace` | os/kernel/user.c:222-268 | for segments with disjoint byte ranges, each has its file bytes at its address and zeros up to its memory size |
| `ElfFormat.PhReads` | os/kernel/user.c:225-252 | for all eight fields of a program header: read back from its 56 bytes it is skipped, refused or loaded exactly on the stated numbers, and a loaded one has exactly its offset, address, file size, memory size and the permissions of flags 4, 2 and 1 |
| `ElfFormat.EhReads` | os/kernel/user.c:188-208 | for all fields of a file header: read back from its 64 bytes it is accepted exactly on the stated numbers, and entry, phoff and phnum are the ones stored |
| `ElfFormat.FileHeader` | os/kernel/user.c:210-227 | a file with these headers has exactly the segments of the headers that are loaded, in order |
| `ElfFormat.ElfLoadsIff` | os/kernel/user.c:210-287 | such a file is loaded if and only if it is executable, its header is accepted, no program header is refused, the entry lies in the page of an executable segment, and the pages fit |
| `ElfFormat.ElfPage` | os/kernel/user.c:222-268 | an address below the stack is mapped if and only if a loaded header reaches into its page, with the permissions those headers grant together |
| `ElfFormat.ElfInPlace` | os/kernel/user.c:222-268 | with disjoint address ranges, byte k of a loaded header is at its address plus k: the file byte at its offset plus k, or zero past its file size |
| `ElfFormat.ElfStarts` | os/kernel/user.c:374-388 | the same of a prepared program, which starts at the entry of its file header |
| `InitStack.StackRoundTrip` | os/user/crt0.S:4-8 | decoding the built stack as the start-up code does gives the same count, arguments and environment, whatever was on the stack |
| `InitStack.BuildStackOk` | os/kernel/user.c:298-372 | `build_initial_stack` over mapped stack pages succeeds if and only if counts and string bytes are within the limits, so its bottom check never fires; nothing outside the stack changes |
| `Vm.BootOk` | os/kernel/vm.c:22-105 | three pages become the kernel tables and the partition of memory begins |
| `Vm.TablesBuilt` | os/kernel/vm.c:36-88 | the stores of `vm_init`, in its order, leave the root, DRAM and device tables when its three pages are different |
| `Vm.TablesAreKernels` | os/kernel/vm.c:46-88 | the tables built give user mode nothing |
| `Vm.KernelIdentity` | os/kernel/vm.c:54-57 | under the kernel satp all of DRAM is at its physical address for every kind of access |
| `Vm.IdentityUnder` | os/kernel/user.c:97-102 | and so it is under the satp of every address space |
| `Vm.DeviceIdentity` | os/kernel/vm.c:64-81 | timer, interrupt controller and serial port are at their physical addresses for loads and stores, and not for fetches |
| `Vm.DevicesUnder` | os/kernel/user.c:97-102 | and under the satp of every address space |
| `Vm.NothingElse` | os/kernel/vm.c:46-88 | nothing else in the first GiB is mapped for the kernel but the 2 MiB of the test device |
| `KernelAccess.SeesDevices` | os/kernel/vm.c:64-81 | devices are at their addresses under whatever satp is in force |
| `KernelAccess.SeesDram` | os/kernel/vm.c:54-57 | and under whatever satp is in force, however many spaces there are |
| `KernelAccess.AccessOk` | cemu/src/mmu.cpp:15-131 | no access in any mode under a satp in force breaks the partition of memory or changes a data page |
| `Programs.PrepareOk` | os/kernel/user.c:374-388 | a program with its bytes in place, its arguments on the stack and the registers to start it with, or as many free pages as before; no space changes |
| `Programs.StartSees` | os/user/crt0.S:4-8 | at the stack pointer handed over, the start-up code decodes exactly the arguments and environment given, and argc, argv and envp in the registers agree with it |
| `Programs.CopyOk` | os/kernel/user.c:390-406 | a copy of a space beside all others, or as many free pages as before |
| `Programs.ReplaceOk` | os/kernel/user.c:471-493 | destroying the old space after the new one is built leaves the new one and all others as they were |
| `Programs.Conserved` | os/kernel/mem.c:44-81 | free pages are all pages less three kernel tables and the pages of the spaces that exist |
| `PageNeeds.KallocIff` | os/kernel/mem.c:44-61 | a page is handed out if and only if the count is above zero |
| `PageNeeds.CreateIff` | os/kernel/user.c:85-106 | a space is created if and only if three pages are free |
| `PageNeeds.MapIff` | os/kernel/user.c:117-143 | a page is mapped if and only if the address may be, and it is mapped already or the list has room and a page is free |
| `PageNeeds.LoadIff` | os/kernel/user.c:210-287 | an executable is loaded if and only if every check of its headers holds and its pages, counted once each and with the stack, fit the list and the free pages |
| `PageNeeds.PrepareIff` | os/kernel/user.c:374-388 | a program is prepared if and only if it can be loaded and its arguments fit |
| `PageNeeds.CloneIff` | os/kernel/user.c:390-406 | a space is cloned if and only if three pages and one per page of it are free |
| `ProgramFiles.LoadFileIs` | os/kernel/user.c:210-287 | reading the file piece by piece, `load_elf` does exactly what it would with the contents at hand if no piece it reads has a hole, and fails otherwise |
| `ProgramFiles.LoadFileBack` | os/kernel/user.c:210-287 | whatever the file, holes included, a failing `load_elf` gives every page back and changes no space |
| `ProgramFiles.NoHolesReadable` | os/kernel/user.c:210-287 | no piece of a file without holes has one |
| `ProgramFiles.PrepareFileOk` | os/kernel/user.c:374-388 | `prepare_program` of a path succeeds if and only if the path leads to a file readable where it is read, loadable, and the arguments fit; then the contents of that file are in place, ready to run; otherwise nothing changed |
| `KernelRuns.BootOk` | os/kernel/kernel.c:275-302 | after `mem_init`, `vm_init`, `minifs_init` and `task_init` the process table, descriptor tables, spaces and satp agree |
| `KernelRuns.ForkOk` | os/kernel/syscall.c:145-158 | fork succeeds if and only if the pages, a task slot and a descriptor table are there; the child then has a copy of every page, its own satp and the descriptors of the parent; failing, the machine is as before with as many free pages |
| `KernelRuns.ExecOk` | os/kernel/syscall.c:190-209 | exec of a path succeeds if and only if the caller has a space and the program at that path can be prepared; the caller then runs the contents of that file, with its old pages back and marked descriptors closed; failing, it goes on unharmed; other spaces keep every byte |
| `KernelRuns.WaitOk` | os/kernel/task.c:465-511 | reaping a zombie frees its slot and closes its descriptors, gives exactly its pages back, never those satp names, and leaves every other task, space and byte; otherwise only the table changes |
| `KernelRuns.ExitOk` | os/kernel/task.c:419-438 | exit takes the descriptor table of the caller and of nobody else and leaves memory, spaces and satp as they were; idle does not exit |
| `KernelRuns.KillOk` | os/kernel/task.c:440-463 | so does kill for its target, and a refused one changes nothing |
| `KernelRuns.CreateKeepsIff` | os/kernel/task.c:214-271 | `task_create` keeps the machine in step if and only if it fails or its caller has no address space, whose satp the new task would inherit; it succeeds if and only if a slot and a descriptor table are there |
| `KernelRuns.AttachKeepsIff` | os/kernel/user.c:495-528 | attaching a first program does so if and only if it cannot be prepared or the caller has no space yet |
| `KernelCallers.TinyLoads` | os/kernel/user.c:188-287 | a 120-byte executable that loads whenever eight pages are free |
| `KernelCallers.CreateFromProgram` | os/kernel/task.c:214-271 | counterexample family: once a task has attached a program, creating a task from it succeeds and breaks the machine |
| `KernelCallers.AttachTwice` | os/kernel/user.c:495-528 | counterexample family: with 134 pages free, so does attaching a second one |
| `KernelCallers.FromBootBroken` | os/kernel/kernel.c:275-302 | both happen right after boot on any disk that holds that executable |
| `KernelRuns.TrapOk` | os/kernel/task.c:104-172 | a trap goes on under the satp saved for the slot it goes on in, which is that slot's own, and every slot keeps its own |
| `KernelRuns.SatpLive` | os/kernel/task.c:104-124 | satp names the space of the current task, which exists, or the kernel tables when it has none |
| `KernelRuns.RootsInUse` | os/kernel/task.c:104-124 | so does the saved satp of every task, and that root is not a free page |
| `KernelRuns.StoreOk` | cemu/src/mmu.cpp:15-131 | a store by the current program changes no page of another |
| `KernelRuns.CopyOutOk` | os/kernel/user.c:145-164 | neither does a copy out by the kernel |
| `KernelRuns.FileOk` | os/kernel/minifs.c:602-893 | file calls of a process keep the descriptor tables and the process table in step |
| `KernelRuns.StepOk` | os/kernel/syscall.c:281-363 | every step of the whole machine keeps it in step |
| `KernelRuns.RunOk` | os/kernel/syscall.c:281-363 | so does every run |
| `KernelIsolation.StepIsolated` | os/kernel/syscall.c:281-363 | a step leaves a slot to its process, with its space and every byte of it, unless it is a store, copy-out or exec of that very process or the wait that reaps it |
| `KernelIsolation.RunIsolated` | os/kernel/syscall.c:281-363 | isolation over every run: whatever all other processes do, a process spared such steps finds every byte at every address as it was |
| `KernelRuns.FromBoot` | os/kernel/kernel.c:275-302 | from boot, over every run of all processes: process table, descriptors, file system and spaces sound and in step, satp live, free pages exact, and all of DRAM and the devices at their physical addresses |
| `ElfRuns.ReadsByte` | cemu/src/mmu.cpp:15-131 | under the satp of a space a user access finds the byte the list of mappings says, if and only if the mapping permits it |
| `ElfRuns.ExecReads` | os/kernel/syscall.c:190-209 | after a successful exec in any reachable machine: through the page tables in force, where its program headers permit the access, the program finds the bytes of the file at that path at the addresses its headers name, zeros behind them, and can fetch at the entry of its file header |
| `KernelLayer.KernelLayer.constructor` | os/kernel/task.c:174-212 | the booted slots: no spaces, idle on the kernel satp |
| `KernelLayer.KernelLayer.Create` | os/kernel/task.c:214-271 | state and pid of the machine |
| `KernelLayer.KernelLayer.Fork` | os/kernel/syscall.c:145-158 | state and pid of the machine, with every failure path |
| `KernelLayer.KernelLayer.FindFile` | os/kernel/minifs.c:954-963 | the regular file the path leads to, or -1 |
| `KernelLayer.KernelLayer.PrepareProgram` | os/kernel/user.c:374-388 | heap and program of the model, read from the disk in place |
| `KernelLayer.KernelLayer.Replace` | os/kernel/user.c:471-493 | the new space takes over slot and satp before the old one is destroyed |
| `KernelLayer.KernelLayer.Exec` | os/kernel/user.c:471-493 | state and program of the machine, the old space destroyed last |
| `KernelLayer.KernelLayer.Attach` | os/kernel/user.c:495-528 | state and program of the machine |
| `KernelLayer.KernelLayer.Exit` | os/kernel/task.c:419-438 | state of the machine |
| `KernelLayer.KernelLayer.Kill` | os/kernel/task.c:440-463 | state and result of the machine |
| `KernelLayer.KernelLayer.Wait` | os/kernel/task.c:465-511 | state and result of the machine |
| `KernelLayer.KernelLayer.Tick` | os/kernel/task.c:395-405 | state of the machine, satp saved and loaded |
| `KernelLayer.KernelLayer.Reschedule` | os/kernel/task.c:407-417 | state of the machine, satp saved and loaded |
| `KernelMemory.KernelMemory.constructor` | os/kernel/mem.c:28-42 | the heap of the model |
| `KernelMemory.KernelMemory.Kalloc` | os/kernel/mem.c:44-61 | the heap and page of the model |
| `KernelMemory.KernelMemory.Kfree` | os/kernel/mem.c:63-81 | the heap of the model, misaligned and foreign addresses ignored |
| `KernelMemory.KernelMemory.Translate` | cemu/src/mmu.cpp:15-131 | memory and result of the model walk |
| `KernelMemory.KernelMemory.ZeroPage` | os/kernel/user.c:59-63 | the page is zero |
| `KernelMemory.KernelMemory.CopyPage` | os/kernel/user.c:65-70 | the page holds the source bytes |
| `KernelMemory.KernelMemory.Create` | os/kernel/user.c:85-106 | heap and space of the model |
| `KernelMemory.KernelMemory.FindMapping` | os/kernel/user.c:108-115 | the first mapping of that page, or none |
| `KernelMemory.KernelMemory.MapUserPage` | os/kernel/user.c:117-143 | heap, space and status of the model |
| `KernelMemory.KernelMemory.CopyToSpace` | os/kernel/user.c:145-164 | memory and status of the model |
| `KernelMemory.KernelMemory.ReadExact` | os/kernel/user.c:225-227 | the bytes of the model, or none |
| `KernelMemory.KernelMemory.CopyFile` | os/kernel/user.c:254-268 | memory and status of the model, read through a 512-byte buffer |
| `KernelMemory.KernelMemory.LoadSegment` | os/kernel/user.c:228-268 | heap, space and status of the model |
| `KernelMemory.KernelMemory.LoadElf` | os/kernel/user.c:210-287 | heap, space and entry point of the model, read from the disk in place |
| `KernelMemory.KernelMemory.BuildInitialStack` | os/kernel/user.c:298-372 | memory and stack pointer of the model |
| `KernelMemory.KernelMemory.CloneSpace` | os/kernel/user.c:390-406 | heap and space of the model |
| `KernelMemory.KernelMemory.DestroySpace` | os/kernel/user.c:408-421 | heap of the model |
| `KernelMemory.KernelMemory.VmInit` | os/kernel/vm.c:22-105 | heap and tables of the model |
| `BootImage.InstallBoots` | os/boot/loader.c:88-150 | whatever the image held, after a successful installation the loader accepts the slot and the load address receives exactly the kernel |
| `BootImage.InstallKeeps` | tools/install_kernel.py:42-96 | below the slot only the block count and the tail bits of the data map change, and those only on an image not yet migrated |
| `BootImage.InstallSucceeds` | tools/install_kernel.py:66-96 | installation succeeds if and only if the sizes, magic and version fit and the tail is reserved or free |
| `BootImage.Reinstall` | tools/install_kernel.py:66-96 | installing twice is installing the second kernel |
| `BootLoader.TailUsed` | tools/install_kernel.py:50-53 | whether some sector of the slot is marked in the data map |
| `BootLoader.MarkTail` | tools/install_kernel.py:55-60 | all of them marked and no other bit changed |
| `BootLoader.MigrateMinifs` | tools/install_kernel.py:42-63 | the image of the model, or unchanged with a failure |
| `BootLoader.ChecksumOf` | tools/install_kernel.py:28-29 | the sum of the bytes modulo 2^32 |
| `BootLoader.InstallKernel` | tools/install_kernel.py:66-96 | the image of the model |
| `BootLoader.CopyKernel` | os/boot/loader.c:121-139 | memory holds the kernel bytes, the checksum is their sum, and every sector read lies in the slot |
| `BootLoader.BootMain` | os/boot/loader.c:88-150 | starts exactly when the model accepts the slot, with exactly its bytes in memory; it reads no sector outside the slot |
| `Mkfs.FileBlockSame` | tools/mkfs_minifs.py:77-94 | `file_block` does what the kernel does to the file system when free blocks are zero |
| `Mkfs.WriteFileSame` | tools/mkfs_minifs.py:96-106 | `write_file` on a new file is the kernel write of all its bytes |
| `Mkfs.AddDirentSame` | tools/mkfs_minifs.py:108-119 | `add_dirent` is the kernel `dir_add` in a directory that never lost an entry |
| `Mkfs.AddNodeSame` | tools/mkfs_minifs.py:62-119 | `alloc_inode` with `add_dirent` is the kernel `create_node` |
| `MkfsImport.ImportOk` | tools/mkfs_minifs.py:121-137 | importing a list of nodes leaves each under its name, with its bytes and all below it, and everything that was there |
| `MkfsFits.AddNodeSpends` | tools/mkfs_minifs.py:62-119 | a node under any host name is added if and only if the name has at most 55 bytes and an inode and the blocks its entry needs are free, and then exactly those are used |
| `MkfsFits.ImportIff` | tools/mkfs_minifs.py:121-137 | importing any host tree into any directory succeeds if and only if no name is over 55 bytes, no file over 64 KiB, and enough inodes and blocks are free, counted over the whole tree |
| `MkfsFits.ImportFits` | tools/mkfs_minifs.py:121-137 | importing into an empty image succeeds if and only if the tree has at most 255 nodes and 15322 blocks, no name over 55 bytes and no file over 64 KiB |
| `MkfsFits.FitsAndReads` | tools/mkfs_minifs.py:121-181 | for every importable tree within those limits the whole round trip holds: the image mounts, is sound, and every file reads back byte for byte |
| `MkfsImage.EmptyOk` | tools/mkfs_minifs.py:39-49 | the empty builder is a sound file system with zero free blocks |
| `MkfsImage.FinishView` | tools/mkfs_minifs.py:139-181 | the kernel mounts the finished image and finds exactly the file system built |
| `MkfsImage.MkfsRoundTrip` | tools/mkfs_minifs.py:121-181 | for every importable tree that fits: the image mounts, is sound, and every imported path resolves, from any directory, to a file that reads back byte for byte with its mode |
| `MkfsBuilder.MiniFSBuilder.constructor` | tools/mkfs_minifs.py:39-49 | the empty file system |
| `MkfsBuilder.MiniFSBuilder.AllocBlock` | tools/mkfs_minifs.py:70-75 | the lowest free block marked |
| `MkfsBuilder.MiniFSBuilder.AllocInode` | tools/mkfs_minifs.py:62-68 | the lowest free inode with its record |
| `MkfsBuilder.MiniFSBuilder.Block` | tools/mkfs_minifs.py:77-94 | block and state of the model |
| `MkfsBuilder.MiniFSBuilder.WriteFile` | tools/mkfs_minifs.py:96-106 | state of the model |
| `MkfsBuilder.MiniFSBuilder.AddEntry` | tools/mkfs_minifs.py:108-119 | state of the model |
| `MkfsBuilder.MiniFSBuilder.ImportTree` | tools/mkfs_minifs.py:121-137 | state of the model, recursion included |
| `MkfsBuilder.MiniFSBuilder.FinishImage` | tools/mkfs_minifs.py:139-181 | the image of the model |

## Left out

- Devices: UART, PLIC, CLINT, the console bytes behind descriptors 0 to 2, printing, and the host file behind the disk.
- The instruction set of the emulator, the assembly that enters user mode or switches stacks (`enter_user`, `switch_to`), `yield`, and the general registers in a saved trap frame; of these the machine keeps satp, and `Programs.Loaded` the ones a program starts with.
- NULL arguments of kernel functions, and overflow of pids, ready stamps and tick counters.
- Fairness among the tasks in `sem_wait`, the yield system call, and what a restarted `waitpid` returns: the retry of a blocked call sees a changed argument register.
- Crash consistency: states between two disk writes of one call are not described.
- `getdents`, `ps`, process listings other than the tree, and the copying of paths, vectors and results across the user boundary; a user buffer is described by how much of it is mapped.
- The shell and the other user programs, the in-memory `ramfs` that only the boot diagnostics use, the report generators and the test drivers: nothing said here depends on what they do.
- FsRuns.RunSafe: assumes that the working directory passed in is in use, which the code does not check; StaleDir.CreateKeepsIff gives the exact condition.
- FileCalls.RunOk: makes the same assumption for open and mkdir, and that a fork names two different pids, as its callers do.
- TaskInv.StepOk: leaves out the step in which idle hangs in a wait; TaskInv.WaitKeepsIff shows that this is the only one that breaks the table.
- TaskInv.EveryRunOk: says nothing about a waiter with target 0, which is never woken by a child; see TaskInv.DeathWakesIff.
- TaskInv.SpawnOk: takes the outcome of setting up the descriptor table as an argument; KernelModel computes it from the tables and KernelRuns.ForkOk and KernelRuns.CreateKeepsIff state when it succeeds.
- TaskTable.TaskTable.Spawn: is told the same outcome; KernelLayer.KernelLayer.Fork and KernelLayer.KernelLayer.Create obtain it from the descriptor tables.
- KernelRuns.RunOk: leaves out creating a task or attaching a first program from a task that has an address space, which no caller does; KernelRuns.CreateKeepsIff and KernelRuns.AttachKeepsIff show that exactly these break the machine, and KernelCallers.FromBootBroken shows them after boot. The hang of idle and a removed working directory are left out as above.
- KernelMemory.KernelMemory.MapUserPage: the kernel record of a space is passed and returned as a value; only physical memory changes in place.
- Mmu.Agreement: physical addresses below DRAM, which the emulator's memory indexes by wrapping subtraction, cannot come from tables the kernel builds and are not described.
- MkfsImage.MkfsRoundTrip: covers paths of fewer than 256 bytes, the longest the kernel resolves, and trees whose import succeeds, which MkfsFits.ImportFits decides; links and permissions of the host file system are not described.
