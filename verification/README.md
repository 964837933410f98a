# Verification of a small x86 kernel

This project models three parts of the kernel and proves properties of them in Dafny 4.11:

* the file system driver (`src/fat32.c`) over the array-backed disk of
  `src/external/external-inserter.c`;
* page frames, page directories, processes and the scheduler (`src/paging.c`, `src/process.c`,
  `src/scheduler.c`, the timer branch of `src/interrupt.c`);
* the shell's path handling (`src/user/command.c`) and the string routines it uses
  (`src/stdlib/string.c`).

`dafny verify dfyconfig.toml` checks the whole project.

## How it is built

**File system.** `Codec` fixes the on-disk formats: 32-byte entries, tables of 64 entries, the
allocation table, all little-endian, with decoders that undo the encoders. `BlockDisk.Disk` is a
byte array, with a ghost view that says what each cluster holds. `Volumes` gives the meaning of a
disk: a *layout* assigns a node to each path and an owner to each cluster, and `Inv` says that a
volume (the table in memory and the disk) realises a layout. In a state with `Inv`, every entry of
the table from 3 on is empty or belongs to exactly one file chain or folder that is reached from the
root, chains ascend and are exactly as long as the file size asks, a folder's table lists exactly its
children, and entry 1 of a folder's table points at its parent. `TreeOf` is the abstract state: a
map from paths to folders and file contents. `Fat32.Driver` is the driver, with its table, its shared
directory buffer and its disk as fields that the methods change. Its `Valid` holds `Inv` and says
that cluster 1 of the disk holds the table in memory and that the signature is intact, so every
sequence of calls that meets the preconditions keeps all of this. The proofs about states are lemmas
on values (`Insertion`, `Removal`, `FreeSpace`, `Allocation`, `Exhaustion`, `WriteOutcome`, `Erasure`,
`Copying`, `Durability`, `Occupancy`); the methods of the driver tie each call to them. `Laws` states
laws of pairs of calls.

A lookup of a folder compares names and not extensions, so which folder it finds depends on the slots.
`SlotTrees` refines the tree by the slot of every entry, with the first vacant slot for a write and the
first slot with the name for a lookup. `FolderCopy` gives the recursive copy as a function on such
trees, and proves what it adds, what it costs and when it repeats the source; `CopySteps` carries the
driver's loop through it slot by slot.

**Shell.** `Resolution` says what a path means in the tree and what text the shell shows for a
working directory. `Shells.Shell` holds the working directory and its text, and its methods resolve
paths, change the directory, move, copy and search on top of the driver. `ShellLaws` states what the
commands do in terms of the paths that are typed. `Moving` and `Finding` hold the lemmas on trees.
`Strings` and `Decimal` model the string routines.

**Kernel.** `Paging`, `AddressSpaces` and `Processes` describe every operation as a function on a
state; `PageManagers.PageManager` and `ProcessManagers.ProcessManager` are the code's own form,
classes over arrays whose methods equal these functions. `KernelInvariant` and `KernelRuns` prove
what single events and whole runs keep, `Orphans` what a failed creation costs. `Starvation` shows that
one condition cannot be dropped.

**Witnesses.** `FileWitnesses` runs the driver and the shell from a newly formatted disk, and
`KernelWitnesses` the kernel from its start, to the states named in the next section.

**Parameters.** The rest of the name that formatting copies for the root (`rootName`), the code that
reading a program's file returned (`readCode`) and the registers of an interrupted process are
parameters. CR3 and the context the processor takes up are fields.

## What does not hold, and exactly when it does

* `write` reports success on a full disk. The volume stays valid exactly when the free clusters
  suffice; otherwise no layout makes the result a valid volume (`Fat32.Driver.Write`;
  `FileWitnesses.FullDisk`).
* `copy_folder` into an empty folder makes its subtree equal to the source's exactly when no folder
  below the source has an extension, because the copy is written without one
  (`FolderCopy.CopyOutcome`; `FileWitnesses.ExtensionLost`). If no two entries of a folder have the same
  key without the folders' extensions, everything arrives under those keys.
* `mv` and `cp -r` of a folder make the target and then look it up by its name without the extension,
  so the contents may go to another folder. They reach the target exactly when no other folder beside it
  has its name in a slot before the one the new entry takes, and no folder below the source has an
  extension, or when there are no contents (`Moving.LandsWhenFirst`, `Moving.SubtreeArrives`,
  `Shells.Shell.Mv`, `Shells.Shell.CpRec`). If the lookup finds another folder the target stays empty:
  moving `docs` to `docs.old` loses what is in it (`FileWitnesses.DocsLost`), and copying it there copies
  nothing (`FileWitnesses.DocsNotCopied`), with success reported.
* After a successful `cd` the text of the working directory names it exactly when no component walked
  was "." (`Resolution.ChangeNamesFolder`): the comparison with ".." runs over the length of the
  component, so "." cuts the text as ".." does. The scan starts at entry 1, so "." is walked only in a
  folder that has a folder of that name. `mkdir` refuses names with dots and the path parser takes them
  apart, so only a direct write makes one (`FileWitnesses.DotShown`); the usual `cd .` fails, and a `cd`
  that fails changes nothing (`Shells.Shell.Cd`).
* The check for free frames passes every amount above 0xFFC00000, because its rounding up wraps around;
  up to there it passes exactly the amounts the free frames hold (`Paging.RequiredFramesHold`).
* Process creation keeps frames isolated exactly when it fails before it builds an address space, or
  the program's pages cover slot 0 of the directory (`KernelInvariant.CreationKeeps`). Otherwise the
  preset mapping of frame 0 stays, and destroying the process hands frame 0 out
  (`KernelInvariant.CreationCostsKernelFrame`). A program one page up does that, and so does one so large
  that the check wraps around (`KernelWitnesses.OffSlotZero`).
* A failed creation leaves the kernel as it was exactly when it fails before it builds an address space.
  If the program cannot be read, its directory and frames are lost (`Orphans.FailureCosts`), and no later
  run gives them back (`Orphans.NeverRecovered`).
* A timer interrupt keeps the process table sound exactly when some process exists
  (`KernelRuns.EventKeeps`), which is not so at the start (`KernelWitnesses.TickTooEarly`).
* A ready process waits at most 16 interrupts for each time the running process ends, and 16 more
  (`KernelRuns.NoStarvation`). If processes go on ending, it can wait for ever (`Starvation.WaitsForEver`),
  from a state the kernel reaches from its start (`Starvation.SlotZeroReached`).
* `mv` of a folder onto itself, or onto a folder above it, deletes it before it copies. The copy reports
  success exactly when no cluster below the source's is free once the target is deleted; the new folder
  stays, empty, unless the copy succeeded and it is the source itself (`Moving.Overwritten`,
  `Shells.Shell.MoveFolder`; `FileWitnesses.DocsOverwritten`).
* Moving a file onto itself loses it (`Moving.FileMoved`, `Shells.Shell.MoveFile`;
  `FileWitnesses.MovedOntoItself`).

Return codes follow `src/fat32.c` and `src/process.c`. The comments of
`src/header/filesystem/fat32.h` describe other codes for some of them.

## Model

| member | source | states |
|---|---|---|
| Codec.EntryRoundTrip | src/header/filesystem/fat32.h:76-93 | a directory entry's 32 bytes decode to the entry that was encoded |
| Codec.EntryBytes | src/header/filesystem/fat32.h:76-93 | each field of an entry is at the byte where the packed structure has it, words low byte first |
| Codec.TableRoundTrip | src/header/filesystem/fat32.h:95-99 | a cluster read as a directory table gives back the 64 entries written to it |
| Codec.FatRoundTrip | src/header/filesystem/fat32.h:51-54 | a cluster read as the allocation table gives back the words written to it |
| Codec.FatBytes | src/header/filesystem/fat32.h:51-54 | word `i` of the allocation table is at byte 4 * i, low byte first |
| BlockDisk.Memcpy | src/stdlib/string.c:13-20 | exactly the `n` bytes from the given offset on change, to the source's |
| BlockDisk.Memcmp | src/stdlib/string.c:22-35 | the sign of the first difference |
| BlockDisk.CompareOrders | src/stdlib/string.c:22-35 | a comparison is 0 exactly for equal bytes, and changes sign when its arguments change places |
| BlockDisk.Disk.ReadBlocks | src/external/external-inserter.c:13-22 | exactly the blocks asked for arrive, at their place, and the rest of the buffer stays |
| BlockDisk.Disk.WriteBlocks | src/external/external-inserter.c:24-33 | exactly the addressed blocks of the image change, to the bytes of the buffer |
| BlockDisk.Disk.ReadClusters | src/fat32.c:163-166 | the buffer gets the bytes of the cluster and is otherwise unchanged |
| BlockDisk.Disk.WriteClusters | src/fat32.c:158-161 | the cluster holds what was written and every other cluster what it held |
| BlockDisk.HoldsAfterWrite | src/fat32.c:158-161 | overwriting one cluster's bytes changes what that cluster holds and no other |
| Fat32.InitDirectoryTable | src/fat32.c:99-119 | entries 0 and 1 are the folder itself and its parent, the other 62 are clear |
| Fat32.Driver.IsEmptyStorage | src/fat32.c:121-126 | a disk counts as empty exactly when the boot sector lacks the signature |
| Fat32.Driver.CreateFat32 | src/fat32.c:128-144 | formatting leaves a valid volume whose tree is the root alone |
| Fat32.Driver.Mount | src/fat32.c:146-156 | a disk with the signature is not written and comes up with the tree it stores; any other disk is formatted |
| Fat32.Driver.SameTree | src/fat32.c:146-156 | every layout that fits a stored volume gives the same tree, so what a mount finds is determined |
| Durability.BytesDetermineTree | src/fat32.c:146-156 | two readings of the same bytes as valid volumes have the same layout and the same tree |
| Volumes.FreeIsUnowned | src/fat32.c:249-252 | in a valid state an empty table entry belongs to no path |
| FreeSpace.Conservation | src/fat32.c:128-144 | in every valid state free and owned clusters add up to the data area and the root |
| FreeSpace.FreePlusTaken | src/fat32.c:289-292 | the scan's list of free clusters has as many entries as there are empty table entries |
| FreeSpace.FirstFree | src/fat32.c:267-282 | the first free cluster of the scan is the one below which no entry is empty |
| Insertion.AddNode | src/fat32.c:230-312 | an entry in a clear slot with a node on free clusters keeps the ownership partition and inserts exactly that node |
| Removal.RemoveNode | src/fat32.c:314-380 | freeing what lies under a node and clearing its slot keeps the partition and removes exactly that subtree |
| Allocation.TakeOne | src/fat32.c:289-306 | linking and filling one more free cluster extends the chain in order and disturbs no other cluster |
| Allocation.ChainHolds | src/fat32.c:285-307 | a chain filled part by part, last part padded, reads back as those parts |
| Allocation.AddFile | src/fat32.c:285-310 | a first-fit chain recorded in the parent's table inserts the file with its bytes, whatever the fragmentation |
| Allocation.AddFolder | src/fat32.c:262-282 | a fresh table on the first free cluster recorded in the parent's table inserts an empty folder |
| Exhaustion.ShortFileInvalid | src/fat32.c:288-307 | a file whose chain stopped short of its size makes the volume invalid under every layout |
| Exhaustion.EmptyFileInvalid | src/fat32.c:262-282 | an entry for which no cluster was found makes the volume invalid under every layout |
| WriteOutcome.FileOutcome | src/fat32.c:285-310 | with enough free clusters the file is stored, with too few no layout fits the result |
| WriteOutcome.FolderOutcome | src/fat32.c:262-310 | with a free cluster the folder is stored, without one no layout fits the result |
| WriteOutcome.TakenChain | src/fat32.c:285-289 | counting the clusters in 16 bits gives the whole chain when the free clusters suffice, and too short a one when they do not |
| Occupancy.CrowdedTable | src/fat32.c:241-257 | a table has no clear slot exactly when its folder has 62 children, and it never has more |
| Fat32.Driver.TakeClusters | src/fat32.c:288-306 | the clusters taken are the first free ones in order, linked and filled, until enough or none is left |
| Fat32.Driver.Write | src/fat32.c:230-312 | 2 exactly if the parent is no folder, 1 exactly if the name and extension are taken there, -1 exactly if they are not and the folder has its 62 children; on 0 the tree gains exactly the file or folder, in the first clear slot and on the first free clusters, a folder's table naming the folder first, or the volume is broken, as the free clusters decide; other codes change nothing |
| Fat32.Driver.ReadChain | src/fat32.c:213-220 | following a chain fills the buffer with the chain's bytes in order and touches no more than it sized |
| Fat32.Driver.Read | src/fat32.c:194-228 | 0 exactly if there is such a file and the buffer is large enough, 1 exactly if there is none but a folder with the name, 2 exactly if there is neither; on 0 the buffer starts with exactly the file's bytes; the state is unchanged |
| Fat32.Driver.ReadDirectory | src/fat32.c:168-192 | 0 exactly if the buffer is a table's and the name is ".." or that of some folder there, 1 exactly if only files have it, 2 exactly if nothing has it; the table returned lists exactly the children, with kinds and sizes, of the folder the name opens: the parent for "..", else the folder with the name in the lowest slot |
| Fat32.Driver.SearchFile | src/fat32.c:437-457 | 0 exactly if there is a file with this name and extension, 2 exactly if no entry has the name, 1 for the rest, -1 exactly if the parent is no folder |
| Fat32.Driver.GetClusterNumber | src/fat32.c:459-478 | 0 exactly when the parent has no folder with the name, whatever its extension; otherwise the cluster of the one in the lowest slot |
| Fat32.FoundInTable | src/fat32.c:464-476 | the first folder entry of a table with a name is the folder that the lookup on the tree finds |
| SlotTrees.FoundWhenFirst | src/fat32.c:464-476 | a lookup by name finds a given folder exactly when no other folder beside it with that name sits in an earlier slot |
| SlotTrees.StoredIsPut | src/fat32.c:241-310 | a stored request takes the first vacant slot, and every other entry keeps its slot and content |
| SlotTrees.RefusedIsPut | src/fat32.c:241-260 | a taken name and a full table are the only reasons a folder refuses an entry |
| SlotTrees.PrunedIsWithout | src/fat32.c:347-435 | a deletion takes exactly a subtree out and moves no other entry to another slot |
| Erasure.EraseNext | src/fat32.c:318-343 | after each slot exactly the clusters under the slots seen so far are freed and zeroed |
| Erasure.ChainErased | src/fat32.c:326-340 | freeing a file's chain frees and zeroes exactly the clusters of that file |
| Erasure.ErasedRemoved | src/fat32.c:358-374 | an erased subtree and a cleared slot in its parent are a removal of exactly that subtree |
| Erasure.FreeAfterRemove | src/fat32.c:314-345 | a removal frees as many clusters as the subtree owned |
| Fat32.Driver.RecDelete | src/fat32.c:314-345 | terminates and frees exactly the clusters the subtree owned and fills them with zeros, although each nested call overwrites the shared buffer |
| Fat32.Driver.DeleteFolderRec | src/fat32.c:347-380 | 0 exactly if there is such a folder, 2 exactly if nothing is there, 1 if a file is, -1 exactly if the parent is no folder; on success exactly the subtree is gone and its clusters are free; other codes change nothing |
| Fat32.Driver.Delete | src/fat32.c:382-435 | 1 exactly if nothing is there, 2 exactly if a folder that is not empty is, -1 exactly if the parent is no folder; deletes a file or an empty folder and nothing else; other codes change nothing |
| Fat32.Driver.CopyFile | src/fat32.c:537-605 | 0 exactly if the source is a file and the destination is one, or is free in a folder with room; 1 exactly if there is no such file or a folder is in the way, 2 exactly if the destination's parent is no folder; on 0 the destination holds the source's bytes, or the volume is broken, as the free clusters decide; other codes change nothing |
| Fat32.Driver.CopyFolder | src/fat32.c:480-535 | terminates; tree, slots and free clusters become those of the copy on trees, also if the destination is the source itself or lies above it; all that was there stays; what is new lies below the destination; a copy into an empty folder repeats every entry, the folders without their extensions, if no two entries of a folder then have the same key, and costs exactly the source's clusters; it equals the source exactly when no folder below it has an extension; nothing happens if the destination is no folder |
| FolderCopy.CopyOutcome | src/fat32.c:480-535 | the finished copy only added, below the destination; into an empty folder it repeats every entry under its key, for folders without the extension, if these keys are distinct in every folder, and nothing else; the subtrees are equal exactly when no folder below the source has an extension |
| FolderCopy.CopyGrows | src/fat32.c:480-535 | a copy leads from a sound tree to a sound one, adds nothing deeper below the destination than the source reaches, and only folders without extension |
| FolderCopy.CopyExact | src/fat32.c:486-533 | where the keys of the copies are distinct, the slots still to come are repeated entry by entry and nothing else is new |
| FolderCopy.EntryExact | src/fat32.c:489-532 | one entry with all below it is repeated, and the copy stays exact for the next slot |
| FolderCopy.CopyCost | src/fat32.c:480-535 | copying to a place apart takes at most the clusters below the source that are still to come, and exactly those if every entry is repeated |
| FolderCopy.LimitUnseen | src/fat32.c:480-535 | the bound on the depth that makes the copy a total function has no effect where nothing lies deeper |
| FolderCopy.NotPlainNotEqual | src/fat32.c:492-499 | a copy whose new folders lack an extension cannot equal a source that has one with |
| CopySteps.NextEntry | src/fat32.c:486-490 | a used slot is the next entry of the copy, and there are clusters for what it needs |
| CopySteps.EntryTaken | src/fat32.c:489-532 | an entry dealt with carries the copy to the next slot, towards the same result |
| CopySteps.NestedBegins | src/fat32.c:500-503 | with the folder made and looked up, the nested copy has what it asks for, one level less deep |
| CopySteps.CostApart | src/fat32.c:480-535 | the whole copy to a place apart costs at most the clusters below the source, and exactly those into an empty folder without extensions in the way |
| Copying.GraftSubtree | src/fat32.c:480-535 | what was carried over path by path is the same subtree, keyed by names |
| Copying.PlainIsGraft | src/fat32.c:480-535 | without extensions on folders, the copy carries every path over as it is |
| Laws.WriteThenRead | src/fat32.c:194-312 | a written file reads back as its bytes, through any fragmentation, and every other path keeps its content |
| Laws.WriteTwice | src/fat32.c:230-257 | after a successful write the same request returns 1 and changes nothing |
| Laws.MakeThenList | src/fat32.c:168-312 | a folder just made is opened by its name with 0 and lists nothing, unless another folder has the name in a lower slot |
| Laws.WriteThenDelete | src/fat32.c:230-435 | deleting what was just written restores the tree and the number of free clusters |
| Laws.Remount | src/fat32.c:146-156 | after any completed call, a new start on the disk finds the driver's tree |
| Laws.PruneUndoesAdd | src/fat32.c:230-435 | taking out the node just added restores the owner of every cluster |
| Strings.JoinSplit | src/stdlib/string.c:78-94 | joining the pieces of a split gives the text back |
| Strings.SplitJoin | src/stdlib/string.c:78-94 | splitting a joined text gives the pieces back |
| Strings.Strsplit | src/stdlib/string.c:78-94 | row `j` of the table holds piece `j`, and the rows after the last piece are empty |
| Strings.Strcat | src/stdlib/string.c:55-67 | the buffer holds the first text followed by the second |
| Decimal.Itoa | src/stdlib/string.c:122-144 | the buffer starts with the numeral of the value and a zero byte, and is otherwise unchanged, for every 32-bit value |
| Decimal.NumeralRoundTrip | src/stdlib/string.c:122-144 | the numeral parses to the value and has no leading zero |
| Decimal.DigitsCanonical | src/stdlib/string.c:127-132 | the digits are decimal digits, parse to the magnitude and do not begin with zero |
| Decimal.MirroredIsDigit | src/stdlib/string.c:131-131 | the mirrored table gives the same digit for a remainder and its negative |
| Resolution.RenderResolves | src/user/command.c:336-401 | walking from the root along the text of a working directory leads to the folder it names |
| Resolution.TextTracks | src/user/command.c:373-385 | a walk without "." keeps text and folder in step; one with "." never does again |
| Resolution.ChangeNamesFolder | src/user/command.c:336-401 | after a successful change the text names the new folder if and only if no component walked was "." |
| Resolution.BaseIsNotParent | src/user/command.c:1164-1175 | the last component never means the parent |
| Resolution.WalkStays | src/user/command.c:1133-1162 | a walk from a folder ends in a folder |
| Resolution.ResolveMeans | src/user/command.c:1122-1190 | what every path text means: 3 exactly if the walk along all components but the last fails, 4 and 5 exactly if then the last one's name or extension is too long; else the folder reached, the name and the extension as typed and padded with zeros, and 0, 1 or 2 as that child is a file, a folder or absent |
| Resolution.EveryPath | src/user/command.c:1122-1175 | every path text has components, a name and an extension of which that speaks |
| Shells.Shell.TextResolves | src/user/command.c:336-401 | while the text is that of the working directory, walking along it from the root leads there |
| Shells.Shell.GetCurrAndParentCluster | src/user/command.c:1122-1190 | code, parent, cluster and name agree with resolving the path on the tree, ".." included, which is what the path says (`Resolution.ResolveMeans`) |
| Shells.Shell.MoveBack | src/user/command.c:455-468 | the text is cut at its last slash |
| Shells.Shell.Cd | src/user/command.c:336-401 | the working directory moves to where the walk leads and the text follows, or nothing changes; the tree is unchanged; text and folder agree exactly when "." was not walked |
| Shells.Shell.Find | src/user/command.c:1192-1225 | something is found exactly when the name occurs somewhere below the folder or was found before |
| Finding.FoundNext | src/user/command.c:1198-1223 | a slot adds its own name and whatever is below it, and nothing else |
| Shells.Shell.Mv | src/user/command.c:695-841 | nothing is left at the source, and everything beside both paths stays; a file moved to a folder is in it under its own name and extension, any other file is at the target; a folder's subtree is at the target if and only if the new folder is the first of its name and no extension is in the way, or it was empty, and otherwise what is new lies in the folder the lookup found; a folder moved onto itself or onto a folder above it is lost; refused in exactly the stated cases, and then nothing changes; the session goes on unless the working directory went away |
| Moving.StepsMove | src/user/command.c:796-825 | clearing the target, making it, copying into what its name finds and deleting the original compose to such a move |
| Moving.LandsWhenFirst | src/user/command.c:820-823 | the lookup finds the new folder exactly when no other folder beside it with its name sits before the slot it takes, once the old target's slot is clear |
| Moving.SubtreeArrives | src/user/command.c:815-825 | the subtree reaches the new folder exactly when the lookup finds that folder and no folder below the source has an extension, or there was nothing to copy |
| Moving.RoomSuffices | src/user/command.c:796-825 | a move between places apart needs no more clusters than the source has, once the target is cleared |
| Moving.ReclaimedWhen | src/user/command.c:802-815 | a cluster under a deleted folder is the first one a write takes exactly when no lower one is free or lay under that folder |
| Moving.MoveEnds | src/user/command.c:796-826 | clearing, making, copying and deleting end in the move, or, if the source lies at or below the target, in its loss |
| Moving.StepsMoveFile | src/user/command.c:766-784 | copying a file and deleting the original compose to a rename, or lose a file moved onto itself |
| Shells.Shell.MoveFolder | src/user/command.c:789-825 | the folder branch moves the subtree as far as the lookup by name lets it, or is refused exactly when the target is new and its folder is full; if the source lies at or below the target, both are lost, and the copy succeeds exactly when the source's cluster is the lowest one free by then |
| Shells.Shell.MoveFile | src/user/command.c:751-784 | the file branch renames the file, or is refused exactly when the target is a folder or new in a full folder |
| Shells.Shell.CpRec | src/user/command.c:947-1083 | a recursive copy makes the target, which in a folder has the source's name without extension, and adds the subtree there if and only if the new folder is the first of its name and no extension is in the way, or the source is empty; otherwise what is new lies in the folder the lookup found; everything that was there stays, and the session goes on; refused exactly when the target exists or its folder is full |
| ShellLaws.NamesResolved | src/user/command.c:1122-1190 | a path typed as folders, a name and an extension resolves to the path it names, and to whether a file, a folder or nothing is there |
| ShellLaws.MoveFileTo | src/user/command.c:751-784 | moving a typed path of a file to a typed path: the whole tree afterwards, and exactly when it is refused |
| ShellLaws.MoveFolderTo | src/user/command.c:789-841 | moving a typed path of a folder to a typed path beside it: exactly when it is refused, and otherwise such a move |
| ShellLaws.CopyFolderTo | src/user/command.c:947-1083 | copying a typed path of a folder to a typed path: where the new folder is, and exactly when it is refused |
| Moving.StepsCopy | src/user/command.c:1038-1066 | making a folder and copying into what its name finds compose to such a copy |
| Paging.AllocateSound | src/paging.c:58-99 | handing a free frame to a slot that holds none keeps one owner per frame and an exact counter |
| Paging.WithDirectorySound | src/paging.c:143-171 | taking a directory into use changes no owner |
| Paging.ReleaseIsolated | src/paging.c:173-201 | releasing a directory keeps every other owner, frees what it mapped and keeps isolation |
| Paging.ReleaseShape | src/paging.c:173-201 | a release blanks the directory, frees just the frames it mapped and leaves the counter exact |
| Paging.ClearedShape | src/paging.c:187-197 | after `n` slots exactly the frames those slots mapped are free |
| Paging.PagesOnIndex | src/process.c:51-54 | page `n` of a program lies `n` slots after its first page |
| AddressSpaces.AllSucceed | src/process.c:52-55 | when the exact counter is high enough, every allocation of a run finds a frame and the counter goes down by one a page, wherever the pages lie |
| AddressSpaces.MappedSound | src/process.c:52-55 | such a run keeps one owner per frame and takes one frame a page |
| AddressSpaces.MappedUser | src/paging.c:58-99 | every page of a run of successful allocations is present, writable, open to the process, and maps a used frame, later pages higher ones |
| AddressSpaces.NewSpaceIsolated | src/process.c:39-55 | a new address space keeps memory isolated if and only if its pages cover slot 0 |
| AddressSpaces.ReleaseUndoesNewSpace | src/process.c:39-55 | releasing a new address space restores frames, counter, pool and contents exactly |
| AddressSpaces.KernelFrameLost | src/paging.c:162-165 | without a page on slot 0, releasing the address space frees the kernel's frame |
| PageManagers.InitialIsolated | src/paging.c:23-28 | the initial memory is isolated |
| PageManagers.PageManager.AllocateCheck | src/paging.c:48-56 | passes exactly the amounts that the free frames hold, and all above 0xFFC00000 |
| Paging.RequiredFramesHold | src/paging.c:48-56 | the frames required are the least that hold the amount, up to 0xFFC00000; above that none, because the rounding up wraps around |
| PageManagers.PageManager.AllocateUserPageFrame | src/paging.c:58-99 | the state becomes the allocation's: the first free frame is taken, and the entry for the address names it and is present, writable, open to the process and big; fails exactly if no frame is free, and then changes nothing |
| PageManagers.PageManager.FreeUserPageFrame | src/paging.c:101-132 | the state becomes the freeing's: the entry is cleared and its frame is free; the result says whether the page was mapped |
| PageManagers.PageManager.CreateNewPageDirectory | src/paging.c:143-171 | the first unused directory is taken, with the kernel's slot and slot 0 mapping frame 0, writable and not open to processes through the kernel's slot; or none is and nothing changes |
| PageManagers.PageManager.FreePageDirectory | src/paging.c:173-201 | a directory of the pool is released: its mapped slots are cleared and their frames free, and no others; any other pointer is refused and nothing changes |
| KernelInvariant.InitialInv | src/process.c:6-12 | the initial kernel is sound |
| KernelInvariant.CreationKeeps | src/process.c:14-96 | creation keeps the invariant if and only if it builds no address space or one that covers slot 0 |
| KernelInvariant.NewProcessStartsClean | src/process.c:57-92 | a new process starts from the same context whatever ran in its slot before |
| KernelInvariant.NewProcessMapped | src/process.c:39-55 | every page of a new process is writable by it and maps a used frame; the kernel's slot and slot 0, unless a page lies on them, are as preset, and every other slot is clear |
| KernelInvariant.CreationAllocates | src/process.c:31-55 | when the check passes every allocation of the creation succeeds, whose results the code ignores, wherever the program lies; it takes exactly the frames required |
| KernelInvariant.DestructionKeeps | src/process.c:125-148 | destruction of any pid keeps the invariant |
| KernelInvariant.DestructionUndoesCreation | src/process.c:14-148 | creating a process and destroying it restores the whole kernel state |
| KernelInvariant.CreationCostsKernelFrame | src/process.c:14-148 | when slot 0 is not covered, the same pair makes frame 0 the next to be handed out |
| KernelInvariant.SwitchKeeps | src/scheduler.c:25-50 | a switch keeps the invariant if and only if some process exists |
| KernelInvariant.SwitchChoice | src/scheduler.c:27-45 | when some process exists a switch leaves exactly one running, the first ready one after the one that ran, or that one again |
| KernelInvariant.NextExists | src/scheduler.c:36-45 | the scan, which looks at the state alone, ends at a process that exists |
| ProcessManagers.ProcessManager.CreateUserProcess | src/process.c:14-96 | state and code are the creation's: 1 exactly for a full table, then 2 exactly for an entry point in the kernel's half, 3 exactly for more frames than are free or than 8, or no free directory, 4 exactly for a failed read; the directory in use is restored on every path |
| ProcessManagers.ProcessManager.DestroyProcess | src/process.c:125-148 | state and result are the destruction's; in a sound kernel it fails only for pids not in use |
| ProcessManagers.ProcessManager.GetInactiveIndex | src/process.c:98-108 | the first free pid, -1 if there is none |
| ProcessManagers.ProcessManager.GetCurrentRunning | src/process.c:110-123 | the running process, or none |
| ProcessManagers.ProcessManager.Exit | src/process.c:150-155 | the running process is destroyed and the kernel stays sound |
| ProcessManagers.ProcessManager.GetProcessList | src/process.c:157-172 | the list is the listing of the processes in use, in order |
| ProcessManagers.ListingComplete | src/process.c:157-172 | the listing has one entry per active process, in the order of the pids, with each process's state and name |
| ProcessManagers.ProcessManager.SaveContext | src/scheduler.c:13-22 | the running process keeps exactly the registers, eip and eflags it was interrupted with |
| ProcessManagers.ProcessManager.ScanReady | src/scheduler.c:36-43 | the scan stops at the first ready process around the table |
| ProcessManagers.ProcessManager.SwitchToNextProcess | src/scheduler.c:25-50 | the state becomes the switch's: one state changed to running, its directory and its context taken up |
| ProcessManagers.ProcessManager.TimerInterrupt | src/interrupt.c:50-57 | save, then switch; a sound kernel stays sound exactly when some process exists |
| KernelRuns.EventKeeps | src/interrupt.c:50-57 | an event keeps the invariant exactly when the kernel's assumption about it holds |
| KernelRuns.RunKeeps | src/process.c:14-148 | every run of interrupts, creations and destructions that meets the assumptions keeps the invariant |
| KernelRuns.ReachableSound | src/process.c:14-148 | every state reached from the start is sound: one owner per frame, exact counters, at most one running, unused slots zero |
| KernelRuns.WaitingUndisturbed | src/scheduler.c:13-50 | whatever happens while a process waits, its context, its directory and what that directory maps stay |
| KernelRuns.ResumedAsInterrupted | src/interrupt.c:50-57 | a process that runs again is resumed with exactly what it was interrupted with, in its own unchanged address space |
| KernelRuns.TickComesCloser | src/scheduler.c:27-45 | an interrupt turns to a ready process or brings the running slot closer to it |
| KernelRuns.BoundedWaiting | src/scheduler.c:27-45 | a ready process runs within as many interrupts as it is places after the running one (or, if none runs, its slot and one), and 16 more for each time the running process ends, whatever is created or destroyed, unless it is destroyed itself |
| KernelRuns.NoStarvation | src/scheduler.c:27-45 | from any sound state, if the running process ends at most `m` times, every process that is not destroyed runs within 16 * (m + 1) interrupts |
| KernelRuns.TickFromNone | src/scheduler.c:27-45 | if no process runs, an interrupt turns to the ready process or to one in a slot before it |
| Orphans.FailureCosts | src/process.c:14-64 | a failed creation leaves the kernel unchanged if and only if its code is 1, 2 or 3 |
| Orphans.FailureOrphans | src/process.c:59-64 | a program that cannot be read leaves a directory in use that no process has, and its frames taken |
| Orphans.NeverRecovered | src/process.c:59-64 | no later run gives such a directory or a frame it maps back |
| Starvation.WaitsForEver | src/scheduler.c:27-35 | if the running process may exit, there are runs with any number of interrupts in which a ready process never runs |
| Starvation.SlotZeroReached | src/process.c:98-108 | a state from which that happens is reached from the kernel's start |
| FileWitnesses.FullDisk | src/fat32.c:285-311 | on a new disk a file of 510 clusters is written with success, and the volume is broken |
| FileWitnesses.ExtensionLost | src/fat32.c:492-499 | a folder with an extension in it is copied with success, and the copy differs |
| FileWitnesses.DocsLost | src/user/command.c:815-826 | moving `docs` to `docs.old` succeeds and leaves an empty folder and nothing else |
| FileWitnesses.DocsNotCopied | src/user/command.c:1057-1066 | copying `docs` to `docs.old` leaves an empty folder there |
| FileWitnesses.DocsOverwritten | src/user/command.c:800-826 | moving `docs` to `docs` loses what is in it, and the folder too if success is reported |
| FileWitnesses.MovedOntoItself | src/user/command.c:751-784 | a file moved to its own path is gone |
| FileWitnesses.DotShown | src/user/command.c:375-379 | with a folder named "." a `cd .` succeeds and the text is wrong |
| KernelWitnesses.TickTooEarly | src/scheduler.c:25-50 | an interrupt at the start breaks the process table |
| KernelWitnesses.OffSlotZero | src/process.c:31-55 | from the start, a program one page up, or one so large that the check wraps around, is created, breaks isolation, and when it ends frame 0 is handed out next |

## Left out

- Port I/O, ATA, PIC and PIT set-up, GDT, IDT, TSS, TLB flushes and the assembly: hardware. The disk
  is a byte array, CR3 a field, and a context switch takes up the context it is given.
- Framebuffer, keyboard, clock, and all printing in the shell: user interface. `find` is modelled by
  what it finds, not by the path it prints, and `mv` and `cp -r` by what they do to the file system.
- The remaining shell commands (`ls`, `mkdir`, `cat`, `rm`, `cp` without `-r`, `exec`, `ps`, `kill`):
  each is one driver or kernel call behind the path resolution that is modelled.
- `memmove`, `memset`, `contains` and `strlen` as calls of their own: loops of one line, written
  where they are used.
- The bytes of a directory entry that the driver never reads (times, dates, undelete) are zero in the
  model, and a page directory entry is a record of the bits the kernel sets.
- Stack limits of the variable-length buffers in the copy functions, and the time the calls take.
- Execution after a process has destroyed itself, through a directory that is no longer its own.
- The contents of page frames: reading a program is a return code, and frames are counted, owned and
  mapped, not filled.
- Fat32.Driver.Write: takes a parent cluster that is a folder or is not marked as the end of a chain;
  the driver's guard also accepts cluster 1 and the last cluster of a file, where it would read their
  bytes as a table.
- Fat32.Driver.Read: takes such a parent, for the same reason.
- Fat32.Driver.ReadDirectory: takes such a parent, for the same reason.
- Fat32.Driver.SearchFile: takes such a parent, for the same reason.
- Fat32.Driver.GetClusterNumber: takes such a parent, for the same reason.
- Fat32.Driver.DeleteFolderRec: takes such a parent, for the same reason.
- Fat32.Driver.Delete: takes such a parent, for the same reason.
- Fat32.Driver.CopyFile: takes such parents at both ends, for the same reason.
- Fat32.Driver.CopyFolder: takes clusters of that kind, a destination that is not strictly inside the
  source, and clusters for all that will be written; a copy into its own inside does not end by any
  measure of the tree, and a copy on a full disk runs into the broken volumes of `Fat32.Driver.Write`.
- Shells.Shell.Mv: takes a target folder that is not strictly inside the source, where the copy does not
  end by any measure of the tree, and clusters for what is written once the target is cleared. It says
  nothing about a working directory inside a folder that was moved away.
- Shells.Shell.MoveFolder: as for moving.
- Shells.Shell.MoveFile: takes moves for which the free clusters suffice, once the old target is gone.
- Shells.Shell.CpRec: as for moving, if the target can be made at all; a target that exists is refused.
- ShellLaws.MoveFileTo: as for moving; such names have at most eight bytes and three for the extension.
- ShellLaws.MoveFolderTo: as for moving.
- ShellLaws.CopyFolderTo: as for copying.
- Shells.Shell.GetCurrAndParentCluster: takes paths whose pieces fit the shell's tables of 16 rows of 256
  bytes, which the code does not check.
- Shells.Shell.Cd: takes paths whose pieces and texts fit the shell's tables of 16 rows and its buffers
  of 256 bytes, which the code does not check.
- Strings.Strsplit: takes texts whose pieces fit the table, which the code does not check.
- KernelRuns.BoundedWaiting: counts how often the running process ends; without that the claim is false,
  as `Starvation.WaitsForEver` shows.
