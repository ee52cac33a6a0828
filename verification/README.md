# LufiraOS, verified models

Dafny models of the parts of LufiraOS in which a single wrong step damages something
far away: the LufiraFS volume, the xHCI rings and their polling, the user-space
allocator, pipes and descriptor tables, FAT and ext2 on-disk structures, streaming
SHA-256, formatted output with its inverse, and line drawing.

`dafny verify dfyconfig.toml` checks the whole project.

## What is modelled

**LufiraFS** (`Lufira*.dfy`). The class `LufiraVolume.LufiraFs` keeps what the driver
keeps: the metadata image as a byte array, a dirty flag per metadata block, the
superblock counters, the allocation cursor, and the disk as a sequence of 8192-byte
blocks. Every routine is written out as the code runs it: the two-pass allocator,
direct and indirect block lookup, the chunk loops of read and write, the block-freeing
loops of truncate and unlink, the entry scans, create with its failure exits, path
lookup, and sync. `Valid()` ties the image bytes to decoded tables and states global
ownership: no block is pointed to by two slots of any inodes, counting direct
pointers, indirect entries and the indirect pointer itself, and every pointed-to block
is a data block whose bitmap bit is set.

Above the bytes stand two simpler views. `Content` is a file as a byte sequence, and
`Tree` is the name space as a map of directories. `LufiraAbstract` is a file system that
knows only these: the tree and, for each file, its size and its bytes, those past the end
included. `Allowed` gives each action its one effect there; making a name may fail only
for want of memory, a block, an inode or room in the directory, and a store may stop early
only on a full disk or for want of memory.

The main theorem is `LufiraRuns.Run`. It is about every sequence of create, unlink, write,
truncate to any size and sync, with any arguments and with memory failing in any of them.
Ownership and the free count hold throughout, owners and permissions stay with their inodes,
and what is removed or cut off gives its blocks back (`Ledger`). On a volume with a tree every state of the
run shows the state of a run of the abstract file system, up to the first action after
which no tree describes the disk; that can only be one of those `Hazard` lists. Up to there
the free-inode counter is right too. `NeatRun` adds what this means for file contents. The
same theorem says what a sync can miss and that nothing else is missed.
`LufiraFresh.Format` gives runs a start, and `LufiraDurable` mounts what they leave.

**xHCI** (`Xhci*.dfy`). `XhciRing` is a producer ring with a Link TRB and a
controller that follows cycle bits (section 4.9.2 of the xHCI specification), as a
step system. `XhciPoll` is the re-entrancy protocol: a stack of activations that a
timer interrupt may extend at every wait and during enumeration. `XhciEvents` is the shared
event ring and the re-arming of interrupt endpoints, with a controller that may post
between any two steps of the driver.

**malloc** (`Malloc.dfy`). Memory is a map from addresses to block headers, linked by
address as in the original; the list of each arena is recovered from the links.

**Pipes and descriptors** (`Pipe.dfy`, `PipeWait.dfy`, `FdTable.dfy`). A pipe method
runs from entry, or from the point where the scheduler resumes it, to its return or
next sleep, so any order of calls is any interleaving, with any number of sleepers. That
no byte is lost, doubled or reordered holds in all of them; that no sleeper is lost holds
exactly while one process waits per side. Each call of the class `Pipe` is a sequence of
steps of `PipeWait`, so that what is proved of steps holds of calls.

**FAT, ext2, SHA-256, output, lines** (`Fat.dfy`, `Ext2Dirs.dfy`, `Sha256.dfy`,
`Sha256Vectors.dfy`, `Words.dfy`, `Numbers.dfy`, `Printf.dfy`, `Line.dfy`). In-place edits of
byte arrays, and loops over them, each tied to a description that does not mention the loop.
The compression function of SHA-256 is fixed by the two examples published with it, proved
round by round.

The heap, the disk, the controller, the scheduler and the kernel's `mmap` are
environment: `kmalloc` may fail at any call (`heapOk` says that it does not in the
operation at hand, `scanOk` the same for the scans that guard the tree), sync may fail
block by block, the controller and the timer act whenever they may, and `mmap` answers are
arguments.

## Main results

- `LufiraRuns.Run` and `RunFromFormat`: whole runs of the volume refine the abstract file
  system, keep block ownership, and lose to a sync only what is named.
- `LufiraFs.Write`, `Truncate`, `Create`, `Unlink`, `Lookup`, `GetPath`: each call against
  bytes, blocks and tree, with every failure explained.
- `LufiraDurable.Remount`: what is saved comes back.
- `XhciRing.ReceivedInOrder`, `NeverStuck`, `StuckIff`, `FullRingSticks`: the producer ring
  against a controller, over any number of laps.
- `XhciPoll.NoOverlap`, `EventPump.WaitForEvent`, `PollTick`: re-entrancy and re-arming.
- `Allocator.Malloc` and `Free`: live blocks never move or overlap, arenas stay tiled.
- `Pipe.Read` and `Write`, `PipeWait.NoLostWakeup` and `OrphanIff`, `Descriptors`: bytes,
  wake-ups and counts over every interleaving.
- `Volume.FreeChain` on any table, `Directory.Insert` and `Remove` on tiled blocks,
  `Sha256.HashChunks` with `AbcDigest` and `LongerDigest`, `Printf.IntegerPiece` and
  `LongReadsBack`, `Screen.DrawLine`.

## Where the code does less than one would expect

Where a natural property fails, a member says exactly when it holds, and another shows an
input at which it fails.

- A sync loses part of an update exactly for inodes 108, 216, 324 and 432, whose records
  straddle two blocks while only the first is marked. A record that create stores is
  lost this way (`SyncLosesIff`, `NewFileLost`, and `StoreThenSync` for the two calls).
- A write refines "zero-fill and overwrite" exactly when the bytes between the end of
  the file and the offset are zero on disk (`WriteContentIff`); cutting a file to a
  size inside a block keeps that true exactly when the rest of the block was zero
  (`CutTailIff`), since truncate never clears it. `CutThenWrite` is a run in which
  cut-off bytes come back. Cutting to 0 always clears (`CutToZero`).
- A successful create leaves a tree exactly when the parent is a directory without the
  name. Neither the driver nor the call above it checks the parent's mode
  (`CreateInFile`), and the check for the name answers "not there" when its `kmalloc`
  fails (`DuplicateName`; on a new volume `DotAgain`). Other failures of `kmalloc` do no
  harm to the tree.
- A successful unlink leaves a tree exactly when the name is plain, its inode a file or an
  empty directory, and the entry could be read again for removal. The dot entry of an empty
  directory passes every check (`UnlinkDotEntry`), and with failing `kmalloc`s non-empty
  directories are freed and entries stay behind (`UnlinkUnread`; on a new volume
  `MadeAndLost`). Unlinking what stayed behind counts a free inode twice (`FreedTwice`,
  exact condition in `FreedCount`).
- A read whose range wraps around 32 bits runs past the end of the file and returns a
  negative number, and only then (`NegativeIff`).
- With 255 TRBs outstanding the controller can wait for ever at the Link TRB
  (`FullRingSticks`, exact condition in `StuckIff`); with 254 it cannot.
- malloc payloads start 8 bytes past a multiple of 16, never on one
  (`PayloadAlignment`).
- When a second process sleeps on one side of a pipe, the first is never woken: the
  second takes over the waiter slot (`OrphanIff`, `OrphanForEver`; `FirstReaderLost` is
  such a run from a new pipe).
- `vfs_pipe` that can open only the read end leaves behind a pipe with no reader and one
  writer, for ever (`Descriptors.Pipe`, the set `leaked`).
- A write that can store no byte returns -1 and still grows the file to the offset
  (`LufiraFs.Write`, through `Wrote` with no bytes).
- A format string that ends inside a conversion makes the original step over its
  terminator, and only such a one (`OverrunIff`, `OverrunAt`); `Vsnprintf` asks for formats
  whose conversions are complete.
- `strtol` reads nothing from a hexadecimal prefix without a digit, where the C standard reads
  its zero (`Numbers.ReadsBarePrefix`).
- With no copy of the table at all, freeing a chain ends exactly when the chain is not
  cyclic (`Fat.EndsIff`, `SelfLink`); `FreeChain` asks for at least one copy, and then ends
  on every table.

## Model

| member | source | states |
|---|---|---|
| LufiraRuns.Run | kernel/fs/lufirafs/lufirafs.c:497-821 | every sequence of create, unlink, write, truncate and sync, with any arguments and any memory failures, keeps ownership and the free count; each action leaves the owners, permissions and links of all inodes but the one it makes or removes, and gives back the blocks of what it removes or cuts off; its states show a run of the abstract file system, whose texts are the contents that read delivers, up to the first action after which the disk has no tree; a right free-inode counter stays right up to there; sync can miss only second blocks of straddling inodes that were stored, and saves everything if there was none |
| LufiraRuns.RunFromFormat | tools/mkfs_lufirafs.c:218-255 | the same from a formatted volume; while cuts leave no part of a block behind, stores overwrite texts and cuts take prefixes; a complete sync leaves disk and image equal if no straddling inode was stored |
| LufiraRuns.Step | kernel/fs/lufirafs/lufirafs.c:497-821 | one action on the volume is one allowed step of the abstract file system, or one of the hazards and then no tree is left |
| LufiraRuns.OwnersOverRun | kernel/fs/lufirafs/lufirafs.c:497-821 | between its making and its removal an inode keeps owner, group, permissions, mode and links through any run |
| LufiraRuns.MakeOutcome | kernel/fs/lufirafs/lufirafs.c:497-535 | what each result of create means: the name made, a failure with its reason, or a tree destroyed |
| LufiraRuns.RemoveOutcome | kernel/fs/lufirafs/lufirafs.c:537-570 | what each result of unlink means, likewise |
| LufiraRuns.TidyIsNeat | kernel/fs/lufirafs/lufirafs.c:608-714 | with nothing past the end on disk, every abstract file is zero past its end |
| LufiraRuns.CutThenWrite | kernel/fs/lufirafs/lufirafs.c:608-714 | a run after which a file holds a byte that was cut off, where a zero should be |
| LufiraAbstract.NeatRun | kernel/fs/lufirafs/lufirafs.c:608-714 | while no cut leaves part of a block behind, every store in a run is the zero-filled overwrite of the text and every cut a prefix or a zero-filled extension |
| LufiraAbstract.StoredText | kernel/fs/lufirafs/lufirafs.c:608-658 | a store is that overwrite exactly when the gap was zero |
| LufiraAbstract.TrimmedNeat | kernel/fs/lufirafs/lufirafs.c:660-714 | a cut leaves nothing past the new end exactly when the rest of its last block was zero |
| LufiraMishaps.DuplicateName | kernel/fs/lufirafs/lufirafs.c:237-260 | an existing name is made a second time when its check has no memory, and no tree is left; it fails only for want of an inode, a block or room in the parent |
| LufiraMishaps.CreateInFile | kernel/fs/lufirafs/lufirafs_vfs.c:272-284 | a name made in a regular file leaves no tree; it fails only for want of an inode, a block or room in the parent |
| LufiraMishaps.UnlinkUnread | kernel/fs/lufirafs/lufirafs.c:537-570 | any plain name, of a non-empty directory too, is unlinked with success when the scans have no memory, and no tree is left |
| LufiraMishaps.UnlinkDotEntry | kernel/fs/lufirafs/lufirafs_vfs.c:316-327 | unlinking the dot entry of an empty directory succeeds and leaves no tree |
| LufiraMishaps.DotAgain | kernel/fs/lufirafs/lufirafs.c:237-260 | on a formatted volume, the name dot made in the root while the check has no memory succeeds and leaves no tree |
| LufiraMishaps.MadeAndLost | kernel/fs/lufirafs/lufirafs.c:537-570 | on a formatted volume, a file made and unlinked while the scans have no memory: both succeed and no tree is left |
| LufiraMishaps.FreedTwice | kernel/fs/lufirafs/lufirafs.c:537-570 | the same file unlinked again succeeds and leaves a free-inode counter that is wrong |
| LufiraCount.FreedCount | kernel/fs/lufirafs/lufirafs.c:175-181 | freeing a record leaves a right counter right exactly when the record was in use |
| LufiraHazards.CreateOutcome | kernel/fs/lufirafs/lufirafs.c:519-535 | the disk after the last step of create has the created tree if the parent was a directory without the name, and otherwise no tree |
| LufiraHazards.UnlinkOutcome | kernel/fs/lufirafs/lufirafs.c:560-569 | the disk after the last step of unlink has the tree without the name if the name was plain, its target empty and the entry removed, and otherwise no tree |
| LufiraHazards.Nameless | kernel/fs/lufirafs/lufirafs.c:537-570 | a live inode whose only name stood in a directory that is gone fits no tree |
| LufiraFresh.Format | tools/mkfs_lufirafs.c:218-255 | from zeroed blocks, mounting, reserving the tables and making the root end in a sound volume of every size that depicts the one-directory tree and counts its free blocks and inodes right |
| LufiraDurable.Init | kernel/fs/lufirafs/lufirafs.c:738-797 | refuses exactly a wrong magic number, a wrong block size or missing memory; otherwise the mounted image agrees with the disk block by block |
| LufiraDurable.StoreThenSync | kernel/fs/lufirafs/lufirafs.c:137-144 | storing a record and a complete sync leave disk and image equal exactly when the record's bytes in a second block did not change |
| LufiraDurable.Remount | kernel/fs/lufirafs/lufirafs.c:738-821 | a complete sync and a new mount give the same bitmap, counters, and every inode and its contents outside the missed blocks; with none missed, the same volume |
| LufiraVolume.LufiraFs.MarkDirty | kernel/fs/lufirafs/lufirafs.c:42-47 | exactly the given metadata block is added to the dirty set; a block past the metadata is ignored |
| LufiraVolume.LufiraFs.SetBit | kernel/fs/lufirafs/lufirafs.c:63-70 | one bitmap bit changes, the decoded tables follow, and the touched block is covered by a dirty flag |
| LufiraVolume.LufiraFs.ReadInode | kernel/fs/lufirafs/lufirafs.c:129-135 | the decoded record, for inode numbers in range only |
| LufiraVolume.LufiraFs.WriteInode | kernel/fs/lufirafs/lufirafs.c:137-144 | the table holds the record; every differing metadata byte is covered unless the record straddles |
| LufiraVolume.LufiraFs.Sync | kernel/fs/lufirafs/lufirafs.c:799-821 | a complete sync leaves no block dirty and puts on disk every block that was dirty or in step; blocks not dirty and data blocks are untouched |
| LufiraVolume.LufiraFs.FindClear | kernel/fs/lufirafs/lufirafs.c:88-100 | the two-pass cursor scan returns 0 only when no data block is clear |
| LufiraVolume.LufiraFs.AllocBlock | kernel/fs/lufirafs/lufirafs.c:88-118 | a clear block is claimed and zeroed, or nothing changed; with heap, failure means the volume is full |
| LufiraVolume.LufiraFs.FreeDataBlock | kernel/fs/lufirafs/lufirafs.c:120-125 | the bit is cleared and the free count still equals the number of clear bits |
| LufiraVolume.LufiraFs.FindBlock | kernel/fs/lufirafs/lufirafs.c:189-213 | the block number in a direct or indirect slot, 0 exactly for a hole |
| LufiraVolume.LufiraFs.InodeGetBlock | kernel/fs/lufirafs/lufirafs.c:189-225 | fills at most that slot with an unshared zero block, keeps ownership and every byte of every file, and fails with heap only on a full volume |
| LufiraVolume.LufiraFs.Read | kernel/fs/lufirafs/lufirafs.c:572-606 | exactly the bytes of the file at the offset, also when offset plus count wraps, and their number as an int; the rest of the buffer is untouched |
| LufiraState.NegativeIff | kernel/fs/lufirafs/lufirafs.c:578-605 | on a file within the maximum size the result is negative exactly when the wrapped range ran past the end unnoticed |
| LufiraVolume.LufiraFs.Write | kernel/fs/lufirafs/lufirafs.c:608-658 | the stored prefix overwrites the file's bytes at the offset, size grows as needed, every other inode and its bytes stay; less than all is stored with heap only on a full volume |
| LufiraVolume.LufiraFs.Truncate | kernel/fs/lufirafs/lufirafs.c:660-714 | the bits of the blocks past the new end, and of the indirect block if nothing is left, are clear and the free count rises by their number; those before are kept, other files stay, ownership holds |
| LufiraVolume.LufiraFs.LookupInDir | kernel/fs/lufirafs/lufirafs.c:237-260 | finds a live entry with the name, and with heap misses only a name no live entry has |
| LufiraVolume.LufiraFs.AddDirent | kernel/fs/lufirafs/lufirafs.c:262-302 | one free slot, possibly in a new block, gets the entry; no other inode changes; it fails with heap only when every slot is taken and the volume is full or the directory has all its blocks, and then changes nothing |
| LufiraVolume.LufiraFs.RemoveDirent | kernel/fs/lufirafs/lufirafs.c:304-328 | one live entry with the name is cleared, or there is none and nothing changes |
| LufiraVolume.LufiraFs.Readdir | kernel/fs/lufirafs/lufirafs.c:338-370 | the first live entry at or after the cursor, with none skipped |
| LufiraVolume.LufiraFs.CountExtra | kernel/fs/lufirafs/lufirafs.c:547-558 | zero exactly when the directory lists nothing but its dot entries |
| LufiraVolume.LufiraFs.AllocInode | kernel/fs/lufirafs/lufirafs.c:162-173 | a free inode, or 0 exactly when there is none |
| LufiraVolume.LufiraFs.Create | kernel/fs/lufirafs/lufirafs.c:497-535 | success makes a record of the given owner, group and permissions with two links for a directory and one for a file, leaves those of the parent, and depicts the tree with the one new name exactly if the parent is a directory without it; every failure leaves the old tree and all files and has its reason: the name, no inode, no block, a directory at its maximum, no memory |
| LufiraVolume.LufiraFs.Unlink | kernel/fs/lufirafs/lufirafs.c:537-570 | for every name, dot entries too: success clears the bit of every block of the file and of its indirect block, raises the free count by their number, and depicts the tree without the name exactly if it was plain, its target empty and the entry readable; without memory the direct blocks and the indirect one are still given back; a missing name, a non-empty directory and the root are told apart and change nothing |
| LufiraVolume.LufiraFs.Lookup | kernel/fs/lufirafs/lufirafs.c:373-400 | succeeds exactly when walking the path's components in the tree does, with the same inode |
| LufiraVolume.LufiraFs.ResolveParent | kernel/fs/lufirafs/lufirafs.c:402-440 | the name is the text behind the last slash, trailing slashes dropped, and the parent is where the text before it leads; succeeds exactly when that resolves and the name fits; looking the name up in the parent is looking the whole path up |
| LufiraVolume.LufiraFs.FindName | kernel/fs/lufirafs/lufirafs.c:442-456 | a plain entry of the parent that leads to the child, and none only if there is none |
| LufiraVolume.LufiraFs.GetPath | kernel/fs/lufirafs/lufirafs.c:458-493 | the printed path walks back to the inode; a directory fails only when it is more than 32 deep or the text does not fit |
| LufiraState.AllocatedInv | kernel/fs/lufirafs/lufirafs.c:88-118 | claiming a clear block keeps ownership, all pointers and all file bytes, and nothing pointed to it |
| LufiraState.AllReturned | kernel/fs/lufirafs/lufirafs.c:558-563 | what the freeing loops of unlink and truncate cleared is what they had to: every slot in their range, without memory at least the direct ones and the indirect block, and no other bit |
| LufiraState.ReturnedCount | kernel/fs/lufirafs/lufirafs.c:558-563 | with memory, giving back raises the free count by exactly the number of slots that named a block |
| LufiraState.GaveUpInv | kernel/fs/lufirafs/lufirafs.c:685-712 | freeing a set of slots keeps ownership and the bytes of every slot kept |
| LufiraFormat.InodeRoundTrip | kernel/fs/lufirafs/lufirafs.c:129-144 | decoding the 76 stored bytes gives the inode back |
| LufiraFormat.PutEntDecodes | kernel/fs/lufirafs/lufirafs.c:229-235 | a stored entry reads back its inode and name and leaves the other entries of the block |
| LufiraMeta.DecodeUnique | kernel/fs/lufirafs/lufirafs.c:738-797 | an image stands for one set of tables only |
| LufiraMeta.NewFileLost | kernel/fs/lufirafs/lufirafs.c:519-535 | over a free table entry, a sync loses the permissions of a new file in any of those inodes |
| LufiraMeta.StraddlersAre | kernel/fs/lufirafs/lufirafs.c:137-144 | the inode records that cross a block boundary are 108, 216, 324 and 432 |
| LufiraMeta.SyncLosesIff | kernel/fs/lufirafs/lufirafs.c:799-821 | for those four inodes a sync loses the record that create stores for a new file or that for a new directory, whatever was there; for no other inode does it lose any record |
| LufiraContent.WriteContentIff | kernel/fs/lufirafs/lufirafs.c:608-658 | the new contents are the zero-filled overwrite exactly when the gap was zero on disk |
| LufiraContent.CutContent | kernel/fs/lufirafs/lufirafs.c:660-714 | truncate keeps the prefix, or zero-extends, and keeps all other contents |
| LufiraContent.CutTailIff | kernel/fs/lufirafs/lufirafs.c:660-714 | nothing lingers past a new end exactly when the rest of its block was zero |
| LufiraContent.CutToZero | kernel/fs/lufirafs/lufirafs_vfs.c:187 | truncating to 0 always leaves an empty, zero-throughout file |
| LufiraTree.CreatedWellFormed | kernel/fs/lufirafs/lufirafs.c:497-535 | create keeps unique names, one plain name per inode, parents that match, and reachability |
| LufiraTree.RemovedWellFormed | kernel/fs/lufirafs/lufirafs.c:537-570 | removing a file or empty directory keeps all that and takes exactly one inode out |
| LufiraTree.NamedExactlyOnce | kernel/fs/lufirafs/lufirafs.c:497-570 | every live inode but the root has exactly one plain name |
| LufiraNamespace.ScanMeans | kernel/fs/lufirafs/lufirafs.c:237-260 | a scan of the blocks finds a name exactly when the tree has it |
| LufiraNamespace.Climb | kernel/fs/lufirafs/lufirafs.c:471-484 | from any directory but the root, one step up finds the entry that names it and extends the path |
| LufiraNamespace.AtTop | kernel/fs/lufirafs/lufirafs.c:458-493 | the names collected on the way up are the only path to the inode, and their printed form walks back |
| LufiraPath.ComponentsConcat | kernel/fs/lufirafs/lufirafs.c:386-399 | cutting a path before a slash cuts its component list, over repeated slashes and long components |
| LufiraPath.PrintRoundTrip | kernel/fs/lufirafs/lufirafs.c:486-493 | reading a printed path gives the names back |
| LufiraPath.SplitAgrees | kernel/fs/lufirafs/lufirafs.c:402-440 | walking the directory part and then the name is walking the path |
| XhciRing.NextInv | kernel/drivers/usb/xhci.c:187-233 | every enqueue and every controller step keeps: each slot and cycle bit is explained by laps and by what was sent and received |
| XhciRing.ReceivedInOrder | kernel/drivers/usb/xhci.c:187-233 | over any interleaving and number of laps the controller has received a prefix of what was enqueued, each TRB once |
| XhciRing.NeverStuck | kernel/drivers/usb/xhci.c:211-233 | with at most 254 outstanding the controller can always take a further step while any TRB is outstanding |
| XhciRing.StuckIff | kernel/drivers/usb/xhci.c:211-233 | with 255 it is stuck exactly at the Link TRB of a full ring that the driver has wrapped |
| XhciRing.FullRingSticks | kernel/drivers/usb/xhci.c:169-170 | such a state is reached by some run with 255 outstanding |
| XhciRing.ProducerRing.constructor | kernel/drivers/usb/xhci.c:187-209 | the initial ring of the step system, with a Link TRB of type 6 back to its start that toggles the cycle |
| XhciRing.ProducerRing.Enqueue | kernel/drivers/usb/xhci.c:211-233 | the stored TRB, index, cycle state and the cycle bit of the Link TRB are those of the step system's enqueue, for whatever the controller has done; the Link TRB keeps its type, target and toggle bit |
| XhciPoll.StepInv | kernel/drivers/usb/xhci.c:1433-1474 | every step of every activation, and every interrupt, keeps the flags in step with the activation stack |
| XhciPoll.NoOverlap | kernel/drivers/usb/xhci.c:1703-1727 | no state has two activations draining the event ring or two enumerations, and the two flags say exactly what is going on |
| XhciEvents.EventPump.constructor | kernel/drivers/usb/xhci.c:547-570 | the start: an empty ring, no event posted, and each armed endpoint with one TRB outstanding |
| XhciEvents.EventPump.Balanced | kernel/drivers/usb/xhci.c:583-607 | once every report read was served, each armed endpoint has exactly one TRB outstanding or one unread event |
| XhciEvents.EventPump.Take | kernel/drivers/usb/xhci.c:627-650 | the oldest unread event is taken, with the cycle toggled at the end of the ring |
| XhciEvents.EventPump.Service | kernel/drivers/usb/xhci.c:583-607 | a report is handed on and its endpoint re-armed; an event of another device changes nothing |
| XhciEvents.EventPump.WaitForEvent | kernel/drivers/usb/xhci.c:627-688 | whatever the controller posts in between: success hands over the first wanted event read and every report before it was served, in order; failure means that all that was unread at the start was read, served and not wanted, and for the poll that the ring is empty or the guard used up; it waits at most one tick more than the timeout, and not at all for the poll |
| XhciEvents.EventPump.PollTick | kernel/drivers/usb/xhci.c:1703-1727 | reads in order and serves every report it reads, at most eight transfers; with fewer than eight, all that was unread at the start was read |
| Malloc.SplitTiles | libc/src/malloc.c:74-87 | splitting keeps the arena exactly tiled with consistent links |
| Malloc.MergeTiles | libc/src/malloc.c:92-99 | merging keeps the arena exactly tiled with consistent links |
| Malloc.AllocArena | libc/src/malloc.c:122-131 | an allocation keeps tiling and coalescing and every other block of the arena |
| Malloc.FreeArena | libc/src/malloc.c:156-162 | a free keeps tiling, leaves no two free neighbours, and every other used block |
| Malloc.LiveApart | libc/src/malloc.c:101-131 | live blocks never overlap |
| Malloc.NoneLiveIsWhole | libc/src/malloc.c:144-162 | an arena with no live block is one free block of 65536 bytes |
| Malloc.PayloadAlignment | libc/src/malloc.c:104-105 | every arena payload is 8 past a multiple of 16 |
| Malloc.Rounded | libc/src/malloc.c:104-110 | what is needed is the size and a header of 24 bytes rounded up to 16, and whole pages for a mapping |
| Malloc.Allocator.NewArena | libc/src/malloc.c:43-61 | one more arena, one free block, nothing live changed; fails exactly when the table is full or the kernel refuses |
| Malloc.Allocator.FindFree | libc/src/malloc.c:65-72 | the first fit in arena and address order, 0 only when nothing fits |
| Malloc.Allocator.SplitBlock | libc/src/malloc.c:74-87 | the headers after the pointer writes are those of the split, or unchanged below the threshold |
| Malloc.Allocator.MergeWithNext | libc/src/malloc.c:92-99 | the headers after the pointer writes are those of the merge |
| Malloc.Allocator.Malloc | libc/src/malloc.c:101-131 | exactly one new live block: the first fit, or a new arena if nothing fits; a rest of 88 bytes or more is cut off and is one free block right behind it, so that the block is less than 88 bytes larger than needed; a request over an arena gets exactly its pages; every other live block keeps its place and size; fails exactly when it must |
| Malloc.Allocator.Free | libc/src/malloc.c:144-162 | exactly that block stops being live, all others keep place and size, arenas stay tiled and coalesced; a block freed before is ignored |
| Malloc.Allocator.UsableSize | libc/src/malloc.c:137-142 | the payload size of a live block, else 0 |
| Pipe.Pipe.Read | kernel/fs/vfs/vfs.c:239-278 | delivers the oldest bytes, as many as asked or there are, sleeps exactly when there is nothing and a writer is left, is that many take steps and perhaps a sleep, and loses a sleeper exactly when it sleeps in its place; a lost one stays lost |
| Pipe.Pipe.Write | kernel/fs/vfs/vfs.c:280-313 | appends as many bytes as fit, sleeps exactly when some are left and a reader is, returns the bytes stored over all sleeps or -1 for none, is that many put steps and perhaps a sleep, and loses a sleeper exactly when it sleeps in its place; a lost one stays lost |
| Pipe.Pipe.CloseRead | kernel/fs/vfs/vfs.c:320-331 | is the step of the step system: one reader less, the waiting writer woken, nobody lost |
| Pipe.Pipe.CloseWrite | kernel/fs/vfs/vfs.c:333-344 | is the step of the step system: one writer less, the waiting reader woken, nobody lost |
| PipeWait.OrphanIff | kernel/fs/vfs/vfs.c:218-230 | a step loses a sleeper exactly when it is the second sleeper on that side |
| PipeWait.OrphanForEver | kernel/fs/vfs/vfs.c:218-230 | a lost sleeper sleeps through every continuation |
| PipeWait.OrphanThrough | kernel/fs/vfs/vfs.c:218-230 | a sleeper that is lost before a run of steps is lost after it |
| PipeWait.NoLostWakeup | kernel/fs/vfs/vfs.c:218-344 | with one waiter per side, a sleeping reader means an empty pipe with writers, a sleeping writer a full pipe with readers, and never both |
| PipeWait.FirstReaderLost | kernel/fs/vfs/vfs.c:239-265 | a run from a new pipe in which the first of two readers sleeps on beside a byte and an end of file |
| FdTable.DupOk | kernel/fs/vfs/vfs.c:402-413 | one more descriptor for an object keeps every count right |
| FdTable.CloseOk | kernel/fs/vfs/vfs.c:599-631 | one descriptor less keeps every count right; the object goes exactly with its last descriptor |
| FdTable.OpenOk | kernel/fs/vfs/vfs.c:415-464 | a new pipe with its two descriptors keeps every count right |
| FdTable.CountIsDescriptors | kernel/fs/vfs/vfs.c:402-413 | readers and writers are the numbers of descriptors, over all processes, naming that end |
| FdTable.AliveIffNamed | kernel/fs/vfs/vfs.c:232-237 | a file object exists exactly while a descriptor names it, a pipe exactly while one names either end |
| FdTable.Descriptors.AllocFd | kernel/fs/vfs/vfs.c:44-51 | the lowest free descriptor, none only when all are taken |
| FdTable.Descriptors.Pipe | kernel/fs/vfs/vfs.c:415-464 | two free descriptors get the two ends, otherwise the tables are as before; when the read end was opened, the pipe stays in memory with no reader and one writer |
| FdTable.Descriptors.CloseFd | kernel/fs/vfs/vfs.c:599-631 | exactly that descriptor goes, counts stay right, no object changes end or pipe |
| FdTable.Descriptors.Dup2 | kernel/fs/vfs/vfs.c:466-486 | the new descriptor names the old one's object after closing what it named; invalid numbers change nothing |
| FdTable.Descriptors.Fork | kernel/system/process/process.c:1685-1691 | the child's table is the parent's, every object counted once more per copied descriptor |
| Fat.PutGet | kernel/fs/fat/fat.c:137-171 | the stored value comes back modulo the entry width, for 12, 16 and 32 bits |
| Fat.PutFrame | kernel/fs/fat/fat.c:137-171 | no other entry changes, not even a 12-bit neighbour sharing a byte |
| Fat.EntryEnds | kernel/fs/fat/fat.c:100-130 | a chain ends at the last eight values of each width, 0xFF8, 0xFFF8 and 0xFFFFFF8 up, and at clusters out of range |
| Fat.LinksOn | kernel/fs/fat/fat.c:303-321 | an entry that holds a cluster number of the volume leads there and ends no chain, for every width that the number of clusters calls for |
| Fat.Volume.GetEntry | kernel/fs/fat/fat.c:89-127 | the entry of the first copy, widened for 12-bit end markers, an end marker for a cluster out of range |
| Fat.Volume.SetEntry | kernel/fs/fat/fat.c:137-171 | every copy gets the entry and no byte outside the copies changes |
| Fat.Volume.StoreThenLoad | kernel/fs/fat/fat.c:89-171 | loading after storing gives the value back, and all other entries of all copies stay |
| Fat.Volume.FreeChain | kernel/fs/fat/fat.c:555-562 | ends on every table, cyclic ones too, and zeroes in every copy exactly the in-range clusters the chain reached |
| Fat.EndsIff | kernel/fs/fat/fat.c:555-562 | with no copy of the table to write to, the loop ends exactly when the chain comes back to no cluster |
| Fat.SelfLink | kernel/fs/fat/fat.c:555-562 | a cluster linked to itself is a chain on which it never ends |
| Ext2Dirs.SplitBlock | kernel/fs/ext2/ext2.c:600-609 | splitting a record keeps the block tiled and adds exactly the new pair to what a walk sees |
| Ext2Dirs.FillBlock | kernel/fs/ext2/ext2.c:610-615 | reusing an empty record likewise |
| Ext2Dirs.MergeBlock | kernel/fs/ext2/ext2.c:790-792 | merging into the record before keeps the block tiled and removes exactly that pair |
| Ext2Dirs.ClearBlock | kernel/fs/ext2/ext2.c:793-796 | switching off the first record likewise |
| Ext2Dirs.Directory.InsertInBlock | kernel/fs/ext2/ext2.c:588-622 | inserts exactly when some record has room |
| Ext2Dirs.Directory.Find | kernel/fs/ext2/ext2.c:464-503 | an inode that the walk sees under the name, 0 exactly when there is none |
| Ext2Dirs.Directory.Insert | kernel/fs/ext2/ext2.c:583-637 | every block stays tiled and the walk sees exactly one pair more; the directory grows, or without a spare block the call fails and nothing changes, exactly when no record has room |
| Ext2Dirs.Directory.Remove | kernel/fs/ext2/ext2.c:764-802 | every block stays tiled and the walk sees exactly one pair less; a missing name changes nothing |
| Sha256.FoldAppend | kernel/lib/sha256.c:31-66 | folding the compression over a concatenation is folding over the parts in turn |
| Sha256.PadInjective | kernel/lib/sha256.c:108-128 | no two messages below two to the 61 bytes have the same padding |
| Sha256.BlockWordValue | kernel/lib/sha256.c:34-37 | a word of a block is the number that its four bytes denote, the first the highest |
| Sha256.OutputValue | kernel/lib/sha256.c:129-134 | the four bytes of each output word denote it, the highest first |
| Words.RotateIs | kernel/lib/sha256.c:25-27 | rotation by n bits is the quotient by two to the n with the remainder moved to the top |
| Sha256.Context.CompressBlock | kernel/lib/sha256.c:31-66 | the chaining value becomes that of the compression function of section 6.2.2 of FIPS 180-4, which the published examples below fix |
| Sha256.Context.Update | kernel/lib/sha256.c:79-106 | appends the data to the message, whatever is buffered |
| Sha256.Context.Final | kernel/lib/sha256.c:108-134 | the digest of the message, on both sides of the 56-byte limit |
| Sha256.HashChunks | kernel/lib/sha256.c:68-134 | any division of a message into updates gives the digest of the whole, which for the published examples is the published one |
| Sha256Vectors.AbcDigest | kernel/lib/sha256.c:31-134 | the digest of abc is the published one |
| Sha256Vectors.LongerDigest | kernel/lib/sha256.c:31-134 | the digest of the published two-block message is the published one |
| Sha256Vectors.PadAt | kernel/lib/sha256.c:108-128 | what is where in a padded message: its bytes, 0x80, zeros, and the length in bits |
| Numbers.DigitsAre | libc/src/vsnprintf.c:31-43 | the digits of a number denote it |
| Numbers.DigitsCount | libc/src/vsnprintf.c:31-43 | a number is printed with as many digits as it has, no leading zeros |
| Numbers.ReadsBack | libc/src/stdlib.c:20-45 | blanks, a sign and digits are read as the number they show, to the end |
| Numbers.ReadsSpelled | libc/src/stdlib.c:20-45 | in every base: white space, a plus, a minus or no sign, in bases 0 and 16 a hexadecimal prefix, and digits are read as the number they denote, up to where they end |
| Numbers.ReadsBarePrefix | libc/src/stdlib.c:30-44 | a hexadecimal prefix without a digit reads as nothing, not even its zero |
| Numbers.ReadsNothing | libc/src/stdlib.c:37-44 | where the end is the start, the value is 0 |
| Numbers.ParseLong | libc/src/stdlib.c:20-45 | value and end position for every string and base whose number fits, with no 64-bit overflow on the way |
| Printf.FieldIs | libc/src/vsnprintf.c:70-121 | every integer field is blanks, a sign, and digits in the letter's case that denote the value; it is as long as the width or as sign and digits, whichever is more, with at least as many digits as the precision asks; zeros fill it exactly for the zero flag without a precision |
| Printf.IntegerTextUnique | libc/src/vsnprintf.c:70-121 | only one text is such a field |
| Printf.IntegerPiece | libc/src/vsnprintf.c:71-122 | anywhere in a format, d and i print the signed argument in decimal, u the unsigned one in decimal, x and X in hexadecimal with small and capital letters, as such a field |
| Printf.PointerPiece | libc/src/vsnprintf.c:123-130 | p prints 0x and the capital hexadecimal digits of the 64-bit argument, no leading zeros |
| Printf.TextPiece | libc/src/vsnprintf.c:131-141 | s prints the string, no more of it than the precision allows, behind blanks up to the width; a null pointer as (null) |
| Printf.CharPiece | libc/src/vsnprintf.c:142-146 | c prints the low byte of the argument, whatever the width |
| Printf.OtherPiece | libc/src/vsnprintf.c:147-150 | any other letter is printed behind a percent sign and takes no argument |
| Printf.PlainPiece | libc/src/vsnprintf.c:48-52 | two percent signs print one, a last one nothing, other characters themselves |
| Printf.SpecSpelled | libc/src/vsnprintf.c:54-67 | zero flag, width, precision and length letters of a conversion are read as they are spelled |
| Printf.ArgMeans | libc/src/vsnprintf.c:72-101 | an argument is read as the number passed less a multiple of the range of its 32- or 64-bit type |
| Printf.DecimalReadsBack | libc/src/vsnprintf.c:70-96 | every long but the least is read back from its decimal field at any width, zero flag and precision |
| Printf.UnsignedReadsBack | libc/src/vsnprintf.c:97-121 | likewise every value below two to the 63 from its unsigned field in base 10 |
| Printf.HexReadsBack | libc/src/vsnprintf.c:97-121 | every value below two to the 63 is read back from its hexadecimal field in base 16 |
| Printf.LongReadsBack | libc/src/vsnprintf.c:45-96 | the same from the whole output of any ld or li format |
| Printf.UnsignedLongReadsBack | libc/src/vsnprintf.c:45-121 | the same from the whole output of any lu format |
| Printf.HexLongReadsBack | libc/src/vsnprintf.c:45-121 | the same from the whole output of any lx or lX format |
| Printf.PointerReadsBack | libc/src/vsnprintf.c:123-130 | the same from the whole output of any p format, in bases 16 and 0 |
| Printf.FormatUint | libc/src/vsnprintf.c:31-43 | the digits, least significant first, never more than twenty |
| Printf.Sink.Put | libc/src/vsnprintf.c:16-20 | the text grows by one; the buffer holds its prefix and nothing behind the buffer changes |
| Printf.Sink.Pad | libc/src/vsnprintf.c:26-28 | that many copies of the character, none for a negative count |
| Printf.Sink.PutConversion | libc/src/vsnprintf.c:70-149 | each conversion letter prints the text that the rows for its letter describe |
| Printf.Vsnprintf | libc/src/vsnprintf.c:45-159 | the buffer gets the longest fitting prefix of the unbounded output, whose pieces the rows above describe, and a terminator, nothing behind it changes, and the result is the full length |
| Printf.OverrunIff | libc/src/vsnprintf.c:48-153 | the loop steps over the terminator exactly when the format ends inside a conversion |
| Printf.OverrunAt | libc/src/vsnprintf.c:48-153 | it does so on a percent sign followed by a width alone |
| Line.PathEnds | kernel/drivers/console/graphics2d.c:35-51 | one point more than the longer span, from the first end to the second |
| Line.PathConnected | kernel/drivers/console/graphics2d.c:46-49 | consecutive points differ by at most one pixel per axis, and by one on the longer axis |
| Line.PathWithinHalf | kernel/drivers/console/graphics2d.c:35-51 | every point is within half a pixel of the segment along the shorter axis |
| Line.Screen.DrawLine | kernel/drivers/console/graphics2d.c:35-51 | exactly the on-screen points of that path are coloured, with no 32-bit overflow while three times the longer span fits |

## Left out

- Boot, PCI, AHCI, ATA, NVMe, serial, PS/2, APIC: register plumbing; disk and controller appear as environments.
- Scheduler, physical memory, kernel heap, system calls, GUI, shell, networking: not modelled.
- LufiraFS disk usage, the flush wrapper and the permission check: not modelled. Of mkfs, the contents it leaves are modelled, not the order in which it writes them.
- LufiraDurable.Init: a superblock with the right magic number is taken to describe the disk, as the code takes it; ownership of a volume found on disk is what `Run` asks for, not something mount checks.
- LufiraVolume.LufiraFs.Create: names longer than 59 bytes or holding a slash, which the code would cut, are excluded; `lufirafs_resolve_parent` hands out none.
- LufiraRuns.Step: writes and truncations of directories, which the layer above refuses (kernel/fs/lufirafs/lufirafs_vfs.c:59-69 and :185), do nothing. Changes of owner and permissions are not actions of a run.
- Reads and writes of LufiraFS data blocks do not fail in the model; metadata writes in sync may.
- The dirty bitmap is an array of flags, one per block, instead of packed bits.
- xHCI enumeration, descriptors, mass storage: the step systems keep only what touches rings, events and flags.
- XhciEvents.EventPump.WaitForEvent: the controller never posts into a full event ring.
- Malloc.Allocator.Malloc: sizes are small enough for the 32-bit size field, and the kernel answers a mapping request with fresh, page-aligned memory.
- Malloc.Allocator.Free: a header that claims a block in use is that of one: memory that a program wrote over, and mappings already returned, are excluded; a block already free, merged into a neighbour or not, is covered.
- Pipe.Pipe.Read: signals and a missing inode are not modelled.
- Pipe.Pipe.Write: signals and a missing inode are not modelled.
- FdTable.Descriptors.Pipe: the case where the inode of an end cannot be allocated is not modelled; counts are for pipes only, as regular files free their private data on the first close.
- FAT directories, long names, cluster allocation and dirty marking of table sectors; exFAT; NVMe completions.
- Ext2Dirs.Directory.Remove: covers the removal of the record; freeing the inode, link counts and the emptiness check that follows are not modelled. Block mapping and growth are arguments, and the file-type byte is stored but not part of what a walk sees.
- Numbers.ParseLong: numbers that do not fit 64 bits overflow in C and are excluded.
- Printf.Vsnprintf: formats that end inside a conversion are excluded, as the original reads on behind them; width and precision are unbounded where C overflows an int; a missing argument, undefined in C, reads as zero or a null string.
- Fat.Volume.FreeChain: a volume with no copy of the table is excluded; `EndsIff` covers it.
- Line.Screen.DrawLine: the back buffer's dirty rectangle is not modelled.
