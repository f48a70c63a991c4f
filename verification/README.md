# Verified models of the course systems

Dafny models of the operating-system labs (`CSE/`: a disk-backed file system, a lock server with
locked clients, an HDFS-style name node and its data nodes) and of the compiler labs (`Compiler/`: the
Tiger symbol table and type checker, the straight-line interpreter). `dafny verify dfyconfig.toml`
checks the whole project.

Code that changes things in place is modelled by classes and methods with loops: the disk is an array
of blocks of bytes, the symbol table an array of buckets, the name node a set of fields. Each method is
tied to a mathematical function or relation on the state it leaves, and the properties are proved about
those. Protocols with several threads or clients are step systems; their properties hold in every state
of every run.

## The models

**File system (lab 1).** Bottom up: `Disk` (block array, allocator), `InodeImage` (what the bytes of a
disk mean: inode table, direct and indirect blocks, and the map `Files` from inode number to type and
bytes), `Ledger` (every used block has exactly one owner), `Transfer` (how one file exchanges blocks with
the free pool), `InodeCommit` (what each inode-layer update does to the invariant and to `Files`),
`Namespace` (directories as 64-byte records, subtrees), `InodeManagers` (the inode layer as a class),
`Directory` (directory bytes as a map from names to inode numbers), `Graph` and `Tree` (rooted trees; the
files as one), `FileBytes` (the byte law of read and write) and `YfsClients` (the file system calls).
`InodeManager.Valid()` says that the disk satisfies the global invariant `InodeImage.Inv`: file sizes are
bounded, no block is listed twice, the blocks of live inodes are disjoint, lie in the data area, and are
exactly those the bitmap marks. Every method of the class keeps it, so it holds over every run.
`Tree.IsTree` says that every live inode but the root is named by exactly one entry of one live
directory, that nothing contains itself and that no directory holds a name twice; every call keeps it.

**Locks (lab 2).** `LockServer` interleaves threads inside `acquire` and `release`, spurious wake-ups
included: taking the mutex, testing the lock, setting it, clearing it, signalling, waiting and waking are
separate steps, so the counts rest on the mutex. `LockedClients` interleaves any number of file system
clients, one extent call at a time. `log` is the history of directory changes that reached the server, the
making of an inode among them, and what it says of a directory starts anew when the number is made again.
`overwritten` has the directories that, since they were made, were stored as a file, or by a client that
carried bytes that are no directory; nothing is claimed of these. `revived` has those in which a client
stored entries it had read before they were made; of these only the agreement with the history is not
claimed. `ClientRuns` has calls that nobody interferes with and two particular runs. `DualLock` runs clients that take locks in ordered pairs on
the steps of `LockServer`.

**HDFS (labs 3 and 4).** `HdfsInodes` and `NameNodes` follow a file from creation through appended blocks
to completion or deletion; the ghost fields `returned` and `answered` remember the block ids handed out and the answers they came in, `left` what the
record of a file's number held when the file was created. A file is `good` until it is completed with a
length that misfits, or loses a block to the removal of such a file; `own` has those files, and the misfits
with no more blocks than they were given, whose blocks are theirs alone. All calls stay available whatever
went wrong before, directories and data nodes use the same disk in between, and each contract says which
files stay good. `Paths` has the path-scanning loops and `mkdirs`. `Pipeline` is the packet loop of a chain of data nodes: every fault that
the loop handles may strike at any node for any packet. `Hrpc` is the message framing.

**Compilers.** `TigerTable` and `Symbols` are the hashed table with its undo thread and the interned
symbols. `Scopes` runs the type checker's traversal on two such tables and compares each look-up it makes
with an environment built from the program alone, by the checker's own rule for names that are bound
already; `LexicalScopes` says when that environment is the one of lexical scoping. `TypeCycles` is the
processing of a batch of type declarations. `Slp` is the straight-line interpreter against a store semantics.

## Where the code differs from what one would expect

- A function or type name that is already bound, in an outer scope or earlier in its group, is not bound
  again: inside `let function g() in let function g() in g() end end` the call finds the outer g
  (`LexicalScopes.NestedFunction`; `LexicalScopes.DecEnvExact` says exactly which declarations are affected).
- `yfs_client::write` reports the hole it filled as bytes written (`FileBytes.ReportedExact` says when,
  `FileBytes.HoleReported` is a case).
- `setattr` and `symlink` answer OK although the put behind them refuses sizes above 81920 bytes
  (`YfsClients.SetAttrHonest`, `YfsClients.SetAttrTooLong`, `YfsClients.SymlinkReadlink`).
- A create whose directory would outgrow a file answers OK, and its entry is lost
  (`LockedClients.CreateNotLost`). With several clients entries can outlive their inodes, so a directory can
  get that large although there are fewer inodes (`ClientRuns.FullDirectory` is such a run).
- `unlink` removes a directory without taking that directory's lock. A client working in it can store its
  old bytes after the number was made again, and old entries come back (`ClientRuns.OldBytesCanReturn` is
  such a run, `LockedClients.MakeExact` says exactly when the client's put does that).
- All locks share one condition variable and `release` signals one waiter, so with two lock ids a wake-up
  can be lost (`LockServer.LostWakeUp` is such a run; `LockServer.WakeUpStep` says exactly which step loses
  one). `DualLock` orders the locks, so clients never wait in a circle, but it does not help against this:
  three clients can all sleep with a lock free (`DualLock.ThreeHang`; `DualLock.HangsBecause` names the
  signal, `DualLock.HangTakesThree` says that two clients are never enough).
- `append_block` compares with `blockNum > MAXFILE`, one too many; the disk has fewer blocks than a file may
  list, so for a file whose blocks are its own the comparison never matters (`HdfsInodes.NeverTooLarge`).
- A completed file keeps the block list that was handed out only if the reported last length fits
  (`HdfsInodes.CompleteExact`, `HdfsInodes.ZeroLast`).
- `PBDelete` leaves the record of a pending write, and `pendingWrite.insert` keeps it for the next file with
  that number, whose size then comes out wrong (`NameNodes.DeletedWhileWritten` is such a run,
  `NameNodes.LeftOverExact` says exactly when). With more blocks than it was given, the file lists whatever
  ids its uninitialised inode holds: it can share the block of another file (`NameNodes.SharedBlock`), and
  when it is removed that block is handed out again while the other file is being written
  (`NameNodes.HandedOutTwice`; `HdfsInodes.MisfitRemoval` says exactly when a removal does harm). The lock
  client of that lab only answers OK, so the lock a
  writer holds does not keep `PBDelete` out.
- `PBMkdirs` on a path with a trailing slash fails after it has made the directories
  (`Paths.NameTree.Mkdirs`, `Paths.MkdirsSlash`).
- `ReadVariant` shifts in a signed 32-bit type, so lengths from 2^31 on are misread (`Hrpc.VarintExact`,
  `Hrpc.TwoTo31Misread`).
- The cycle check of type declarations remembers a chain in an array of 100 names and writes past it on a
  longer one (`TypeCycles.LongChain`: a row of more than 101 aliases); with at most 100 names this cannot
  happen (`TypeCycles.FewNames`).

## Model

| member | source | states |
|---|---|---|
| Disk.RawDisk.ReadBlock | CSE/cselab1backup/inode_manager.cc:15-30 | the block, or the caller's buffer unchanged for an id outside the disk |
| Disk.RawDisk.WriteBlock | CSE/cselab1backup/inode_manager.cc:32-47 | exactly one block changes, none for an id outside the disk |
| Disk.BlockManager.AllocBlock | CSE/cselab1backup/inode_manager.cc:52-67 | the lowest free data block becomes used; 0 if and only if none was free |
| Disk.BlockManager.FreeBlock | CSE/cselab1backup/inode_manager.cc:69-81 | the used set loses exactly this block; ids outside the data area change nothing |
| Disk.BlockManager.AllocRange | CSE/cselab1backup/inode_manager.cc:335-342 | fills a range of an id array with distinct blocks that were free, and leaves the rest of the array |
| Disk.BlockManager.FreeRange | CSE/cselab1backup/inode_manager.cc:369-376 | unmarks exactly the blocks listed in a range of an id array |
| Bytes.GetPutWords | CSE/cselab1backup/inode_manager.cc:274-275 | an id array survives being stored in a block of bytes and read back |
| Bytes.WordAt | CSE/cselab1backup/inode_manager.cc:274-275 | word k is the four bytes from 4k on, by place value |
| InodeImage.InodeRoundTrip | CSE/cselab1backup/inode_manager.h:74-81 | an inode survives being stored as bytes |
| InodeImage.InodeLayout | CSE/cselab1backup/inode_manager.h:74-81 | the fields lie in the order of the struct, each 32-bit number with its lowest byte first |
| InodeImage.PutInodeFrame | CSE/cselab1backup/inode_manager.cc:219-236 | writing an inode changes that inode, no inode beside it in the same block and none elsewhere |
| InodeImage.SameBlocks | CSE/cselab1backup/inode_manager.cc:242-289 | what a file owns and contains depends on the blocks it owns only |
| InodeImage.Commit | CSE/cselab1backup/inode_manager.cc:292-417 | if an update touches only one inode and blocks not owned by others, the global invariant is kept, the used set changes by exactly the blocks exchanged and every other file keeps its bytes |
| Ledger.SoleOwner | CSE/cselab1backup/inode_manager.cc:292-494 | no block belongs to two live inodes |
| Ledger.Exchange | CSE/cselab1backup/inode_manager.cc:324-386 | one inode giving up and taking blocks keeps the ledger balanced: marked blocks and owned blocks stay the same set |
| Transfer.Grow2 | CSE/cselab1backup/inode_manager.cc:333-343 | growth across the direct/indirect boundary: owned blocks grow by exactly the allocated ones, each still once |
| Transfer.Shrink2 | CSE/cselab1backup/inode_manager.cc:367-377 | shrinking across the boundary returns exactly the dropped blocks, the indirect block among them |
| Transfer.FreeCount | CSE/cselab1backup/inode_manager.cc:324-386 | conservation: the free pool changes by exactly the difference of the numbers of owned blocks |
| InodeCommit.Touch | CSE/cselab1backup/inode_manager.cc:284-285 | writing back a new access time changes no file and keeps the invariant |
| InodeCommit.Create | CSE/cselab1backup/inode_manager.cc:131-142 | a free inode becomes an empty file; all else is kept |
| InodeCommit.IndirectWritten | CSE/cselab1backup/inode_manager.cc:351-352 | the ids recorded in the indirect block are read back from it |
| InodeCommit.StoredIds | CSE/cselab1backup/inode_manager.cc:388-413 | writing the data does not disturb the ids on disk, and reading by these ids gives the data |
| InodeCommit.Overwrite | CSE/cselab1backup/inode_manager.cc:292-417 | the whole write: the file holds the new bytes, all other files are unchanged, the invariant holds with the new used set |
| InodeCommit.Remove | CSE/cselab1backup/inode_manager.cc:463-491 | an inode whose blocks were released leaves the map of files; all else is kept |
| InodeCommit.RemovedBlocks | CSE/cselab1backup/inode_manager.cc:438-494 | after a removal a block is still used if and only if it was and its owner is still live: all and only the removed files' blocks are freed |
| InodeManagers.InodeManager.constructor | CSE/cselab1backup/inode_manager.cc:112-120 | a valid disk with an empty root directory and no used block |
| InodeManagers.InodeManager.GetInode | CSE/cselab1backup/inode_manager.cc:190-217 | the inode on disk, None for a number out of range or a free inode |
| InodeManagers.InodeManager.PutInode | CSE/cselab1backup/inode_manager.cc:219-236 | the inode with a new change time in its slot, all other bytes as before |
| InodeManagers.InodeManager.AllocInode | CSE/cselab1backup/inode_manager.cc:124-147 | the lowest free number becomes an empty file; 0 if and only if all are taken |
| InodeManagers.InodeManager.FreeInode | CSE/cselab1backup/inode_manager.cc:149-168 | a live inode gets type 0, anything else is left alone |
| InodeManagers.InodeManager.ReadFile | CSE/cselab1backup/inode_manager.cc:242-289 | exactly the bytes of the file; no file changes |
| InodeManagers.InodeManager.Grow | CSE/cselab1backup/inode_manager.cc:322-354 | the three ways to grow: the file owns its old blocks and fresh ones, and the indirect block on disk lists them |
| InodeManagers.InodeManager.Shrink | CSE/cselab1backup/inode_manager.cc:355-386 | the three ways to shrink: exactly the blocks past the new end are released |
| InodeManagers.InodeManager.Resize | CSE/cselab1backup/inode_manager.cc:319-386 | all transitions together, with nothing else on disk changed |
| InodeManagers.InodeManager.WriteData | CSE/cselab1backup/inode_manager.cc:388-409 | every data block of the file holds its piece of the buffer; other blocks are untouched |
| InodeManagers.InodeManager.WriteFile | CSE/cselab1backup/inode_manager.cc:292-417 | for every size: the file holds exactly the bytes given (unchanged when too large or missing), all other files are unchanged, the invariant is kept and the free pool shrinks by the demand |
| InodeManagers.InodeManager.RemoveFile | CSE/cselab1backup/inode_manager.cc:438-494 | terminates and removes exactly the live inodes in the subtree; the invariant is kept |
| InodeManagers.InodeManager.RemoveEntries | CSE/cselab1backup/inode_manager.cc:450-461 | the loop over a directory's entries removes the union of its children's subtrees |
| Namespace.SubtreeIsReachable | CSE/cselab1backup/inode_manager.cc:450-461 | the set removed is exactly what a path of directory entries reaches |
| Namespace.SubtreeWithout | CSE/cselab1backup/inode_manager.cc:456-460 | after some subtrees are gone, the recursion still sees exactly the rest of each remaining one |
| Namespace.ForestSnoc | CSE/cselab1backup/inode_manager.cc:456-460 | removing one child after another adds up to the union, also when the bytes read earlier are stale |
| Directory.EntRoundTrip | CSE/cselab1backup/yfs_client.cc:244-246 | a padded name with its number is read back from its 64 bytes |
| Directory.EntLayout | CSE/cselab1backup/yfs_client.cc:244-246 | a record is the name, zeros up to byte 60, and the number with its lowest byte first |
| Directory.EntBytes | CSE/cselab1backup/yfs_client.cc:244-246 | and the 64 bytes are determined by what is read |
| Directory.Append | CSE/cselab1backup/yfs_client.cc:243-250 | appending a new name is insertion into the map and keeps names unique |
| Directory.Erased | CSE/cselab1backup/yfs_client.cc:452-452 | erasing a record is deletion from the map and keeps the other records in order |
| Directory.MapOfWithout | CSE/cselab1backup/yfs_client.cc:433-468 | with unique names, dropping one record deletes exactly its name |
| Directory.SubsAreEntries | CSE/cselab1backup/inode_manager.cc:456-460 | the inode layer and the client read the same numbers from a directory |
| Graph.AddLeafKeeps | CSE/cselab1backup/yfs_client.cc:218-255 | a new leaf keeps a tree a tree |
| Graph.CutKeeps | CSE/cselab1backup/yfs_client.cc:433-468 | cutting off one whole branch keeps a tree a tree |
| Tree.AddKeepsTree | CSE/cselab1backup/yfs_client.cc:218-294 | create, mkdir and symlink keep the tree of names |
| Tree.CutKeepsTree | CSE/cselab1backup/yfs_client.cc:433-468 | unlink keeps it, and neither the parent nor the root is among what goes |
| Tree.RewriteKeepsTree | CSE/cselab1backup/yfs_client.cc:374-431 | writes to files that are not directories keep it |
| Tree.DirBound | CSE/cselab1backup/yfs_client.cc:243-250 | a directory has at most 1023 records, so it always fits in a file |
| FileBytes.WriteUnique | CSE/cselab1backup/yfs_client.cc:374-431 | the law of write (data in its range, zeros in the hole, old bytes elsewhere, length the larger end, cut at the largest file) determines the bytes |
| FileBytes.ReadAfterWrite | CSE/cselab1backup/yfs_client.cc:345-431 | reading what was written gives it back, cut at the largest file size |
| FileBytes.ReadElsewhere | CSE/cselab1backup/yfs_client.cc:345-431 | reading anything else gives what was there, zeros past the old end, as many bytes as asked for or as there are up to the new end |
| FileBytes.ReportedExact | CSE/cselab1backup/yfs_client.cc:374-431 | the reported count is the data stored if and only if no hole was filled |
| FileBytes.HoleReported | CSE/cselab1backup/yfs_client.cc:374-431 | one byte written one past the start of an empty file is reported as two |
| YfsClients.YfsClient.constructor | CSE/cselab1backup/yfs_client.cc:23-28 | a valid file system with an empty root, which is a tree |
| YfsClients.YfsClient.Lookup | CSE/cselab1backup/yfs_client.cc:296-321 | look-up in the directory's map; nothing changes |
| YfsClients.YfsClient.ReadDir | CSE/cselab1backup/yfs_client.cc:323-343 | exactly the directory's records in order, names with their padding |
| YfsClients.YfsClient.Create | CSE/cselab1backup/yfs_client.cc:218-255 | EXIST if and only if the name is there (nothing changes); otherwise a fresh empty file under that name, all else unchanged; tree and disk invariant kept |
| YfsClients.YfsClient.Mkdir | CSE/cselab1backup/yfs_client.cc:257-294 | the same for directories |
| YfsClients.YfsClient.Symlink | CSE/cselab1backup/yfs_client.cc:481-515 | the same for links, whose text is stored if it fits in a file |
| YfsClients.EnteredExact | CSE/cselab1backup/yfs_client.cc:243-250 | what these three do to the files: the directory has one more record, behind the others, and is the map with one more name; the new inode holds what is said; every other file is as before |
| YfsClients.YfsClient.Unlink | CSE/cselab1backup/yfs_client.cc:433-468 | the record of the name is cut out of the directory, the others staying in order, and with the name go exactly the inodes reachable from the one it named; all else unchanged; OK also when the name is absent; tree and disk invariant kept |
| YfsClients.YfsClient.FindEntry | CSE/cselab1backup/yfs_client.cc:447-449 | the byte comparison of unlink finds the record whose name is equal, not one it is a prefix of |
| YfsClients.CreateUnlink | CSE/cselab1backup/yfs_client.cc:218-515 | create, mkdir or symlink followed by unlink of the name: every file, the directory included, is byte for byte as it was |
| YfsClients.UnlinkUndoes | CSE/cselab1backup/yfs_client.cc:433-468 | the reason: unlinking a name just entered for a new inode without children gives back the map of files |
| YfsClients.YfsClient.Read | CSE/cselab1backup/yfs_client.cc:345-372 | nothing from the end of the file on, otherwise as many bytes as asked for or as there are, byte k being byte off + k of the file; nothing changes |
| YfsClients.YfsClient.Write | CSE/cselab1backup/yfs_client.cc:374-431 | the file obeys the law of write, the put behind it is never refused, nothing else changes |
| YfsClients.YfsClient.SetAttr | CSE/cselab1backup/yfs_client.cc:178-216 | when the size fits, the old bytes up to it and then zeros; otherwise no change; other files are untouched; IOERR only for a bad inode number |
| YfsClients.SetAttrHonest | CSE/cselab1backup/yfs_client.cc:178-216 | the size is set if and only if it is at most the largest file size, although OK is answered either way |
| YfsClients.SetAttrTooLong | CSE/cselab1backup/yfs_client.cc:178-216 | one byte more than a file can hold, asked for on an empty file, leaves it empty |
| YfsClients.SymlinkReadlink | CSE/cselab1backup/yfs_client.cc:470-515 | symlink and then readlink gives the text back if and only if it fits in a file |
| LockServer.AlwaysSafe | CSE/cselab2backup/lock_server.cc:25-63 | in every state of every run, at most one thread is inside, for each lock grants minus successful releases is 0 or 1 and equals its state, and what a thread found in its test still holds when it acts on it |
| LockServer.KnowsStep | CSE/cselab2backup/lock_server.cc:25-63 | nobody changes a lock between a thread's test and its setting or clearing, because of the mutex |
| LockServer.BalancedStep | CSE/cselab2backup/lock_server.cc:25-63 | the counts stay balanced under every step of a thread whose test still holds; without that, setting a set lock would unbalance them |
| LockServer.WakeUpStep | CSE/cselab2backup/lock_server.cc:25-63 | a step keeps "a free lock with a waiter has a woken thread about to test it" if and only if it is not a signal that goes to a waiter of another lock while nobody else is due |
| LockServer.OneLidWakesUp | CSE/cselab2backup/lock_server.cc:25-63 | in runs with one lock id no wake-up is ever lost |
| LockServer.LostWakeUp | CSE/cselab2backup/lock_server.cc:43-63 | a reachable state with two ids in which a lock is free, a thread waits for it, and every thread is idle or waiting |
| LockedClients.DirectoriesConsistent | CSE/cselab2backup/yfs_client.cc:234-322 | in every interleaving a live directory that is not overwritten holds no name twice, and it is what the history says since it was made unless entries read before that were stored in it |
| LockedClients.AppendIsFresh | CSE/cselab2backup/yfs_client.cc:234-277 | when a client is about to store the extended bytes of a directory that is not overwritten the name is absent, and its copy of the bytes is current if and only if the directory was not made anew since it was read, or there are none |
| LockedClients.CreateNotLost | CSE/cselab2backup/yfs_client.cc:266-276 | as long as the directory lives, is not overwritten and not made anew and the name is not unlinked, the entry of a create is there in every later state if and only if the directory with one more record fits in a file; whoever carried old bytes |
| LockedClients.InvStep | CSE/cselab2backup/yfs_client.cc:187-568 | mutual exclusion, well-formed directories, agreement with the history and what every client knows of its directory survive every step of every client, the making of a number anew and removals included (what a removal takes: RemoveTakes) |
| LockedClients.AgreementStep | CSE/cselab2backup/yfs_client.cc:187-568 | for every step: a directory that agreed with its history, or is just made, agrees afterwards if and only if the step did not store old entries in it |
| LockedClients.MakeExact | CSE/cselab2backup/yfs_client.cc:266-276 | a number is made again while a client is about to store what it has read of it: the put leaves a directory if and only if the bytes stored are one, and then breaks the agreement with the history if and only if it is accepted and stores more than the client's own change; for appending and erasing clients |
| LockedClients.RemoveTakes | CSE/cselab2backup/inode_manager.cc:429-490 | the removal inside an unlink, in every state, also when others have changed or reused the inode: what goes is the least set that has the inode named by the entry, if live, and is closed under live children; no other file changes; where no directory contains itself that is the subtree |
| LockedClients.FileStored | CSE/cselab2backup/yfs_client.cc:559-566 | the put of a link's text or of a file: that inode keeps its type and holds the bytes put, unless it is gone or they are too many; no other file changes |
| LockedClients.DirectoryStored | CSE/cselab2backup/yfs_client.cc:251-514 | what all other steps do to the files: a new empty inode of the type asked for; one record more behind those read, or one less of them; nothing else |
| ClientRuns.LinksAlone | CSE/cselab2backup/yfs_client.cc:527-568 | a symlink nobody interferes with: the steps it takes, the record in the directory and the text in the new inode |
| ClientRuns.WritesAlone | CSE/cselab2backup/yfs_client.cc:409-469 | the same for a write: the file holds what is stored |
| ClientRuns.FoundAlone | CSE/cselab2backup/yfs_client.cc:235-275 | a create of a name that is there changes no file |
| ClientRuns.MissedAlone | CSE/cselab2backup/yfs_client.cc:473-512 | an unlink of a name that is not there changes no file |
| ClientRuns.OldBytesCanReturn | CSE/cselab2backup/yfs_client.cc:234-514 | a run from the start that gets there: create, unlink and mkdir of three clients leave a directory with an entry never put into it |
| ClientRuns.FullDirectory | CSE/cselab2backup/yfs_client.cc:234-514 | a run from the start that fills a directory to the size of the largest file: the next create in it goes on to answer OK without its entry |
| DualLock.NoDeadlock | CSE/lab/namenode_base.cc:523-541 | no reachable state has a cycle of clients waiting for each other, for any number of clients and any pairs, on the lock server's own steps |
| DualLock.Progress | CSE/lab/namenode_base.cc:523-541 | as long as no signal has gone to a waiter of another lock while nobody else was due, some busy client goes on whenever one is busy |
| DualLock.HangsExact | CSE/lab/namenode_base.cc:523-541 | when some client is busy, none goes on without a spurious wake-up if and only if every busy client sleeps in the server |
| DualLock.HangsBecause | CSE/lab/namenode_base.cc:523-541 | in every hang some lock is free with a client asleep for it; a release had signalled a waiter of another lock, and no wake-up for it has been due since |
| DualLock.HangTakesThree | CSE/lab/namenode_base.cc:523-541 | for every number of clients: no reachable state hangs if and only if there are at most two |
| DualLock.ThreeHang | CSE/lab/namenode_base.cc:523-541 | the run of three clients that hangs |
| HdfsInodes.AppendedIds | CSE/lab/inode_manager.cc:490-527 | the block list of the file grows by the new id at its end, on both sides of the direct/indirect boundary |
| HdfsInodes.AppendKeepsInv | CSE/lab/inode_manager.cc:490-527 | for any set of files whose blocks are theirs alone: appending free blocks to one of them keeps ownership balanced and every other list |
| HdfsInodes.NeverTooLarge | CSE/lab/inode_manager.cc:503-507 | for a file whose blocks are its own, the size check of append_block never fires |
| HdfsInodes.FinalBlocks | CSE/lab/namenode_base.cc:478-482 | in 32-bit arithmetic the final size keeps the number of blocks if and only if the last length is in 1..BLOCK_SIZE (exactly BLOCK_SIZE for an empty file) |
| HdfsInodes.CompleteExact | CSE/lab/inode_manager.cc:590-596 | after completion the block list is what was appended if and only if the last length fits |
| HdfsInodes.ZeroLast | CSE/lab/namenode_base.cc:478-483 | a last length of 0 after one block takes that block off the list |
| HdfsInodes.MisfitRemoval | CSE/lab/inode_manager.cc:428-484 | completing a file with any size and then removing it leaves all blocks of the other files marked used if and only if it has no more blocks than before, or the surplus ids, never handed out for it, are nobody else's |
| HdfsInodes.SameKeepsInv | CSE/lab/inode_manager.cc:275-407 | whatever is written elsewhere, to directories say, keeps the lists and the ownership of the files whose inode and block of ids it leaves alone |
| HdfsInodes.LocatedTiles | CSE/lab/namenode.cc:46-61 | the located blocks tile [0, size) without gap or overlap if and only if there are as many ids as blocks |
| HdfsInodes.LocatedUnique | CSE/lab/namenode.cc:46-61 | entries in the order of the ids that tile the file, all but the last of them whole blocks: there is one such list, and it is the one built |
| NameNodes.InodeManager.AppendBlock | CSE/lab/inode_manager.cc:490-527 | the new block is the lowest free one and the file's ids grow by it; a file whose blocks are its own leaves all others alone, any other at most spoils those that keep their ids in the same block; at the limit and beyond, what the code does then |
| NameNodes.InodeManager.GetBlockIds | CSE/lab/inode_manager.cc:532-567 | the file's block list in order, with unknown ids past the array of ids; empty for a missing inode |
| NameNodes.InodeManager.Complete | CSE/lab/inode_manager.cc:590-596 | only the size of that inode changes; its blocks stay its own if and only if it has no more than before, and those dropped belong to nobody from then on |
| NameNodes.InodeManager.RemoveFile | CSE/lab/inode_manager.cc:428-484 | the blocks the file lists, the indirect one among them, become free; those files that have one of them, and only those, lose their claim, and none does when the file's blocks are its own |
| NameNodes.NameNode.FinishCreate | CSE/lab/namenode_base.cc:459-465 | the new file is good and pending with the count its number's record held, 0 when there was none; all good files stay good |
| NameNodes.NameNode.AddBlock | CSE/lab/namenode_base.cc:492-502 | fails if and only if the file is not pending; otherwise the answered block is the lowest free one and follows those handed out before, at their total length, the answer is remembered, and the recorded count is BLOCK_SIZE times their number on top of what was left over at creation; for a good file all good files stay good |
| NameNodes.NameNode.Complete | CSE/lab/namenode_base.cc:470-490 | fails if and only if not pending; stores the size, which with nothing left over is whole blocks and then the length reported; the list of a good file is exactly the ids handed out, in order, if and only if the last length and what was left over at creation fit together; otherwise this file alone is not good any more |
| NameNodes.NameNode.Remove | CSE/lab/namenode_base.cc:568-602 | a plain file goes with the blocks it lists; its record stays; a file whose blocks are its own leaves all good files good, any other takes the good ones that have one of these blocks |
| NameNodes.NameNode.GetBlockLocations | CSE/lab/namenode.cc:36-62 | for every file entry k lies at k times BLOCK_SIZE, all but the last are whole blocks, and they tile the file; for a good file each has the id and the offset that AddBlock answered for it, in order |
| NameNodes.NameNode.StoreBlock | CSE/lab/inode_manager.cc:578-585 | a data node that stores a block handed out for a good file leaves every list of a good file alone, for any content |
| NameNodes.NameNode.DirectoryTakes | CSE/lab/inode_manager.cc:275-407 | a block a directory takes is a free one, and all good files stay good |
| NameNodes.NameNode.DirectoryGives | CSE/lab/inode_manager.cc:275-407 | a block that belongs to none of the files can be given up without harm to them |
| NameNodes.PendingSize | CSE/lab/namenode_base.cc:435-502 | while a good file is pending, the inode size is BLOCK_SIZE times the number of blocks, and the recorded count equals it if and only if nothing was left over at creation |
| NameNodes.LeftOverExact | CSE/lab/namenode_base.cc:459-490 | for every allowed last length the completed block list is right if and only if nothing was left over at creation |
| NameNodes.DeletedWhileWritten | CSE/lab/namenode_base.cc:459-602 | the run that leaves something over: create, add a block, delete, create on the same number, complete; the empty file ends with a block |
| NameNodes.SharedBlock | CSE/lab/namenode_base.cc:459-602 | a run to two live files that list the same block |
| NameNodes.HandedOutTwice | CSE/lab/namenode_base.cc:459-602 | and on to the block of a file being written being handed out again for another one |
| Paths.SplitJoin | CSE/lab/namenode_base.cc:150-182 | joining names with slashes and taking the components again gives the names |
| Paths.RecursiveLookup | CSE/lab/namenode_base.cc:150-182 | the scanning loop succeeds exactly when folding lookup over the non-empty components does, with its inode; `last` is the directory of the final component |
| Paths.RecursiveLookupParent | CSE/lab/namenode_base.cc:189-196 | resolves all components but the last, for any number of trailing or doubled slashes; fails for paths without a component |
| Paths.LastHoldsEntry | CSE/lab/namenode_base.cc:150-182 | after a successful look-up `last` holds the entry of the final component, and it is the inode found |
| Paths.LookupBoth | CSE/lab/namenode_base.cc:150-196 | both look-ups run on one path: whenever the second finds the parent, the `last` of the first is that parent, also when the final component is missing; on a path without a component the second fails |
| Paths.WalkUnique | CSE/lab/namenode_base.cc:604-636 | an inode is reached by one list of names only |
| Paths.AddedWalk | CSE/lab/namenode_base.cc:618-621 | a new entry for a fresh inode makes exactly one more list of names resolve |
| Paths.NameTree.Mkdir | CSE/lab/namenode.cc:146-157 | fails if and only if the name exists; otherwise a fresh inode under that name |
| Paths.NameTree.Mkdirs | CSE/lab/namenode_base.cc:604-636 | succeeds exactly when the path ends in a name that is new below a parent that exists or may be made; then it resolves to a fresh directory; every path that resolved keeps its inode, and only prefixes of this path newly resolve; with createparent the path resolves afterwards even when the call fails |
| Paths.MkdirsSlash | CSE/lab/namenode_base.cc:604-636 | mkdirs of /a/ fails, and /a is there |
| Pipeline.DataNode.WriteBlock | CSE/lab/datanode.cc:75-88 | stores the splice, in that block only, if and only if the packet fits a block and the extent server answers; a range past the end throws |
| Pipeline.DataNode.ReadBlock | CSE/lab/datanode.cc:57-73 | the bytes of the range that lie inside the block |
| Pipeline.DataNode.Take | CSE/lab/datanode_base.cc:404-424 | one node's own status: success if and only if it still reads, the packet arrives and fits and the store works; then the splice is stored, otherwise its part in the write ends |
| Pipeline.Forward | CSE/lab/datanode_base.cc:425-447 | one more success in front of what the rest of the chain reported, errors for the whole rest when it could not be reached or has gone; the exact number of answers; unless the sending failed every node behind stores and reads on as the packet's effect says |
| Pipeline.HandlePacket | CSE/lab/datanode_base.cc:402-454 | for every pipeline length and every fault: the list is j successes and then errors, of exact length, where j is the length of the run of nodes that take the packet and have that reported; for every node, by the faults before it and its own, exactly whether it stores the packet and whether it still reads; a node that stored a packet that is not the last and met no fault reads on |
| Pipeline.ReceiveBlock | CSE/lab/datanode_base.cc:401-457 | for every packet sequence: one answer a packet up to the last packet or the first the head fails at; each acknowledged success was stored, each node holds what it stored in the order sent; if all packets are acknowledged by all and cover the block then every replica is the block they describe; when all nodes read, all packets fit, only the final one is marked last and there are no faults, all packets are acknowledged by all |
| Pipeline.LeadAt | CSE/lab/datanode_base.cc:402-447 | node k is among the successes if and only if it and all before it read and take the packet and nothing before it loses the way back |
| Pipeline.AppliedAt | CSE/lab/datanode_base.cc:401-457 | each byte is decided by the last packet that covers it |
| Pipeline.ReplicasAgree | CSE/lab/datanode_base.cc:401-457 | stored packets make any two replicas equal if and only if they cover the whole block |
| Hrpc.ReadVariant | CSE/lab/hrpc.h:62-76 | fails if and only if no terminating byte is left |
| Hrpc.VarintDigits | CSE/lab/hrpc.h:62-76 | byte k of a written length has its bits from 7k on, and the last byte the highest ones |
| Hrpc.VarintExact | CSE/lab/hrpc.h:62-76 | a written 32-bit length is read back if and only if it is below 2^31; above, what is read is given |
| Hrpc.TwoTo31Misread | CSE/lab/hrpc.h:62-76 | 2^31 is read as 2^64 - 2^31 |
| Hrpc.HrpcWrite | CSE/lab/hrpc.h:14-60 | the frame of the messages; its first four bytes are, highest first, the number of bytes that follow, in 32 bits |
| Hrpc.ReadDelimited | CSE/lab/hrpc.h:91-103 | the next message and the buffer behind it, the buffer unchanged on failure |
| Hrpc.HrpcRead | CSE/lab/hrpc.h:105-137 | reads a frame with the given number of messages |
| Hrpc.BodyRoundTrip | CSE/lab/hrpc.h:78-103 | parsing written messages gives them back, whatever follows |
| Hrpc.FrameExact | CSE/lab/hrpc.h:14-137 | reading a written frame gives the messages, an empty buffer and the rest of the wire when the lengths together fit 32 bits, and fails otherwise |
| TigerTable.Tab.Enter | Compiler/lab4/table.c:45-51 | pushes one binding on the stack the table threads |
| TigerTable.Tab.Look | Compiler/lab4/table.c:53-61 | the value of the newest binding of the key on the whole stack |
| TigerTable.Tab.Pop | Compiler/lab4/table.c:63-74 | removes the globally newest binding, whatever its bucket |
| TigerTable.Tab.Dump | Compiler/lab4/table.c:76-88 | visits the whole stack newest first, terminates, and leaves every bucket as it was |
| TigerTable.BucketHolds | Compiler/lab4/table.c:45-88 | a bucket is exactly the stack's bindings with its hash, in order |
| TigerTable.ThreadsUnique | Compiler/lab4/table.c:45-88 | a table threads one stack only |
| TigerTable.Tab.BeginScope | Compiler/lab4/symbol.c:62-64 | pushes the mark |
| TigerTable.Tab.EndScope | Compiler/lab4/symbol.c:66-70 | terminates and leaves what was below the newest mark |
| Symbols.SymbolTable.HashOf | Compiler/lab4/symbol.c:20-25 | the 32-bit hash with signed characters |
| Symbols.HashExtends | Compiler/lab4/symbol.c:20-25 | one more character: 65599 times the hash so far plus the signed character, in 32 bits |
| Symbols.SymbolTable.Intern | Compiler/lab4/symbol.c:32-40 | the same symbol for equal names, different ones for different names, over the whole history |
| Scopes.Checker.TransVar | Compiler/lab4/semant.c:117-180 | both stacks as before; every look-up finds the binding the checker's environment has at that place |
| Scopes.Checker.TransExp | Compiler/lab4/semant.c:182-517 | for every expression: both binding stacks are exactly as before, and every look-up made finds the binding of the environment built from the program for that place, in which a bound name is not bound again |
| Scopes.Checker.TransCall | Compiler/lab4/semant.c:204-240 | the arguments looked at are those paired with a formal parameter |
| Scopes.Checker.TransFor | Compiler/lab4/semant.c:439-464 | the loop variable is bound in the body only |
| Scopes.Checker.TransLet | Compiler/lab4/semant.c:470-486 | each declaration sees those before it, the body all of them, and none remains; a function or type name that is bound already keeps its binding |
| Scopes.Checker.TransDec | Compiler/lab4/semant.c:519-673 | adds bindings and no mark; the environment afterwards is the one the checker's rule describes |
| Scopes.Checker.TransBody | Compiler/lab4/semant.c:560-582 | a function body sees what its whole group bound and its own parameters: each parameter name is bound to the last parameter of that name, every other name and all types are those around; they are gone afterwards |
| Scopes.Checker.TransTypes | Compiler/lab4/semant.c:622-671 | the type names of the batch that were not bound are all bound before any body is looked at |
| LexicalScopes.DecEnvExact | Compiler/lab4/semant.c:519-673 | a declaration brings into scope what lexical scoping says if and only if it is clean: no function or type name of its group is bound around it or twice in it, and the type a variable is declared with is defined |
| LexicalScopes.CleanExpLog | Compiler/lab4/semant.c:182-673 | in a program whose declarations are clean where they stand, every look-up finds the binding that lexical scoping gives |
| LexicalScopes.NestedFunction | Compiler/lab4/semant.c:535-539 | a function g declared inside the scope of another g: a call of g after it finds the outer one, where lexical scoping gives the inner |
| LexicalScopes.ParameterFound | Compiler/lab4/semant.c:560-571 | a program in which a variable and a parameter have one name: its use in the body finds the parameter |
| LexicalScopes.BodyUse | Compiler/lab4/semant.c:560-571 | for every function and every parameter that is the last of its name: a body that uses it finds it |
| LexicalScopes.LoopVariableFound | Compiler/lab4/semant.c:449-456 | for every loop: its variable is found in the body, any other name is what it is around the loop |
| LexicalScopes.LetVariableFound | Compiler/lab4/semant.c:470-486 | for every let: in its body a name finds the last variable declared with it, and one that is not declared finds what it is around the let |
| LexicalScopes.VisitsParts | Compiler/lab4/semant.c:182-517 | which look-ups each kind of expression makes, in order |
| LexicalScopes.VisitsLoop | Compiler/lab4/semant.c:439-464 | a loop: its bounds around it, its body inside |
| LexicalScopes.VisitsList | Compiler/lab4/semant.c:204-240 | a call: its function, then as many arguments as formals; a sequence: all in order |
| LexicalScopes.VisitsField | Compiler/lab4/semant.c:300-342 | a record: its type, then the fields under the right name |
| LexicalScopes.VisitsFunction | Compiler/lab4/semant.c:526-582 | a function: name, result and parameter types around it, then its body and its name inside |
| LexicalScopes.VisitsType | Compiler/lab4/semant.c:622-671 | a type declaration: its name around the batch, its body inside |
| LexicalScopes.UncleanUnseen | Compiler/lab4/semant.c:584-621 | the converse fails: a declaration that is not clean and never used leaves no trace in the look-ups |
| LexicalScopes.TransProg | Compiler/lab4/semant.c:715-720 | a whole program from the base environments: look-ups by the checker's rule, and by lexical scoping when the program is clean |
| LexicalScopes.BaseFinds | Compiler/lab4/semant.c:715-720 | exactly the predefined names are bound at the start |
| Scopes.EndRestores | Compiler/lab4/symbol.c:60-70 | ending a scope after any growth without marks restores the stack from before it began |
| Scopes.FindIsGet | Compiler/lab4/symbol.c:56-58 | look-up on the stack is look-up in the environment it stands for, marks not counting |
| TypeCycles.TypeEnv.Headers | Compiler/lab4/semant.c:626-635 | every name of the batch that was not bound gets a record of its own before any body; bound names keep theirs |
| TypeCycles.TypeEnv.Bodies | Compiler/lab4/semant.c:636-645 | for each record the last declaration that concerns it counts; records of no declaration are untouched, and records that are not names stay what they are |
| TypeCycles.TypeEnv.CheckName | Compiler/lab4/semant.c:649-669 | for every chain: cycle if it meets a name twice within the array, overrun if it meets more than 100 different names, fine if it ends |
| TypeCycles.TypeEnv.CheckCycles | Compiler/lab4/semant.c:646-671 | the verdict of the first declared name that is not fine |
| TypeCycles.TypeEnv.TransTypeDec | Compiler/lab4/semant.c:622-671 | for every batch, names bound already included: every new name has a record of its own; the verdict is that of the first name that is not fine; when fine every declared name's chain ends; with at most 100 names in all the cycle error is reported if and only if some alias chain goes round |
| TypeCycles.EndsExact | Compiler/lab4/semant.c:35-49 | a chain ends if and only if it meets no name twice |
| TypeCycles.FewNames | Compiler/lab4/semant.c:654-668 | with at most 100 names no chain outgrows the array |
| TypeCycles.LongChain | Compiler/lab4/semant.c:654-668 | a row of n aliases outgrows the array if and only if n is more than 101 |
| TypeCycles.ActualTy | Compiler/lab4/semant.c:35-49 | terminates on every chain that ends and returns the type, not a name, at its end |
| Slp.Lookup | Compiler/lab1/myimpl.c:31-50 | the value of the newest assignment, 0 when there is none |
| Slp.Apply | Compiler/lab1/myimpl.c:151-162 | sum, difference and product modulo 2^32, quotients truncated; no value only where division has none |
| Slp.OperandsInOrder | Compiler/lab1/myimpl.c:147-163 | the left operand is evaluated first, its output comes first and the right one sees its assignments; the value is that of the operation on the two |
| Slp.AssignedValue | Compiler/lab1/myimpl.c:127-133 | after an assignment its name has the value, any other the value it had, 0 when none |
| Slp.StatementsInOrder | Compiler/lab1/myimpl.c:127-128 | the second statement runs on what the first left, and its output follows |
| Slp.PrintsNumbers | Compiler/lab1/myimpl.c:170-184 | any row of numbers is printed in order, each but the last with a blank, and counted |
| Slp.Interpreter.InterpStm | Compiler/lab1/myimpl.c:123-137 | refines the store semantics: same store, same output, also when a division stops the program |
| Slp.Interpreter.InterpExp | Compiler/lab1/myimpl.c:140-167 | the same for expressions, with their value |
| Slp.Interpreter.InterpPrint | Compiler/lab1/myimpl.c:170-184 | the same for print statements, left to right |
| Slp.Divide | Compiler/lab1/myimpl.c:160-161 | undefined exactly for a zero divisor and for the least integer divided by -1; otherwise truncation towards zero |
| Slp.MaxArgsExecuted | Compiler/lab1/myimpl.c:54-113 | maxargs is the largest argument count among the print statements a complete run executes, and an upper bound for one that is stopped |

## Left out

- Running out of blocks or inodes: `alloc_block` and `alloc_inode` return 0 and most callers carry on; the calls that need room ask for it as a precondition (`AllocBlock` and `AllocInode` themselves are modelled in full).
- File names of 60 bytes or more, empty names and names with a NUL byte; a put of 2^31 bytes or more; writes and setattr aimed at directories.
- FUSE handlers, sockets, the RPC library, message contents, console output, clocks (a clock value is a parameter); of the debugging call `printdir` in `alloc_inode` only the read of the root is modelled.
- Later labs' inode layer: their `get_inode` rejects number 1024, which `alloc_inode` still tries; the name node models use numbers 1 to 1023. Their file contents are not modelled, only block lists.
- LockedClients: the connection and constructor phase is over when a run starts; look-ups read a directory in one step, and the result of a look-up in something that is not a well-formed directory is left open.
- LockedClients: `remove_file` steps through a directory while an index is below its size, so when somebody overwrote a directory with a length that is not a multiple of 64 it also removes a number read from the padding of the last block; the model's entries round down. In such a directory `unlink` can likewise match the partial last record.
- LockedClients and DualLock: locks are taken and released as the lock server says; the caching client and server of later labs only return OK.
- Threads that are killed while holding the mutex, and `pthread` errors.
- NameNodes: the inodes are plain files, of directories only the blocks count, so deleting directories and PBRename are not part of it, nor a pending record taken over by a new directory; data node heartbeats; and the entry put back when `Complete` fails (its extent call never does).
- NameNodes.NameNode.FinishCreate: starts when the new inode exists; the path walk before it is that of `PBMkdirs`, which is modelled.
- Paths: look-ups inside an inode that is not a directory; directories holding a name twice after a rename.
- Pipeline: setting up the chain and block transfer between nodes; acknowledgements are assumed to belong to the packet just sent.
- Hrpc.ReadDelimited: addresses do not wrap around, and the message's own parser accepts its bytes; short reads from a socket are not modelled, and shifts of 32 bits and more, undefined in C, give an unknown value.
- Symbols and Tab: addresses are unbounded numbers and allocation does not fail.
- NameNodes.InodeManager.AppendBlock: the id that a file of 4196 blocks gets is stored one past the array in memory; what that overwrites is not modelled.
- LexicalScopes.CleanExpLog: goes one way; which unclean declarations show in the look-ups depends on every use after them (`LexicalScopes.UncleanUnseen` is one that does not).
- Scopes: types of expressions and the error messages that depend on them; nodes whose visit depends on a type carry that decision as an unknown.
- TypeCycles.TypeEnv.TransTypeDec: what happens after the array has been overrun; the model stops there.
- Slp: the parser and the constructors of programs; integer overflow wraps around.
- `ICS/proxy.c`, `CSE/handson4`, the generated scanners and parsers, pretty printers and demo programs: input and output, or easy members.
