# AnyCache: verified model

AnyCache is a distributed cache in front of slower storage. A master keeps the namespace and knows
which worker holds which block; workers keep blocks in memory, SSD and HDD tiers; clients split
files into blocks and may keep a page cache of their own. This project models the parts where
several structures must agree, and proves what they promise.

State that the C++ code updates in place is a class with loops, proved against transitions on
values; the theorems are about those transitions, over every input, every run and every crash point.
Clock readings, outcomes of commits, replies of other machines and the page fetcher are parameters.

- **Namespace** (`NamespaceTree`, `NamespaceStore`, `NamespaceOps`, `NamespaceSafety`,
  `NamespaceRuns`, `NamespaceMeaning`, `NamespaceAnswers`, `Paths`, `InodeTree`). Directories live in
  memory, everything else in a store that changes by atomic batches. Shown: what each operation does
  to paths and inodes and what it answers; exactly which calls keep memory equal to what a recovery
  would rebuild; that runs with crashes between any two commits stay recoverable and never reuse an
  id; that the two operating modes agree.
- **Store encoding** (`Bytes`, `InodeCodec`, `StoreEncoding`). Keys, the 48-byte inode header and the
  owner and group dictionary. Shown: round trips and orders, and that the byte tables behave as the
  abstract store under every batch, restart and failed commit.
- **Worker block cache** (`CachePolicy`, `CacheManager`, `StorageTier`, `BlockStore`, `BlockRecord`,
  `BlockHistory`, `BlockStoreObject`). Shown: LRU and LFU evict by a specification over the whole
  history, which is what the operations told them; the byte accounting; the structure of every
  reachable multi-tier state; the bytes and the metadata record of every block over any run; exactly
  what the watermarks evict and when a read promotes.
- **Reads and writes of flat files** (`PageStore`, `BlockIds`, `FileClient`, `FileLifetime`). Shown:
  the page cache cannot be seen by readers and holds the most recently used pages; how many bytes of
  any write are taken; exactly when what was written is read back, given the size the master has
  recorded.
- **Smaller parts** (`MountTable`, `BlockMaster`, `DataMover`, `Journal`). Longest-prefix mounts, the
  two-way block-location index with truncation and deletion, the task queue as interleaved steps, and
  journal replay under torn tails.

Where a promise fails, the code is modelled as it is: a lemma gives an input on which it fails, and
another says for all inputs exactly when it holds. `hide` statements in proofs only limit which
definitions the verifier unfolds there.

`dafny verify dfyconfig.toml` checks the whole project with Dafny 4.11.

## Model

| member | source | states |
|---|---|---|
| NamespaceTree.PathUnique | src/master/inode_tree.cpp:245-642 | In a linked namespace no two paths from the root lead to one inode. |
| NamespaceTree.ReachesIsPrefix | src/master/inode_tree.cpp:646-663 | Lying below an inode is the same as having a path that extends its path, both directions. |
| NamespaceTree.WalkAfterAdd | src/master/inode_tree.cpp:278-302 | Adding an entry makes exactly one new path resolve and changes no other. |
| NamespaceTree.TreeAfterAdd | src/master/inode_tree.cpp:278-302 | Adding an entry keeps the tree: one incoming edge per inode that matches its parent id and name, every inode reachable from the root. |
| NamespaceTree.WalkAfterDrop | src/master/inode_tree.cpp:454-506 | After cutting off a subtree exactly the paths through its root stop resolving. |
| NamespaceTree.TreeAfterDrop | src/master/inode_tree.cpp:454-506 | Cutting off a subtree keeps the tree. |
| NamespaceTree.WalkAfterMove | src/master/inode_tree.cpp:573-605 | After a move the paths under the source answer under the destination, everything else answers as before. |
| NamespaceTree.MoveKeepsTree | src/master/inode_tree.cpp:537-605 | A move keeps the tree if and only if the destination parent does not lie in the moved subtree. |
| NamespaceStore.HoldsAfterCreate | src/master/inode_tree.cpp:289-294 | The create batch, applied to a store that represents a namespace, represents the namespace with the entry added. |
| NamespaceStore.HoldsAfterRename | src/master/inode_tree.cpp:573-588 | The rename batch (inode rewritten, old edge deleted, new edge put) represents the namespace with the subtree moved. |
| NamespaceStore.HoldsAfterDelete | src/master/inode_tree.cpp:454-476 | The delete batch represents the namespace without the subtree. |
| NamespaceStore.HoldsUnique | src/master/inode_store.cpp:178-219 | A store represents at most one namespace. |
| NamespaceStore.RecoveryIsExact | src/master/inode_tree.cpp:37-62 | Recovery rebuilds from a store exactly the directory map with its children maps that belongs to the namespace the store represents. |
| NamespaceSafety.AllocateKeeps | src/master/inode_tree.cpp:114-124 | Issuing an id keeps every stored id below the counter, if and only if no batch was due or its commit succeeded. |
| NamespaceSafety.CreateFileKeeps | src/master/inode_tree.cpp:245-306 | Creating a file leaves memory and store consistent if and only if the parent path does not lead to a regular file; every store passed through is recoverable. |
| NamespaceSafety.MkdirKeeps | src/master/inode_tree.cpp:308-363 | A recursive mkdir not blocked by a file keeps the invariant, passes only through recoverable stores, and resolves to the id it returns. |
| NamespaceSafety.MkdirBlocked | src/master/inode_tree.cpp:318-323 | A mkdir through a regular file always breaks the invariant of memory. |
| NamespaceSafety.DeleteKeeps | src/master/inode_tree.cpp:407-509 | Delete keeps the invariant, removes exactly the subtree, and succeeds if and only if the path resolves, is not the root, is empty or the call is recursive, and the commit succeeds. |
| NamespaceSafety.RenameKeeps | src/master/inode_tree.cpp:511-608 | Rename keeps the invariant if and only if the destination parent is not a file and does not lie inside the source; a refused rename leaves the store alone. |
| NamespaceSafety.CompleteKeeps | src/master/inode_tree.cpp:365-405 | Completing a file keeps the invariant and changes size, completion and time of exactly that file; it succeeds if and only if the id is a file and the commit succeeds. |
| NamespaceSafety.UpdateSizeKeeps | src/master/inode_tree.cpp:610-642 | Resizing keeps the invariant if and only if it is not a directory whose commit fails with changed fields. |
| NamespaceSafety.StepKeeps | src/master/inode_tree.cpp:245-642 | Every operation keeps memory, store and counter consistent if and only if the call is admissible, a condition on the state before the call and on which commits succeed. |
| NamespaceSafety.LiveMemoryIsRecovered | src/master/inode_tree.cpp:37-99 | In every consistent state live memory equals what a recovery would rebuild from the store. |
| NamespaceRuns.FirstStart | src/master/inode_tree.cpp:79-95 | Recovery from an empty store creates and persists the root directory, with mode 0755 and one time, and is consistent. |
| NamespaceRuns.FirstStartFails | src/master/inode_tree.cpp:79-95 | If the root cannot be committed the first start answers IOError and leaves the store empty. |
| NamespaceRuns.RecoverKeeps | src/master/inode_tree.cpp:37-99 | Recovery from any store an operation passed through is consistent. |
| NamespaceRuns.RunKeeps | src/master/inode_tree.cpp:37-642 | After any run of operations, crashes and recoveries, with a crash allowed between any two commits, state and store are consistent. |
| NamespaceRuns.IdsAreNeverReused | src/master/inode_tree.cpp:64-124 | Over any interleaving of operations and crashes no id that was ever stored is stored again once it is gone. |
| NamespaceRuns.IdsAscend | src/master/inode_tree.cpp:64-124 | The ids handed out over any run with crashes and restarts strictly increase, and all lie above every id issued or stored before the run. |
| NamespaceRuns.RestartSkips | src/master/inode_tree.cpp:64-124 | A restart skips at most 999 ids. |
| NamespaceRuns.OneWritePerThousand | src/master/inode_tree.cpp:114-124 | From a restart on, n allocations cost n/1000 counter writes, rounded up, and the stored counter stays ahead by what was reserved. |
| NamespaceMeaning.CreateFileMeaning | src/master/inode_tree.cpp:245-306 | A created file answers under its path with the id returned and the attributes asked for; every other path and inode is as before. |
| NamespaceMeaning.CreateFileSucceeds | src/master/inode_tree.cpp:245-306 | A file is created if and only if the parent path is a directory, the name is free and the commit succeeds. |
| NamespaceMeaning.MkdirMeaning | src/master/inode_tree.cpp:308-363 | Not blocked by a file, mkdir resolves the path to the id returned, adds only directories with the requested mode along it, changes nothing else, and answers AlreadyExists, NotFound or success exactly by what resolved before. |
| NamespaceMeaning.DeleteMeaning | src/master/inode_tree.cpp:407-509 | After a delete exactly the paths through the target are gone, exactly those inodes are gone, and the others keep everything but one edge. |
| NamespaceMeaning.RenameMeaning | src/master/inode_tree.cpp:511-608 | After a rename the moved subtree resolves under the new path, all else resolves as before, and no inode changes but the moved one's parent and name. |
| NamespaceMeaning.RenameSucceeds | src/master/inode_tree.cpp:511-588 | A rename succeeds if and only if the source resolves, the destination is a free name in a directory, and the commit succeeds. |
| NamespaceMeaning.FileAsParentBreaksMemory | src/master/inode_tree.cpp:268-271 | Creating a file under a regular file leaves an entry in memory that recovery would not rebuild. |
| NamespaceMeaning.RenameIntoItselfLoses | src/master/inode_tree.cpp:537-605 | A rename into the renamed directory itself succeeds and leaves everything in it stored, with no path leading to any of it, now or after a recovery. |
| NamespaceMeaning.RenameIntoItselfDetaches | src/master/inode_tree.cpp:537-551 | Renaming /a to /a/b succeeds and leaves the inode of /a stored with no path leading to it. |
| NamespaceMeaning.LostCounterReusesId | src/master/inode_tree.cpp:114-124 | With a failed counter write two files created around a restart get the same id. |
| NamespaceMeaning.ResizeTears | src/master/inode_tree.cpp:610-642 | After a resize memory is what recovery would rebuild if and only if it was not a directory whose commit failed with changed fields. |
| NamespaceMeaning.FailedResizeTearsMemory | src/master/inode_tree.cpp:616-624 | Resizing the root while its commit fails leaves memory different from what recovery rebuilds. |
| NamespaceMeaning.ModesAgree | src/master/inode_tree.cpp:245-642 | With commits succeeding, every admissible operation succeeds in the two-tier mode exactly when it does in the pure-memory mode, with the same id and the same resulting namespace. |
| NamespaceMeaning.ModesAgreeOnRuns | src/master/inode_tree.cpp:245-642 | The two modes agree over whole runs of operations. |
| NamespaceMeaning.ModesStartAlike | src/master/inode_tree.cpp:20-33 | The two modes start from the same namespace. |
| NamespaceAnswers.ResolveAnswers | src/master/inode_tree.cpp:126-147 | Pure-memory mode: a path resolves, or is an invalid argument if and only if it goes through a regular file, or else is not found. |
| NamespaceAnswers.ResolveAnswersCached | src/master/inode_tree.cpp:126-147 | Two-tier mode: a path resolves or is not found. |
| NamespaceAnswers.CreateFileAnswers | src/master/inode_tree.cpp:245-306 | Creating a file answers AlreadyExists, NotFound, InvalidArgument, IOError or success, each exactly in its case of the namespace and the commit. |
| NamespaceAnswers.PureCreateFileAnswers | src/master/inode_tree.cpp:245-306 | The same without a store. |
| NamespaceAnswers.CreateFileFails | src/master/inode_tree.cpp:245-306 | A refused or failed creation leaves memory and tables alone; exactly a failed commit uses up an id. |
| NamespaceAnswers.RenameAnswers | src/master/inode_tree.cpp:511-608 | A rename answers each status exactly in its case: the source first, then the parent of the destination, then the name, then the commit. |
| NamespaceAnswers.PureRenameAnswers | src/master/inode_tree.cpp:511-608 | The same without a store, where a source path through a file is told apart. |
| NamespaceAnswers.MkdirAnswers | src/master/inode_tree.cpp:308-363 | Mkdir answers each status exactly in its case: AlreadyExists if the path leads somewhere, InvalidArgument through a file, NotFound for a missing parent without the recursive flag, IOError if a directory to be made cannot be committed. |
| NamespaceAnswers.PureMkdirAnswers | src/master/inode_tree.cpp:308-363 | The same without a store, where nothing can fail to commit. |
| NamespaceAnswers.MkdirPartial | src/master/inode_tree.cpp:318-359 | When a commit fails in the middle, the directories before it are there and the others are not. |
| NamespaceAnswers.DeleteAnswers | src/master/inode_tree.cpp:407-509 | Delete answers each status exactly in its case: missing path, root, entries left without the recursive flag, failed commit. |
| NamespaceAnswers.PureDeleteAnswers | src/master/inode_tree.cpp:407-509 | The same without a store. |
| NamespaceAnswers.CompleteAnswers | src/master/inode_tree.cpp:365-405 | Completion answers NotFound, InvalidArgument for a directory, IOError or success exactly in these cases, in both modes. |
| NamespaceAnswers.ResizeAnswers | src/master/inode_tree.cpp:610-642 | A resize answers NotFound, IOError or success exactly in these cases, in both modes. |
| Paths.SplitUndoesSpell | src/master/inode_tree.cpp:103-112 | Splitting undoes spelling: any sequence of legal names is the components of its spelled path. |
| Paths.ComponentsAreNames | src/master/inode_tree.cpp:103-112 | Every component is non-empty and free of slashes. |
| Paths.SplitPath | src/master/inode_tree.cpp:103-112 | The loop returns the non-empty pieces between slashes, in order. |
| InodeTrees.InodeStore.CommitBatch | src/master/inode_store.cpp:178-219 | A commit applies the whole batch or nothing, and is logged if it succeeds. |
| InodeTrees.InodeStore.ScanDirectoryInodes | src/master/inode_store.cpp:223-254 | The scan returns exactly the stored directories, each as persisted. |
| InodeTrees.InodeStore.ScanAllEdges | src/master/inode_store.cpp:256-277 | The scan returns exactly the stored edges. |
| InodeTrees.InodeTree.Recover | src/master/inode_tree.cpp:37-99 | Recovery in place does what the recovery transition says, commit by commit, including the counter fallback and the first start. |
| InodeTrees.InodeTree.AllocateId | src/master/inode_tree.cpp:114-124 | Issues the next id and reserves a batch of a thousand when the reserved range is used up. |
| InodeTrees.InodeTree.ResolvePathLocked | src/master/inode_tree.cpp:126-147 | The status of the resolution and, on success, the id the path leads to. |
| InodeTrees.InodeTree.CreateFile | src/master/inode_tree.cpp:245-306 | The method is the create transition in either mode, commit by commit. |
| InodeTrees.InodeTree.CreateDirectory | src/master/inode_tree.cpp:308-363 | The loop over components is the mkdir transition in either mode, commit by commit. |
| InodeTrees.InodeTree.CompleteFile | src/master/inode_tree.cpp:365-405 | The method is the completion transition in either mode, commit by commit. |
| InodeTrees.InodeTree.UpdateSize | src/master/inode_tree.cpp:610-642 | The method is the resize transition in either mode, commit by commit. |
| InodeTrees.InodeTree.Rename | src/master/inode_tree.cpp:511-608 | The method is the rename transition in either mode, commit by commit. |
| InodeTrees.InodeTree.Delete | src/master/inode_tree.cpp:407-509 | The method is the delete transition in either mode, commit by commit. |
| InodeTrees.InodeTree.CollectSubtreeForDeletion | src/master/inode_tree.cpp:646-663 | The recursion collects exactly the ids and edges below the target. |
| InodeTrees.InodeTree.RemoveDirSubtreeFromMemory | src/master/inode_tree.cpp:665-679 | The recursion erases exactly the subtree below the target, but not the target. |
| InodeTrees.InodeTree.RemoveByWorklist | src/master/inode_tree.cpp:490-505 | The worklist erases exactly the target and its subtree, the set the two recursions compute. |
| InodeTrees.DeletionApplies | src/master/inode_tree.cpp:454-476 | The batch built from the collected ids and edges removes exactly the subtree and its incoming edge from the store. |
| InodeTrees.InodeTree.GetInodeById | src/master/inode_tree.cpp:176-190 | Returns the inode of the namespace the state stands for, in either mode. |
| InodeTrees.InodeTree.GetInodeByPath | src/master/inode_tree.cpp:156-174 | Finds exactly the paths that resolve, returns their inodes, and tells the others apart as the mode can. |
| InodeTrees.InodeTree.ListDirectory | src/master/inode_tree.cpp:192-241 | Lists exactly the children of a directory, each once, as stored in memory or in the store; a file or a missing path is refused with the status of the mode. |
| Bytes.BigOrder | src/master/inode_entry.h:236-251 | Big-endian byte strings sort as the numbers they spell. |
| InodeCodecs.InodeKeyOrder | src/master/inode_entry.h:255-259 | Inode keys are injective and sort by id. |
| InodeCodecs.ReservedKeys | src/master/inode_entry.h:261-275 | An inode key is one of the three reserved keys if and only if its id is reserved; all other keys sort before them. |
| InodeCodecs.EdgeKeyRoundTrip | src/master/inode_entry.h:293-316 | An edge key decodes to its parent and name. |
| InodeCodecs.EdgeKeyOrder | src/master/inode_entry.h:293-321 | Edge keys are injective, sort by parent and then name, and share a prefix exactly with the edges of the same parent. |
| InodeCodecs.GetOrAddKeeps | src/master/inode_entry.h:125-147 | An id leads back to its name under every later dictionary if and only if the name could be assigned one. |
| InodeCodecs.ListRoundTrip | src/master/inode_entry.h:77-101 | A persisted list is read back unchanged if and only if it has at most 255 names of at most 255 bytes. |
| InodeCodecs.WriteList | src/master/inode_entry.h:77-86 | The loop writes the count and every name behind its length, both cut to one byte. |
| InodeCodecs.ReadList | src/master/inode_entry.h:88-101 | The loop reads as many names as are announced and present. |
| InodeCodecs.RebuildMap | src/master/inode_entry.h:149-155 | The loop maps every listed name to its position plus one. |
| InodeCodecs.PackRoundTrip | src/master/inode_entry.h:171-227 | Every field but owner and group is read back as written. |
| InodeCodecs.PackParts | src/master/inode_entry.h:171-192 | Every field of the 48-byte header lies at its place, the flags in byte 44, the name behind the header. |
| InodeCodecs.InodeRoundTrip | src/master/inode_entry.h:171-227 | A serialized inode decodes to itself under every later dictionary if and only if owner and group could be assigned ids. |
| InodeCodecs.OwnerGroupDict.GetOrAddOwnerId | src/master/inode_entry.h:125-140 | The lookup or insertion in place, and the dirty flag raised exactly when the dictionary grew. |
| InodeCodecs.OwnerGroupDict.GetOrAddGroupId | src/master/inode_entry.h:125-140 | The same for groups. |
| InodeCodecs.OwnerGroupDict.Load | src/master/inode_entry.h:106-113 | Loading replaces both lists and rebuilds both maps. |
| InodeCodecs.OwnerGroupDict.SerializeInode | src/master/inode_entry.h:171-192 | Serialization in place extends the dictionary as the encoding says. |
| StoreEncodings.EmptyIsCoded | src/master/inode_store.cpp:15-93 | An empty database with an empty dictionary stands for the empty store. |
| StoreEncodings.WriteIsCoded | src/master/inode_store.cpp:188-219 | Every write, spelled in keys and values, does to the byte tables what the abstract write does to the store; afterwards the dictionary on disk is the one in memory if and only if it was before or the write brought a new name. |
| StoreEncodings.BatchIsCoded | src/master/inode_store.cpp:178-219 | A committed batch of bytes is the committed abstract batch, and with any new name it brings the whole dictionary on disk up to date. |
| StoreEncodings.ScansAreExact | src/master/inode_store.cpp:223-277 | The byte scans see exactly the directories and edges of the abstract store, and the dictionary loaded at a restart is the one in memory. |
| StoreEncodings.FailedBatch | src/master/inode_store.cpp:213-219 | After a failed commit the bytes still stand for the store when read with the dictionary in memory; the dictionary on disk is that one if and only if it was before and the batch brought no new owner or group. |
| StoreEncodings.FailedPutLosesName | src/master/inode_store.cpp:213-219 | An owner whose first put fails to commit is gone after a restart. |
| StoreEncodings.RunsAreCoded | src/master/inode_store.cpp:178-219 | Over any run of committed and failed batches the bytes stand for the abstract store when read with the dictionary in memory, and a restart loads that dictionary if and only if the last batch that brought a new name was committed. |
| BlockIds.BlockIdRoundTrip | src/common/types.h:31-50 | A block id yields back its inode and index if and only if both are in range. |
| BlockIds.BlockIdsCover | src/common/types.h:31-50 | Every 64-bit value is the block id of one in-range pair. |
| BlockIds.BlockIdsCollide | src/common/types.h:37-40 | Two pairs share a block id if and only if they agree on the bits that fit. |
| BlockIds.CountIsCeiling | src/common/types.h:53-58 | The block count is the rounded-up quotient if and only if neither the sum nor the count overflows its word. |
| BlockIds.LengthsCoverFile | src/common/types.h:53-68 | The block lengths add up to the file size, every counted block but the last is full, none is empty. |
| CachePolicy.LruKeeps | src/worker/cache_manager.cpp:9-43 | The LRU list holds exactly the tracked blocks in the order of their last touch, after every event. |
| CachePolicy.LfuAccessKeeps | src/worker/cache_manager.cpp:50-70 | An access keeps frequencies, frequency lists and the lower bound true to the history. |
| CachePolicy.LfuInsertKeeps | src/worker/cache_manager.cpp:72-83 | So does an insertion. |
| CachePolicy.LfuRemoveKeeps | src/worker/cache_manager.cpp:85-97 | So does a removal, which may leave the lower bound below the least frequency. |
| CachePolicy.PolicyKeeps | src/worker/cache_manager.cpp:9-118 | Either policy stays true to its history under access, insertion, removal and eviction. |
| CachePolicy.EvictIsLeast | src/worker/cache_manager.cpp:36-43 | The block evicted is the tracked one that comes first: for LRU the least recently touched, for LFU the least often touched, ties to the least recent. |
| CachePolicy.EvictionOrderSorted | src/worker/cache_manager.cpp:36-118 | Repeated eviction goes through all tracked blocks once, in that order. |
| CacheManagers.LfuTable.Evict | src/worker/cache_manager.cpp:99-118 | The search from the lower bound terminates and finds the list of the least frequency. |
| CacheManagers.ManagerInsertKeeps | src/worker/cache_manager.cpp:141-146 | An insertion keeps the byte total exact if and only if the id is not the reserved one and no bytes were counted for the block already. |
| CacheManagers.CountIsLeast | src/worker/cache_manager.cpp:158-175 | The number of candidates is the least whose bytes cover the request, or all there are. |
| CacheManagers.EvictionsKeep | src/worker/cache_manager.cpp:158-175 | Taking candidates leaves the manager true to its history, with the rest of the eviction order. |
| CacheManagers.EvictionsAccount | src/worker/cache_manager.cpp:158-175 | Exactly the candidates leave the books, and the total drops by exactly their bytes. |
| CacheManagers.CacheManager.OnBlockAccess | src/worker/cache_manager.cpp:136-139 | The method is the access transition. |
| CacheManagers.CacheManager.OnBlockInsert | src/worker/cache_manager.cpp:141-146 | The method is the insertion; its books stay exact if and only if the id is not the reserved one and no bytes were counted for the block already. |
| CacheManagers.CacheManager.OnBlockRemove | src/worker/cache_manager.cpp:148-156 | The method is the removal, and keeps the books exact. |
| CacheManagers.CacheManager.GetEvictionCandidates | src/worker/cache_manager.cpp:158-175 | The loop returns the shortest prefix of the eviction order that covers the request, or all blocks, even when the byte total is off. |
| StorageTiers.AllocatedKeeps | src/worker/storage_tier.cpp:36-51 | An allocation keeps the used bytes equal to the sum of the capacities and within the tier. |
| StorageTiers.RemovedKeeps | src/worker/storage_tier.cpp:164-172 | So does a removal. |
| StorageTiers.WrittenKeeps | src/worker/storage_tier.cpp:151-162 | A write changes the block's own bytes as a patch does, and nothing of the accounting. |
| StorageTiers.ImportRestores | src/worker/storage_tier.cpp:81-108 | Importing exported bytes reproduces the block. |
| StorageTiers.StorageTier.AllocateBlock | src/worker/storage_tier.cpp:36-51 | Refuses a present block and a block that does not fit, else enters zeros. |
| StorageTiers.StorageTier.ReadBlock | src/worker/storage_tier.cpp:53-59 | Reads the bytes of the range that the block has; on disk those that its file has, from any offset. |
| StorageTiers.StorageTier.WriteBlock | src/worker/storage_tier.cpp:61-67 | Refuses a write past a memory block's end; a disk block is extended. |
| StorageTiers.StorageTier.RemoveBlock | src/worker/storage_tier.cpp:69-74 | Removes exactly the block and its bytes from the accounting. |
| StorageTiers.StorageTier.ImportBlock | src/worker/storage_tier.cpp:104-108 | Allocation and write in one. |
| BlockStores.EvictKeeps | src/worker/block_store.cpp:179-198 | Eviction keeps the invariant; exactly the candidates are untracked, and exactly those living in the tier are gone. |
| BlockStores.CreateKeeps | src/worker/block_store.cpp:30-74 | Creating any block, stored already or not, keeps the invariant if and only if nothing can be allocated, the chosen tier has the block already, or the block is stored nowhere at that moment and its metadata write succeeds; a new block holds zeros, every other block is untouched or gone. |
| BlockStores.CreateAbsentKeeps | src/worker/block_store.cpp:30-74 | For an absent block that is: the metadata write succeeds, or no tier has room and evicting from the fastest does not make any. |
| BlockStores.CreateAnswers | src/worker/block_store.cpp:30-74 | A creation answers ResourceExhausted, AlreadyExists, IOError or success, each exactly in its case. |
| BlockStores.EnsureAnswers | src/worker/block_store.cpp:76-81 | Ensuring a stored block succeeds and changes nothing; a missing one is created. |
| BlockStores.CreateThenChecks | src/worker/block_store.cpp:50-73 | A creation that succeeds enters the block and then checks the watermarks of the tier it went to. |
| BlockStores.AutoEvictAsks | src/worker/block_store.cpp:299-322 | The watermark check does nothing unless the tier is above both fractions, and otherwise evicts for the least number of bytes that brings it down to the low one. |
| BlockStores.AutoEvictFrees | src/worker/block_store.cpp:299-322 | With any number of tiers, it takes off the books at least the bytes above the low fraction, or everything, and none of those blocks lives on in the tier. |
| BlockStores.AutoEvictLeast | src/worker/block_store.cpp:299-322 | With one tier it evicts from the front of the eviction order down to the low fraction, and without the last victim the tier would still be above it. |
| BlockStores.CreatePlaces | src/worker/block_store.cpp:30-74 | A new block goes to the fastest tier with room, or else to the fastest; whatever gives way lived in that tier. |
| BlockStores.CreateSingle | src/worker/block_store.cpp:30-74 | With one tier a creation succeeds if and only if the size fits the capacity, and then the used bytes are at most the high fraction of the capacity or at most the low one. |
| BlockStores.NewBlockSurvives | src/worker/block_store.cpp:299-322 | With one LRU tier a new block survives its own auto-eviction if and only if the used bytes with it are within the high fraction of the capacity or its size is within the low one. |
| BlockStores.EvictSingle | src/worker/block_store.cpp:179-198 | With one tier an eviction frees at least the bytes asked for or everything. |
| BlockStores.EnterTwiceLeaks | src/worker/block_store.cpp:50-73 | Creating a block that lives in another tier leaves a copy that no map knows, and the auto-eviction that follows cannot remove it. |
| BlockStores.ReserveLeaks | src/worker/block_store.cpp:50-60 | A failed metadata write leaves an allocated block that no map knows. |
| BlockStores.WriteKeeps | src/worker/block_store.cpp:108-121 | A write is refused without effect or patches exactly the one block; it is refused exactly if the block is missing or the write runs past the end of a memory block. |
| BlockStores.RemoveKeeps | src/worker/block_store.cpp:123-139 | A removal drops exactly the one block from every structure. |
| BlockStores.PromoteKeeps | src/worker/block_store.cpp:141-177 | A promotion moves exactly the one block with its bytes, if and only if the target tier has room for its capacity, and otherwise changes nothing and answers NotFound or ResourceExhausted exactly in its case. |
| BlockStores.AutoPromoteKeeps | src/worker/block_store.cpp:261-297 | Auto-promotion keeps the invariant, the bytes of every block and the books. |
| BlockStores.AutoPromoteExactly | src/worker/block_store.cpp:261-297 | It moves the block one tier up if and only if it was accessed often enough, a next faster tier exists and has room, and otherwise does nothing. |
| BlockRecords.ReadPromotes | src/worker/block_store.cpp:83-106 | A read moves its block one tier up if and only if the reads since creation, this one included, reach the threshold and the next faster tier has room, and otherwise moves nothing. |
| BlockStores.ReadKeeps | src/worker/block_store.cpp:83-106 | A read answers success or NotFound exactly by whether the block is stored, and changes no bytes. |
| BlockStores.ReadReturns | src/worker/block_store.cpp:83-106 | An in-range read returns exactly the bytes of the range. |
| BlockStores.ReadReturnsAll | src/worker/block_store.cpp:83-106 | Any other read stops at the end of the block in memory and at the end of its file on disk. |
| BlockStores.WriteThenRead | src/worker/block_store.cpp:83-121 | What was just written is read back, past the end of a disk block, too. |
| BlockHistories.ReadUses | src/worker/block_store.cpp:83-106 | A read touches the block once in the history of the policy, later than every other; nothing else changes, and under LRU the block goes last in the eviction order. |
| BlockHistories.WriteUses | src/worker/block_store.cpp:108-121 | So does a write that succeeds; one that is refused tells the policy nothing. |
| BlockHistories.ReadOutlives | src/worker/block_store.cpp:83-198 | With one LRU tier a block that was just read is evicted if and only if all the others together do not free enough. |
| BlockHistories.StepGrows | src/worker/block_store.cpp:30-198 | Every operation adds to the history of the policy exactly the event it stands for, and evictions of tracked blocks. |
| BlockHistories.RunsGrow | src/worker/block_store.cpp:30-198 | Over any run the history of the policy is the list of events of the operations, in order, with evictions in between. |
| BlockStores.StepInv | src/worker/block_store.cpp:30-198 | Every operation keeps the structural invariant if and only if it is not a creation whose metadata write fails after the block was allocated. |
| BlockStores.StepKeeps | src/worker/block_store.cpp:30-198 | Every such operation keeps the invariant and agrees with the reference contents. |
| BlockStores.RunsKeepContents | src/worker/block_store.cpp:30-198 | Over any run across any tiers the structural invariant holds, and whatever is still cached holds the bytes last written to it. |
| BlockRecords.StepRecords | src/worker/block_store.cpp:30-198 | Every operation keeps the metadata record of every stored block true: its capacity, its tier, and the reads since its creation. |
| BlockRecords.RunsKeepRecords | src/worker/block_store.cpp:30-297 | So do whole runs, auto-promotion and auto-eviction included. |
| BlockStores.StepStaysExact | src/worker/block_store.cpp:30-198 | With one tier the tracked blocks and the byte total stay exact under every operation that evicts from that tier. |
| BlockStores.ExactBooks | src/worker/block_store.cpp:241-243 | With one tier the cached-bytes total is exactly the used bytes of the tier. |
| BlockStores.EvictForOtherTier | src/worker/block_store.cpp:181-194 | Evicting for another tier untracks blocks that stay stored, so tracking stays exact if and only if nothing was asked for or nothing was stored. |
| BlockStoreObjects.FastestFirstSorts | src/worker/block_store.cpp:15-28 | Sorting the configured tiers keeps them all and orders them by speed. |
| BlockStoreObjects.BlockStore.constructor | src/worker/block_store.cpp:15-28 | A new store is empty and valid, its tiers fastest first. |
| BlockStoreObjects.BlockStore.CreateBlock | src/worker/block_store.cpp:30-74 | The method over tier objects and cache manager is the creation transition, and the store stays valid if and only if that does no harm. |
| BlockStoreObjects.BlockStore.EnsureBlock | src/worker/block_store.cpp:76-81 | The method over tier objects and cache manager is the transition that creates a missing block, metadata failures included. |
| BlockStoreObjects.BlockStore.ReadBlock | src/worker/block_store.cpp:83-106 | The method over tier objects and cache manager is the read transition. |
| BlockStoreObjects.BlockStore.WriteBlock | src/worker/block_store.cpp:108-121 | The method over tier objects and cache manager is the write transition. |
| BlockStoreObjects.BlockStore.RemoveBlock | src/worker/block_store.cpp:123-139 | The method over tier objects and cache manager is the removal transition. |
| BlockStoreObjects.BlockStore.PromoteBlock | src/worker/block_store.cpp:141-177 | The method over tier objects and cache manager is the promotion transition. |
| BlockStoreObjects.ReportedLeft | src/worker/block_store.cpp:179-198 | The blocks reported as evicted are exactly those that left the store. |
| BlockStoreObjects.BlockStore.EvictBlocks | src/worker/block_store.cpp:179-198 | The method over tier objects and cache manager is the eviction transition, and reports the candidates that lived in the tier, in eviction order. |
| BlockStoreObjects.BlockStore.AutoPromote | src/worker/block_store.cpp:261-297 | The method over tier objects and cache manager is the auto-promotion transition. |
| BlockStoreObjects.BlockStore.AutoEvict | src/worker/block_store.cpp:299-322 | The method over tier objects and cache manager is the auto-eviction transition. |
| PageStores.CutKeeps | src/worker/page_store.h:22-31 | Taking an entry out of the list keeps all others, once each. |
| PageStores.InsertKeeps | src/worker/page_store.h:33-49 | A put never exceeds the bound and adds or replaces exactly the one entry. |
| PageStores.DiscardKeeps | src/worker/page_store.h:56-63 | An erase removes exactly the one key. |
| PageStores.PageReadKeeps | src/worker/page_store.cpp:10-45 | Reading a page through the cache gives what the backing store has, hit or miss, and keeps the cache true to it. |
| PageStores.CacheHoldsMostRecent | src/worker/page_store.h:22-49 | Whatever is read in whatever order, the cache holds exactly the most recently read pages, as many as it may. |
| PageStores.PrefetchKeeps | src/worker/page_store.cpp:62-83 | Prefetching keeps the bound and the truth of every cached page. |
| PageStores.PrefetchCaches | src/worker/page_store.cpp:62-83 | A prefetch that fits drops nothing, and afterwards exactly those pages of the range are cached that the backing store has. |
| PageStores.EvictKeeps | src/worker/page_store.cpp:85-88 | Eviction keeps the bound and the truth of every cached page. |
| PageStores.EvictForgetsOldest | src/worker/page_store.cpp:85-88 | Evicting n pages leaves exactly the most recently read ones, n fewer, or none. |
| PageStores.InvalidateKeeps | src/worker/page_store.cpp:90-107 | Invalidation removes every cached page of the file and no other. |
| PageStores.CacheIsTransparent | src/client/cache/cache_client.cpp:8-46 | A read through the cache answers exactly as one straight from the backing store, for every fetcher, failing ones included. |
| PageStores.DirectIsSlice | src/client/cache/cache_client.cpp:8-46 | For a file fetched page by page a read returns exactly the bytes of the range that the file has. |
| PageStores.DirectStopsAtFailure | src/client/cache/cache_client.cpp:8-46 | A read that meets a page that cannot be fetched returns what comes before it, and fails with its status only if nothing does. |
| PageStores.WithoutFetcher | src/worker/page_store.cpp:10-45 | Without a fetcher every read of something answers Internal. |
| PageStores.RunsAreTransparent | src/client/cache/cache_client.cpp:8-50 | Over any mix of reads, prefetches, evictions and invalidations every read answers as if there were no cache, and the bound holds. |
| PageStores.LruCache.Get | src/worker/page_store.h:22-31 | A hit returns the value and makes the entry the newest. |
| PageStores.LruCache.Put | src/worker/page_store.h:33-49 | A put replaces the entry or drops the oldest one when full, list and table in step. |
| PageStores.LruCache.Erase | src/worker/page_store.h:56-63 | An erase takes the entry out of list and table. |
| PageStores.LruCache.EvictN | src/worker/page_store.h:77-87 | The loop drops the oldest entries and returns their keys in order. |
| PageStores.PageStore.ReadPage | src/worker/page_store.cpp:10-45 | The method is the cached page read, and returns what the backing store has. |
| PageStores.PageStore.PrefetchPages | src/worker/page_store.cpp:62-83 | The loop is the prefetch transition. |
| PageStores.PageStore.EvictPages | src/worker/page_store.cpp:85-88 | The method is the eviction transition. |
| PageStores.PageStore.InvalidateFile | src/worker/page_store.cpp:90-107 | Erasing the indexed pages one by one is removing the file's pages from the list. |
| PageStores.CacheClient.ReadCached | src/client/cache/cache_client.cpp:8-46 | The copying loop returns what an uncached read would. |
| FileClients.ReadsPrefix | src/client/file_system_client.cpp:280-326 | Whatever is missing or fails, the bytes read are a contiguous prefix of the range; with nothing missing they are the whole range. |
| FileClients.ReadStopsAt | src/client/file_system_client.cpp:295-325 | At the first round that fails, a failed lookup is an error, and a lost call ends the read with what came before. |
| FileClients.OffsetsWrap | src/common/types.h:37-40 | Every position in a file addresses the same block and offset as the position modulo 2^50. |
| FileClients.WriteOverwrites | src/client/file_system_client.cpp:348-392 | A write whose range modulo 2^50 lies within the stored bytes, over however many blocks, replaces exactly those bytes; past the largest file it starts over. |
| FileClients.WriteTakes | src/client/file_system_client.cpp:348-395 | How many bytes are taken of any write that starts within the stored bytes or right after them, and what the file then holds: everything, unless the write would have to grow a block that is not full; then what lies before that block. |
| FileClients.WriteBeyond | src/client/file_system_client.cpp:348-395 | A write past the end is taken whole if it starts on a block boundary and otherwise not at all. |
| FileClients.AppendExactly | src/client/file_system_client.cpp:348-395 | An append writes everything if the file ends with a full block, and otherwise nothing, with status Ok. |
| FileClients.WriteAtOffset | src/client/file_system_client.cpp:348-395 | A write to blocks that do not exist yet goes through whole if it starts on a block boundary, and not at all otherwise. |
| FileClients.WriteStopsAt | src/client/file_system_client.cpp:348-395 | At the first round that fails, a failed lookup is an error without a count; a lost call ends the write with what was done before and no error; so does a lost reply, although that piece has arrived. |
| FileClients.StoredLengths | src/client/file_system_client.cpp:348-392 | A stored file occupies exactly the counted blocks with the lengths of the block arithmetic. |
| FileClients.FirstWrite | src/client/file_system_client.cpp:328-396 | The first write to a file without blocks goes through if and only if the write created the file and was given a worker, and starts on a block boundary; for a file created earlier it is Unavailable. |
| FileClients.NoWorkerAnswers | src/client/file_system_client.cpp:358-377 | Without blocks and worker a write is Unavailable or, if a lookup fails, an error; block 0 is asked for as well unless it is the one written. |
| FileClients.ReadsRecorded | src/client/file_system_client.cpp:280-326 | With a recorded size within the stored bytes every read returns what the range has of that many bytes. |
| FileClients.ReadsExactlyWhen | src/client/file_system_client.cpp:280-326 | All reads of a stored file are exact if and only if the recorded size is its length, or lies past it with all blocks full and no index wrapping. |
| FileClients.ReadsZeros | src/client/file_system_client.cpp:280-326 | A recorded size past the length shows zeros up to the end of a block that is not full. |
| FileClients.WriteReadRoundTrip | src/client/file_system_client.cpp:280-396 | What a write that creates its file stores is read back up to the size the master has recorded, and exactly, at every offset and size, if and only if that size serves. |
| FileClients.WriteSparesOthers | src/client/file_system_client.cpp:348-392 | Whatever happens on the network, writing one file touches no block of another. |
| FileClients.FileSystemClient.ReadFile | src/client/file_system_client.cpp:280-326 | The loop over blocks is the read transition, clipped to the recorded size, including every early exit. |
| FileClients.FileSystemClient.WriteFile | src/client/file_system_client.cpp:328-396 | The loop over blocks is the write transition, including the choice of worker and every early exit; the recorded size is not touched. |
| FileLifetimes.CompleteRecords | src/master/inode_tree.cpp:365-405 | Completing a file makes the master answer its path with the new size, if and only if the commit succeeds, and changes no other answer. |
| FileLifetimes.CreateWriteCompleteRead | src/client/file_system_client.cpp:280-396 | A file is created and written: until someone completes it every read is empty; once completed with some size, every read returns exactly what was written if and only if that size serves. |
| FileLifetimes.CreatedEarlierIsStuck | src/client/file_system_client.cpp:328-377 | A file that was created before the write and has no blocks yet cannot be written: the write is Unavailable and changes nothing. |
| WorkerCalls.PutIsEnsureThenWrite | src/worker/worker_service_impl.cpp:38-62 | On the block-store model with one memory tier and room, ensuring a block and then writing it does to the stored bytes what the client model says. |
| MountTables.LastMatchIsLongest | src/master/mount_table.cpp:149-168 | In path order the last mount that covers a path is the longest one that does. |
| MountTables.RelativeRestores | src/master/mount_table.cpp:153-165 | Mount path, at most one slash and relative path concatenate to the path. |
| MountTables.LongestUnique | src/master/mount_table.cpp:145-172 | The longest covering mount is unique. |
| MountTables.CoversSpelled | src/master/mount_table.cpp:149-153 | A spelled mount path covers a spelled path if and only if its names are the first names of the path. |
| MountTables.CoversRoot | src/master/mount_table.cpp:149-153 | The root covers exactly what starts with a slash. |
| MountTables.CoversByNames | src/master/mount_table.cpp:149-165 | Between properly spelled paths covering is being a prefix name by name, and the relative path names what is left. |
| MountTables.ResolvesByNames | src/master/mount_table.cpp:145-172 | With properly spelled mounts, resolution finds the mount with the longest list of names that the path starts with, and fails if and only if the path starts with the names of none. |
| MountTables.MountTable.Resolve | src/master/mount_table.cpp:145-172 | The backward scan returns the longest covering mount with the relative path, and fails if and only if none covers. |
| MountTables.MountTable.MountAt | src/master/mount_table.cpp:75-125 | A mount is refused without effect or enters table and database; the two stay in step, and all mount paths stay non-empty if and only if the new one is. |
| MountTables.NamedIs | src/master/mount_table.cpp:47-73 | A table has no empty mount path if and only if what it was loaded from has none. |
| MountTables.MountTable.Unmount | src/master/mount_table.cpp:87-143 | An unmount is refused without effect or leaves table and database; the two stay in step. |
| MountTables.MountTable.LoadFromDb | src/master/mount_table.cpp:47-73 | Loading enters exactly the database's usable mounts. |
| MountTables.ReloadRestores | src/master/mount_table.cpp:47-73 | A table loaded from the database of a running table is that table. |
| BlockMasters.AddKeeps | src/master/block_master.cpp:21-42 | Adding a location keeps both maps one relation, puts a new pair at the end of its list, and of a known pair changes nothing but the tier. |
| BlockMasters.RemoveKeeps | src/master/block_master.cpp:44-64 | Removing a location removes exactly the one pair, and a list left empty. |
| BlockMasters.RemoveWorkerKeeps | src/master/block_master.cpp:66-87 | Removing a worker removes exactly its pairs; the other entries stay in their order. |
| BlockMasters.RemoveBlockKeeps | src/master/block_master.cpp:89-102 | Removing a block removes exactly its pairs. |
| BlockMasters.KeptBlocksSurvive | src/master/file_system_master.cpp:90-111 | The blocks below a truncation keep their locations if and only if the old block count fits 24 bits. |
| BlockMasters.TruncateExactly | src/master/file_system_master.cpp:53-111 | As long as the block count fits 24 bits, truncating drops exactly the locations of the file's blocks past the new size, deleting those of all its blocks; every other block keeps its locations. |
| BlockMasters.AllOfConcat | src/master/block_master.cpp:6-19 | The answer for two lists of ids is the answer for the one followed by that for the other. |
| BlockMasters.AllOfOne | src/master/block_master.cpp:6-19 | The answer for one id is its list of locations. |
| BlockMasters.AllOfMembers | src/master/block_master.cpp:6-19 | The answer holds exactly the locations of the requested blocks. |
| BlockMasters.BlockMaster.GetBlockLocations | src/master/block_master.cpp:6-19 | The loop gives that answer. |
| BlockMasters.BlockMaster.AddBlockLocation | src/master/block_master.cpp:21-42 | The method is the addition; a known pair only changes its tier. |
| BlockMasters.BlockMaster.RemoveBlockLocation | src/master/block_master.cpp:44-64 | The method is the removal of one pair. |
| BlockMasters.BlockMaster.RemoveWorkerBlocks | src/master/block_master.cpp:66-87 | The loop is the removal of a worker. |
| BlockMasters.BlockMaster.RemoveBlockEverywhere | src/master/block_master.cpp:89-102 | The loop is the removal of a block. |
| FileMasters.DeleteSparesLocations | src/master/file_system_master.cpp:53-66 | After a deletion was asked for, a file that still exists has kept its block locations if and only if it was not the target or had none; it can be the target only if the commit failed. |
| FileMasters.FileSystemMaster.DeleteFile | src/master/file_system_master.cpp:53-66 | A file's block locations are dropped first, and the tree changes as the delete transition says. |
| FileMasters.FileSystemMaster.TruncateFile | src/master/file_system_master.cpp:90-111 | A missing path or a directory changes nothing; a file loses its locations past the new size and the tree changes as the resize transition says. |
| DataMovers.StepKeeps | src/worker/data_mover.cpp:33-116 | Every step of every thread keeps the tasks in order and in exactly one place each. |
| DataMovers.TasksAreConserved | src/worker/data_mover.cpp:33-116 | In every reachable state submitted tasks are queued, in flight or finished, each once; dequeues are in submission order; the counter counts those in flight. |
| DataMovers.WaitAllMeansDone | src/worker/data_mover.cpp:75-78 | When WaitAll gets through, every task submitted so far has finished exactly once. |
| DataMovers.QueuedIsTaken | src/worker/data_mover.cpp:90-116 | While the flag is up, a thread about to test it puts the first queued task in flight in two steps. |
| DataMovers.RunningCanFinish | src/worker/data_mover.cpp:33-116 | From any reachable state of a running mover with a thread, steps of the threads alone can finish every task submitted so far, once each. |
| DataMovers.StopEndsWork | src/worker/data_mover.cpp:80-88 | Once stopped, a worker already waiting takes at most one more task and no other takes any. |
| DataMovers.LastTake | src/worker/data_mover.cpp:90-116 | A thread that waits when the flag goes down takes a task if one is queued, and leaves if not. |
| DataMovers.StopLeavesQueue | src/worker/data_mover.cpp:80-116 | When all threads are gone what is still queued stays queued for good. |
| DataMovers.DrainedAfterStop | src/worker/data_mover.cpp:75-116 | After Stop a WaitAll gets through if and only if nothing was left, that is, if and only if every task has finished. |
| Journals.EntryRoundTrip | src/master/journal/journal_writer.cpp:17-44 | A serialized entry is read back unchanged. |
| Journals.EntryLayout | src/master/journal/journal_writer.cpp:17-29 | The fields lie at bytes 0, 8, 16 and 20 of an entry, and four bytes of length stand before it in the log. |
| Journals.TornTailReplay | src/master/journal/journal_writer.cpp:85-140 | Replaying any byte prefix of a log yields exactly the entries wholly contained in it. |
| Journals.FullReplay | src/master/journal/journal_writer.cpp:85-140 | A log is read back in full if and only if every entry fits in 64 MiB. |
| Journals.ReplayPrefix | src/master/journal/journal_writer.cpp:112-140 | Whatever follows a log, replay returns the entries of the log first. |
| Journals.TornTailMisreads | src/master/journal/journal_writer.cpp:85-140 | An entry appended behind any part of a torn frame is not read back when the payload lengths differ in the low byte. |
| Journals.TornTailHidesLater | src/master/journal/journal_writer.cpp:53-140 | Behind a log that ends with the first k bytes of a frame, everything appended later is replayed if and only if k is zero. |
| Journals.SessionIsReplayed | src/master/journal/journal_writer.cpp:53-140 | Over one open stream that starts from a whole log, replay returns exactly the entries whose append succeeded. |
| Journals.NextIsAbove | src/master/journal/journal_writer.cpp:53-67 | The next sequence number is the least one above every replayed number, unless the largest 64-bit number has been used. |
| Journals.JournalWriter.Replay | src/master/journal/journal_writer.cpp:112-140 | The loop reads frame by frame until the bytes run out or a length makes no sense. |
| Journals.JournalWriter.Open | src/master/journal/journal_writer.cpp:53-75 | Opening continues after the largest number replayed and clears the fail bit, unless the stream is open already, which sets it. |
| Journals.JournalWriter.Append | src/master/journal/journal_writer.cpp:85-102 | Appending adds one frame, or a torn part of it when the write fails; after a failure nothing more is taken until a reopen. |

## Left out

- gRPC services and clients, the channel pool, proto conversions, configuration, CLI, FUSE, metrics and logging: plumbing around the logic modelled here.
- RocksDB, POSIX files, malloc and the UFS backends: abstract maps and byte sequences that a call changes fully or not at all. Allocation and I/O failures inside a tier are not modelled.
- Locks and data races: every operation is one step, except in the data mover, whose critical sections interleave.
- Liveness of the data mover's condition variables: notifications are sent without the mutex, so only safety is stated. What a task does (`ExecuteTask`) is not modelled.
- `BlockStore::Recover`: a new tier starts empty and never rescans its files, so nothing is restored, although design/metadata-design.md speaks of rebuilding the index. Access and creation times in block metadata are not modelled.
- `RaftJournal` and `JournalWriter::Truncate`: skeletons that keep no order and drop nothing.
- `PageStore::WritePage`: dirty pages are never written back, so a read after eviction promises nothing.
- `WorkerManager`, `BlockMeta` serialization, `GetReplicaCount`, `GetWorkerBlocks`, `GetMountPoints`, `IsMountPoint`, idempotent `Mkdir` of the file system master: easy members.
- Block locations of files inside a recursively deleted directory stay in the index: `DeleteFile` cleans up only when the target itself is a file.
- Status messages, and which error a failed remote lookup returns.
- Inode ids and byte offsets are unbounded in the namespace and in the read and write loops; the 64-bit wrap of `next_id_`, of `used_bytes_` and of offsets is not modelled. Block ids, block counts, journal numbers and encoded fields have their machine widths, and integers in memory are little-endian.
- The watermarks are reals: rounding of the usage quotient in double precision is not modelled.
- Several workers behind one client: locations name a single worker, and a write goes to it.
- InodeTrees.InodeTree.CollectSubtreeForDeletion: the list of directory ids it also fills is not modelled, because no caller uses it.
- CacheManagers.CacheManager.GetEvictionCandidates: the break on the reserved id 0 is not modelled, because a valid manager never tracks it.
- BlockStoreObjects.BlockStore.constructor: two tiers of one type are excluded, because lookups by type would only ever find the first; so is an empty list, because taking its front is undefined.
- BlockStoreObjects.BlockStore.CreateBlock: block id 0 is excluded, because it is reserved for "no block".
- BlockStoreObjects.BlockStore.EnsureBlock: block id 0 is excluded for the same reason.
- BlockStoreObjects.BlockStore.ReadBlock: a read that starts behind the end of a memory block is excluded, because the copy length underflows there.
- StorageTiers.StorageTier.ReadBlock: the same, for memory tiers.
- FileClients.FileSystemClient.ReadFile: the same, for the block a read starts in.
- WorkerCalls.PutIsEnsureThenWrite: the store has one memory tier with room; with disk tiers a write past a block's end extends its file instead of being refused, and with eviction blocks disappear.
- PageStores.LruCache.Put: a cache for no pages at all is excluded, because a put would take the front of an empty list.
- MountTables.MountTable.Resolve: an empty mount path is excluded, because taking its last character is undefined; `MountTables.MountTable.MountAt` says when one gets in.
- FileMasters.FileSystemMaster.TruncateFile: a block size of zero is excluded, because the block count would divide by it; the tree has a store, as the master always gives it one.
- FileMasters.FileSystemMaster.DeleteFile: the same.
- FileClients.WriteReadRoundTrip: the worker is one with room, where nothing is evicted; `FileClients.ReadsPrefix` covers blocks that went missing.
- Journals.JournalWriter.Append: bytes still in the stream's buffer count as written; a crash that loses them is a torn tail, which `Journals.TornTailReplay` covers.
- The design document describes master metadata as memory-only and its persistence as future work; the model follows the code, which persists it.
