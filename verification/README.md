# FAT driver and scull pipe: a verified model

This project models the FAT12/16/32 file system driver in `C/myfat` (a copy of the Linux 2.6.32 one) and the scull pipe
device in `ATS/scull/pipe.c`, and proves what their operations keep. Verify it with `dafny verify dfyconfig.toml`.

The on-disk format is that of Microsoft's "FAT32 File System Specification" (FATGEN 1.03), sections "FAT Data Structure",
"FAT Directory Structure" and "FAT Long Directory Entries".

## How it is built

Each layer refines the one below it.

* `FatTable`: the FAT as bytes in device blocks, and the cursor (`struct fat_entry`) the driver moves over it. 12-bit
  entries that straddle two blocks, 16-bit ones, and 32-bit ones with four reserved bits all refine one table of integers.
* `FatMirror`: the backup copies, and which blocks of them disagree with the primary copy.
* `FatChains`: the theory of that table: chains, free counts, the allocator's cyclic scan, linking and releasing.
* `FatVolume`: the class `Volume` with the buffers, `prev_free` and `free_clusters`; the allocator, the chain release, the
  free counter, mirroring and buffer collection, statement by statement. Reads and write-outs may fail at any point; each
  failure is counted, so a contract can say what holds when there was none. `Directory` and `InodeHash` count theirs too.
* `ClusterWalk`, `ExtentCache`: the plain walk along a chain (as `ATS/myfat/fat_cache.c` has it) and the class `FatInode`
  whose LRU cache of extents must agree with it.
* `ChainLedger`, `Files`: the ledger of which clusters each file owns, the safety argument over all runs, and the class
  `FileSystem` whose growing, cutting and truncating methods are steps of that ledger.
* `BlockMap`: `fat_bmap` and `__fat_get_block` on top of it.
* `DirSlots`, `Directory`, `DirLaws`, `DirScan`: directories as slots in blocks: free-run search, adding, removing, lookup.
* `LongNames`, `NameText`, `ShortNames`, `MsdosNames`: long name slots, translation of names, the alias of a long name,
  and 8.3 names under msdos.
* `AliasNames`, `AliasLaws`: what the names with tails look like, whether the search for one ends in a directory, and
  whether the one found is the only one.
* `InodeHash`: the inode table keyed by directory entry position, and what a rename does to it.
* `FatTime`: the packed timestamps.
* `ScullPipe`, `ScullRuns`: the ring buffer, and every interleaving of threads that use it.

`FatDefs` holds constants and small types, `Arithmetic` facts about quotients.

## What does not hold of the code

* **`fat_add_cluster` can release a cluster that the file already has.** If a write fails after the new link was put into
  the buffer, `fat_ent_write` reports an error (`C/myfat/fatent.c:399-413`) and `fat_add_cluster` frees the cluster
  (`C/myfat/inode.c:51-53`) although the chain points to it. Once the link is put and the call fails, this happens if and
  only if the release can read the entry (`Files.FileSystem.AddCluster`, result `broken`): the file can then not be read
  to its end (`Files.SnatchedBreaks`; on a table of two clusters, `Files.SnatchedExample`), and the other files are in
  order. In every other case, read failures included, no file is damaged. `fat_add_entries` has the same early release
  after `fat_chain_add` (`C/myfat/dir.c:1350-1354`); there it is not modelled.
* **`fat_add_entries` miscounts over an unreadable block.** Its search steps over a block that fails to read without ending
  the run of free slots, and then counts back from where it stands (`C/myfat/dir.c:1264-1284`, `C/myfat/dir.c:1297`). The
  entries still go to free slots only, but they are consecutive if and only if no unreadable block was skipped inside the
  run and the end was really reached (`DirLaws.AddContiguousIff`).
* **The removal after a failed addition can remove other slots.** Once the run holds entries, the removal frees them if and
  only if the search skipped no block inside the run and the removal skips none of its slots; otherwise it marks some slot
  deleted that is none of them (`DirLaws.UndoFreesIff`), and after a gap in the run the first of the new entries stays,
  whatever the removal can read (`DirLaws.GapLeavesFirst`). A slot in use is lost in a directory whose middle block can
  be read again (`DirLaws.UndoDestroysEntry`), and in the same one when it still cannot (`DirLaws.UndoDestroysNext`).
* **`fat_remove_entries` can remove a slot of the next entry.** Its second stage looks for the remaining slots by counting,
  over blocks that can be read (`C/myfat/dir.c:966-999`). It removes exactly the entry if and only if none of the slots it
  looks for lies in a block it cannot read (`Directory.RemoveExactIff`; an input that fails, `DirLaws.RemoveHitsNeighbour`).
  An entry that was added over a gap keeps its first slot when it is removed again, whatever can be read then
  (`DirLaws.RemoveOverGap`); a rename that is undone makes that call (`C/myfat/namei_vfat.c:1019`).
* **`fat12_ent_next` asks for buffers it has.** On FAT16 and FAT32 a step asks for a read exactly when the next entry lies in
  another block. On FAT12 it also asks when the next entry ends with the last byte of the buffer held
  (`FatTable.EntNextMore`; entry 339 of a table in 512-byte blocks, `FatTable.EntNextAsksAgain`).
* **`fat_get_block` refuses to extend a file whose allocated size is not whole blocks.** Loading an inode and truncating set
  that size to the size in bytes (`C/myfat/inode.c:390`, `C/myfat/file.c:346-347`). Unless a caller rounds it up first,
  which is not part of this model, every block behind it is refused with EIO (`BlockMap.GetBlock`).
* **The last loop of `vfat_create_shortname` need not end.** A call does not return if and only if the name is to get a tail
  and all 65545 names tried are taken (`AliasNames.NeverReturnsIff`). For every name not of 8.3 form there is a directory in
  which that is so (`AliasLaws.BlockedNeverReturns`; for the name "+", `AliasLaws.PlusSignNeverReturns`). It takes 65544
  short entries (`AliasLaws.EntriesNeeded`), more than `FAT_MAX_DIR_SIZE` has slots: a directory that began with fewer than
  65536 slots and was changed by this driver alone, in steps that could read it whole, never has them
  (`AliasLaws.SearchEnds`).
* **An alias can be given out twice.** `fat_scan` sees the slots it can read. The alias it did not find is the only one of
  its name in the directory if and only if no slot it could not read has it (`AliasLaws.CreatedUniqueIff`; an input that
  fails, `AliasLaws.UnseenDuplicate`).
* **A tail can leave something behind it.** With a short tail the name is the cut base, the tail and the extension if and only
  if the base has at most six bytes or the cut keeps five of them (`AliasNames.DigitNameIff`): otherwise bytes of the
  character across the cut stay behind the tail (`AliasNames.ShortTailExample`). With a long tail it is if and only if the
  first character has at most two bytes or the base at most four (`AliasNames.TailNameIff`): otherwise byte 6 keeps a byte of
  the base or of the tail ~9 tried before (`AliasNames.LongTailExample`). The driver loads `cp` tables only
  (`C/myfat/inode.c:1477`, tables that are not part of this model); where none of their characters takes more than two
  bytes both names are always as meant (`AliasNames.TailsExact`).

## Model

| member | source | states |
|---|---|---|
| FatTable.DecodeEncode | C/myfat/fatent.c:120-196 | a value survives being stored and read back if and only if it is the end mark or lies below the bad-cluster mark |
| FatTable.LocateBytes | C/myfat/fatent.c:24-118 | the pointers of a placed cursor address exactly the bytes of its entry inside the primary copy, for entries in one block and for those across two |
| FatTable.EntGetRefines | C/myfat/fatent.c:120-154 | reading through a placed cursor gives the abstract entry, for all three widths |
| FatTable.EntNextRefines | C/myfat/fatent.c:198-250 | a step inside the buffers held lands where locating the next entry from scratch would |
| FatTable.EntNextMore | C/myfat/fatent.c:198-250 | exactly when a step stays in the buffers held, for all three widths, and exactly when FAT12 asks again for the buffer it has |
| FatTable.EntNextAsksAgain | C/myfat/fatent.c:198-222 | a FAT12 table and an entry for which the buffer held is asked for again |
| FatTable.EntPutRefines | C/myfat/fatent.c:156-196 | a put changes its entry to the value put, keeps every other entry bit for bit, and keeps the reserved top bits of a FAT32 entry |
| FatTable.EntPutFrame | C/myfat/fatent.c:156-196 | a put changes no block but those whose buffers the cursor holds |
| FatTable.AddressInjective | C/myfat/fatent.c:24-42 | different byte offsets of the table lie at different addresses |
| FatTable.EntryBits | C/myfat/fatent.c:24-42 | entry e begins with bit 12e, 16e or 32e of the table |
| FatTable.StoreTableBytes | C/myfat/fatent.c:156-196 | storing inside one block changes exactly those bytes of the table |
| FatMirror.BackupInjective | C/myfat/fatent.c:368-397 | no two pairs of primary block and copy number share a sector |
| FatMirror.MirroredInSync | C/myfat/fatent.c:368-397 | a block copied to every backup is in step with all of them |
| FatMirror.FatFromPrimary | C/myfat/fatent.c:368-397 | bringing backups up to date does not change the table that is read |
| FatMirror.EntryInCopy | C/myfat/fatent.c:368-397 | an entry whose blocks are in step reads alike in every copy of the table, each read at its own place on the disk |
| FatMirror.SyncedCopiesAgree | C/myfat/fatent.c:368-397 | with all blocks in step every copy read for itself is the table |
| FatMirror.PutUnsynced | C/myfat/fatent.c:156-196 | a put can bring only its own buffers out of step with the backups |
| FatChains.ChainDistinct | C/myfat/cache.c:217-274 | a chain that ends visits no cluster twice |
| FatChains.ChainUnique | C/myfat/cache.c:217-274 | chains with the same first cluster are the same |
| FatChains.SharedSuffix | C/myfat/cache.c:217-274 | chains that share one cluster share everything behind it |
| FatChains.VisitInjective | C/myfat/fatent.c:478-518 | the cyclic scan looks at no entry twice, across the wrap at the end of the table |
| FatChains.VisitComplete | C/myfat/fatent.c:478-518 | the cyclic scan leaves no entry out |
| FatChains.FullScan | C/myfat/fatent.c:478-518 | a complete scan meets every free entry once, as many as there are |
| FatChains.NextFit | C/myfat/fatent.c:478-518 | the first entry taken is the nearest free one above prev_free, or the lowest of all when there is none above |
| FatChains.LinkSpec | C/myfat/fatent.c:488-506 | the entries the allocator put form one chain in the order taken, end-terminated, and nothing else has changed |
| FatChains.UnlinkRestores | C/myfat/fatent.c:534-541 | releasing what was just linked restores the table exactly |
| FatChains.TakenCount | C/myfat/fatent.c:478-518 | the allocator takes no more entries than were free, and all of them when it looked at every entry |
| FatChains.ReleaseAlongChain | C/myfat/fatent.c:544-616 | a release that starts on a chain runs along it, and can stop early only through a failing device |
| FatChains.RollBackPath | C/myfat/fatent.c:534-541 | undoing an allocation releases entries along the chain just built and no others |
| FatChains.RollBack | C/myfat/fatent.c:534-541 | whatever part of an allocation is undone, entries in use before keep their values; a complete undo restores the table |
| FatChains.FreeAllCount | C/myfat/fatent.c:581-585 | after all free entries were taken, what a partial undo released is all that is free |
| FatVolume.CountTracks | C/myfat/fatent.c:500-504 | counting one entry taken or freed keeps a right free count right and cannot wrap around |
| FatVolume.Volume.MirrorBhs | C/myfat/fatent.c:368-397 | after success all listed blocks agree with every backup, and when no others were out of step every copy reads as the table; a failure leaves the table as read unchanged |
| FatVolume.Volume.EntReadAt | C/myfat/fatent.c:341-366 | the value of an entry in range, with the cursor on it, or an error; an out-of-range entry is an error without a read |
| FatVolume.Volume.EntWrite | C/myfat/fatent.c:399-413 | the entry is stored even when a later sync or mirror fails; on success every copy of the table has it, and every copy reads as the table if it did before |
| FatVolume.Volume.CollectBhs | C/myfat/fatent.c:437-453 | the list keeps its buffers and gets those of the cursor that it does not have, each once |
| FatVolume.Volume.MakeRoomAndCollect | C/myfat/fatent.c:587-600 | the array of eight never overflows: when there might be no room what was collected is mirrored first |
| FatVolume.Volume.FreeClusters | C/myfat/fatent.c:544-621 | on any table, cyclic or cross-linked, it ends; it frees distinct entries along the links, exactly a whole chain when it succeeds; the free count stays right, and after success every copy of the table has the entries free |
| FatVolume.Volume.AllocClusters | C/myfat/fatent.c:455-542 | on success distinct entries, free before, first in scan order, linked in order and end-terminated in every copy of the table, everything else unchanged; on failure no entry in use has changed, and a rollback that gets through restores the table; out of space only if there is too little; prev_free stays in range and a right free count stays right |
| FatVolume.Volume.CountFreeClusters | C/myfat/fatent.c:636-679 | without a valid count it sets the true number of free entries, or leaves the count alone when a read fails |
| ClusterWalk.WalkFromMiddle | ATS/myfat/fat_cache.c:102-157 | a walk may begin at any point it passes and ends the same way |
| ClusterWalk.WalkAlongChain | ATS/myfat/fat_cache.c:102-157 | on a chain the walk to position k finds its k-th cluster, or stops on the last one past the end |
| ClusterWalk.AtFrame | C/myfat/cache.c:217-274 | positions before n depend on the first n - 1 links only |
| ExtentCache.MoveToFrontOk | C/myfat/cache.c:73-78 | using an extent keeps the cache invariant and how far the extents reach |
| ExtentCache.SameStart | C/myfat/cache.c:117-132 | truthful extents with one first position have one first cluster: the BUG_ON in the merge cannot fire |
| ExtentCache.Disjoint | C/myfat/cache.c:263-268 | truthful extents do not overlap |
| ExtentCache.AddedOk | C/myfat/cache.c:134-173 | merging, inserting and evicting keep the extents truthful, distinct and at most eight |
| ExtentCache.FatInode.Lookup | C/myfat/cache.c:80-115 | the answer is the extent that covers the position or the closest one before it, moved to the front |
| ExtentCache.FatInode.Merge | C/myfat/cache.c:117-132 | the extent with that first position is found and grows to the longer of the two lengths |
| ExtentCache.FatInode.Add | C/myfat/cache.c:134-173 | the list becomes the one with the extent added, unless the cache was invalidated since the lookup |
| ExtentCache.FatInode.GetClusterUncached | ATS/myfat/fat_cache.c:102-157 | the loop of the driver without a cache computes the walk |
| ExtentCache.FatInode.GetCluster | C/myfat/cache.c:217-274 | for every table, cache and target the cached lookup gives the position, cluster and kind of end of the plain walk and keeps the cache truthful; it reads no entry for a position some extent knows, no more than the way from one that is known, and at most limit + 2 even on a cycle; where the walk ended is known afterwards |
| ChainLedger.StepSound | C/myfat/inode.c:42-55 | growing, cutting and giving up each keep every file's clusters one chain and the files disjoint |
| ChainLedger.RunSound | C/myfat/file.c:266-333 | from a sound state every state that any sequence of operations reaches is sound |
| ChainLedger.RunAccounted | C/myfat/file.c:266-333 | while nothing fails, every state that a sequence of operations reaches leaks no cluster: an entry is free exactly when no file has it |
| ChainLedger.GrownAccounted | C/myfat/misc.c:85-143 | growing by a free cluster leaks nothing |
| ChainLedger.ShrunkAccounted | C/myfat/file.c:266-333 | a shrink that released all it cut off leaks nothing |
| ChainLedger.JoinedSound | C/myfat/misc.c:85-143 | hanging an orphan chain on a file keeps the files sound |
| ChainLedger.TailOrphan | C/myfat/file.c:294-329 | what a file is cut off from is a chain that no file has |
| ChainLedger.LastReleased | C/myfat/inode.c:51-53 | once the last cluster of a file is released under it no whole chain begins at its first cluster |
| Files.CacheFrame | C/myfat/file.c:274-329 | extents that end before the cut stay truthful when the links behind it change |
| Files.FileGrown | C/myfat/misc.c:85-119 | growing a file keeps its cached extents truthful |
| Files.LastCluster | C/myfat/misc.c:97-106 | walking as far as possible ends on the last cluster unless the file is longer than allowed |
| Files.FileSystem.ChainAdd | C/myfat/misc.c:85-143 | the file's chain goes on with the new clusters, or nothing has changed; every other file and cache is in order; an error with the link put takes a failed write and one without it a failed read or a chain over the limit, so without failures it succeeds; the first cluster of an empty file goes into i_start and i_logstart, which else stay; i_blocks grows by the clusters, and the cache is dropped if it did not fit the chain and only then |
| Files.FileSystem.AddCluster | C/myfat/inode.c:42-55 | one more cluster for the file, a sound step whatever fails, except in one case given exactly; without failures it succeeds if and only if an entry is free, and fails with ENOSPC alone; i_start and i_logstart follow the chain, and i_blocks still counts its clusters unless a write failed after the link |
| Files.SnatchedBreaks | C/myfat/inode.c:51-53 | a file whose new cluster was released under it has no whole chain any more |
| Files.SnatchedExample | C/myfat/inode.c:51-53 | a table, a file and the outcome in which that happens |
| Files.FileSystem.CutAt | C/myfat/file.c:294-320 | the file ends after n clusters and the rest is an orphan chain, or nothing has changed; without failures it is cut exactly when it was longer |
| Files.FileSystem.FreeAfter | C/myfat/file.c:266-333 | the first skip clusters stay; whatever fails, no file is damaged; without failures everything behind them is free, and i_blocks counts what is left; i_start and i_logstart are cleared exactly when no cluster is left |
| Files.FileSystem.Truncate | C/myfat/file.c:335-353 | the file keeps exactly the clusters its size needs, in a sound step; without failures all those behind them are free again and i_blocks counts the ones left; i_start and i_logstart follow the chain; the allocated size is brought down |
| BlockMap.Consecutive | C/myfat/fat.h:196-201 | the rest of a cluster is physically consecutive |
| BlockMap.SectorsNeverShared | C/myfat/fat.h:196-201 | no device sector belongs to two files or to one file twice |
| BlockMap.InDataArea | C/myfat/fat.h:196-201 | file sectors lie behind the table copies and the root directory, and before the end of the last cluster |
| BlockMap.ClusterOrder | C/myfat/fat.h:196-201 | the data area begins with cluster 2, and each cluster is followed by the next |
| BlockMap.EverySector | C/myfat/fat.h:196-201 | every sector of the data area belongs to the cluster that counting from its start gives |
| BlockMap.BmapCluster | C/myfat/cache.c:276-293 | the cluster at a position of the file, 0 for a file without clusters, an error past its end |
| BlockMap.Bmap | C/myfat/cache.c:295-342 | each sector within the size maps to its place in its cluster with a run that is physically consecutive; sectors past the size map to nothing; the fixed root directory is mapped directly |
| BlockMap.SizesExtended | C/myfat/inode.c:57-107 | after extending, the clusters are just enough for the allocated size, and the block asked for is inside it |
| BlockMap.TruncatedSizes | C/myfat/file.c:335-353 | the sizes and clusters a truncation leaves meet what mapping and extending ask of them |
| BlockMap.GetBlock | C/myfat/inode.c:57-107 | an existing block is mapped, with the exact run length; the block at the end is allocated and mapped when asked for, without failures exactly when there is a free cluster or none is needed; a block past the end is not mapped, or refused, and any behind an allocated size that is not whole blocks is refused; both BUG_ONs are proved not to fire; i_start, i_logstart and i_blocks follow the chain |
| DirSlots.FindRunOk | C/myfat/dir.c:1259-1293 | whatever blocks fail to read, the search ends with free slots in directory order, as many as wanted unless it came to the end |
| DirSlots.ContiguousIff | C/myfat/dir.c:1295-1298 | counting back from where the search stopped gives the slots found if and only if no unreadable block was skipped inside the run |
| DirSlots.FirstFit | C/myfat/dir.c:1259-1293 | in a readable directory the search takes the first place with enough free slots, or every free slot at the end when there is none |
| Directory.Dir.GetEntry | C/myfat/dir.c:78-126 | the next slot of the held buffer, or the first slot from the position on in a block that can be read |
| Directory.Dir.FindFree | C/myfat/dir.c:1259-1293 | the search as specified, with the buffers of the run noted in order; three buffers are always enough |
| Directory.Dir.FillRun | C/myfat/dir.c:1299-1332 | entry k of the run holds slot k of the new entry and nothing else has changed, however far it came; it fails only if a write-out failed |
| Directory.Dir.RemoveRun | C/myfat/dir.c:966-999 | it succeeds if and only if nothing fails and the slots met from the position on lie inside what is mapped: then exactly those are marked deleted, and otherwise some of them only |
| Directory.Dir.ZeroedCluster | C/myfat/dir.c:1053-1100 | the blocks of the cluster behind the used ones are zero, unless getting a buffer or a write-out fails |
| Directory.Dir.AddNewEntries | C/myfat/dir.c:1167-1245 | the new clusters, at most two and no more than needed, hold the entries and then zeros, unless something fails |
| Directory.Dir.AddEntries | C/myfat/dir.c:1247-1379 | it succeeds if and only if nothing fails and the search leaves a place: a directory too large, a full root of fixed size and a directory without a start are refused, each with its error, and nothing is changed; on success the entries are in the free slots found and at the start of new clusters, the rest of those zero, all other slots unchanged; after a failure the directory is unchanged or as the removal left it |
| Directory.Dir.RemoveEntries | C/myfat/dir.c:1001-1049 | whatever slot the entry is said to begin at: the slots from its last one back to the start of the block are marked deleted whatever fails; the others are those the second stage meets, which comes to its end if and only if nothing fails and they lie inside what is mapped |
| Directory.StepsConsecutive | C/myfat/dir.c:966-999 | the slots met are consecutive if and only if none of the slots looked for lies in a block that cannot be read |
| Directory.RemoveExactIff | C/myfat/dir.c:1001-1049 | removing an entry marks exactly its slots deleted if and only if the second stage can read the block of each slot it looks for |
| DirLaws.AddKeepsInUse | C/myfat/dir.c:1247-1379 | whatever fails to read, adding changes no slot in use |
| DirLaws.AddContiguousIff | C/myfat/dir.c:1295-1298 | exactly when the slots of an added entry are consecutive |
| DirLaws.AddFirstFit | C/myfat/dir.c:1247-1379 | in a readable directory the entry lies at slotOff in consecutive slots that were free or new, in the first place with room, and all other slots are unchanged |
| DirLaws.UndoRestores | C/myfat/dir.c:1374-1378 | when the removal counts back to the run, a failed addition leaves every slot as it was, or free as it was |
| DirLaws.UndoFreesIff | C/myfat/dir.c:1374-1378 | whatever the two passes can read, the removal frees the slots written if and only if it counts back to them, and otherwise deletes another slot |
| DirLaws.StepsAreRunIff | C/myfat/dir.c:1374-1378 | the slots removed are those of the run if and only if the search skipped no block inside it and the removal skips none of its slots |
| DirLaws.GapLeavesFirst | C/myfat/dir.c:1374-1378 | after a gap in the run its first entry stays, whatever the removal can read |
| DirLaws.UndoDestroysEntry | C/myfat/dir.c:1374-1378 | a directory in which that removal, able to read everything, deletes a slot in use and leaves one of the new entries |
| DirLaws.UndoDestroysNext | C/myfat/dir.c:1374-1378 | the same with the block still unreadable: another slot in use is deleted |
| DirLaws.RemoveHitsNeighbour | C/myfat/dir.c:1001-1049 | an entry whose removal deletes a slot of its neighbour in place of one of its own |
| DirLaws.AddThenRemove | C/myfat/dir.c:1001-1049 | removing an entry that was added in consecutive slots leaves all other slots as they were and its own free |
| DirLaws.RemoveOverGap | C/myfat/dir.c:1001-1049 | an entry added over a gap keeps its first slot when it is removed, whatever the removal can read |
| DirScan.SameNameIff | C/myfat/dir.c:953 | against a name without zero bytes strncmp tells equality of all eleven bytes |
| DirScan.Scan | C/myfat/dir.c:945-962 | it finds a short entry if and only if one with the name can be read, and then the first |
| DirScan.ScanTells | C/myfat/dir.c:945-962 | in a readable directory the lookup fails if and only if no short entry has the name |
| DirScan.AddKeepsUnique | C/myfat/namei_vfat.c:659-693 | whatever can be read, adding an entry whose alias is not taken keeps short names unique |
| DirScan.AddUniqueIff | C/myfat/namei_vfat.c:659-693 | after an entry is added short names are unique if and only if none had its alias |
| DirScan.UnseenUniqueIff | C/myfat/namei_vfat.c:659-693 | where the lookup did not find the alias they are unique if and only if no slot it could not read has it |
| LongNames.LongSlotFields | C/myfat/fat.h:203-226 | a long name slot gives back the number, checksum and characters written to it; its type and first cluster are zero |
| LongNames.ChecksumTurns | C/myfat/fat.h:185-194 | the checksum turns the sum right by one bit, losing none, before each byte it adds |
| LongNames.HoldsMore | C/myfat/dir.c:308-315 | copying one more slot extends what the buffer holds, its flag ending the text behind its own characters |
| LongNames.ReadSlots | C/myfat/dir.c:292-327 | all the slots of the name are in place and the buffer holds their characters, or no long name begins here |
| LongNames.ParseOnce | C/myfat/dir.c:292-337 | one attempt from the label parse_long finds the long name that begins at the slot, or there is none |
| LongNames.ParseLong | C/myfat/dir.c:278-338 | what is returned is a long name at or after the current slot with its characters in the buffer, and one at the current slot is never missed |
| LongNames.BuildSlots | C/myfat/namei_vfat.c:616-640 | the slots of the name last row first, the first flagged, then the short entry; never more than 21 |
| LongNames.StoredIsLongName | C/myfat/namei_vfat.c:616-640 | slots as built, stored consecutively before a short entry, are a long name of exactly that many slots |
| LongNames.BuiltSpells | C/myfat/dir.c:308-315 | a buffer read from built slots holds the padded name and a terminator behind it |
| LongNames.StoredReadsBack | C/myfat/dir.c:278-338 | parsing built slots gives the padded name, its slot count, and reports all slots if the alias has its checksum |
| NameText.PaddedFacts | C/myfat/namei_vfat.c:563-577 | a padded name is whole slots, less than one longer than the name: the name, then a terminator, then 0xFFFF only |
| NameText.XlateToUni | C/myfat/namei_vfat.c:490-580 | the padded translation, at most 256 characters and 260 with padding; each error exactly when the translation has it |
| NameText.Uni16ToX8 | C/myfat/dir.c:138-180 | the bytes of the text, whole characters only, cut short only when the buffer runs full; with characters of at most six bytes the buffer has room for them and the terminator |
| NameText.TranslateWritten | C/myfat/dir.c:138-180 | with escapes on, a name without colons written out and translated again is the same name |
| NameText.TranslatePlain | C/myfat/dir.c:138-180 | with escapes off the characters the set has come back, and each of the others as a question mark |
| NameText.NameRoundTrip | C/myfat/namei_vfat.c:581-657 | every name of up to 256 characters: its slots added to a directory and parsed there give the same characters, slot count and short entry |
| ShortNames.SplitName | C/myfat/namei_vfat.c:323-357 | base and extension part at the last dot, unless it ends the name or only dots and spaces come before it |
| ShortNames.SplitUnique | C/myfat/namei_vfat.c:323-357 | that description of the split fits one split only |
| ShortNames.FormBase | C/myfat/namei_vfat.c:359-385 | the base is the first eight bytes of the name's short characters; the two cut positions are the lengths of the longest beginnings of whole characters within six and two bytes; whole, and what is noted about the characters, exactly |
| ShortNames.FormExt | C/myfat/namei_vfat.c:388-410 | the extension is the longest beginning of whole characters within three bytes; whole, and what is noted about the characters, exactly |
| ShortNames.FittingLongest | C/myfat/namei_vfat.c:359-410 | what fits ends between two characters, and every other beginning that fits is a beginning of it |
| ShortNames.EveryTail | C/myfat/namei_vfat.c:470-485 | stepping by 11 passes every one of the 65536 tails |
| ShortNames.TailsDistinct | C/myfat/namei_vfat.c:470-485 | different tails make different names |
| ShortNames.SearchTails | C/myfat/namei_vfat.c:470-485 | a name is found if and only if a tail is free, and it is the first free one in the order tried |
| ShortNames.SearchDigits | C/myfat/namei_vfat.c:459-468 | the first of the nine short tails that is free, those before it taken, or all are taken |
| ShortNames.SearchAlias | C/myfat/namei_vfat.c:455-486 | the first free short tail behind the cut base, or when all nine are taken the first free four-digit tail, or no return when all of these are taken too |
| ShortNames.CreateShortname | C/myfat/namei_vfat.c:306-486 | for every name: EINVAL exactly when no character is left; a name of 8.3 form gets its own form and the flags of its case, or EEXIST exactly when that is taken; any other gets the plain form where tails are switched off and it is free, or the first free tail; no return exactly when all tails are taken; a name made is usable, not taken, and keeps the extension |
| ShortNames.ShortFormWhole | C/myfat/namei_vfat.c:428-450 | a name of 8.3 form keeps all its bytes |
| AliasNames.ShortOnlyKeeps | C/myfat/namei_vfat.c:426-447 | a name that gets no long name slots is in its short entry whole: its bytes read as they are, or small where flagged, are those of the name |
| AliasNames.KeptShortOnly | C/myfat/namei_vfat.c:426-447 | an ASCII name of 8.3 form that can be read back so gets no long name slots |
| AliasNames.NoBadBytes | C/myfat/namei_vfat.c:256-300 | the characters of an alias are none of those short names may not have, and no small letters |
| AliasNames.DigitsCount | C/myfat/namei_vfat.c:479-480 | the four digits of a long tail are the number in upper case hexadecimal |
| AliasNames.DigitNameIff | C/myfat/namei_vfat.c:455-468 | exactly when a name with a short tail is the cut base, the tail and the extension and nothing else |
| AliasNames.TailNameIff | C/myfat/namei_vfat.c:470-485 | exactly when a name with a four-digit tail is the base cut at two bytes, the digits, the clock and the extension and nothing else |
| AliasNames.TailsExact | C/myfat/namei_vfat.c:455-485 | with characters of one and two bytes both names are always that |
| AliasNames.ShortTailExample | C/myfat/namei_vfat.c:459-468 | a character set and a name whose short tail has a byte behind it |
| AliasNames.LongTailExample | C/myfat/namei_vfat.c:470-485 | a name whose long tail has the ~ of a short one behind it |
| AliasNames.TriedDistinct | C/myfat/namei_vfat.c:455-485 | the 65545 names tried are different, but for one short tail that can make one of the long ones |
| AliasNames.NeverReturnsIff | C/myfat/namei_vfat.c:426-485 | exactly when the call does not return |
| AliasLaws.BlockedNeverReturns | C/myfat/namei_vfat.c:455-485 | for every name not of 8.3 form a directory in which the call does not return |
| AliasLaws.PlusSignNeverReturns | C/myfat/namei_vfat.c:455-485 | the name "+", a character set and a directory without repeated names in which it does not |
| AliasLaws.AllTailsNeedSlots | C/myfat/namei_vfat.c:470-485 | if every four-digit tail is taken the directory has at least 65536 slots |
| AliasLaws.EntriesNeeded | C/myfat/namei_vfat.c:455-485 | a call that does not return takes 65544 short entries in different slots |
| AliasLaws.ReusedBelow | C/myfat/dir.c:1259-1293 | free slots are reused below 65535 only, and a readable directory of 65536 slots or more is never found to need new clusters |
| AliasLaws.SearchEnds | C/myfat/namei_vfat.c:470-485 | over any sequence of additions that read the whole directory, of removals and of failed additions, from fewer than 65536 slots on, the search ends for every name |
| AliasLaws.CreatedUniqueIff | C/myfat/namei_vfat.c:306-486 | an alias made by asking the lookup is the only one of its name if and only if no slot the lookup could not read has it |
| AliasLaws.UnseenDuplicate | C/myfat/namei_vfat.c:306-486 | a directory with an unreadable block in which a second entry gets the same alias |
| MsdosNames.FormatName | C/myfat/namei_msdos.c:19-117 | the loops compute the eleven bytes or the refusal of the format function |
| MsdosNames.PrintName | C/myfat/dir.c:563-644 | the loops of the listing compute the printed name |
| MsdosNames.FormatPrintFormat | C/myfat/namei_msdos.c:19-117 | every accepted name: the listing prints a name that the same options accept and that formats to the same eleven bytes |
| MsdosNames.PrintParts | C/myfat/dir.c:563-644 | what a listing prints for stored parts, with 0xE5 restored and the dot of a hidden name |
| MsdosNames.FormatMeans | C/myfat/namei_msdos.c:19-117 | where base and extension begin and end, how many bytes of each are kept, and which names are refused |
| MsdosNames.StricterRefusesMore | C/myfat/namei_msdos.c:19-117 | a stricter check refuses more names and changes nothing of those it accepts |
| MsdosNames.EscapedShown | C/myfat/dir.c:563-644 | a listing takes the stand-in for 0xE5 off an alias again |
| InodeHash.Table.Attach | C/myfat/inode.c:277-287 | the inode has that position and is in its bucket; positions stay unique if none alive had it |
| InodeHash.Table.Detach | C/myfat/inode.c:289-297 | the inode is in no bucket, all others where they were |
| InodeHash.Table.Iget | C/myfat/inode.c:299-318 | an inode alive at the position if and only if there is one |
| InodeHash.Table.Build | C/myfat/inode.c:412-438 | the inode alive at the position whatever fails, or else a new one there unless something fails; never a second one alive there |
| InodeHash.Table.Rename | C/myfat/namei_msdos.c:524-630 | every step keeps at most one inode alive per position; it succeeds if and only if nothing fails, and then moves the inode; a failure leaves every inode at its original position |
| InodeHash.RenameMoves | C/myfat/namei_msdos.c:524-630 | after a rename the inode alone is at the new place, none is at the old one, and the others have not moved |
| FatTime.YearOfDay | C/myfat/misc.c:239-249 | dividing the day number by 365 and correcting once gives its year, leap days and the common year 2100 included |
| FatTime.MonthLengths | C/myfat/misc.c:171-174 | the months have the lengths of the Gregorian calendar, with its leap years from 1980 to 2107 |
| FatTime.MonthOfDay | C/myfat/misc.c:257-260 | the month loop finds the last month that begins on or before the day |
| FatTime.DateOfDay | C/myfat/misc.c:239-260 | year, month and day of a day number are an existing date that counts back to it |
| FatTime.Unix2Fat | C/myfat/misc.c:213-270 | the stamp is a date and time that exist, at the even second not after the time, with the rest in 10 ms steps; times out of range get the first or last stamp |
| FatTime.Fat2Unix | C/myfat/misc.c:177-210 | a stamp loads as the calendar counts it, and bits that name no day as the nearest reading |
| FatTime.RoundTrip | C/myfat/misc.c:177-270 | a time from 1980 up to 2108 comes back exactly, to 10 ms, or to the even second without the centisecond field |
| FatTime.DatesInOrder | C/myfat/misc.c:177-210 | packed dates are ordered as the days they name |
| FatTime.MomentsInOrder | C/myfat/misc.c:177-210 | packed stamps are ordered as the times they name, and different stamps name different times |
| FatTime.StampsMonotone | C/myfat/misc.c:213-270 | a later time never gets an earlier stamp, in range or out of it |
| ScullPipe.SpaceAccounted | ATS/scull/pipe.c:182-187 | used and free bytes make up the buffer but for one, and equal pointers mean an empty pipe |
| ScullPipe.ReadTakesFront | ATS/scull/pipe.c:138-150 | a read takes bytes from the front, and ends only with the request, with what waits, or at the end of the buffer |
| ScullPipe.WriteAppends | ATS/scull/pipe.c:205-219 | a write appends what it accepts, ends only with the request, with what is free, or at the end of the buffer, and never makes a pipe with bytes in it look empty |
| ScullPipe.FailedCopyHidden | ATS/scull/pipe.c:212-215 | bytes left behind by a copy that failed midway do not show |
| ScullPipe.Device.Take | ATS/scull/pipe.c:138-150 | the bytes handed out are the front of the contents, which keep the rest |
| ScullPipe.Device.Put | ATS/scull/pipe.c:205-219 | the bytes accepted come behind the contents; after a failed copy nothing shows |
| ScullRuns.StepKeeps | ATS/scull/pipe.c:119-227 | every step of every thread leaves at most one inside the semaphore, what it saw still true, and no byte lost or doubled |
| ScullRuns.RunFifo | ATS/scull/pipe.c:119-227 | over any interleaving what was read, and then what waits, is what waited at first and then what was written, until an open resets the pipe |

## Left out

* Kernel plumbing: module set-up, operation tables, page I/O, dentries, reference counts, spin locks and the buffer cache; a buffer is the current content of its block.
* The lock of the table is dropped before the rollback of a failed allocation; another allocation in that window is not modelled.
* The window in `fat_cache_add` between dropping and retaking the lock, and a failed allocation of a cache entry there; walks and truncation of one inode are taken to be serialised.
* The values of `<linux/msdos_fs.h>` are those of that header, which is not part of this model; the largest cluster number is required to stay below the bad-cluster mark, one less than the header's limit allows on FAT32.
* Shifts and masks by block and cluster sizes are written as `/` and `%`; that the sizes are powers of two is not used.
* Read-ahead, writing the FSINFO sector, and inode times.
* The discard request is a set of clusters handed to the device, without its block numbers.
* The 0 that the ATS walk returns at the end of a chain, where the cached one returns FAT_ENT_EOF: position and cluster are compared, and that the chain ended.
* Character sets: `char2uni`, `uni2char` and the case tables are parameters, with the properties the round trips need in their preconditions; the UTF-8 library routines are a parameter too.
* Multi-byte character sets in the 8.3 listing, and listing with `isvfat` on.
* `fat_search_long`, `fat_readdir`'s bookkeeping, and the other fields of a short entry.
* The repair of an odd directory size in `fat_add_entries`: a directory that can grow is whole clusters, as `fat_calc_dir_size` makes it.
* Directories are a sequence of slots; that their blocks are those `fat_bmap` maps is a parameter of each pass (how many are mapped, which fail to read), and `fat_chain_add` inside `fat_add_entries` is its outcome.
* The directory side of a rename beyond the positions: the ".." entry, link counts and times.
* Several inodes of one position while one of them is being freed: the table allows them, and only the ones alive are kept unique.
* `poll`, `fasync`, `release` and the wait queues of the scull pipe: a sleeping thread may wake at any time or be interrupted; that it is ever woken is not stated.
* The other copies of the driver under `ATS/`, and the teaching drivers besides the pipe.
- FatTime.Fat2Unix: the sum of a time zone offset may leave the range of `time_t`; integers are unbounded here.
- ShortNames.CreateShortname: the wrap of the counter `i` below the smallest `int` is not modelled; the tails it shows are those of the unbounded count.
- ScullRuns.RunFifo: closing the device, which frees the buffer, is not a step, because no thread is inside then.
