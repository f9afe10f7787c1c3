# Storage and network stacks of the PS2 IOP modules: model and proofs

This project models two drivers that run on the I/O processor of the PlayStation 2 and proves
what they keep over whole runs.

**Storage (`iop/usb_mass`).** From the bottom up: the 32-slot write-back sector cache
(`SectorCache.dfy`), FAT records and their mirrored copies (`FatRecords.dfy`, `Fat12.dfy`), chains
of clusters (`FatChains.dfy`), the volume with its chunked chain walk, its memo, the stack of free
clusters and chain deletion (`FatVolume.dfy`), runs of the allocator over many files
(`FatAllocator.dfy`), a file as the concatenation of its clusters (`FatFileView.dfy`), the 32-point
seek index, reading and writing (`FatFile.dfy`), open files and read-after-write
(`FatHandle.dfy`, `FatWitness.dfy`), what all this means on the bytes of the disk
(`DiskLayout.dfy`), and directory entries: long names (`LongNames.dfy`), numbered short names
(`ShortNames.dfy`), room for new entries (`DirSlots.dfy`), the scan of a directory
(`DirScan.dfy`), the clearing of a new cluster (`DirClear.dfy`), the creation of a name
(`DirCreate.dfy`) and which entries are live after it (`DirLive.dfy`).

**Network (`iop/SMSTCPIP`).** The first-fit coalescing heap on real bytes (`HeapBlocks.dfy`,
`HeapAllocator.dfy`) and its runs with the owners' data (`HeapRuns.dfy`, `HeapWitness.dfy`), reference-counted packet
buffers (`PbufStore.dfy`, `Pbufs.dfy`, `PbufPool.dfy`, `PbufTake.dfy`), the TCP sender queues in 32-bit sequence
arithmetic (`TcpQueue.dfy`, `TcpSender.dfy`), connection states and lists (`TcpLists.dfy`), the
mailbox of the TCP/IP thread under every interleaving (`Mailbox.dfy`) and receive slicing
(`Receive.dfy`). Constants are those of the build with LOW_MEM_FOOTPRINT, which the Makefile sets;
the numbers of buffers and blocks are left open.

In each case the specification is the simple view: a flat disk, a table of records, a file of
bytes, a partition of memory, a byte stream. The code with buffers, caches and counters is proved
to agree with it. `Arith.dfy` holds products and quotients as recursive functions, because the
solver treats them as linear.

`dafny verify dfyconfig.toml` checks everything.

## Where the code falls short of what one would expect

Each of these is proved, with the exact condition where there is one.

- An acknowledgement number about half the sequence space away is taken for old and new at once:
  the queue invariant survives an ACK if and only if the number is not ambiguous
  (`TcpQueue.AckKeeps`; a lost segment in `TcpQueue.AmbiguousLosesData`).
- An active open never gives the sequence number of its SYN back to the send buffer
  (`TcpSender.Sender.SynAcked`).
- After an open that comes late the stale `snd_max` breaks the queue invariant: it holds if and only
  if the new sequence number is at most 2^31 ahead (`TcpSender.Sender.Connect`). A FIN queued with no
  buffer space left wraps the 16-bit count (`TcpSender.Sender.Enqueue`).
- The chain memo is keyed by the cluster alone: a hit is right if and only if the two calls agree on
  whether the chunk starts with that cluster (`FatVolume.Volume.MemoHit`); on a file of 1024 clusters
  a seek gets the wrong one (`FatFile.PivotServesWrongCluster`).
- The search for free clusters never moves back: a request fails if and only if nothing is free from
  `clStackLast` on (`FatVolume.Volume.GetFreeCluster`), so a full volume stays full after files
  below it are deleted (`FatAllocator.DeletedIsNotReused`).
- The 16-bit scan hands out cluster numbers that read as end marks, under an exact condition
  (`FatVolume.EndMarkGathered`); such a cluster is lost (`FatChains.EndMarkLost`).
- The 32-bit walk takes the reserved bits of a record for part of the next cluster number: it goes on
  at the right record if and only if they are zero (`FatRecords.ReservedBits`), and stores keep them
  (`FatRecords.SavedPlain`).
- A root directory of FAT12 or FAT16 that does not fill whole sectors shares its last one with cluster 2;
  otherwise, and only then, it is on no file (`DiskLayout.RootIsApart`).
- A write fails if and only if more clusters are missing than can be handed out, and then it adds
  those (`FatHandle.Write`) but leaves the record naming the old end of the file; the next growth
  loses them, exactly when it adds any (`FatFile.LostClusters`, `FatHandle.RetryLosesClusters`; a
  volume in `FatWitness.LostCluster`).
- A sector that is allocated in the cache without being read takes the rest of its 4096-byte block
  with it (`SectorCache.Cache.AllocStore`, `SectorCache.AllocLosesNeighbour`). What clearing the new
  cluster of a directory leaves around it is exact (`DirClear.ClearSectors`); nothing is around it if
  and only if the cluster is whole blocks (`DirClear.NoNeighbours`).
- Only 1024 entries of a directory are looked at. The new entries go over live ones if and only if
  the records are used up, no slot among them is large enough and a live entry lies right behind them
  (`DirCreate.LiveInRange`; a full directory in `DirCreate.OverwritesLive`); otherwise every live entry
  stays (`DirCreate.LiveStays`).
- No end mark is written behind new entries, so old ones there come to life, and a short name that
  begins with 0xE5 is a deleted entry at once. When exactly the live entries are the old and the new
  ones is stated by `DirLive.LiveExactly` (a case in `DirLive.StaleRevives`).
- Seeking before the start of a file goes to its end or somewhere before it
  (`FatHandle.Seek`).
- A short-name number that is a multiple of 64 is decoded as 0: when exactly the new name is that of
  an existing file is stated by `ShortNames.NewShortName` (a directory in
  `ShortNames.CrowdedClash`). The "lossless" mask loses a final dot (`ShortNames.MaskReadsBack`).
- Nothing checks the number of a long-name entry before its characters are stored
  (`LongNames.InsideExactly`).
- Sizes 65533 to 65535 are rounded up to 0 in 16 bits (`HeapAllocator.AlignedExact`), and shrinking a
  block keeps `lfree` the lowest free block if and only if `lfree` lies below it or right behind it
  (`HeapAllocator.Heap.Realloc`); otherwise a request may fail that fits
  (`HeapWitness.ShrinkHidesRoom`).
- Replacing a foreign packet buffer that someone else holds cuts off what is behind it without
  adjusting its `tot_len` (`PbufTake.Take`, `PbufTake.SharedLosesTail`).
- Appending to a chain, or shrinking it, leaves a wrong `tot_len` in a buffer outside that links into
  it, and only then (`Pbufs.Pbufs.Cat`, `Pbufs.Pbufs.Shrink`).
- Every failed message allocation at interrupt time takes an input slot for good; after 15 all
  packets are dropped (`Mailbox.LeakedForGood`, `Mailbox.FifteenFailures`).
- A negative length makes `lwip_recvfrom` return more than it stored, unless it wraps to a small
  number (`Receive.Socket.Recvfrom`, `Receive.NegativeLength`).
- Aborting a listening block leaves a freed block on the listening list
  (`TcpLists.Stack.Abort`), and closing a block that was never connected does not free it
  (`TcpLists.Stack.Close`).
- The slow timer goes on from the connection that keepalive has just aborted, whose link is gone: it
  does not get to the blocks behind it (`TcpLists.AllDueGo`), and if that connection had expired too,
  they fall off the list (`TcpLists.Stack.SlowTimer`, `TcpLists.SilentHidesNext`). That takes two
  connections; the small build has memory for one.

## Model

| member | source | states |
|---|---|---|
| `CacheInvariant.State.OneSlotPerSector` | iop/usb_mass/scache.c:106-116 | no two slots hold the same sector, so a lookup has one answer |
| `CacheInvariant.State.BlockUncovered` | iop/usb_mass/scache.c:227-231 | after a miss no sector of the aligned block is in any slot |
| `CacheInvariant.State.CleanIsFlat` | iop/usb_mass/scache.c:172-199 | with no dirty slot the disk is the flat disk |
| `CacheInvariant.State.FlushedKeeps` | iop/usb_mass/scache.c:150-160 | writing a slot back keeps the invariant and the flat disk: eviction loses nothing |
| `CacheInvariant.State.ClaimKeeps` | iop/usb_mass/scache.c:138-166 | giving a clean slot to a new block keeps every other slot right |
| `CacheInvariant.State.FillKeeps` | iop/usb_mass/scache.c:230-237 | loading the aligned block completes the slot |
| `CacheInvariant.State.EditKeeps` | iop/usb_mass/scache.c:275-301 | a change of one buffered sector changes that sector of the flat disk only, once it is reported |
| `CacheInvariant.State.ReportKeeps` | iop/usb_mass/scache.c:275-301 | marking the slot dirty restores the invariant |
| `CacheInvariant.State.AdoptKeeps` | iop/usb_mass/scache.c:251-272 | a slot that was claimed but not loaded becomes part of the flat disk as it is, once it is marked dirty |
| `SectorCache.Cache.constructor` | iop/usb_mass/scache.c:77-86 | an empty cache over an image is in order |
| `SectorCache.Cache.GetSlot` | iop/usb_mass/scache.c:106-116 | the slot that covers the sector, or -1 exactly when none does |
| `SectorCache.Cache.GetIndexRead` | iop/usb_mass/scache.c:119-135 | buffer position of a cached sector; taxes change, nothing else does |
| `SectorCache.Cache.GetIndexWrite` | iop/usb_mass/scache.c:138-166 | evicts a slot of least tax (if any tax is below the start value of the search), writing it back first if dirty, and keeps the flat disk |
| `SectorCache.Cache.FlushSectors` | iop/usb_mass/scache.c:172-199 | afterwards the disk is the flat disk, also when writeFlag allows the early return |
| `SectorCache.Cache.ReadSector` | iop/usb_mass/scache.c:201-248 | the buffer holds exactly the flat sector; the flat disk and the dirty bound sum(writeDirty) <= flushCounter < 16 are kept |
| `SectorCache.Cache.WriteSector` | iop/usb_mass/scache.c:275-304 | the edited sector becomes part of the flat disk, and nothing else |
| `SectorCache.Cache.AllocStore` | iop/usb_mass/scache.c:251-304 | allocating and writing a cached sector changes this sector only; on a miss the rest of its block becomes what the evicted slot held |
| `SectorCache.Cache.HeldBlock` | iop/usb_mass/scache.c:138-166 | what a slot in use holds is its own block: on a miss the neighbours become a copy of the evicted block |
| `SectorCache.AllocLosesNeighbour` | iop/usb_mass/scache.c:251-304 | a run in which storing sector 0 unchanged overwrites sector 1 |
| `SectorCache.Replay` | iop/usb_mass/scache.c:119-304 | every run of reads, updates and flushes returns what a flat disk would return and leaves what it would leave |
| `FatRecords.PutRecordReads` | iop/usb_mass/fat_write.c:392-464 | a stored record reads back modulo 2^16 or 2^28, its reserved nibble and all neighbours are kept |
| `FatRecords.SavedTable` | iop/usb_mass/fat_write.c:392-464 | saving sets one record of every copy to the masked value and changes no other |
| `FatRecords.SavedPlain` | iop/usb_mass/fat_write.c:429-464 | storing a record leaves its reserved bits as they are, so a link behind an end mark that has some keeps them |
| `FatRecords.ReservedBits` | iop/usb_mass/fat_driver.c:267-307 | the walk looks the next record up under all 32 bits: it gets to the cluster the record names if and only if the reserved bits are zero |
| `DiskLayout.TableOnBytes` | iop/usb_mass/fat_driver.c:80-89 | the number of a cluster in any copy is two bytes, or the low 28 bits of four, low byte first, at twice or four times its number from the start of the copy |
| `DiskLayout.ChainIsOnBytes` | iop/usb_mass/fat_driver.c:223-307 | a chain, on the bytes: each record names the next cluster, and the last is at least 0xFFF8 or 0xFFFFFF8 |
| `DiskLayout.FreeOnBytes` | iop/usb_mass/fat_write.c:169-266 | a cluster is taken for free if and only if its bytes are all zero, and in 32 bits its number is below 0xFFFFFF7 |
| `DiskLayout.TakenOnBytes` | iop/usb_mass/fat_write.c:494-530 | a cluster handed out has an end mark of ones in every copy, and the one before it holds its number |
| `DiskLayout.ClusterAt` | iop/usb_mass/fat_driver.c:107-123 | clusters lie one behind the other from number 2 on: behind the entries of the root directory on FAT12 and FAT16, at its start on FAT32 |
| `DiskLayout.FileByteAt` | iop/usb_mass/fat_driver.c:815-908 | sector and place of byte p of a file, from its chain and the numbers of the boot sector |
| `DiskLayout.RootIsApart` | iop/usb_mass/fat_driver.c:107-111 | on FAT12 and FAT16 no file has a sector of the root directory if and only if its entries fill whole sectors |
| `DiskLayout.RootKept` | iop/usb_mass/fat_write.c:1991-2135 | then writing a file leaves the root directory as it is |
| `Fat12.PackReads` | iop/usb_mass/fat_write.c:293-319 | a packed 12-bit record reads back and keeps the nibble it shares |
| `Fat12.ThreeBytes` | iop/usb_mass/fat_driver.c:131-147 | two 12-bit records in three bytes: the middle one holds the high half of the first and the low half of the second |
| `Fat12.WithRecordReads` | iop/usb_mass/fat_write.c:324-387 | storing a 12-bit record keeps every other record, also the two that share a byte, in every copy |
| `Fat12.SaveCopy` | iop/usb_mass/fat_write.c:337-385 | the one-sector and the straddling store both change exactly the two bytes of the record |
| `Fat12.SaveClusterRecord12` | iop/usb_mass/fat_write.c:324-387 | in every copy a fresh lookup gives the value modulo 4096, every other record is unchanged, and so is every other sector |
| `Fat12.LookUp12` | iop/usb_mass/fat_driver.c:175-200 | the record, put together from two sectors when it straddles them |
| `FatChains.ChainsMeet` | iop/usb_mass/fat_driver.c:223-307 | chains that meet have the same rest |
| `FatChains.ChainDistinct` | iop/usb_mass/fat_driver.c:223-307 | a chain that ends never visits a cluster twice |
| `FatChains.AppendExtends` | iop/usb_mass/fat_write.c:494-518 | appending a free cluster below the end marks turns the chain into old ++ [new] and leaves other chains alone |
| `FatChains.AppendBehind` | iop/usb_mass/fat_write.c:494-518 | hung behind element k of a chain, a free cluster makes it the first k+1 clusters and the new one; chains that avoid that element stay |
| `FatChains.CreateExtends` | iop/usb_mass/fat_write.c:523-530 | a free cluster becomes a chain of its own |
| `FatChains.FreedSuffix` | iop/usb_mass/fat_write.c:550-594 | with a front part freed, the rest from the pivot on is still a chain |
| `FatChains.EndMarkLost` | iop/usb_mass/fat_write.c:494-518 | a cluster whose number is an end mark cannot be linked: the chain ends where it did, and the cluster is on no chain |
| `FatVolume.Volume.SaveClusterRecord` | iop/usb_mass/fat_write.c:392-464 | the disk becomes the disk with the record stored in every copy |
| `FatVolume.Volume.WalkChain` | iop/usb_mass/fat_driver.c:223-307 | the buffer holds the next at most 512 clusters of the chain; 0 exactly when it is full |
| `FatVolume.Volume.GetClusterChain` | iop/usb_mass/fat_driver.c:309-321 | from a memo that is right the same chunk as the walk; a hit returns the buffer as it is, whatever it holds |
| `FatVolume.Volume.MemoHit` | iop/usb_mass/fat_driver.c:309-321 | a memo hit is right if and only if both calls agree on the start flag |
| `FatVolume.Volume.DeleteRound` | iop/usb_mass/fat_write.c:566-592 | a full round frees all but the pivot cluster; the last round frees everything |
| `FatVolume.Volume.DeleteClusterChain` | iop/usb_mass/fat_write.c:550-594 | terminates and frees exactly the clusters of the chain, of any length, in every copy; other records and sectors stay |
| `FatVolume.GatheredIsFree` | iop/usb_mass/fat_write.c:169-266 | what a scan gathers is a stack of distinct free clusters with the least on top |
| `FatVolume.GatheredExactly` | iop/usb_mass/fat_write.c:169-266 | a scan takes exactly the free clusters that have fewer than 128 free ones before them |
| `FatVolume.EndMarkGathered` | iop/usb_mass/fat_write.c:227-266 | the 16-bit scan stacks a number that reads as an end mark if and only if such a record is free with fewer than 128 free ones before it; the 32-bit scan never does |
| `FatVolume.Volume.ScanFatSector` | iop/usb_mass/fat_write.c:190-211 | one FAT sector adds its free clusters in ascending order, as many as fit |
| `FatVolume.Volume.SwapClStack` | iop/usb_mass/fat_write.c:65-90 | reverses a part of the stack |
| `FatVolume.Volume.ReadEmptyClusters` | iop/usb_mass/fat_write.c:169-266 | refills the stack with the first free clusters from clStackLast on, all of them or 128 |
| `FatVolume.Volume.TakeCluster` | iop/usb_mass/fat_write.c:494-530 | links the cluster behind the old end, or starts a chain, in every copy |
| `FatVolume.Volume.GetFreeCluster` | iop/usb_mass/fat_write.c:601-625 | returns a free cluster and links it; 0 if and only if the stack is empty and no record from clStackLast on is free, and then nothing changes; what can still be handed out loses exactly this cluster; each refill is handed out in ascending order |
| `FatVolume.Volume.SupplyTaken` | iop/usb_mass/fat_write.c:601-625 | a cluster that is handed out leaves the supply (the stack and what is free from clStackLast on), and nothing else does, also across a refill |
| `FatAllocator.OnChainInUse` | iop/usb_mass/fat_write.c:494-530 | a cluster on a file's chain is in use |
| `FatAllocator.CreateKeepsFiles` | iop/usb_mass/fat_write.c:523-530 | a new file keeps all chains disjoint and every used cluster accounted for |
| `FatAllocator.AppendKeepsFiles` | iop/usb_mass/fat_write.c:494-518 | so does growing a file |
| `FatAllocator.DeleteKeepsFiles` | iop/usb_mass/fat_write.c:550-594 | so does deleting one |
| `FatAllocator.CreateFile` | iop/usb_mass/fat_write.c:601-625 | a file of one cluster that was on no chain; no change if and only if the stack is empty and nothing is free from clStackLast on |
| `FatAllocator.AppendToFile` | iop/usb_mass/fat_write.c:601-625 | one file becomes old ++ [new], with new on no chain before; no change under the same exact condition |
| `FatAllocator.DeleteFile` | iop/usb_mass/fat_write.c:550-594 | the file is gone, its clusters are free and the stack is still right |
| `FatAllocator.TruncateFile` | iop/usb_mass/fat_write.c:1817-1838 | the file keeps exactly its first cluster |
| `FatAllocator.Replay` | iop/usb_mass/fat_write.c:65-625 | every operation of a run is one step, with its outcome decided by the state before it: what it does to the files, the tables and the stack; at the end the files are disjoint whole chains, no used cluster is lost, stacked clusters are distinct and free, the copies of the table are equal and no other sector changed |
| `FatAllocator.DeletedIsNotReused` | iop/usb_mass/fat_write.c:149-253 | on an exhausted volume, deleting a file below clStackLast frees its clusters, and still no file can be created |
| `FatFileView.WriteOneSector` | iop/usb_mass/fat_write.c:2094-2120 | storing part of one sector changes exactly those bytes of the file |
| `FatFileView.ReadOneSector` | iop/usb_mass/fat_driver.c:879-902 | reading part of one sector continues the slice |
| `FatFileView.WrittenKeepsTable` | iop/usb_mass/fat_write.c:2065-2132 | writing a file leaves every copy of the table alone |
| `FatFileView.WrittenKeepsOthers` | iop/usb_mass/fat_write.c:2065-2132 | writing a file leaves every byte of a file with other clusters alone |
| `FatFile.PointsSurviveGrowth` | iop/usb_mass/fat_driver.c:797-813 | seek points stay true when the file grows |
| `FatFile.GetClusterAtFilePos` | iop/usb_mass/fat_driver.c:797-813 | the nearest seek point at or before the position, a true (cluster, index) pair |
| `FatFile.SeekLands` | iop/usb_mass/fat_driver.c:832-836 | the skip computed from a seek point lands on the cluster, sector and byte of the position |
| `FatFile.SetFatDirChain` | iop/usb_mass/fat_driver.c:544-612 | for chains of any length all 32 points are true pairs with nondecreasing indices, each the first cluster whose end reaches its share of the size; lastCluster is the last cluster; the memo is coherent |
| `FatFile.PivotIsSeekPoint` | iop/usb_mass/fat_driver.c:544-612 | in a file of 1024 clusters seek point 16 is cluster 511 |
| `FatFile.PivotServesWrongCluster` | iop/usb_mass/fat_driver.c:309-321 | on such a file, read through its second chunk, a seek to cluster 511 is answered with the chunk that starts with cluster 512 |
| `FatFile.ReadFile` | iop/usb_mass/fat_driver.c:815-908 | exactly the requested slice, across sector, cluster and 512-entry chunk boundaries; the disk is unchanged |
| `FatFile.GrowFile` | iop/usb_mass/fat_write.c:2033-2037 | the chain grows behind the given element by n clusters that were free; it fails if and only if fewer can be handed out, and then all of those are added; other chains stay |
| `FatFile.LostClusters` | iop/usb_mass/fat_write.c:2033-2041 | growing behind an element keeps all clusters of the file if and only if nothing was added or the element is the last; otherwise those after it stay in use and the file does not have them |
| `FatFile.LeastClusters` | iop/usb_mass/fat_write.c:2012-2031 | the number of clusters is the least that holds the bytes |
| `FatFile.GrowthIsLeast` | iop/usb_mass/fat_write.c:2012-2031 | adding clusters for the excess gives the least number for the whole |
| `FatFile.MakeRoom` | iop/usb_mass/fat_write.c:2011-2046 | for any chain that covers the size: long enough afterwards; it grows exactly when the end lies behind the clusters the size needs, by exactly the missing ones; it fails if and only if more are missing than can be handed out, and then all of those are added; the memo is dropped exactly on success with growth |
| `FatFile.WriteFile` | iop/usb_mass/fat_write.c:1991-2135 | for any chain that covers the size: on success bytes [pos, pos+n) of the file are the buffer, every other byte it keeps and every sector outside it and the tables is unchanged; -ENOSPC if and only if more clusters are missing than can be handed out, and then only the tables may have changed |
| `FatHandle.Seek` | iop/usb_mass/fat_driver.c:1271-1298 | for every mode: the new position is the position of the file nearest to the target if and only if the target is an unsigned 32-bit number or the file is empty; a target inside the file is reached exactly |
| `FatHandle.Read` | iop/usb_mass/fat_driver.c:1335-1358 | the slice at the position, cut at the end of the file |
| `FatHandle.Write` | iop/usb_mass/fat_driver.c:1300-1333 | the bytes are written, size and position follow, the in-memory record describes the file again, also after a failure; growth is exact; it fails if and only if more clusters are missing than can be handed out, and then all of those are on the file |
| `FatHandle.SizeAfterWrite` | iop/usb_mass/fat_driver.c:1317-1328 | size and chain length still fit each other after a write |
| `FatHandle.OtherFilesUntouched` | iop/usb_mass/fat_write.c:1991-2135 | writing, even with growth, leaves the chain and every byte of a disjoint file as they were |
| `FatHandle.ReadAfterWrite` | iop/usb_mass/fat_driver.c:1271-1358 | write, seek back and read give the bytes back, for files of any length, growing or not, also after an earlier write has failed half-way; it fails if and only if more clusters are missing than can be handed out, and the file can be used again either way |
| `FatHandle.RetryLosesClusters` | iop/usb_mass/fat_write.c:2011-2046 | a write that fails half-way (exactly when clusters are missing), a deletion and a second try: the clusters of the first try, as many as could be handed out, stay in use and belong to no file if the second try gets any; on FAT16 it does if and only if the deleted file had a cluster from the last scan on |
| `FatWitness.LostCluster` | iop/usb_mass/fat_write.c:2011-2046 | an eight-sector FAT16 volume on which the first write fails and cluster 3 is in use afterwards, on no file |
| `LongNames.SetLfnEntry` | iop/usb_mass/fat_write.c:669-719 | bytes 1 to 10, 14 to 25 and 28 to 31 of the entry are the 13 characters, each with a zero byte, the terminator and 0xFF; its number, the last-entry flag and the checksum; the rest of the buffer stays |
| `LongNames.ChecksumDetects` | iop/usb_mass/fat_write.c:653-663 | the checksum tells any two names apart that differ in one byte |
| `LongNames.ChecksumIs` | iop/usb_mass/fat_write.c:653-663 | the checksum starts at 0, and before each byte is added its lowest bit goes to the top and the others down by one |
| `LongNames.SetSfnEntry` | iop/usb_mass/fat_write.c:810-834 | the short-name entry holds name, attribute, 32-bit cluster and size 0 |
| `LongNames.CreateDirentry` | iop/usb_mass/fat_write.c:1345-1362 | the long-name entries, last part first, all with the checksum of the short name, then the short-name entry |
| `LongNames.ReadLfn` | iop/usb_mass/fat_driver.c:475-512 | the even bytes of those 26, up to the first zero pair, land at their place in the name, with a terminator when the entry has one or is the last |
| `LongNames.InsideExactly` | iop/usb_mass/fat_driver.c:475-512 | the stores stay inside the name buffer if and only if the number of the entry is not 0 and its characters end before byte 128 |
| `LongNames.CopyShort` | iop/usb_mass/fat_driver.c:517-528 | the dotted form of the 8.3 name |
| `LongNames.GetDirentry` | iop/usb_mass/fat_driver.c:460-540 | the kind of the entry and what it fills in |
| `LongNames.RoundTrip` | iop/usb_mass/fat_driver.c:460-540 | entries written for any name of 1 to 127 bytes, read in order, give back name, attribute, cluster and size 0 |
| `ShortNames.DecReads` | iop/usb_mass/fat_write.c:983-985 | reading a printed number gives the number |
| `ShortNames.SignedReads` | iop/usb_mass/fat_write.c:981-985 | so does one with a sign or blanks before it |
| `ShortNames.NumberedReads` | iop/usb_mass/fat_write.c:955-985 | a numbered name carries its number behind a tilde, ending at the eighth character, and keeps the first characters and the extension of its mask |
| `ShortNames.NumberOfIs` | iop/usb_mass/fat_write.c:955-985 | a name has a number only if it agrees with the mask up to its last tilde and in the extension |
| `ShortNames.SomeMissing` | iop/usb_mass/fat_write.c:1002-1016 | pigeonhole: with fewer hits than the largest number a smaller one is missing |
| `ShortNames.ChooseSequence` | iop/usb_mass/fat_write.c:990-1034 | the chosen number occurs in no record; the least missing one when there are gaps, else the largest plus one |
| `ShortNames.FillRecords` | iop/usb_mass/fat_write.c:1190-1249 | six low bits in the record, six more in the long-name record before it; an error exactly when that is missing |
| `ShortNames.DecodedNumber` | iop/usb_mass/fat_write.c:1002-1008 | a number below 4096 that is 0 or no multiple of 64 is decoded as stored |
| `ShortNames.FreshName` | iop/usb_mass/fat_write.c:990-1045 | the numbered name differs from a short name whose number is no positive multiple of 64 |
| `ShortNames.ClashExactly` | iop/usb_mass/fat_write.c:990-1045 | the same for the number chosen, from the records alone |
| `ShortNames.NewShortName` | iop/usb_mass/fat_write.c:955-1045 | the new name is that of an existing file if and only if, below a gap, the numbers 0 to 63 all occur and ~64 is there, or, without a gap, the next number is a multiple of 64 that is there |
| `ShortNames.CrowdedClash` | iop/usb_mass/fat_write.c:990-1034 | a directory with the names ~1 to ~64 is one where the numbering fails |
| `ShortNames.CreateShortNameMask` | iop/usb_mass/fat_write.c:848-916 | the whole mask: upper case, spaces of the stem as underscores, both parts cut and padded; 0 if and only if the name has no space, at most one dot and parts that fit; the first byte is no free or deleted mark |
| `ShortNames.MaskIs` | iop/usb_mass/fat_write.c:848-916 | every byte of the mask: a to z become capitals, spaces of the stem underscores, no other byte changes, and no lower-case letter is left |
| `ShortNames.LosslessIs` | iop/usb_mass/fat_write.c:848-916 | a mask is lossless if and only if the name has no space, at most one dot, at most 8 bytes before it and 3 behind |
| `ShortNames.MaskReadsBack` | iop/usb_mass/fat_write.c:848-916 | a mask reported as lossless reads back as the name in upper case if and only if the name does not end in a dot |
| `DirSlots.StoreOffset` | iop/usb_mass/fat_write.c:1050-1132 | the first tight slot; without one the end of the first loose one; without that the last record if it is empty, or behind it; the range holds no live record |
| `DirSlots.ChosenIsFree` | iop/usb_mass/fat_write.c:1050-1132 | that choice lies inside the records if and only if a slot is large enough, and holds nothing live |
| `DirSlots.OneClusterSuffices` | iop/usb_mass/fat_write.c:1270-1300 | one more cluster is always enough for the entries of one name, and without it they fit (used by DirCreate.Enlarge) |
| `DirSlots.PatchSector` | iop/usb_mass/fat_write.c:1472-1487 | exactly the entries of the sector that are in the range are replaced |
| `DirSlots.SaveDirentry` | iop/usb_mass/fat_write.c:1431-1500 | exactly the entries from entryIndex on are replaced, across sectors and clusters, all of them are stored, and the place of the last one is returned |
| `DirScan.SectorEntryIs` | iop/usb_mass/fat_write.c:1183-1201 | the 32-byte pieces of the directory's sectors are its entries in order |
| `DirScan.ItemIs` | iop/usb_mass/fat_driver.c:465-480 | the bytes that tell deleted, end, long-name, label and short-name entries apart |
| `DirScan.EmptyIsFree` | iop/usb_mass/fat_write.c:1202-1249 | a record is empty exactly when its entry is deleted or ends the directory |
| `DirScan.ScanSector` | iop/usb_mass/fat_write.c:1200-1252 | one sector adds its entries, up to the end of the directory or 1024 records |
| `DirScan.ScanDirectory` | iop/usb_mass/fat_write.c:1151-1259 | the items are the entries of the directory in order, up to its end or 1024 of them; the disk is unchanged |
| `DirScan.SafeRange` | iop/usb_mass/fat_write.c:1050-1132 | a range without a live record holds a live entry only behind the 1024th |
| `DirClear.ClearOne` | iop/usb_mass/fat_write.c:1321-1329 | a cached sector is cleared alone; on a miss the rest of its slot becomes what the evicted slot held, a copy of another slot of the disk once all are in use |
| `DirClear.ClearSectors` | iop/usb_mass/fat_write.c:1321-1329 | the sectors are blank; the rest of the first and of the last slot is kept, or is what the slot evicted for it held; the first is kept if and only if its sector was cached; every other sector stays |
| `DirClear.NoNeighbours` | iop/usb_mass/fat_write.c:1321-1329 | no sector outside a range shares a slot with one inside if and only if its start and its length are multiples of the slot |
| `DirCreate.AddCluster` | iop/usb_mass/fat_write.c:1301-1330 | -ENOSPC if and only if nothing can be handed out; else the directory is longer by one cluster, which is cleared; if nothing shares a slot with it or its slots were cached, its other bytes, other chains and other sectors stay |
| `DirCreate.Enlarge` | iop/usb_mass/fat_write.c:1270-1331 | adds a cluster if and only if the entries do not fit, and fails if and only if then nothing can be handed out; afterwards they fit |
| `DirCreate.PlanEntry` | iop/usb_mass/fat_write.c:1562-1605 | -EINVAL exactly for a name that begins with a dot, else -EFAULT exactly when a large number has no long-name entry before it; the short name is the mask or a number, free unless the numbering fails; the range is the one the search chooses |
| `DirCreate.StoreEntry` | iop/usb_mass/fat_write.c:1616-1637 | the long and short entries of the name are stored in the range, and no other entry changes |
| `DirCreate.CommitEntry` | iop/usb_mass/fat_write.c:1606-1651 | success, -ENOSPC or -EFAULT and the clusters added, decided by whether the entries fit and how many clusters can be handed out; what is on the disk for each |
| `DirCreate.CreateEntry` | iop/usb_mass/fat_write.c:1517-1651 | each result under its exact condition, with the clusters added; on success exactly the entries of the name are stored, in order, with the checksum, the short name and a new cluster that is a chain of its own; every other entry, file, chain and sector stays; an error leaves every entry as it was; when a live entry is overwritten |
| `DirCreate.LiveInRange` | iop/usb_mass/fat_write.c:1584-1602 | the range chosen holds a live entry if and only if 1024 records are used up, no slot among them is large enough and a live entry lies right behind them |
| `DirCreate.LiveStays` | iop/usb_mass/fat_write.c:1517-1651 | unless the entries go over live ones, every live entry is unchanged on the disk |
| `DirCreate.OverwritesLive` | iop/usb_mass/fat_write.c:1584-1602 | a directory whose first 1025 entries are live is one of those |
| `DirLive.LiveAfter` | iop/usb_mass/fat_write.c:1431-1500 | which entries are live after a name is created: before the range those that were, in it the new ones except a short one that begins with 0xE5, behind it those that no end mark shuts off any more |
| `DirLive.LiveExactly` | iop/usb_mass/fat_write.c:1431-1500 | the live entries are the old ones and the new ones if and only if the name does not begin with 0xE5 and no entry behind the new ones comes to life |
| `DirLive.StaleRevives` | iop/usb_mass/fat_write.c:1431-1500 | an overwritten end mark with an old entry right behind the new ones is such a case |
| `HeapBlocks.PutReads` | iop/SMSTCPIP/mem.c:52-63 | a header store changes one field of one header |
| `HeapBlocks.CarvedLinked` | iop/SMSTCPIP/mem.c:274-285 | cutting a block keeps the list linked both ways |
| `HeapBlocks.CarvedLive` | iop/SMSTCPIP/mem.c:274-285 | cutting makes one block live or shorter and changes no other live block |
| `HeapBlocks.CarvedUntouched` | iop/SMSTCPIP/mem.c:274-285 | no payload of a live block is touched by the stores |
| `HeapBlocks.JoinedLinked` | iop/SMSTCPIP/mem.c:96-113 | joining two blocks keeps the list linked both ways |
| `HeapBlocks.JoinedLive` | iop/SMSTCPIP/mem.c:96-113 | joining two free blocks changes no live block and no payload |
| `HeapAllocator.AlignedExact` | iop/SMSTCPIP/mem.c:257-261 | the rounded size is enough if and only if the size is at most 65532 |
| `HeapAllocator.Heap.constructor` | iop/SMSTCPIP/mem.c:116-141 | one free block |
| `HeapAllocator.Heap.PlugHoles` | iop/SMSTCPIP/mem.c:83-115 | no two adjacent free blocks remain, lfree is free, live blocks and payloads stay |
| `HeapAllocator.Heap.MemFree` | iop/SMSTCPIP/mem.c:143-182 | exactly this block stops being live, the invariant holds and lfree stays the lowest free block |
| `HeapAllocator.Heap.Malloc` | iop/SMSTCPIP/mem.c:247-318 | fails if and only if the size is 0 or too big or no block from lfree on fits, hence, while lfree is lowest, only when none anywhere fits; else the first fit becomes live, aligned and of the rounded size |
| `HeapAllocator.Heap.Realloc` | iop/SMSTCPIP/mem.c:196-246 | shrinks when enough would be left over, keeps the front of the payload and the invariant; lfree stays lowest exactly when it was below or right behind the block |
| `HeapRuns.LiveApart` | iop/SMSTCPIP/mem.c:247-318 | live blocks do not overlap |
| `HeapRuns.StoreKeepsLinks` | iop/SMSTCPIP/mem.c:52-63 | a store inside a payload changes no header |
| `HeapRuns.Run` | iop/SMSTCPIP/mem.c:83-318 | every operation of a run is one step: a request is granted if and only if a block from lfree on fits, and gets the first; a shrink keeps the front of the data; at the end the live blocks are exactly the allocations and each holds what its owner stored; without shrinks lfree is the lowest free block |
| `HeapWitness.ShrinkHidesRoom` | iop/SMSTCPIP/mem.c:231-243 | two allocations and a shrink, in a heap of 8192 bytes, after which a request fails although a block below lfree fits |
| `PbufStore.TotalIsLength` | iop/SMSTCPIP/pbuf.c:243-305 | tot_len of a chain is the number of its bytes |
| `PbufStore.TakenOut` | iop/SMSTCPIP/pbuf.c:565-597 | a buffer whose count becomes 0 has no link and no owner, and hands its reference on the next one over |
| `PbufStore.PoolConserved` | iop/SMSTCPIP/pbuf.c:135-180 | free plus live pool buffers is constant |
| `Pbufs.Pbufs.Release` | iop/SMSTCPIP/pbuf.c:565-597 | exactly the maximal head run of buffers with one reference goes, and the next one loses one |
| `Pbufs.Pbufs.Free` | iop/SMSTCPIP/pbuf.c:541-601 | the same for a caller's reference; counts equal links plus owners, no link dangles, totals and pool are kept |
| `Pbufs.Pbufs.AddRef` | iop/SMSTCPIP/pbuf.c:629-639 | one more owner, and no tot_len becomes right or wrong |
| `Pbufs.Pbufs.Cat` | iop/SMSTCPIP/pbuf.c:651-671 | the bytes are those of both chains and the caller's reference moves into the link; every tot_len is right if and only if no buffer outside the first chain links into it or the second holds no bytes; NULL changes nothing |
| `Pbufs.Pbufs.Chain` | iop/SMSTCPIP/pbuf.c:689-696 | the same, and the caller keeps its reference; with no chain to append to, the second one gets a reference all the same |
| `Pbufs.Pbufs.Shrink` | iop/SMSTCPIP/pbuf.c:396-446 | the chain keeps exactly its first bytes and the rest is released, with counts and pool right; every tot_len is right if and only if no buffer outside the chain links into the part kept; it never grows |
| `PbufPool.AllocPool` | iop/SMSTCPIP/pbuf.c:243-305 | succeeds if and only if the pool has enough buffers; a chain of the requested length with its totals, every buffer but the last full, or, also when it runs out half-way, everything as it was |
| `PbufPool.NeededIs` | iop/SMSTCPIP/pbuf.c:243-305 | that number is the least whose buffers hold offset and length together |
| `PbufTake.NewBuffer` | iop/SMSTCPIP/pbuf.c:735-749 | a copy comes from the pool if it is small enough and the pool is not empty, else from the heap, and fails exactly when both do; what is left of pool and heap |
| `PbufTake.PutInPlace` | iop/SMSTCPIP/pbuf.c:751-782 | the copy takes the place of the buffer, whatever refers to it; the buffer goes, or stays without its link and one reference; counts, owners, pool and bytes are right, and which tot_len are |
| `PbufTake.Take` | iop/SMSTCPIP/pbuf.c:720-801 | which buffer is the first that cannot be copied, from the sizes, the pool and the heap; if none, a chain of the same bytes without references to foreign memory, held by the caller instead of the old head; else the chain copied so far is released and the caller's reference is gone; no buffer outside the chain changes; every tot_len is right afterwards if and only if no foreign buffer with another reference had anything behind it |
| `PbufTake.SharedLosesTail` | iop/SMSTCPIP/pbuf.c:720-801 | a chain of two buffers whose shared first one is left with a tot_len of two for one byte |
| `TcpQueue.SumBound` | iop/SMSTCPIP/tcp_out.c:121-205 | 8 packet buffers hold so little that sequence comparisons inside the queues are unambiguous |
| `TcpQueue.SentOne` | iop/SMSTCPIP/tcp_out.c:382-410 | moving the first unsent segment over keeps the invariant, with snd_max behind it |
| `TcpQueue.Appended` | iop/SMSTCPIP/tcp_out.c:236-281 | appended segments continue the queue without a gap |
| `TcpQueue.Coalesced` | iop/SMSTCPIP/tcp_out.c:247-263 | merging the first new segment into the last unsent one changes neither coverage, bytes nor buffer count |
| `TcpQueue.DropExact` | iop/SMSTCPIP/tcp_in.c:761-771 | an ACK drops exactly the segments that end by it and stops inside the next one |
| `TcpQueue.AckKeeps` | iop/SMSTCPIP/tcp_in.c:715-791 | an ACK keeps the invariant if and only if its number is not ambiguous |
| `TcpQueue.AmbiguousLosesData` | iop/SMSTCPIP/tcp_in.c:780-791 | an input on which never-sent data is dropped |
| `TcpSender.Sender.Build` | iop/SMSTCPIP/tcp_out.c:123-233 | the new segments cover the bytes exactly, and how many there are and how long each is is closed: full ones, then the last 1 to mss bytes, in two halves with TF_EVENSEG behind an even number of full ones; with all allocations granted it succeeds if and only if that number fits the buffer count |
| `TcpSender.Sender.Enqueue` | iop/SMSTCPIP/tcp_out.c:96-310 | on success the bytes are appended to the stream and the unsent queue has exactly the segments of that cut, the first of them joined to the last one there if both fit mss; the exact buffer space: it wraps if and only if a SYN or FIN finds none; on failure nothing changes; with all allocations granted it succeeds if and only if the write fits |
| `TcpSender.NextCut` | iop/SMSTCPIP/tcp_out.c:128-136 | the loop makes exactly the segments of the closed form |
| `TcpSender.FewestSegments` | iop/SMSTCPIP/tcp_out.c:128-136 | without TF_EVENSEG these are the fewest segments of mss bytes that hold the write, all but the last full |
| `TcpSender.OneSegmentFits` | iop/SMSTCPIP/tcp_out.c:111-133 | on an idle connection a write of 1 to mss bytes is accepted, as one segment |
| `TcpSender.Sender.Output` | iop/SMSTCPIP/tcp_out.c:314-413 | unacked ++ unsent is unchanged as a sequence; exactly the segments the window admits move |
| `TcpSender.Sender.Rexmit` | iop/SMSTCPIP/tcp_out.c:508-536 | everything unacknowledged goes back to the front, and the queues together stay the same |
| `TcpSender.Sender.ReceiveAck` | iop/SMSTCPIP/tcp_in.c:663-791 | keeps the invariant if and only if the number is not ambiguous; lastack moves exactly for numbers up to snd_max; covered segments go and their budget returns |
| `TcpSender.Sender.SynAcked` | iop/SMSTCPIP/tcp_in.c:523-541 | the SYN leaves the queue; the budget is one byte smaller for good |
| `TcpSender.Sender.Connect` | iop/SMSTCPIP/tcp.c:507-552 | afterwards the SYN is the one unacknowledged segment, or nothing is queued, which happens only if an allocation is refused; the queues are in order if and only if the new number is at most half the sequence space ahead of snd_max |
| `TcpSender.Run` | iop/SMSTCPIP/tcp_out.c:96-536 | every operation of a run is one step: an accepted write appends exactly its bytes, a refused one changes nothing, transmission and time-out move only the boundary of the queues, an ACK drops exactly what it covers; the queues stay gap-free, counted and complete and the budget constant up to the first ambiguous ACK |
| `TcpSender.NothingLost` | iop/SMSTCPIP/tcp_out.c:96-536 | over a run the stream is that of the start and the accepted writes in order, and each of its bytes has been given up or is on a queue |
| `TcpLists.ProcessEdges` | iop/SMSTCPIP/tcp_in.c:479-637 | every outcome of the state machine is an edge of RFC 793, no change or a removal |
| `TcpLists.ProcessExactly` | iop/SMSTCPIP/tcp_in.c:479-637 | the arrows with their segments: to ESTABLISHED on the SYN and ACK of our SYN or a new accepted ACK, to CLOSE-WAIT on a FIN in ESTABLISHED, to FIN-WAIT-2, CLOSING and TIME-WAIT as figure 6 of RFC 793 has it, removal on an acceptable reset, a refused accept or the last ACK; each if and only if; none to FIN-WAIT-1 or LAST-ACK |
| `TcpLists.Stack.InputActive` | iop/SMSTCPIP/tcp_in.c:182-335 | the block is moved to the front, goes where the arrow of the segment leads, or is removed exactly when the segment ends the connection; no other block changes and the lists stay in order |
| `TcpLists.Stack.InputListen` | iop/SMSTCPIP/tcp_in.c:390-450 | a SYN makes one new block in SYN-RCVD if there is memory; exactly the allocation's victims go |
| `TcpLists.Stack.Input` | iop/SMSTCPIP/tcp_in.c:182-335 | active, then TIME-WAIT, then listening blocks: which block changes, to what, and which ones go; the lists stay in order |
| `TcpLists.Stack.Close` | iop/SMSTCPIP/tcp.c:128-175 | the exact change of tcp_close; the block is removed exactly in LISTEN and SYN-SENT |
| `TcpLists.Stack.Abort` | iop/SMSTCPIP/tcp.c:188-232 | the lists stay in order if and only if the block is not listening |
| `TcpLists.Stack.Connect` | iop/SMSTCPIP/tcp.c:507-552 | a closed block goes on the active list in SYN-SENT |
| `TcpLists.Stack.Listen` | iop/SMSTCPIP/tcp.c:400-428 | the closed block is replaced by a listening one |
| `TcpLists.Stack.Alloc` | iop/SMSTCPIP/tcp.c:893-943 | exactly the victims that were needed go; a new closed block if one of the attempts finds memory |
| `TcpLists.Stack.SlowTimer` | iop/SMSTCPIP/tcp.c:563-736 | the walk over the active list ends at the first connection that keepalive gives up, which is removed; before it exactly the expired blocks go, and those in TIME-WAIT; the lists are in order afterwards if and only if that connection had not expired as well or was the last |
| `TcpLists.TickRemoves` | iop/SMSTCPIP/tcp.c:576-698 | an active block goes if and only if it is due and not behind the first silent connection |
| `TcpLists.AllDueGo` | iop/SMSTCPIP/tcp.c:576-698 | all active blocks that are due go if and only if none is due behind the first silent connection |
| `TcpLists.SilentHidesNext` | iop/SMSTCPIP/tcp.c:576-698 | two connections of which the second is not looked at, or is lost from the list while in use |
| `TcpLists.Handle` | iop/SMSTCPIP/tcp.c:128-736 | each event is a step: which block changes, to what, and which ones go; the lists stay in order |
| `TcpLists.Run` | iop/SMSTCPIP/tcp_in.c:182-335 | so does any run of events whose callers keep to the rules, with the lists before and after each of them |
| `TcpLists.StepRemoves` | iop/SMSTCPIP/tcp.c:128-943 | a block disappears if and only if it was matched and its outcome is removal, it was due and the timer got to it, it was closed in LISTEN or SYN-SENT, aborted, replaced by a listening one or a victim of an allocation |
| `TcpLists.StepLeads` | iop/SMSTCPIP/tcp.c:128-552 | a block that is still there is in another state if and only if the event leads there: a segment with its arrow, tcp_close with a FIN queued, tcp_connect |
| `TcpLists.StepMoves` | iop/SMSTCPIP/tcp_in.c:479-637 | every block that is still there moved along an edge of RFC 793 or not at all, and one newly in FIN-WAIT-1 or LAST-ACK was closed by the application |
| `TcpLists.StepMakes` | iop/SMSTCPIP/tcp.c:400-943 | a block that is new is the one the event made: closed, listening, or in SYN-RCVD for a SYN without ACK |
| `TcpLists.RunMoves` | iop/SMSTCPIP/tcp_in.c:182-335 | over a whole run a block only moves forward in the state diagram, and one that is gone was removed by an event with a reason to |
| `TcpLists.RunCloses` | iop/SMSTCPIP/tcp.c:128-175 | over a whole run a connection gets behind its own FIN only if the application closed it |
| `Mailbox.PutPending` | iop/SMSTCPIP/ps2ip.c:82-89 | a stored message waits behind the others |
| `Mailbox.TakePending` | iop/SMSTCPIP/ps2ip.c:447-448 | the message taken is the first that waits |
| `Mailbox.RoomLeft` | iop/SMSTCPIP/ps2ip.c:218-224 | the ring reports full exactly when 15 slots are in use or leaked |
| `Mailbox.AcceptSlot` | iop/SMSTCPIP/ps2ip.c:257-287 | the slot handed out belongs to no pending callback, also after leaks |
| `Mailbox.RoomIs` | iop/SMSTCPIP/ps2ip.c:390-457 | the mailbox is full exactly when 63 messages wait, and empty exactly when none does |
| `Mailbox.StepInv` | iop/SMSTCPIP/ps2ip.c:390-457 | every step of every thread and of the interrupt keeps the invariant |
| `Mailbox.AnyTime` | iop/SMSTCPIP/ps2ip.c:390-457 | a thread that waits is always counted, so that it can be woken: when each step can happen |
| `Mailbox.StepDoes` | iop/SMSTCPIP/ps2ip.c:218-457 | what each step does to the messages that wait: a post with room puts its message last, without room its thread waits; a woken poster with room leaves and its message is last; a fetch takes the first; a packet with room and memory is stored in its slot and its callback is last; nothing else changes |
| `Mailbox.NothingDropped` | iop/SMSTCPIP/ps2ip.c:390-428 | over any run every message handed to sys_mbox_post has been stored, or its thread waits with it, as often as it was handed over |
| `Mailbox.AllArrive` | iop/SMSTCPIP/ps2ip.c:218-287 | over any run the packets accepted are those that find room and memory, in order |
| `Mailbox.Safety` | iop/SMSTCPIP/ps2ip.c:218-457 | for every interleaving: first in first out, nothing lost or overwritten from the call of sys_mbox_post on, no slot shared by pending callbacks, the packets that found room and memory delivered in order from slots nothing overwrote |
| `Mailbox.LeakedForGood` | iop/SMSTCPIP/ps2ip.c:257-287 | a packet is accepted if and only if there is room and fewer than 15 slots are taken or leaked; after 15 leaks none ever is |
| `Mailbox.FifteenFailures` | iop/SMSTCPIP/ps2ip.c:257-287 | fifteen failures from the start leak fifteen slots |
| `Receive.CopyPartial` | iop/SMSTCPIP/api_lib.c:82-119 | copies exactly the bytes of the chain from the offset on, at most len |
| `Receive.Socket.Recvfrom` | iop/SMSTCPIP/sockets.c:344-441 | a call takes from the first buffer only, exactly min(len, what it holds) bytes, and a TCP socket keeps the rest; the return value is exact, and is the number of bytes stored if and only if len is not negative or wraps to at most what is there |
| `Receive.RecvAll` | iop/SMSTCPIP/sockets.c:344-441 | for any lengths the i-th piece is the front of the current buffer, of the length asked for or what the buffer holds; the rest remains |
| `Receive.PiecesAreStock` | iop/SMSTCPIP/sockets.c:344-441 | the pieces and what is left are the received stream: no byte is lost, repeated or out of order |
| `Receive.NegativeLength` | iop/SMSTCPIP/sockets.c:344-441 | length -1 on three bytes stores three and returns 65535 |

## Left out

- Sector I/O errors: the device always succeeds; media change, mounting and FAT-type detection are not part of the model.
- SectorCache.Cache.constructor: the disk is a whole number of 4096-byte slots, because the device reads and writes whole ones; the sector buffer is addressed in sectors of the BPB size and starts out as zeros, the tax counters are unbounded and the hit counters are not kept.
- FatVolume.Volume.WalkChain: the records of a 32-bit table have no reserved bits set, a condition every volume operation keeps; what the walk does otherwise is in FatRecords.ReservedBits.
- FatFile.ReadFile: the memo must be able to serve the seek point it starts from; for files of more than 512 clusters a call after one that walked past a chunk may find a memo of the other kind at another seek point.
- FatFile.WriteFile: free records of the table are assumed to name clusters of the data area, because the scan is bounded by the size of the table only, and no record that reads as an end mark is free; file sizes are unbounded integers.
- FatHandle.ReadAfterWrite: file sizes below 4 GB, the range of the unsigned position.
- FAT12 chain walks that come back to a sector just straddled, and the FAT12 free scan, which has no upper bound; 12-bit records are modelled one at a time.
- fs_open, fs_close and the slots of open files, which would add only bookkeeping.
- LongNames.ReadLfn: entries whose stores would leave the name buffer are excluded by its precondition; which ones they are is exact.
- LongNames.GetDirentry: the same entries are excluded.
- LongNames.RoundTrip: the tenths-of-a-second byte of a new entry is left as it was, and the clock is a parameter.
- DirSlots.SaveDirentry: directories made of fewer than 512 clusters; the fixed root directory of FAT12 and FAT16, a run of consecutive sectors, is not modelled.
- DirScan.ScanDirectory: the comparison with existing names, which ends the scan early when the name is there; records are made from the entries in a second pass.
- DirCreate.CreateEntry: either the clusters that can be handed out are whole cache blocks or the directory has room, because clearing another one may replace the tables and the directory under the later steps; what it does is in DirClear.ClearSectors and DirCreate.Enlarge, which do without this; the "." and ".." entries of a new directory, which go into its own cluster, are not modelled.
- DirCreate.CommitEntry: the same condition, for the place already chosen.
- HeapAllocator.Heap.Realloc: the order of the header stores of a cut is that of mem_malloc; the path that returns without releasing the semaphore for an illegal address is not modelled, nor is mem_reallocm.
- Pbufs.Pbufs.Cat: the sum of both lengths must fit the 16 bits of tot_len.
- Pbufs.Pbufs.Chain: so must it here.
- Pbufs.Pbufs.Shrink: the last kept buffer is unlinked before, not after, the rest is released; the shrinking of its heap block is left to the heap model.
- pbuf_header and the PBUF_RAM and PBUF_ROM cases of pbuf_alloc, which take memory from the heap or a fixed pool.
- TcpSender.Sender.ReceiveAck: congestion window, round-trip estimates and the decision for a fast retransmit are parameters; snd_nxt is kept but nothing is claimed about it.
- TcpSender.Sender.Enqueue: the callers' rule is a precondition: a call carries either bytes or one SYN or FIN, and a zero-copy call carries bytes.
- TcpLists.Stack.InputActive: the tests on sequence numbers and the verdict of the application are parameters of a segment; callbacks do not re-enter the stack.
- TcpLists.Stack.SlowTimer: the tests on timers and counters are parameters; that a connection aborted and expired at once is freed twice shows only in the lists, since the pool of blocks is not modelled.
- TcpLists.Stack.Alloc: which TIME-WAIT block and which active block have waited longest are parameters.
- Mailbox.StepInv: semaphores may wake a waiting thread at any time, which covers what they do; progress is not claimed.
- Reassembly of IP fragments, the out-of-order queue, which the small build does not have, delivery of received TCP data, socket options, select, ICMP, UDP and the hardware drivers.
