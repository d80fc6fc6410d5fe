# Verified models of the storage code

Dafny models, with proofs, of the three stateful parts of the app's native code: the exFAT allocator, file layer,
directory layer and formatter (`app/src/main/cpp/exfat_src`), the write-behind cache over a USB stick
(`app/src/main/cpp/usb_scsi.cpp`), and the event-handling lock of libusb (`app/src/main/cpp/libusb`).
`dafny verify dfyconfig.toml` checks all of it.

## Main results

- **Files are independent byte sequences.** The allocator's invariant: chains are duplicate-free and pairwise disjoint,
  the bitmap is exactly their union with the system's clusters, contiguous chains are intervals, linked ones are spelled
  out in the FAT, each has the length that its size needs, and the bitmap's own clusters hold what was last flushed.
  `FileSystems.FileSystem.Run` keeps it over every run of resizes, writes, creations, removals and flushes, lack of
  space included, and every state of the run is that of a list of byte sequences under one quota of clusters.
- **Directories are what their bytes say.** A directory is one of these files. `Catalogs.Catalog.Run`: over every run of
  creations, renames, deletions, changes and flushes, each state and each result is the one that the edit determines. A
  new name is refused exactly if no place suits and the other files leave too few clusters to grow by; each node's slots
  in the bytes of the file describe the node as last stored; and the directory read anew has exactly these nodes
  (`Catalogs.Catalog.ReadBack`).
- **A volume that is unmounted comes back.** `Formatter.Format` formats and mounts a volume.
  `RootVolumes.RootVolume.Run` ties names to files: over every run of creations, renames, removals, writes, resizes and
  flushes, each name has its own file, whose node shows its start, sizes and contiguity. `Remounts.Remount`: flushed and
  mounted again from the device alone, the volume has the same files with the same names, chains and bytes, and no
  others, if its root directory still names the bitmap in use. `Remounts.RunAndKeep` says behind which runs it does.
- **The write cache is a flat disk with crash-prefix ordering.** `ScsiCache.UsbDisk.PerformAll`: over every run of
  reads, writes, offset changes, syncs, and writes past an empty cache, each answer is that of a plain disk, and every
  image that the medium ever had is the initial one after a prefix of the caller's sector writes in program order.
- **The event lock loses no wakeup.** For any number of threads and any interleaving: mutual exclusion
  (`EventLock.MutualExclusion`), a broadcast owed to each sleeper (`EventLock.NoLostWakeup`), no deadlock
  (`EventLock.NoDeadlock`), and priority for closers (`EventLock.CloserPriority`).
- **What is written reads back.** Entry sets (`EntrySets.CommitDescribes`, `EntrySets.FlushDescribes`,
  `EntrySets.RenameDescribes`), timestamps (`Timestamps.RoundTrip`), names (`Utf.NameRoundTrip`), the boot region
  (`BootRegion.Write`, `BootRegion.Boot.Finalize`). In a directory in order, any single damaged byte of an entry set as
  this driver writes it is noticed when as many entries are read again as the set then announces
  (`Listings.DirectoryDamageIsDetected`).

## Where the code falls short

Some properties that one would expect are false. Each is stated with its exact condition.

- A write that begins between the valid size and the size of a file leaves the bytes between them to show what was on
  the device before (`FileIO.PwriteSplices`, `FileIO.PwriteExposes`).
- The FAT is one entry short when boot regions and FAT fill one cluster to the byte
  (`Geometry.FatCoversClusters`, `Geometry.FatTooShort`).
- When the root directory must be extended, `find_slot` does not look for system entries in the free slots at its end
  (`Slots.PlaceIsVacant`, `Slots.FreshRootIsOverwritten`). The comment above `check_slot` promises care not to
  overwrite them; the model follows the code.
- `shrink_directory` goes by the length of the last name, and can cut off vendor entries behind it
  (`Directories.Directory.Shrink`, `Slots.VendorEntriesAreCut`) and, in the root directory, the system's entries
  (`Directories.Directory.Delete`, `Slots.LabelIsCut`). A volume that loses the entry of its bitmap or of its upcase
  table in one of these ways cannot be mounted again (`Mounts.ReadRootdir`); a run loses none exactly if every command
  that succeeds spares them (`SystemEntries.RunSystem`).
- A damaged number of entries may go unnoticed in a set that has vendor entries (`EntryDamage.CountIsExact`,
  `VendorDamage.CountGoesUnnoticed`).
- Timestamps survive only before 2108 and in time zones that are whole quarters of an hour (`Timestamps.RoundTrip`).
- The allocated percentage wraps around on volumes with many clusters (`BootRegion.PercentIsRounded`).
- A write of 4 GiB or more through the cache does not end (`ScsiCache.WriteEndsBelow4G`), nor does a read of about as
  many bytes, unless it takes bytes that were not fetched (`ScsiCache.ReadEndsInRange`).
- Sizes of 2^32 clusters and more wrap around in `bytes2clusters` (`FileIO.ClustersOfSize`, `FileIO.SizeWrapsAround`),
  and a file that is given such a size has too few clusters for it (`FileIO.Truncate`); no file in order has such a size
  (`FileIO.FileFits`). Where the new part is erased too, the bytes of other files are at risk: of a contiguous file, all
  clusters behind it are cleared, whoever owns them (`FileIO.EraseToHeapEnd`).
- The partition table writers, and the wipes of the first and the last sectors, send sectors past the write cache. If
  others are cached then, the medium can come to hold what was written later without what was written before
  (`SectorLog.DirectWriteInStep`, `SectorLog.DirectWriteOvertakes`), and the flush can lay older sectors over newer ones
  (`SectorLog.DirectWriteStays`).

## Files

| file | what it models |
|---|---|
| Basics.dfy, Bytes.dfy | number types, the arithmetic macros, and little-endian integers |
| Bitmap.dfy | bit operations, bit search and the cluster allocator |
| Volume.dfy | cluster chains: cursor, growth with rollback, shrinking, conversion to links |
| ClusterMath.dfy | the arithmetic of positions and clusters, and rounding |
| FileIO.dfy | truncation, erasure, reading and writing of one file |
| DeviceMap.dfy | the bitmap as it lies on the device |
| FileSystem.dfy | many files on one volume, and runs of operations |
| Mkfs.dfy, Format.dfy | geometry of a new volume, what is written to it, and its first mount |
| Mount.dfy | the pieces of a mount: the root directory's size, its entries and its bitmap |
| RootVolume.dfy | volumes with files in the root directory: mounting, and runs of commands |
| SystemEntries.dfy, Remount.dfy | which runs keep the system's entries, and mounting again |
| Checksum.dfy | the rotating checksums, and the boot region through mounts and unmounts |
| DirSlots.dfy | where entry sets lie in a directory |
| Entries.dfy, Damage.dfy | what entry sets mean, byte by byte, and when a damaged byte is noticed |
| Catalog.dfy | directories as files of the volume: runs of edits, and reading anew |
| Time.dfy, Utf.dfy | timestamps and names |
| ScsiCache.dfy, Crc32.dfy | the driver's write cache, and its table-driven CRC |
| EventLock.dfy, FlyingList.dfy | libusb's event lock, and the list of transfers in flight |

Objects that the source updates in place are classes (`ClusterMap`, `Volume`, `Node`, `FileSystem`, `Directory`,
`Catalog`, `RootVolume`, `Boot`, `UsbDisk`, `Flying`, `Transfer`); their methods are proved against functions of their
state. The event lock is a state machine, one step for each access to shared state.

## Model

| member | source | states |
|---|---|---|
| `Words.UpdateBit` | app/src/main/cpp/exfat_src/exfat.h:57-65 | Setting or clearing one bit of a word changes that bit and no other, bit by bit of the result. |
| `Bitmap.Set` | app/src/main/cpp/exfat_src/exfat.h:62-63 | Exactly one bit of the whole bitmap changes, to 1. |
| `Bitmap.Clear` | app/src/main/cpp/exfat_src/exfat.h:64-65 | Exactly one bit of the whole bitmap changes, to 0. |
| `Bitmap.FullWord` | app/src/main/cpp/exfat_src/cluster.c:123-126 | A word that the search skips holds no clear bit. |
| `Bitmap.FindBitAndSet` | app/src/main/cpp/exfat_src/cluster.c:114-137 | The word-skipping search finds the least clear bit of [start, end), sets it and changes no other; it fails exactly if every bit of the range is set, and then changes nothing. |
| `ClusterMaps.NextFitIsFree` | app/src/main/cpp/exfat_src/cluster.c:194-213 | From any hint the search fails exactly on a full bitmap; otherwise the cluster is free, and every cluster it passed, cyclically from the hint, is in use. |
| `ClusterMaps.FirstFreeMatches` | app/src/main/cpp/exfat_src/cluster.c:114-137 | The bit search over words is the search for the least free cluster number over the set of used clusters. |
| `ClusterMaps.ClusterMap.constructor` | app/src/main/cpp/exfat_src/mount.c:183-333 | The set of used clusters of a mounted volume is read off the bitmap, bit for cluster. |
| `ClusterMaps.ClusterMap.Allocate` | app/src/main/cpp/exfat_src/cluster.c:194-213 | The used set gains exactly the next free cluster after the hint, or nothing when the bitmap is full. |
| `ClusterMaps.ClusterMap.Free` | app/src/main/cpp/exfat_src/cluster.c:215-223 | The used set loses exactly that cluster. |
| `FileSystems.FileSystem.Flush` | app/src/main/cpp/exfat_src/cluster.c:157-172 | Afterwards the bits on the device, behind the bitmap's start cluster, tell exactly the clusters in use; nothing is written outside the bitmap's own clusters, which belong to the system, and no file changes. |
| `ClusterMaps.ClusterMap.CountFree` | app/src/main/cpp/exfat_src/cluster.c:445-454 | The count is the number of clusters of the heap outside the used set. |
| `Chains.CapacityIsChainAndFree` | app/src/main/cpp/exfat_src/cluster.c:239-302 | What a file may grow to is its chain and all free clusters, counted without overlap. |
| `Chains.LinkNext` | app/src/main/cpp/exfat_src/cluster.c:283-295 | Linking one more cluster spells out the longer chain, also when an interval is first turned into links; FAT entries of other clusters stay. |
| `Chains.CropFat` | app/src/main/cpp/exfat_src/cluster.c:317-331 | Ending a chain early leaves both halves walkable and touches no FAT entry outside the chain. |
| `Chains.FreedKeeps` | app/src/main/cpp/exfat_src/cluster.c:341-357 | Freeing a tail leaves the part of the chain that stays spelled out and terminated. |
| `Chains.GrowthIsExact` | app/src/main/cpp/exfat_src/cluster.c:239-302 | Growing by next-fit succeeds exactly when enough clusters are free; the result extends the old chain without duplicates, by clusters that were free. |
| `Chains.GrowStep` | app/src/main/cpp/exfat_src/cluster.c:274-296 | One turn of the loop continues the growth, and a full bitmap in the middle means that the whole growth was impossible. |
| `Chains.RollBack` | app/src/main/cpp/exfat_src/cluster.c:277-282 | Taking back what was added restores the used set and the chain exactly. |
| `Chains.SameFatRollBack` | app/src/main/cpp/exfat_src/cluster.c:277-282 | Through growth and rollback, FAT entries of other files stay as they were. |
| `Volumes.Volume.NextCluster` | app/src/main/cpp/exfat_src/cluster.c:73-90 | From the k-th cluster of a chain, contiguous or linked, the walk comes to the next one, and from the last one of a terminated linked chain to the end mark. |
| `Chains.FreedLeavesRest` | app/src/main/cpp/exfat_src/cluster.c:341-357 | While a chain is freed from the front, what is left of it can still be walked. |
| `Volumes.Volume.AdvanceCluster` | app/src/main/cpp/exfat_src/cluster.c:92-112 | From any cursor that agrees with the chain, the memoised walk returns the count-th cluster of the chain, and leaves a cursor that agrees with it. |
| `Volumes.Volume.MakeNoncontiguous` | app/src/main/cpp/exfat_src/cluster.c:225-234 | Every cluster of the interval comes to name its successor, and no other FAT entry changes. |
| `Volumes.Volume.FreeClusters` | app/src/main/cpp/exfat_src/cluster.c:341-357 | Exactly the clusters of the tail leave the used set, and FAT entries change only there. |
| `Volumes.Volume.Crop` | app/src/main/cpp/exfat_src/cluster.c:317-339 | The chain becomes its prefix, the cursor stays valid for it, and the first cluster cut off is found. |
| `Volumes.Volume.ShrinkFile` | app/src/main/cpp/exfat_src/cluster.c:304-359 | The chain becomes a prefix, terminated in the FAT; exactly the cut clusters leave the used set, their FAT entries are freed, and those of other files stay. |
| `Volumes.Volume.Append` | app/src/main/cpp/exfat_src/cluster.c:283-295 | The chain gains the cluster and stays spelled out; the file stays contiguous exactly if the cluster is the next one. |
| `Volumes.Volume.AllocateNext` | app/src/main/cpp/exfat_src/cluster.c:276-295 | Allocation after the last cluster and linking together extend chain and used set by one free cluster, or change nothing. |
| `Volumes.Volume.GiveUp` | app/src/main/cpp/exfat_src/cluster.c:277-282 | When space runs out, bitmap and chain are exactly those from before the growth, also if the file was converted to links on the way. |
| `Volumes.Volume.GrowOn` | app/src/main/cpp/exfat_src/cluster.c:274-301 | The loop ends with all of the growth or with none of it, and the FAT entries of other files intact. |
| `Volumes.Volume.GrowFile` | app/src/main/cpp/exfat_src/cluster.c:239-302 | The file grows by next-fit to the full length or, exactly when free clusters are short, bitmap and chain are as before; the chain stays walkable and terminated, and other files' FAT entries stay. |
| `FileBytes.WriteCluster` | app/src/main/cpp/exfat_src/io.c:380-388 | Overwriting part of one cluster of a chain overwrites the corresponding bytes of the file and no others. |
| `FileIO.EraseRange` | app/src/main/cpp/exfat_src/cluster.c:371-404 | Exactly the bytes from begin up to the end of the cluster that holds the last byte of the range become zero, in clusters of the file only. |
| `FileIO.ClustersOfSize` | app/src/main/cpp/exfat_src/cluster.c:67-71 | The 32-bit cluster count of a size is the true one exactly for sizes of up to 2^32 - 1 clusters. |
| `FileIO.ResizedHolds` | app/src/main/cpp/exfat_src/cluster.c:406-443 | After a resize, readers see the old content cut off, or padded with zeros. |
| `FileIO.ResizeChain` | app/src/main/cpp/exfat_src/cluster.c:409-424 | The chain reaches the wanted length exactly if that fits in the capacity, as a prefix or an extension of the old one; other files keep their clusters. |
| `FileIO.RecordSize` | app/src/main/cpp/exfat_src/cluster.c:426-442 | Once the clusters are right, the file shows the resized content, with what is new cleared when asked for. |
| `FileIO.Truncate` | app/src/main/cpp/exfat_src/cluster.c:406-443 | The content is cut or padded with zeros to the size, or untouched when space is short, which is exactly decided by the capacity; clusters, FAT entries and bytes of all other files stay. The file is in order afterwards exactly if space was short or the size is at most 2^32 - 1 clusters. |
| `FileIO.SizeWrapsAround` | app/src/main/cpp/exfat_src/cluster.c:67-71 | A size of 2^32 clusters is counted as 0 clusters. |
| `FileIO.FileFits` | app/src/main/cpp/exfat_src/cluster.c:67-71 | A file in order is no larger than 2^32 - 1 clusters, and its 32-bit cluster count is the length of its chain. |
| `FileIO.EraseToHeapEnd` | app/src/main/cpp/exfat_src/cluster.c:371-404 | Erasing a contiguous file up to an end behind the heap clears every cluster behind the first erased one, whichever file it belongs to, up to the last one of the heap. |
| `FileIO.ContentWindow` | app/src/main/cpp/exfat_src/io.c:428-448 | The valid bytes of a file that lie in one cluster are a window of that cluster. |
| `FileIO.ReadValid` | app/src/main/cpp/exfat_src/io.c:421-451 | The chunk loop copies exactly the wanted bytes of the content into the buffer, across any number of clusters. |
| `FileIO.Pread` | app/src/main/cpp/exfat_src/io.c:390-452 | The call returns as many bytes as the file has from the offset on, and they are those of the content, zeros behind the valid size included. Of the rest of the buffer, exactly what the code clears is zero: a read that begins behind the valid size clears as many bytes as the size asked for and the part behind the valid size allow, which can be more than it returns; all else stays. |
| `FileIO.WriteBytes` | app/src/main/cpp/exfat_src/io.c:480-513 | The chunk loop overwrites exactly the bytes [offset, offset + size) of the file, and the heap changes only in its clusters. |
| `FileIO.WriteMore` | app/src/main/cpp/exfat_src/io.c:489-508 | A further chunk of the loop makes the write so far the write of a longer piece: chunk boundaries do not show. |
| `FileIO.Reserve` | app/src/main/cpp/exfat_src/io.c:463-476 | The file is made large enough, with zeros up to the offset; exactly when the capacity falls short the call fails, and leaves the size that the code leaves. |
| `FileIO.Pwrite` | app/src/main/cpp/exfat_src/io.c:454-514 | All outcomes: the content after a write, the size and content after a lack of space, the error for a negative offset; clusters, FAT entries and bytes of all other files stay. |
| `FileIO.PwriteSplices` | app/src/main/cpp/exfat_src/io.c:454-514 | Unless it leaves a gap behind the valid size, a write pads the old content with zeros and splices the buffer in. |
| `FileIO.PwriteOutsideGap` | app/src/main/cpp/exfat_src/io.c:454-514 | With a gap (valid size < offset <= size), that is still true of every byte outside it. |
| `FileIO.PwriteExposes` | app/src/main/cpp/exfat_src/io.c:454-514 | With a gap it is false: for every such file and write there is a device content, showing readers the same file, for which the write makes a stale byte readable. |
| `Ownership.PartitionUpdate` | app/src/main/cpp/exfat_src/cluster.c:239-359 | An operation that keeps what others use keeps chains duplicate-free, pairwise disjoint, disjoint from the system's clusters, and together equal to the set of used clusters. |
| `Ownership.PartitionSize` | app/src/main/cpp/exfat_src/cluster.c:445-454 | Conservation: the number of used clusters is the system's plus the lengths of all chains. |
| `Quota.CapacityIsQuota` | app/src/main/cpp/exfat_src/cluster.c:239-302 | What one file can grow to, seen from the bitmap, is what the cluster count leaves when the sizes of all other files are met. |
| `Quota.WriteIsPerformed` | app/src/main/cpp/exfat_src/io.c:454-514 | The outcome of a write is a splice of the byte sequence, open only in the gap behind the valid size. |
| `FileSystems.FileSystem.constructor` | app/src/main/cpp/exfat_src/mount.c:183-333 | A mounted volume whose files divide up the used clusters is in order. |
| `FileSystems.FileSystem.Truncate` | app/src/main/cpp/exfat_src/cluster.c:406-443 | One file of many is resized as a byte sequence, exactly if the demand of all files fits; every other file shows the same bytes. |
| `FileSystems.FileSystem.Write` | app/src/main/cpp/exfat_src/io.c:454-514 | One file of many is written as a byte sequence, exactly if the demand of all files fits; every other file shows the same bytes. |
| `FileSystems.FileSystem.Read` | app/src/main/cpp/exfat_src/io.c:390-452 | Reading returns the bytes of the file's sequence and changes no file, nor its clusters, nor its size. |
| `FileSystems.FileSystem.CreateFile` | app/src/main/cpp/exfat_src/node.c:894-951 | A new, empty file without clusters joins the others, which show the same bytes. |
| `FileSystems.FileSystem.RemoveFile` | app/src/main/cpp/exfat_src/node.c:62-78 | A removed file gives back its clusters, and the others show the same bytes. |
| `FileSystems.FileSystem.Run` | app/src/main/cpp/exfat_src/cluster.c:157-443 | Over every run of resizes, writes, creations, removals and flushes, lack of space included: chains and bitmap stay in order, and the files behave as independent byte sequences under one quota of clusters. |
| `Geometry.GetPosition` | app/src/main/cpp/exfat_src/mkexfat.c:149-162 | The position that the loop accumulates is the aligned one of the object table. |
| `Geometry.CheckSize` | app/src/main/cpp/exfat_src/mkexfat.c:30-52 | A volume is accepted exactly if the end of the last object lies inside it. |
| `Geometry.FrontLayout` | app/src/main/cpp/exfat_src/mkexfat.c:149-162 | The boot regions, the FAT and the heap begin at sectors 0, 12, 128 and at a whole number of clusters. |
| `Geometry.HeapStartAgrees` | app/src/main/cpp/exfat_src/vbr.c:40-69 | FAT start, FAT end and heap start, as the super block states them in sectors, are the positions of the object table in bytes. |
| `Geometry.FitsInFront` | app/src/main/cpp/exfat_src/cbm.c:35-40 | If the volume is accepted, its heap begins inside it, and the bitmap has a byte for every eight clusters. |
| `Geometry.HeapLayout` | app/src/main/cpp/exfat_src/mkexfat.c:30-162 | Bitmap, upcase table and root directory follow one another by whole clusters, and all fit in an accepted volume. |
| `Geometry.GeometryAgrees` | app/src/main/cpp/exfat_src/vbr.c:40-69 | The geometry computed by the object table and by the super block is one: cluster numbers stored in super block and upcase entry are those of the objects, the heap ends inside the volume, and the bitmap has ceil(clusters / 8) bytes. |
| `Geometry.FatCoversClusters` | app/src/main/cpp/exfat_src/fat.c:29-37 | The FAT has an entry for every cluster number exactly if the cluster size is not 128 sectors plus four bytes for each cluster that the volume holds. |
| `Geometry.FatTooShort` | app/src/main/cpp/exfat_src/fat.c:29-37 | A volume of 2 GiB with clusters of 128 KiB is accepted, and its FAT has one entry less than its clusters need. |
| `Geometry.ClustersOnDevice` | app/src/main/cpp/exfat_src/cluster.c:31-53 | On the device, clusters lie one after the other, behind the FAT and inside the volume. |
| `LittleEndian.RoundTrip` | app/src/main/cpp/exfat_src/byteorder.h:36-60 | A number that fits in n bytes comes back from its bytes. |
| `LittleEndian.Fits` | app/src/main/cpp/exfat_src/byteorder.h:36-60 | n bytes hold a number below 256^n, and come back from it. |
| `Formatter.FatWriteEntries` | app/src/main/cpp/exfat_src/fat.c:51-63 | The chain written is one of consecutive clusters that ends in the end mark; no other entry changes. |
| `Formatter.FatWrite` | app/src/main/cpp/exfat_src/fat.c:65-81 | The chains of bitmap, upcase table and root directory lie one behind the other from cluster 2 on, behind the two media entries; no other entry changes. |
| `Formatter.CbmWrite` | app/src/main/cpp/exfat_src/cbm.c:42-72 | Of the bits of the bitmap on the device exactly those of the allocated clusters come to be set, the partial last byte included, whatever was there before; no other cluster changes. |
| `Mounts.RootdirSize` | app/src/main/cpp/exfat_src/mount.c:31-59 | For any FAT: if it spells out a chain from that cluster to an end mark, the size is that of the chain's clusters; if the chain never ends or leaves the heap, it is 0. |
| `Mounts.EndedChainIsFresh` | app/src/main/cpp/exfat_src/mount.c:39-42 | A chain that ends visits no cluster twice, so that the limit on the walk cuts off none. |
| `Formatter.SystemEntryReadsBack` | app/src/main/cpp/exfat_src/rootdir.c:53-76 | The start cluster and the size stored in a system entry are the ones read back. |
| `Formatter.FreshPartition` | app/src/main/cpp/exfat_src/cbm.c:42-72 | The clusters marked in a fresh bitmap are exactly those of the system and of the root directory, divided without overlap. |
| `Formatter.WellTiedVolume` | app/src/main/cpp/exfat_src/rootdir.c:53-76 | Super block and root entries name the clusters at which the chains in the FAT begin, and the lengths that those have; the chains of bitmap and upcase table are the system's clusters. |
| `Mounts.LoadBitmap` | app/src/main/cpp/exfat_src/node.c:465-502 | The map in memory is the bitmap on the device, in whole words, and its used set is exactly the set of clusters whose bit is set there. |
| `Mounts.ReadRootdir` | app/src/main/cpp/exfat_src/node.c:399-530 | The bitmap is found exactly if the directory names a bitmap and an upcase table, every bitmap entry, the first upcase entry and every label entry being good; the map is read from the last bitmap entry. |
| `Mounts.ReadRoot` | app/src/main/cpp/exfat_src/io.c:421-451 | Read cluster by cluster along its chain in the FAT, the root directory's bytes are those of the chain. |
| `Formatter.FreshIsImage` | app/src/main/cpp/exfat_src/mkexfat.c:127-147 | What mkfs leaves on the device is a volume in order without files: a root directory of good system entries, and in the bitmap exactly the clusters of the system and of that directory. |
| `Mounts.FlushAndLoad` | app/src/main/cpp/exfat_src/cluster.c:157-172 | A bitmap that is flushed and loaded again has the same clusters in use, and no file changes. |
| `Formatter.Format` | app/src/main/cpp/exfat_src/mkexfat.c:127-147 | End to end, mount included: a volume too small for its structures is refused; any other, its FAT not one entry short, comes up in order and without files, with exactly the clusters of bitmap, upcase table and root directory in use, in memory and on the device, and with a root directory that holds the three system entries and zeros. |
| `Checksum.SumAppend` | app/src/main/cpp/exfat_src/utils.c:61-68 | The sum of two pieces is the sum of the second continued from the first. |
| `Checksum.NextInjective` | app/src/main/cpp/exfat_src/utils.c:56-59 | A step of the sum, 16 or 32 bits wide, tells apart different sums and different bytes. |
| `Checksum.OneByteDetected` | app/src/main/cpp/exfat_src/utils.c:56-68 | One changed byte anywhere changes the sum. |
| `Checksum.CountedIgnoresSkipped` | app/src/main/cpp/exfat_src/utils.c:70-79 | The sum depends on no skipped byte. |
| `Checksum.Start` | app/src/main/cpp/exfat_src/utils.c:97-107 | The loop that skips bytes sums up the others, in order. |
| `Checksum.AddBytes` | app/src/main/cpp/exfat_src/utils.c:109-116 | The loop continues the sum over all bytes of a sector or an entry. |
| `BootRegion.Verify` | app/src/main/cpp/exfat_src/mount.c:109-145 | A boot region is accepted exactly if every word of its last sector is the sum of the eleven others. |
| `BootRegion.Write` | app/src/main/cpp/exfat_src/vbr.c:82-141 | The twelve sectors written behind any super block are accepted, and eight of them end in the boot signature. |
| `BootRegion.SkippedBytesMayChange` | app/src/main/cpp/exfat_src/utils.c:97-107 | A boot region stays accepted when volume state and allocated percentage change. |
| `BootRegion.OtherByteIsDetected` | app/src/main/cpp/exfat_src/mount.c:109-145 | It is no longer accepted when any other single byte of the super block changes. |
| `BootRegion.Boot.Soil` | app/src/main/cpp/exfat_src/mount.c:157-165 | Marking the volume as mounted sets that one bit of the state, and the region stays accepted. |
| `BootRegion.Boot.Finalize` | app/src/main/cpp/exfat_src/mount.c:343-363 | Unmounting clears that bit, updates the percentage unless it is 0xFF, and the region stays accepted. |
| `BootRegion.MountedMark` | app/src/main/cpp/exfat_src/mount.c:157-165 | Setting and clearing the mark changes no other bit of the stored state. |
| `BootRegion.PercentIsRounded` | app/src/main/cpp/exfat_src/mount.c:352-360 | The stored percentage is that of the clusters in use, rounded, exactly if a hundred times their number plus half the cluster count stays below 2^32. |
| `BootRegion.PercentWrapsAround` | app/src/main/cpp/exfat_src/mount.c:352-360 | A full volume of 42,949,673 clusters is stored as 0 percent. |
| `Calendar.NextDayNumber` | app/src/main/cpp/exfat_src/time.c:89-95 | The decoder's sum of years, leap days, months and days advances by one from each day of the calendar to the next. |
| `Calendar.DateOfNumber` | app/src/main/cpp/exfat_src/time.c:89-95 | A valid date is the one reached by counting off, day by day, as many days as the decoder computes. |
| `Timestamps.FindMonth` | app/src/main/cpp/exfat_src/time.c:132-145 | The month search splits a day of the year into a valid date of that year with the same day number. |
| `Timestamps.YearOf` | app/src/main/cpp/exfat_src/time.c:129-131 | The year formula finds the year that contains the day. |
| `Calendar.YearWraps` | app/src/main/cpp/exfat_src/time.c:151 | A year stored in seven bits stands for the same day of a span of 128 years. |
| `Timestamps.FromUnix` | app/src/main/cpp/exfat_src/time.c:114-158 | The encoder stores the date that counting days from 1980 finds, its year in seven bits, and the clock of the local day. |
| `Timestamps.StampReadsBack` | app/src/main/cpp/exfat_src/time.c:56-112 | The decoder accepts every stamp of the encoder, and reads back the local time, less the stored zone and less whole spans of 128 years. |
| `Timestamps.ZoneRoundTrip` | app/src/main/cpp/exfat_src/time.c:103-109 | The zone comes back from its byte exactly if it is a whole number of quarters of an hour between -64 and 63. |
| `Timestamps.RoundTrip` | app/src/main/cpp/exfat_src/time.c:56-158 | An instant reads back unchanged (or as 1980, if earlier), in any zone, exactly if it lies before 2108 and the zone it was stored in comes back. |
| `Timestamps.EvenSeconds` | app/src/main/cpp/exfat_src/node.c:139-141 | An access time, stored without centiseconds, loses the odd second and nothing else. |
| `Utf.Utf8RoundTrip` | app/src/main/cpp/exfat_src/utf.c:26-193 | A character comes back from its encoding in UTF-8, whatever follows it. |
| `Utf.Utf16RoundTrip` | app/src/main/cpp/exfat_src/utf.c:85-210 | The units that a character is read from are the units that it is written as. |
| `Utf.ThreeBytesAUnit` | app/src/main/cpp/exfat_src/exfat.h:44 | A character takes at most three bytes for each of its units. |
| `Utf.NameRoundTrip` | app/src/main/cpp/exfat_src/utf.c:104-245 | Every name without NULs that converts to UTF-8 comes back unchanged, given room. |
| `Utf.NamesFit` | app/src/main/cpp/exfat_src/exfat.h:44 | A buffer of 3n + 1 bytes is never too small for a name of n units. |
| `Utf.Utf16ToUtf8` | app/src/main/cpp/exfat_src/utf.c:104-137 | The pointer loop writes exactly the converted string with its NUL, or reports the first error met. |
| `Utf.Utf8ToUtf16` | app/src/main/cpp/exfat_src/utf.c:212-245 | The pointer loop writes exactly the converted string with its NUL, or reports the first error met. |
| `EntryLayout.Meta1RoundTrip` | app/src/main/cpp/exfat_src/exfatfs.h:135-151 | The fields of a file entry come back from its 32 bytes. |
| `EntryLayout.Meta2RoundTrip` | app/src/main/cpp/exfat_src/exfatfs.h:156-170 | The fields of an info entry come back from its 32 bytes. |
| `EntryLayout.UnitsRoundTrip` | app/src/main/cpp/exfat_src/exfatfs.h:172-179 | The 15 units of a name entry come back from its 32 bytes. |
| `EntrySets.CheckEntries` | app/src/main/cpp/exfat_src/node.c:165-207 | Accepted is exactly a file entry, an info entry, one name entry or more, and any number of vendor entries. |
| `EntrySets.CalcChecksum` | app/src/main/cpp/exfat_src/utils.c:86-95 | The loop computes the set's checksum, without the checksum's own bytes. |
| `EntrySets.SealedMatches` | app/src/main/cpp/exfat_src/utils.c:70-95 | Storing the checksum in the set leaves the checksum unchanged. |
| `EntrySets.SealedDescribes` | app/src/main/cpp/exfat_src/node.c:296-334 | A well-formed set with its checksum stored describes the node that it means, exactly if that node is sound. |
| `EntrySets.DescribedParts` | app/src/main/cpp/exfat_src/node.c:296-334 | A set that is parsed to a node is well-formed, means that node, and the node is sound. |
| `EntrySets.CommitDescribes` | app/src/main/cpp/exfat_src/node.c:894-951 | For every name of 1 to 255 units, what commit_entry writes parses back to the node that it keeps in memory. |
| `EntrySets.FlushDescribes` | app/src/main/cpp/exfat_src/node.c:628-678 | What exfat_flush_node writes parses back to the node in memory, times as they can be stored and no mark of contiguity on an empty file, exactly if that node is sound. |
| `EntrySets.RenameDescribes` | app/src/main/cpp/exfat_src/node.c:1025-1071 | What rename_entry writes parses back to the stored node with the new name. |
| `EntrySets.FileIsSound` | app/src/main/cpp/exfat_src/node.c:209-294 | What the allocator keeps true of a file is what check_node asks for when its flushed entries are read again. |
| `EntryDamage.OtherByteIsDetected` | app/src/main/cpp/exfat_src/node.c:387-398 | After a change of any single byte of a set, but for the number of its entries, no file is read at its place. |
| `EntryDamage.CountIsExact` | app/src/main/cpp/exfat_src/node.c:336-361 | After a change of that number, as many entries are read as it then says; a file is read from them exactly if they have the right types and contain the names, and their sum is the stored one, and it is the same file but for that number. |
| `EntryDamage.DamageIsDetected` | app/src/main/cpp/exfat_src/node.c:387-398 | After a change of any single byte of a set without vendor entries, followed by neither a name nor a vendor entry, no file is read at its place. |
| `Listings.DirectoryDamageIsDetected` | app/src/main/cpp/exfat_src/node.c:387-398 | In a directory in order, that is so for every set without vendor entries, wherever it lies: what follows it is never a name or a vendor entry. |
| `EntryDamage.WrittenSetsArePlain` | app/src/main/cpp/exfat_src/node.c:628-1071 | The sets that this driver writes have no vendor entries. |
| `VendorDamage.CountGoesUnnoticed` | app/src/main/cpp/exfat_src/node.c:336-361 | A set with a vendor entry whose number of entries is damaged from 3 to 2, and the file is still read. |
| `Slots.TailIsUnique` | app/src/main/cpp/exfat_src/node.c:885-891 | The place at the end of the directory, where a set goes that fits nowhere, is determined by the nodes alone. |
| `Slots.PlaceIsVacant` | app/src/main/cpp/exfat_src/node.c:853-891 | The place found holds no valid entry exactly if some place suits, or no valid entry lies in the free slots at the end; outside the root directory that is always so. |
| `Slots.FreshRootIsOverwritten` | app/src/main/cpp/exfat_src/node.c:885-891 | In a fresh root directory of 16 entries, a set of 19 is placed over label, bitmap and upcase entries. |
| `Slots.LastBoundsAll` | app/src/main/cpp/exfat_src/node.c:712-755 | Cutting a directory keeps all nodes exactly if it keeps the last one. |
| `Slots.VendorEntriesAreCut` | app/src/main/cpp/exfat_src/node.c:740-755 | 14 vendor entries behind a short name lose their last one when a two-cluster directory is shrunk. |
| `Slots.DeletionKeepsEntries` | app/src/main/cpp/exfat_src/node.c:712-755 | Cutting the directory loses no valid entry outside the deleted set exactly if none lies behind the cut. |
| `Slots.LabelIsCut` | app/src/main/cpp/exfat_src/node.c:712-755 | In a root directory of two clusters with its label in the second, deleting the only file in the first cuts the label off. |
| `Directories.Directory.BuildMap` | app/src/main/cpp/exfat_src/node.c:849-851 | A bit is set exactly for each slot that some node takes. |
| `Directories.Directory.CheckSlot` | app/src/main/cpp/exfat_src/node.c:807-827 | Only in the root directory, and exactly for valid entries in the way, is a place refused. |
| `Directories.Directory.Search` | app/src/main/cpp/exfat_src/node.c:853-887 | The search ends although its index moves back, and finds the first place that suits, or else the free end of the directory. |
| `Directories.Directory.FindSlot` | app/src/main/cpp/exfat_src/node.c:829-892 | The place is the first that suits, or the free end after an extension by zeros to whole clusters; without room nothing changes, and only when no place suits. |
| `Directories.Directory.Attach` | app/src/main/cpp/exfat_src/node.c:894-951 | A set written to slots free of nodes keeps all sets apart, inside and valid; nothing else is overwritten. |
| `Directories.Directory.Create` | app/src/main/cpp/exfat_src/node.c:953-988 | The new set lies apart from all others; it overwrites no valid entry exactly if it can be placed without doing so, and elsewhere entries stay. |
| `Directories.Directory.Detach` | app/src/main/cpp/exfat_src/node.c:680-710 | Exactly the entries of that node become invalid, and the others stay in order. |
| `Directories.Directory.Rename` | app/src/main/cpp/exfat_src/node.c:1025-1071 | Within a directory or across two, the node moves to the first place for its new length, apart from all others; it overwrites no valid entry exactly if it can be placed without doing so; the types of both directories afterwards are stated; without room nothing changes. |
| `Directories.Directory.Shrink` | app/src/main/cpp/exfat_src/node.c:712-755 | The directory is cut to whole clusters behind the last name; all nodes stay whole exactly if another set follows the deleted one, or the last set, by its place and length, fits in what its name leaves. |
| `Directories.Directory.Delete` | app/src/main/cpp/exfat_src/node.c:757-783 | The node goes; the others stay whole exactly if another set follows or the last has room for what follows its name; and all other valid entries, the system's included, stay exactly if none lies behind the size that the last name leaves. |
| `Directories.Directory.Run` | app/src/main/cpp/exfat_src/node.c:680-1071 | Over every run of creations, renames and deletions, entry sets stay pairwise disjoint, inside the directory and valid, if each has room for what follows its name to begin with. |
| `Listings.CacheDirectory` | app/src/main/cpp/exfat_src/node.c:387-567 | Of a directory in order exactly its nodes are found, each as stored and where it is stored, from front to back. |
| `Catalogs.Catalog.WriteEntries` | app/src/main/cpp/exfat_src/node.c:101-118 | Writing entries that are there always succeeds, changes those of the directory's file only, and no other file. |
| `Catalogs.Catalog.Resize` | app/src/main/cpp/exfat_src/node.c:885-891 | The directory's file can always shrink, and grows exactly if the demand of all files then fits in the volume. |
| `Catalogs.Catalog.Place` | app/src/main/cpp/exfat_src/node.c:829-892 | A place for a set is refused exactly if none suits and the volume has not the clusters by which the directory would grow. |
| `Catalogs.Catalog.Create` | app/src/main/cpp/exfat_src/node.c:894-988 | A new node joins the list, and its slots in the directory's file, the first place that suits, describe it; no other entry changes; it is refused exactly if the directory is full, and then nothing changes. |
| `Catalogs.Catalog.Rename` | app/src/main/cpp/exfat_src/node.c:1025-1071 | The node moves to the first place for its new name, whose slots describe it, and its old entries are erased; no other entry changes; it is refused exactly if the directory is full. |
| `Catalogs.Catalog.Delete` | app/src/main/cpp/exfat_src/node.c:757-783 | The node goes and its entries lose their valid bits, the file is cut to the size by the last name, and the other nodes' slots describe them as before. |
| `Catalogs.Catalog.Change` | app/src/main/cpp/exfat_src/node.c:1172-1188 | A node in memory changes, to one that can be stored, and is marked; what is stored stays. |
| `Catalogs.Catalog.FlushNode` | app/src/main/cpp/exfat_src/node.c:628-678 | The slots of a marked node come to describe it as it is in memory, where it stays as it is, and the bitmap on the device the clusters in use; the mark goes. Without a mark nothing happens. |
| `Catalogs.Catalog.Run` | app/src/main/cpp/exfat_src/node.c:628-1071 | Over every run of creations, renames, deletions, changes and flushes, every state of entries, places, stored nodes, nodes in memory and marks is the one that the edit before it determines: a new name is refused exactly if no place suits and the clusters that the other files leave are too few to grow by, and a refused edit changes nothing. Throughout, each node's slots in the bytes of the directory's file describe the node as last stored, and no other file changes. |
| `Catalogs.Catalog.ReadBack` | app/src/main/cpp/exfat_src/node.c:532-567 | A directory read anew from its file has exactly the nodes that were stored in it, as last stored. |
| `Images.LoadVolume` | app/src/main/cpp/exfat_src/mount.c:302-343 | Of a device in order, the root directory's entries and the map are read as they are on it. |
| `Matchings.PartitionOrdered` | app/src/main/cpp/exfat_src/mount.c:302-343 | The division of the clusters among the files does not depend on the order in which they are found. |
| `RootVolumes.ReadNodes` | app/src/main/cpp/exfat_src/node.c:532-567 | All files of the root directory are found, each once, with their fields and their places. |
| `RootVolumes.Mount` | app/src/main/cpp/exfat_src/mount.c:302-343 | A device in order, with files in its root directory, comes up: the same entries and system clusters, exactly the clusters marked on the device in use, and each file with its fields, its chain and its bytes. |
| `RootVolumes.RootVolume.Make` | app/src/main/cpp/exfat_src/node.c:894-988 | A name in the directory and an empty file behind it, or neither, exactly as the directory has room. |
| `RootVolumes.RootVolume.Rename` | app/src/main/cpp/exfat_src/node.c:1025-1071 | The name changes and the file behind it stays, its bytes included. |
| `RootVolumes.RootVolume.Remove` | app/src/main/cpp/exfat_src/node.c:757-805 | The name goes, and the file behind it with its clusters; the other names keep their files. |
| `RootVolumes.RootVolume.Store` | app/src/main/cpp/exfat_src/io.c:454-514 | The file is written as a byte sequence under the quota, and its node comes to show its start, sizes, contiguity and time. |
| `RootVolumes.RootVolume.Resize` | app/src/main/cpp/exfat_src/cluster.c:406-443 | The file is resized as a byte sequence under the quota, and its node comes to show its start, sizes, contiguity and time, the time renewed exactly if the size changed. |
| `RootVolumes.RootVolume.FlushAll` | app/src/main/cpp/exfat_src/cluster.c:139-172 | No node stays marked and the bitmap on the device tells the clusters in use; no file but the directory changes, and of the directory only entries of its files. |
| `RootVolumes.RootVolume.Run` | app/src/main/cpp/exfat_src/node.c:628-1071 | Over every run of creations, renames, removals, writes, resizes and flushes: every state of names, nodes and bytes, and every result, is the one that the command before it determines; each node has the start, the sizes and the contiguity of its own file, and each name its own file. |
| `SystemEntries.PlaceSparesSystem` | app/src/main/cpp/exfat_src/node.c:853-891 | No entry of the system lies where a new set goes, exactly if some place suits or no valid entry lies in the free slots at the end. |
| `SystemEntries.EditSystem` | app/src/main/cpp/exfat_src/node.c:680-1071 | No edit adds or changes an entry of the system; each keeps all of them exactly if a new set can be placed without overwriting, or no system entry lies behind the size that the last name leaves. |
| `SystemEntries.RunSystem` | app/src/main/cpp/exfat_src/node.c:680-1071 | Over every run, the entries of the system are all there at the end exactly if every command that succeeded spared them: what is lost does not come back. |
| `Remounts.ClosedFileIsStored` | app/src/main/cpp/exfat_src/node.c:628-678 | Start, size and contiguity as stored of a flushed file are those of a chain that the FAT spells out, as long as the size needs. |
| `Remounts.CleanIsImage` | app/src/main/cpp/exfat_src/mount.c:365-374 | What a flushed volume leaves on its device is a device in order, its bitmap still named by the root directory. |
| `Remounts.RunAndKeep` | app/src/main/cpp/exfat_src/node.c:628-1071 | A run of commands on a volume whose bitmap is named: if every command that succeeded spared the entries of the system, and exactly then, they are all there, and the bitmap is named as before, as mounting again asks. |
| `Remounts.Remount` | app/src/main/cpp/exfat_src/mount.c:302-374 | Unmounted and mounted again, a volume has the same files and no others, each with its name, its chain and its bytes, and with its fields as they were if it was not changed, or as they could be stored; the clusters in use are the same. The root directory must still name the bitmap in use. |
| `SectorLog.ReplayRun` | app/src/main/cpp/usb_scsi.cpp:169-178 | Writing a run of sectors one by one lays it over the disk. |
| `SectorLog.ViewIsReplay` | app/src/main/cpp/usb_scsi.cpp:169-240 | The disk with the cached run laid over it is the initial disk after all writes so far. |
| `SectorLog.FlushKeepsOrder` | app/src/main/cpp/usb_scsi.cpp:169-178 | Every image that the disk takes on during a flush is the initial disk after a prefix of the writes; after it nothing is cached. |
| `SectorLog.AppendKeepsOrder` | app/src/main/cpp/usb_scsi.cpp:208-210 | Caching sectors behind the run keeps the cache equal to the writes that have not reached the disk. |
| `SectorLog.DirectWriteInStep` | app/src/main/cpp/usb_scsi.cpp:346-498 | Sectors written past the cache: after each of them the medium is what all writes so far amount to, exactly if what is cached would change no sector but the first of them. |
| `SectorLog.DirectWriteStays` | app/src/main/cpp/usb_scsi.cpp:346-498 | Once the cached run is flushed behind them, all writes have their effect exactly if the two agree where they overlap. |
| `SectorLog.DirectWriteOvertakes` | app/src/main/cpp/usb_scsi.cpp:456-498 | One cached sector, and one written past it: the medium comes to hold the second without the first, which no prefix of the writes does. |
| `SectorLog.SplicedBytes` | app/src/main/cpp/usb_scsi.cpp:199-230 | In bytes, a write changes exactly [offset, offset + count). |
| `SectorLog.CallWritesSplice` | app/src/main/cpp/usb_scsi.cpp:199-230 | The sector writes of a call, each touched sector once and in ascending order, amount to that. |
| `ScsiCache.WriteEndsBelow4G` | app/src/main/cpp/usb_scsi.cpp:182-231 | The writing loop ends exactly for calls of less than 4 GiB. |
| `ScsiCache.ReadEndsInRange` | app/src/main/cpp/usb_scsi.cpp:182-198 | The reading loop ends, with no byte taken that was not fetched, exactly if the 32-bit sum of its first turn does not wrap around. |
| `ScsiCache.UsbDisk.Flush` | app/src/main/cpp/usb_scsi.cpp:169-178 | The disk becomes the view, in order, and the cache empty. |
| `ScsiCache.UsbDisk.CacheSectors` | app/src/main/cpp/usb_scsi.cpp:201-219 | Whole sectors come to lie over the view and at the end of the log, appended to the run or behind a flush. |
| `ScsiCache.UsbDisk.WriteEdge` | app/src/main/cpp/usb_scsi.cpp:220-229 | A partly covered sector keeps its other bytes; its write reaches the disk after all cached ones. |
| `ScsiCache.UsbDisk.WriteStep` | app/src/main/cpp/usb_scsi.cpp:199-230 | Each turn moves at least a byte, and carries call and log on by whole sectors. |
| `ScsiCache.UsbDisk.Write` | app/src/main/cpp/usb_scsi.cpp:179-240 | Of the view exactly the bytes of the call change; the log grows by one write for each touched sector, in ascending order. |
| `ScsiCache.UsbDisk.Read` | app/src/main/cpp/usb_scsi.cpp:179-240 | The buffer receives the bytes of the view, across chunks, and the view stays. |
| `ScsiCache.UsbDisk.SetPartitionOffset` | app/src/main/cpp/usb_scsi.cpp:595-598 | The view stays as it is. |
| `ScsiCache.UsbDisk.Sync` | app/src/main/cpp/usb_scsi.cpp:479-484 | The disk is the view, and every write of the log has reached it. |
| `ScsiCache.UsbDisk.WriteDirect` | app/src/main/cpp/usb_scsi.cpp:346-498 | On an empty cache a WRITE(10) past it is one more run of the log; otherwise the images stay in step with the log, and the flush behind them repairs it, exactly under the two conditions above. |
| `ScsiCache.UsbDisk.Perform` | app/src/main/cpp/usb_scsi.cpp:179-240 | Each command is answered, and changes the state, as on a flat disk. |
| `ScsiCache.UsbDisk.PerformAll` | app/src/main/cpp/usb_scsi.cpp:169-498 | Over every run of commands, writes past the cache included where it is known to be empty, the driver is a flat disk, and every image the medium ever had is the initial one after a prefix of the run's sector writes. |
| `Crc32.EightSteps` | app/src/main/cpp/usb_scsi.cpp:340-344 | Eight steps of the division by bits are one table entry and a shift. |
| `Crc32.InitTable` | app/src/main/cpp/usb_scsi.cpp:329-338 | Each of the 256 entries is the remainder of its index. |
| `Crc32.Crc` | app/src/main/cpp/usb_scsi.cpp:340-344 | Looking up byte by byte computes the remainder of the division bit by bit. |
| `Crc32.OneByteDetected` | app/src/main/cpp/usb_scsi.cpp:340-344 | One changed byte changes the remainder. |
| `EventLock.LocksStay` | app/src/main/cpp/libusb/io.c:1800-1939 | In every step, each lock is held by exactly the thread whose place in the program says so. |
| `EventLock.ActiveStays` | app/src/main/cpp/libusb/io.c:1800-1868 | event_handler_active is set exactly while the holder of the events lock is between setting and clearing it. |
| `EventLock.FlagsStay` | app/src/main/cpp/libusb/core.c:1618-1670 | device_close counts the closers at work, its flag is up while there is one, and the event is signalled exactly if a flag is up. |
| `EventLock.NotCompletedStays` | app/src/main/cpp/libusb/io.c:2352-2406 | A waiter that found its request incomplete stays right until it sleeps: nobody completes it in between. |
| `EventLock.OwedStays` | app/src/main/cpp/libusb/io.c:1858-1939 | A step keeps it true that some thread owes a broadcast whenever one sleeps or is about to. |
| `EventLock.MutualExclusion` | app/src/main/cpp/libusb/io.c:1800-1868 | In every reachable state, for any number of threads, at most one polls, handles events or closes a device. |
| `EventLock.NoLostWakeup` | app/src/main/cpp/libusb/io.c:1858-2406 | In every reachable state, another thread owes a broadcast to each sleeper, completed or not, and to whoever is about to sleep, who never does so on a completed request. |
| `EventLock.BroadcastWakesAll` | app/src/main/cpp/libusb/io.c:1858-1872 | After a broadcast nobody sleeps, nor is about to. |
| `EventLock.ClosersAreCounted` | app/src/main/cpp/libusb/core.c:1618-1670 | In every reachable state device_close is the number of closers at work, and while there is one the event wakes the poller. |
| `EventLock.NoDeadlock` | app/src/main/cpp/libusb/io.c:1800-2406 | In every reachable state some thread can move on its own, or all are idle, asleep or polling, no device is being closed, and whoever sleeps has a poller. |
| `EventLock.CloserPriority` | app/src/main/cpp/libusb/io.c:1800-1824 | While a closer is at work, a thread can become the event handler only if it had already found none, and then once. |
| `Timespecs.Deadline` | app/src/main/cpp/libusb/io.c:1245-1263 | The deadline lies the timeout after now, in normal form; there is none exactly for a timeout of 0. |
| `Timespecs.LaterIsGreater` | app/src/main/cpp/libusb/libusbi.h:285-288 | Comparing field by field compares instants. |
| `Timespecs.NothingExpiredBehind` | app/src/main/cpp/libusb/io.c:2068-2099 | Behind a deadline in the future, or none, no deadline has passed: stopping early is right. |
| `FlyingList.Flying.Add` | app/src/main/cpp/libusb/io.c:1395-1452 | The transfer goes behind all that are due no later, and the list stays sorted, transfers without a deadline last. |
| `FlyingList.Flying.Remove` | app/src/main/cpp/libusb/io.c:1460-1473 | The list loses exactly that transfer and stays sorted. |
| `FlyingList.Flying.HandleTimeouts` | app/src/main/cpp/libusb/io.c:2052-2099 | Exactly the transfers whose deadline has passed, not handled before nor left to the system, are handled and cancelled; those that the backend lets cancel are marked as timed out. |
| `FlyingList.Flying.CloseDevice` | app/src/main/cpp/libusb/core.c:1551-1598 | Exactly the transfers of the device leave the list, those of others stay, in their order, and no deadline changes. |

## Left out

- Raw I/O errors inside exFAT: every device access succeeds; lack of space is modelled, with what it leaves behind.
- Failing SCSI commands, INQUIRY, sense data and retries: commands succeed. On a failure the flush drops its run.
- Sector sizes of the stick other than 512 bytes: the bounce buffer holds 2048 sectors of that size.
- Allocation failures of the write cache, of buffers and of nodes.
- FileIO.Truncate: with `erase`, only for sizes of at most 2^32 - 1 clusters: beyond, the erasing loop walks on behind the end of a chain that the wrapped count made too short. FileIO.EraseToHeapEnd says what it then overwrites of a contiguous file; with a linked one `exfat_bug` ends the driver at the end of the file's own chain.
- FileIO.Pwrite: only for ends of at most 2^32 - 1 clusters: what is written beyond would go to no cluster of the file.
- FileIO.Reserve: for the same ends only.
- FileSystems.FileSystem.Truncate: for sizes of at most 2^32 - 1 clusters, at which FileIO.Truncate keeps the file in order.
- FileSystems.FileSystem.Run: for commands within these bounds.
- FileSystems.FileSystem.CreateFile: as far as clusters go; RootVolumes.RootVolume.Make adds the entries of a new file.
- FileSystems.FileSystem.Write: leaves the bytes in the gap behind the valid size open, as the code does; FileIO.Pwrite says what they are.
- Volumes.Volume.AdvanceCluster: only for counts below the length of the chain; callers ask for no other.
- FileIO.EraseRange: `begin | (cluster_size - 1)` is written as arithmetic on the cluster that holds `begin`.
- Mounts.ReadRootdir: file entries and those of unknown kinds are passed over; Listings.CacheDirectory reads the files. The upcase table is checked by its entry and not read.
- RootVolumes.Mount: for devices in order; the mount also accepts others, whose chains cross or do not fit the bitmap. The super block's checks are those of BootRegion.Verify; its remaining fields are parameters.
- RootVolumes.RootVolume.Run: for volumes without subdirectories, names of 1 to 255 units, ends and sizes of at most 2^32 - 1 clusters, and times whose year the encoder can hold; attributes, once given, stay. A file is removed with its name, as when nobody has it open.
- RootVolumes.RootVolume.Make: for files; `mkdir` also gives the new directory a cluster.
- Remounts.Remount: without the volume state and the percentage in the super block, which BootRegion.Boot keeps.
- Formatter.Format: not for the one geometry in which the FAT is an entry short; the upcase table's own clusters are not written, and the device's content in front of the heap is not kept.
- Words and Bitmap: words have 64 bits, and bits are read and set by arithmetic on naturals.
- FAT and heap are sequences of entries and of clusters; Geometry.ClustersOnDevice says where those lie on the device.
- The tree of cached nodes, reference counts, names of directories on the path and their lookup: files are a flat list, directories are studied one at a time.
- Directories.Directory.FindSlot: whether the directory can grow is given; Catalogs.Catalog.Place decides it.
- Catalogs: renames from one directory to another, which Directories.Directory.Rename covers without the bytes; the directory's own node, its times and its entries in its parent. How many entries a name takes goes by the stored length of the name, where the driver counts the units up to the first NUL: names with a NUL inside are not modelled.
- Listings.CacheDirectory: for directories in order; valid entries of other kinds than files, bitmap, upcase table and label stop it, unless a repair is asked for.
- EntrySets.FlushDescribes: for times whose year fits in the encoder's 16 bits, as Timestamps.FromUnix is.
- EntryDamage.DamageIsDetected: for mounts without the repair option, which can accept a wrong checksum.
- Timestamps.FromUnix: for instants of the first 65536 years from 1980 on, which the 16-bit variable for the year can hold.
- Timestamps.RoundTrip: for zones within 64 years of UTC, or instants before 2108.
- The hash of names and the upcase table: the hash is a parameter.
- BootRegion.Write: for sectors of 512 bytes, the only size that mkfs uses; the contents of the super block are a parameter.
- BootRegion.Verify: for sectors of 512 bytes; the mount also accepts larger ones.
- ScsiCache.UsbDisk.Sync: the SYNCHRONIZE CACHE command behind the flush, which the array of sectors needs not, and its result.
- ScsiCache.UsbDisk.Write: for calls below 4 GiB, the ones that end.
- SectorLog and ScsiCache: offsets lie on the device, which has at most 2^32 sectors.
- EventLock: threads use `libusb_handle_events` and `libusb_close` only; calls of `libusb_lock_events` by the application, recursive calls from callbacks, and closing from within the handler, which takes no lock, are not steps of their own.
- EventLock: failures to allocate event data, the hotplug list and the list of completed transfers.
- EventLock.NoLostWakeup: is a safety property; that the owing thread gets to run is up to the scheduler.
- FlyingList: the OS timer is not armed; submission is its list operation only.
- FlyingList.Flying.Cancel: whether the backend accepts a cancellation is given.
- The GPT and MBR writers and the wipes: what their sectors hold, field packing around Crc32.Crc; ScsiCache.UsbDisk.WriteDirect is how they are sent.
- The FAT formatter, label updates, file statistics, option parsing, used-sector queries.
- JNI bridges, logging, progress callbacks, and the ext2fs, NTFS, F2FS, XFS and UDF tools.
- libusb's descriptors, hotplug, backends and log.
