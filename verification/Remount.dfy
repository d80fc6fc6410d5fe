// A volume that is flushed, and mounted again from what is then on the device.

module Remounts {
  import opened Basics
  import opened Bitmap
  import opened Chains
  import opened ClusterMath
  import opened FileBytes
  import opened Volumes
  import opened FileIO
  import opened Ownership
  import opened Quota
  import opened Slots
  import opened Directories
  import opened Timestamps
  import opened EntryLayout
  import opened EntrySets
  import opened DeviceMap
  import opened FileSystems
  import opened Listings
  import opened Catalogs
  import opened Mounts
  import opened Images
  import opened Matchings
  import opened RootVolumes
  import opened SystemEntries

  /** Where each file's chain lies among those behind the root directory's. */
  ghost function Places(owner: seq<nat>): (ks: seq<nat>)
    requires forall k | 0 <= k < |owner| :: owner[k] > 0
    ensures |ks| == |owner| && forall k | 0 <= k < |owner| :: ks[k] == owner[k] - 1
  {
    seq(|owner|, k requires 0 <= k < |owner| => owner[k] - 1)
  }

  lemma PlacesAreOrder(owner: seq<nat>, total: nat, n: nat)
    requires Owns(owner, total, n)
    ensures IsOrder(Places(owner), n)
  {
    var ks, all := Places(owner), RunOf(0, n);
    ElemsOfNoDup(ks);
    ElemsOfNoDup(all);
    forall c | c in Elems(ks) ensures c in Elems(all) {
      RunElems(0, n, c);
    }
    assert |Elems(all) - Elems(ks)| == 0;
    forall k: nat | k < n ensures k in ks {
      RunElems(0, n, k);
      assert k !in Elems(all) - Elems(ks);
    }
  }

  ghost function DeviceOf(v: RootVolume): Device
    reads v.cat, v.cat.fsys, v.cat.fsys.vol
  {
    var vol := v.cat.fsys.vol;
    Device(vol.clusterSize, vol.fat, vol.heap, v.cat.startCluster)
  }

  ghost function ImageOf(v: RootVolume, mapAt: nat): Image
    requires v.Valid()
    reads v, v.cat, v.cat.dir, v.cat.fsys, v.cat.fsys.vol, v.cat.fsys.vol.cmap, v.cat.fsys.vol.cmap.chunk, v.cat.fsys.nodes
  {
    OwnsLength(v.owner, |v.cat.fsys.nodes|, |v.cat.files|);
    PlacesAreOrder(v.owner, |v.cat.fsys.nodes|, |v.cat.files|);
    var chains := v.cat.fsys.Chains();
    Image(v.cat.fsys.system, chains[0], v.cat.entries, mapAt, v.cat.dir.nodes, v.cat.stored,
          Ordered(chains[1..], Places(v.owner)))
  }

  /** The root directory still has good entries for the system: one, and no other, names the bitmap in use. */
  ghost predicate NamesItsMap(v: RootVolume, mapAt: nat)
    reads v.cat, v.cat.fsys, v.cat.fsys.vol, v.cat.fsys.vol.cmap
  {
    var entries, vol := v.cat.entries, v.cat.fsys.vol;
    && mapAt < |entries| && SystemIsNamed(entries, vol.clusterCount) && EntryStart(entries[mapAt]) == vol.cmap.start
    && forall i | 0 <= i < |entries| :: entries[i][0] == ENTRY_BITMAP <==> i == mapAt
  }

  /** What is stored of a file names the chain that the FAT spells out for it. */
  lemma ClosedFileIsStored(ef: Volume, n: Node, file: FileNode, stored: FileNode, timezone: int, rootdirCluster: u32)
    requires ef.Valid() && IsFile(ef, n) && Matches(file, n) && IsKept(stored, file, timezone)
    ensures IsStoredFile(Device(ef.clusterSize, ef.fat, ef.heap, rootdirCluster), stored, n.chain)
    ensures stored.size == n.size && stored.validSize == n.validSize && stored.attrib == file.attrib
  {
    hide ByteAt, ToUnix, IsInWidth;
    SizeCovers(ef.clusterSize, n.size, 0);
  }

  lemma RootIsChain(ef: Volume, n: Node, entries: seq<Entry>)
    requires ef.Valid() && IsFile(ef, n) && !n.isContiguous && entries != [] && ef.clusterSize % ENTRY == 0
    requires n.content == Flat(entries) && n.validSize == ENTRY * |entries| && |entries| % (ef.clusterSize / ENTRY) == 0
    ensures IsChainFrom(|ef.heap|, ef.fat, n.chain, n.startCluster)
    ensures ENTRY * |entries| == ClusterStart(ef.clusterSize, |n.chain|)
    ensures Holds(ef.clusterSize, ef.heap, n.chain, ENTRY * |entries|, ENTRY * |entries|, Flat(entries))
  {
    hide ByteAt, Flat;
    WholeClusters(ef.clusterSize, |entries|);
  }

  lemma WholeClusters(cs: nat, n: nat)
    requires cs > 0 && cs % ENTRY == 0 && n % (cs / ENTRY) == 0
    ensures ENTRY * n == ClusterStart(cs, ClustersFor(cs, ENTRY * n))
  {
    var q, per := n / (cs / ENTRY), cs / ENTRY;
    assert ENTRY * n == ENTRY * (q * per) == q * cs;
    Rounding.Unique(ENTRY * n, cs, q);
  }

  lemma HoldsItsRoot(v: RootVolume, mapAt: nat)
    requires v.Valid()
    ensures HoldsRoot(DeviceOf(v), ImageOf(v, mapAt), v.cat.timezone)
  {
    hide InOrder, OthersAreSystem, AllFit, Partition, AreUpdates, Flat, IsFile, AllMatch, Owns, Fits, IsChainFrom, Holds,
      Disjoint, Inside, AllValid, ClusterStart, IsOrder;
    var fs, entries := v.cat.fsys, v.cat.entries;
    assert fs.State()[0].content == Flat(entries) && fs.State()[0].validSize == ENTRY * |entries|;
    assert IsFile(fs.vol, fs.nodes[0]) && fs.Chains()[0] == fs.nodes[0].chain;
    assert fs.vol.clusterSize / ENTRY == v.cat.dir.perCluster;
    assert TypesOf(entries) == v.cat.dir.types by { EntriesOfTypes(v.cat); }
    RootIsChain(fs.vol, fs.nodes[0], entries);
  }

  lemma EntriesOfTypes(cat: Catalog)
    requires cat.Valid()
    ensures TypesOf(cat.entries) == cat.dir.types
  {
    hide FileSystem.Valid, IsTidy, OthersAreSystem, AllFit, AreUpdates, IsStored, Flat;
  }

  lemma NamesMapOfImage(v: RootVolume, mapAt: nat)
    requires v.Valid() && NamesItsMap(v, mapAt)
    ensures NamesMap(DeviceOf(v), ImageOf(v, mapAt))
  {
    hide InOrder, IsTidy, OthersAreSystem, AllFit, Partition, AreUpdates, Flat, IsFile, AllMatch, Owns, OnDevice, Extent,
      IsOrder, SystemIsNamed, EntryStart, DivRoundUp, Spelled, Terminated;
  }

  lemma FilesAreStored(v: RootVolume, mapAt: nat)
    requires v.Valid() && v.IsClean()
    ensures var im := ImageOf(v, mapAt);
      && |im.chains| == |im.files|
      && forall k | 0 <= k < |im.files| :: IsStoredFile(DeviceOf(v), im.files[k], im.chains[k])
  {
    hide InOrder, IsTidy, OthersAreSystem, AllFit, Partition, AreUpdates, Flat, IsFile, OnDevice, Extent, IsOrder, Matches,
      IsStoredFile, IsKept, FileSystem.MapTells, Spelled, Terminated;
    var fs, im := v.cat.fsys, ImageOf(v, mapAt);
    OwnsLength(v.owner, |fs.nodes|, |v.cat.files|);
    PlacesAreOrder(v.owner, |fs.nodes|, |v.cat.files|);
    forall k | 0 <= k < |im.files| ensures IsStoredFile(DeviceOf(v), im.files[k], im.chains[k]) {
      var n := fs.nodes[v.owner[k]];
      assert im.chains[k] == n.chain;
      assert Matches(v.cat.files[k], n) && IsFile(fs.vol, n);
      ClosedFileIsStored(fs.vol, n, v.cat.files[k], v.cat.stored[k], v.cat.timezone, v.cat.startCluster);
    }
  }

  lemma UsedIsTold(vol: Volume, dev: Device)
    requires vol.Valid() && IsVolumeOf(vol, dev) && vol.clusterSize > 0
    requires forall i: nat | i < vol.clusterCount ::
               DeviceBit(vol.clusterSize, vol.heap, vol.cmap.start, i) <==> i + FIRST_DATA_CLUSTER in vol.cmap.used
    ensures UsedOnDevice(dev, vol.cmap.start) == vol.cmap.used
  {
    hide DeviceBit, Get;
    var start, used := vol.cmap.start, UsedOnDevice(dev, vol.cmap.start);
    SameUsed(vol.clusterSize, vol.heap, start, vol.clusterCount, vol.cmap.used, used);
  }

  lemma PartitionOfImage(v: RootVolume, mapAt: nat)
    requires v.Valid() && v.IsClean() && NamesItsMap(v, mapAt)
    ensures var im := ImageOf(v, mapAt); var dev := DeviceOf(v);
      && dev.clusterSize > 0 && UsedOnDevice(dev, v.cat.fsys.vol.cmap.start) == v.cat.fsys.vol.cmap.used
      && Partition(UsedOnDevice(dev, v.cat.fsys.vol.cmap.start), im.system, [im.rootChain] + im.chains)
  {
    hide InOrder, IsTidy, OthersAreSystem, AllFit, Partition, AreUpdates, Flat, IsFile, OnDevice, Extent, IsOrder, Matches,
      AreKept, DeviceBit, AllMatch, UsedOnDevice, SystemIsNamed, EntryStart;
    var fs := v.cat.fsys;
    var chains := fs.Chains();
    UsedIsTold(fs.vol, DeviceOf(v));
    PlacesAreOrder(v.owner, |fs.nodes|, |v.cat.files|);
    assert chains == [chains[0]] + chains[1..];
    PartitionOrdered(fs.vol.cmap.used, fs.system, chains[0], chains[1..], Places(v.owner));
  }

  /** What a clean volume leaves on its device is a device in order. */
  lemma CleanIsImage(v: RootVolume, mapAt: nat)
    requires v.Valid() && v.IsClean() && NamesItsMap(v, mapAt)
    ensures IsImage(DeviceOf(v), ImageOf(v, mapAt), v.cat.timezone)
  {
    HoldsItsRoot(v, mapAt);
    NamesMapOfImage(v, mapAt);
    FilesAreStored(v, mapAt);
    PartitionOfImage(v, mapAt);
    hide InOrder, IsTidy, OthersAreSystem, AllFit, Partition, AreUpdates, Flat, IsFile, OnDevice, Extent, IsOrder, AllMatch,
      Owns, UsedOnDevice, SystemIsNamed, EntryStart, HoldsRoot, NamesMap, IsStoredFile, RootVolume.IsClean, DivRoundUp;
  }

  lemma SystemIsUncovered(cat: Catalog)
    requires cat.Valid()
    ensures forall i | 0 <= i < |cat.entries| && IsSystemType(cat.entries[i][0]) :: !Covered(cat.dir.nodes, i)
  {
    hide FileSystem.Valid, IsTidy, OthersAreSystem, AllFit, AreUpdates, IsStored, Flat;
    forall i | 0 <= i < |cat.entries| && IsSystemType(cat.entries[i][0]) ensures !Covered(cat.dir.nodes, i) {
      if Covered(cat.dir.nodes, i) {
        var k: nat :| k < |cat.dir.nodes| && cat.dir.nodes[k].Has(i);
        SlotIsNotSystem(cat.entries, cat.dir.nodes[k], cat.stored[k], cat.Info(), i);
      }
    }
  }

  /** Where the system's entries stay, and no others come, they are named as before. */
  lemma SystemStays(before: seq<Entry>, after: seq<Entry>, clusterCount: nat)
    requires AddsNoSystem(before, after) && KeepsSystem(before, after) && SystemIsNamed(before, clusterCount)
    ensures SystemIsNamed(after, clusterCount)
    ensures forall i: nat | i < |before| && before[i][0] == ENTRY_BITMAP :: i < |after| && after[i] == before[i]
    ensures forall i: nat | i < |after| && after[i][0] == ENTRY_BITMAP :: i < |before| && after[i] == before[i]
  {
    hide IsGoodBitmap, IsGoodUpcase, IsGoodLabel;
    SameSystem(before, after);
    forall i: nat | i < |before| && before[i][0] == ENTRY_BITMAP ensures i < |after| && after[i] == before[i] {
      assert IsSystemAt(before, i);
    }
    forall i: nat | i < |before| && before[i][0] == ENTRY_UPCASE ensures i < |after| && after[i] == before[i] {
      assert IsSystemAt(before, i);
    }
    forall i: nat | i < |after| ensures !IsBad(after, i, clusterCount) {
      if IsSystemAt(after, i) {
        assert !IsBad(before, i, clusterCount) && after[i] == before[i];
        forall j | 0 <= j < i ensures after[j][0] == ENTRY_UPCASE <==> before[j][0] == ENTRY_UPCASE {
          assert IsSystemAt(after, j) <==> IsSystemAt(before, j);
        }
        assert HasNone(before[..i], ENTRY_UPCASE) == HasNone(after[..i], ENTRY_UPCASE);
      }
    }
    forall i: nat | i < |after| && after[i][0] == ENTRY_BITMAP ensures i < |before| && after[i] == before[i] {
      assert IsSystemAt(after, i);
    }
  }

  /** exfat_unmount, as far as flushing goes; the bitmap stays where it is. */
  method Close(v: RootVolume, ghost mapAt: nat)
    requires v.Valid() && NamesItsMap(v, mapAt)
    modifies v.cat`stored, v.cat`dirty, v.cat`entries
    modifies v.cat.fsys.vol, v.cat.fsys.vol.cmap, v.cat.fsys.vol.cmap.chunk, v.cat.fsys.nodes[0]
    ensures v.Valid() && v.IsClean() && NamesItsMap(v, mapAt) && OthersSame(old(v.cat.fsys.State()), v.cat.fsys.State(), 0)
  {
    hide RootVolume.Valid, RootVolume.IsClean, Covered, SystemIsNamed, EntryStart, OthersSame;
    ghost var entries := v.cat.entries;
    CatalogOf(v);
    SystemIsUncovered(v.cat);
    EntriesOfTypes(v.cat);
    v.FlushAll();
    CatalogOf(v);
    EntriesOfTypes(v.cat);
    assert v.cat.entries[mapAt] == entries[mapAt];
    forall i | 0 <= i < |entries| ensures v.cat.entries[i][0] == entries[i][0] {
      assert TypesOf(v.cat.entries)[i] == TypesOf(entries)[i];
    }
    SystemStays(entries, v.cat.entries, v.cat.fsys.vol.clusterCount);
  }

  /**
   * A run of commands, and whether the volume can be mounted again behind it: the system's entries are all there exactly
   * if every edit that succeeded spared them, and then the bitmap is named as before.
   */
  method RunAndKeep(v: RootVolume, commands: seq<VolumeCommand>, ghost mapAt: nat)
    returns (results: seq<bool>, ghost trace: seq<VolumeState>)
    requires v.Valid() && NamesItsMap(v, mapAt)
    requires forall i | 0 <= i < |commands| :: IsAdmitted(commands[i], v.Context())
    modifies v`owner, v.cat, v.cat.dir, v.cat.fsys, v.cat.fsys.vol, v.cat.fsys.vol.cmap, v.cat.fsys.vol.cmap.chunk
    modifies v.cat.fsys.nodes
    ensures v.Valid() && |results| == |commands| && |trace| == |commands| + 1
    ensures trace[0] == old(v.Snapshot()) && trace[|commands|] == v.Snapshot()
    ensures forall i: nat | i < |commands| :: IsStep(trace[i], commands[i], results[i], trace[i + 1], v.Context())
    ensures AddsNoSystem(old(v.cat.entries), v.cat.entries)
    ensures KeepsSystem(old(v.cat.entries), v.cat.entries)
       <==> forall i | 0 <= i < |commands| :: results[i] ==> SparesStep(trace[i], commands[i], v.Context())
    ensures KeepsSystem(old(v.cat.entries), v.cat.entries) ==> NamesItsMap(v, mapAt)
  {
    hide RootVolume.Valid, SystemIsNamed, EntryStart, IsStep, IsAdmitted, SparesStep, IsRootInOrder, AddsNoSystem,
      KeepsSystem;
    ghost var entries := v.cat.entries;
    results, trace := v.Run(commands);
    RunSystem(trace, commands, results, v.Context(), |commands|);
    if KeepsSystem(entries, v.cat.entries) {
      SystemStays(entries, v.cat.entries, v.cat.fsys.vol.clusterCount);
    }
  }

  lemma CatalogOf(v: RootVolume)
    requires v.Valid()
    ensures v.cat.Valid() && v.cat.d == 0 && 0 < |v.cat.fsys.nodes| && v.cat.fsys.vol.clusterSize > 0
    ensures IsZone(v.cat.timezone)
  {
  }

  /** A file of a volume that was mounted again, and the file that it was: its name, its clusters, its bytes, and its
      fields, as they could be stored if they changed. */
  ghost predicate IsSameFile(v: RootVolume, w: RootVolume, j: nat, k: nat)
    requires j < |w.cat.files| == |w.cat.dir.nodes| == |w.owner| && k < |v.cat.files| == |v.cat.dir.nodes| == |v.owner|
    reads v, v.cat, v.cat.dir, v.cat.fsys, v.cat.fsys.nodes, w, w.cat, w.cat.dir, w.cat.fsys, w.cat.fsys.nodes
  {
    var before, after := v.cat.fsys, w.cat.fsys;
    && IsKept(w.cat.files[j], v.cat.files[k], v.cat.timezone)
    && w.cat.dir.nodes[j] == v.cat.dir.nodes[k] && w.owner[j] < |after.nodes| && v.owner[k] < |before.nodes|
    && after.nodes[w.owner[j]].chain == before.nodes[v.owner[k]].chain
    && after.State()[w.owner[j]] == before.State()[v.owner[k]]
  }

  /** The same volume, with its files numbered anew. */
  ghost predicate IsRemounted(v: RootVolume, w: RootVolume, ks: seq<nat>)
    reads v, v.cat, v.cat.dir, v.cat.fsys, v.cat.fsys.vol, v.cat.fsys.vol.cmap, v.cat.fsys.nodes
    reads w, w.cat, w.cat.dir, w.cat.fsys, w.cat.fsys.vol, w.cat.fsys.vol.cmap, w.cat.fsys.nodes
  {
    var before, after, n := v.cat.fsys, w.cat.fsys, |v.cat.files|;
    && w.cat.entries == v.cat.entries && after.system == before.system && after.vol.cmap.used == before.vol.cmap.used
    && |w.cat.files| == n && |v.cat.dir.nodes| == |w.cat.dir.nodes| == n && |v.owner| == |w.owner| == n && IsOrder(ks, n)
    && forall j | 0 <= j < n :: IsSameFile(v, w, j, ks[j])
  }

  /**
   * Unmounting and mounting again: every file of the volume is there again, with its name, its clusters, its bytes and
   * its fields as far as an entry can hold them, and no others; no bytes of a file change on the way. The bitmap's entry
   * has to be there still, for creating a file can write over it and deleting one can cut it off.
   */
  method Remount(v: RootVolume, ghost mapAt: nat) returns (w: RootVolume, ghost ks: seq<nat>)
    requires v.Valid() && NamesItsMap(v, mapAt)
    modifies v.cat`stored, v.cat`dirty, v.cat`entries
    modifies v.cat.fsys.vol, v.cat.fsys.vol.cmap, v.cat.fsys.vol.cmap.chunk, v.cat.fsys.nodes[0]
    ensures v.Valid() && OthersSame(old(v.cat.fsys.State()), v.cat.fsys.State(), 0)
    ensures fresh(w) && w.Valid() && NamesItsMap(w, mapAt) && IsRemounted(v, w, ks)
  {
    hide RootVolume.Valid, RootVolume.IsClean, NamesItsMap, OthersSame, IsRemounted;
    Close(v, mapAt);
    w, ks := MountAgain(v, mapAt);
  }

  /** exfat_mount of the device of a volume that was flushed. */
  method MountAgain(v: RootVolume, ghost mapAt: nat) returns (w: RootVolume, ghost ks: seq<nat>)
    requires v.Valid() && v.IsClean() && NamesItsMap(v, mapAt)
    ensures fresh(w) && w.Valid() && NamesItsMap(w, mapAt) && IsRemounted(v, w, ks)
  {
    hide RootVolume.Valid, RootVolume.IsClean, NamesItsMap, IsImage, IsMounted, IsRemounted, NamesMap;
    CatalogOf(v);
    CleanIsImage(v, mapAt);
    FilesAreFiles(v, mapAt);
    var vol := v.cat.fsys.vol;
    var dev := Device(vol.clusterSize, vol.fat, vol.heap, v.cat.startCluster);
    w, ks := Mount(dev, v.cat.timezone, ImageOf(v, mapAt));
    NamesMapOfImage(v, mapAt);
    MountedNamesMap(w, dev, ImageOf(v, mapAt), v.cat.timezone, ks);
    MountedIsRemounted(v, w, mapAt, ks);
  }

  lemma FilesAreFiles(v: RootVolume, mapAt: nat)
    requires v.Valid() && v.IsClean()
    ensures var im := ImageOf(v, mapAt); forall k | 0 <= k < |im.files| :: im.files[k].attrib / ATTRIB_DIR_BIT % 2 == 0
  {
    hide InOrder, IsTidy, OthersAreSystem, AllFit, AreUpdates, Flat, IsFile, IsOrder, IsKept, Matches, FileSystem.Valid,
      FileSystem.MapTells;
    ListLengths(v);
    OwnsLength(v.owner, |v.cat.fsys.nodes|, |v.cat.files|);
    forall k | 0 <= k < |v.cat.files| ensures v.cat.stored[k].attrib / ATTRIB_DIR_BIT % 2 == 0 {
      assert Matches(v.cat.files[k], v.cat.fsys.nodes[v.owner[k]]) && IsKept(v.cat.stored[k], v.cat.files[k], v.cat.timezone);
      KeptAttributes(v.cat.stored[k], v.cat.files[k], v.cat.timezone, v.cat.fsys.nodes[v.owner[k]]);
    }
  }

  lemma KeptAttributes(stored: FileNode, file: FileNode, timezone: int, n: Node)
    requires IsKept(stored, file, timezone) && Matches(file, n)
    ensures stored.attrib / ATTRIB_DIR_BIT % 2 == 0
  {
    hide ToUnix, StampOf, IsInWidth;
  }

  /** What is mounted has the entry of its bitmap. */
  lemma MountedNamesMap(w: RootVolume, dev: Device, im: Image, timezone: int, ks: seq<nat>)
    requires NamesMap(dev, im) && IsMounted(w, dev, im, timezone, ks)
    ensures NamesItsMap(w, im.mapAt)
  {
    hide SystemIsNamed, EntryStart, UsedOnDevice, IsOrder, Ordered, ContentOf, Extent, DivRoundUp;
  }

  /** What the image has of one file. */
  lemma FileOfImage(v: RootVolume, mapAt: nat, k: nat)
    requires v.Valid() && v.IsClean() && k < |v.cat.files|
    ensures var im := ImageOf(v, mapAt); var n := |v.cat.files|;
      |im.files| == |im.chains| == |im.nodes| == |v.owner| == n && v.owner[k] < |v.cat.fsys.nodes|
    ensures var im := ImageOf(v, mapAt); var fs := v.cat.fsys;
      && IsKept(im.files[k], v.cat.files[k], v.cat.timezone)
      && im.chains[k] == fs.nodes[v.owner[k]].chain && fs.vol.clusterSize > 0
      && fs.State()[v.owner[k]] ==
         FileState(ContentOf(fs.vol.clusterSize, fs.vol.heap, im.chains[k], im.files[k].size, im.files[k].validSize),
                   im.files[k].validSize)
  {
    hide InOrder, IsTidy, OthersAreSystem, AllFit, Partition, AreUpdates, Flat, OnDevice, Extent, IsOrder,
      FileSystem.MapTells, IsKept, ContentOf, Spelled, Terminated, ByteAt, ClustersFor, Holds;
    ListLengths(v);
    var fs := v.cat.fsys;
    OwnsLength(v.owner, |fs.nodes|, |v.cat.files|);
    var node, n := v.cat.files[k], fs.nodes[v.owner[k]];
    assert Matches(node, n) && IsFile(fs.vol, n) && IsKept(v.cat.stored[k], node, v.cat.timezone);
    ClosedFileIsStored(fs.vol, n, node, v.cat.stored[k], v.cat.timezone, v.cat.startCluster);
    HeldContent(fs.vol.clusterSize, fs.vol.heap, n.chain, n.size, n.validSize, n.content);
  }

  lemma ListLengths(v: RootVolume)
    requires v.Valid()
    ensures |v.cat.files| == |v.cat.stored| == |v.cat.dir.nodes| == |v.owner| && |v.cat.fsys.nodes| == 1 + |v.owner|
  {
    hide FileSystem.Valid, IsTidy, OthersAreSystem, AllFit, IsUpdate, IsStored, Flat;
  }

  /** A file, in the mounted volume and before. */
  lemma MountedFile(v: RootVolume, w: RootVolume, mapAt: nat, ks: seq<nat>, j: nat)
    requires v.Valid() && v.IsClean() && j < |v.cat.files|
    requires IsMounted(w, DeviceOf(v), ImageOf(v, mapAt), v.cat.timezone, ks)
    ensures |w.cat.files| == |v.cat.files| == |w.cat.dir.nodes| == |v.cat.dir.nodes| == |w.owner| == |v.owner| == |ks|
    ensures ks[j] < |v.cat.files| && IsSameFile(v, w, j, ks[j])
  {
    ListLengths(v);
    ImageParts(v, mapAt);
    hide RootVolume.Valid, RootVolume.IsClean, SystemIsNamed, EntryStart, UsedOnDevice, ContentOf, IsKept, ImageOf;
    FileOfImage(v, mapAt, ks[j]);
  }

  lemma ImageParts(v: RootVolume, mapAt: nat)
    requires v.Valid()
    ensures var im := ImageOf(v, mapAt);
      && im.files == v.cat.stored && im.nodes == v.cat.dir.nodes && im.entries == v.cat.entries && im.mapAt == mapAt
      && im.system == v.cat.fsys.system
  {
    hide FileSystem.Valid, InOrder, IsTidy, OthersAreSystem, AllFit, IsUpdate, IsStored, Flat;
  }

  lemma MountedIsRemounted(v: RootVolume, w: RootVolume, mapAt: nat, ks: seq<nat>)
    requires v.Valid() && v.IsClean() && NamesItsMap(v, mapAt)
    requires IsMounted(w, DeviceOf(v), ImageOf(v, mapAt), v.cat.timezone, ks)
    ensures IsRemounted(v, w, ks)
  {
    PartitionOfImage(v, mapAt);
    ListLengths(v);
    ImageParts(v, mapAt);
    forall j | 0 <= j < |v.cat.files|
      ensures |ks| == |v.cat.files| && ks[j] < |v.cat.files| && IsSameFile(v, w, j, ks[j])
    {
      MountedFile(v, w, mapAt, ks, j);
    }
    hide RootVolume.Valid, RootVolume.IsClean, SystemIsNamed, EntryStart, UsedOnDevice, ContentOf, IsKept,
      Partition, ImageOf, IsSameFile, IsOrder;
  }
}
