// A volume whose files all lie in its root directory: mounting it, working with it, and mounting it again.

/** What lies on a device, and what the mount makes of it. */
module Images {
  import opened Basics
  import opened Words
  import opened Bitmap
  import opened ClusterMaps
  import opened Chains
  import opened ClusterMath
  import opened FileBytes
  import opened Volumes
  import opened FileIO
  import opened Ownership
  import opened Slots
  import opened Directories
  import opened EntryLayout
  import opened EntrySets
  import opened DeviceMap
  import opened Listings
  import opened Mounts

  /** What a mount has to go by. */
  datatype Device = Device(clusterSize: nat, fat: seq<u32>, heap: seq<seq<byte>>, rootdirCluster: u32)

  /** What is on it: the clusters of the system, the root directory, and a chain for each of its files. */
  datatype Image = Image(
    system: set<nat>, rootChain: seq<nat>, entries: seq<Entry>, mapAt: nat,
    nodes: seq<EntrySet>, files: seq<FileNode>, chains: seq<seq<nat>>)

  /** The content of a file: its valid bytes, and zeros. */
  function ContentOf(cs: nat, heap: seq<seq<byte>>, chain: seq<nat>, size: nat, validSize: nat): (content: seq<byte>)
    requires cs > 0
    ensures |content| == size
  {
    seq(size, i requires 0 <= i < size => if i < validSize then ByteAt(cs, heap, chain, i) else 0)
  }

  lemma HeldContent(cs: nat, heap: seq<seq<byte>>, chain: seq<nat>, size: nat, validSize: nat, content: seq<byte>)
    requires Holds(cs, heap, chain, size, validSize, content)
    ensures cs > 0 && content == ContentOf(cs, heap, chain, size, validSize)
  {
    hide ByteAt, ClustersFor;
  }

  /** The chain of a file as the fields of its node and the FAT spell it out. */
  ghost predicate IsStoredFile(dev: Device, file: FileNode, chain: seq<nat>) {
    && dev.clusterSize > 0 && NoDup(chain) && Spelled(|dev.heap|, dev.fat, chain, file.isContiguous)
    && Terminated(dev.fat, chain, file.isContiguous)
    && file.validSize <= file.size && |chain| == ClustersFor(dev.clusterSize, file.size)
    && file.startCluster == if chain == [] then CLUSTER_FREE else chain[0]
  }

  /** The clusters whose bits are set in the bitmap on the device. */
  ghost function UsedOnDevice(dev: Device, start: nat): set<nat>
    requires dev.clusterSize > 0
  {
    set c | c in AllClusters(|dev.heap|) && DeviceBit(dev.clusterSize, dev.heap, start, c - FIRST_DATA_CLUSTER)
  }

  /** The system's entries are good; one, and no other, names a bitmap, which lies in clusters of the system. */
  ghost predicate NamesMap(dev: Device, im: Image) {
    && dev.clusterSize > 0 && im.mapAt < |im.entries| && SystemIsNamed(im.entries, |dev.heap|)
    && (forall i | 0 <= i < |im.entries| :: im.entries[i][0] == ENTRY_BITMAP <==> i == im.mapAt)
    && Extent(dev.clusterSize, EntryStart(im.entries[im.mapAt]), WORD_BYTES * DivRoundUp(|dev.heap|, WORD_BITS))
       <= im.system
  }

  ghost function InfoOf(dev: Device, timezone: int): FsInfo {
    FsInfo(timezone, dev.clusterSize, |dev.heap|)
  }

  /** The root directory's chain holds the entries, and its nodes are in order. */
  ghost predicate HoldsRoot(dev: Device, im: Image, timezone: int) {
    && dev.clusterSize % ENTRY == 0 && dev.clusterSize >= 16 * ENTRY
    && IsChainFrom(|dev.heap|, dev.fat, im.rootChain, dev.rootdirCluster)
    && ENTRY * |im.entries| == ClusterStart(dev.clusterSize, |im.rootChain|)
    && Holds(dev.clusterSize, dev.heap, im.rootChain, ENTRY * |im.entries|, ENTRY * |im.entries|, Flat(im.entries))
    && InOrder(im.entries, TypesOf(im.entries), im.nodes, im.files, InfoOf(dev, timezone))
    && IsTidy(TypesOf(im.entries), im.nodes, true, dev.clusterSize / ENTRY) && OthersAreSystem(TypesOf(im.entries), im.nodes)
    && AllFit(im.nodes, dev.clusterSize / ENTRY)
  }

  /** A device in order. */
  ghost predicate IsImage(dev: Device, im: Image, timezone: int) {
    && Shaped(|dev.heap|, dev.clusterSize, dev.fat, dev.heap)
    && |dev.heap| + FIRST_DATA_CLUSTER <= LAST_DATA_CLUSTER + 1 && |dev.heap| * dev.clusterSize < 0x1_0000_0000_0000_0000
    && HoldsRoot(dev, im, timezone) && NamesMap(dev, im)
    && |im.chains| == |im.files| && (forall k | 0 <= k < |im.files| :: IsStoredFile(dev, im.files[k], im.chains[k]))
    && Partition(UsedOnDevice(dev, EntryStart(im.entries[im.mapAt])), im.system, [im.rootChain] + im.chains)
  }

  /** Reading all of the root directory and its bitmap. */
  method LoadVolume(dev: Device, timezone: int, ghost im: Image) returns (vol: Volume, entries: seq<Entry>)
    requires IsImage(dev, im, timezone)
    ensures fresh(vol) && fresh(vol.cmap) && fresh(vol.cmap.chunk) && entries == im.entries
    ensures vol.Valid() && vol.fat == dev.fat && vol.heap == dev.heap && vol.clusterSize == dev.clusterSize
    ensures vol.clusterCount == |dev.heap|
    ensures IsLoaded(vol.cmap, dev.clusterSize, dev.heap, |dev.heap|, EntryStart(im.entries[im.mapAt]))
    ensures vol.cmap.used == UsedOnDevice(dev, EntryStart(im.entries[im.mapAt]))
  {
    hide Partition, InOrder, IsTidy, OthersAreSystem, AllFit, IsStoredFile, ClusterStart, SystemIsNamed, EntryStart, Flat,
      IsChainFrom, Spelled, Cut, Extent;
    var bytes := ReadRoot(dev.clusterSize, dev.fat, dev.heap, dev.rootdirCluster, im.rootChain);
    assert bytes == Flat(im.entries);
    CutOfFlat(im.entries, 0, |im.entries|);
    assert Flat(im.entries)[0..ENTRY * |im.entries|] == bytes && im.entries[0..|im.entries|] == im.entries;
    entries := Cut(bytes, |bytes| / ENTRY);
    var cmap := ReadRootdir(dev.clusterSize, dev.heap, |dev.heap|, entries);
    assert entries[im.mapAt][0] == ENTRY_BITMAP;
    vol := new Volume(dev.clusterSize, cmap, dev.fat, dev.heap);
  }

  /** A node for a file that was read. */
  method OpenNode(vol: Volume, startCluster: u32, size: nat, validSize: nat, contiguous: bool, ghost chain: seq<nat>)
    returns (n: Node)
    requires vol.Valid() && NoDup(chain) && Elems(chain) <= vol.cmap.used
    requires Spelled(vol.clusterCount, vol.fat, chain, contiguous) && Terminated(vol.fat, chain, contiguous)
    requires validSize <= size && |chain| == ClustersFor(vol.clusterSize, size)
    requires startCluster == if chain == [] then CLUSTER_FREE else chain[0]
    ensures fresh(n) && IsFile(vol, n) && n.chain == chain && n.startCluster == startCluster
    ensures n.size == size && n.validSize == validSize && n.isContiguous == contiguous
    ensures n.content == ContentOf(vol.clusterSize, vol.heap, chain, size, validSize)
  {
    hide ByteAt, ClustersFor;
    n := new Node();
    n.startCluster, n.fptrCluster := startCluster, startCluster;
    n.size, n.validSize, n.isContiguous := size, validSize, contiguous;
    n.chain := chain;
    n.content := ContentOf(vol.clusterSize, vol.heap, chain, size, validSize);
  }
}

/** The files of a root directory, in whatever order they are found. */
module Matchings {
  import opened Basics
  import opened Chains
  import opened Ownership
  import opened Slots
  import opened EntryLayout
  import opened EntrySets
  import opened Listings

  /** A numbering of all of 0..n, each once. */
  ghost predicate IsOrder(ks: seq<nat>, n: nat) {
    && |ks| == n && (forall j | 0 <= j < n :: ks[j] < n) && (forall i, j | 0 <= i < j < n :: ks[i] != ks[j])
    && (forall k: nat | k < n :: k in ks)
  }

  ghost function Ordered<T>(s: seq<T>, ks: seq<nat>): (t: seq<T>)
    requires IsOrder(ks, |s|)
    ensures |t| == |s| && forall j | 0 <= j < |s| :: t[j] == s[ks[j]]
  {
    seq(|s|, j requires 0 <= j < |s| => s[ks[j]])
  }

  /** The slots of the set that begins at an entry. */
  function SlotsAt(entries: seq<Entry>, start: nat): EntrySet
    requires start + 1 < |entries|
  {
    EntrySet(start, 1 + Meta1Of(entries[start]).continuations,
             DivRoundUp(Meta2Of(entries[start + 1]).nameLength, NAME_UNITS))
  }

  lemma SlotsOfStored(entries: seq<Entry>, e: EntrySet, file: FileNode, fs: FsInfo)
    requires IsStored(entries, e, file, fs)
    ensures e.start + 1 < |entries| && SlotsAt(entries, e.start) == e
  {
    hide Meta1Of, Meta2Of, Parse, DivRoundUp;
    var part := SetAt(entries, e);
    DescribedParts(part, file, fs);
    assert part[0] == entries[e.start] && part[1] == entries[e.start + 1];
  }

  /** Which node each of those found is. */
  lemma Matching(nodes: seq<EntrySet>, files: seq<FileNode>, found: seq<Found>, size: nat) returns (ks: seq<nat>)
    requires |files| == |nodes| && FoundSoFar(nodes, files, found, size) && Disjoint(nodes)
    requires forall k | 0 <= k < |nodes| :: nodes[k].count > 0 && nodes[k].start + nodes[k].count <= size
    ensures |found| == |nodes| && IsOrder(ks, |nodes|)
    ensures forall j | 0 <= j < |nodes| :: found[j] == Found(nodes[ks[j]].start, files[ks[j]])
  {
    ks := [];
    for j := 0 to |found|
      invariant |ks| == j && forall i | 0 <= i < j :: ks[i] < |nodes| && found[i] == Found(nodes[ks[i]].start, files[ks[i]])
    {
      assert found[j] in found;
      var k: nat :| k < |nodes| && found[j] == Found(nodes[k].start, files[k]);
      ks := ks + [k];
    }
    forall k: nat | k < |nodes| ensures k in ks {
      AllAreFound(nodes, files, found, size, ks, k);
    }
    SameNumber(ks, |nodes|);
  }

  lemma AllAreFound(nodes: seq<EntrySet>, files: seq<FileNode>, found: seq<Found>, size: nat, ks: seq<nat>, k: nat)
    requires |files| == |nodes| && FoundSoFar(nodes, files, found, size) && Disjoint(nodes) && k < |nodes|
    requires forall k | 0 <= k < |nodes| :: nodes[k].count > 0 && nodes[k].start + nodes[k].count <= size
    requires |ks| == |found|
    requires forall i | 0 <= i < |ks| :: ks[i] < |nodes| && found[i] == Found(nodes[ks[i]].start, files[ks[i]])
    ensures k in ks
  {
    var f := Found(nodes[k].start, files[k]);
    assert IsNode(nodes, files, f) && f in found;
    var j :| 0 <= j < |found| && found[j] == f;
    StartsDiffer(nodes, ks[j], k);
  }

  lemma StartsDiffer(nodes: seq<EntrySet>, i: nat, k: nat)
    requires Disjoint(nodes) && i < |nodes| && k < |nodes| && nodes[i].count > 0 && nodes[k].count > 0
    ensures nodes[i].start == nodes[k].start ==> i == k
  {
  }

  lemma SameNumber(ks: seq<nat>, n: nat)
    requires NoDup(ks) && (forall j | 0 <= j < |ks| :: ks[j] < n) && forall k: nat | k < n :: k in ks
    ensures |ks| == n
  {
    ElemsOfNoDup(ks);
    ElemsOfNoDup(RunOf(0, n));
    forall k: nat ensures k in Elems(ks) <==> k in Elems(RunOf(0, n)) {
      RunElems(0, n, k);
    }
    assert Elems(ks) == Elems(RunOf(0, n));
  }

  lemma InSomeOrdered(first: seq<nat>, chains: seq<seq<nat>>, ks: seq<nat>, c: nat)
    requires IsOrder(ks, |chains|)
    ensures InSome([first] + Ordered(chains, ks), c) <==> InSome([first] + chains, c)
  {
    var before, after := [first] + chains, [first] + Ordered(chains, ks);
    if InSome(after, c) {
      var i :| 0 <= i < |after| && c in Elems(after[i]);
      assert c in Elems(before[if i == 0 then 0 else 1 + ks[i - 1]]);
    }
    if InSome(before, c) {
      var i :| 0 <= i < |before| && c in Elems(before[i]);
      if i > 0 {
        var k: nat := i - 1;
        assert k in ks;
        var j :| 0 <= j < |ks| && ks[j] == k;
        assert c in Elems(after[1 + j]);
      } else {
        assert c in Elems(after[0]);
      }
    }
  }

  /** The division of clusters does not depend on the order of the chains. */
  lemma PartitionOrdered(used: set<nat>, system: set<nat>, first: seq<nat>, chains: seq<seq<nat>>, ks: seq<nat>)
    requires Partition(used, system, [first] + chains) && IsOrder(ks, |chains|)
    ensures Partition(used, system, [first] + Ordered(chains, ks))
  {
    var before, after := [first] + chains, [first] + Ordered(chains, ks);
    forall c: nat ensures InSome(after, c) <==> InSome(before, c) {
      InSomeOrdered(first, chains, ks, c);
    }
    hide InSome;
    forall i, j | 0 <= i < j < |after| ensures Elems(after[i]) !! Elems(after[j]) {
      var i0, j0 := if i == 0 then 0 else 1 + ks[i - 1], 1 + ks[j - 1];
      assert after[i] == before[i0] && after[j] == before[j0];
      assert Elems(before[if i0 < j0 then i0 else j0]) !! Elems(before[if i0 < j0 then j0 else i0]);
    }
    forall i | 0 <= i < |after| ensures NoDup(after[i]) && Elems(after[i]) !! system {
      assert after[i] == before[if i == 0 then 0 else 1 + ks[i - 1]];
    }
  }

  /** Nor does it matter to a directory in which order its nodes are listed. */
  lemma TidyOrdered(types: seq<byte>, nodes: seq<EntrySet>, isRoot: bool, perCluster: nat, ks: seq<nat>)
    requires IsTidy(types, nodes, isRoot, perCluster) && OthersAreSystem(types, nodes) && IsOrder(ks, |nodes|)
    ensures IsTidy(types, Ordered(nodes, ks), isRoot, perCluster) && OthersAreSystem(types, Ordered(nodes, ks))
  {
    var after := Ordered(nodes, ks);
    forall i: nat ensures Covered(after, i) <==> Covered(nodes, i) {
      CoveredOrdered(nodes, ks, i);
    }
    forall i, j | 0 <= i < j < |after| ensures Apart(after[i], after[j]) {
      var i0, j0 := ks[i], ks[j];
      assert Apart(nodes[if i0 < j0 then i0 else j0], nodes[if i0 < j0 then j0 else i0]);
    }
    hide Covered;
  }

  lemma CoveredOrdered(nodes: seq<EntrySet>, ks: seq<nat>, i: nat)
    requires IsOrder(ks, |nodes|)
    ensures Covered(Ordered(nodes, ks), i) <==> Covered(nodes, i)
  {
    var after := Ordered(nodes, ks);
    if Covered(after, i) {
      var j :| 0 <= j < |after| && after[j].Has(i);
      assert nodes[ks[j]].Has(i);
    }
    if Covered(nodes, i) {
      var k: nat :| k < |nodes| && nodes[k].Has(i);
      assert k in ks;
      var j :| 0 <= j < |ks| && ks[j] == k;
      assert after[j].Has(i);
    }
  }

  lemma InOrderOrdered(entries: seq<Entry>, types: seq<byte>, nodes: seq<EntrySet>, files: seq<FileNode>, fs: FsInfo,
                       ks: seq<nat>)
    requires InOrder(entries, types, nodes, files, fs) && IsOrder(ks, |nodes|)
    ensures |files| == |nodes| && InOrder(entries, types, Ordered(nodes, ks), Ordered(files, ks), fs)
  {
    hide IsStored;
  }
}

/** Volumes with files in the root directory, and with no other directories. */
module RootVolumes {
  import opened Basics
  import opened Words
  import opened Bitmap
  import opened ClusterMaps
  import opened Chains
  import opened ClusterMath
  import opened FileBytes
  import opened Volumes
  import opened FileIO
  import opened Ownership
  import opened Quota
  import opened Slots
  import opened Directories
  import opened Timestamps
  import opened EntryLayout
  import opened EntrySets
  import opened DeviceMap
  import opened FileSystems
  import opened Listings
  import opened Catalogs
  import opened Mounts
  import opened Images
  import opened Matchings

  /** Of n nodes in a directory, which of the volume's files each is; file 0 is the directory. */
  ghost predicate Owns(owner: seq<nat>, total: nat, n: nat) {
    |owner| == n && total == 1 + n && NoDup(owner) && forall k | 0 <= k < n :: 0 < owner[k] < total
  }

  /** A node of the directory has the fields of the file, and is no directory. */
  ghost predicate Matches(file: FileNode, n: Node)
    reads n
  {
    && file.startCluster == n.startCluster && file.size == n.size && file.validSize == n.validSize
    && file.isContiguous == n.isContiguous && file.attrib / ATTRIB_DIR_BIT % 2 == 0
  }

  ghost predicate AllMatch(files: seq<FileNode>, nodes: seq<Node>, owner: seq<nat>)
    requires Owns(owner, |nodes|, |files|)
    reads nodes
  {
    forall k | 0 <= k < |owner| :: Matches(files[k], nodes[owner[k]])
  }

  lemma OwnsLength(owner: seq<nat>, total: nat, n: nat)
    requires Owns(owner, total, n)
    ensures |owner| == n && total == 1 + n && NoDup(owner) && forall k | 0 <= k < n :: 0 < owner[k] < total
  {
  }

  lemma MatchMade(files: seq<FileNode>, nodes: seq<Node>, owner: seq<nat>, node: FileNode, n: Node)
    requires Owns(owner, |nodes|, |files|) && AllMatch(files, nodes, owner) && Matches(node, n)
    ensures Owns([|nodes|] + owner, |nodes + [n]|, |[node] + files|)
    ensures AllMatch([node] + files, nodes + [n], [|nodes|] + owner)
  {
    hide Matches;
  }

  lemma MatchMoved(files: seq<FileNode>, nodes: seq<Node>, owner: seq<nat>, k: nat, node: FileNode)
    requires Owns(owner, |nodes|, |files|) && AllMatch(files, nodes, owner) && k < |files|
    requires Matches(files[k], nodes[owner[k]]) ==> Matches(node, nodes[owner[k]])
    ensures Owns([owner[k]] + Without(owner, k), |nodes|, |[node] + Without(files, k)|)
    ensures AllMatch([node] + Without(files, k), nodes, [owner[k]] + Without(owner, k))
  {
    hide Matches;
  }

  lemma MatchDropped(files: seq<FileNode>, nodes: seq<Node>, owner: seq<nat>, k: nat)
    requires Owns(owner, |nodes|, |files|) && AllMatch(files, nodes, owner) && k < |files|
    ensures owner[k] < |nodes| && forall j | 0 <= j < |Without(owner, k)| :: Without(owner, k)[j] != owner[k]
    ensures var after := Renumbered(Without(owner, k), owner[k]);
      && Owns(after, |Without(nodes, owner[k])|, |Without(files, k)|)
      && AllMatch(Without(files, k), Without(nodes, owner[k]), after)
  {
    hide Matches;
  }

  class RootVolume {
    const cat: Catalog
    var owner: seq<nat>

    constructor (cat: Catalog, owner: seq<nat>)
      requires cat.Valid() && cat.d == 0 && cat.dir.isRoot && Fits(cat.fsys.vol)
      requires Owns(owner, |cat.fsys.nodes|, |cat.files|)
      requires AllMatch(cat.files, cat.fsys.nodes, owner)
      ensures Valid() && this.cat == cat && this.owner == owner
    {
      this.cat, this.owner := cat, owner;
    }

    ghost predicate Valid()
      reads this, cat, cat.dir, cat.fsys, cat.fsys.vol, cat.fsys.vol.cmap, cat.fsys.vol.cmap.chunk, cat.fsys.nodes
    {
      && cat.Valid() && cat.d == 0 && cat.dir.isRoot && Fits(cat.fsys.vol)
      && Owns(owner, |cat.fsys.nodes|, |cat.files|) && AllMatch(cat.files, cat.fsys.nodes, owner)
    }

    /** The volume as a value: its root directory, and the bytes of all files. */
    ghost function Snapshot(): VolumeState
      reads this, cat, cat.dir, cat.fsys, cat.fsys.nodes
    {
      VolumeState(cat.Snapshot(), cat.fsys.State(), owner)
    }

    ghost function Context(): Setting {
      Setting(cat.fsys.vol.clusterSize, cat.fsys.TheQuota(), cat.Info())
    }

    /** An edit of the root directory, before the list of files follows. */
    method EditRoot(edit: Edit) returns (ok: bool)
      requires Valid() && HasName(edit)
      modifies cat, cat.dir, cat.fsys.vol, cat.fsys.vol.cmap, cat.fsys.vol.cmap.chunk, cat.fsys.nodes[0]
      ensures cat.Valid() && IsEdit(old(Snapshot()), edit, ok, Snapshot(), Context())
      ensures cat.fsys.State() == WithRoot(old(cat.fsys.State()), cat.Snapshot())
      ensures !ok ==> Snapshot() == old(Snapshot())
      ensures |old(cat.files)| == |owner| && AllMatch(old(cat.files), cat.fsys.nodes, owner)
    {
      hide EditStep, FileSystem.Valid, InOrder, IsTidy, OthersAreSystem, AllFit, AreUpdates, Flat, Demand, ClustersFor, Fits;
      cat.fsys.DistinctNodes();
      ghost var before := Snapshot();
      ok := cat.Perform(edit);
      EditedFiles(before, edit, ok, Snapshot(), Context());
    }

    /** exfat_mknod: a name in the directory, and an empty file behind it. */
    method Make(name: seq<u16>, attrib: u16, nameHash: u16, stamp: Stamp) returns (ok: bool)
      requires Valid() && IsAdmitted(MakeFile(name, attrib, nameHash, stamp), Context())
      modifies `owner, cat, cat.dir, cat.fsys, cat.fsys.vol, cat.fsys.vol.cmap, cat.fsys.vol.cmap.chunk, cat.fsys.nodes
      ensures Valid() && IsStep(old(Snapshot()), MakeFile(name, attrib, nameHash, stamp), ok, Snapshot(), Context())
      ensures forall j | 0 <= j < |cat.fsys.nodes| :: cat.fsys.nodes[j] in old(cat.fsys.nodes) || fresh(cat.fsys.nodes[j])
    {
      hide EditStep, Catalog.Valid, Fits, NewNode, AllMatch, Owns, Matches, Demand, ClustersFor, Flat;
      ghost var before, files, nodes := Snapshot(), cat.files, cat.fsys.nodes;
      OwnsLength(owner, |nodes|, |files|);
      ok := EditRoot(Making(name, attrib, nameHash, stamp));
      EditedFiles(before, Making(name, attrib, nameHash, stamp), ok, Snapshot(), Context());
      if ok {
        NewNodeIsEmpty(name, attrib, stamp, cat.timezone);
        Enlist(files, NewNode(name, attrib, stamp, cat.timezone));
      }
    }

    /** A new file, for the node that was put in front of the others. */
    method Enlist(ghost files: seq<FileNode>, ghost node: FileNode)
      requires cat.Valid() && cat.d == 0 && Owns(owner, |cat.fsys.nodes|, |files|) && AllMatch(files, cat.fsys.nodes, owner)
      requires node.startCluster == CLUSTER_FREE && !node.isContiguous && node.size == 0 && node.validSize == 0
      requires node.attrib / ATTRIB_DIR_BIT % 2 == 0
      modifies `owner, cat.fsys`nodes
      ensures cat.Valid() && cat.fsys.State() == old(cat.fsys.State()) + [FileState([], 0)]
      ensures owner == [|old(cat.fsys.nodes)|] + old(owner)
      ensures Owns(owner, |cat.fsys.nodes|, |[node] + files|) && AllMatch([node] + files, cat.fsys.nodes, owner)
      ensures forall j | 0 <= j < |cat.fsys.nodes| :: cat.fsys.nodes[j] in old(cat.fsys.nodes) || fresh(cat.fsys.nodes[j])
    {
      hide Catalog.Valid, Owns, AllMatch;
      ghost var nodes := cat.fsys.nodes;
      AddFile();
      MatchMade(files, nodes, owner, node, cat.fsys.nodes[|nodes|]);
      assert nodes + [cat.fsys.nodes[|nodes|]] == cat.fsys.nodes;
      owner := [|cat.fsys.nodes| - 1] + owner;
    }

    /** exfat_rename, within the root directory. */
    method Rename(k: nat, name: seq<u16>, nameHash: u16) returns (ok: bool)
      requires Valid() && IsAdmitted(NameFile(k, name, nameHash), Context())
      modifies `owner, cat, cat.dir, cat.fsys, cat.fsys.vol, cat.fsys.vol.cmap, cat.fsys.vol.cmap.chunk, cat.fsys.nodes
      ensures Valid() && IsStep(old(Snapshot()), NameFile(k, name, nameHash), ok, Snapshot(), Context())
      ensures forall j | 0 <= j < |cat.fsys.nodes| :: cat.fsys.nodes[j] in old(cat.fsys.nodes) || fresh(cat.fsys.nodes[j])
    {
      hide EditStep, Catalog.Valid, Fits, WithName, AllMatch, Owns, Demand, ClustersFor, Flat;
      ghost var before, files := Snapshot(), cat.files;
      OwnsLength(owner, |cat.fsys.nodes|, |files|);
      ok := EditRoot(Naming(k, name, nameHash));
      EditedFiles(before, Naming(k, name, nameHash), ok, Snapshot(), Context());
      if ok {
        NamedNode(files[k], name);
        MatchMoved(files, cat.fsys.nodes, owner, k, WithName(files[k], name));
        owner := [owner[k]] + Without(owner, k);
      }
    }

    /** exfat_unlink, and exfat_cleanup_node of what was unlinked. */
    method Remove(k: nat) returns (ok: bool)
      requires Valid()
      modifies `owner, cat, cat.dir, cat.fsys, cat.fsys.vol, cat.fsys.vol.cmap, cat.fsys.vol.cmap.chunk, cat.fsys.nodes
      ensures Valid() && IsStep(old(Snapshot()), VolumeCommand.RemoveFile(k), ok, Snapshot(), Context())
      ensures forall j | 0 <= j < |cat.fsys.nodes| :: cat.fsys.nodes[j] in old(cat.fsys.nodes) || fresh(cat.fsys.nodes[j])
    {
      hide EditStep, Catalog.Valid, Fits, AllMatch, Owns, Matches, Demand, ClustersFor, WithRoot, IsDropped, Without;
      ghost var before, files, nodes := Snapshot(), cat.files, cat.fsys.nodes;
      OwnsLength(owner, |nodes|, |files|);
      ok := EditRoot(Removing(k));
      EditedFiles(before, Removing(k), ok, Snapshot(), Context());
      if ok {
        DropOwned(k, files);
        DroppedParts(before, k, Snapshot());
      }
    }

    /** A file goes, and its number with it. */
    method DropOwned(k: nat, ghost files: seq<FileNode>)
      requires cat.Valid() && cat.d == 0 && Owns(owner, |cat.fsys.nodes|, |files|) && k < |files|
      requires AllMatch(files, cat.fsys.nodes, owner)
      modifies `owner, cat.fsys`nodes, cat.fsys.vol, cat.fsys.vol.cmap, cat.fsys.vol.cmap.chunk, cat.fsys.nodes[owner[k]]
      ensures cat.Valid() && old(owner[k]) < |old(cat.fsys.State())|
      ensures cat.fsys.State() == Without(old(cat.fsys.State()), old(owner[k]))
      ensures forall j | 0 <= j < |Without(old(owner), k)| :: Without(old(owner), k)[j] != old(owner[k])
      ensures owner == Renumbered(Without(old(owner), k), old(owner[k]))
      ensures Owns(owner, |cat.fsys.nodes|, |Without(files, k)|) && AllMatch(Without(files, k), cat.fsys.nodes, owner)
      ensures forall j | 0 <= j < |cat.fsys.nodes| :: cat.fsys.nodes[j] in old(cat.fsys.nodes)
    {
      hide FileSystem.Valid, InOrder, IsTidy, OthersAreSystem, AllFit, AreUpdates, Flat, Matches, AllMatch;
      cat.fsys.DistinctNodes();
      ghost var nodes, i := cat.fsys.nodes, owner[k];
      MatchDropped(files, nodes, owner, k);
      assert nodes[i] !in Without(nodes, i);
      DropFile(owner[k]);
      owner := Renumbered(Without(owner, k), owner[k]);
    }

    /** exfat_flush_node of a file. */
    method FlushOne(k: nat) returns (ok: bool)
      requires Valid()
      modifies `owner, cat, cat.dir, cat.fsys, cat.fsys.vol, cat.fsys.vol.cmap, cat.fsys.vol.cmap.chunk, cat.fsys.nodes
      ensures Valid() && IsStep(old(Snapshot()), FlushFile(k), ok, Snapshot(), Context())
      ensures forall j | 0 <= j < |cat.fsys.nodes| :: cat.fsys.nodes[j] in old(cat.fsys.nodes) || fresh(cat.fsys.nodes[j])
    {
      hide EditStep, Catalog.Valid, Fits, AllMatch, Owns, Matches, Demand, ClustersFor, Flat;
      ghost var before := Snapshot();
      OwnsLength(owner, |cat.fsys.nodes|, |cat.files|);
      ok := EditRoot(Edit.Flushing(k));
      EditedFiles(before, Edit.Flushing(k), ok, Snapshot(), Context());
    }

    /** exfat_generic_pwrite to a file. */
    method Store(k: nat, data: seq<byte>, offset: nat, now: int) returns (ok: bool)
      requires Valid() && IsAdmitted(StoreBytes(k, data, offset, now), Context())
      modifies `owner, cat, cat.dir, cat.fsys, cat.fsys.vol, cat.fsys.vol.cmap, cat.fsys.vol.cmap.chunk, cat.fsys.nodes
      ensures Valid() && IsStep(old(Snapshot()), StoreBytes(k, data, offset, now), ok, Snapshot(), Context())
      ensures forall j | 0 <= j < |cat.fsys.nodes| :: cat.fsys.nodes[j] in old(cat.fsys.nodes) || fresh(cat.fsys.nodes[j])
    {
      hide Catalog.Valid, Fits, IsTouched, Matches, Performed, Refused, Demand, ClustersFor;
      ok := false;
      if k < |owner| {
        SizesAreLengths(k);
        var size, mtime := cat.fsys.nodes[owner[k]].size, cat.files[k].mtime;
        ok := WriteFile(owner[k], data, offset);
        SizeIsLength(owner[k]);
        var renewed := cat.fsys.nodes[owner[k]].size != size || (ok && data != []);
        if renewed {
          mtime := now;
        }
        Touch(k, mtime, renewed, cat.fsys.State()[owner[k]]);
      }
    }

    /** exfat_truncate of a file. */
    method Resize(k: nat, size: nat, erase: bool, now: int) returns (ok: bool)
      requires Valid() && IsAdmitted(SetSize(k, size, erase, now), Context())
      modifies `owner, cat, cat.dir, cat.fsys, cat.fsys.vol, cat.fsys.vol.cmap, cat.fsys.vol.cmap.chunk, cat.fsys.nodes
      ensures Valid() && IsStep(old(Snapshot()), SetSize(k, size, erase, now), ok, Snapshot(), Context())
      ensures forall j | 0 <= j < |cat.fsys.nodes| :: cat.fsys.nodes[j] in old(cat.fsys.nodes) || fresh(cat.fsys.nodes[j])
    {
      hide Catalog.Valid, Fits, IsTouched, Matches, Performed, Refused, Demand, ClustersFor;
      ok := false;
      if k < |owner| {
        SizesAreLengths(k);
        var before, mtime := cat.fsys.nodes[owner[k]].size, cat.files[k].mtime;
        ok := ResizeFile(owner[k], size, erase);
        SizeIsLength(owner[k]);
        var renewed := cat.fsys.nodes[owner[k]].size != before;
        if renewed {
          mtime := now;
        }
        Touch(k, mtime, renewed, cat.fsys.State()[owner[k]]);
      }
    }

    lemma SizeIsLength(i: nat)
      requires cat.Valid() && i < |cat.fsys.nodes|
      ensures cat.fsys.nodes[i].size == |cat.fsys.State()[i].content|
    {
      hide Partition, InOrder, IsTidy, OthersAreSystem, Flat, AllFit, AreUpdates, OnDevice, Extent, ByteAt, Spelled,
        Terminated, ClustersFor;
    }

    /** What holds of file k before it is written: its place in the list, its length and its time. */
    lemma SizesAreLengths(k: nat)
      requires Valid() && k < |owner|
      ensures k < |cat.files| && 0 < owner[k] < |cat.fsys.nodes| && cat.fsys.vol.clusterSize > 0
      ensures cat.fsys.nodes[owner[k]].size == |cat.fsys.State()[owner[k]].content|
      ensures cat.files[k].attrib / ATTRIB_DIR_BIT % 2 == 0 && IsInWidth(cat.files[k].mtime, cat.timezone)
      ensures forall j | 0 <= j < |owner| && j != k ::
                owner[j] != owner[k] && cat.fsys.nodes[owner[j]] != cat.fsys.nodes[owner[k]]
      ensures forall j | 0 <= j < |owner| :: Matches(cat.files[j], cat.fsys.nodes[owner[j]])
    {
      hide Partition, InOrder, IsTidy, OthersAreSystem, Flat, AllFit, OnDevice, Extent, ByteAt, Spelled, Terminated,
        ClustersFor, IsInWidth, Reread, IsSound, IsFile, FileSystem.Valid;
      cat.fsys.DistinctNodes();
      SizeIsLength(owner[k]);
      assert IsUpdate(cat.stored[k], cat.files[k], cat.Info());
    }

    method Perform(c: VolumeCommand) returns (ok: bool)
      requires Valid() && IsAdmitted(c, Context())
      modifies `owner, cat, cat.dir, cat.fsys, cat.fsys.vol, cat.fsys.vol.cmap, cat.fsys.vol.cmap.chunk, cat.fsys.nodes
      ensures Valid() && IsStep(old(Snapshot()), c, ok, Snapshot(), Context())
      ensures forall j | 0 <= j < |cat.fsys.nodes| :: cat.fsys.nodes[j] in old(cat.fsys.nodes) || fresh(cat.fsys.nodes[j])
    {
      hide IsStep, IsAdmitted, RootVolume.Valid;
      match c {
        case MakeFile(name, attrib, nameHash, stamp) => ok := Make(name, attrib, nameHash, stamp);
        case NameFile(k, name, nameHash) => ok := Rename(k, name, nameHash);
        case RemoveFile(k) => ok := Remove(k);
        case StoreBytes(k, data, offset, now) => ok := Store(k, data, offset, now);
        case SetSize(k, size, erase, now) => ok := Resize(k, size, erase, now);
        case FlushFile(k) => ok := FlushOne(k);
      }
    }

    /**
     * Every run of commands on the files of a root directory: each takes the volume from one state to the next as
     * IsStep says, which fixes its result too, and throughout the volume is in order.
     */
    method Run(commands: seq<VolumeCommand>) returns (results: seq<bool>, ghost trace: seq<VolumeState>)
      requires Valid() && forall i | 0 <= i < |commands| :: IsAdmitted(commands[i], Context())
      modifies `owner, cat, cat.dir, cat.fsys, cat.fsys.vol, cat.fsys.vol.cmap, cat.fsys.vol.cmap.chunk, cat.fsys.nodes
      ensures Valid() && |results| == |commands| && |trace| == |commands| + 1
      ensures trace[0] == old(Snapshot()) && trace[|commands|] == Snapshot()
      ensures forall i: nat | i < |commands| :: IsStep(trace[i], commands[i], results[i], trace[i + 1], Context())
      ensures forall i: nat | i <= |commands| :: IsRootInOrder(trace[i].dir, Context())
    {
      hide IsStep, IsAdmitted, IsRootInOrder, RootVolume.Valid, RootVolume.Snapshot, RootVolume.Context;
      results, trace := [], [Snapshot()];
      RootInOrder();
      for i := 0 to |commands|
        invariant Valid() && |results| == i && |trace| == i + 1
        invariant forall j | 0 <= j < |cat.fsys.nodes| ::
                    cat.fsys.nodes[j] in old(cat.fsys.nodes) || fresh(cat.fsys.nodes[j])
        invariant trace[0] == old(Snapshot()) && trace[i] == Snapshot()
        invariant forall j: nat | j < i :: IsStep(trace[j], commands[j], results[j], trace[j + 1], Context())
        invariant forall j: nat | j <= i :: IsRootInOrder(trace[j].dir, Context())
      {
        var ok := Perform(commands[i]);
        RootInOrder();
        results, trace := results + [ok], trace + [Snapshot()];
      }
    }

    lemma RootInOrder()
      requires Valid()
      ensures IsRootInOrder(Snapshot().dir, Context())
    {
      hide FileSystem.Valid, IsStored, OthersAreSystem, AllFit, Disjoint, AllValid, Inside, AreUpdates, AreKept, Flat, Fits,
        AllMatch, Owns;
    }

    /** Nothing is left to be flushed. */
    ghost predicate IsClean()
      reads this, cat, cat.fsys, cat.fsys.vol, cat.fsys.vol.cmap
    {
      && !cat.fsys.vol.cmap.dirty && cat.fsys.MapTells(cat.fsys.vol.cmap.used)
      && |cat.dirty| == |cat.files| && forall k | 0 <= k < |cat.files| :: !cat.dirty[k]
    }

    /** exfat_flush_nodes and exfat_flush. */
    method FlushAll()
      requires Valid()
      modifies cat`stored, cat`dirty, cat`entries, cat.fsys.vol, cat.fsys.vol.cmap, cat.fsys.vol.cmap.chunk, cat.fsys.nodes[0]
      ensures Valid() && IsClean() && OthersSame(old(cat.fsys.State()), cat.fsys.State(), 0)
      ensures |cat.entries| == |old(cat.entries)|
      ensures forall i | 0 <= i < |cat.entries| && !Covered(cat.dir.nodes, i) :: cat.entries[i] == old(cat.entries)[i]
    {
      hide FileSystem.Valid, InOrder, IsTidy, OthersAreSystem, AllFit, AreUpdates, Flat, Fits, Matches, OthersSame, Covered,
        Reread, CanFlush;
      cat.fsys.DistinctNodes();
      cat.FlushAllNodes();
    }

    /** A new file for the list, behind all others. */
    method AddFile()
      requires cat.Valid() && cat.d == 0
      modifies cat.fsys`nodes
      ensures cat.Valid() && cat.fsys.State() == old(cat.fsys.State()) + [FileState([], 0)]
      ensures |cat.fsys.nodes| == |old(cat.fsys.nodes)| + 1
      ensures cat.fsys.nodes[..|old(cat.fsys.nodes)|] == old(cat.fsys.nodes)
      ensures var n := cat.fsys.nodes[|old(cat.fsys.nodes)|];
        fresh(n) && n.startCluster == CLUSTER_FREE && !n.isContiguous && n.size == 0 && n.validSize == 0
    {
      hide FileSystem.Valid, InOrder, IsTidy, OthersAreSystem, AllFit, AreUpdates, Flat;
      cat.fsys.CreateFile();
    }

    /** exfat_cleanup_node of a file that is not the root directory. */
    method DropFile(i: nat)
      requires cat.Valid() && cat.d == 0 && 0 < i < |cat.fsys.nodes|
      modifies cat.fsys`nodes, cat.fsys.vol, cat.fsys.vol.cmap, cat.fsys.vol.cmap.chunk, cat.fsys.nodes[i]
      ensures cat.Valid() && cat.fsys.State() == Without(old(cat.fsys.State()), i)
      ensures cat.fsys.nodes == Without(old(cat.fsys.nodes), i)
    {
      hide InOrder, IsTidy, OthersAreSystem, AllFit, AreUpdates, Flat, Partition, IsFile, Volume.Valid;
      cat.fsys.RemoveFile(i);
    }

    /** exfat_generic_pwrite to a file that is not the root directory. */
    method WriteFile(i: nat, data: seq<byte>, offset: nat) returns (ok: bool)
      requires cat.Valid() && cat.d == 0 && 0 < i < |cat.fsys.nodes|
      requires offset + |data| <= ClusterStart(cat.fsys.vol.clusterSize, 0xFFFF_FFFF)
      modifies cat.fsys.vol, cat.fsys.vol.cmap, cat.fsys.vol.cmap.chunk, cat.fsys.nodes[i]
      ensures cat.Valid() && i < |cat.fsys.State()|
      ensures Step(cat.fsys.vol.clusterSize, cat.fsys.TheQuota(), old(cat.fsys.State()), i, Writing(data, offset), ok,
                   cat.fsys.State())
    {
      hide InOrder, IsTidy, OthersAreSystem, AllFit, AreUpdates, Flat, Partition, IsFile, Volume.Valid, Demand, Performed,
        ClusterStart, ClustersFor;
      ok := cat.fsys.Write(i, data, offset);
    }

    /** exfat_truncate of a file that is not the root directory. */
    method ResizeFile(i: nat, size: nat, erase: bool) returns (ok: bool)
      requires cat.Valid() && cat.d == 0 && 0 < i < |cat.fsys.nodes|
      requires size <= ClusterStart(cat.fsys.vol.clusterSize, 0xFFFF_FFFF)
      modifies cat.fsys.vol, cat.fsys.vol.cmap, cat.fsys.vol.cmap.chunk, cat.fsys.nodes[i]
      ensures cat.Valid() && i < |cat.fsys.State()|
      ensures Step(cat.fsys.vol.clusterSize, cat.fsys.TheQuota(), old(cat.fsys.State()), i, Resizing(size, erase), ok,
                   cat.fsys.State())
    {
      hide InOrder, IsTidy, OthersAreSystem, AllFit, AreUpdates, Flat, Partition, IsFile, Volume.Valid, Demand, Performed,
        ClusterStart, ClustersFor;
      ok := cat.fsys.Truncate(i, size, erase);
    }

    /** A file was written or resized: its node in the directory comes to have the fields of the file. */
    method Touch(k: nat, mtime: int, renewed: bool, ghost f: FileState)
      requires cat.Valid() && cat.d == 0 && cat.dir.isRoot && Fits(cat.fsys.vol) && IsInWidth(mtime, cat.timezone)
      requires Owns(owner, |cat.fsys.nodes|, |cat.files|) && k < |owner| && cat.files[k].attrib / ATTRIB_DIR_BIT % 2 == 0
      requires forall j | 0 <= j < |owner| && j != k :: Matches(cat.files[j], cat.fsys.nodes[owner[j]])
      requires f == cat.fsys.State()[owner[k]]
      modifies cat`files, cat`dirty
      ensures Valid() && IsTouched(old(cat.Snapshot()), cat.Snapshot(), k, f, mtime, renewed)
    {
      hide Catalog.Valid, IsUpdate, Fits, FileSystem.Valid;
      var n := cat.fsys.nodes[owner[k]];
      var node := cat.files[k].(startCluster := n.startCluster, size := n.size, validSize := n.validSize,
                                isContiguous := n.isContiguous, mtime := mtime);
      TouchedIsUpdate(k, node);
      if renewed || node != cat.files[k] {
        cat.Change(k, node);
      }
    }

    lemma TouchedIsUpdate(k: nat, node: FileNode)
      requires cat.Valid() && Fits(cat.fsys.vol) && k < |owner| == |cat.files| && owner[k] < |cat.fsys.nodes|
      requires var n := cat.fsys.nodes[owner[k]];
        && node == cat.files[k].(startCluster := n.startCluster, size := n.size, validSize := n.validSize,
                                 isContiguous := n.isContiguous, mtime := node.mtime)
      requires node.attrib / ATTRIB_DIR_BIT % 2 == 0 && IsInWidth(node.mtime, cat.timezone)
      ensures IsUpdate(cat.files[k], node, cat.Info())
      ensures cat.fsys.nodes[owner[k]].size == |cat.fsys.State()[owner[k]].content| && |cat.dirty| == |cat.files|
    {
      hide Partition, InOrder, IsTidy, OthersAreSystem, Flat, AllFit, Reread, IsSound, ToUnix, OnDevice, Extent, ByteAt,
        Spelled, Terminated;
      var fs, n := cat.fsys, cat.fsys.nodes[owner[k]];
      SizeIsBounded(fs.vol, n);
      FileIsSound(fs.vol, n, node, cat.timezone);
    }
  }

  lemma SizeIsBounded(ef: Volume, n: Node)
    requires ef.Valid() && IsFile(ef, n)
    ensures n.validSize <= n.size == |n.content| && n.size <= ef.clusterCount * ef.clusterSize
  {
    hide ByteAt, ClusterIndex, ClusterOffset, ClustersFor;
    SizeCovers(ef.clusterSize, n.size, 0);
    SizeFits(ef.clusterSize, ef.clusterCount, n.chain, n.size, ef.cmap.used);
  }

  /** Of one node, the fields that come from its file, and its time. It is marked if any of them changed. */
  ghost predicate IsTouched(before: DirState, after: DirState, k: nat, f: FileState, mtime: int, renewed: bool) {
    && k < |before.files| == |after.files| == |before.dirty|
    && after == before.(files := before.files[k := after.files[k]], dirty := after.dirty)
    && after.dirty == (if renewed || after.files[k] != before.files[k] then before.dirty[k := true] else before.dirty)
    && after.files[k] == before.files[k].(size := |f.content|, validSize := f.validSize, mtime := mtime,
                                          startCluster := after.files[k].startCluster,
                                          isContiguous := after.files[k].isContiguous)
  }

  /** Sizes fit in 64 bits, and the bitmap in memory has a word for every 64 clusters. */
  ghost predicate Fits(vol: Volume) {
    && vol.cmap.chunk.Length == DivRoundUp(vol.clusterCount, WORD_BITS)
    && vol.clusterCount * vol.clusterSize < 0x1_0000_0000_0000_0000
  }

  /** The volume object is what the device holds. */
  ghost predicate IsVolumeOf(vol: Volume, dev: Device)
    reads vol
  {
    vol.fat == dev.fat && vol.heap == dev.heap && vol.clusterSize == dev.clusterSize && vol.clusterCount == |dev.heap|
  }

  /** Nodes for files that were read. */
  method OpenNodes(vol: Volume, ghost dev: Device, files: seq<FileNode>, ghost chains: seq<seq<nat>>)
    returns (nodes: seq<Node>)
    requires vol.Valid() && IsVolumeOf(vol, dev) && |chains| == |files|
    requires forall k | 0 <= k < |files| :: IsStoredFile(dev, files[k], chains[k]) && Elems(chains[k]) <= vol.cmap.used
    ensures |nodes| == |files| && (forall k | 0 <= k < |nodes| :: fresh(nodes[k]))
    ensures forall i, j | 0 <= i < j < |nodes| :: nodes[i] != nodes[j]
    ensures forall k | 0 <= k < |nodes| :: IsOpened(vol, files[k], chains[k], nodes[k])
  {
    hide Volume.Valid, IsFile, Spelled, Terminated, NoDup, ClustersFor;
    nodes := [];
    for j := 0 to |files|
      invariant |nodes| == j && (forall k | 0 <= k < j :: fresh(nodes[k]))
      invariant forall i, k | 0 <= i < k < j :: nodes[i] != nodes[k]
      invariant forall k | 0 <= k < j :: IsOpened(vol, files[k], chains[k], nodes[k])
    {
      var f := files[j];
      var n := OpenNode(vol, f.startCluster, f.size, f.validSize, f.isContiguous, chains[j]);
      nodes := nodes + [n];
    }
  }

  /** The node of a file that was read: its chain is found, and its content is that on the device. */
  ghost predicate IsOpened(vol: Volume, file: FileNode, chain: seq<nat>, n: Node)
    reads vol, vol.cmap, n
  {
    && IsFile(vol, n) && n.chain == chain && n.startCluster == file.startCluster && n.size == file.size
    && n.validSize == file.validSize && n.isContiguous == file.isContiguous
    && n.content == ContentOf(vol.clusterSize, vol.heap, chain, file.size, file.validSize)
  }

  /** exfat_cache_directory of the root directory: all its files are found, in the order of their places. */
  method ReadNodes(entries: seq<Entry>, info: FsInfo, ghost nodes: seq<EntrySet>, ghost stored: seq<FileNode>)
    returns (slots: seq<EntrySet>, files: seq<FileNode>, ghost ks: seq<nat>)
    requires info.clusterSize > 0 && InOrder(entries, TypesOf(entries), nodes, stored, info)
    requires Disjoint(nodes) && Inside(nodes, |entries|) && OthersAreSystem(TypesOf(entries), nodes)
    ensures |stored| == |nodes| && IsOrder(ks, |nodes|) && slots == Ordered(nodes, ks) && files == Ordered(stored, ks)
    ensures |slots| == |files| == |nodes| && forall k: nat | k < |nodes| :: nodes[k] in slots && stored[k] in files
  {
    hide FoundSoFar, IsStored, OthersAreSystem, Disjoint, SlotsAt;
    var ok, found := CacheDirectory(entries, info, nodes, stored);
    ks := Matching(nodes, stored, found, |entries|);
    forall j | 0 <= j < |found|
      ensures found[j].start + 1 < |entries| && SlotsAt(entries, found[j].start) == nodes[ks[j]]
    {
      SlotsOfStored(entries, nodes[ks[j]], stored[ks[j]], info);
    }
    slots := seq(|found|, j requires 0 <= j < |found| => SlotsAt(entries, found[j].start));
    files := seq(|found|, j requires 0 <= j < |found| => found[j].node);
    forall k: nat | k < |nodes| ensures nodes[k] in slots && stored[k] in files {
      assert k in ks;
      var j :| 0 <= j < |ks| && ks[j] == k;
      assert slots[j] == nodes[k] && files[j] == stored[k];
    }
  }

  /** The root node of exfat_mount. */
  method OpenRoot(vol: Volume, dev: Device, timezone: int, ghost im: Image) returns (root: Node)
    requires IsImage(dev, im, timezone) && vol.Valid() && IsVolumeOf(vol, dev) && Elems(im.rootChain) <= vol.cmap.used
    ensures fresh(root) && IsFile(vol, root) && root.chain == im.rootChain && root.startCluster == dev.rootdirCluster
    ensures !root.isContiguous && root.content == Flat(im.entries) && root.validSize == ENTRY * |im.entries|
  {
    hide Partition, InOrder, IsTidy, OthersAreSystem, AllFit, IsStoredFile, Flat, NamesMap, Volume.Valid;
    ghost var chain: seq<nat>;
    var size: nat;
    size, chain := RootdirSize(dev.fat, |dev.heap|, dev.clusterSize, dev.rootdirCluster);
    EndedChainIsFresh(|dev.heap|, dev.fat, im.rootChain, dev.rootdirCluster);
    HeldContent(dev.clusterSize, dev.heap, im.rootChain, size, size, Flat(im.entries));
    hide ClustersFor, ByteAt, ContentOf, Spelled;
    root := OpenNode(vol, dev.rootdirCluster, size, size, false, im.rootChain);
  }

  /** What a mount keeps of an image: the same system, the same entries, and the same files, chains and bytes, numbered
      anew. */
  ghost predicate IsMounted(v: RootVolume, dev: Device, im: Image, timezone: int, ks: seq<nat>)
    reads v, v.cat, v.cat.dir, v.cat.fsys, v.cat.fsys.vol, v.cat.fsys.vol.cmap, v.cat.fsys.nodes
  {
    var fs := v.cat.fsys;
    && IsVolumeOf(fs.vol, dev) && v.cat.startCluster == dev.rootdirCluster && v.cat.timezone == timezone
    && im.mapAt < |im.entries| && fs.vol.cmap.start == EntryStart(im.entries[im.mapAt]) && dev.clusterSize > 0
    && fs.vol.cmap.used == UsedOnDevice(dev, fs.vol.cmap.start)
    && fs.system == im.system && v.cat.entries == im.entries
    && |im.nodes| == |im.files| == |im.chains| && IsOrder(ks, |im.files|)
    && v.cat.dir.nodes == Ordered(im.nodes, ks) && v.cat.files == v.cat.stored == Ordered(im.files, ks)
    && |v.owner| == |im.files| && |fs.nodes| == 1 + |im.files|
    && forall j | 0 <= j < |im.files| ::
         var f := im.files[ks[j]];
         v.owner[j] == j + 1 && fs.nodes[j + 1].chain == im.chains[ks[j]]
         && fs.State()[j + 1] ==
            FileState(ContentOf(dev.clusterSize, dev.heap, im.chains[ks[j]], f.size, f.validSize), f.validSize)
  }

  lemma ChainsAreUsed(used: set<nat>, system: set<nat>, chains: seq<seq<nat>>)
    requires Partition(used, system, chains)
    ensures forall k | 0 <= k < |chains| :: Elems(chains[k]) <= used
  {
    forall k, c | 0 <= k < |chains| && c in Elems(chains[k]) ensures c in used {
      assert InSome(chains, c);
    }
  }

  /** The file system of what was read. */
  method BuildFiles(vol: Volume, dev: Device, root: Node, files: seq<FileNode>, ghost system: set<nat>,
                    ghost rootChain: seq<nat>, ghost chains: seq<seq<nat>>)
    returns (fs: FileSystem)
    requires vol.Valid() && IsVolumeOf(vol, dev) && |chains| == |files|
    requires forall k | 0 <= k < |files| :: IsStoredFile(dev, files[k], chains[k])
    requires IsFile(vol, root) && root.chain == rootChain && Partition(vol.cmap.used, system, [rootChain] + chains)
    requires dev.clusterSize > 0 && DataCluster(|dev.heap|, vol.cmap.start)
    requires vol.cmap.chunk.Length == |vol.cmap.onDisk| == DivRoundUp(|dev.heap|, WORD_BITS)
    requires OnDevice(dev.clusterSize, dev.heap, vol.cmap.start, vol.cmap.onDisk)
    requires Extent(dev.clusterSize, vol.cmap.start, WORD_BYTES * DivRoundUp(|dev.heap|, WORD_BITS)) <= system
    ensures fresh(fs) && fs.Valid() && fs.vol == vol && fs.system == system
    ensures |fs.nodes| == 1 + |files| && fs.nodes[0] == root
    ensures forall k | 0 <= k < |files| :: IsOpened(vol, files[k], chains[k], fs.nodes[k + 1])
  {
    hide IsStoredFile, Partition, Volume.Valid, IsFile, OnDevice, Extent, DivRoundUp;
    ChainsAreUsed(vol.cmap.used, system, [rootChain] + chains);
    assert forall k | 0 <= k < |files| :: ([rootChain] + chains)[k + 1] == chains[k];
    var nodes := OpenNodes(vol, dev, files, chains);
    var all := [root] + nodes;
    fs := new FileSystem(vol, all, system, [rootChain] + chains);
  }

  /** The volume of a device in order, and its files, as they are found in the root directory. */
  method MountFiles(dev: Device, timezone: int, ghost im: Image)
    returns (fs: FileSystem, entries: seq<Entry>, slots: seq<EntrySet>, files: seq<FileNode>, ghost ks: seq<nat>)
    requires IsImage(dev, im, timezone)
    ensures fresh(fs) && fs.Valid() && IsVolumeOf(fs.vol, dev) && Fits(fs.vol) && fs.system == im.system
    ensures fs.vol.cmap.start == EntryStart(im.entries[im.mapAt])
    ensures fs.vol.cmap.used == UsedOnDevice(dev, fs.vol.cmap.start)
    ensures entries == im.entries && |im.nodes| == |im.files| && IsOrder(ks, |im.files|)
    ensures slots == Ordered(im.nodes, ks) && files == Ordered(im.files, ks)
    ensures |fs.nodes| == 1 + |im.files| && fs.nodes[0].startCluster == dev.rootdirCluster && !fs.nodes[0].isContiguous
    ensures fs.nodes[0].content == Flat(im.entries) && fs.nodes[0].validSize == ENTRY * |im.entries|
    ensures forall j | 0 <= j < |im.files| ::
              IsOpened(fs.vol, Ordered(im.files, ks)[j], Ordered(im.chains, ks)[j], fs.nodes[j + 1])
  {
    hide InOrder, IsTidy, OthersAreSystem, IsStoredFile, Partition, Volume.Valid, FileSystem.Valid, IsFile, Flat,
      UsedOnDevice, Extent, OnDevice, ContentOf, ClusterMap.Valid, EntryStart, DivRoundUp, Shaped, TypesOf, HoldsRoot,
      NamesMap, Inside, Disjoint;
    var vol: Volume;
    vol, entries := LoadVolume(dev, timezone, im);
    MapParts(dev, im);
    RootParts(dev, im, timezone);
    ChainsAreUsed(vol.cmap.used, im.system, [im.rootChain] + im.chains);
    assert ([im.rootChain] + im.chains)[0] == im.rootChain;
    var root := OpenRoot(vol, dev, timezone, im);
    slots, files, ks := ReadNodes(entries, FsInfo(timezone, dev.clusterSize, |dev.heap|), im.nodes, im.files);
    PartitionOrdered(vol.cmap.used, im.system, im.rootChain, im.chains, ks);
    fs := BuildFiles(vol, dev, root, files, im.system, im.rootChain, Ordered(im.chains, ks));
  }

  /** exfat_mount of a device in order: whatever is on it comes up. */
  method Mount(dev: Device, timezone: int, ghost im: Image) returns (v: RootVolume, ghost ks: seq<nat>)
    requires IsImage(dev, im, timezone) && IsZone(timezone)
    requires forall k | 0 <= k < |im.files| :: im.files[k].attrib / ATTRIB_DIR_BIT % 2 == 0
    ensures fresh(v) && v.Valid() && IsMounted(v, dev, im, timezone, ks)
  {
    hide IsStoredFile, Partition, FileSystem.Valid, IsFile, Flat, UsedOnDevice, ContentOf, EntryStart, DivRoundUp, Shaped,
      TypesOf, RootVolume.Valid, IsMounted, HoldsRoot, NamesMap, InOrder, IsTidy, OthersAreSystem, AllFit;
    var fs: FileSystem, entries: seq<Entry>, slots: seq<EntrySet>, files: seq<FileNode>;
    fs, entries, slots, files, ks := MountFiles(dev, timezone, im);
    RootParts(dev, im, timezone);
    OrderedRoot(dev, im, timezone, ks);
    v := Assemble(fs, entries, slots, files, timezone);
    MountedParts(v, dev, im, timezone, ks);
  }

  lemma MapParts(dev: Device, im: Image)
    requires NamesMap(dev, im)
    ensures DataCluster(|dev.heap|, EntryStart(im.entries[im.mapAt]))
    ensures Extent(dev.clusterSize, EntryStart(im.entries[im.mapAt]), WORD_BYTES * DivRoundUp(|dev.heap|, WORD_BITS))
            <= im.system
  {
    hide EntryStart, EntrySize, Extent, IsGoodUpcase, IsGoodLabel;
    assert !IsBad(im.entries, im.mapAt, |dev.heap|);
  }

  lemma OrderedRoot(dev: Device, im: Image, timezone: int, ks: seq<nat>)
    requires HoldsRoot(dev, im, timezone) && |im.files| == |im.nodes| && IsOrder(ks, |im.nodes|)
    ensures var perCluster := dev.clusterSize / ENTRY; var slots := Ordered(im.nodes, ks);
      && IsTidy(TypesOf(im.entries), slots, true, perCluster) && OthersAreSystem(TypesOf(im.entries), slots)
      && AllFit(slots, perCluster)
      && InOrder(im.entries, TypesOf(im.entries), slots, Ordered(im.files, ks), InfoOf(dev, timezone))
  {
    hide InOrder, IsTidy, OthersAreSystem, IsChainFrom, Holds, FitsItsName, TypesOf, Flat, ClusterStart;
    TidyOrdered(TypesOf(im.entries), im.nodes, true, dev.clusterSize / ENTRY, ks);
    InOrderOrdered(im.entries, TypesOf(im.entries), im.nodes, im.files, InfoOf(dev, timezone), ks);
  }

  lemma RootParts(dev: Device, im: Image, timezone: int)
    requires HoldsRoot(dev, im, timezone)
    ensures Disjoint(im.nodes) && Inside(im.nodes, |im.entries|) && |im.files| == |im.nodes| && im.entries != []
    ensures InOrder(im.entries, TypesOf(im.entries), im.nodes, im.files, InfoOf(dev, timezone))
    ensures OthersAreSystem(TypesOf(im.entries), im.nodes)
    ensures dev.clusterSize % ENTRY == 0 && dev.clusterSize >= 16 * ENTRY
  {
  }

  /** The directory in front of its files. */
  method Assemble(fs: FileSystem, entries: seq<Entry>, slots: seq<EntrySet>, files: seq<FileNode>, timezone: int)
    returns (v: RootVolume)
    requires fs.Valid() && Fits(fs.vol) && IsZone(timezone) && |fs.nodes| == 1 + |files| && entries != []
    requires fs.vol.clusterSize % ENTRY == 0 && fs.vol.clusterSize >= 16 * ENTRY && !fs.nodes[0].isContiguous
    requires fs.nodes[0].content == Flat(entries) && fs.nodes[0].validSize == ENTRY * |entries|
    requires IsTidy(TypesOf(entries), slots, true, fs.vol.clusterSize / ENTRY) && OthersAreSystem(TypesOf(entries), slots)
    requires AllFit(slots, fs.vol.clusterSize / ENTRY)
    requires InOrder(entries, TypesOf(entries), slots, files, FsInfo(timezone, fs.vol.clusterSize, fs.vol.clusterCount))
    requires forall k | 0 <= k < |files| :: Matches(files[k], fs.nodes[k + 1])
    ensures fresh(v) && fresh(v.cat) && fresh(v.cat.dir) && v.Valid() && v.cat.fsys == fs
    ensures v.cat.entries == entries && v.cat.dir.nodes == slots && v.cat.files == v.cat.stored == files
    ensures v.cat.timezone == timezone && v.cat.startCluster == fs.nodes[0].startCluster
    ensures |v.owner| == |files| && forall k | 0 <= k < |files| :: v.owner[k] == k + 1
  {
    hide IsTidy, InOrder, OthersAreSystem, AllFit, FileSystem.Valid, Flat, TypesOf, Fits, Catalog.Valid;
    var perCluster := fs.vol.clusterSize / ENTRY;
    var dir := new Directory(TypesOf(entries), slots, true, perCluster);
    var cat := new Catalog(fs, 0, dir, timezone, files, entries);
    var owner := seq(|files|, k => k + 1);
    v := new RootVolume(cat, owner);
  }

  lemma MountedParts(v: RootVolume, dev: Device, im: Image, timezone: int, ks: seq<nat>)
    requires IsImage(dev, im, timezone) && IsVolumeOf(v.cat.fsys.vol, dev) && IsOrder(ks, |im.files|)
    requires v.cat.startCluster == dev.rootdirCluster && v.cat.timezone == timezone && v.cat.entries == im.entries
    requires v.cat.fsys.vol.cmap.start == EntryStart(im.entries[im.mapAt])
    requires v.cat.fsys.vol.cmap.used == UsedOnDevice(dev, v.cat.fsys.vol.cmap.start) && v.cat.fsys.system == im.system
    requires |im.nodes| == |im.files| && v.cat.dir.nodes == Ordered(im.nodes, ks)
    requires v.cat.files == v.cat.stored == Ordered(im.files, ks)
    requires |v.owner| == |im.files| && |v.cat.fsys.nodes| == 1 + |im.files|
    requires forall j | 0 <= j < |im.files| ::
               v.owner[j] == j + 1 &&
               IsOpened(v.cat.fsys.vol, Ordered(im.files, ks)[j], Ordered(im.chains, ks)[j], v.cat.fsys.nodes[j + 1])
    ensures IsMounted(v, dev, im, timezone, ks)
  {
    hide InOrder, IsTidy, OthersAreSystem, IsStoredFile, Partition, IsFile, Flat, UsedOnDevice, Extent, ContentOf,
      IsChainFrom, Holds, EntryStart, SystemIsNamed, DivRoundUp, AllFit, Shaped, ClusterStart, TypesOf, HoldsRoot, IsOrder;
  }

  datatype VolumeCommand =
    | MakeFile(name: seq<u16>, attrib: u16, nameHash: u16, stamp: Stamp)
    | NameFile(k: nat, name: seq<u16>, nameHash: u16)
    | RemoveFile(k: nat)
    | StoreBytes(k: nat, data: seq<byte>, offset: nat, now: int)
    | SetSize(k: nat, size: nat, erase: bool, now: int)
    | FlushFile(k: nat)

  /** What does not change in a volume: its cluster size, its clusters for files, and what parsing depends on. */
  datatype Setting = Setting(clusterSize: nat, quota: int, info: FsInfo)

  /** Names have a length, sizes stay below 2^32 clusters, and files are no directories. */
  ghost predicate IsAdmitted(c: VolumeCommand, env: Setting) {
    match c
    case MakeFile(name, attrib, _, _) => 0 < |name| < NAME_BUFFER && attrib / ATTRIB_DIR_BIT % 2 == 0
    case NameFile(_, name, _) => 0 < |name| < NAME_BUFFER
    case StoreBytes(_, data, offset, now) =>
      offset + |data| <= ClusterStart(env.clusterSize, 0xFFFF_FFFF) && IsInWidth(now, env.info.timezone)
    case SetSize(_, size, _, now) => size <= ClusterStart(env.clusterSize, 0xFFFF_FFFF) && IsInWidth(now, env.info.timezone)
    case _ => true
  }

  /** The root directory's file holds its entries. */
  ghost function WithRoot(files: seq<FileState>, dir: DirState): seq<FileState>
    requires files != []
  {
    files[0 := FileState(Flat(dir.entries), ENTRY * |dir.entries|)]
  }

  /** The numbers of files when file i is gone. */
  function Renumbered(owner: seq<nat>, i: nat): (after: seq<nat>)
    requires forall j | 0 <= j < |owner| :: owner[j] != i
    ensures |after| == |owner| && forall j | 0 <= j < |owner| :: after[j] == if owner[j] > i then owner[j] - 1 else owner[j]
  {
    seq(|owner|, j requires 0 <= j < |owner| => if owner[j] > i then owner[j] - 1 else owner[j])
  }

  /** An edit of the root directory, within the clusters that the other files leave. */
  ghost predicate IsEdit(before: VolumeState, edit: Edit, ok: bool, after: VolumeState, env: Setting) {
    && env.clusterSize > 0
    && EditStep(before.dir, edit, ok, after.dir, true, env.clusterSize / ENTRY, RoomOf(before, env), env.info)
  }

  /** The clusters that the other files leave to the root directory. */
  ghost function RoomOf(volume: VolumeState, env: Setting): int
    requires env.clusterSize > 0
  {
    env.quota - (Demand(env.clusterSize, volume.files) - ClustersFor(env.clusterSize, ENTRY * |volume.dir.entries|))
  }

  /** What an edit leaves of the list of nodes in memory. */
  lemma EditedFiles(before: VolumeState, edit: Edit, ok: bool, after: VolumeState, env: Setting)
    requires IsEdit(before, edit, ok, after, env)
    ensures !ok ==> after.dir == before.dir
    ensures var files := before.dir.files;
      ok ==> match edit
        case Making(name, attrib, _, s) =>
          0 < |name| < NAME_BUFFER && after.dir.files == [NewNode(name, attrib, s, env.info.timezone)] + files
        case Naming(k, name, _) =>
          && 0 < |name| < NAME_BUFFER && k < |files|
          && after.dir.files == [WithName(files[k], name)] + Without(files, k)
        case Removing(k) => k < |files| && after.dir.files == Without(files, k)
        case Flushing(k) => k < |files| && after.dir.files == files
        case Changing(k, node) => k < |files| && after.dir.files == files[k := node]
  {
    hide IsFullIn, IsPlace, IsMoved, Extended, FileBytes.Patch, Refit, NewNode, WithName, Without, IsUpdate, CanFlush,
      Reread, Flushed, Committed, ShrunkTo, Erased, TypesOf;
  }

  lemma NewNodeIsEmpty(name: seq<u16>, attrib: u16, s: Stamp, timezone: int)
    requires 0 < |name| < NAME_BUFFER
    ensures var node := NewNode(name, attrib, s, timezone);
      && node.startCluster == CLUSTER_FREE && !node.isContiguous && node.size == 0 && node.validSize == 0
      && node.attrib == attrib
  {
    hide ToUnix, Padded;
  }

  lemma NamedNode(node: FileNode, name: seq<u16>)
    requires 0 < |name| < NAME_BUFFER
    ensures var named := WithName(node, name);
      && named.startCluster == node.startCluster && named.isContiguous == node.isContiguous && named.size == node.size
      && named.validSize == node.validSize && named.attrib == node.attrib
  {
  }

  lemma DroppedParts(before: VolumeState, k: nat, after: VolumeState)
    requires before.files != [] && k < |before.owner| && before.owner[k] < |before.files| && NoDup(before.owner)
    requires after.files == Without(WithRoot(before.files, after.dir), before.owner[k])
    requires forall j | 0 <= j < |Without(before.owner, k)| :: Without(before.owner, k)[j] != before.owner[k]
    requires after.owner == Renumbered(Without(before.owner, k), before.owner[k])
    ensures IsDropped(before, k, after)
  {
  }

  /** An operation on the bytes of a file, and what its node in the directory shows of it. */
  ghost predicate IsOperation(before: VolumeState, k: nat, op: Operation, now: int, ok: bool, after: VolumeState,
                              env: Setting)
  {
    && env.clusterSize > 0 && k < |before.owner| && k < |before.dir.files|
    && var i := before.owner[k];
    && i < |before.files| == |after.files| && after.owner == before.owner
    && Step(env.clusterSize, env.quota, before.files, i, op, ok, after.files)
    && var renewed := IsNewTime(before.files[i], op, ok, after.files[i]);
       IsTouched(before.dir, after.dir, k, after.files[i], if renewed then now else before.dir.files[k].mtime, renewed)
  }

  /** The time of modification is renewed by bytes written, and by a change of the size. */
  predicate IsNewTime(before: FileState, op: Operation, ok: bool, after: FileState) {
    |after.content| != |before.content| || (ok && op.Writing? && op.data != [])
  }

  /** A root directory in order, as a value. */
  ghost predicate IsRootInOrder(dir: DirState, env: Setting) {
    && env.clusterSize > 0 && env.clusterSize / ENTRY > 0
    && InOrder(dir.entries, TypesOf(dir.entries), dir.nodes, dir.stored, env.info)
    && IsTidy(TypesOf(dir.entries), dir.nodes, true, env.clusterSize / ENTRY)
    && OthersAreSystem(TypesOf(dir.entries), dir.nodes)
  }

  /** The effect of a command and its result. */
  ghost predicate IsStep(before: VolumeState, c: VolumeCommand, ok: bool, after: VolumeState, env: Setting) {
    && before.files != []
    && match c
       case MakeFile(name, attrib, nameHash, stamp) =>
         && IsEdit(before, Making(name, attrib, nameHash, stamp), ok, after, env)
         && after.files == WithRoot(before.files, after.dir) + (if ok then [FileState([], 0)] else [])
         && after.owner == (if ok then [|before.files|] else []) + before.owner
       case NameFile(k, name, nameHash) =>
         && IsEdit(before, Naming(k, name, nameHash), ok, after, env)
         && after.files == WithRoot(before.files, after.dir)
         && if ok then k < |before.owner| && after.owner == [before.owner[k]] + Without(before.owner, k)
            else after.owner == before.owner
       case RemoveFile(k) =>
         && IsEdit(before, Removing(k), ok, after, env)
         && if ok then IsDropped(before, k, after) else after == before
       case StoreBytes(k, data, offset, now) =>
         if k < |before.owner| then IsOperation(before, k, Writing(data, offset), now, ok, after, env)
         else !ok && after == before
       case SetSize(k, size, erase, now) =>
         if k < |before.owner| then IsOperation(before, k, Resizing(size, erase), now, ok, after, env)
         else !ok && after == before
       case FlushFile(k) =>
         && IsEdit(before, Edit.Flushing(k), ok, after, env)
         && after.files == WithRoot(before.files, after.dir) && after.owner == before.owner
  }

  ghost predicate IsDropped(before: VolumeState, k: nat, after: VolumeState) {
    && before.files != [] && k < |before.owner| && before.owner[k] < |before.files| && NoDup(before.owner)
    && after.files == Without(WithRoot(before.files, after.dir), before.owner[k])
    && |after.owner| == |before.owner| - 1
    && forall j | 0 <= j < |after.owner| ::
         var i := Without(before.owner, k)[j]; after.owner[j] == if i > before.owner[k] then i - 1 else i
  }

  datatype VolumeState = VolumeState(dir: DirState, files: seq<FileState>, owner: seq<nat>)
}
