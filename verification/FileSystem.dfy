// All files of a mounted volume together: whatever is written to them, they stay independent byte
// sequences that share a fixed number of clusters.

/** How the clusters in use are divided among the files and the volume's own structures. */
module Ownership {
  import opened Chains

  /** Chains are duplicate-free, pairwise disjoint and disjoint from the system's clusters, and together
      they are exactly the clusters in use. */
  ghost predicate Partition(used: set<nat>, system: set<nat>, chains: seq<seq<nat>>) {
    && (forall i | 0 <= i < |chains| :: NoDup(chains[i]))
    && (forall i, j | 0 <= i < j < |chains| :: Elems(chains[i]) !! Elems(chains[j]))
    && (forall i | 0 <= i < |chains| :: Elems(chains[i]) !! system)
    && (forall c: nat :: c in used <==> c in system || InSome(chains, c))
  }

  ghost predicate InSome(chains: seq<seq<nat>>, c: nat) {
    exists i :: 0 <= i < |chains| && c in Elems(chains[i])
  }

  function TotalLength(chains: seq<seq<nat>>): nat {
    if chains == [] then 0 else TotalLength(chains[..|chains| - 1]) + |chains[|chains| - 1]|
  }

  /** An operation that keeps what other files use, and gives a file only clusters that are no one else's,
      keeps the division intact. */
  lemma PartitionUpdate(used: set<nat>, system: set<nat>, chains: seq<seq<nat>>, i: nat, used1: set<nat>, chain1: seq<nat>)
    requires Partition(used, system, chains) && i < |chains|
    requires used - Elems(chains[i]) == used1 - Elems(chain1) && Elems(chain1) <= used1 && NoDup(chain1)
    ensures Partition(used1, system, chains[i := chain1])
  {
    var chains1 := chains[i := chain1];
    var others := used - Elems(chains[i]);
    forall j | 0 <= j < |chains| && j != i
      ensures Elems(chains[j]) <= others
    {
      forall c | c in Elems(chains[j])
        ensures c in others
      {
        assert InSome(chains, c);
      }
    }
    assert system <= others;
    forall c: nat
      ensures c in used1 <==> c in system || InSome(chains1, c)
    {
      if c in Elems(chain1) {
        assert c in Elems(chains1[i]);
      } else if c in others && c !in system {
        assert InSome(chains, c);
        var j :| 0 <= j < |chains| && c in Elems(chains[j]);
        assert c in Elems(chains1[j]);
      }
    }
  }

  lemma PartitionDropLast(used: set<nat>, system: set<nat>, chains: seq<seq<nat>>)
    requires Partition(used, system, chains) && chains != []
    ensures var last := chains[|chains| - 1];
            Elems(last) <= used && Partition(used - Elems(last), system, chains[..|chains| - 1])
  {
  }

  /** Conservation: every cluster in use is accounted for once. */
  lemma {:induction false} PartitionSize(used: set<nat>, system: set<nat>, chains: seq<seq<nat>>)
    requires Partition(used, system, chains)
    ensures |used| == |system| + TotalLength(chains)
  {
    if chains == [] {
      assert used == system;
    } else {
      var last := chains[|chains| - 1];
      PartitionDropLast(used, system, chains);
      PartitionSize(used - Elems(last), system, chains[..|chains| - 1]);
      ElemsOfNoDup(last);
      assert used == (used - Elems(last)) + Elems(last);
    }
  }

  lemma PartitionAppend(used: set<nat>, system: set<nat>, chains: seq<seq<nat>>)
    requires Partition(used, system, chains)
    ensures Partition(used, system, chains + [[]])
  {
    var more := chains + [[]];
    forall c: nat
      ensures InSome(more, c) <==> InSome(chains, c)
    {
      if InSome(chains, c) {
        var j :| 0 <= j < |chains| && c in Elems(chains[j]);
        assert c in Elems(more[j]);
      }
    }
  }

  lemma PartitionRemove(used: set<nat>, system: set<nat>, chains: seq<seq<nat>>, i: nat, rest: seq<seq<nat>>)
    requires Partition(used, system, chains) && i < |chains| && chains[i] == []
    requires |rest| == |chains| - 1
    requires forall j | 0 <= j < |rest| :: rest[j] == chains[Skip(i, j)]
    ensures Partition(used, system, rest)
  {
    forall j, k | 0 <= j < k < |rest|
      ensures Elems(rest[j]) !! Elems(rest[k])
    {
      assert Skip(i, j) < Skip(i, k);
    }
    forall c: nat
      ensures InSome(rest, c) <==> InSome(chains, c)
    {
      if InSome(chains, c) {
        var j :| 0 <= j < |chains| && c in Elems(chains[j]);
        var k := if j < i then j else j - 1;
        assert Skip(i, k) == j && c in Elems(rest[k]);
      }
      if InSome(rest, c) {
        var j :| 0 <= j < |rest| && c in Elems(rest[j]);
        assert c in Elems(chains[Skip(i, j)]);
      }
    }
  }

  /** The index, before entry i was removed, of the entry that is now at j. */
  function Skip(i: nat, j: nat): nat {
    if j < i then j else j + 1
  }
}

/** The simple picture: a list of byte strings, each rounded up to whole clusters, within a quota. */
module Quota {
  import opened Basics
  import ClusterMaps
  import Chains
  import opened ClusterMath
  import FileBytes
  import opened FileIO
  import Ownership

  datatype FileState = FileState(content: seq<byte>, validSize: nat)

  datatype Operation =
    | Resizing(size: nat, erase: bool)
    | Writing(data: seq<byte>, offset: nat)

  /** Clusters that the files call for. */
  ghost function Demand(cs: nat, files: seq<FileState>): nat
    requires cs > 0
  {
    if files == [] then 0
    else Demand(cs, files[..|files| - 1]) + ClustersFor(cs, |files[|files| - 1].content|)
  }

  /** The file if the operation has all the space it wants. A write that starts beyond the valid bytes of
      the file may fill the gap with anything; no other byte is left open. */
  ghost predicate Performed(before: FileState, op: Operation, after: FileState) {
    match op
    case Resizing(size, erase) =>
      && after.content == FileBytes.Resize(before.content, size)
      && after.validSize == TruncatedValidSize(|before.content|, before.validSize, size, erase)
    case Writing(data, offset) =>
      && after.validSize == WrittenValidSize(|before.content|, before.validSize, offset, data)
      && (if LeavesGap(|before.content|, before.validSize, offset, data)
          then SpliceBeyond(before.content, before.validSize, offset, data, after.content)
          else after.content == Splice(before.content, offset, data))
  }

  ghost predicate SpliceBeyond(content: seq<byte>, validSize: nat, offset: nat, data: seq<byte>, after: seq<byte>) {
    var want := Splice(content, offset, data);
    |after| == |want| && forall i: nat | i < |want| && !(validSize <= i < offset) :: after[i] == want[i]
  }

  /** The file if there is no space for the operation: untouched, or extended with zeros to the offset. */
  ghost function Refused(cs: nat, quota: int, files: seq<FileState>, i: nat, op: Operation): FileState
    requires cs > 0 && i < |files|
  {
    var f := files[i];
    match op
    case Resizing(_, _) => f
    case Writing(_, offset) =>
      if offset > |f.content| && Demand(cs, files) - ClustersFor(cs, |f.content|) + ClustersFor(cs, offset) <= quota
      then FileState(FileBytes.Resize(f.content, offset), offset) else f
  }

  function SizeWanted(size: nat, op: Operation): nat {
    match op
    case Resizing(newSize, _) => newSize
    case Writing(data, offset) => Max(size, offset + |data|)
  }

  /** One operation on file i of the list. It succeeds exactly when its demand fits in the quota. */
  ghost predicate Step(cs: nat, quota: int, files: seq<FileState>, i: nat, op: Operation, ok: bool, files1: seq<FileState>)
    requires cs > 0 && i < |files|
  {
    var size := |files[i].content|;
    && |files1| == |files| && files1 == files[i := files1[i]]
    && (ok <==> Demand(cs, files) - ClustersFor(cs, size) + ClustersFor(cs, SizeWanted(size, op)) <= quota)
    && (ok ==> Performed(files[i], op, files1[i]))
    && (!ok ==> files1[i] == Refused(cs, quota, files, i, op))
  }

  datatype Command =
    | On(file: nat, op: Operation)
    | Create
    | Remove(file: nat)
    | Flushing

  /** The effect of a command on the list of files; a command for a file that is not there does nothing. */
  ghost predicate CommandStep(cs: nat, quota: int, files: seq<FileState>, command: Command, ok: bool, files1: seq<FileState>)
    requires cs > 0
  {
    match command
    case On(i, op) => if i < |files| then Step(cs, quota, files, i, op, ok, files1) else !ok && files1 == files
    case Create => ok && files1 == files + [FileState([], 0)]
    case Remove(i) => if i < |files| then ok && files1 == files[..i] + files[i + 1..] else !ok && files1 == files
    case Flushing => ok && files1 == files
  }

  /** The k-th command of a run takes the k-th state to the next. */
  ghost predicate StepAt(cs: nat, quota: int, trace: seq<seq<FileState>>, commands: seq<Command>, results: seq<bool>, k: nat) {
    && cs > 0 && k < |commands| && k < |results| && k + 1 < |trace|
    && CommandStep(cs, quota, trace[k], commands[k], results[k], trace[k + 1])
  }

  /** Sizes stay below 2^32 clusters. */
  ghost predicate Bounded(cs: nat, command: Command) {
    match command
    case On(_, Resizing(size, _)) => size <= ClusterStart(cs, 0xFFFF_FFFF)
    case On(_, Writing(data, offset)) => offset + |data| <= ClusterStart(cs, 0xFFFF_FFFF)
    case _ => true
  }

  lemma {:induction false} DemandIsLength(cs: nat, files: seq<FileState>, chains: seq<seq<nat>>)
    requires cs > 0 && |files| == |chains|
    requires forall i | 0 <= i < |files| :: |chains[i]| == ClustersFor(cs, |files[i].content|)
    ensures Demand(cs, files) == Ownership.TotalLength(chains)
  {
    if files != [] {
      DemandIsLength(cs, files[..|files| - 1], chains[..|chains| - 1]);
    }
  }

  /** What one file may grow to is what the quota leaves when the other files' demand is met. */
  lemma CapacityIsQuota(cs: nat, count: nat, used: set<nat>, system: set<nat>, chains: seq<seq<nat>>,
                        files: seq<FileState>, i: nat)
    requires Ownership.Partition(used, system, chains) && used <= ClusterMaps.AllClusters(count) && cs > 0
    requires |files| == |chains| && i < |chains|
    requires forall j | 0 <= j < |files| :: |chains[j]| == ClustersFor(cs, |files[j].content|)
    ensures |system| <= count && Demand(cs, files) <= count - |system|
    ensures Chains.Capacity(count, used, chains[i]) == count - |system| - (Demand(cs, files) - ClustersFor(cs, |files[i].content|))
  {
    hide ClustersFor;
    assert Chains.Elems(chains[i]) <= used by {
      forall c | c in Chains.Elems(chains[i])
        ensures c in used
      {
        assert Ownership.InSome(chains, c);
      }
    }
    Chains.CapacityIsChainAndFree(count, used, chains[i]);
    Ownership.PartitionSize(used, system, chains);
    DemandIsLength(cs, files, chains);
    Chains.CountClusters(count);
    assert |ClusterMaps.AllClusters(count)| == |used| + |ClusterMaps.AllClusters(count) - used| by {
      assert ClusterMaps.AllClusters(count) == used + (ClusterMaps.AllClusters(count) - used);
    }
  }

  /** exfat_generic_pwrite's outcome is a performed write, in the sense above. */
  lemma WriteIsPerformed(cs: nat, heap: seq<seq<byte>>, chain: seq<nat>, before: FileState, offset: nat, data: seq<byte>,
                         after: FileState)
    requires FileBytes.Holds(cs, heap, chain, |before.content|, before.validSize, before.content)
    requires after.content == PwriteContent(cs, heap, chain, before.validSize, before.content, offset, data)
    requires after.validSize == WrittenValidSize(|before.content|, before.validSize, offset, data)
    ensures Performed(before, Writing(data, offset), after)
  {
    hide Splice, PwriteContent;
    if LeavesGap(|before.content|, before.validSize, offset, data) {
      PwriteOutsideGap(cs, heap, chain, before.validSize, before.content, offset, data);
    } else {
      PwriteSplices(cs, heap, chain, before.validSize, before.content, offset, data);
    }
  }
}

module FileSystems {
  import opened Basics
  import Words
  import opened Bitmap
  import opened ClusterMaps
  import opened Chains
  import opened ClusterMath
  import opened FileBytes
  import opened Volumes
  import opened FileIO
  import opened Ownership
  import opened Quota
  import opened DeviceMap

  class FileSystem {
    const vol: Volume
    var nodes: seq<Node>
    ghost const system: set<nat>  // clusters of the bitmap and the upcase table

    /** Takes over a mounted volume. */
    constructor (vol: Volume, nodes: seq<Node>, ghost system: set<nat>, ghost chains: seq<seq<nat>>)
      requires vol.Valid() && (forall i | 0 <= i < |nodes| :: IsFile(vol, nodes[i]))
      requires forall i, j | 0 <= i < j < |nodes| :: nodes[i] != nodes[j]
      requires |chains| == |nodes| && forall i | 0 <= i < |nodes| :: chains[i] == nodes[i].chain
      requires Partition(vol.cmap.used, system, chains) && DataCluster(vol.clusterCount, vol.cmap.start)
      requires Extent(vol.clusterSize, vol.cmap.start, WORD_BYTES * vol.cmap.chunk.Length) <= system
      requires |vol.cmap.onDisk| == vol.cmap.chunk.Length
      requires OnDevice(vol.clusterSize, vol.heap, vol.cmap.start, vol.cmap.onDisk)
      ensures Valid() && this.vol == vol && this.nodes == nodes && this.system == system
    {
      this.vol, this.nodes, this.system := vol, nodes, system;
      new;
      assert Chains() == chains;
    }

    ghost function Chains(): (chains: seq<seq<nat>>)
      reads this, nodes
      ensures |chains| == |nodes| && forall i | 0 <= i < |nodes| :: chains[i] == nodes[i].chain
    {
      seq(|nodes|, i requires 0 <= i < |nodes| reads this, nodes => nodes[i].chain)
    }

    ghost function State(): (files: seq<FileState>)
      reads this, nodes
      ensures |files| == |nodes|
      ensures forall i | 0 <= i < |nodes| :: files[i] == FileState(nodes[i].content, nodes[i].validSize)
    {
      seq(|nodes|, i requires 0 <= i < |nodes| reads this, nodes => FileState(nodes[i].content, nodes[i].validSize))
    }

    /** The clusters that hold the bitmap. */
    ghost function MapClusters(): set<nat>
      reads vol
      requires vol.clusterSize > 0
    {
      Extent(vol.clusterSize, vol.cmap.start, WORD_BYTES * vol.cmap.chunk.Length)
    }

    /** The bitmap lies in clusters of the system, and is on the device as it was read or last written. */
    ghost predicate MapInOrder()
      reads vol, vol.cmap
    {
      && vol.clusterSize > 0 && DataCluster(vol.clusterCount, vol.cmap.start) && MapClusters() <= system
      && |vol.cmap.onDisk| == vol.cmap.chunk.Length
      && OnDevice(vol.clusterSize, vol.heap, vol.cmap.start, vol.cmap.onDisk)
    }

    ghost predicate Valid()
      reads this, vol, vol.cmap, vol.cmap.chunk, nodes
    {
      && vol.Valid() && MapInOrder() && Partition(vol.cmap.used, system, Chains())
      && (forall i, j | 0 <= i < j < |nodes| :: nodes[i] != nodes[j])
      && (forall i | 0 <= i < |nodes| :: IsFile(vol, nodes[i]))
    }

    ghost function TheQuota(): int {
      vol.clusterCount - |system|
    }

    /** The capacity of one file, seen from the allocator and seen from the quota. */
    lemma CapacityOf(i: nat)
      requires Valid() && i < |nodes|
      ensures var files, cs := State(), vol.clusterSize;
              && cs > 0 && nodes[i].size == |nodes[i].content| && 0 <= TheQuota()
              && Demand(cs, files) <= TheQuota()
              && Capacity(vol.clusterCount, vol.cmap.used, nodes[i].chain)
                 == TheQuota() - (Demand(cs, files) - ClustersFor(cs, |files[i].content|))
    {
      hide ClustersFor, Demand, Capacity, Spelled, Terminated, Node.Linked, ByteAt;
      CapacityIsQuota(vol.clusterSize, vol.clusterCount, vol.cmap.used, system, Chains(), State(), i);
    }

    lemma DistinctNodes()
      requires Valid()
      ensures forall i, j | 0 <= i < j < |nodes| :: nodes[i] != nodes[j]
    {
    }

    /** A file has clusters exactly if it has bytes, and begins at the first of them. */
    lemma StartOfFile(i: nat)
      requires Valid() && i < |nodes|
      ensures nodes[i].chain == [] <==> State()[i].content == []
      ensures nodes[i].chain != [] ==> nodes[i].startCluster == nodes[i].chain[0]
    {
      hide ClustersFor, ClusterStart, Spelled, Terminated, FileBytes.ByteAt, Partition, OnDevice, Extent, Get;
      SizeCovers(vol.clusterSize, |nodes[i].content|, 0);
    }

    /** No file is larger than the heap, with room for so many more clusters. */
    lemma FileIsInHeap(i: nat, more: nat)
      requires Valid() && i < |nodes| && more <= 8
      ensures ClusterStart(vol.clusterSize, |nodes[i].chain| + more) <= ClusterStart(vol.clusterSize, 0xFFFF_FFFF)
      ensures |State()[i].content| <= ClusterStart(vol.clusterSize, |nodes[i].chain|)
      ensures |nodes[i].chain| == ClustersFor(vol.clusterSize, |State()[i].content|)
    {
      hide ClustersFor, ClusterStart, Spelled, Terminated, FileBytes.ByteAt, Partition, OnDevice, Extent, Get;
      CapacityIsChainAndFree(vol.clusterCount, vol.cmap.used, nodes[i].chain);
      SizeCovers(vol.clusterSize, |nodes[i].content|, 0);
      StartOrder(vol.clusterSize, |nodes[i].chain| + more, 0xFFFF_FFFF);
    }

    /** After an operation on file i that left the others alone, every file is still in order. */
    twostate lemma OthersKept(i: nat)
      requires old(Valid()) && nodes == old(nodes) && i < |nodes|
      requires vol.Valid() && IsFile(vol, nodes[i]) && vol.cmap.onDisk == old(vol.cmap.onDisk)
      requires forall j | 0 <= j < |nodes| && j != i :: unchanged(nodes[j])
      requires OthersIntact(old(vol.cmap.used), old(vol.fat), old(vol.heap), old(nodes[i].chain),
                            vol.cmap.used, vol.fat, vol.heap, nodes[i].chain)
      ensures Valid() && State() == old(State())[i := State()[i]]
    {
      hide ClustersFor, Spelled, Terminated, Holds, SameFat, SameRows, Represents;
      ghost var others := old(vol.cmap.used) - old(Elems(nodes[i].chain));
      PartitionUpdate(old(vol.cmap.used), system, old(Chains()), i, vol.cmap.used, nodes[i].chain);
      assert Chains() == old(Chains())[i := nodes[i].chain];
      SystemApart(old(vol.cmap.used), system, old(Chains()), i);
      OnDeviceKept(vol.clusterSize, old(vol.heap), vol.heap, vol.cmap.start, vol.cmap.onDisk, others);
      forall j | 0 <= j < |nodes| && j != i
        ensures IsFile(vol, nodes[j])
      {
        var m := nodes[j];
        DisjointFrom(old(vol.cmap.used), system, old(Chains()), i, j);
        StillFile(vol.clusterCount, vol.clusterSize, old(vol.fat), vol.fat, old(vol.heap), vol.heap, others,
                  m.chain, m.isContiguous, m.size, m.validSize, m.content);
      }
      assert State() == old(State())[i := State()[i]];
    }

    /** exfat_truncate on one of the files. */
    method Truncate(i: nat, size: nat, erase: bool) returns (ok: bool)
      requires Valid() && i < |nodes| && size <= ClusterStart(vol.clusterSize, 0xFFFF_FFFF)
      modifies vol, vol.cmap`used, vol.cmap`dirty, vol.cmap.chunk, nodes[i]
      ensures Valid()
      ensures Step(vol.clusterSize, TheQuota(), old(State()), i, Resizing(size, erase), ok, State())
      ensures StaysAnchored(old(nodes[i].chain), old(nodes[i].isContiguous), nodes[i].chain, nodes[i].isContiguous)
    {
      hide ClustersFor, ClusterStart, Demand, Capacity, IsFile, OthersIntact, Partition;
      CapacityOf(i);
      var status := FileIO.Truncate(vol, nodes[i], size, erase);
      OthersKept(i);
      ok := status == Ok;
    }

    /** exfat_generic_pwrite on one of the files. */
    method Write(i: nat, data: seq<byte>, offset: nat) returns (ok: bool)
      requires Valid() && i < |nodes| && offset + |data| <= ClusterStart(vol.clusterSize, 0xFFFF_FFFF)
      modifies vol, vol.cmap`used, vol.cmap`dirty, vol.cmap.chunk, nodes[i]
      ensures Valid()
      ensures Step(vol.clusterSize, TheQuota(), old(State()), i, Writing(data, offset), ok, State())
      ensures StaysAnchored(old(nodes[i].chain), old(nodes[i].isContiguous), nodes[i].chain, nodes[i].isContiguous)
    {
      hide ClustersFor, ClusterStart, Demand, Capacity, OthersIntact, Partition, Volume.Chained, Terminated, Holds,
           PwriteContent, Splice;
      CapacityOf(i);
      var n := nodes[i];
      ghost var before := State()[i];
      var r := Pwrite(vol, n, data, offset);
      OthersKept(i);
      ok := r >= 0;
      if ok {
        WriteIsPerformed(vol.clusterSize, old(vol.heap), old(n.chain), before, offset, data, State()[i]);
      }
    }

    /** exfat_generic_pread on one of the files. */
    method Read(i: nat, buffer: array<byte>, size: nat, offset: nat) returns (r: nat)
      requires Valid() && i < |nodes| && size <= buffer.Length
      modifies nodes[i], buffer
      ensures Valid() && State() == old(State())
      ensures nodes[i].startCluster == old(nodes[i].startCluster) && nodes[i].isContiguous == old(nodes[i].isContiguous)
      ensures nodes[i].chain == old(nodes[i].chain) && nodes[i].size == old(nodes[i].size)
      ensures var content := State()[i].content;
              r == ReadCount(|content|, size, offset) && buffer[..r] == if r == 0 then [] else content[offset..offset + r]
    {
      hide ClustersFor, ClusterStart, Capacity, Partition, Volume.Chained, Terminated;
      r := Pread(vol, nodes[i], buffer, size, offset);
      assert State() == old(State());
      assert Chains() == old(Chains());
    }

    /** The clusters in use, as far as bitmap on the device tells. */
    ghost predicate MapTells(used: set<nat>)
      reads vol, vol.cmap
    {
      && vol.clusterSize > 0
      && forall i: nat | i < vol.clusterCount ::
           DeviceBit(vol.clusterSize, vol.heap, vol.cmap.start, i) <==> i + FIRST_DATA_CLUSTER in used
    }

    /** exfat_flush: the bitmap on the device comes to tell which clusters are in use, and no file changes. Nothing
        is written outside the bitmap's own clusters. */
    method Flush()
      requires Valid()
      modifies vol`heap, vol.cmap`dirty, vol.cmap`onDisk
      ensures Valid() && State() == old(State()) && !vol.cmap.dirty && MapTells(vol.cmap.used)
      ensures SameRows(old(vol.heap), vol.heap, AllClusters(vol.clusterCount) - MapClusters())
    {
      hide Partition, IsFile, OnDevice, Get, DeviceWrite, Extent;
      var cmap := vol.cmap;
      MapWritten(vol.clusterSize, vol.heap, cmap.start, cmap.chunk[..], system, vol.cmap.used, Chains());
      if cmap.dirty {
        vol.heap := DeviceWrite(vol.clusterSize, vol.heap, cmap.start, BytesOf(cmap.chunk[..]));
        cmap.onDisk := cmap.chunk[..];
        cmap.dirty := false;
      }
      MapIsRead(vol.clusterSize, vol.heap, cmap.start, vol.clusterCount, cmap.chunk[..], vol.cmap.used);
      FilesKept();
    }

    /** The bitmap was written, and no file's clusters with it. */
    twostate lemma FilesKept()
      requires old(Valid()) && vol.Valid() && MapInOrder() && vol.cmap.used == old(vol.cmap.used)
               && vol.fat == old(vol.fat)
      requires nodes == old(nodes) && forall j | 0 <= j < |nodes| :: unchanged(nodes[j])
      requires SameRows(old(vol.heap), vol.heap, AllClusters(vol.clusterCount) - MapClusters())
      ensures Valid() && State() == old(State())
    {
      hide ClustersFor, Spelled, Terminated, Holds, SameFat, SameRows, Get, OnDevice, Extent;
      assert Chains() == old(Chains()) && State() == old(State());
      forall j | 0 <= j < |nodes|
        ensures IsFile(vol, nodes[j])
      {
        var m := nodes[j];
        SystemApart(vol.cmap.used, system, Chains(), j);
        SameFatAlways(vol.fat, Elems(m.chain));
        SameRowsOfLess(old(vol.heap), vol.heap, AllClusters(vol.clusterCount) - MapClusters(), Elems(m.chain));
        StillFile(vol.clusterCount, vol.clusterSize, vol.fat, vol.fat, old(vol.heap), vol.heap, Elems(m.chain),
                  m.chain, m.isContiguous, m.size, m.validSize, m.content);
      }
    }

    /** exfat_mknod, as far as clusters are concerned: a new file is empty. */
    method CreateFile()
      requires Valid()
      modifies this`nodes
      ensures Valid() && State() == old(State()) + [FileState([], 0)]
      ensures |nodes| == |old(nodes)| + 1 && nodes[..|old(nodes)|] == old(nodes)
      ensures var n := nodes[|old(nodes)|];
        fresh(n) && n.startCluster == CLUSTER_FREE && !n.isContiguous && n.size == 0 && n.validSize == 0
    {
      hide Partition, Represents;
      var n := new Node();
      PartitionAppend(vol.cmap.used, system, Chains());
      NewNodeIsFile(n);
      hide IsFile;
      ghost var chains, files := Chains(), State();
      nodes := nodes + [n];
      assert Chains() == chains + [[]];
      assert State() == files + [FileState([], 0)];
    }

    lemma NewNodeIsFile(n: Node)
      requires Valid() && n.startCluster == CLUSTER_FREE && n.fptrIndex == 0 && !n.isContiguous
      requires n.size == 0 && n.validSize == 0 && n.chain == [] && n.content == []
      ensures IsFile(vol, n)
    {
    }

    lemma NeedsNothing(i: nat)
      requires Valid() && i < |nodes|
      ensures ClustersFor(vol.clusterSize, 0) == 0
      ensures nodes[i].content == [] ==> nodes[i].chain == []
    {
    }

    /** exfat_cleanup_node of an unlinked file: its clusters are given back and the node goes. */
    method RemoveFile(i: nat)
      requires Valid() && i < |nodes|
      modifies this`nodes, vol, vol.cmap`used, vol.cmap`dirty, vol.cmap.chunk, nodes[i]
      ensures Valid() && State() == old(State())[..i] + old(State())[i + 1..]
      ensures nodes == old(nodes)[..i] + old(nodes)[i + 1..]
    {
      hide ClustersFor, ClusterStart, Demand, Capacity, IsFile, Partition, Volume.Valid;
      CapacityOf(i);
      NeedsNothing(i);
      var ok := Truncate(i, 0, true);
      NeedsNothing(i);
      Forget(i);
    }

    /** A node without clusters leaves the list. */
    method Forget(i: nat)
      requires Valid() && i < |nodes| && nodes[i].chain == []
      modifies this`nodes
      ensures Valid() && State() == old(State())[..i] + old(State())[i + 1..]
      ensures nodes == old(nodes)[..i] + old(nodes)[i + 1..]
    {
      hide ClustersFor, ClusterStart, Demand, Capacity, IsFile, Partition, Volume.Valid;
      ghost var chains, files := Chains(), State();
      nodes := nodes[..i] + nodes[i + 1..];
      PartitionRemove(vol.cmap.used, system, chains, i, Chains());
      assert State() == files[..i] + files[i + 1..];
    }

    method Perform(command: Command) returns (ok: bool)
      requires Valid() && Bounded(vol.clusterSize, command)
      modifies this`nodes, vol, vol.cmap, vol.cmap.chunk, nodes
      ensures Valid() && CommandStep(vol.clusterSize, TheQuota(), old(State()), command, ok, State())
      ensures forall j | 0 <= j < |nodes| :: nodes[j] in old(nodes) || fresh(nodes[j])
    {
      hide ClusterStart, ClustersFor, Partition, IsFile, Represents, Step;
      ok := false;
      match command {
        case On(i, Resizing(size, erase)) =>
          if i < |nodes| { ok := Truncate(i, size, erase); }
        case On(i, Writing(data, offset)) =>
          if i < |nodes| { ok := Write(i, data, offset); }
        case Create =>
          CreateFile();
          ok := true;
        case Remove(i) =>
          if i < |nodes| {
            RemoveFile(i);
            ok := true;
          }
        case Flushing =>
          Flush();
          ok := true;
      }
    }

    /** Every run: whatever commands are given, each takes the list of files from one state to the next as
        the simple picture says, and the volume is in order throughout. */
    method Run(commands: seq<Command>) returns (results: seq<bool>, ghost trace: seq<seq<FileState>>)
      requires Valid() && forall k | 0 <= k < |commands| :: Bounded(vol.clusterSize, commands[k])
      modifies this`nodes, vol, vol.cmap, vol.cmap.chunk, nodes
      ensures Valid()
      ensures |results| == |commands| && |trace| == |commands| + 1
      ensures trace[0] == old(State()) && trace[|commands|] == State()
      ensures forall k: nat | k < |commands| :: StepAt(vol.clusterSize, TheQuota(), trace, commands, results, k)
    {
      hide ClusterStart, ClustersFor, Partition, IsFile, CommandStep, Bounded, StepAt;
      results, trace := [], [State()];
      for i := 0 to |commands|
        invariant Valid() && |results| == i && |trace| == i + 1
        invariant forall j | 0 <= j < |nodes| :: nodes[j] in old(nodes) || fresh(nodes[j])
        invariant trace[0] == old(State()) && trace[i] == State()
        invariant forall k: nat | k < i :: StepAt(vol.clusterSize, TheQuota(), trace, commands, results, k)
      {
        ghost var trace0, results0 := trace, results;
        var ok := Perform(commands[i]);
        results, trace := results + [ok], trace + [State()];
        StepsSoFar(vol.clusterSize, TheQuota(), trace0, trace, commands, results0, results, i);
      }
    }
  }

  lemma StepsSoFar(cs: nat, quota: int, trace0: seq<seq<FileState>>, trace: seq<seq<FileState>>, commands: seq<Command>,
                   results0: seq<bool>, results: seq<bool>, i: nat)
    requires trace0 <= trace && |trace0| == i + 1 && |trace| == i + 2
    requires results0 <= results && |results0| == i && |results| == i + 1 && i < |commands|
    requires forall k: nat | k < i :: StepAt(cs, quota, trace0, commands, results0, k)
    requires cs > 0 && CommandStep(cs, quota, trace[i], commands[i], results[i], trace[i + 1])
    ensures forall k: nat | k < i + 1 :: StepAt(cs, quota, trace, commands, results, k)
  {
    hide CommandStep;
    forall k: nat | k < i + 1
      ensures StepAt(cs, quota, trace, commands, results, k)
    {
      if k < i {
        assert StepAt(cs, quota, trace0, commands, results0, k);
      }
    }
  }

  lemma SameFatAlways(fat: seq<u32>, clusters: set<nat>)
    ensures SameFat(fat, fat, clusters)
  {
  }

  lemma SameRowsOfLess(before: seq<seq<byte>>, after: seq<seq<byte>>, clusters: set<nat>, less: set<nat>)
    requires SameRows(before, after, clusters) && less <= clusters
    ensures SameRows(before, after, less)
  {
  }

  /** Words written to the bitmap's clusters are there, and nothing else changes. */
  lemma MapWritten(cs: nat, heap: seq<seq<byte>>, start: nat, words: seq<Words.Word>, system: set<nat>, used: set<nat>,
                   chains: seq<seq<nat>>)
    requires cs > 0 && (forall i | 0 <= i < |heap| :: |heap[i]| == cs) && DataCluster(|heap|, start)
    requires Partition(used, system, chains) && used <= AllClusters(|heap|)
    requires Extent(cs, start, WORD_BYTES * |words|) <= system
    ensures var after := DeviceWrite(cs, heap, start, BytesOf(words));
      && OnDevice(cs, after, start, words)
      && SameRows(heap, after, AllClusters(|heap|) - Extent(cs, start, WORD_BYTES * |words|))
  {
    hide ClustersFor, DeviceWrite, OnDevice, Extent;
    ExtentIsInside(cs, start, WORD_BYTES * |words|, |heap|);
    WrittenMap(cs, heap, start, words);
    forall c | c in AllClusters(|heap|) - Extent(cs, start, WORD_BYTES * |words|)
      ensures DeviceWrite(cs, heap, start, BytesOf(words))[c - FIRST_DATA_CLUSTER] == heap[c - FIRST_DATA_CLUSTER]
    {
      WriteStaysInside(cs, heap, start, BytesOf(words), c);
    }
  }

  /** The bits of the bitmap tell which clusters are in use. */
  lemma MapIsRead(cs: nat, heap: seq<seq<byte>>, start: nat, size: nat, words: seq<Words.Word>, used: set<nat>)
    requires cs > 0 && Represents(size, words, used)
    ensures OnDevice(cs, heap, start, words)
        ==> forall i: nat | i < size :: DeviceBit(cs, heap, start, i) <==> i + FIRST_DATA_CLUSTER in used
  {
    hide Get, DeviceBit;
  }

  lemma SystemApart(used: set<nat>, system: set<nat>, chains: seq<seq<nat>>, i: nat)
    requires Partition(used, system, chains) && i < |chains|
    ensures system <= used - Elems(chains[i]) && Elems(chains[i]) <= used - system
  {
  }

  lemma DisjointFrom(used: set<nat>, system: set<nat>, chains: seq<seq<nat>>, i: nat, j: nat)
    requires Partition(used, system, chains) && i < |chains| && j < |chains| && i != j
    ensures Elems(chains[j]) <= used - Elems(chains[i])
  {
  }

  /** A file whose clusters, FAT entries and bytes were left alone by an operation on another file. */
  lemma StillFile(count: nat, cs: nat, fat0: seq<u32>, fat1: seq<u32>, heap0: seq<seq<byte>>, heap1: seq<seq<byte>>,
                  others: set<nat>, chain: seq<nat>, contiguous: bool, size: nat, validSize: nat, content: seq<byte>)
    requires Spelled(count, fat0, chain, contiguous) && Terminated(fat0, chain, contiguous)
    requires Holds(cs, heap0, chain, size, validSize, content)
    requires Elems(chain) <= others && SameFat(fat0, fat1, others) && SameRows(heap0, heap1, others)
    ensures Spelled(count, fat1, chain, contiguous) && Terminated(fat1, chain, contiguous)
    ensures Holds(cs, heap1, chain, size, validSize, content)
  {
  }
}
