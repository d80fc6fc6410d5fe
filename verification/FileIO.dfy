// Files as byte sequences: erase_range and exfat_truncate of cluster.c, exfat_generic_pread and
// exfat_generic_pwrite of io.c.

/** The bytes of a file, as a view of the cluster heap through the file's chain. */
module FileBytes {
  import opened Basics
  import opened Bitmap
  import ClusterMaps
  import Chains
  import opened ClusterMath

  /** Byte j of the clusters of a chain, valid data or not. */
  function ByteAt(cs: nat, heap: seq<seq<byte>>, chain: seq<nat>, j: nat): byte
    requires cs > 0
  {
    var k := ClusterIndex(cs, j);
    if k < |chain| && ClusterMaps.DataCluster(|heap|, chain[k]) && ClusterOffset(cs, j) < |heap[chain[k] - FIRST_DATA_CLUSTER]|
    then heap[chain[k] - FIRST_DATA_CLUSTER][ClusterOffset(cs, j)] else 0
  }

  /** The content that a file of this size and valid size shows to its readers. */
  ghost predicate Holds(cs: nat, heap: seq<seq<byte>>, chain: seq<nat>, size: nat, validSize: nat, content: seq<byte>) {
    && cs > 0 && validSize <= size == |content| && |chain| == ClustersFor(cs, size)
    && forall i: nat | i < size :: content[i] == if i < validSize then ByteAt(cs, heap, chain, i) else 0
  }

  function Zeros(n: nat): (z: seq<byte>)
    ensures |z| == n && forall i | 0 <= i < n :: z[i] == 0
  {
    seq(n, _ => 0)
  }

  /** Cut to the new size, or padded with zeros up to it. */
  function Resize(s: seq<byte>, size: nat): seq<byte> {
    if size <= |s| then s[..size] else s + Zeros(size - |s|)
  }

  function Patch<T>(s: seq<T>, at: nat, data: seq<T>): seq<T>
    requires at + |data| <= |s|
  {
    s[..at] + data + s[at + |data|..]
  }

  lemma PatchedBytes<T>(s: seq<T>, at: nat, data: seq<T>)
    requires at + |data| <= |s|
    ensures |Patch(s, at, data)| == |s|
    ensures forall i | 0 <= i < |s| :: Patch(s, at, data)[i] == if at <= i < at + |data| then data[i - at] else s[i]
  {
  }

  /** The two heaps agree on every cluster of the set. */
  ghost predicate SameRows(before: seq<seq<byte>>, after: seq<seq<byte>>, clusters: set<nat>) {
    && |after| == |before|
    && forall c | c in clusters && ClusterMaps.DataCluster(|before|, c) ::
         after[c - FIRST_DATA_CLUSTER] == before[c - FIRST_DATA_CLUSTER]
  }

  /** The bytes [from, to) of the chain were overwritten, data[0] landing on `from`; no other byte of it changed. */
  ghost predicate Overwritten(cs: nat, before: seq<seq<byte>>, after: seq<seq<byte>>, chain: seq<nat>,
                              from: nat, data: seq<byte>)
    requires cs > 0
  {
    forall j: nat | ClusterIndex(cs, j) < |chain| ::
      ByteAt(cs, after, chain, j) == if from <= j < from + |data| then data[j - from] else ByteAt(cs, before, chain, j)
  }

  /** Writing into one cluster of a chain overwrites the corresponding bytes of the file. */
  lemma WriteCluster(cs: nat, before: seq<seq<byte>>, after: seq<seq<byte>>, chain: seq<nat>,
                     k: nat, at: nat, data: seq<byte>)
    requires cs > 0 && Chains.NoDup(chain) && k < |chain| && at + |data| <= cs
    requires forall i | 0 <= i < |chain| :: ClusterMaps.DataCluster(|before|, chain[i])
    requires forall i | 0 <= i < |before| :: |before[i]| == cs
    requires ClusterMaps.DataCluster(|before|, chain[k])
    requires var row := chain[k] - FIRST_DATA_CLUSTER; after == before[row := Patch(before[row], at, data)]
    ensures Overwritten(cs, before, after, chain, ClusterStart(cs, k) + at, data)
  {
    hide ClusterIndex, ClusterOffset, ClusterStart, ClustersFor;
    forall j: nat | ClusterIndex(cs, j) < |chain|
      ensures ByteAt(cs, after, chain, j) ==
              if ClusterStart(cs, k) + at <= j < ClusterStart(cs, k) + at + |data|
              then data[j - (ClusterStart(cs, k) + at)] else ByteAt(cs, before, chain, j)
    {
      InCluster(cs, j, k);
    }
  }

  ghost predicate OnlyRowsOf(before: seq<seq<byte>>, after: seq<seq<byte>>, chain: seq<nat>) {
    && |after| == |before|
    && forall c: nat | ClusterMaps.DataCluster(|before|, c) && c !in chain ::
         after[c - FIRST_DATA_CLUSTER] == before[c - FIRST_DATA_CLUSTER]
  }

  lemma MoreZeros(cs: nat, h0: seq<seq<byte>>, h1: seq<seq<byte>>, h2: seq<seq<byte>>, chain: seq<nat>,
                  from: nat, done: nat, more: nat)
    requires cs > 0 && from <= done
    requires Overwritten(cs, h0, h1, chain, from, Zeros(done - from)) && Overwritten(cs, h1, h2, chain, done, Zeros(more))
    ensures Overwritten(cs, h0, h2, chain, from, Zeros(done + more - from))
  {
  }

  /** The first cluster boundary after a byte: (begin | (cluster size - 1)) + 1 for a power of two. */
  function ClusterBoundary(cs: nat, begin: nat): nat
    requires cs > 0
  {
    ClusterStart(cs, ClusterIndex(cs, begin) + 1)
  }

  /** How far erase_range really erases: up to `end`, and to the end of the last cluster it starts afresh. */
  function ErasedEnd(cs: nat, begin: nat, end: nat): (r: nat)
    requires cs > 0
    ensures begin <= r && (begin < end ==> end <= r)
  {
    SizeCovers(cs, end, 0);
    if begin >= end then begin
    else if end <= ClusterBoundary(cs, begin) then end
    else ClusterStart(cs, ClustersFor(cs, end))
  }
}

module FileIO {
  import opened Basics
  import opened Bitmap
  import opened ClusterMaps
  import opened Chains
  import opened ClusterMath
  import opened FileBytes
  import opened Volumes

  /** exfat_pwrite to part of one cluster of the heap. */
  method WriteHeap(ef: Volume, cluster: nat, at: nat, data: seq<byte>)
    requires ef.Valid() && DataCluster(ef.clusterCount, cluster) && at + |data| <= ef.clusterSize
    modifies ef`heap
    ensures ef.Valid()
    ensures var row := cluster - FIRST_DATA_CLUSTER; ef.heap == old(ef.heap)[row := Patch(old(ef.heap)[row], at, data)]
  {
    var row := cluster - FIRST_DATA_CLUSTER;
    ef.heap := ef.heap[row := Patch(ef.heap[row], at, data)];
  }

  /** One step of a chunk loop: overwrite part of the k-th cluster of a file. */
  method WriteChunk(ef: Volume, ghost n: Node, ghost k: nat, cluster: nat, at: nat, data: seq<byte>)
    requires ef.Valid() && ef.Chained(n)
    requires k < |n.chain| && cluster == n.chain[k] && at + |data| <= ef.clusterSize
    modifies ef`heap
    ensures ef.Valid() && ef.Chained(n) && OnlyRowsOf(old(ef.heap), ef.heap, n.chain)
    ensures Overwritten(ef.clusterSize, old(ef.heap), ef.heap, n.chain, ClusterStart(ef.clusterSize, k) + at, data)
  {
    hide ClusterIndex, ClusterOffset, ClusterStart, ClustersFor;
    WriteHeap(ef, cluster, at, data);
    WriteCluster(ef.clusterSize, old(ef.heap), ef.heap, n.chain, k, at, data);
  }

  /** The body of erase_range's loop: step to the next cluster and clear all of it. */
  method EraseNextCluster(ef: Volume, n: Node, ghost k: nat, cluster: nat) returns (next: nat)
    requires ef.Valid() && ef.Chained(n) && k + 1 < |n.chain| && cluster == n.chain[k]
    modifies ef`heap
    ensures ef.Valid() && ef.Chained(n) && next == n.chain[k + 1]
    ensures OnlyRowsOf(old(ef.heap), ef.heap, n.chain)
    ensures Overwritten(ef.clusterSize, old(ef.heap), ef.heap, n.chain,
                        ClusterStart(ef.clusterSize, k + 1), Zeros(ef.clusterSize))
  {
    hide ClusterIndex, ClusterOffset, ClusterStart, ClustersFor;
    next := ef.NextCluster(n, cluster, n.chain, k);
    assert next == n.chain[k + 1];
    if !DataCluster(ef.clusterCount, next) {
      assert false;
    }
    WriteChunk(ef, n, k + 1, next, 0, Zeros(ef.clusterSize));
  }

  /** The first write of erase_range: up to the end of the range or of the cluster it begins in. */
  method EraseFirstCluster(ef: Volume, n: Node, begin: nat, end: nat, boundary: nat) returns (cluster: nat)
    requires ef.Valid() && ef.Chained(n)
    requires begin < end && ClusterIndex(ef.clusterSize, begin) < |n.chain|
    requires boundary == ClusterStart(ef.clusterSize, ClusterIndex(ef.clusterSize, begin) + 1)
    modifies ef`heap, n`fptrIndex, n`fptrCluster
    ensures ef.Valid() && ef.Chained(n) && cluster == n.chain[ClusterIndex(ef.clusterSize, begin)]
    ensures OnlyRowsOf(old(ef.heap), ef.heap, n.chain) && begin < Min(boundary, end)
    ensures Overwritten(ef.clusterSize, old(ef.heap), ef.heap, n.chain, begin, Zeros(Min(boundary, end) - begin))
  {
    hide ClusterIndex, ClusterOffset, ClusterStart, ClustersFor;
    ghost var k: nat := ClusterIndex(ef.clusterSize, begin);
    Division(ef.clusterSize, begin);
    NextStart(ef.clusterSize, k);
    cluster := ef.AdvanceCluster(n, ClusterIndex(ef.clusterSize, begin));
    WriteChunk(ef, n, k, cluster, ClusterOffset(ef.clusterSize, begin), Zeros(Min(boundary, end) - begin));
  }

  /** erase_range */
  method EraseRange(ef: Volume, n: Node, begin: nat, end: nat)
    requires ef.Valid() && ef.Chained(n)
    requires begin < end ==> ClusterIndex(ef.clusterSize, end - 1) < |n.chain|
    modifies ef`heap, n`fptrIndex, n`fptrCluster
    ensures ef.Valid() && ef.Chained(n)
    ensures OnlyRowsOf(old(ef.heap), ef.heap, n.chain)
    ensures Overwritten(ef.clusterSize, old(ef.heap), ef.heap, n.chain, begin,
                        Zeros(ErasedEnd(ef.clusterSize, begin, end) - begin))
  {
    hide ClusterIndex, ClusterOffset, ClusterStart, ClustersFor;
    if begin >= end {
      return;
    }
    var cs := ef.clusterSize;
    var boundary: nat := ClusterBoundary(cs, begin);
    FirstEraseFits(cs, begin, end, |n.chain|);
    var cluster := EraseFirstCluster(ef, n, begin, end, boundary);
    EraseRest(ef, n, ClusterIndex(cs, begin), cluster, begin, end, boundary, old(ef.heap));
  }

  /** erase_range of a contiguous file, up to an end that lies behind the heap, as exfat_truncate asks for when it counts
      too few clusters for a size. Every cluster from the first erased one on is cleared, whoever it belongs to, until
      exfat_bug ends the driver at the end of the heap. */
  method EraseToHeapEnd(ef: Volume, n: Node, begin: nat, end: nat)
    requires ef.Valid() && ef.Chained(n) && n.isContiguous
    requires ClusterIndex(ef.clusterSize, begin) < |n.chain| && ClusterStart(ef.clusterSize, ef.clusterCount) < end
    modifies ef`heap, n`fptrIndex, n`fptrCluster
    ensures ef.Valid() && ef.Chained(n)
    ensures var first := n.chain[ClusterIndex(ef.clusterSize, begin)];
      && (forall c: nat | DataCluster(ef.clusterCount, c) && c < first ::
            ef.heap[c - FIRST_DATA_CLUSTER] == old(ef.heap)[c - FIRST_DATA_CLUSTER])
      && (forall c: nat | DataCluster(ef.clusterCount, c) && c > first ::
            ef.heap[c - FIRST_DATA_CLUSTER] == Zeros(ef.clusterSize))
  {
    hide ClusterIndex, ClusterOffset, ClusterStart, ClustersFor, ClusterMap.Valid, Patch;
    var cs := ef.clusterSize;
    ghost var k: nat := ClusterIndex(cs, begin);
    var boundary: nat := ClusterBoundary(cs, begin);
    var cluster: nat := ef.AdvanceCluster(n, ClusterIndex(cs, begin));
    ghost var first := cluster;
    Division(cs, begin);
    NextStart(cs, k);
    StartOrder(cs, k + 1, ef.clusterCount);
    WriteHeap(ef, cluster, ClusterOffset(cs, begin), Zeros(Min(boundary, end) - begin));
    while true
      invariant ef.Valid() && ef.Chained(n) && first <= cluster && DataCluster(ef.clusterCount, cluster)
      invariant boundary == ClusterStart(cs, k + 1 + (cluster - first)) < end
      invariant forall c: nat | DataCluster(ef.clusterCount, c) && c < first ::
                  ef.heap[c - FIRST_DATA_CLUSTER] == old(ef.heap)[c - FIRST_DATA_CLUSTER]
      invariant forall c: nat | DataCluster(ef.clusterCount, c) && first < c <= cluster ::
                  ef.heap[c - FIRST_DATA_CLUSTER] == Zeros(cs)
      decreases ef.clusterCount + FIRST_DATA_CLUSTER - cluster
    {
      cluster := cluster + 1;
      if !DataCluster(ef.clusterCount, cluster) {
        return;
      }
      ClearsAll(ef.heap[cluster - FIRST_DATA_CLUSTER]);
      WriteHeap(ef, cluster, 0, Zeros(cs));
      NextStart(cs, k + (cluster - first));
      StartOrder(cs, k + 1 + (cluster - first), ef.clusterCount);
      boundary := boundary + cs;
    }
  }

  lemma ClearsAll(row: seq<byte>)
    ensures Patch(row, 0, Zeros(|row|)) == Zeros(|row|)
  {
  }

  /** The loop of erase_range over whole clusters. */
  method EraseRest(ef: Volume, n: Node, ghost first: nat, firstCluster: nat, ghost begin: nat, end: nat, start: nat,
                   ghost heap0: seq<seq<byte>>)
    requires ef.Valid() && ef.Chained(n) && begin < Min(start, end)
    requires first < |n.chain| && firstCluster == n.chain[first] && start == ClusterStart(ef.clusterSize, first + 1)
    requires start == ClusterBoundary(ef.clusterSize, begin) && ClusterIndex(ef.clusterSize, end - 1) < |n.chain|
    requires OnlyRowsOf(heap0, ef.heap, n.chain)
    requires end <= start ==> ErasedEnd(ef.clusterSize, begin, end) == end
    requires Overwritten(ef.clusterSize, heap0, ef.heap, n.chain, begin, Zeros(Min(start, end) - begin))
    modifies ef`heap
    ensures ef.Valid() && ef.Chained(n) && OnlyRowsOf(heap0, ef.heap, n.chain)
    ensures Overwritten(ef.clusterSize, heap0, ef.heap, n.chain, begin,
                        Zeros(ErasedEnd(ef.clusterSize, begin, end) - begin))
  {
    hide ClusterIndex, ClusterOffset, ClusterStart, ClustersFor, Overwritten, Spelled, ErasedEnd, Zeros,
      Volume.Chained, ClusterMap.Valid;
    var cs, boundary, cluster := ef.clusterSize, start, firstCluster;
    ghost var k: nat, done: nat := first, Min(start, end);
    while boundary < end
      invariant ef.Valid() && ef.Chained(n)
      invariant k < |n.chain| && cluster == n.chain[k] && start <= boundary == ClusterStart(cs, k + 1)
      invariant begin < done && done == if boundary < end then boundary else ErasedEnd(cs, begin, end)
      invariant OnlyRowsOf(heap0, ef.heap, n.chain)
      invariant Overwritten(cs, heap0, ef.heap, n.chain, begin, Zeros(done - begin))
    {
      NextEraseFits(cs, begin, k, end, |n.chain|);
      ghost var h1 := ef.heap;
      cluster := EraseNextCluster(ef, n, k, cluster);
      k := k + 1;
      MoreZeros(cs, heap0, h1, ef.heap, n.chain, begin, done, cs);
      boundary := boundary + cs;
      done := done + cs;
    }
  }

  lemma FirstEraseFits(cs: nat, begin: nat, end: nat, clusters: nat)
    requires cs > 0 && begin < end && ClusterIndex(cs, end - 1) < clusters
    ensures ClusterIndex(cs, begin) < clusters
    ensures begin < ClusterBoundary(cs, begin) == ClusterStart(cs, ClusterIndex(cs, begin) + 1)
    ensures end <= ClusterBoundary(cs, begin) ==> ErasedEnd(cs, begin, end) == end
  {
    hide ClusterIndex, ClusterOffset, ClusterStart, ClustersFor;
    IndexOrder(cs, begin, end - 1);
    Division(cs, begin);
    NextStart(cs, ClusterIndex(cs, begin));
  }

  lemma NextEraseFits(cs: nat, begin: nat, k: nat, end: nat, clusters: nat)
    requires cs > 0 && begin < ClusterStart(cs, k + 1) < end && ClusterBoundary(cs, begin) <= ClusterStart(cs, k + 1)
    requires ClusterIndex(cs, end - 1) < clusters
    ensures k + 1 < clusters && ClusterStart(cs, k + 2) == ClusterStart(cs, k + 1) + cs
    ensures end <= ClusterStart(cs, k + 2) ==> ErasedEnd(cs, begin, end) == ClusterStart(cs, k + 2)
  {
    hide ClusterIndex, ClusterOffset, ClusterStart, ClustersFor;
    var q := ClusterIndex(cs, end - 1);
    NextStart(cs, k + 1);
    InCluster(cs, end - 1, q);
    StartOrder(cs, q, k);
    NextStart(cs, k);
    ClustersForIndex(cs, end);
    InCluster(cs, end - 1, k + 1);
  }

  /** bytes2clusters: a size in clusters, kept in an unsigned 32-bit integer. */
  function Bytes2Clusters(cs: nat, bytes: nat): nat
    requires cs > 0
  {
    ClustersFor(cs, bytes) % 0x1_0000_0000
  }

  /** The 32-bit result is the number of clusters a file of that size needs, up to 2^32 - 1 clusters and no further. */
  lemma ClustersOfSize(cs: nat, bytes: nat)
    requires cs > 0
    ensures Bytes2Clusters(cs, bytes) == ClustersFor(cs, bytes) <==> bytes <= ClusterStart(cs, 0xFFFF_FFFF)
  {
    hide ClusterIndex, ClusterOffset, ClusterStart, ClustersFor;
    SizeCovers(cs, bytes, 0);
    StartOrder(cs, ClustersFor(cs, bytes), 0xFFFF_FFFF);
    if ClustersFor(cs, bytes) > 0xFFFF_FFFF {
      ClustersForIndex(cs, bytes);
      InCluster(cs, bytes - 1, ClusterIndex(cs, bytes - 1));
      StartOrder(cs, 0xFFFF_FFFF, ClusterIndex(cs, bytes - 1));
    }
  }

  /** A file of 2^32 clusters is taken for an empty one. */
  lemma SizeWrapsAround(cs: nat)
    requires cs > 0
    ensures Bytes2Clusters(cs, ClusterStart(cs, 0x1_0000_0000)) == 0 < ClustersFor(cs, ClusterStart(cs, 0x1_0000_0000))
  {
    var q := 0x1_0000_0000;
    hide ClusterIndex, ClusterStart, ClustersFor;
    NextStart(cs, q - 1);
    ClustersForIndex(cs, ClusterStart(cs, q));
    InCluster(cs, ClusterStart(cs, q) - 1, q - 1);
  }

  lemma FitsInWord(cs: nat, bytes: nat)
    requires cs > 0 && ClustersFor(cs, bytes) <= 0xFFFF_FFFF
    ensures Bytes2Clusters(cs, bytes) == ClustersFor(cs, bytes) && bytes <= ClusterStart(cs, 0xFFFF_FFFF)
  {
    hide ClusterIndex, ClusterOffset, ClusterStart, ClustersFor;
    ClustersOfSize(cs, bytes);
  }

  /** What exfat_truncate leaves in `valid_size`. */
  function TruncatedValidSize(size: nat, validSize: nat, newSize: nat, erase: bool): nat {
    if newSize == size then validSize else if erase then newSize else Min(validSize, newSize)
  }

  lemma ResizedHolds(cs: nat, h0: seq<seq<byte>>, h1: seq<seq<byte>>, chain0: seq<nat>, chain1: seq<nat>,
                     size: nat, validSize: nat, content: seq<byte>, newSize: nat, erase: bool)
    requires Holds(cs, h0, chain0, size, validSize, content) && newSize != size
    requires |chain1| == ClustersFor(cs, newSize) && (chain0 <= chain1 || chain1 <= chain0)
    requires if erase then Overwritten(cs, h0, h1, chain1, validSize, Zeros(ErasedEnd(cs, validSize, newSize) - validSize))
             else h1 == h0
    ensures Holds(cs, h1, chain1, newSize, TruncatedValidSize(size, validSize, newSize, erase), Resize(content, newSize))
  {
    hide ClusterIndex, ClusterOffset, ClusterStart, ClustersFor;
    var validSize1 := TruncatedValidSize(size, validSize, newSize, erase);
    var content1 := Resize(content, newSize);
    forall i: nat | i < newSize
      ensures content1[i] == if i < validSize1 then ByteAt(cs, h1, chain1, i) else 0
    {
      SizeCovers(cs, newSize, i);
      SizeCovers(cs, size, i);
    }
  }

  lemma ErasedEnough(cs: nat, begin: nat, end: nat)
    requires cs > 0 && begin < end
    ensures ClusterIndex(cs, end - 1) < ClustersFor(cs, end)
  {
  }

  /** A file of the volume: its clusters are its own to walk, and they hold its content. */
  ghost predicate IsFile(ef: Volume, n: Node)
    reads ef, n, ef.cmap
  {
    && ef.Chained(n) && Terminated(ef.fat, n.chain, n.isContiguous)
    && Holds(ef.clusterSize, ef.heap, n.chain, n.size, n.validSize, n.content)
  }

  /** A file in order is no larger than its clusters can be counted in 32 bits. */
  lemma FileFits(ef: Volume, n: Node)
    requires ef.Valid() && IsFile(ef, n)
    ensures Bytes2Clusters(ef.clusterSize, n.size) == |n.chain| <= Capacity(ef.clusterCount, ef.cmap.used, n.chain)
    ensures n.size <= ClusterStart(ef.clusterSize, 0xFFFF_FFFF)
  {
    hide ClusterIndex, ClusterOffset, ClusterStart, ClustersFor, Capacity;
    CapacityIsChainAndFree(ef.clusterCount, ef.cmap.used, n.chain);
    FitsInWord(ef.clusterSize, n.size);
  }

  /** Every other file's clusters, their FAT entries and their bytes are as before. */
  ghost predicate OthersIntact(used0: set<nat>, fat0: seq<u32>, heap0: seq<seq<byte>>, chain0: seq<nat>,
                               used1: set<nat>, fat1: seq<u32>, heap1: seq<seq<byte>>, chain1: seq<nat>)
  {
    && used0 - Elems(chain0) == used1 - Elems(chain1)
    && SameFat(fat0, fat1, used0 - Elems(chain0))
    && SameRows(heap0, heap1, used0 - Elems(chain0))
  }

  /** The part of exfat_truncate that changes the number of clusters. */
  method ResizeChain(ef: Volume, n: Node, c1: nat, c2: nat) returns (status: Status)
    requires ef.Valid() && ef.Chained(n) && Terminated(ef.fat, n.chain, n.isContiguous) && c1 == |n.chain|
    modifies ef`fat, ef.cmap`used, ef.cmap`dirty, ef.cmap.chunk
    modifies n`startCluster, n`fptrIndex, n`fptrCluster, n`isContiguous, n`isDirty, n`chain
    ensures ef.Valid() && ef.Chained(n) && Terminated(ef.fat, n.chain, n.isContiguous)
    ensures status == NoSpace <==> c2 > Capacity(ef.clusterCount, old(ef.cmap.used), old(n.chain))
    ensures status == NoSpace ==> n.chain == old(n.chain)
    ensures status == Ok ==> |n.chain| == c2 && (n.chain <= old(n.chain) || old(n.chain) <= n.chain)
    ensures old(ef.cmap.used) - old(Elems(n.chain)) == ef.cmap.used - Elems(n.chain)
    ensures SameFat(old(ef.fat), ef.fat, old(ef.cmap.used) - old(Elems(n.chain)))
    ensures StaysAnchored(old(n.chain), old(n.isContiguous), n.chain, n.isContiguous)
  {
    hide GrowBy, NextFit, Spelled, Terminated, NoDup, Capacity;
    ghost var used0, chain0 := ef.cmap.used, n.chain;
    CapacityIsChainAndFree(ef.clusterCount, used0, chain0);
    status := Ok;
    if c1 < c2 {
      status := ef.GrowFile(n, c1, c2 - c1);
      GrowthIsExact(used0, ef.clusterCount, chain0, c2 - c1);
    } else if c1 > c2 {
      SplitNoDup(chain0, c2);
      ef.ShrinkFile(n, c1, c1 - c2);
    }
  }

  lemma RowsOfOthers(used0: set<nat>, chain0: seq<nat>, used1: set<nat>, chain1: seq<nat>,
                     heap0: seq<seq<byte>>, heap1: seq<seq<byte>>)
    requires used0 - Elems(chain0) == used1 - Elems(chain1) && OnlyRowsOf(heap0, heap1, chain1)
    ensures SameRows(heap0, heap1, used0 - Elems(chain0))
  {
  }

  /** exfat_truncate, once the number of clusters is right: clear what is new and record the sizes. */
  method RecordSize(ef: Volume, n: Node, size: nat, erase: bool, ghost chain0: seq<nat>)
    requires ef.Valid() && ef.Chained(n) && Terminated(ef.fat, n.chain, n.isContiguous)
    requires Holds(ef.clusterSize, ef.heap, chain0, n.size, n.validSize, n.content) && size != n.size
    requires n.chain <= chain0 || chain0 <= n.chain
    requires erase ==> |n.chain| == ClustersFor(ef.clusterSize, size)
    modifies ef`heap, n`fptrIndex, n`fptrCluster, n`validSize, n`content, n`size, n`isDirty
    ensures ef.Valid() && ef.Chained(n) && Terminated(ef.fat, n.chain, n.isContiguous)
    ensures IsFile(ef, n) <==> |n.chain| == ClustersFor(ef.clusterSize, size)
    ensures n.size == size && n.validSize == TruncatedValidSize(old(n.size), old(n.validSize), size, erase)
    ensures n.content == Resize(old(n.content), size)
    ensures erase || ef.heap == old(ef.heap)
    ensures OnlyRowsOf(old(ef.heap), ef.heap, n.chain)
  {
    hide ClusterIndex, ClusterOffset, ClusterStart, ClustersFor, Spelled, Terminated, NoDup, Overwritten, ErasedEnd,
      ByteAt, Resize;
    if n.validSize < size { ErasedEnough(ef.clusterSize, n.validSize, size); }
    if erase {
      EraseRange(ef, n, n.validSize, size);
    }
    if |n.chain| == ClustersFor(ef.clusterSize, size) {
      ResizedHolds(ef.clusterSize, old(ef.heap), ef.heap, chain0, n.chain, n.size, n.validSize, n.content, size, erase);
    }
    n.validSize := if erase then size else Min(n.validSize, size);
    n.content := Resize(n.content, size);
    n.size := size;
    n.isDirty := true;
  }

  /**
   * exfat_truncate. Beyond 2^32 - 1 clusters the cluster count wraps around: the call may succeed, with a size
   * recorded that the chain does not have.
   */
  method Truncate(ef: Volume, n: Node, size: nat, erase: bool) returns (status: Status)
    requires ef.Valid() && IsFile(ef, n)
    requires erase ==> size <= ClusterStart(ef.clusterSize, 0xFFFF_FFFF)
    modifies ef, n, ef.cmap`used, ef.cmap`dirty, ef.cmap.chunk
    ensures ef.Valid() && ef.Chained(n) && Terminated(ef.fat, n.chain, n.isContiguous)
    ensures IsFile(ef, n) <==> status == NoSpace || size <= ClusterStart(ef.clusterSize, 0xFFFF_FFFF)
    ensures status == NoSpace <==>
            Bytes2Clusters(ef.clusterSize, size) > Capacity(ef.clusterCount, old(ef.cmap.used), old(n.chain))
    ensures size <= ClusterStart(ef.clusterSize, 0xFFFF_FFFF) ==>
              Bytes2Clusters(ef.clusterSize, size) == ClustersFor(ef.clusterSize, size)
    ensures status == NoSpace ==>
              n.size == old(n.size) && n.validSize == old(n.validSize) && n.content == old(n.content) && n.chain == old(n.chain)
    ensures status == Ok ==>
              && n.size == size && n.validSize == TruncatedValidSize(old(n.size), old(n.validSize), size, erase)
              && n.content == Resize(old(n.content), size)
    ensures status == Ok ==> |n.chain| == Bytes2Clusters(ef.clusterSize, size)
    ensures n.chain <= old(n.chain) || old(n.chain) <= n.chain
    ensures erase || ef.heap == old(ef.heap)
    ensures StaysAnchored(old(n.chain), old(n.isContiguous), n.chain, n.isContiguous)
    ensures OthersIntact(old(ef.cmap.used), old(ef.fat), old(ef.heap), old(n.chain), ef.cmap.used, ef.fat, ef.heap, n.chain)
  {
    hide ClusterIndex, ClusterOffset, ClusterStart, ClustersFor, Spelled, Terminated, NoDup, ByteAt, Capacity,
      ClusterMap.Valid, Elems;
    FileFits(ef, n);
    ClustersOfSize(ef.clusterSize, size);
    var c1 := Bytes2Clusters(ef.clusterSize, n.size);
    var c2 := Bytes2Clusters(ef.clusterSize, size);
    if n.size == size {
      return Ok;
    }
    status := ResizeChain(ef, n, c1, c2);
    if status != Ok {
      return;
    }
    RecordSize(ef, n, size, erase, old(n.chain));
    RowsOfOthers(old(ef.cmap.used), old(n.chain), ef.cmap.used, n.chain, old(ef.heap), ef.heap);
  }

  const EINVAL: int := 22
  const ENOSPC: int := 28

  /** The valid bytes of a file that lie in one cluster are a window of that cluster. */
  lemma ContentWindow(cs: nat, heap: seq<seq<byte>>, chain: seq<nat>, size: nat, validSize: nat, content: seq<byte>,
                      k: nat, at: nat, len: nat)
    requires Holds(cs, heap, chain, size, validSize, content)
    requires k < |chain| && at + len <= cs && ClusterStart(cs, k) + at + len <= validSize
    requires DataCluster(|heap|, chain[k]) && |heap[chain[k] - FIRST_DATA_CLUSTER]| == cs
    ensures forall j | ClusterStart(cs, k) + at <= j < ClusterStart(cs, k) + at + len ::
              content[j] == heap[chain[k] - FIRST_DATA_CLUSTER][j - ClusterStart(cs, k)]
  {
    hide ClusterIndex, ClusterOffset, ClusterStart, ClustersFor;
    forall j | ClusterStart(cs, k) + at <= j < ClusterStart(cs, k) + at + len
      ensures content[j] == heap[chain[k] - FIRST_DATA_CLUSTER][j - ClusterStart(cs, k)]
    {
      InCluster(cs, j, k);
    }
  }

  /** exfat_pread from part of one cluster of the heap into the buffer. */
  method ReadHeap(ef: Volume, cluster: nat, at: nat, len: nat, buffer: array<byte>, to: nat)
    requires ef.Valid() && DataCluster(ef.clusterCount, cluster) && at + len <= ef.clusterSize
    requires to + len <= buffer.Length
    modifies buffer
    ensures forall i | 0 <= i < buffer.Length ::
              buffer[i] == if to <= i < to + len then ef.heap[cluster - FIRST_DATA_CLUSTER][at + i - to] else old(buffer[i])
  {
    var row := ef.heap[cluster - FIRST_DATA_CLUSTER];
    forall i | 0 <= i < len {
      buffer[to + i] := row[at + i];
    }
  }

  /** After a chunk that does not finish the range, the next one starts at the next cluster of the chain. */
  lemma NextChunk(cs: nat, size: nat, k: nat, at: nat, len: nat, pos: nat, remainder: nat)
    requires cs > 0 && pos == ClusterStart(cs, k) + at + len
    requires pos + remainder <= size && (remainder > 0 ==> at + len == cs)
    ensures remainder > 0 ==> k + 1 < ClustersFor(cs, size) && pos == ClusterStart(cs, k + 1)
  {
    hide ClusterIndex, ClusterOffset, ClusterStart, ClustersFor;
    if remainder > 0 {
      NextStart(cs, k);
      InCluster(cs, pos, k + 1);
      SizeCovers(cs, size, pos);
    }
  }

  /** The body of exfat_generic_pread's loop. */
  method ReadChunk(ef: Volume, n: Node, buffer: array<byte>, done: nat, ghost k: nat, ghost pos: nat,
                   cluster: nat, loffset: nat, lsize: nat)
    returns (next: nat)
    requires ef.Valid() && IsFile(ef, n) && done + lsize <= buffer.Length
    requires k < |n.chain| && cluster == n.chain[k] && loffset + lsize <= ef.clusterSize
    requires pos == ClusterStart(ef.clusterSize, k) + loffset && pos + lsize <= n.validSize
    modifies buffer
    ensures IsFile(ef, n)
    ensures forall i | 0 <= i < buffer.Length ::
              buffer[i] == if done <= i < done + lsize then n.content[pos + i - done] else old(buffer[i])
    ensures k + 1 < |n.chain| ==> next == n.chain[k + 1]
  {
    hide ClusterIndex, ClusterOffset, ClusterStart, ClustersFor;
    if !DataCluster(ef.clusterCount, cluster) {
      assert false;
    }
    ContentWindow(ef.clusterSize, ef.heap, n.chain, n.size, n.validSize, n.content, k, loffset, lsize);
    ReadHeap(ef, cluster, loffset, lsize, buffer, done);
    next := ef.NextCluster(n, cluster, n.chain, k);
  }

  /** The cluster that holds a byte of the file. */
  method Seek(ef: Volume, n: Node, pos: nat) returns (cluster: nat, ghost k: nat)
    requires ef.Valid() && IsFile(ef, n) && pos < n.size
    modifies n`fptrIndex, n`fptrCluster
    ensures IsFile(ef, n)
    ensures k < |n.chain| == ClustersFor(ef.clusterSize, n.size) && cluster == n.chain[k]
    ensures ef.clusterSize > 0 && n.validSize <= n.size == |n.content|
    ensures pos == ClusterStart(ef.clusterSize, k) + ClusterOffset(ef.clusterSize, pos)
    ensures ClusterOffset(ef.clusterSize, pos) < ef.clusterSize
  {
    hide ClusterIndex, ClusterOffset, ClusterStart, ClustersFor, ByteAt, Terminated;
    k := ClusterIndex(ef.clusterSize, pos);
    SizeCovers(ef.clusterSize, n.size, pos);
    Division(ef.clusterSize, pos);
    cluster := ef.AdvanceCluster(n, ClusterIndex(ef.clusterSize, pos));
    if !DataCluster(ef.clusterCount, cluster) {
      assert false;
    }
  }

  /** exfat_generic_pread for a range of valid bytes. */
  method ReadValid(ef: Volume, n: Node, buffer: array<byte>, size: nat, offset: nat)
    requires ef.Valid() && IsFile(ef, n) && size <= buffer.Length
    requires 0 < size && offset + size <= n.validSize <= n.size == |n.content|
    modifies n`fptrIndex, n`fptrCluster, buffer
    ensures IsFile(ef, n)
    ensures forall i | 0 <= i < buffer.Length :: buffer[i] == if i < size then n.content[offset + i] else old(buffer[i])
  {
    hide ClusterIndex, ClusterOffset, ClusterStart, ClustersFor, IsFile, Holds;
    var cs := ef.clusterSize;
    var cluster: nat;
    ghost var k: nat;
    cluster, k := Seek(ef, n, offset);
    var loffset: nat := ClusterOffset(cs, offset);
    var remainder: nat := Min(size, n.size - offset);
    var done: nat := 0;
    while remainder > 0
      invariant IsFile(ef, n) && remainder + done == size
      invariant forall i | 0 <= i < buffer.Length ::
                  buffer[i] == if i < done then n.content[offset + i] else old(buffer[i])
      invariant remainder > 0 ==> k < |n.chain| && cluster == n.chain[k]
      invariant remainder > 0 ==> loffset < cs && offset + done == ClusterStart(cs, k) + loffset
    {
      var lsize := Min(cs - loffset, remainder);
      cluster := ReadChunk(ef, n, buffer, done, k, offset + done, cluster, loffset, lsize);
      NextChunk(cs, n.size, k, loffset, lsize, offset + done + lsize, remainder - lsize);
      done := done + lsize;
      remainder := remainder - lsize;
      loffset := 0;
      k := k + 1;
    }
  }

  /** How many bytes a read of this size at this offset yields. */
  function ReadCount(fileSize: nat, size: nat, offset: nat): nat {
    if offset >= fileSize then 0 else Min(size, fileSize - offset)
  }

  /** How far into the buffer a read of the zeros behind the valid size clears it: possibly beyond the bytes that it
      yields, but never beyond the size asked for. */
  function ClearedEnd(fileSize: nat, validSize: nat, size: nat, offset: nat): (end: nat)
    ensures end <= size && (validSize <= fileSize ==> ReadCount(fileSize, size, offset) <= end)
  {
    if offset >= validSize && offset < fileSize then Min(size, fileSize - validSize)
    else ReadCount(fileSize, size, offset)
  }

  /** memset(buffer + from, 0, len) */
  method Clear(buffer: array<byte>, from: nat, len: nat)
    requires from + len <= buffer.Length
    modifies buffer
    ensures forall i | 0 <= i < buffer.Length :: buffer[i] == if from <= i < from + len then 0 else old(buffer[i])
  {
    forall i | from <= i < from + len {
      buffer[i] := 0;
    }
  }

  /** exfat_generic_pread: the bytes that the file shows, from the offset on. */
  method Pread(ef: Volume, n: Node, buffer: array<byte>, size: nat, offset: int) returns (r: int)
    requires ef.Valid() && IsFile(ef, n) && size <= buffer.Length
    modifies n`fptrIndex, n`fptrCluster, buffer
    ensures IsFile(ef, n)
    ensures r == if offset < 0 then -EINVAL else ReadCount(n.size, size, offset)
    ensures forall i | 0 <= i < r :: buffer[i] == n.content[offset + i]
    ensures forall i | 0 <= i < buffer.Length && r <= i ::
              buffer[i] == if offset >= 0 && i < ClearedEnd(n.size, n.validSize, size, offset) then 0 else old(buffer[i])
    decreases size
  {
    hide ClusterIndex, ClusterOffset, ClusterStart, ClustersFor, Volume.Chained, Terminated, ByteAt, Volume.Valid;
    if offset < 0 {
      return -EINVAL;
    }
    if offset >= n.size || size == 0 {
      return 0;
    }
    if offset + size > n.validSize {
      var bytes := 0;
      if offset < n.validSize {
        bytes := Pread(ef, n, buffer, n.validSize - offset, offset);
        if bytes < n.validSize - offset {
          assert false;
        }
      }
      Clear(buffer, bytes, Min(size - bytes, n.size - n.validSize));
      return Min(size, n.size - offset);
    }
    ReadValid(ef, n, buffer, size, offset);
    return Min(size, n.size - offset);
  }

  /** The content after writing data at pos: bytes between the old valid size and pos, if any, become
      readable as they are found in the clusters. */
  ghost function Written(cs: nat, heap: seq<seq<byte>>, chain: seq<nat>, validSize: nat, content: seq<byte>,
                         pos: nat, data: seq<byte>): (w: seq<byte>)
    requires cs > 0
    ensures data != [] ==> |w| == |content|
    ensures data != [] ==> forall i: nat | i < |content| ::
                w[i] == if pos <= i < pos + |data| then data[i - pos]
                        else if validSize <= i < pos then ByteAt(cs, heap, chain, i) else content[i]
  {
    if data == [] then content
    else seq(|content|, i requires 0 <= i < |content| =>
               if pos <= i < pos + |data| then data[i - pos]
               else if validSize <= i < pos then ByteAt(cs, heap, chain, i) else content[i])
  }

  lemma WrittenHolds(cs: nat, h0: seq<seq<byte>>, h1: seq<seq<byte>>, chain: seq<nat>, size: nat, validSize: nat,
                     content: seq<byte>, pos: nat, data: seq<byte>)
    requires Holds(cs, h0, chain, size, validSize, content) && data != [] && pos + |data| <= size
    requires Overwritten(cs, h0, h1, chain, pos, data)
    ensures Holds(cs, h1, chain, size, Max(validSize, pos + |data|), Written(cs, h0, chain, validSize, content, pos, data))
  {
    hide ClusterIndex, ClusterOffset, ClusterStart, ClustersFor;
    var w := Written(cs, h0, chain, validSize, content, pos, data);
    forall i: nat | i < size
      ensures w[i] == if i < Max(validSize, pos + |data|) then ByteAt(cs, h1, chain, i) else 0
    {
      SizeCovers(cs, size, i);
    }
  }

  /** The body of exfat_generic_pwrite's loop. */
  method WriteStep(ef: Volume, n: Node, ghost k: nat, cluster: nat, loffset: nat, pos: nat, data: seq<byte>)
    returns (next: nat)
    requires ef.Valid() && IsFile(ef, n) && data != []
    requires k < |n.chain| && cluster == n.chain[k] && loffset + |data| <= ef.clusterSize
    requires pos == ClusterStart(ef.clusterSize, k) + loffset && pos + |data| <= n.size
    modifies ef`heap, n`validSize, n`content
    ensures ef.Valid() && IsFile(ef, n)
    ensures n.validSize == Max(old(n.validSize), pos + |data|)
    ensures n.content == Written(ef.clusterSize, old(ef.heap), n.chain, old(n.validSize), old(n.content), pos, data)
    ensures OnlyRowsOf(old(ef.heap), ef.heap, n.chain)
    ensures k + 1 < |n.chain| ==> next == n.chain[k + 1]
  {
    hide ClusterIndex, ClusterOffset, ClusterStart, ClustersFor;
    if !DataCluster(ef.clusterCount, cluster) {
      assert false;
    }
    WriteChunk(ef, n, k, cluster, loffset, data);
    WrittenHolds(ef.clusterSize, old(ef.heap), ef.heap, n.chain, n.size, n.validSize, n.content, pos, data);
    n.content := Written(ef.clusterSize, old(ef.heap), n.chain, n.validSize, n.content, pos, data);
    n.validSize := Max(n.validSize, pos + |data|);
    next := ef.NextCluster(n, cluster, n.chain, k);
  }

  /** exfat_generic_pwrite inside the file's size. */
  method WriteBytes(ef: Volume, n: Node, buffer: seq<byte>, offset: nat)
    requires ef.Valid() && IsFile(ef, n) && buffer != [] && offset + |buffer| <= n.size
    modifies ef`heap, n`validSize, n`content, n`fptrIndex, n`fptrCluster
    ensures ef.Valid() && IsFile(ef, n)
    ensures n.validSize == Max(old(n.validSize), offset + |buffer|)
    ensures n.content == Written(ef.clusterSize, old(ef.heap), n.chain, old(n.validSize), old(n.content), offset, buffer)
    ensures OnlyRowsOf(old(ef.heap), ef.heap, n.chain)
  {
    hide ClusterIndex, ClusterOffset, ClusterStart, ClustersFor, IsFile, Holds, Written, OnlyRowsOf;
    var cs, size := ef.clusterSize, |buffer|;
    var cluster: nat;
    ghost var k: nat;
    cluster, k := Seek(ef, n, offset);
    var loffset: nat := ClusterOffset(cs, offset);
    var remainder: nat := size;
    var done: nat := 0;
    assert buffer[..done] == [];
    NothingWritten(cs, ef.heap, n.chain, n.validSize, n.content, offset);
    while remainder > 0
      invariant ef.Valid() && IsFile(ef, n) && remainder + done == size
      invariant n.validSize == if done == 0 then old(n.validSize) else Max(old(n.validSize), offset + done)
      invariant n.content == Written(cs, old(ef.heap), n.chain, old(n.validSize), old(n.content), offset, buffer[..done])
      invariant OnlyRowsOf(old(ef.heap), ef.heap, n.chain)
      invariant done == 0 ==> ef.heap == old(ef.heap)
      invariant remainder > 0 ==> k < |n.chain| && cluster == n.chain[k]
      invariant remainder > 0 ==> loffset < cs && offset + done == ClusterStart(cs, k) + loffset
    {
      var lsize := Min(cs - loffset, remainder);
      ghost var h1 := ef.heap;
      cluster := WriteStep(ef, n, k, cluster, loffset, offset + done, buffer[done..done + lsize]);
      NextChunk(cs, n.size, k, loffset, lsize, offset + done + lsize, remainder - lsize);
      WriteMore(cs, old(ef.heap), h1, ef.heap, n.chain, old(n.validSize), old(n.content), offset, buffer, done, lsize);
      done := done + lsize;
      loffset := 0;
      remainder := remainder - lsize;
      k := k + 1;
    }
    assert buffer[..done] == buffer;
  }

  lemma NothingWritten(cs: nat, heap: seq<seq<byte>>, chain: seq<nat>, validSize: nat, content: seq<byte>, pos: nat)
    requires cs > 0
    ensures OnlyRowsOf(heap, heap, chain) && Written(cs, heap, chain, validSize, content, pos, []) == content
  {
  }

  lemma WriteMore(cs: nat, h0: seq<seq<byte>>, h1: seq<seq<byte>>, h2: seq<seq<byte>>, chain: seq<nat>, validSize: nat,
                  content: seq<byte>, pos: nat, buffer: seq<byte>, done: nat, len: nat)
    requires cs > 0 && 0 < len && done + len <= |buffer|
    requires OnlyRowsOf(h0, h1, chain) && OnlyRowsOf(h1, h2, chain) && (done == 0 ==> h1 == h0)
    ensures OnlyRowsOf(h0, h2, chain)
    ensures Written(cs, h1, chain, if done == 0 then validSize else Max(validSize, pos + done),
                    Written(cs, h0, chain, validSize, content, pos, buffer[..done]),
                    pos + done, buffer[done..done + len])
         == Written(cs, h0, chain, validSize, content, pos, buffer[..done + len])
  {
  }

  /** The content after exfat_generic_pwrite, computed from the file as it was before the call. */
  ghost function PwriteContent(cs: nat, heap: seq<seq<byte>>, chain: seq<nat>, validSize: nat, content: seq<byte>,
                               offset: nat, data: seq<byte>): (w: seq<byte>)
    requires cs > 0
  {
    Written(cs, heap, chain, if offset > |content| then offset else validSize,
            Resize(content, Max(|content|, offset + |data|)), offset, data)
  }

  lemma WrittenInOldPart(cs: nat, heap: seq<seq<byte>>, chain0: seq<nat>, chain1: seq<nat>, size: nat, validSize: nat,
                         content: seq<byte>, pos: nat, data: seq<byte>)
    requires cs > 0 && |chain0| == ClustersFor(cs, size) && (chain0 <= chain1 || chain1 <= chain0) && pos <= size
    requires |chain1| >= |chain0|
    ensures Written(cs, heap, chain1, validSize, content, pos, data) == Written(cs, heap, chain0, validSize, content, pos, data)
  {
    hide ClusterIndex, ClusterOffset, ClusterStart, ClustersFor;
    forall i: nat | validSize <= i < pos
      ensures ByteAt(cs, heap, chain1, i) == ByteAt(cs, heap, chain0, i)
    {
      SizeCovers(cs, size, i);
    }
  }

  lemma WrittenWithoutGap(cs: nat, h0: seq<seq<byte>>, h1: seq<seq<byte>>, chain0: seq<nat>, chain1: seq<nat>,
                          content: seq<byte>, pos: nat, data: seq<byte>)
    requires cs > 0
    ensures Written(cs, h1, chain1, pos, content, pos, data) == Written(cs, h0, chain0, pos, content, pos, data)
  {
  }

  lemma OthersTwice(u0: set<nat>, f0: seq<u32>, h0: seq<seq<byte>>, c0: seq<nat>,
                    u1: set<nat>, f1: seq<u32>, h1: seq<seq<byte>>, c1: seq<nat>,
                    u2: set<nat>, f2: seq<u32>, h2: seq<seq<byte>>, c2: seq<nat>)
    requires OthersIntact(u0, f0, h0, c0, u1, f1, h1, c1) && OthersIntact(u1, f1, h1, c1, u2, f2, h2, c2)
    ensures OthersIntact(u0, f0, h0, c0, u2, f2, h2, c2)
  {
  }

  lemma SameCapacity(count: nat, u0: set<nat>, f0: seq<u32>, h0: seq<seq<byte>>, c0: seq<nat>,
                     u1: set<nat>, f1: seq<u32>, h1: seq<seq<byte>>, c1: seq<nat>)
    requires OthersIntact(u0, f0, h0, c0, u1, f1, h1, c1)
    ensures Capacity(count, u1, c1) == Capacity(count, u0, c0)
  {
  }

  lemma OthersAtFirst(u0: set<nat>, f0: seq<u32>, h0: seq<seq<byte>>, c0: seq<nat>)
    ensures OthersIntact(u0, f0, h0, c0, u0, f0, h0, c0)
  {
  }

  lemma ResizeTwice(s: seq<byte>, a: nat, b: nat)
    requires |s| <= a <= b
    ensures Resize(Resize(s, a), b) == Resize(s, b)
  {
  }

  /** Where exfat_generic_pwrite leaves the file's size when space runs out. */
  ghost function SizeOnFailure(cs: nat, size: nat, offset: nat, capacity: nat): nat
    requires cs > 0
  {
    if offset > size && ClustersFor(cs, offset) <= capacity then offset else size
  }

  /** The first half of exfat_generic_pwrite: make the file large enough, clearing a hole before the data. */
  method Reserve(ef: Volume, n: Node, len: nat, offset: nat) returns (status: Status)
    requires ef.Valid() && IsFile(ef, n) && offset + len <= ClusterStart(ef.clusterSize, 0xFFFF_FFFF)
    modifies ef, n, ef.cmap`used, ef.cmap`dirty, ef.cmap.chunk
    ensures ef.Valid() && IsFile(ef, n)
    ensures var capacity := Capacity(ef.clusterCount, old(ef.cmap.used), old(n.chain));
            && (status == NoSpace <==> ClustersFor(ef.clusterSize, Max(old(n.size), offset + len)) > capacity)
            && (status == NoSpace ==> n.size == SizeOnFailure(ef.clusterSize, old(n.size), offset, capacity))
            && (status == NoSpace ==> n.validSize == if offset > old(n.size) && n.size == offset then offset else old(n.validSize))
    ensures n.content == Resize(old(n.content), n.size)
    ensures status == Ok ==> n.size == Max(old(n.size), offset + len)
    ensures status == Ok ==> n.validSize == if offset > old(n.size) then offset else old(n.validSize)
    ensures offset <= old(n.size) ==> n.chain <= old(n.chain) || old(n.chain) <= n.chain
    ensures offset <= old(n.size) ==> ef.heap == old(ef.heap)
    ensures StaysAnchored(old(n.chain), old(n.isContiguous), n.chain, n.isContiguous)
    ensures OthersIntact(old(ef.cmap.used), old(ef.fat), old(ef.heap), old(n.chain), ef.cmap.used, ef.fat, ef.heap, n.chain)
  {
    hide ClusterIndex, ClusterOffset, ClusterStart, ClustersFor, IsFile, Volume.Valid, Resize, OthersIntact, Capacity;
    ghost var size0, content0, used0, chain0, fat0, heap0 := n.size, n.content, ef.cmap.used, n.chain, ef.fat, ef.heap;
    status := Ok;
    OthersAtFirst(used0, fat0, heap0, chain0);
    SizesFit(ef, n, offset, len);
    if offset > n.size {
      status := Truncate(ef, n, offset, true);
      if status != Ok {
        return;
      }
    }
    ghost var used1, chain1, fat1, heap1 := ef.cmap.used, n.chain, ef.fat, ef.heap;
    if n.size > 0 { HasClusters(ef, n); }
    SameCapacity(ef.clusterCount, used0, fat0, heap0, chain0, used1, fat1, heap1, chain1);
    ResizeTwice(content0, n.size, Max(n.size, offset + len));
    if offset + len > n.size {
      status := Truncate(ef, n, offset + len, false);
      OthersTwice(used0, fat0, heap0, chain0, used1, fat1, heap1, chain1, ef.cmap.used, ef.fat, ef.heap, n.chain);
    }
  }

  lemma HasClusters(ef: Volume, n: Node)
    requires ef.Valid() && IsFile(ef, n) && n.size > 0
    ensures n.chain != []
  {
    hide ClustersFor, ByteAt;
    SizeCovers(ef.clusterSize, n.size, 0);
  }

  lemma SizesFit(ef: Volume, n: Node, offset: nat, len: nat)
    requires ef.Valid() && IsFile(ef, n)
    ensures ClustersFor(ef.clusterSize, n.size) <= Capacity(ef.clusterCount, ef.cmap.used, n.chain)
    ensures ClustersFor(ef.clusterSize, offset) <= ClustersFor(ef.clusterSize, offset + len)
    ensures n.validSize <= n.size == |n.content| && Resize(n.content, n.size) == n.content
  {
    hide ClusterIndex, ClusterOffset, ClusterStart, ClustersFor, Capacity;
    FileFits(ef, n);
    ClustersForOrder(ef.clusterSize, offset, offset + len);
  }

  function WrittenValidSize(size: nat, validSize: nat, offset: nat, data: seq<byte>): nat {
    var v := if offset > size then offset else validSize;
    if data == [] then v else Max(v, offset + |data|)
  }

  /** exfat_generic_pwrite */
  method Pwrite(ef: Volume, n: Node, buffer: seq<byte>, offset: int) returns (r: int)
    requires ef.Valid() && IsFile(ef, n) && offset + |buffer| <= ClusterStart(ef.clusterSize, 0xFFFF_FFFF)
    modifies ef, n, ef.cmap`used, ef.cmap`dirty, ef.cmap.chunk
    ensures ef.Valid() && IsFile(ef, n)
    ensures offset < 0 ==> r == -EINVAL && n.content == old(n.content) && n.validSize == old(n.validSize)
    ensures offset >= 0 ==>
              var capacity := Capacity(ef.clusterCount, old(ef.cmap.used), old(n.chain));
              if ClustersFor(ef.clusterSize, Max(old(n.size), offset + |buffer|)) > capacity
              then var size := SizeOnFailure(ef.clusterSize, old(n.size), offset, capacity);
                   r == -ENOSPC && n.content == Resize(old(n.content), size) &&
                   n.validSize == if size > old(n.size) then size else old(n.validSize)
              else r == |buffer| && n.validSize == WrittenValidSize(old(n.size), old(n.validSize), offset, buffer) &&
                   n.content == PwriteContent(ef.clusterSize, old(ef.heap), old(n.chain), old(n.validSize),
                                              old(n.content), offset, buffer)
    ensures StaysAnchored(old(n.chain), old(n.isContiguous), n.chain, n.isContiguous)
    ensures OthersIntact(old(ef.cmap.used), old(ef.fat), old(ef.heap), old(n.chain), ef.cmap.used, ef.fat, ef.heap, n.chain)
  {
    hide ClusterIndex, ClusterOffset, ClusterStart, ClustersFor, Volume.Chained, Terminated, Volume.Valid, Resize,
      Written;
    ghost var used0, chain0, fat0, heap0, content0, validSize0 :=
      ef.cmap.used, n.chain, ef.fat, ef.heap, n.content, n.validSize;
    OthersAtFirst(used0, fat0, heap0, chain0);
    if offset < 0 {
      return -EINVAL;
    }
    SizesFit(ef, n, offset, |buffer|);
    var status := Reserve(ef, n, |buffer|, offset);
    if status != Ok {
      return -ENOSPC;
    }
    ghost var used1, chain1, fat1, heap1 := ef.cmap.used, n.chain, ef.fat, ef.heap;
    PwriteOnReserved(ef.clusterSize, heap0, heap1, chain0, chain1, n.validSize, content0, validSize0, offset, buffer, n.content);
    if buffer == [] {
      return 0;
    }
    WriteBytes(ef, n, buffer, offset);
    RowsOfOthers(used1, chain1, ef.cmap.used, n.chain, heap1, ef.heap);
    OthersTwice(used0, fat0, heap0, chain0, used1, fat1, heap1, chain1, ef.cmap.used, ef.fat, ef.heap, n.chain);
    r := |buffer|;
  }

  lemma PwriteOnReserved(cs: nat, h0: seq<seq<byte>>, h1: seq<seq<byte>>, chain0: seq<nat>, chain1: seq<nat>,
                         validSize1: nat, content0: seq<byte>, validSize0: nat, offset: nat, data: seq<byte>,
                         content1: seq<byte>)
    requires Holds(cs, h0, chain0, |content0|, validSize0, content0)
    requires content1 == Resize(content0, Max(|content0|, offset + |data|))
    requires |chain1| == ClustersFor(cs, |content1|)
    requires validSize1 == if offset > |content0| then offset else validSize0
    requires offset <= |content0| ==> h1 == h0 && (chain1 <= chain0 || chain0 <= chain1)
    ensures Written(cs, h1, chain1, validSize1, content1, offset, data)
         == PwriteContent(cs, h0, chain0, validSize0, content0, offset, data)
    ensures data == [] ==> content1 == PwriteContent(cs, h0, chain0, validSize0, content0, offset, data)
  {
    hide ClusterIndex, ClusterOffset, ClusterStart, ClustersFor;
    if offset > |content0| {
      WrittenWithoutGap(cs, h0, h1, chain0, chain1, content1, offset, data);
    } else {
      ClustersForOrder(cs, |content0|, |content1|);
      WrittenInOldPart(cs, h0, chain0, chain1, |content0|, validSize0, content1, offset, data);
    }
  }

  /** What a write at an offset should do to a byte sequence: pad with zeros as needed, then splice. */
  function Splice(content: seq<byte>, offset: nat, data: seq<byte>): seq<byte> {
    if data == [] && offset <= |content| then content
    else Patch(Resize(content, Max(|content|, offset + |data|)), offset, data)
  }

  /** The guard that decides whether a write may expose bytes that nobody wrote. */
  predicate LeavesGap(size: nat, validSize: nat, offset: nat, data: seq<byte>) {
    data != [] && validSize < offset <= size
  }

  /** Without a gap, exfat_generic_pwrite is the write that POSIX describes. */
  lemma PwriteSplices(cs: nat, heap: seq<seq<byte>>, chain: seq<nat>, validSize: nat, content: seq<byte>,
                      offset: nat, data: seq<byte>)
    requires Holds(cs, heap, chain, |content|, validSize, content)
    requires !LeavesGap(|content|, validSize, offset, data)
    ensures PwriteContent(cs, heap, chain, validSize, content, offset, data) == Splice(content, offset, data)
  {
    hide ClusterIndex, ClusterOffset, ClusterStart, ClustersFor;
    var content1 := Resize(content, Max(|content|, offset + |data|));
    if data != [] {
      var w := PwriteContent(cs, heap, chain, validSize, content, offset, data);
      var spliced := Patch(content1, offset, data);
      assert |w| == |spliced| == |content1|;
    }
  }

  /** With a gap, it still is everywhere but in the gap. */
  lemma PwriteOutsideGap(cs: nat, heap: seq<seq<byte>>, chain: seq<nat>, validSize: nat, content: seq<byte>,
                         offset: nat, data: seq<byte>)
    requires cs > 0 && LeavesGap(|content|, validSize, offset, data)
    ensures var w, want := PwriteContent(cs, heap, chain, validSize, content, offset, data), Splice(content, offset, data);
            |w| == |want| && forall i: nat | i < |want| && !(validSize <= i < offset) :: w[i] == want[i]
  {
    hide ByteAt;
    var size := Max(|content|, offset + |data|);
    assert |Resize(content, size)| == size && offset + |data| <= size;
    hide Resize, Written;
    PatchedBytes(Resize(content, size), offset, data);
    hide Patch;
  }

  /** With a gap it is not: for every such file there is a device content, showing readers the same file,
      for which the write makes a stale byte readable. */
  lemma PwriteExposes(cs: nat, heap: seq<seq<byte>>, chain: seq<nat>, validSize: nat, content: seq<byte>,
                      offset: nat, data: seq<byte>)
    returns (stale: seq<seq<byte>>)
    requires Holds(cs, heap, chain, |content|, validSize, content)
    requires LeavesGap(|content|, validSize, offset, data)
    requires NoDup(chain) && (forall i | 0 <= i < |chain| :: DataCluster(|heap|, chain[i]))
    requires forall i | 0 <= i < |heap| :: |heap[i]| == cs
    ensures Holds(cs, stale, chain, |content|, validSize, content)
    ensures PwriteContent(cs, stale, chain, validSize, content, offset, data) != Splice(content, offset, data)
  {
    hide ClusterIndex, ClusterOffset, ClusterStart, ClustersFor;
    var k, at := ClusterIndex(cs, validSize), ClusterOffset(cs, validSize);
    SizeCovers(cs, |content|, validSize);
    InCluster(cs, validSize, k);
    Division(cs, validSize);
    var row := chain[k] - FIRST_DATA_CLUSTER;
    assert DataCluster(|heap|, chain[k]);
    stale := heap[row := Patch(heap[row], at, [1])];
    WriteCluster(cs, heap, stale, chain, k, at, [1]);
    forall i: nat | i < |content|
      ensures content[i] == if i < validSize then ByteAt(cs, stale, chain, i) else 0
    {
      SizeCovers(cs, |content|, i);
    }
    assert content[validSize] == 0;
    assert ByteAt(cs, stale, chain, validSize) == 1;
    var w := PwriteContent(cs, stale, chain, validSize, content, offset, data);
    assert w[validSize] == 1;
    assert Splice(content, offset, data)[validSize] == 0;
  }
}
