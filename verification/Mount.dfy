// How a volume comes up: exfat_mount and rootdir_size of mount.c, and readdir of node.c over the root directory.

/** The pieces of a mount. */
module Mounts {
  import opened Basics
  import opened Words
  import opened Bitmap
  import opened ClusterMaps
  import opened Chains
  import opened ClusterMath
  import opened FileBytes
  import opened FileIO
  import Ownership
  import opened Slots
  import opened EntryLayout
  import opened DeviceMap
  import opened FileSystems
  import LittleEndian
  import Utf

  /** A chain without duplicates that is spelled out in the FAT from first to last. */
  ghost predicate FreshChain(count: nat, fat: seq<u32>, chain: seq<nat>) {
    NoDup(chain) && Spelled(count, fat, chain, false) && Terminated(fat, chain, false)
  }

  /** The chain that the FAT spells out from a cluster to an end mark. */
  ghost predicate IsChainFrom(count: nat, fat: seq<u32>, chain: seq<nat>, first: nat) {
    chain != [] && chain[0] == first && Spelled(count, fat, chain, false) && Terminated(fat, chain, false)
  }

  /** The FAT leads from each cluster to one other, so that a chain visiting a cluster twice never ends. */
  lemma {:induction false} EndedChainMoves(count: nat, fat: seq<u32>, chain: seq<nat>, first: nat, i: nat, j: nat)
    requires IsChainFrom(count, fat, chain, first) && i < j < |chain|
    ensures chain[i] != chain[j]
    decreases |chain| - j
  {
    assert fat[chain[i]] == chain[i + 1];
    if chain[i] == chain[j] && j < |chain| - 1 {
      EndedChainMoves(count, fat, chain, first, i + 1, j + 1);
    }
  }

  lemma EndedChainIsFresh(count: nat, fat: seq<u32>, chain: seq<nat>, first: nat)
    requires IsChainFrom(count, fat, chain, first)
    ensures FreshChain(count, fat, chain) && |chain| <= count
  {
    forall i, j | 0 <= i < j < |chain| ensures chain[i] != chain[j] {
      EndedChainMoves(count, fat, chain, first, i, j);
    }
    ChainFits(count, chain);
  }

  /** rootdir_size of mount.c: walk the root directory's chain in the FAT. The size is 0 exactly if the FAT holds no
      such chain: it leaves the heap, or never ends. */
  method RootdirSize(fat: seq<u32>, clusterCount: nat, clusterSize: nat, rootdirCluster: u32)
    returns (size: nat, ghost chain: seq<nat>)
    requires clusterSize > 0 && InHeap(clusterCount, fat, [])
    ensures forall c | IsChainFrom(clusterCount, fat, c, rootdirCluster) :: size == |c| * clusterSize
    ensures (!exists c :: IsChainFrom(clusterCount, fat, c, rootdirCluster)) ==> size == 0
    ensures size == |chain| * clusterSize
    ensures forall c | IsChainFrom(clusterCount, fat, c, rootdirCluster) :: c == chain
  {
    chain := [];
    var clusters, cluster := 0, rootdirCluster;
    assert Visited(clusterCount, fat, [], rootdirCluster, cluster);
    assert AllPass(clusterCount, fat, rootdirCluster, 0, rootdirCluster);
    hide Visited, IsChainFrom, AllPass;
    while true
      invariant clusters == |chain| <= clusterCount && Visited(clusterCount, fat, chain, rootdirCluster, cluster)
      invariant AllPass(clusterCount, fat, rootdirCluster, clusters, cluster)
      decreases clusterCount - clusters
    {
      if clusters == clusterCount {
        NoChainLeft(clusterCount, fat, rootdirCluster, clusters, cluster);
        return 0, [];
      }
      if !DataCluster(clusterCount, cluster) {
        NoChainLeft(clusterCount, fat, rootdirCluster, clusters, cluster);
        return 0, [];
      }
      VisitOn(clusterCount, fat, chain, rootdirCluster, cluster);
      chain := chain + [cluster];
      cluster := fat[cluster];
      clusters := clusters + 1;
      if cluster == CLUSTER_END {
        break;
      }
    }
    size := clusters * clusterSize;
    forall c | IsChainFrom(clusterCount, fat, c, rootdirCluster) ensures c == chain {
      EndedChainIsUnique(clusterCount, fat, c, chain, rootdirCluster);
    }
  }

  /** Every chain from the first cluster comes by that cluster as its n-th. */
  ghost predicate AllPass(count: nat, fat: seq<u32>, first: nat, n: nat, cluster: nat) {
    forall c | IsChainFrom(count, fat, c, first) :: n < |c| && c[n] == cluster
  }

  lemma NoChainLeft(count: nat, fat: seq<u32>, first: nat, n: nat, cluster: nat)
    requires AllPass(count, fat, first, n, cluster) && (n >= count || !DataCluster(count, cluster))
    ensures !exists c :: IsChainFrom(count, fat, c, first)
  {
    forall c | IsChainFrom(count, fat, c, first) ensures false {
      EndedChainIsFresh(count, fat, c, first);
    }
  }

  lemma VisitOn(count: nat, fat: seq<u32>, chain: seq<nat>, first: nat, cluster: nat)
    requires Visited(count, fat, chain, first, cluster) && DataCluster(count, cluster)
    requires AllPass(count, fat, first, |chain|, cluster)
    ensures Visited(count, fat, chain + [cluster], first, fat[cluster])
    ensures if fat[cluster] == CLUSTER_END then IsChainFrom(count, fat, chain + [cluster], first)
            else AllPass(count, fat, first, |chain| + 1, fat[cluster])
  {
  }

  /** The clusters visited so far, and the one that the last of them leads to. */
  ghost predicate Visited(count: nat, fat: seq<u32>, chain: seq<nat>, first: nat, next: nat) {
    && Spelled(count, fat, chain, false)
    && if chain == [] then next == first else chain[0] == first && next == fat[chain[|chain| - 1]]
  }

  lemma ChainFits(count: nat, chain: seq<nat>)
    requires NoDup(chain) && forall i | 0 <= i < |chain| :: DataCluster(count, chain[i])
    ensures |chain| <= count
  {
    CapacityIsChainAndFree(count, Elems(chain), chain);
  }

  /** Where a system entry says that its object begins, and how many bytes it has. */
  function EntryStart(entry: seq<byte>): nat
    requires |entry| == ENTRY
  {
    LittleEndian.Decode(entry[20..24])
  }

  function EntrySize(entry: seq<byte>): nat
    requires |entry| == ENTRY
  {
    LittleEndian.Decode(entry[24..32])
  }

  /** The entry of a bitmap in the heap that has a bit for each cluster. */
  predicate IsGoodBitmap(entry: seq<byte>, clusterCount: nat)
    requires |entry| == ENTRY
  {
    DataCluster(clusterCount, EntryStart(entry)) && EntrySize(entry) >= DivRoundUp(clusterCount, 8)
  }

  /** The map in memory is the bitmap that lies on the device behind a cluster. */
  ghost predicate IsLoaded(cmap: ClusterMap, cs: nat, heap: seq<seq<byte>>, size: nat, start: nat)
    requires cs > 0
    reads cmap, cmap.chunk
  {
    && cmap.Valid() && cmap.size == size && cmap.start == start && !cmap.dirty
    && |cmap.onDisk| == cmap.chunk.Length == DivRoundUp(size, WORD_BITS) && OnDevice(cs, heap, start, cmap.onDisk)
    && forall c: nat :: c in cmap.used <==> DataCluster(size, c) && DeviceBit(cs, heap, start, c - FIRST_DATA_CLUSTER)
  }

  /** readdir at a bitmap entry: the bitmap is read as far as it has bits for clusters, in whole words. */
  method LoadBitmap(cs: nat, heap: seq<seq<byte>>, size: nat, start: nat) returns (cmap: ClusterMap)
    requires cs > 0 && size + FIRST_DATA_CLUSTER <= LAST_DATA_CLUSTER + 1
    ensures fresh(cmap) && fresh(cmap.chunk) && IsLoaded(cmap, cs, heap, size, start)
  {
    hide DeviceRead, WordsOf, DeviceBit, Get;
    var n := DivRoundUp(size, WORD_BITS);
    var words := WordsOf(DeviceRead(cs, heap, start, WORD_BYTES * n), n);
    var chunk := new Word[n](i requires 0 <= i < n => words[i]);
    assert chunk[..] == words;
    ReadMap(cs, heap, start, n);
    cmap := new ClusterMap(size, start, chunk);
  }

  /** A bitmap that is flushed and loaded again has the same clusters in use, and no file changes. */
  method FlushAndLoad(fs: FileSystem) returns (cmap: ClusterMap)
    requires fs.Valid()
    modifies fs.vol`heap, fs.vol.cmap`dirty, fs.vol.cmap`onDisk
    ensures fs.Valid() && fs.State() == old(fs.State())
    ensures fresh(cmap) && cmap.Valid() && cmap.size == fs.vol.clusterCount && cmap.used == old(fs.vol.cmap.used)
  {
    hide Ownership.Partition, IsFile, OnDevice, DeviceBit, Get;
    fs.Flush();
    cmap := LoadBitmap(fs.vol.clusterSize, fs.vol.heap, fs.vol.clusterCount, fs.vol.cmap.start);
    SameUsed(fs.vol.clusterSize, fs.vol.heap, fs.vol.cmap.start, fs.vol.clusterCount, fs.vol.cmap.used, cmap.used);
  }

  lemma SameUsed(cs: nat, heap: seq<seq<byte>>, start: nat, size: nat, used: set<nat>, loaded: set<nat>)
    requires cs > 0 && used <= AllClusters(size)
    requires forall i: nat | i < size :: DeviceBit(cs, heap, start, i) <==> i + FIRST_DATA_CLUSTER in used
    requires forall c: nat :: c in loaded <==> DataCluster(size, c) && DeviceBit(cs, heap, start, c - FIRST_DATA_CLUSTER)
    ensures used == loaded
  {
    hide DeviceBit;
    forall c: nat ensures c in used <==> c in loaded {
      if DataCluster(size, c) {
        var i: nat := c - FIRST_DATA_CLUSTER;
        assert DeviceBit(cs, heap, start, i) <==> i + FIRST_DATA_CLUSTER in used;
      }
    }
  }

  const UPCASE_CHARS: nat := 0x1_0000

  /** EXFAT_UTF8_ENAME_BUFFER_MAX */
  const LABEL_BUFFER: nat := 3 * NAME_UNITS + 1

  /** The entry of an upcase table in the heap, of whole units and not too many. */
  predicate IsGoodUpcase(entry: seq<byte>, clusterCount: nat)
    requires |entry| == ENTRY
  {
    && DataCluster(clusterCount, EntryStart(entry))
    && 0 < EntrySize(entry) <= 2 * UPCASE_CHARS && EntrySize(entry) % 2 == 0
  }

  /** The entry of a label that is not too long and converts. */
  predicate IsGoodLabel(entry: Entry) {
    entry[1] <= NAME_UNITS && Utf.Utf8Of(UnitsOf(entry), LABEL_BUFFER).Ok?
  }

  /** An entry for which readdir gives up: of upcase tables it only looks at the first. */
  predicate IsBad(entries: seq<Entry>, i: nat, clusterCount: nat)
    requires i < |entries|
  {
    var e := entries[i];
    || (e[0] == ENTRY_BITMAP && !IsGoodBitmap(e, clusterCount))
    || (e[0] == ENTRY_UPCASE && HasNone(entries[..i], ENTRY_UPCASE) && !IsGoodUpcase(e, clusterCount))
    || (e[0] == ENTRY_LABEL && !IsGoodLabel(e))
  }

  predicate HasNone(entries: seq<Entry>, entryType: byte) {
    forall i | 0 <= i < |entries| :: entries[i][0] != entryType
  }

  /** What a mount asks of the root directory: it names a bitmap and an upcase table, and no system entry is bad. */
  predicate SystemIsNamed(entries: seq<Entry>, clusterCount: nat) {
    && !HasNone(entries, ENTRY_BITMAP) && !HasNone(entries, ENTRY_UPCASE)
    && forall i: nat | i < |entries| :: !IsBad(entries, i, clusterCount)
  }

  /** readdir over a root directory, as far as the system's entries are concerned: a bad one ends it, and of several
      bitmaps the last counts. */
  method ReadRootdir(cs: nat, heap: seq<seq<byte>>, clusterCount: nat, entries: seq<Entry>) returns (cmap: ClusterMap?)
    requires cs > 0 && clusterCount + FIRST_DATA_CLUSTER <= LAST_DATA_CLUSTER + 1
    ensures cmap == null <==> !SystemIsNamed(entries, clusterCount)
    ensures cmap != null ==> fresh(cmap) && fresh(cmap.chunk)
    ensures cmap != null ==>
              exists i :: 0 <= i < |entries| && entries[i][0] == ENTRY_BITMAP
                       && IsLoaded(cmap, cs, heap, clusterCount, EntryStart(entries[i]))
                       && forall j | i < j < |entries| :: entries[j][0] != ENTRY_BITMAP
  {
    hide IsLoaded, IsGoodBitmap, IsGoodUpcase, Utf.Utf8Of, UnitsOf, EntryStart;
    cmap := null;
    var hasUpcase := false;
    ghost var last: nat := 0;
    for i := 0 to |entries|
      invariant forall j: nat | j < i :: !IsBad(entries, j, clusterCount)
      invariant cmap == null <==> HasNone(entries[..i], ENTRY_BITMAP)
      invariant !hasUpcase <==> HasNone(entries[..i], ENTRY_UPCASE)
      invariant cmap != null ==> fresh(cmap) && fresh(cmap.chunk) && last < i && entries[last][0] == ENTRY_BITMAP
      invariant cmap != null ==> IsLoaded(cmap, cs, heap, clusterCount, EntryStart(entries[last]))
      invariant cmap != null ==> forall j | last < j < i :: entries[j][0] != ENTRY_BITMAP
    {
      var entry := entries[i];
      NoneOfNext(entries, i);
      if entry[0] == ENTRY_UPCASE && !hasUpcase {
        if !IsGoodUpcase(entry, clusterCount) {
          assert IsBad(entries, i, clusterCount);
          return null;
        }
        hasUpcase := true;
      } else if entry[0] == ENTRY_BITMAP {
        if !IsGoodBitmap(entry, clusterCount) {
          assert IsBad(entries, i, clusterCount);
          return null;
        }
        cmap := LoadBitmap(cs, heap, clusterCount, EntryStart(entry));
        last := i;
      } else if entry[0] == ENTRY_LABEL {
        var converts := LabelConverts(entry);
        if entry[1] > NAME_UNITS || !converts {
          assert IsBad(entries, i, clusterCount);
          return null;
        }
      }
    }
    assert entries[..|entries|] == entries;
    if !hasUpcase {
      cmap := null;
    }
  }

  method LabelConverts(entry: Entry) returns (ok: bool)
    ensures ok <==> Utf.Utf8Of(UnitsOf(entry), LABEL_BUFFER).Ok?
  {
    hide Utf.Utf8Of, UnitsOf;
    var buffer := new byte[LABEL_BUFFER];
    var r := Utf.Utf16ToUtf8(buffer, UnitsOf(entry));
    ok := r.Ok?;
  }

  lemma NoneOfNext(entries: seq<Entry>, i: nat)
    requires i < |entries|
    ensures forall t: byte :: HasNone(entries[..i + 1], t) <==> HasNone(entries[..i], t) && entries[i][0] != t
  {
    assert entries[..i + 1] == entries[..i] + [entries[i]];
  }

  /** A chain that ends is determined by its first cluster. */
  lemma {:induction false} EndedChainIsUnique(count: nat, fat: seq<u32>, a: seq<nat>, b: seq<nat>, first: nat)
    requires IsChainFrom(count, fat, a, first) && IsChainFrom(count, fat, b, first)
    ensures a == b
  {
    SamePrefix(count, fat, a, b, first, if |a| < |b| then |a| else |b|);
    if |a| < |b| {
      LinkAt(count, fat, b, |a| - 1);
    } else if |b| < |a| {
      LinkAt(count, fat, a, |b| - 1);
    }
  }

  lemma {:induction false} SamePrefix(count: nat, fat: seq<u32>, a: seq<nat>, b: seq<nat>, first: nat, n: nat)
    requires IsChainFrom(count, fat, a, first) && IsChainFrom(count, fat, b, first) && n <= |a| && n <= |b|
    ensures a[..n] == b[..n]
  {
    if n > 1 {
      SamePrefix(count, fat, a, b, first, n - 1);
      assert a[n - 2] == a[..n - 1][n - 2] == b[..n - 1][n - 2] == b[n - 2];
      LinkAt(count, fat, a, n - 2);
      LinkAt(count, fat, b, n - 2);
    }
  }

  lemma LinkAt(count: nat, fat: seq<u32>, chain: seq<nat>, i: nat)
    requires Spelled(count, fat, chain, false) && i + 1 < |chain|
    ensures chain[i] < |fat| && fat[chain[i]] == chain[i + 1] && DataCluster(count, chain[i + 1])
  {
  }

  /** exfat_generic_pread of all of the root directory, cluster by cluster. */
  method ReadRoot(cs: nat, fat: seq<u32>, heap: seq<seq<byte>>, first: u32, ghost chain: seq<nat>) returns (bytes: seq<byte>)
    requires cs > 0 && IsChainFrom(|heap|, fat, chain, first) && forall i | 0 <= i < |heap| :: |heap[i]| == cs
    ensures |bytes| == ClusterStart(cs, |chain|) && forall j: nat | j < |bytes| :: bytes[j] == ByteAt(cs, heap, chain, j)
  {
    hide ClusterIndex, ClusterOffset, ClusterStart;
    bytes := [];
    var cluster := first;
    ghost var k: nat := 0;
    StartOfFirst(cs);
    EndedChainIsFresh(|heap|, fat, chain, first);
    while true
      invariant k < |chain| && cluster == chain[k] && |bytes| == ClusterStart(cs, k)
      invariant forall j: nat | j < |bytes| :: bytes[j] == ByteAt(cs, heap, chain, j)
      decreases |chain| - k
    {
      RowBytes(cs, heap, chain, k);
      NextStart(cs, k);
      if k + 1 < |chain| { LinkAt(|heap|, fat, chain, k); }
      bytes := bytes + heap[cluster - FIRST_DATA_CLUSTER];
      cluster := fat[cluster];
      k := k + 1;
      if cluster == CLUSTER_END {
        break;
      }
    }
  }

  lemma RowBytes(cs: nat, heap: seq<seq<byte>>, chain: seq<nat>, k: nat)
    requires cs > 0 && k < |chain| && DataCluster(|heap|, chain[k]) && |heap[chain[k] - FIRST_DATA_CLUSTER]| == cs
    ensures forall j: nat | ClusterStart(cs, k) <= j < ClusterStart(cs, k) + cs ::
              ByteAt(cs, heap, chain, j) == heap[chain[k] - FIRST_DATA_CLUSTER][j - ClusterStart(cs, k)]
  {
    hide ClusterIndex, ClusterOffset, ClusterStart;
    forall j: nat | ClusterStart(cs, k) <= j < ClusterStart(cs, k) + cs
      ensures ByteAt(cs, heap, chain, j) == heap[chain[k] - FIRST_DATA_CLUSTER][j - ClusterStart(cs, k)]
    {
      InCluster(cs, j, k);
    }
  }
}
