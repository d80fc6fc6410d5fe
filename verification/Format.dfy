// What mkfs writes to the FAT, the allocation bitmap and the root directory, and what exfat_mount
// makes of it.

module Formatter {
  import opened Basics
  import opened Words
  import opened Bitmap
  import opened ClusterMaps
  import opened Chains
  import opened ClusterMath
  import opened FileBytes
  import opened Volumes
  import opened FileIO
  import opened Ownership
  import opened Quota
  import opened FileSystems
  import opened DeviceMap
  import opened Geometry
  import opened Slots
  import opened EntryLayout
  import opened EntrySets
  import opened Timestamps
  import opened Directories
  import opened Listings
  import opened Catalogs
  import opened Mounts
  import opened Images
  import opened RootVolumes
  import opened Remounts
  import LittleEndian
  import Rounding

  /** fat_write_entries: one chain of consecutive clusters, at least one. */
  method FatWriteEntries(fat: array<u32>, cluster: nat, count: nat) returns (next: nat)
    requires cluster + count < 0xFFFF_FFFF && cluster + Max(count, 1) <= fat.Length
    modifies fat
    ensures next == cluster + Max(count, 1)
    ensures forall c | 0 <= c < fat.Length ::
              fat[c] == if cluster <= c < next - 1 then c + 1 else if c == next - 1 then CLUSTER_END else old(fat[c])
  {
    var end := cluster + count;
    var c := cluster;
    while c < end - 1
      invariant cluster <= c <= cluster + Max(count, 1) - 1
      invariant forall d | 0 <= d < fat.Length :: fat[d] == if cluster <= d < c then d + 1 else old(fat[d])
    {
      fat[c] := c + 1;
      c := c + 1;
    }
    fat[c] := CLUSTER_END;
    return c + 1;
  }

  ghost predicate RunWritten(fat: seq<u32>, first: nat, count: nat) {
    && 0 < count && first + count <= |fat| && fat[first + count - 1] == CLUSTER_END
    && forall c | first <= c < first + count - 1 :: fat[c] == c + 1
  }

  lemma RunIsFresh(size: nat, fat: seq<u32>, first: nat, count: nat)
    requires RunWritten(fat, first, count) && FIRST_DATA_CLUSTER <= first && first + count <= size + FIRST_DATA_CLUSTER
    requires size + FIRST_DATA_CLUSTER <= LAST_DATA_CLUSTER + 1 && size + FIRST_DATA_CLUSTER <= |fat|
    ensures FreshChain(size, fat, RunOf(first, count))
  {
  }

  const MEDIA_DESCRIPTOR: u32 := 0xFFFF_FFF8
  const MEDIA_END: u32 := 0xFFFF_FFFF

  /** fat_write: the media entries, then the chains of the bitmap, the upcase table and the root directory. */
  method FatWrite(fat: array<u32>, a: nat, u: nat, r: nat)
    requires a > 0 && u > 0 && r > 0 && 2 + a + u + r <= fat.Length && 2 + a + u + r < 0xFFFF_FFFF
    modifies fat
    ensures RunWritten(fat[..], 2, a) && RunWritten(fat[..], 2 + a, u) && RunWritten(fat[..], 2 + a + u, r)
    ensures fat[0] == MEDIA_DESCRIPTOR && fat[1] == MEDIA_END
    ensures forall c | 2 + a + u + r <= c < fat.Length :: fat[c] == old(fat[c])
  {
    fat[0] := MEDIA_DESCRIPTOR;
    fat[1] := MEDIA_END;
    var c := 2;
    c := FatWriteEntries(fat, c, a);
    c := FatWriteEntries(fat, c, u);
    c := FatWriteEntries(fat, c, r);
  }

  /** A bitmap of which the first bits are set, as cbm_write lays it out in memory. */
  method FirstBits(allocatedClusters: nat) returns (bitmap: array<Word>)
    ensures fresh(bitmap) && bitmap.Length == DivRoundUp(DivRoundUp(allocatedClusters, 8) * 8, WORD_BITS)
    ensures forall i: nat | i < bitmap.Length * WORD_BITS :: Get(bitmap[..], i) <==> i < allocatedClusters
  {
    var bitmapSize := DivRoundUp(allocatedClusters, 8) * 8;
    bitmap := ClearBitmap(DivRoundUp(bitmapSize, WORD_BITS));
    var i := 0;
    while i < bitmapSize
      invariant i <= bitmapSize
      invariant forall j: nat | j < bitmap.Length * WORD_BITS :: Get(bitmap[..], j) <==> j < Min(i, allocatedClusters)
    {
      if i < allocatedClusters {
        Set(bitmap, i);
      }
      i := i + 1;
    }
  }

  method ClearBitmap(words: nat) returns (bitmap: array<Word>)
    ensures fresh(bitmap) && bitmap.Length == words
    ensures forall i: nat | i < bitmap.Length * WORD_BITS :: !Get(bitmap[..], i)
  {
    bitmap := new Word[words](_ => 0);
    forall i: nat | i < bitmap.Length * WORD_BITS
      ensures !Get(bitmap[..], i)
    {
      ZeroBits(i % WORD_BITS);
    }
  }

  /** erase and cbm_write, of a bitmap of `size` bytes: on the device exactly the bits of allocated clusters are
      set, and no cluster but the bitmap's changes. */
  method CbmWrite(cs: nat, heap: seq<seq<byte>>, start: nat, size: nat, allocatedClusters: nat)
    returns (after: seq<seq<byte>>)
    requires cs > 0 && (forall i | 0 <= i < |heap| :: |heap[i]| == cs) && allocatedClusters <= 8 * size
    requires FIRST_DATA_CLUSTER <= start && start + ClustersFor(cs, size) <= |heap| + FIRST_DATA_CLUSTER
    ensures |after| == |heap| && forall i | 0 <= i < |after| :: |after[i]| == cs
    ensures forall k: nat | k < 8 * size :: DeviceBit(cs, after, start, k) <==> k < allocatedClusters
    ensures forall c: nat | DataCluster(|heap|, c) && c !in Extent(cs, start, size) ::
              after[c - FIRST_DATA_CLUSTER] == heap[c - FIRST_DATA_CLUSTER]
  {
    hide DeviceWrite, ClustersFor, DivRoundUp, Get, DeviceBit, BytesOf, Extent;
    after := DeviceWrite(cs, heap, start, Zeros(size));
    var bitmap := FirstBits(allocatedClusters);
    FirstBytesFit(allocatedClusters, bitmap.Length, size);
    CbmBits(cs, heap, start, size, bitmap[..], DivRoundUp(allocatedClusters, 8), allocatedClusters);
    CbmRows(cs, heap, start, size, BytesOf(bitmap[..])[..DivRoundUp(allocatedClusters, 8)]);
    after := DeviceWrite(cs, after, start, BytesOf(bitmap[..])[..DivRoundUp(allocatedClusters, 8)]);
  }

  lemma FirstBytesFit(allocatedClusters: nat, words: nat, size: nat)
    requires words == DivRoundUp(DivRoundUp(allocatedClusters, 8) * 8, WORD_BITS) && allocatedClusters <= 8 * size
    ensures DivRoundUp(allocatedClusters, 8) <= WORD_BYTES * words
            && allocatedClusters <= 8 * DivRoundUp(allocatedClusters, 8)
    ensures DivRoundUp(allocatedClusters, 8) <= size
  {
  }

  lemma CbmBits(cs: nat, heap: seq<seq<byte>>, start: nat, size: nat, words: seq<Word>, n: nat, allocatedClusters: nat)
    requires cs > 0 && forall i | 0 <= i < |heap| :: |heap[i]| == cs
    requires FIRST_DATA_CLUSTER <= start && start + ClustersFor(cs, size) <= |heap| + FIRST_DATA_CLUSTER
    requires n <= WORD_BYTES * |words| && n <= size && allocatedClusters <= 8 * n
    requires forall i: nat | i < |words| * WORD_BITS :: Get(words, i) <==> i < allocatedClusters
    ensures var after := DeviceWrite(cs, DeviceWrite(cs, heap, start, Zeros(size)), start, BytesOf(words)[..n]);
            forall k: nat | k < 8 * size :: DeviceBit(cs, after, start, k) <==> k < allocatedClusters
  {
    hide DeviceWrite, ClustersFor, Get, BytesOf, Zeros, ClusterIndex, Bit;
    var erased := DeviceWrite(cs, heap, start, Zeros(size));
    var after := DeviceWrite(cs, erased, start, BytesOf(words)[..n]);
    forall k: nat | k < 8 * size
      ensures DeviceBit(cs, after, start, k) <==> k < allocatedClusters
    {
      SizeCovers(cs, size, k / 8);
      WrittenByte(cs, heap, start, Zeros(size), k / 8);
      WrittenByte(cs, erased, start, BytesOf(words)[..n], k / 8);
      if k / 8 < n {
        BitOfWords(words, k);
      } else {
        ZeroBits(k % 8);
      }
    }
  }

  lemma CbmRows(cs: nat, heap: seq<seq<byte>>, start: nat, size: nat, bytes: seq<byte>)
    requires cs > 0 && |bytes| <= size
    ensures forall c: nat | DataCluster(|heap|, c) && c !in Extent(cs, start, size) ::
              DeviceWrite(cs, DeviceWrite(cs, heap, start, Zeros(size)), start, bytes)[c - FIRST_DATA_CLUSTER]
              == heap[c - FIRST_DATA_CLUSTER]
  {
    hide DeviceWrite, ClustersFor, Extent;
    var erased := DeviceWrite(cs, heap, start, Zeros(size));
    ClustersForOrder(cs, |bytes|, size);
    ExtentGrows(cs, start, |bytes|, size);
    forall c: nat | DataCluster(|heap|, c) && c !in Extent(cs, start, size)
      ensures DeviceWrite(cs, erased, start, bytes)[c - FIRST_DATA_CLUSTER] == heap[c - FIRST_DATA_CLUSTER]
    {
      WriteStaysInside(cs, heap, start, Zeros(size), c);
      WriteStaysInside(cs, erased, start, bytes, c);
    }
  }

  /** init_bitmap_entry and init_upcase_entry: 20 bytes, then where the object starts and its size in bytes. */
  function SystemEntry(head: seq<byte>, startCluster: nat, size: nat): (entry: seq<byte>)
    requires |head| == 20
    ensures |entry| == 32
  {
    head + LittleEndian.Encode(startCluster, 4) + LittleEndian.Encode(size, 8)
  }

  function BitmapHead(): (head: seq<byte>)
    ensures |head| == 20
  {
    [ENTRY_BITMAP] + Zeros(19)
  }

  function UpcaseHead(checksum: u32): (head: seq<byte>)
    ensures |head| == 20
  {
    [ENTRY_UPCASE] + Zeros(3) + LittleEndian.Encode(checksum, 4) + Zeros(12)
  }

  lemma SystemEntryReadsBack(head: seq<byte>, startCluster: u32, size: nat)
    requires |head| == 20 && size < 0x1_0000_0000_0000_0000
    ensures var entry := SystemEntry(head, startCluster, size);
            EntryStart(entry) == startCluster && EntrySize(entry) == size && (forall i | 0 <= i < 20 :: entry[i] == head[i])
  {
    var entry := SystemEntry(head, startCluster, size);
    LittleEndian.Widths();
    LittleEndian.RoundTrip(startCluster, 4);
    LittleEndian.RoundTrip(size, 8);
    assert entry[20..24] == LittleEndian.Encode(startCluster, 4);
    assert entry[24..32] == LittleEndian.Encode(size, 8);
  }

  /** A fresh volume's clusters: the first a + u to the system, the next to the root directory. */
  lemma FreshPartition(count: nat, a: nat, u: nat, used: set<nat>)
    requires a + u + 1 <= count
    requires forall c: nat :: c in used <==> DataCluster(count, c) && c - FIRST_DATA_CLUSTER < a + u + 1
    ensures Partition(used, Elems(RunOf(2, a + u)), [RunOf(2 + a + u, 1)])
    ensures used == Elems(RunOf(2, a + u + 1))
  {
    FreshUsed(count, a + u + 1, used);
    var chains := [RunOf(2 + a + u, 1)];
    forall c: nat
      ensures c in used <==> c in Elems(RunOf(2, a + u)) || InSome(chains, c)
      ensures c in Elems(RunOf(2, a + u)) ==> c !in Elems(chains[0])
    {
      RunElems(2, a + u, c);
      RunElems(2 + a + u, 1, c);
      if c in Elems(chains[0]) { assert InSome(chains, c); }
    }
  }

  lemma FreshUsed(count: nat, n: nat, used: set<nat>)
    requires n <= count && forall c: nat :: c in used <==> DataCluster(count, c) && c - FIRST_DATA_CLUSTER < n
    ensures used == Elems(RunOf(FIRST_DATA_CLUSTER, n))
  {
    hide RunOf, Elems;
    forall c: nat
      ensures c in used <==> c in Elems(RunOf(FIRST_DATA_CLUSTER, n))
    {
      RunElems(FIRST_DATA_CLUSTER, n, c);
    }
  }

  /** The first cluster of the root directory as rootdir_write leaves it on the erased heap. */
  function RootRow(p: Params, labelEntry: seq<byte>, checksum: u32, upcaseStart: u32): (row: seq<byte>)
    requires p.Ok() && FrontClusters(p) <= p.ClustersMax() && |labelEntry| == 32 && p.ClusterSize() >= 96
    ensures |row| == p.ClusterSize()
    ensures row[..32] == labelEntry
    ensures row[32..64] == SystemEntry(BitmapHead(), FIRST_DATA_CLUSTER, BitmapSize(p))
    ensures row[64..96] == SystemEntry(UpcaseHead(checksum), upcaseStart, UPCASE_TABLE_SIZE)
    ensures row[32] == ENTRY_BITMAP && row[64] == ENTRY_UPCASE && forall i | 96 <= i < |row| :: row[i] == 0
  {
    labelEntry + SystemEntry(BitmapHead(), FIRST_DATA_CLUSTER, BitmapSize(p)) +
    SystemEntry(UpcaseHead(checksum), upcaseStart, UPCASE_TABLE_SIZE) + Zeros(p.ClusterSize() - 96)
  }

  /** The clusters of the object that a system entry names. */
  function ObjectChain(p: Params, entry: seq<byte>): (chain: seq<nat>)
    requires p.Ok() && |entry| == 32
  {
    RunOf(EntryStart(entry), ClustersOf(p, EntrySize(entry)))
  }

  /** The numbers that tie a fresh volume together: what the superblock and the root directory's entries
      say is where the chains in the FAT begin and how long they are, and these chains are the system's
      clusters. */
  ghost predicate WellTied(p: Params, fat: seq<u32>, system: set<nat>, row: seq<byte>)
    requires p.Ok() && FrontClusters(p) <= p.ClustersMax() && |row| >= 96
  {
    var count, rootdirCluster := InitSb(p).clusterCount, InitSb(p).rootdirCluster;
    var bitmap, upcase := ObjectChain(p, row[32..64]), ObjectChain(p, row[64..96]);
    && count >= 0 && rootdirCluster >= 0
    && FreshChain(count, fat, bitmap) && FreshChain(count, fat, upcase)
    && FreshChain(count, fat, RunOf(rootdirCluster, 1))
    && system == Elems(bitmap) + Elems(upcase)
  }

  /** Two runs, one behind the other. */
  lemma RunElemsAppend(first: nat, a: nat, u: nat)
    ensures Elems(RunOf(first, a + u)) == Elems(RunOf(first, a)) + Elems(RunOf(first + a, u))
  {
    hide RunOf, Elems;
    var all, front, back := Elems(RunOf(first, a + u)), Elems(RunOf(first, a)), Elems(RunOf(first + a, u));
    forall c: nat
      ensures c in all <==> c in front || c in back
    {
      RunElems(first, a + u, c);
      RunElems(first, a, c);
      RunElems(first + a, u, c);
    }
  }

  /** An entry for a label that converts, or for the place of one. */
  predicate IsLabel(entry: seq<byte>) {
    |entry| == ENTRY && entry[0] % VALID == ENTRY_LABEL % VALID && (entry[0] == ENTRY_LABEL ==> IsGoodLabel(entry))
  }

  /** The root directory's entries: a label or none, one bitmap, the upcase table, and nothing else. */
  ghost predicate IsFreshRoot(entries: seq<Entry>, size: nat, upcaseStart: nat) {
    && |entries| >= 16 && IsLabel(entries[0])
    && entries[1][0] == ENTRY_BITMAP && EntryStart(entries[1]) == FIRST_DATA_CLUSTER && EntrySize(entries[1]) == size
    && entries[2][0] == ENTRY_UPCASE && EntryStart(entries[2]) == upcaseStart && EntrySize(entries[2]) == UPCASE_TABLE_SIZE
    && forall i | 3 <= i < |entries| :: entries[i][0] == 0
  }

  lemma RowIsFreshRoot(p: Params, labelEntry: seq<byte>, checksum: u32, upcaseStart: u32, n: nat)
    requires p.Ok() && EndBefore(p, |OBJECTS|) <= p.volumeSize && IsLabel(labelEntry)
    requires FrontClusters(p) <= p.ClustersMax() && p.ClusterSize() == ENTRY * n && n >= 16
    requires BitmapSize(p) < 0x1_0000_0000
    ensures IsFreshRoot(Cut(RootRow(p, labelEntry, checksum, upcaseStart), n), BitmapSize(p), upcaseStart)
  {
    hide FrontClusters, Params.ClustersMax, Params.ClusterSize, Params.Ok, EndBefore, BitmapSize, SystemEntry, EntryStart,
      EntrySize, RootRow;
    SystemEntryReadsBack(BitmapHead(), FIRST_DATA_CLUSTER, BitmapSize(p));
    SystemEntryReadsBack(UpcaseHead(checksum), upcaseStart, UPCASE_TABLE_SIZE);
    var row := RootRow(p, labelEntry, checksum, upcaseStart);
    assert Cut(row, n)[0] == row[..32] && Cut(row, n)[1] == row[32..64] && Cut(row, n)[2] == row[64..96];
    forall i | 0 <= i < n ensures Cut(row, n)[i][0] == row[ENTRY * i] {
    }
  }

  /** A root directory without files is in order. */
  lemma FreshRootIsTidy(entries: seq<Entry>, size: nat, upcaseStart: nat)
    requires IsFreshRoot(entries, size, upcaseStart)
    ensures IsTidy(TypesOf(entries), [], true, |entries|) && OthersAreSystem(TypesOf(entries), [])
    ensures forall i | 0 <= i < |entries| :: entries[i][0] == ENTRY_BITMAP <==> i == 1
  {
    hide EntryStart, EntrySize, IsGoodLabel;
  }

  /** And its system entries are good. */
  lemma FreshSystem(entries: seq<Entry>, clusterCount: nat, upcaseStart: nat)
    requires IsFreshRoot(entries, DivRoundUp(clusterCount, 8), upcaseStart)
    requires DataCluster(clusterCount, FIRST_DATA_CLUSTER) && DataCluster(clusterCount, upcaseStart)
    ensures SystemIsNamed(entries, clusterCount) && |entries| > 1 && EntryStart(entries[1]) == FIRST_DATA_CLUSTER
  {
    hide EntryStart, EntrySize, IsGoodLabel, DivRoundUp;
    assert entries[1][0] == ENTRY_BITMAP && entries[2][0] == ENTRY_UPCASE;
    forall i: nat | i < |entries| ensures !IsBad(entries, i, clusterCount) {
    }
  }

  lemma FreshSizes(p: Params)
    requires p.Ok() && EndBefore(p, |OBJECTS|) <= p.volumeSize
    ensures FrontClusters(p) <= p.ClustersMax() && p.ClusterSize() >= 512
    ensures ClustersOf(p, BitmapSize(p)) > 0 && ClustersOf(p, UPCASE_TABLE_SIZE) > 0
    ensures 0 < AllocatedClusters(p) <= InitSb(p).clusterCount == p.ClustersMax() - FrontClusters(p)
    ensures InitSb(p).clusterCount + FIRST_DATA_CLUSTER <= LAST_DATA_CLUSTER + 1
    ensures BitmapSize(p) < 0x1_0000_0000 && BitmapSize(p) == DivRoundUp(InitSb(p).clusterCount, 8)
    ensures ClustersOf(p, BitmapSize(p)) == ClustersFor(p.ClusterSize(), BitmapSize(p))
  {
    GeometryAgrees(p);
    HeapStartAgrees(p);
    FrontLayout(p);
    SizeCovers(p.ClusterSize(), BitmapSize(p), 0);
    SizeCovers(p.ClusterSize(), UPCASE_TABLE_SIZE, 0);
    ProductOrder(1, p.sectorsPerCluster, p.sectorSize);
  }

  lemma WellTiedVolume(p: Params, fat: seq<u32>, row: seq<byte>, labelEntry: seq<byte>, checksum: u32)
    requires p.Ok() && EndBefore(p, |OBJECTS|) <= p.volumeSize && |labelEntry| == 32
    requires FrontClusters(p) <= p.ClustersMax() && p.ClusterSize() >= 96
    requires var a, u := ClustersOf(p, BitmapSize(p)), ClustersOf(p, UPCASE_TABLE_SIZE);
             && RunWritten(fat, 2, a) && RunWritten(fat, 2 + a, u) && RunWritten(fat, 2 + a + u, 1)
             && 2 + a < 0x1_0000_0000 && row == RootRow(p, labelEntry, checksum, 2 + a)
    requires InitSb(p).clusterCount + FIRST_DATA_CLUSTER <= |fat|
    ensures WellTied(p, fat, Elems(RunOf(2, ClustersOf(p, BitmapSize(p)) + ClustersOf(p, UPCASE_TABLE_SIZE))), row)
  {
    hide RunOf, Elems, Params.ClusterSize, Params.ClustersMax, DivRoundUp, FrontClusters, InitSb, Params.Ok, RootRow,
      SystemEntry, EntryStart, EntrySize, FreshChain, RunWritten, EndBefore, SizeAt;
    FreshSizes(p);
    GeometryAgrees(p);
    var count := InitSb(p).clusterCount;
    var a, u := ClustersOf(p, BitmapSize(p)), ClustersOf(p, UPCASE_TABLE_SIZE);
    RunIsFresh(count, fat, 2, a);
    RunIsFresh(count, fat, 2 + a, u);
    RunIsFresh(count, fat, 2 + a + u, 1);
    SystemEntryReadsBack(BitmapHead(), FIRST_DATA_CLUSTER, BitmapSize(p));
    SystemEntryReadsBack(UpcaseHead(checksum), 2 + a, UPCASE_TABLE_SIZE);
    RunElemsAppend(2, a, u);
  }

  /** What is on the device behind mkfs. */
  ghost function FreshImage(a: nat, u: nat, row: seq<byte>): Image
    requires |row| % ENTRY == 0
  {
    Image(Elems(RunOf(FIRST_DATA_CLUSTER, a + u)), RunOf(FIRST_DATA_CLUSTER + a + u, 1), Cut(row, |row| / ENTRY), 1,
          [], [], [])
  }

  /** The sizes and the parts that mkfs gives to a fresh volume. */
  ghost predicate IsFresh(dev: Device, a: nat, u: nat, row: seq<byte>) {
    var cs, heap := dev.clusterSize, dev.heap;
    && Shaped(|heap|, cs, dev.fat, heap) && |heap| + FIRST_DATA_CLUSTER <= LAST_DATA_CLUSTER + 1
    && |heap| * cs < 0x1_0000_0000_0000_0000 && cs % 512 == 0 && a + u + 1 <= |heap| && heap[a + u] == row
    && a == ClustersFor(cs, DivRoundUp(|heap|, 8)) && dev.rootdirCluster == FIRST_DATA_CLUSTER + a + u
    && |row| % ENTRY == 0 && IsFreshRoot(Cut(row, |row| / ENTRY), DivRoundUp(|heap|, 8), FIRST_DATA_CLUSTER + a)
    && FreshChain(|heap|, dev.fat, RunOf(FIRST_DATA_CLUSTER + a + u, 1))
    && forall i: nat | i < |heap| :: DeviceBit(cs, heap, FIRST_DATA_CLUSTER, i) <==> i < a + u + 1
  }

  lemma FreshHoldsRoot(dev: Device, a: nat, u: nat, row: seq<byte>, timezone: int)
    requires IsFresh(dev, a, u, row)
    ensures HoldsRoot(dev, FreshImage(a, u, row), timezone)
  {
    hide IsTidy, OthersAreSystem, ClustersFor, DivRoundUp, DeviceBit, EntryStart, EntrySize, IsFreshRoot, Flat, Cut, ByteAt,
      Elems, TypesOf;
    var cs, n := dev.clusterSize, |row| / ENTRY;
    FreshRootIsTidy(Cut(row, n), DivRoundUp(|dev.heap|, 8), FIRST_DATA_CLUSTER + a);
    FlatOfCut(row, n);
    RootHolds(cs, dev.heap, dev.rootdirCluster);
    assert RunOf(FIRST_DATA_CLUSTER + a + u, 1) == [dev.rootdirCluster];
  }

  lemma FreshNamesMap(dev: Device, a: nat, u: nat, row: seq<byte>)
    requires IsFresh(dev, a, u, row)
    ensures NamesMap(dev, FreshImage(a, u, row))
  {
    hide IsFreshRoot, ClustersFor, DivRoundUp, DeviceBit, EntryStart, Cut, Elems, RunOf, FreshChain, NamesMap;
    FreshImageNamesMap(dev, a, u, FreshImage(a, u, row));
  }

  lemma FreshImageNamesMap(dev: Device, a: nat, u: nat, im: Image)
    requires dev.clusterSize > 0 && dev.clusterSize % 8 == 0 && a == ClustersFor(dev.clusterSize, DivRoundUp(|dev.heap|, 8))
    requires a + u + 1 <= |dev.heap| && |dev.heap| + FIRST_DATA_CLUSTER <= LAST_DATA_CLUSTER + 1
    requires IsFreshRoot(im.entries, DivRoundUp(|dev.heap|, 8), FIRST_DATA_CLUSTER + a)
    requires im.mapAt == 1 && im.system == Elems(RunOf(FIRST_DATA_CLUSTER, a + u))
    ensures NamesMap(dev, im)
  {
    hide IsTidy, OthersAreSystem, ClustersFor, DivRoundUp, EntryStart, Elems, RunOf, Extent, SystemIsNamed, IsFreshRoot;
    FreshRootIsTidy(im.entries, DivRoundUp(|dev.heap|, 8), FIRST_DATA_CLUSTER + a);
    FreshSystem(im.entries, |dev.heap|, FIRST_DATA_CLUSTER + a);
    MapFits(dev.clusterSize, |dev.heap|, a, u);
  }

  /** A volume fresh from mkfs is in order, and has no files. */
  lemma FreshIsImage(dev: Device, a: nat, u: nat, row: seq<byte>, timezone: int)
    requires IsFresh(dev, a, u, row)
    ensures |row| % ENTRY == 0 && |row| / ENTRY > 1 && dev.clusterSize > 0
    ensures IsImage(dev, FreshImage(a, u, row), timezone)
    ensures EntryStart(Cut(row, |row| / ENTRY)[1]) == FIRST_DATA_CLUSTER
    ensures UsedOnDevice(dev, FIRST_DATA_CLUSTER) == Elems(RunOf(FIRST_DATA_CLUSTER, a + u + 1))
  {
    FreshHoldsRoot(dev, a, u, row, timezone);
    FreshNamesMap(dev, a, u, row);
    FreshPartition(|dev.heap|, a, u, UsedOnDevice(dev, FIRST_DATA_CLUSTER)) by {
      hide ClustersFor, DivRoundUp, DeviceBit, EntryStart, EntrySize, IsFreshRoot, Cut, FreshChain, Shaped;
    }
    hide HoldsRoot, NamesMap, ClustersFor, DivRoundUp, DeviceBit, EntryStart, EntrySize, Cut, Elems, RunOf, FreshChain,
      Partition, UsedOnDevice, Extent;
    assert [RunOf(FIRST_DATA_CLUSTER + a + u, 1)] == [RunOf(FIRST_DATA_CLUSTER + a + u, 1)] + [];
  }

  /** Write the FAT, the bitmap and the root directory of a volume whose sizes are settled. */
  method Create(cs: nat, heap0: seq<seq<byte>>, fatEntries: nat, a: nat, u: nat, row: seq<byte>) returns (dev: Device)
    requires cs == |row| > 0 && cs % 512 == 0 && (forall i | 0 <= i < |heap0| :: |heap0[i]| == cs)
    requires a == ClustersFor(cs, DivRoundUp(|heap0|, 8))
    requires IsFreshRoot(Cut(row, cs / ENTRY), DivRoundUp(|heap0|, 8), FIRST_DATA_CLUSTER + a)
    requires a > 0 && u > 0 && a + u + 1 <= |heap0| && |heap0| + FIRST_DATA_CLUSTER <= LAST_DATA_CLUSTER + 1
    requires |heap0| + FIRST_DATA_CLUSTER <= fatEntries && |heap0| * cs < 0x1_0000_0000_0000_0000
    ensures IsFresh(dev, a, u, row) && dev.clusterSize == cs && |dev.heap| == |heap0| && |dev.fat| == fatEntries
    ensures dev.rootdirCluster == 2 + a + u
    ensures RunWritten(dev.fat, 2, a) && RunWritten(dev.fat, 2 + a, u) && RunWritten(dev.fat, 2 + a + u, 1)
  {
    hide IsFreshRoot, Cut, RunWritten, FreshChain, ClustersFor, DivRoundUp, DeviceBit, Extent;
    var entries := new u32[fatEntries](_ => 0);
    FatWrite(entries, a, u, 1);
    var fat := entries[..];
    RunIsFresh(|heap0|, fat, 2 + a + u, 1);
    var heap := CreateHeap(cs, heap0, a, u, row);
    dev := Device(cs, fat, heap, FIRST_DATA_CLUSTER + a + u);
  }

  /** The bitmap, and the root directory behind it. */
  method CreateHeap(cs: nat, heap0: seq<seq<byte>>, a: nat, u: nat, row: seq<byte>) returns (heap: seq<seq<byte>>)
    requires cs == |row| > 0 && (forall i | 0 <= i < |heap0| :: |heap0[i]| == cs) && a + u + 1 <= |heap0|
    requires a == ClustersFor(cs, DivRoundUp(|heap0|, 8))
    ensures |heap| == |heap0| && (forall i | 0 <= i < |heap| :: |heap[i]| == cs) && heap[a + u] == row
    ensures forall i: nat | i < |heap| :: DeviceBit(cs, heap, FIRST_DATA_CLUSTER, i) <==> i < a + u + 1
  {
    hide ClustersFor, DivRoundUp, DeviceBit, Extent;
    Rounding.Bounds(|heap0|, 8);
    heap := CbmWrite(cs, heap0, FIRST_DATA_CLUSTER, DivRoundUp(|heap0|, 8), a + u + 1);
    BitsStay(cs, heap, heap[a + u := row], a, u);
    heap := heap[a + u := row];
  }

  /** The root directory, written behind the bitmap, leaves the bitmap as it is. */
  lemma BitsStay(cs: nat, heap: seq<seq<byte>>, after: seq<seq<byte>>, a: nat, u: nat)
    requires cs > 0 && a + u + 1 <= |heap| == |after| && after == heap[a + u := after[a + u]]
    requires a == ClustersFor(cs, DivRoundUp(|heap|, 8))
    requires forall k: nat | k < 8 * DivRoundUp(|heap|, 8) :: DeviceBit(cs, heap, FIRST_DATA_CLUSTER, k) <==> k < a + u + 1
    ensures forall i: nat | i < |heap| :: DeviceBit(cs, after, FIRST_DATA_CLUSTER, i) <==> i < a + u + 1
  {
    hide ClustersFor, DivRoundUp, DeviceBit;
    Rounding.Bounds(|heap|, 8);
    forall i: nat | i < |heap| ensures DeviceBit(cs, after, FIRST_DATA_CLUSTER, i) <==> i < a + u + 1 {
      BitStays(cs, heap, after, a, a + u, DivRoundUp(|heap|, 8), i);
    }
  }

  /** exfat_mount of what mkfs wrote. */
  method MountFresh(dev: Device, ghost a: nat, ghost u: nat, ghost row: seq<byte>, timezone: int) returns (v: RootVolume)
    requires IsFresh(dev, a, u, row) && IsZone(timezone)
    ensures fresh(v) && v.Valid() && v.cat.files == [] && v.cat.dir.nodes == [] && v.cat.timezone == timezone
    ensures NamesItsMap(v, 1)
    ensures var fs := v.cat.fsys;
      && fs.vol.clusterSize == dev.clusterSize && fs.vol.clusterCount == |dev.heap| && fs.vol.fat == dev.fat
      && |fs.nodes| == 1 && fs.nodes[0].startCluster == dev.rootdirCluster && fs.vol.cmap.start == FIRST_DATA_CLUSTER
      && fs.system == Elems(RunOf(2, a + u)) && fs.vol.cmap.used == Elems(RunOf(2, a + u + 1))
      && fs.MapTells(fs.vol.cmap.used) && fs.State() == [FileState(row, |row|)]
  {
    hide IsFresh, RootVolume.Valid, IsImage, IsMounted, NamesMap, NamesItsMap, UsedOnDevice, RunOf, Elems, Cut, EntryStart,
      FileSystem.MapTells;
    FreshIsImage(dev, a, u, row, timezone);
    ghost var ks: seq<nat>;
    v, ks := Mount(dev, timezone, FreshImage(a, u, row));
    FreshNamesMap(dev, a, u, row);
    MountedNamesMap(v, dev, FreshImage(a, u, row), timezone, ks);
    FreshIsMounted(v, dev, a, u, row, timezone, ks);
  }

  lemma FreshIsMounted(v: RootVolume, dev: Device, a: nat, u: nat, row: seq<byte>, timezone: int, ks: seq<nat>)
    requires v.Valid() && dev.clusterSize > 0 && |row| % ENTRY == 0 && |row| / ENTRY > 1
    requires IsMounted(v, dev, FreshImage(a, u, row), timezone, ks)
    requires EntryStart(Cut(row, |row| / ENTRY)[1]) == FIRST_DATA_CLUSTER
    ensures v.cat.files == [] && v.cat.dir.nodes == [] && v.cat.timezone == timezone
    ensures var fs := v.cat.fsys;
      && fs.vol.clusterSize == dev.clusterSize && fs.vol.clusterCount == |dev.heap| && fs.vol.fat == dev.fat
      && |fs.nodes| == 1 && fs.nodes[0].startCluster == dev.rootdirCluster && fs.vol.cmap.start == FIRST_DATA_CLUSTER
      && fs.system == Elems(RunOf(2, a + u)) && fs.vol.cmap.used == UsedOnDevice(dev, FIRST_DATA_CLUSTER)
      && fs.MapTells(fs.vol.cmap.used) && fs.State() == [FileState(row, |row|)]
  {
    hide InOrder, IsTidy, OthersAreSystem, AllFit, AreUpdates, IsFile, OnDevice, Extent, Partition, Flat, Cut, EntryStart,
      RunOf, Elems, AllMatch, Owns, Fits, DeviceBit;
    FlatOfCut(row, |row| / ENTRY);
    var fs := v.cat.fsys;
    forall i: nat | i < fs.vol.clusterCount
      ensures DeviceBit(dev.clusterSize, dev.heap, FIRST_DATA_CLUSTER, i)
              <==> i + FIRST_DATA_CLUSTER in UsedOnDevice(dev, FIRST_DATA_CLUSTER)
    {
      assert i + FIRST_DATA_CLUSTER in AllClusters(|dev.heap|);
    }
  }

  /** Whole words of bits for all clusters take no more clusters than whole bytes. */
  lemma MapFits(cs: nat, size: nat, a: nat, u: nat)
    requires cs > 0 && cs % 8 == 0 && a == ClustersFor(cs, DivRoundUp(size, 8))
    ensures size <= 8 * DivRoundUp(size, 8)
    ensures Extent(cs, FIRST_DATA_CLUSTER, WORD_BYTES * DivRoundUp(size, WORD_BITS)) <= Elems(RunOf(FIRST_DATA_CLUSTER, a + u))
  {
    hide DivRoundUp, RunOf, Elems;
    var n := WORD_BYTES * DivRoundUp(size, WORD_BITS);
    Rounding.Bounds(size, 8);
    WholeWords(cs, a, size, DivRoundUp(size, 8));
    Rounding.AtMost(n, cs, a);
    ExtentGrows(cs, FIRST_DATA_CLUSTER, n, DivRoundUp(size, 8));
    RunElemsAppend(FIRST_DATA_CLUSTER, a, u);
  }

  lemma WholeWords(cs: nat, a: nat, size: nat, bytes: nat)
    requires cs > 0 && cs % 8 == 0 && a == ClustersFor(cs, bytes) && size <= 8 * bytes
    ensures WORD_BYTES * DivRoundUp(size, WORD_BITS) <= a * cs
  {
    hide DivRoundUp;
    Rounding.Bounds(bytes, cs);
    var m := cs / 8;
    assert a * cs == 8 * (a * m);
    assert 8 * (a * cs) == WORD_BITS * (a * m);
    Rounding.RoundUpFits(size, 8 * (a * cs), WORD_BITS);
  }

  /** A bit of the bitmap does not lie in a later cluster. */
  lemma BitStays(cs: nat, heap: seq<seq<byte>>, after: seq<seq<byte>>, a: nat, i: nat, bytes: nat, k: nat)
    requires cs > 0 && a == ClustersFor(cs, bytes) && a <= i < |heap| == |after| && after == heap[i := after[i]]
    requires k < 8 * bytes
    ensures DeviceBit(cs, after, FIRST_DATA_CLUSTER, k) == DeviceBit(cs, heap, FIRST_DATA_CLUSTER, k)
  {
    hide ClustersFor, ClusterIndex, ClusterOffset, Bit;
    SizeCovers(cs, bytes, k / 8);
  }

  lemma ClusterSizeMultiple(p: Params)
    requires p.sectorSize % 512 == 0
    ensures p.ClusterSize() % 512 == 0
  {
    ProductOfMultiple(p.sectorSize, p.sectorsPerCluster);
  }

  lemma {:induction false} ProductOfMultiple(x: nat, n: nat)
    requires x % 512 == 0
    ensures (x * n) % 512 == 0
  {
    if n > 0 {
      ProductOfMultiple(x, n - 1);
      assert x * n == x * (n - 1) + x;
    }
  }

  lemma RootHolds(cs: nat, heap: seq<seq<byte>>, cluster: nat)
    requires cs > 0 && DataCluster(|heap|, cluster) && |heap[cluster - FIRST_DATA_CLUSTER]| == cs
    ensures Holds(cs, heap, [cluster], cs, cs, heap[cluster - FIRST_DATA_CLUSTER])
  {
  }

  /** mkfs followed by exfat_mount. A volume too small for its own structures is refused; any other, unless
      its FAT is the one entry short of FatCoversClusters, comes up in order, with an empty root directory
      and nothing else. The device's content is given cluster by cluster. */
  method Format(p: Params, device: seq<seq<byte>>, labelEntry: seq<byte>, checksum: u32, timezone: int)
    returns (v: RootVolume?)
    requires p.Ok() && p.sectorSize % 512 == 0 && p.ClusterSize() != 128 * p.sectorSize + 4 * p.ClustersMax()
    requires p.volumeSize < 0x1_0000_0000_0000_0000 && IsLabel(labelEntry) && IsZone(timezone)
    requires |device| == p.ClustersMax() && forall i | 0 <= i < |device| :: |device[i]| == p.ClusterSize()
    ensures v == null <==> EndBefore(p, |OBJECTS|) > p.volumeSize
    ensures v != null ==> fresh(v) && v.Valid() && v.cat.files == [] && v.cat.dir.nodes == []
                          && v.cat.timezone == timezone && FreshVolume(p, labelEntry, v.cat.fsys)
                          && NamesItsMap(v, 1)
  {
    hide EndBefore, RootVolume.Valid, FreshVolume, NamesItsMap, Params.Ok, Params.ClusterSize, Params.ClustersMax, IsLabel;
    var fits := CheckSize(p);
    if !fits {
      return null;
    }
    v := FormatFitting(p, device, labelEntry, checksum, timezone);
  }

  /** Of a volume that is large enough. */
  method FormatFitting(p: Params, device: seq<seq<byte>>, labelEntry: seq<byte>, checksum: u32, timezone: int)
    returns (v: RootVolume)
    requires p.Ok() && p.sectorSize % 512 == 0 && p.ClusterSize() != 128 * p.sectorSize + 4 * p.ClustersMax()
    requires p.volumeSize < 0x1_0000_0000_0000_0000 && IsLabel(labelEntry) && IsZone(timezone)
    requires EndBefore(p, |OBJECTS|) <= p.volumeSize
    requires |device| == p.ClustersMax() && forall i | 0 <= i < |device| :: |device[i]| == p.ClusterSize()
    ensures fresh(v) && v.Valid() && v.cat.files == [] && v.cat.dir.nodes == [] && v.cat.timezone == timezone
    ensures FreshVolume(p, labelEntry, v.cat.fsys) && NamesItsMap(v, 1)
  {
    hide EndBefore, Params.ClusterSize, FrontClusters, Params.ClustersMax, FatCapacity, WellTied, RootVolume.Valid,
      Params.Ok, InitSb, RunOf, IsFresh, FreshVolume, NamesItsMap, RootContent, EntryStart, Elems, FileSystem.MapTells,
      IsLabel, BitmapSize, ClustersOf;
    FreshSizes(p);
    var dev: Device;
    ghost var row: seq<byte>;
    dev, row := WriteFitting(p, device, labelEntry, checksum);
    v := MountFresh(dev, ClustersOf(p, BitmapSize(p)), ClustersOf(p, UPCASE_TABLE_SIZE), row, timezone);
    ComesUpFresh(p, labelEntry, v.cat.fsys, row);
  }

  /** What mkfs writes to a device that is large enough. */
  method WriteFitting(p: Params, device: seq<seq<byte>>, labelEntry: seq<byte>, checksum: u32)
    returns (dev: Device, ghost row: seq<byte>)
    requires p.Ok() && p.sectorSize % 512 == 0 && p.ClusterSize() != 128 * p.sectorSize + 4 * p.ClustersMax()
    requires p.volumeSize < 0x1_0000_0000_0000_0000 && IsLabel(labelEntry) && EndBefore(p, |OBJECTS|) <= p.volumeSize
    requires |device| == p.ClustersMax() && forall i | 0 <= i < |device| :: |device[i]| == p.ClusterSize()
    ensures FrontClusters(p) <= p.ClustersMax() && dev.clusterSize == p.ClusterSize() >= 96
    ensures |dev.heap| == InitSb(p).clusterCount && |dev.fat| == FatCapacity(p)
    ensures dev.rootdirCluster == InitSb(p).rootdirCluster
    ensures RootContent(p, labelEntry, row) && EntryStart(row[32..64]) == FIRST_DATA_CLUSTER
    ensures var a, u := ClustersOf(p, BitmapSize(p)), ClustersOf(p, UPCASE_TABLE_SIZE);
      IsFresh(dev, a, u, row) && WellTied(p, dev.fat, Elems(RunOf(FIRST_DATA_CLUSTER, a + u)), row)
  {
    hide DivRoundUp, EndBefore, Params.ClusterSize, FrontClusters, Params.ClustersMax, BitmapSize, FatCapacity,
      RunWritten, WellTied, Params.Ok, InitSb, ClustersOf, RootRow, SystemEntry, UpcaseStart, SizeAt, IsFreshRoot, RunOf,
      IsFresh, Cut, RootContent, EntryStart, Elems;
    FreshSizes(p);
    FatCoversClusters(p);
    GeometryAgrees(p);
    HeapInWidth(p);
    var a, u := ClustersOf(p, BitmapSize(p)), ClustersOf(p, UPCASE_TABLE_SIZE);
    var bytes := RootRow(p, labelEntry, checksum, UpcaseStart(p));
    ClusterSizeMultiple(p);
    EntriesOfSectors(|bytes|, |bytes| / ENTRY);
    RowIsFreshRoot(p, labelEntry, checksum, UpcaseStart(p), |bytes| / ENTRY);
    RowContent(p, labelEntry, checksum, UpcaseStart(p));
    dev := Create(p.ClusterSize(), device[FrontClusters(p)..], FatCapacity(p), a, u, bytes);
    WellTiedVolume(p, dev.fat, bytes, labelEntry, checksum);
    row := bytes;
  }

  lemma RowContent(p: Params, labelEntry: seq<byte>, checksum: u32, upcaseStart: u32)
    requires p.Ok() && FrontClusters(p) <= p.ClustersMax() && |labelEntry| == 32 && p.ClusterSize() >= 96
    requires BitmapSize(p) < 0x1_0000_0000
    ensures var row := RootRow(p, labelEntry, checksum, upcaseStart);
            RootContent(p, labelEntry, row) && EntryStart(row[32..64]) == FIRST_DATA_CLUSTER
  {
    hide FrontClusters, Params.ClustersMax, Params.ClusterSize, Params.Ok, BitmapSize, SystemEntry, EntryStart, RootRow;
    SystemEntryReadsBack(BitmapHead(), FIRST_DATA_CLUSTER, BitmapSize(p));
  }

  lemma ComesUpFresh(p: Params, labelEntry: seq<byte>, fs: FileSystem, row: seq<byte>)
    requires p.Ok() && FrontClusters(p) <= p.ClustersMax() && fs.vol.clusterSize == p.ClusterSize() >= 96
    requires fs.vol.clusterCount == InitSb(p).clusterCount && |fs.vol.fat| == FatCapacity(p)
    requires fs.vol.cmap.used == Elems(RunOf(FIRST_DATA_CLUSTER, AllocatedClusters(p)))
    requires |fs.nodes| == 1 && fs.nodes[0].startCluster == InitSb(p).rootdirCluster && fs.MapTells(fs.vol.cmap.used)
    requires RootContent(p, labelEntry, row) && fs.vol.cmap.start == EntryStart(row[32..64])
    requires fs.State() == [FileState(row, |row|)] && WellTied(p, fs.vol.fat, fs.system, row)
    ensures FreshVolume(p, labelEntry, fs)
  {
  }

  lemma HeapInWidth(p: Params)
    requires p.Ok() && p.volumeSize < 0x1_0000_0000_0000_0000 && FrontClusters(p) <= p.ClustersMax()
    ensures (p.ClustersMax() - FrontClusters(p)) * p.ClusterSize() < 0x1_0000_0000_0000_0000
  {
    var cs, n, k := p.ClusterSize(), p.ClustersMax(), p.ClustersMax() - FrontClusters(p);
    assert n * cs <= p.volumeSize by {
      hide FrontClusters;
      Division(cs, p.volumeSize);
    }
    hide *;
    ProductOrder(k, n, cs);
  }

  /** A volume just formatted: exactly the clusters of the bitmap, the upcase table and the root directory are
      taken, and the root directory holds the three system entries and nothing else. */
  ghost predicate FreshVolume(p: Params, labelEntry: seq<byte>, fs: FileSystem)
    requires p.Ok()
    reads fs, fs.vol, fs.vol.cmap, fs.nodes
  {
    && FrontClusters(p) <= p.ClustersMax() && fs.vol.clusterSize == p.ClusterSize() >= 96
    && fs.vol.clusterCount == InitSb(p).clusterCount && |fs.vol.fat| == FatCapacity(p)
    && fs.vol.cmap.used == Elems(RunOf(FIRST_DATA_CLUSTER, AllocatedClusters(p)))
    && |fs.nodes| == 1 && fs.nodes[0].startCluster == InitSb(p).rootdirCluster && fs.MapTells(fs.vol.cmap.used)
    && (exists row: seq<byte> :: RootContent(p, labelEntry, row) && fs.vol.cmap.start == EntryStart(row[32..64])
                      && fs.State() == [FileState(row, |row|)] && WellTied(p, fs.vol.fat, fs.system, row))
  }

  ghost predicate RootContent(p: Params, labelEntry: seq<byte>, row: seq<byte>) {
    && |row| == p.ClusterSize() >= 96 && row[..32] == labelEntry && row[32] == ENTRY_BITMAP
    && row[64] == ENTRY_UPCASE
    && forall i | 96 <= i < |row| :: row[i] == 0
  }

  lemma EntriesOfSectors(size: nat, n: nat)
    requires size % 512 == 0 && size > 0 && n == size / ENTRY
    ensures size == ENTRY * n && n >= 16
  {
  }
}
