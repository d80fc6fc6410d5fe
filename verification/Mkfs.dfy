// mkexfat.c, main.c, vbr.c, fat.c, cbm.c and rootdir.c: where a new volume's structures lie, computed
// in several independent ways, and what is written there.

/** The object table of main.c and the geometry that follows from it. */
module Geometry {
  import opened Basics
  import opened Bitmap
  import opened ClusterMath
  import opened Rounding

  const UPCASE_TABLE_SIZE: nat := 5836

  /** The parameters of a format: sector size, sectors per cluster, volume size in bytes. */
  datatype Params = Params(sectorSize: nat, sectorsPerCluster: nat, volumeSize: nat) {
    ghost predicate Ok() {
      && sectorSize >= 512 && sectorSize % 4 == 0 && 0 < sectorsPerCluster <= 0x4000_0000
      && ClusterSize() > 0 && ClustersMax() <= LAST_DATA_CLUSTER
    }

    /** get_cluster_size */
    function ClusterSize(): nat {
      sectorSize * sectorsPerCluster
    }

    /** The volume's size in clusters, whatever is stored in them. */
    function ClustersMax(): nat {
      if ClusterSize() > 0 then volumeSize / ClusterSize() else 0
    }
  }

  datatype Object = Vbr | Fat | Cbm | Uct | Rootdir

  const OBJECTS: seq<Object> := [Vbr, Vbr, Fat, Cbm, Uct, Rootdir]

  function Alignment(p: Params, o: Object): (a: nat)
    requires p.Ok()
    ensures a > 0
  {
    match o
    case Vbr => p.sectorSize
    case Fat => 128 * p.sectorSize
    case Cbm => p.ClusterSize()
    case Uct => p.ClusterSize()
    case Rootdir => p.ClusterSize()
  }

  /** C's division of signed integers, by a positive divisor. */
  function TruncatingDiv(x: int, d: nat): int
    requires d > 0
  {
    if x >= 0 then x / d else -(-x / d)
  }

  /** ROUND_UP on off_t */
  function AlignUp(x: int, d: nat): int
    requires d > 0
  {
    TruncatingDiv(x + d - 1, d) * d
  }

  /** The position of the k-th object of the table. */
  function PositionAt(p: Params, k: nat): int
    requires p.Ok() && k < |OBJECTS|
    decreases k, 1
  {
    AlignUp(EndBefore(p, k), Alignment(p, OBJECTS[k]))
  }

  function EndBefore(p: Params, k: nat): int
    requires p.Ok() && k <= |OBJECTS|
    decreases k, 0
  {
    if k == 0 then 0 else PositionAt(p, k - 1) + SizeAt(p, k - 1)
  }

  /** The size of the k-th object; cbm_size depends on the bitmap's own position. */
  function SizeAt(p: Params, k: nat): int
    requires p.Ok() && k < |OBJECTS|
    decreases k, 2
  {
    match OBJECTS[k]
    case Vbr => 12 * p.sectorSize
    case Fat => p.ClustersMax() * 4
    case Cbm => TruncatingDiv(TruncatingDiv(p.volumeSize - PositionAt(p, 3), p.ClusterSize()) + 7, 8)
    case Uct => UPCASE_TABLE_SIZE
    case Rootdir => p.ClusterSize()
  }

  /** The first index of an object in the table. */
  function IndexOf(o: Object): (k: nat)
    ensures k < |OBJECTS| && OBJECTS[k] == o && forall j | 0 <= j < k :: OBJECTS[j] != o
  {
    match o
    case Vbr => 0
    case Fat => 2
    case Cbm => 3
    case Uct => 4
    case Rootdir => 5
  }

  /** get_position: walk the table to the first entry for the object. */
  method GetPosition(p: Params, o: Object) returns (position: int)
    requires p.Ok()
    ensures position == PositionAt(p, IndexOf(o))
  {
    position := 0;
    for k := 0 to |OBJECTS|
      invariant position == EndBefore(p, k)
      invariant k <= IndexOf(o)
    {
      position := AlignUp(position, Alignment(p, OBJECTS[k]));
      if OBJECTS[k] == o {
        return;
      }
      position := position + SizeAt(p, k);
    }
    assert false;
  }

  /** check_size */
  method CheckSize(p: Params) returns (fits: bool)
    requires p.Ok()
    ensures fits <==> EndBefore(p, |OBJECTS|) <= p.volumeSize
  {
    var position := 0;
    for k := 0 to |OBJECTS|
      invariant position == EndBefore(p, k)
    {
      position := AlignUp(position, Alignment(p, OBJECTS[k]));
      position := position + SizeAt(p, k);
    }
    return position <= p.volumeSize;
  }

  /** The superblock fields that init_sb computes. */
  datatype SuperBlock = SuperBlock(fatSectorStart: int, fatSectorCount: int, clusterSectorStart: int,
                                   clusterCount: int, rootdirCluster: int)

  /** init_sb */
  function InitSb(p: Params): SuperBlock
    requires p.Ok()
  {
    var fatSectors := DivRoundUp(p.ClustersMax() * 4, p.sectorSize);
    var fatSectorStart := Alignment(p, Fat) / p.sectorSize;
    var fatSectorCount := RoundUp(fatSectorStart + fatSectors, p.sectorsPerCluster) - fatSectorStart;
    SuperBlock(fatSectorStart, fatSectorCount,
               PositionAt(p, IndexOf(Cbm)) / p.sectorSize,
               p.ClustersMax() - (fatSectorStart + fatSectorCount) / p.sectorsPerCluster,
               (PositionAt(p, IndexOf(Rootdir)) - PositionAt(p, IndexOf(Cbm))) / p.ClusterSize() + FIRST_DATA_CLUSTER)
  }

  /** init_upcase_entry's start cluster. */
  function UpcaseStart(p: Params): int
    requires p.Ok()
  {
    (PositionAt(p, IndexOf(Uct)) - PositionAt(p, IndexOf(Cbm))) / p.ClusterSize() + FIRST_DATA_CLUSTER
  }

  /** Clusters in front of the heap: the boot regions and the FAT. */
  function FrontClusters(p: Params): nat
    requires p.Ok()
  {
    DivRoundUp(128 * p.sectorSize + p.ClustersMax() * 4, p.ClusterSize())
  }

  lemma AlignIsRoundUp(x: nat, d: nat)
    requires d > 0
    ensures AlignUp(x, d) == RoundUp(x, d)
  {
  }

  /** The boot regions and the FAT: the heap begins a whole number of clusters into the volume. */
  lemma FrontLayout(p: Params)
    requires p.Ok()
    ensures PositionAt(p, 0) == 0 && PositionAt(p, 1) == 12 * p.sectorSize
    ensures PositionAt(p, 2) == 128 * p.sectorSize
    ensures PositionAt(p, 3) == FrontClusters(p) * p.ClusterSize()
    ensures FrontClusters(p) > 0
  {
    var ss, cs := p.sectorSize, p.ClusterSize();
    AlignIsRoundUp(0, ss);
    Unique(0, ss, 0);
    AlignIsRoundUp(12 * ss, ss);
    Unique(12 * ss, ss, 12);
    assert PositionAt(p, 1) == 12 * ss;
    AlignIsRoundUp(24 * ss, 128 * ss);
    Unique(24 * ss, 128 * ss, 1);
    assert EndBefore(p, 2) == 24 * ss;
    assert PositionAt(p, 2) == 128 * ss;
    assert EndBefore(p, 3) == 128 * ss + p.ClustersMax() * 4;
    AlignIsRoundUp(128 * ss + p.ClustersMax() * 4, cs);
    Bounds(128 * ss + p.ClustersMax() * 4, cs);
  }

  /** The superblock's own arithmetic puts the heap where the object table does. */
  lemma HeapStartAgrees(p: Params)
    requires p.Ok()
    ensures var sb := InitSb(p);
            && sb.fatSectorStart * p.sectorSize == PositionAt(p, IndexOf(Fat))
            && sb.fatSectorStart + sb.fatSectorCount == FrontClusters(p) * p.sectorsPerCluster
            && (sb.fatSectorStart + sb.fatSectorCount) * p.sectorSize == PositionAt(p, IndexOf(Cbm))
            && sb.clusterSectorStart * p.sectorSize == PositionAt(p, IndexOf(Cbm))
            && sb.clusterCount == p.ClustersMax() - FrontClusters(p)
  {
    var ss, spc, cs, x := p.sectorSize, p.sectorsPerCluster, p.ClusterSize(), p.ClustersMax() * 4;
    FrontLayout(p);
    Quotient(128, ss);
    Shifted(128, x, ss);
    Nested(128 * ss + x, ss, spc);
    var k := FrontClusters(p);
    assert k * cs == k * spc * ss by { Regroup(k, ss, spc); }
    Quotient(k, spc);
    Quotient(k * spc, ss);
  }

  lemma Quotient(a: nat, b: nat)
    requires b > 0
    ensures a * b / b == a
  {
    InCluster(b, a * b, a);
  }

  lemma Regroup(k: nat, ss: nat, spc: nat)
    ensures k * (ss * spc) == k * spc * ss
  {
  }

  /** Clusters taken by an object of the heap. */
  function ClustersOf(p: Params, size: nat): nat
    requires p.Ok()
  {
    DivRoundUp(size, p.ClusterSize())
  }

  /** The size of the allocation bitmap in bytes, once it is known that the heap starts inside the volume. */
  function BitmapSize(p: Params): nat
    requires p.Ok() && FrontClusters(p) <= p.ClustersMax()
  {
    DivRoundUp(p.ClustersMax() - FrontClusters(p), 8)
  }

  /** The clusters of the heap that a fresh volume uses: bitmap, upcase table and root directory. */
  function AllocatedClusters(p: Params): nat
    requires p.Ok() && FrontClusters(p) <= p.ClustersMax()
  {
    ClustersOf(p, BitmapSize(p)) + ClustersOf(p, UPCASE_TABLE_SIZE) + 1
  }

  lemma WholeClusters(v: nat, cs: nat, k: nat)
    requires cs > 0
    ensures k * cs <= v ==> k <= v / cs && (v - k * cs) / cs == v / cs - k
    ensures k <= v / cs ==> k * cs <= v
  {
    Division(cs, v);
    var q := v / cs;
    StartOrder(cs, k, q);
    StartOrder(cs, q + 1, k);
    NextStart(cs, q);
    if k <= q {
      assert (q - k) * cs == q * cs - k * cs by { Distribute(k, q, cs); }
      InCluster(cs, v - k * cs, q - k);
    }
  }

  lemma Distribute(k: nat, q: nat, cs: nat)
    requires k <= q
    ensures (q - k) * cs == q * cs - k * cs
  {
  }

  /** A volume that check_size accepts starts its heap inside the volume. */
  lemma FitsInFront(p: Params)
    requires p.Ok() && EndBefore(p, |OBJECTS|) <= p.volumeSize
    ensures FrontClusters(p) <= p.ClustersMax()
    ensures SizeAt(p, 3) == BitmapSize(p)
  {
    var cs, k := p.ClusterSize(), FrontClusters(p);
    FrontLayout(p);
    WholeClusters(p.volumeSize, cs, k);
    var over := k * cs - p.volumeSize;
    if over > 0 {
      // the bitmap would have a negative size, of at most an eighth of the excess
      SmallQuotient(over, cs);
      TailOnlyGrows(p);
    }
  }

  lemma TailOnlyGrows(p: Params)
    requires p.Ok() && PositionAt(p, 3) + SizeAt(p, 3) >= 0
    ensures EndBefore(p, |OBJECTS|) >= PositionAt(p, 3) + SizeAt(p, 3)
  {
    var cs := p.ClusterSize();
    AlignUpGrows(EndBefore(p, 4), cs);
    AlignUpGrows(EndBefore(p, 5), cs);
  }

  lemma SmallQuotient(over: nat, cs: nat)
    requires cs > 0
    ensures over / cs <= over
  {
    Division(cs, over);
    ProductOrder(1, cs, over / cs);
  }

  lemma AlignUpGrows(x: nat, d: nat)
    requires d > 0
    ensures AlignUp(x, d) >= x
  {
  }

  /** The heap's objects follow one another cluster by cluster and all fit. */
  lemma HeapLayout(p: Params)
    requires p.Ok() && EndBefore(p, |OBJECTS|) <= p.volumeSize
    ensures FrontClusters(p) <= p.ClustersMax()
    ensures var k, cs := FrontClusters(p), p.ClusterSize();
            var a, u := ClustersOf(p, BitmapSize(p)), ClustersOf(p, UPCASE_TABLE_SIZE);
            && PositionAt(p, IndexOf(Cbm)) == k * cs
            && PositionAt(p, IndexOf(Uct)) == (k + a) * cs
            && PositionAt(p, IndexOf(Rootdir)) == (k + a + u) * cs
            && k + a + u + 1 <= p.ClustersMax()
  {
    hide DivRoundUp, AlignUp, TruncatingDiv, FrontClusters, BitmapSize, Params.ClusterSize;
    var k, cs := FrontClusters(p), p.ClusterSize();
    FrontLayout(p);
    FitsInFront(p);
    var b := BitmapSize(p);
    var a, u := ClustersOf(p, b), ClustersOf(p, UPCASE_TABLE_SIZE);
    AlignIsRoundUp(k * cs + b, cs);
    Shifted(k, b, cs);
    Sum(k, a, cs);
    assert PositionAt(p, 4) == (k + a) * cs;
    AlignIsRoundUp((k + a) * cs + UPCASE_TABLE_SIZE, cs);
    Shifted(k + a, UPCASE_TABLE_SIZE, cs);
    Sum(k + a, u, cs);
    assert PositionAt(p, 5) == (k + a + u) * cs;
    Sum(k + a + u, 1, cs);
    WholeClusters(p.volumeSize, cs, k + a + u + 1);
  }

  lemma Sum(a: nat, b: nat, d: nat)
    ensures (a + b) * d == a * d + b * d
  {
  }

  /** The volume's geometry, computed by the object table and by init_sb, is one geometry: cluster numbers
      stored in the superblock and the upcase entry are those of the objects, and the heap ends in the volume. */
  lemma GeometryAgrees(p: Params)
    requires p.Ok() && EndBefore(p, |OBJECTS|) <= p.volumeSize
    ensures FrontClusters(p) <= p.ClustersMax()
    ensures var sb := InitSb(p);
            var a, u := ClustersOf(p, BitmapSize(p)), ClustersOf(p, UPCASE_TABLE_SIZE);
            && sb.clusterCount >= AllocatedClusters(p)
            && UpcaseStart(p) == FIRST_DATA_CLUSTER + a
            && sb.rootdirCluster == FIRST_DATA_CLUSTER + a + u
            && PositionAt(p, IndexOf(Cbm)) + sb.clusterCount * p.ClusterSize() <= p.volumeSize
            && SizeAt(p, IndexOf(Cbm)) == DivRoundUp(sb.clusterCount, 8)
  {
    hide DivRoundUp, RoundUp, AlignUp, TruncatingDiv, SizeAt, EndBefore, PositionAt, Params.ClusterSize,
      Params.ClustersMax;
    HeapLayout(p);
    HeapStartAgrees(p);
    FitsInFront(p);
    var k, cs := FrontClusters(p), p.ClusterSize();
    var a, u := ClustersOf(p, BitmapSize(p)), ClustersOf(p, UPCASE_TABLE_SIZE);
    ClustersApart(k, a, cs);
    ClustersApart(k, a + u, cs);
    assert k + a + u == k + (a + u);
    HeapEnd(p, k);
  }

  lemma ClustersApart(k: nat, a: nat, cs: nat)
    requires cs > 0
    ensures ((k + a) * cs - k * cs) / cs == a
  {
    Sum(k, a, cs);
    Quotient(a, cs);
  }

  lemma HeapEnd(p: Params, k: nat)
    requires p.Ok() && k <= p.ClustersMax()
    ensures k * p.ClusterSize() + (p.ClustersMax() - k) * p.ClusterSize() <= p.volumeSize
  {
  }

  /** FAT entries between the start of the FAT and the start of the heap. */
  function FatCapacity(p: Params): int
    requires p.Ok()
  {
    InitSb(p).fatSectorCount * p.sectorSize / 4
  }

  /** The FAT has an entry for every cluster number exactly when the boot regions and the FAT do not
      happen to fill one cluster to the byte. */
  lemma FatCoversClusters(p: Params)
    requires p.Ok() && EndBefore(p, |OBJECTS|) <= p.volumeSize
    ensures FatCapacity(p) >= InitSb(p).clusterCount + FIRST_DATA_CLUSTER
            <==> p.ClusterSize() != 128 * p.sectorSize + 4 * p.ClustersMax()
  {
    hide DivRoundUp, RoundUp, AlignUp, TruncatingDiv, SizeAt, EndBefore, PositionAt, Params.ClusterSize,
      Params.ClustersMax;
    HeapStartAgrees(p);
    FrontLayout(p);
    var ss, cs, cm, k := p.sectorSize, p.ClusterSize(), p.ClustersMax(), FrontClusters(p);
    var count := InitSb(p).fatSectorCount;
    assert InitSb(p).fatSectorStart == 128 by { Quotient(128, ss); }
    FrontBounds(p);
    FourDivides(ss, p.sectorsPerCluster, k);
    ClusterSizeIs(p);
    Difference(count, ss, k * cs);
    if k >= 2 { ProductOrder(2, k, cs); }
    Entries(ss, cs, cm, k, k * cs, count * ss);
  }

  lemma ClusterSizeIs(p: Params)
    ensures p.ClusterSize() == p.sectorSize * p.sectorsPerCluster
  {
  }

  lemma FrontBounds(p: Params)
    requires p.Ok()
    ensures var x := 128 * p.sectorSize + 4 * p.ClustersMax(); x <= FrontClusters(p) * p.ClusterSize() < x + p.ClusterSize()
  {
  }

  lemma Difference(count: int, ss: nat, total: nat)
    requires (128 + count) * ss == total
    ensures count * ss == total - 128 * ss
  {
  }

  lemma FourDivides(ss: nat, spc: nat, k: nat)
    requires ss % 4 == 0
    ensures (ss * spc) % 4 == 0 && (k * (ss * spc)) % 4 == 0
  {
    var q := ss / 4;
    assert ss == 4 * q;
    assert ss * spc == 4 * (q * spc);
    assert k * (ss * spc) == 4 * (k * (q * spc)) by { Regroup4(k, q, spc); }
  }

  lemma Regroup4(k: nat, q: nat, spc: nat)
    ensures k * (4 * (q * spc)) == 4 * (k * (q * spc))
  {
  }

  /** total is where the heap starts, fatBytes what lies between the start of the FAT and there. */
  lemma Entries(ss: nat, cs: nat, cm: nat, k: nat, total: nat, fatBytes: int)
    requires ss % 4 == 0 && cs % 4 == 0 && total % 4 == 0 && k > 0 && (k == 1 ==> total == cs)
    requires 128 * ss + 4 * cm <= total < 128 * ss + 4 * cm + cs && fatBytes == total - 128 * ss
    requires k >= 2 ==> total >= 2 * cs
    ensures fatBytes / 4 >= cm - k + 2 <==> cs != 128 * ss + 4 * cm
  {
  }

  /** One entry of the object table. */
  lemma TableEntry(p: Params, k: nat)
    requires p.Ok() && k < |OBJECTS|
    ensures EndBefore(p, k + 1) == PositionAt(p, k) + SizeAt(p, k)
    ensures PositionAt(p, k) == AlignUp(EndBefore(p, k), Alignment(p, OBJECTS[k]))
  {
  }

  lemma HeapSizes(p: Params)
    requires p.Ok()
    ensures SizeAt(p, 3) == TruncatingDiv(TruncatingDiv(p.volumeSize - PositionAt(p, 3), p.ClusterSize()) + 7, 8)
    ensures SizeAt(p, 4) == UPCASE_TABLE_SIZE && SizeAt(p, 5) == p.ClusterSize()
    ensures Alignment(p, OBJECTS[4]) == Alignment(p, OBJECTS[5]) == p.ClusterSize()
  {
  }

  /** 2 GiB with clusters of 128 KiB. */
  function TwoGib(): (p: Params)
    ensures p.Ok() && p.ClusterSize() == 0x2_0000 && p.ClustersMax() == 0x4000
    ensures p.sectorSize == 512 && p.volumeSize == 0x8000_0000 && FrontClusters(p) == 1
  {
    Params(512, 256, 0x8000_0000)
  }

  lemma TwoGibIsAccepted()
    ensures EndBefore(TwoGib(), |OBJECTS|) <= TwoGib().volumeSize
  {
    hide TwoGib, EndBefore, PositionAt, SizeAt, Alignment, AlignUp, Params.Ok, Params.ClusterSize, Params.ClustersMax,
      FrontClusters;
    var p := TwoGib();
    FrontLayout(p);
    HeapSizes(p);
    TableEntry(p, 3);
    AlignIsRoundUp(EndBefore(p, 4), 0x2_0000);
    TableEntry(p, 4);
    AlignIsRoundUp(EndBefore(p, 5), 0x2_0000);
    TableEntry(p, 5);
  }

  /** A volume of 2 GiB with clusters of 128 KiB is accepted, and its FAT is too short. */
  lemma FatTooShort()
    ensures EndBefore(TwoGib(), |OBJECTS|) <= TwoGib().volumeSize
    ensures FatCapacity(TwoGib()) < InitSb(TwoGib()).clusterCount + FIRST_DATA_CLUSTER
  {
    hide TwoGib, EndBefore, PositionAt, SizeAt, InitSb, FatCapacity, Params.Ok, Params.ClusterSize, Params.ClustersMax,
      FrontClusters;
    TwoGibIsAccepted();
    FatCoversClusters(TwoGib());
  }

  /** exfat_c2o: where a cluster begins on the device. */
  function DeviceOffset(p: Params, cluster: nat): int
    requires p.Ok() && cluster >= FIRST_DATA_CLUSTER
  {
    (InitSb(p).clusterSectorStart + (cluster - FIRST_DATA_CLUSTER) * p.sectorsPerCluster) * p.sectorSize
  }

  /** Clusters lie on the device one after the other, behind the FAT and inside the volume. */
  lemma ClustersOnDevice(p: Params, c: nat, d: nat)
    requires p.Ok() && EndBefore(p, |OBJECTS|) <= p.volumeSize
    requires FIRST_DATA_CLUSTER <= c < d < InitSb(p).clusterCount + FIRST_DATA_CLUSTER
    ensures (InitSb(p).fatSectorStart + InitSb(p).fatSectorCount) * p.sectorSize <= DeviceOffset(p, c)
    ensures DeviceOffset(p, c) + p.ClusterSize() <= DeviceOffset(p, d)
    ensures DeviceOffset(p, d) + p.ClusterSize() <= p.volumeSize
  {
    hide InitSb, EndBefore, PositionAt, SizeAt, DeviceOffset, FrontClusters, Params.ClusterSize, Params.ClustersMax;
    var k, cs, n := FrontClusters(p), p.ClusterSize(), InitSb(p).clusterCount;
    FrontLayout(p);
    HeapStartAgrees(p);
    GeometryAgrees(p);
    ClusterSizeIs(p);
    OffsetIs(p, c - FIRST_DATA_CLUSTER);
    OffsetIs(p, d - FIRST_DATA_CLUSTER);
    Multiply(c - FIRST_DATA_CLUSTER, d - FIRST_DATA_CLUSTER, cs);
    Multiply(d - FIRST_DATA_CLUSTER, n, cs);
  }

  lemma OffsetIs(p: Params, i: nat)
    requires p.Ok()
    ensures DeviceOffset(p, i + FIRST_DATA_CLUSTER) == FrontClusters(p) * p.ClusterSize() + i * p.ClusterSize()
  {
    var ss, spc, start := p.sectorSize, p.sectorsPerCluster, InitSb(p).clusterSectorStart;
    HeapStartAgrees(p);
    FrontLayout(p);
    ClusterSizeIs(p);
    Regroup(i, ss, spc);
    hide InitSb, EndBefore, PositionAt, SizeAt, FrontClusters, Params.ClusterSize, Params.ClustersMax;
    Spread(start, i * spc, ss);
  }

  lemma Spread(a: int, b: int, d: nat)
    ensures (a + b) * d == a * d + b * d
  {
  }
}
