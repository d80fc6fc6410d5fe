// The word-packed bitmaps of exfat.h (BMAP_GET, BMAP_SET, BMAP_CLR) and the bit search and
// cluster allocator that cluster.c builds on them.

/** One bitmap word, `bitmap_t`: an unsigned 64-bit value with bits numbered from the low end. */
module Words {
  const WORD_BITS: nat := 64
  const ALL_ONES: nat := 0xFFFF_FFFF_FFFF_FFFF

  type Word = w: nat | w <= ALL_ONES

  function Pow2(k: nat): (p: nat)
    ensures p >= 1
  {
    if k == 0 then 1 else 2 * Pow2(k - 1)
  }

  /** w & (1 << k) is non-zero. */
  predicate Bit(w: nat, k: nat) {
    if k == 0 then w % 2 == 1 else Bit(w / 2, k - 1)
  }

  lemma {:induction false} BitNeedsRoom(w: nat, k: nat)
    ensures Bit(w, k) ==> Pow2(k) <= w
  {
    if k > 0 { BitNeedsRoom(w / 2, k - 1); }
  }

  /** w | (1 << k) */
  function SetBit(w: nat, k: nat): nat {
    if Bit(w, k) then w else w + Pow2(k)
  }

  /** w & ~(1 << k) */
  function ClearBit(w: nat, k: nat): nat {
    BitNeedsRoom(w, k);
    if Bit(w, k) then w - Pow2(k) else w
  }

  lemma {:induction false} HalveSet(w: nat, k: nat)
    requires k > 0
    ensures SetBit(w, k) / 2 == SetBit(w / 2, k - 1) && SetBit(w, k) % 2 == w % 2
    ensures ClearBit(w, k) / 2 == ClearBit(w / 2, k - 1) && ClearBit(w, k) % 2 == w % 2
  {
  }

  /** Setting or clearing one bit of a word changes that bit and no other. */
  lemma {:induction false} UpdateBit(w: nat, a: nat, b: nat)
    ensures Bit(SetBit(w, a), b) <==> a == b || Bit(w, b)
    ensures Bit(ClearBit(w, a), b) <==> a != b && Bit(w, b)
  {
    if a > 0 {
      HalveSet(w, a);
      if b > 0 { UpdateBit(w / 2, a - 1, b - 1); }
    }
  }

  lemma {:induction false} BitsFit(w: nat, k: nat, n: nat)
    requires k < n && w < Pow2(n)
    ensures SetBit(w, k) < Pow2(n) && ClearBit(w, k) < Pow2(n)
  {
    if k > 0 {
      HalveSet(w, k);
      BitsFit(w / 2, k - 1, n - 1);
    }
  }

  lemma {:induction false} AllOnes(n: nat, k: nat)
    requires k < n
    ensures Bit(Pow2(n) - 1, k)
  {
    if k > 0 { AllOnes(n - 1, k - 1); assert (Pow2(n) - 1) / 2 == Pow2(n - 1) - 1; }
  }

  lemma {:induction false} ZeroBits(k: nat)
    ensures !Bit(0, k)
  {
    if k > 0 { ZeroBits(k - 1); }
  }

  lemma WordRange()
    ensures Pow2(WORD_BITS) == ALL_ONES + 1
  {
    assert Pow2(8) == 256;
    assert Pow2(16) == 256 * Pow2(8);
    assert Pow2(24) == 256 * Pow2(16);
    assert Pow2(32) == 256 * Pow2(24);
    assert Pow2(40) == 256 * Pow2(32);
    assert Pow2(48) == 256 * Pow2(40);
    assert Pow2(56) == 256 * Pow2(48);
    assert Pow2(64) == 256 * Pow2(56);
  }
}

module Bitmap {
  import opened Basics
  import opened Words

  const FIRST_DATA_CLUSTER: nat := 2
  const LAST_DATA_CLUSTER: nat := 0xFFFF_FFF6
  const CLUSTER_FREE: nat := 0
  const CLUSTER_END: nat := 0xFFFF_FFFF

  /** BMAP_GET */
  predicate Get(bitmap: seq<Word>, i: nat)
    requires i < |bitmap| * WORD_BITS
  {
    Bit(bitmap[i / WORD_BITS], i % WORD_BITS)
  }

  /** Two bitmaps of one length hold the same bits, except that bit i of `after` is v. */
  ghost predicate OneBitChanged(before: seq<Word>, after: seq<Word>, i: nat, v: bool) {
    && |after| == |before|
    && (forall j: nat | j < |before| * WORD_BITS :: Get(after, j) == if j == i then v else Get(before, j))
  }

  lemma OneWordChanged(before: seq<Word>, after: seq<Word>, i: nat, v: bool)
    requires i < |before| * WORD_BITS && |after| == |before|
    requires after == before[i / WORD_BITS := after[i / WORD_BITS]]
    requires after[i / WORD_BITS] ==
             var w := before[i / WORD_BITS]; if v then SetBit(w, i % WORD_BITS) else ClearBit(w, i % WORD_BITS)
    ensures OneBitChanged(before, after, i, v)
  {
    forall j: nat | j < |before| * WORD_BITS
      ensures Get(after, j) == if j == i then v else Get(before, j)
    {
      if j / WORD_BITS == i / WORD_BITS {
        UpdateBit(before[i / WORD_BITS], i % WORD_BITS, j % WORD_BITS);
      }
    }
  }

  /** BMAP_SET */
  method Set(bitmap: array<Word>, i: nat)
    requires i < bitmap.Length * WORD_BITS
    modifies bitmap
    ensures OneBitChanged(old(bitmap[..]), bitmap[..], i, true)
  {
    ghost var before := bitmap[..];
    var w: nat := SetBit(bitmap[i / WORD_BITS], i % WORD_BITS);
    assert w <= ALL_ONES by { WordRange(); BitsFit(bitmap[i / WORD_BITS], i % WORD_BITS, WORD_BITS); }
    bitmap[i / WORD_BITS] := w;
    OneWordChanged(before, bitmap[..], i, true);
  }

  /** BMAP_CLR */
  method Clear(bitmap: array<Word>, i: nat)
    requires i < bitmap.Length * WORD_BITS
    modifies bitmap
    ensures OneBitChanged(old(bitmap[..]), bitmap[..], i, false)
  {
    ghost var before := bitmap[..];
    var w: nat := ClearBit(bitmap[i / WORD_BITS], i % WORD_BITS);
    assert w <= ALL_ONES by { WordRange(); BitsFit(bitmap[i / WORD_BITS], i % WORD_BITS, WORD_BITS); }
    bitmap[i / WORD_BITS] := w;
    OneWordChanged(before, bitmap[..], i, false);
  }

  /** A word whose value is all ones has no clear bit, so the search may skip it. */
  lemma FullWord(bitmap: seq<Word>, i: nat)
    requires i < |bitmap| && bitmap[i] == ALL_ONES
    ensures forall j: nat | i * WORD_BITS <= j < (i + 1) * WORD_BITS :: Get(bitmap, j)
  {
    WordRange();
    forall j: nat | i * WORD_BITS <= j < (i + 1) * WORD_BITS
      ensures Get(bitmap, j)
    {
      AllOnes(WORD_BITS, j % WORD_BITS);
    }
  }

  /** Finds the least clear bit of [start, end), sets it and returns its cluster number. */
  method FindBitAndSet(bitmap: array<Word>, start: nat, end: nat) returns (cluster: nat)
    requires end <= bitmap.Length * WORD_BITS
    requires end + FIRST_DATA_CLUSTER <= CLUSTER_END
    modifies bitmap
    ensures cluster == CLUSTER_END <==> forall j: nat | start <= j < end :: Get(old(bitmap[..]), j)
    ensures cluster == CLUSTER_END ==> bitmap[..] == old(bitmap[..])
    ensures cluster != CLUSTER_END ==>
              var c := cluster - FIRST_DATA_CLUSTER;
              && start <= c < end && !Get(old(bitmap[..]), c)
              && (forall j: nat | start <= j < c :: Get(old(bitmap[..]), j))
              && OneBitChanged(old(bitmap[..]), bitmap[..], c, true)
  {
    var startIndex := start / WORD_BITS;
    var endIndex := DivRoundUp(end, WORD_BITS);
    var i := startIndex;
    while i < endIndex
      invariant startIndex <= i
      invariant bitmap[..] == old(bitmap[..])
      invariant forall j: nat | start <= j < Min(i * WORD_BITS, end) :: Get(old(bitmap[..]), j)
    {
      if bitmap[i] == ALL_ONES {
        FullWord(bitmap[..], i);
      } else {
        var c := Max(i * WORD_BITS, start);
        var endBitIndex := Min((i + 1) * WORD_BITS, end);
        while c < endBitIndex
          invariant bitmap[..] == old(bitmap[..])
          invariant start <= c
          invariant forall j: nat | start <= j < Min(c, end) :: Get(old(bitmap[..]), j)
        {
          if !Get(bitmap[..], c) {
            Set(bitmap, c);
            return c + FIRST_DATA_CLUSTER;
          }
          c := c + 1;
        }
      }
      i := i + 1;
    }
    return CLUSTER_END;
  }
}

/** The allocation bitmap of a mounted volume, `ef->cmap`. */
module ClusterMaps {
  import opened Words
  import opened Bitmap

  /** Least cluster number of [lo, hi) that is not in use, or CLUSTER_END. */
  function FirstFree(used: set<nat>, lo: nat, hi: nat): (c: nat)
    requires hi <= CLUSTER_END
    ensures c == CLUSTER_END <==> forall j: nat | lo <= j < hi :: j in used
    ensures c != CLUSTER_END ==> lo <= c < hi && c !in used && forall j: nat | lo <= j < c :: j in used
    decreases hi - lo
  {
    if lo >= hi then CLUSTER_END else if lo !in used then lo else FirstFree(used, lo + 1, hi)
  }

  /** Where a search that was given this hint begins. */
  function SearchStart(size: nat, hint: nat): nat {
    if FIRST_DATA_CLUSTER <= hint < size + FIRST_DATA_CLUSTER then hint else FIRST_DATA_CLUSTER
  }

  /** First free cluster at or cyclically after the hint. */
  function NextFit(used: set<nat>, size: nat, hint: nat): (c: nat)
    requires size + FIRST_DATA_CLUSTER <= CLUSTER_END
  {
    var start := SearchStart(size, hint);
    var c := FirstFree(used, start, size + FIRST_DATA_CLUSTER);
    if c != CLUSTER_END then c else FirstFree(used, FIRST_DATA_CLUSTER, start)
  }

  /** !CLUSTER_INVALID */
  predicate DataCluster(size: nat, c: nat) {
    FIRST_DATA_CLUSTER <= c < size + FIRST_DATA_CLUSTER
  }

  function AllClusters(size: nat): (s: set<nat>) {
    set c: nat | c < size + FIRST_DATA_CLUSTER && DataCluster(size, c)
  }

  /** The search fails exactly on a full bitmap; otherwise it yields a free cluster of the heap, and
      every cluster it passed on the way is in use. */
  lemma NextFitIsFree(used: set<nat>, size: nat, hint: nat)
    requires size + FIRST_DATA_CLUSTER <= CLUSTER_END
    ensures var c := NextFit(used, size, hint);
            && (c == CLUSTER_END <==> AllClusters(size) <= used)
            && (c != CLUSTER_END ==> c in AllClusters(size) - used)
            && (c != CLUSTER_END ==>
                  var start := SearchStart(size, hint);
                  forall j | j in AllClusters(size) &&
                             (if c >= start then start <= j < c else j >= start || j < c) :: j in used)
  {
  }

  /** The words hold one bit per cluster: set exactly for the clusters in use. */
  ghost predicate Represents(size: nat, bits: seq<Word>, used: set<nat>) {
    && size + FIRST_DATA_CLUSTER <= LAST_DATA_CLUSTER + 1
    && size <= |bits| * WORD_BITS
    && used <= AllClusters(size)
    && (forall i: nat | i < size :: Get(bits, i) <==> i + FIRST_DATA_CLUSTER in used)
  }

  class ClusterMap {
    const size: nat
    const start: nat              // the cluster where the bitmap lies on the device
    const chunk: array<Word>
    var dirty: bool
    ghost var onDisk: seq<Word>   // the bitmap as it was read or last written
    ghost var used: set<nat>

    ghost predicate Valid()
      reads this, chunk
    {
      Represents(size, chunk[..], used) && (!dirty ==> onDisk == chunk[..])
    }

    /** Takes over a bitmap that was read from the device. */
    constructor (size: nat, start: nat, chunk: array<Word>)
      requires size + FIRST_DATA_CLUSTER <= LAST_DATA_CLUSTER + 1
      requires size <= chunk.Length * WORD_BITS
      ensures Valid() && this.size == size && this.start == start && this.chunk == chunk && onDisk == chunk[..] && !dirty
      ensures forall c: nat :: c in used <==> DataCluster(size, c) && Get(chunk[..], c - FIRST_DATA_CLUSTER)
    {
      this.size, this.start := size, start;
      this.chunk := chunk;
      this.dirty := false;
      this.onDisk := chunk[..];
      this.used := set c: nat | c < size + FIRST_DATA_CLUSTER && DataCluster(size, c) &&
                                Get(chunk[..], c - FIRST_DATA_CLUSTER);
    }

    method Search(lo: nat, hi: nat) returns (cluster: nat)
      requires Valid() && hi <= size
      modifies `used, chunk
      ensures cluster == FirstFree(old(used), lo + FIRST_DATA_CLUSTER, hi + FIRST_DATA_CLUSTER)
      ensures cluster == CLUSTER_END ==> chunk[..] == old(chunk[..]) && used == old(used)
      ensures cluster != CLUSTER_END ==> used == old(used) + {cluster}
      ensures Represents(size, chunk[..], used)
    {
      ghost var before := chunk[..];
      cluster := FindBitAndSet(chunk, lo, hi);
      FirstFreeMatches(before, used, size, lo, hi, cluster);
      if cluster != CLUSTER_END {
        used := used + {cluster};
      }
    }

    /** allocate_cluster; the hint arithmetic is that of an unsigned 32-bit integer. */
    method Allocate(hint: nat) returns (cluster: nat)
      requires Valid() && hint <= CLUSTER_END
      modifies `used, `dirty, chunk
      ensures Valid()
      ensures cluster == NextFit(old(used), size, hint)
      ensures used == if cluster == CLUSTER_END then old(used) else old(used) + {cluster}
    {
      var h := (hint + 0x1_0000_0000 - FIRST_DATA_CLUSTER) % 0x1_0000_0000;
      if h >= size {
        h := 0;
      }
      if size > 0 {
        assert SearchStart(size, hint) == h + FIRST_DATA_CLUSTER;
      }
      cluster := Search(h, size);
      if cluster == CLUSTER_END {
        cluster := Search(0, h);
      }
      if cluster == CLUSTER_END {
        return;
      }
      dirty := true;
    }

    /** free_cluster */
    method Free(cluster: nat)
      requires Valid() && cluster in AllClusters(size)
      modifies `used, `dirty, chunk
      ensures Valid() && used == old(used) - {cluster}
    {
      Clear(chunk, cluster - FIRST_DATA_CLUSTER);
      dirty := true;
      used := used - {cluster};
    }

    /** exfat_count_free_clusters */
    method CountFree() returns (n: nat)
      requires Valid()
      ensures n == |AllClusters(size) - used|
    {
      n := 0;
      ghost var counted: set<nat> := {};
      for i := 0 to size
        invariant counted == AllClusters(i) - used
        invariant n == |counted|
      {
        if !Get(chunk[..], i) {
          n := n + 1;
          counted := counted + {i + FIRST_DATA_CLUSTER};
        }
      }
    }
  }

  /** A bit search over the words finds what FirstFree finds over the set of used clusters. */
  lemma FirstFreeMatches(bits: seq<Word>, used: set<nat>, size: nat, lo: nat, hi: nat, cluster: nat)
    requires hi <= size <= |bits| * WORD_BITS && size + FIRST_DATA_CLUSTER <= CLUSTER_END
    requires forall i: nat | i < size :: Get(bits, i) <==> i + FIRST_DATA_CLUSTER in used
    requires cluster == CLUSTER_END <==> forall j: nat | lo <= j < hi :: Get(bits, j)
    requires cluster != CLUSTER_END ==>
               var c := cluster - FIRST_DATA_CLUSTER;
               lo <= c < hi && !Get(bits, c) && forall j: nat | lo <= j < c :: Get(bits, j)
    ensures cluster == FirstFree(used, lo + FIRST_DATA_CLUSTER, hi + FIRST_DATA_CLUSTER)
  {
    var f := FirstFree(used, lo + FIRST_DATA_CLUSTER, hi + FIRST_DATA_CLUSTER);
    if f != CLUSTER_END {
      assert !Get(bits, f - FIRST_DATA_CLUSTER);
    }
    if cluster != CLUSTER_END && f != CLUSTER_END {
      assert !(cluster < f);
      assert !(f < cluster);
    }
  }
}
