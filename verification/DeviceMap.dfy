// The allocation bitmap as it lies on the device: exfat_flush of cluster.c, cbm_write of cbm.c and the bitmap entry in
// readdir of node.c.

module DeviceMap {
  import opened Basics
  import opened Words
  import opened Bitmap
  import ClusterMaps
  import opened Chains
  import opened ClusterMath
  import FileBytes
  import LittleEndian

  const WORD_BYTES: nat := 8

  /** Words as they lie in memory, the low byte first. */
  function BytesOf(words: seq<Word>): (bytes: seq<byte>)
    ensures |bytes| == WORD_BYTES * |words|
  {
    seq(WORD_BYTES * |words|, j requires 0 <= j < WORD_BYTES * |words| =>
      LittleEndian.Encode(words[j / WORD_BYTES], WORD_BYTES)[j % WORD_BYTES])
  }

  function WordsOf(bytes: seq<byte>, n: nat): (words: seq<Word>)
    requires |bytes| == WORD_BYTES * n
    ensures |words| == n
  {
    seq(n, i requires 0 <= i < n => WordOf(bytes[WORD_BYTES * i..WORD_BYTES * i + WORD_BYTES]))
  }

  function WordOf(bytes: seq<byte>): Word
    requires |bytes| == WORD_BYTES
  {
    LittleEndian.Fits(bytes);
    LittleEndian.Widths();
    LittleEndian.Decode(bytes)
  }

  /** The bits of a byte come first, then those of the rest. */
  lemma BitOfSum(low: byte, rest: nat, k: nat)
    ensures Bit(low + 256 * rest, k) == if k < 8 then Bit(low, k) else Bit(rest, k - 8)
  {
    SplitBits(low, rest, 8, k);
    assert Pow2(8) == 256;
  }

  lemma {:induction false} SplitBits(low: nat, rest: nat, n: nat, k: nat)
    requires low < Pow2(n)
    ensures Bit(low + Pow2(n) * rest, k) == if k < n then Bit(low, k) else Bit(rest, k - n)
  {
    if n > 0 {
      var half := Pow2(n - 1) * rest;
      assert Pow2(n) * rest == 2 * half;
      assert (low + 2 * half) % 2 == low % 2 && (low + 2 * half) / 2 == low / 2 + half;
      if k > 0 {
        SplitBits(low / 2, rest, n - 1, k - 1);
      }
    }
  }

  lemma {:induction false} BitOfEncoded(v: nat, n: nat, k: nat)
    requires k < 8 * n
    ensures Bit(LittleEndian.Encode(v, n)[k / 8], k % 8) == Bit(v, k)
  {
    BitOfSum(v % 256, v / 256, k);
    if k >= 8 {
      BitOfEncoded(v / 256, n - 1, k - 8);
    }
  }

  lemma {:induction false} BitOfDecoded(bytes: seq<byte>, k: nat)
    requires k < 8 * |bytes|
    ensures Bit(LittleEndian.Decode(bytes), k) == Bit(bytes[k / 8], k % 8)
  {
    BitOfSum(bytes[0], LittleEndian.Decode(bytes[1..]), k);
    if k >= 8 {
      BitOfDecoded(bytes[1..], k - 8);
    }
  }

  lemma Places(k: nat)
    ensures k / 8 / WORD_BYTES == k / WORD_BITS && k / 8 % WORD_BYTES == k % WORD_BITS / 8 && k % WORD_BITS % 8 == k % 8
  {
  }

  /** Bit k of the bitmap is bit k % 8 of byte k / 8. */
  lemma BitOfWords(words: seq<Word>, k: nat)
    requires k < WORD_BITS * |words|
    ensures Bit(BytesOf(words)[k / 8], k % 8) == Get(words, k)
  {
    Places(k);
    BitOfEncoded(words[k / WORD_BITS], WORD_BYTES, k % WORD_BITS);
  }

  lemma BitOfBytes(bytes: seq<byte>, n: nat, k: nat)
    requires |bytes| == WORD_BYTES * n && k < WORD_BITS * n
    ensures Get(WordsOf(bytes, n), k) == Bit(bytes[k / 8], k % 8)
  {
    Places(k);
    var i := k / WORD_BITS;
    BitOfDecoded(bytes[WORD_BYTES * i..WORD_BYTES * i + WORD_BYTES], k % WORD_BITS);
  }

  /** The device's byte j behind the start of a cluster. */
  function DeviceByte(cs: nat, heap: seq<seq<byte>>, start: nat, j: nat): byte
    requires cs > 0
  {
    var c := start + ClusterIndex(cs, j);
    if ClusterMaps.DataCluster(|heap|, c) && ClusterOffset(cs, j) < |heap[c - FIRST_DATA_CLUSTER]|
    then heap[c - FIRST_DATA_CLUSTER][ClusterOffset(cs, j)] else 0
  }

  predicate DeviceBit(cs: nat, heap: seq<seq<byte>>, start: nat, k: nat)
    requires cs > 0
  {
    Bit(DeviceByte(cs, heap, start, k / 8), k % 8)
  }

  /** The clusters that n bytes from the start of a cluster reach into. */
  function Extent(cs: nat, start: nat, n: nat): set<nat>
    requires cs > 0
  {
    Elems(RunOf(start, ClustersFor(cs, n)))
  }

  lemma ExtentGrows(cs: nat, start: nat, n: nat, more: nat)
    requires cs > 0 && ClustersFor(cs, n) <= ClustersFor(cs, more)
    ensures Extent(cs, start, n) <= Extent(cs, start, more)
  {
    hide ClustersFor;
    forall c | c in Extent(cs, start, n)
      ensures c in Extent(cs, start, more)
    {
      RunElems(start, ClustersFor(cs, n), c);
      RunElems(start, ClustersFor(cs, more), c);
    }
  }

  lemma ExtentIsInside(cs: nat, start: nat, n: nat, size: nat)
    requires cs > 0 && Extent(cs, start, n) <= ClusterMaps.AllClusters(size) && ClusterMaps.DataCluster(size, start)
    ensures start + ClustersFor(cs, n) <= size + FIRST_DATA_CLUSTER
  {
    hide ClustersFor;
    var k := ClustersFor(cs, n);
    RunElems(start, k, start + k - 1);
  }

  /** exfat_pread from the start of a cluster. */
  function DeviceRead(cs: nat, heap: seq<seq<byte>>, start: nat, n: nat): (bytes: seq<byte>)
    requires cs > 0
    ensures |bytes| == n
  {
    seq(n, j requires 0 <= j < n => DeviceByte(cs, heap, start, j))
  }

  /** exfat_pwrite from the start of a cluster. */
  function DeviceWrite(cs: nat, heap: seq<seq<byte>>, start: nat, bytes: seq<byte>): (after: seq<seq<byte>>)
    requires cs > 0
    ensures |after| == |heap| && forall i | 0 <= i < |heap| :: |after[i]| == |heap[i]|
  {
    seq(|heap|, i requires 0 <= i < |heap| =>
      if i + FIRST_DATA_CLUSTER < start then heap[i]
      else WrittenRow(heap[i], ClusterStart(cs, i + FIRST_DATA_CLUSTER - start), bytes))
  }

  /** A row of which byte 0 is byte `from` of those written. */
  function WrittenRow(row: seq<byte>, from: nat, bytes: seq<byte>): (after: seq<byte>)
    ensures |after| == |row|
    ensures forall o | 0 <= o < |row| :: after[o] == if from + o < |bytes| then bytes[from + o] else row[o]
  {
    seq(|row|, o requires 0 <= o < |row| => if from + o < |bytes| then bytes[from + o] else row[o])
  }

  lemma WrittenByte(cs: nat, heap: seq<seq<byte>>, start: nat, bytes: seq<byte>, j: nat)
    requires cs > 0 && start >= FIRST_DATA_CLUSTER && start + ClusterIndex(cs, j) < |heap| + FIRST_DATA_CLUSTER
    requires forall i | 0 <= i < |heap| :: |heap[i]| == cs
    ensures DeviceByte(cs, DeviceWrite(cs, heap, start, bytes), start, j)
         == if j < |bytes| then bytes[j] else DeviceByte(cs, heap, start, j)
  {
    hide ClusterIndex, ClusterOffset, ClusterStart, WrittenRow;
    Division(cs, j);
    var i, from := start - FIRST_DATA_CLUSTER + ClusterIndex(cs, j), ClusterStart(cs, ClusterIndex(cs, j));
    assert DeviceWrite(cs, heap, start, bytes)[i] == WrittenRow(heap[i], from, bytes);
  }

  /** Writing touches no cluster but those of the extent. */
  lemma WriteStaysInside(cs: nat, heap: seq<seq<byte>>, start: nat, bytes: seq<byte>, c: nat)
    requires cs > 0 && ClusterMaps.DataCluster(|heap|, c) && c !in Extent(cs, start, |bytes|)
    ensures DeviceWrite(cs, heap, start, bytes)[c - FIRST_DATA_CLUSTER] == heap[c - FIRST_DATA_CLUSTER]
  {
    hide ClusterIndex, ClusterOffset, ClusterStart, ClustersFor;
    RunElems(start, ClustersFor(cs, |bytes|), c);
    if start <= c {
      SizeCovers(cs, |bytes|, 0);
      StartOrder(cs, ClustersFor(cs, |bytes|), c - start);
    }
  }

  /** The bitmap object on the device holds these words. */
  ghost predicate OnDevice(cs: nat, heap: seq<seq<byte>>, start: nat, words: seq<Word>)
    requires cs > 0
  {
    forall k: nat | k < WORD_BITS * |words| :: DeviceBit(cs, heap, start, k) == Get(words, k)
  }

  lemma WrittenMap(cs: nat, heap: seq<seq<byte>>, start: nat, words: seq<Word>)
    requires cs > 0 && forall i | 0 <= i < |heap| :: |heap[i]| == cs
    requires start >= FIRST_DATA_CLUSTER
    requires start + ClustersFor(cs, WORD_BYTES * |words|) <= |heap| + FIRST_DATA_CLUSTER
    ensures OnDevice(cs, DeviceWrite(cs, heap, start, BytesOf(words)), start, words)
  {
    hide ClusterIndex, ClusterOffset, ClusterStart, ClustersFor, DeviceByte, DeviceWrite, BytesOf;
    forall k: nat | k < WORD_BITS * |words|
      ensures DeviceBit(cs, DeviceWrite(cs, heap, start, BytesOf(words)), start, k) == Get(words, k)
    {
      SizeCovers(cs, WORD_BYTES * |words|, k / 8);
      WrittenByte(cs, heap, start, BytesOf(words), k / 8);
      BitOfWords(words, k);
    }
  }

  /** What other operations do to other clusters does not matter. */
  lemma OnDeviceKept(cs: nat, heap0: seq<seq<byte>>, heap1: seq<seq<byte>>, start: nat, words: seq<Word>, kept: set<nat>)
    requires cs > 0 && OnDevice(cs, heap0, start, words) && FileBytes.SameRows(heap0, heap1, kept)
    requires Extent(cs, start, WORD_BYTES * |words|) <= kept
    ensures OnDevice(cs, heap1, start, words)
  {
    hide ClusterIndex, ClusterOffset, ClustersFor, Get, Bit;
    forall k: nat | k < WORD_BITS * |words|
      ensures DeviceBit(cs, heap1, start, k) == DeviceBit(cs, heap0, start, k)
    {
      SizeCovers(cs, WORD_BYTES * |words|, k / 8);
      RunElems(start, ClustersFor(cs, WORD_BYTES * |words|), start + ClusterIndex(cs, k / 8));
    }
  }

  /** The words read back from the bitmap object. */
  lemma ReadMap(cs: nat, heap: seq<seq<byte>>, start: nat, n: nat)
    requires cs > 0
    ensures OnDevice(cs, heap, start, WordsOf(DeviceRead(cs, heap, start, WORD_BYTES * n), n))
  {
    hide DeviceByte, WordsOf;
    var bytes := DeviceRead(cs, heap, start, WORD_BYTES * n);
    forall k: nat | k < WORD_BITS * n
      ensures DeviceBit(cs, heap, start, k) == Get(WordsOf(bytes, n), k)
    {
      BitOfBytes(bytes, n, k);
    }
  }
}
