// Cluster chains of exFAT files: cluster.c, from exfat_next_cluster to shrink_file.

/** How a file's clusters are recorded, as predicates on the FAT's entries. */
module Chains {
  import opened Basics
  import opened Bitmap
  import opened ClusterMaps

  predicate NoDup(s: seq<nat>) {
    forall i, j | 0 <= i < j < |s| :: s[i] != s[j]
  }

  function Elems(s: seq<nat>): set<nat> {
    set c | c in s
  }

  /** The chain of `count` clusters from `first` on. */
  function RunOf(first: nat, count: nat): (chain: seq<nat>)
    ensures |chain| == count && forall i | 0 <= i < count :: chain[i] == first + i
  {
    seq(count, i => first + i)
  }

  /** The clusters of a run are the numbers of an interval. */
  lemma RunElems(first: nat, count: nat, c: nat)
    ensures c in Elems(RunOf(first, count)) <==> first <= c < first + count
  {
    if first <= c < first + count {
      assert RunOf(first, count)[c - first] == c;
    }
  }

  lemma {:induction false} ElemsOfNoDup(s: seq<nat>)
    requires NoDup(s)
    ensures |Elems(s)| == |s|
  {
    if s != [] {
      ElemsOfNoDup(s[1..]);
      assert Elems(s) == Elems(s[1..]) + {s[0]};
    }
  }

  lemma {:induction false} CountClusters(size: nat)
    ensures |AllClusters(size)| == size
  {
    if size > 0 {
      CountClusters(size - 1);
      assert AllClusters(size) == AllClusters(size - 1) + {size - 1 + FIRST_DATA_CLUSTER};
    } else {
      assert AllClusters(0) == {};
    }
  }

  /** The number of clusters a file can have: all but those in use by others. */
  ghost function Capacity(count: nat, used: set<nat>, chain: seq<nat>): nat {
    |AllClusters(count) - (used - Elems(chain))|
  }

  lemma CapacityIsChainAndFree(count: nat, used: set<nat>, chain: seq<nat>)
    requires NoDup(chain) && Elems(chain) <= used <= AllClusters(count)
    ensures Capacity(count, used, chain) == |chain| + |AllClusters(count) - used|
    ensures |chain| <= count
  {
    ElemsOfNoDup(chain);
    CountClusters(count);
    assert AllClusters(count) - (used - Elems(chain)) == Elems(chain) + (AllClusters(count) - used);
    assert AllClusters(count) == Elems(chain) + (AllClusters(count) - Elems(chain));
  }

  lemma SplitNoDup(s: seq<nat>, k: nat)
    requires NoDup(s) && k <= |s|
    ensures NoDup(s[..k]) && NoDup(s[k..])
    ensures Elems(s[..k]) !! Elems(s[k..]) && Elems(s) == Elems(s[..k]) + Elems(s[k..])
  {
  }

  ghost predicate InHeap(count: nat, fat: seq<u32>, chain: seq<nat>) {
    && count + FIRST_DATA_CLUSTER <= LAST_DATA_CLUSTER + 1
    && |fat| >= count + FIRST_DATA_CLUSTER
    && forall i | 0 <= i < |chain| :: DataCluster(count, chain[i])
  }

  /** The chain is stored the way the node says: as an interval, or link by link in the FAT. */
  ghost predicate Spelled(count: nat, fat: seq<u32>, chain: seq<nat>, contiguous: bool) {
    && InHeap(count, fat, chain)
    && (contiguous ==> forall i | 0 <= i < |chain| :: chain[i] == chain[0] + i)
    && (!contiguous ==> forall i | 0 <= i < |chain| - 1 :: fat[chain[i]] == chain[i + 1])
  }

  /** The last link of a chain that is spelled out in the FAT is CLUSTER_END. */
  ghost predicate Terminated(fat: seq<u32>, chain: seq<nat>, contiguous: bool) {
    !contiguous && chain != [] ==>
      var last := chain[|chain| - 1]; last < |fat| && fat[last] == CLUSTER_END
  }

  /** A file that keeps clusters begins where it began, and does not come to be contiguous. */
  ghost predicate StaysAnchored(before: seq<nat>, wasContiguous: bool, after: seq<nat>, contiguous: bool) {
    before != [] && after != [] ==> after[0] == before[0] && (contiguous ==> wasContiguous)
  }

  /** The two FATs agree on every cluster of the set. */
  ghost predicate SameFat(before: seq<u32>, after: seq<u32>, clusters: set<nat>) {
    |after| == |before| && forall c | c in clusters && c < |before| :: after[c] == before[c]
  }

  ghost predicate SameOutside(before: seq<u32>, after: seq<u32>, chain: seq<nat>) {
    |after| == |before| && forall c | 0 <= c < |before| && c !in chain :: after[c] == before[c]
  }

  /** The FAT entry of every cluster of [first, last) names its successor; all others are as before. */
  ghost predicate RunFat(before: seq<u32>, after: seq<u32>, first: nat, last: nat) {
    && |after| == |before|
    && forall c | 0 <= c < |before| :: after[c] == if first <= c < last then c + 1 else before[c]
  }

  /** Writing one link extends the chain; writing out a run first turns an interval into links. */
  lemma LinkNext(count: nat, before: seq<u32>, after: seq<u32>, chain: seq<nat>,
                 wasContiguous: bool, contiguous: bool, next: u32)
    requires NoDup(chain) && chain != [] && Spelled(count, before, chain, wasContiguous)
    requires DataCluster(count, next)
    requires var last := chain[|chain| - 1];
             && (contiguous <==> wasContiguous && next == last + 1)
             && (contiguous ==> after == before)
             && (!contiguous ==>
                   exists run :: (if wasContiguous then RunFat(before, run, chain[0], last) else run == before)
                                 && last < |run| && after == run[last := next])
    ensures Spelled(count, after, chain + [next], contiguous)
    ensures SameOutside(before, after, chain)
  {
    var last := chain[|chain| - 1];
    if !contiguous {
      var run :| (if wasContiguous then RunFat(before, run, chain[0], last) else run == before)
                 && last < |run| && after == run[last := next];
      if wasContiguous {
        forall c | chain[0] <= c < last
          ensures c in chain
        {
          assert chain[c - chain[0]] == c;
        }
      }
    }
  }

  /** The FAT after freeing the given clusters of a file. */
  ghost predicate FreedFat(before: seq<u32>, after: seq<u32>, freed: seq<nat>, contiguous: bool) {
    && |after| == |before|
    && forall c | 0 <= c < |before| :: after[c] == if !contiguous && c in Elems(freed) then CLUSTER_FREE else before[c]
  }

  /** Ending a chain early in the FAT leaves both halves walkable. */
  lemma CropFat(count: nat, fat: seq<u32>, chain: seq<nat>, keep: nat, contiguous: bool, cropped: seq<u32>)
    requires NoDup(chain) && Spelled(count, fat, chain, contiguous) && keep < |chain|
    requires cropped == if contiguous || keep == 0 then fat else fat[chain[keep - 1] := CLUSTER_END]
    ensures Spelled(count, cropped, chain[..keep], contiguous) && Terminated(cropped, chain[..keep], contiguous)
    ensures Spelled(count, cropped, chain[keep..], contiguous)
    ensures forall c: nat | c < |fat| && c !in Elems(chain) :: cropped[c] == fat[c]
  {
  }

  /** Freeing a tail does not touch the part of the chain that stays. */
  lemma FreedKeeps(count: nat, before: seq<u32>, after: seq<u32>, chain: seq<nat>, freed: seq<nat>, contiguous: bool)
    requires Spelled(count, before, chain, contiguous) && Terminated(before, chain, contiguous)
    requires FreedFat(before, after, freed, contiguous) && Elems(chain) !! Elems(freed)
    ensures Spelled(count, after, chain, contiguous) && Terminated(after, chain, contiguous)
  {
  }

  /** Freeing the front of a chain leaves the rest of it to walk. */
  lemma FreedLeavesRest(count: nat, before: seq<u32>, after: seq<u32>, chain: seq<nat>, k: nat, contiguous: bool)
    requires NoDup(chain) && Spelled(count, before, chain, contiguous) && k <= |chain|
    requires FreedFat(before, after, chain[..k], contiguous)
    ensures Spelled(count, after, chain[k..], contiguous)
  {
    SplitNoDup(chain, k);
  }

  /** Greedy next-fit growth of a chain by k clusters. */
  datatype Growth = Grown(chain: seq<nat>) | Full

  /** The hint of the next allocation: the cluster after the last one, or 0 for an empty file. */
  function HintAfter(chain: seq<nat>): nat {
    if chain == [] then 0 else chain[|chain| - 1] + 1
  }

  ghost function GrowBy(used: set<nat>, count: nat, chain: seq<nat>, k: nat): Growth
    requires count + FIRST_DATA_CLUSTER <= CLUSTER_END
    decreases k
  {
    if k == 0 then Grown(chain)
    else
      var c := NextFit(used, count, HintAfter(chain));
      if c == CLUSTER_END then Full else GrowBy(used + {c}, count, chain + [c], k - 1)
  }

  /** Growth succeeds exactly when there are enough free clusters; what it adds is new to the bitmap. */
  lemma {:induction false} GrowthIsExact(used: set<nat>, count: nat, chain: seq<nat>, k: nat)
    requires count + FIRST_DATA_CLUSTER <= CLUSTER_END
    requires Elems(chain) <= used <= AllClusters(count) && NoDup(chain)
    ensures GrowBy(used, count, chain, k) == Full <==> |AllClusters(count) - used| < k
    ensures match GrowBy(used, count, chain, k)
            case Grown(grown) =>
              && chain <= grown && |grown| == |chain| + k && NoDup(grown)
              && Elems(grown) <= AllClusters(count) && Elems(grown[|chain|..]) !! used
            case Full => true
    decreases k
  {
    hide NextFit, DataCluster;
    if k > 0 {
      var c := NextFit(used, count, HintAfter(chain));
      NextFitIsFree(used, count, HintAfter(chain));
      if c == CLUSTER_END {
        assert AllClusters(count) - used == {};
      } else {
        var used1, next := used + {c}, chain + [c];
        assert AllClusters(count) - used1 == (AllClusters(count) - used) - {c};
        assert Elems(next) == Elems(chain) + {c};
        GrowthIsExact(used1, count, next, k - 1);
        var g := GrowBy(used1, count, next, k - 1);
        assert GrowBy(used, count, chain, k) == g;
        if g.Grown? {
          assert |next| == |chain| + 1;
          SplitAfter(chain, c, g.chain, used);
        }
      }
    }
  }

  lemma SplitAfter(chain: seq<nat>, c: nat, grown: seq<nat>, used: set<nat>)
    requires chain + [c] <= grown && c !in used && Elems(grown[|chain| + 1..]) !! used + {c}
    ensures chain <= grown && Elems(grown[|chain|..]) !! used
  {
  }

  /** Where a growth stands after `added` of its clusters. */
  ghost predicate GrowState(used0: set<nat>, count: nat, chain0: seq<nat>, difference: nat,
                            used: set<nat>, chain: seq<nat>, added: nat)
    requires count + FIRST_DATA_CLUSTER <= CLUSTER_END
  {
    && added <= difference && |chain| == |chain0| + added
    && chain[..|chain0|] == chain0 && used0 !! Elems(chain[|chain0|..])
    && used == used0 + Elems(chain)
    && GrowBy(used0, count, chain0, difference) == GrowBy(used, count, chain, difference - added)
  }

  lemma GrowStep(used0: set<nat>, count: nat, chain0: seq<nat>, difference: nat,
                 used: set<nat>, chain: seq<nat>, added: nat, c: nat)
    requires count + FIRST_DATA_CLUSTER <= CLUSTER_END
    requires GrowState(used0, count, chain0, difference, used, chain, added) && added < difference
    requires c == NextFit(used, count, HintAfter(chain))
    ensures c == CLUSTER_END ==> GrowBy(used0, count, chain0, difference) == Full
    ensures c != CLUSTER_END ==> GrowState(used0, count, chain0, difference, used + {c}, chain + [c], added + 1)
  {
  }

  /** All of a growth or nothing of it. */
  ghost predicate GrowEnd(used0: set<nat>, count: nat, chain0: seq<nat>, difference: nat,
                          success: bool, used: set<nat>, chain: seq<nat>)
    requires count + FIRST_DATA_CLUSTER <= CLUSTER_END
  {
    && GrowBy(used0, count, chain0, difference) == (if success then Grown(chain) else Full)
    && used == (if success then used0 + Elems(chain) else used0)
    && (!success ==> chain == chain0)
  }

  lemma GrowBegin(used0: set<nat>, count: nat, chain0: seq<nat>, difference: nat)
    requires count + FIRST_DATA_CLUSTER <= CLUSTER_END && Elems(chain0) <= used0
    ensures GrowState(used0, count, chain0, difference, used0, chain0, 0)
  {
  }

  lemma LastIsNew(used0: set<nat>, count: nat, chain0: seq<nat>, difference: nat,
                  used: set<nat>, chain: seq<nat>, added: nat)
    requires count + FIRST_DATA_CLUSTER <= CLUSTER_END && difference == added
    requires GrowState(used0, count, chain0, difference, used, chain, added) && chain != []
    ensures chain[|chain| - 1] !in used0 - Elems(chain0)
    ensures GrowEnd(used0, count, chain0, difference, true, used, chain)
  {
  }

  lemma RollBack(used0: set<nat>, count: nat, chain0: seq<nat>, difference: nat,
                 used: set<nat>, chain: seq<nat>, added: nat)
    requires count + FIRST_DATA_CLUSTER <= CLUSTER_END
    requires GrowState(used0, count, chain0, difference, used, chain, added) && Elems(chain0) <= used0
    ensures used - Elems(chain[|chain0|..]) == used0 && chain[..|chain0|] == chain0
  {
  }

  lemma SameFatRollBack(fat0: seq<u32>, fat1: seq<u32>, fat2: seq<u32>, used0: set<nat>, chain0: seq<nat>,
                        used1: set<nat>, chain1: seq<nat>)
    requires SameFat(fat0, fat1, used0 - Elems(chain0)) && SameFat(fat1, fat2, used1 - Elems(chain1))
    requires chain0 <= chain1 && used0 !! Elems(chain1[|chain0|..]) && used0 <= used1
    ensures SameFat(fat0, fat2, used0 - Elems(chain0))
  {
  }

  lemma SameFatStep(fat0: seq<u32>, fat1: seq<u32>, fat2: seq<u32>, used0: set<nat>, chain0: seq<nat>, chain1: seq<nat>)
    requires SameFat(fat0, fat1, used0 - Elems(chain0)) && SameOutside(fat1, fat2, chain1)
    requires chain0 <= chain1 && used0 !! Elems(chain1[|chain0|..])
    ensures SameFat(fat0, fat2, used0 - Elems(chain0))
  {
  }
}

module Volumes {
  import opened Basics
  import opened Bitmap
  import opened ClusterMaps
  import opened Chains

  datatype Status = Ok | NoSpace

  /** exfat_node, as far as its clusters and bytes are concerned. */
  class Node {
    var startCluster: u32
    var fptrIndex: nat
    var fptrCluster: u32
    var isContiguous: bool
    var isDirty: bool
    var size: nat
    var validSize: nat
    ghost var chain: seq<nat>     // the clusters of the file, in file order
    ghost var content: seq<byte>  // what a reader of the file sees

    constructor ()
      ensures startCluster == CLUSTER_FREE && fptrIndex == 0 && fptrCluster == CLUSTER_FREE
      ensures !isContiguous && !isDirty && size == 0 && validSize == 0 && chain == [] && content == []
    {
      startCluster, fptrIndex, fptrCluster := 0, 0, 0;
      isContiguous, isDirty, size, validSize := false, false, 0, 0;
      chain, content := [], [];
    }

    /** The start cluster and the memoised cursor agree with the chain. */
    ghost predicate Linked()
      reads this
    {
      && NoDup(chain)
      && (chain == [] <==> startCluster == CLUSTER_FREE)
      && (chain == [] ==> fptrIndex == 0)
      && (chain != [] ==> startCluster == chain[0] && fptrIndex < |chain| && fptrCluster == chain[fptrIndex])
    }
  }

  /** The device has a FAT entry and a full cluster of bytes for every cluster number. */
  ghost predicate Shaped(clusterCount: nat, clusterSize: nat, fat: seq<u32>, heap: seq<seq<byte>>) {
    && clusterSize > 0 && |fat| >= clusterCount + FIRST_DATA_CLUSTER
    && |heap| == clusterCount && forall i | 0 <= i < |heap| :: |heap[i]| == clusterSize
  }

  class Volume {
    const clusterCount: nat
    const clusterSize: nat
    const cmap: ClusterMap
    var fat: seq<u32>          // the device's FAT, one entry per cluster number
    var heap: seq<seq<byte>>   // the device's cluster heap: heap[c - 2] is data cluster c

    constructor (clusterSize: nat, cmap: ClusterMap, fat: seq<u32>, heap: seq<seq<byte>>)
      ensures this.clusterCount == |heap| && this.clusterSize == clusterSize
      ensures this.cmap == cmap && this.fat == fat && this.heap == heap
    {
      this.clusterCount, this.clusterSize := |heap|, clusterSize;
      this.cmap, this.fat, this.heap := cmap, fat, heap;
    }

    ghost predicate Valid()
      reads this, cmap, cmap.chunk
    {
      cmap.Valid() && cmap.size == clusterCount && Shaped(clusterCount, clusterSize, fat, heap)
    }

    /** A file whose clusters are allocated to it and can be walked. */
    ghost predicate Chained(n: Node)
      reads this, n, cmap
    {
      n.Linked() && Spelled(clusterCount, fat, n.chain, n.isContiguous) && Elems(n.chain) <= cmap.used
    }

    /** exfat_next_cluster: the walk goes along the chain, and off its end comes to the end mark. */
    method NextCluster(n: Node, cluster: nat, ghost chain: seq<nat>, ghost k: nat) returns (next: nat)
      requires Spelled(clusterCount, fat, chain, n.isContiguous) && k < |chain| && cluster == chain[k]
      ensures k + 1 < |chain| ==> next == chain[k + 1]
      ensures k + 1 == |chain| && !n.isContiguous && Terminated(fat, chain, false) ==> next == CLUSTER_END
    {
      if n.isContiguous {
        return cluster + 1;
      }
      return fat[cluster];
    }

    /** exfat_advance_cluster: the memoised walk finds the count-th cluster of the chain. */
    method AdvanceCluster(n: Node, count: nat) returns (cluster: u32)
      requires n.Linked() && Spelled(clusterCount, fat, n.chain, n.isContiguous)
      requires count < |n.chain|
      modifies n`fptrIndex, n`fptrCluster
      ensures n.Linked() && n.fptrIndex == count
      ensures cluster == n.chain[count]
    {
      if n.fptrIndex > count {
        n.fptrIndex := 0;
        n.fptrCluster := n.startCluster;
      }
      var i := n.fptrIndex;
      while i < count
        invariant n.fptrIndex <= i <= count && n.fptrCluster == n.chain[i]
      {
        n.fptrCluster := NextCluster(n, n.fptrCluster, n.chain, i);
        i := i + 1;
        assert n.fptrCluster == n.chain[i];
        if !DataCluster(clusterCount, n.fptrCluster) {
          assert false;
        }
      }
      n.fptrIndex := count;
      cluster := n.fptrCluster;
    }

    /** set_next_cluster */
    method SetNextCluster(contiguous: bool, current: nat, next: u32)
      requires current < |fat|
      modifies this`fat
      ensures fat == if contiguous then old(fat) else old(fat)[current := next]
    {
      if !contiguous {
        fat := fat[current := next];
      }
    }

    /** make_noncontiguous */
    method MakeNoncontiguous(first: nat, last: nat)
      requires first <= last < |fat| && last < 0xFFFF_FFFF
      modifies this`fat
      ensures RunFat(old(fat), fat, first, last)
    {
      var c := first;
      while c < last
        invariant first <= c <= last && RunFat(old(fat), fat, first, c)
      {
        SetNextCluster(false, c, c + 1);
        c := c + 1;
      }
    }

    /** The loop of shrink_file that gives back the clusters of a tail of the chain. */
    method FreeClusters(n: Node, first: u32, count: nat, ghost tail: seq<nat>)
      requires Valid() && NoDup(tail) && Spelled(clusterCount, fat, tail, n.isContiguous) && Elems(tail) <= cmap.used
      requires 0 < count == |tail| && first == tail[0]
      modifies this`fat, cmap`used, cmap`dirty, cmap.chunk
      ensures Valid() && cmap.used == old(cmap.used) - Elems(tail)
      ensures FreedFat(old(fat), fat, tail, n.isContiguous)
    {
      var previous, left := first, count;
      ghost var k := 0;
      while left > 0
        invariant left == |tail| - k && Valid()
        invariant k < |tail| ==> previous == tail[k]
        invariant cmap.used == old(cmap.used) - Elems(tail[..k])
        invariant FreedFat(old(fat), fat, tail[..k], n.isContiguous)
      {
        if !DataCluster(clusterCount, previous) {
          assert false;
        }
        FreedLeavesRest(clusterCount, old(fat), fat, tail, k, n.isContiguous);
        var next := NextCluster(n, previous, tail[k..], 0);
        SetNextCluster(n.isContiguous, previous, CLUSTER_FREE);
        cmap.Free(previous);
        assert tail[..k + 1] == tail[..k] + [tail[k]];
        previous := next;
        left := left - 1;
        k := k + 1;
      }
      assert tail[..k] == tail;
    }

    /** The first half of shrink_file: end the chain after `keep` clusters and find the rest of it. */
    method Crop(n: Node, keep: nat) returns (rest: u32)
      requires n.Linked() && Spelled(clusterCount, fat, n.chain, n.isContiguous) && keep < |n.chain|
      modifies n`startCluster, n`fptrIndex, n`fptrCluster, n`isDirty, n`chain, this`fat
      ensures n.Linked() && n.chain == old(n.chain)[..keep] && rest == old(n.chain)[keep]
      ensures fat == if n.isContiguous || keep == 0 then old(fat) else old(fat)[old(n.chain)[keep - 1] := CLUSTER_END]
    {
      if keep > 0 {
        var last := AdvanceCluster(n, keep - 1);
        rest := NextCluster(n, last, n.chain, keep - 1);
        SetNextCluster(n.isContiguous, last, CLUSTER_END);
      } else {
        rest := n.startCluster;
        n.startCluster := CLUSTER_FREE;
        n.isDirty := true;
      }
      n.fptrIndex := 0;
      n.fptrCluster := n.startCluster;
      n.chain := n.chain[..keep];
    }

    /** shrink_file */
    method ShrinkFile(n: Node, current: nat, difference: nat)
      requires Valid() && Chained(n)
      requires 0 < difference <= current == |n.chain|
      modifies n`startCluster, n`fptrIndex, n`fptrCluster, n`isDirty, n`chain, this`fat, cmap`used, cmap`dirty, cmap.chunk
      ensures Valid() && Chained(n) && Terminated(fat, n.chain, n.isContiguous)
      ensures n.chain == old(n.chain)[..current - difference]
      ensures cmap.used == old(cmap.used) - Elems(old(n.chain)[current - difference..])
      ensures SameFat(old(fat), fat, old(cmap.used) - Elems(old(n.chain)))
      ensures !n.isContiguous ==> forall c | c in old(n.chain)[current - difference..] :: fat[c] == CLUSTER_FREE
    {
      hide NoDup, Spelled, Terminated;
      ghost var chain, keep := n.chain, current - difference;
      SplitNoDup(chain, keep);
      var previous := Crop(n, current - difference);
      ghost var cropped := fat;
      CropFat(clusterCount, old(fat), chain, keep, n.isContiguous, cropped);
      FreeClusters(n, previous, difference, chain[keep..]);
      FreedKeeps(clusterCount, cropped, fat, chain[..keep], chain[keep..], n.isContiguous);
      assert forall c | c in chain[keep..] :: c in Elems(chain[keep..]);
    }

    /** The part of grow_file's loop that links one more cluster, giving up contiguity when it must. */
    method Append(n: Node, previous: nat, next: u32)
      requires n.Linked() && n.chain != [] && previous == n.chain[|n.chain| - 1]
      requires Spelled(clusterCount, fat, n.chain, n.isContiguous)
      requires DataCluster(clusterCount, next) && next !in n.chain
      modifies n`isContiguous, n`isDirty, n`chain, this`fat
      ensures n.Linked() && n.chain == old(n.chain) + [next]
      ensures Spelled(clusterCount, fat, n.chain, n.isContiguous)
      ensures n.isContiguous <==> old(n.isContiguous) && next == previous + 1
      ensures SameOutside(old(fat), fat, old(n.chain))
    {
      ghost var before, wasContiguous := fat, n.isContiguous;
      if next != previous + 1 && n.isContiguous {
        MakeNoncontiguous(n.startCluster, previous);
        n.isContiguous := false;
        n.isDirty := true;
      }
      SetNextCluster(n.isContiguous, previous, next);
      LinkNext(clusterCount, before, fat, n.chain, wasContiguous, n.isContiguous, next);
      n.chain := n.chain + [next];
    }

    /** The body of grow_file's loop: allocate after the last cluster and link what was found. */
    method AllocateNext(n: Node, previous: nat) returns (next: nat)
      requires Valid() && Chained(n) && n.chain != [] && previous == n.chain[|n.chain| - 1]
      modifies n`isContiguous, n`isDirty, n`chain, this`fat, cmap`used, cmap`dirty, cmap.chunk
      ensures Valid() && Chained(n)
      ensures next == NextFit(old(cmap.used), clusterCount, HintAfter(old(n.chain)))
      ensures next == CLUSTER_END || (DataCluster(clusterCount, next) && next !in old(cmap.used))
      ensures next == CLUSTER_END ==> fat == old(fat) && cmap.used == old(cmap.used)
                                      && n.chain == old(n.chain) && n.isContiguous == old(n.isContiguous)
      ensures next != CLUSTER_END ==> cmap.used == old(cmap.used) + {next} && n.chain == old(n.chain) + [next]
      ensures n.isContiguous ==> old(n.isContiguous)
      ensures SameOutside(old(fat), fat, old(n.chain))
    {
      NextFitIsFree(cmap.used, clusterCount, previous + 1);
      next := cmap.Allocate(previous + 1);
      if DataCluster(clusterCount, next) {
        Append(n, previous, next);
      }
    }

    /** The failure exit of grow_file: give back what was added so far. */
    method GiveUp(n: Node, current: nat, difference: nat, added: nat,
                  ghost fat0: seq<u32>, ghost used0: set<nat>, ghost chain0: seq<nat>)
      requires Valid() && Chained(n) && n.chain != []
      requires current == |chain0| && Elems(chain0) <= used0 && SameFat(fat0, fat, used0 - Elems(chain0))
      requires GrowState(used0, clusterCount, chain0, difference, cmap.used, n.chain, added)
      modifies n`startCluster, n`fptrIndex, n`fptrCluster, n`isDirty, n`chain, this`fat, cmap`used, cmap`dirty, cmap.chunk
      ensures Valid() && Chained(n) && n.chain == chain0 && cmap.used == used0
      ensures added > 0 ==> Terminated(fat, n.chain, n.isContiguous)
      ensures added == 0 ==> fat == old(fat)
      ensures SameFat(fat0, fat, used0 - Elems(chain0))
    {
      RollBack(used0, clusterCount, chain0, difference, cmap.used, n.chain, added);
      ghost var used1, chain1, fat1 := cmap.used, n.chain, fat;
      if added != 0 {
        ShrinkFile(n, current + added, added);
        SameFatRollBack(fat0, fat1, fat, used0, chain0, used1, chain1);
      }
    }

    /** The success exit of grow_file: mark the last cluster. */
    method EndChain(n: Node, last: nat, ghost fat0: seq<u32>, ghost clusters: set<nat>)
      requires Valid() && Chained(n) && n.chain != [] && last == n.chain[|n.chain| - 1]
      requires SameFat(fat0, fat, clusters) && last !in clusters
      modifies this`fat
      ensures Valid() && Chained(n) && Terminated(fat, n.chain, n.isContiguous)
      ensures SameFat(fat0, fat, clusters)
    {
      SetNextCluster(n.isContiguous, last, CLUSTER_END);
    }

    /** The loop of grow_file and what follows it, entered after `start` clusters were added to chain0. */
    method GrowOn(n: Node, current: nat, difference: nat, last: nat, start: nat,
                  ghost fat0: seq<u32>, ghost used0: set<nat>, ghost chain0: seq<nat>)
      returns (status: Status)
      requires Valid() && Chained(n) && n.chain != [] && last == n.chain[|n.chain| - 1]
      requires current == |chain0| && Elems(chain0) <= used0 && SameFat(fat0, fat, used0 - Elems(chain0))
      requires GrowState(used0, clusterCount, chain0, difference, cmap.used, n.chain, start)
      requires start == 0 ==> Terminated(fat, n.chain, n.isContiguous)
      modifies n`startCluster, n`fptrIndex, n`fptrCluster, n`isContiguous, n`isDirty, n`chain
      modifies this`fat, cmap`used, cmap`dirty, cmap.chunk
      ensures Valid() && Chained(n) && Terminated(fat, n.chain, n.isContiguous)
      ensures GrowEnd(used0, clusterCount, chain0, difference, status == Ok, cmap.used, n.chain)
      ensures SameFat(fat0, fat, used0 - Elems(chain0)) && (n.isContiguous ==> old(n.isContiguous))
    {
      hide Spelled, NoDup, Node.Linked, Volume.Chained, GrowBy, NextFit;
      var previous, added := last, start;
      while added < difference
        invariant Valid() && Chained(n) && n.chain != []
        invariant previous == n.chain[|n.chain| - 1]
        invariant GrowState(used0, clusterCount, chain0, difference, cmap.used, n.chain, added)
        invariant added == 0 ==> Terminated(fat, n.chain, n.isContiguous)
        invariant SameFat(fat0, fat, used0 - Elems(chain0)) && (n.isContiguous ==> old(n.isContiguous))
      {
        ghost var used1, chain1, fat1 := cmap.used, n.chain, fat;
        var next := AllocateNext(n, previous);
        GrowStep(used0, clusterCount, chain0, difference, used1, chain1, added, next);
        SameFatStep(fat0, fat1, fat, used0, chain0, chain1);
        if !DataCluster(clusterCount, next) {
          GiveUp(n, current, difference, added, fat0, used0, chain0);
          return NoSpace;
        }
        previous := next;
        added := added + 1;
      }
      LastIsNew(used0, clusterCount, chain0, difference, cmap.used, n.chain, added);
      EndChain(n, previous, fat0, used0 - Elems(chain0));
      status := Ok;
    }

    /** grow_file: next-fit growth, all of it or none of it. */
    method GrowFile(n: Node, current: nat, difference: nat) returns (status: Status)
      requires Valid() && Chained(n) && Terminated(fat, n.chain, n.isContiguous)
      requires current == |n.chain| && difference > 0
      modifies n`startCluster, n`fptrIndex, n`fptrCluster, n`isContiguous, n`isDirty, n`chain
      modifies this`fat, cmap`used, cmap`dirty, cmap.chunk
      ensures Valid() && Chained(n) && Terminated(fat, n.chain, n.isContiguous)
      ensures GrowEnd(old(cmap.used), clusterCount, old(n.chain), difference, status == Ok, cmap.used, n.chain)
      ensures SameFat(old(fat), fat, old(cmap.used) - Elems(old(n.chain)))
      ensures old(n.chain) != [] && n.isContiguous ==> old(n.isContiguous)
    {
      hide GrowBy;
      ghost var chain0, used0 := n.chain, cmap.used;
      var previous: nat;
      var added := 0;
      if n.startCluster != CLUSTER_FREE {
        previous := AdvanceCluster(n, current - 1);
        GrowBegin(used0, clusterCount, chain0, difference);
      } else {
        NextFitIsFree(used0, clusterCount, 0);
        previous := cmap.Allocate(0);
        GrowBegin(used0, clusterCount, chain0, difference);
        GrowStep(used0, clusterCount, chain0, difference, used0, chain0, 0, previous);
        if !DataCluster(clusterCount, previous) {
          return NoSpace;
        }
        n.startCluster, n.fptrCluster := previous, previous;
        n.chain := [previous];
        added := 1;
        n.isContiguous := true;
      }
      status := GrowOn(n, current, difference, previous, added, fat, used0, chain0);
    }
  }
}
