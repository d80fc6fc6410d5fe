// Byte positions of a file and the clusters they fall in, for any cluster size. The products and
// quotients appear only here; other modules hide these definitions and use the lemmas.

module ClusterMath {
  import opened Basics

  /** The cluster of a file, counted from its start, that holds byte j. */
  function ClusterIndex(cs: nat, j: nat): nat
    requires cs > 0
  {
    j / cs
  }

  /** Where byte j lies in its cluster. */
  function ClusterOffset(cs: nat, j: nat): nat
    requires cs > 0
  {
    j % cs
  }

  /** The first byte of the k-th cluster of a file. */
  function ClusterStart(cs: nat, k: nat): nat {
    k * cs
  }

  lemma ProductOrder(a: nat, b: nat, c: nat)
    requires a <= b
    ensures a * c <= b * c
  {
  }

  lemma NextStart(cs: nat, k: nat)
    ensures ClusterStart(cs, k + 1) == ClusterStart(cs, k) + cs
  {
  }

  lemma StartOrder(cs: nat, k: nat, q: nat)
    ensures k <= q ==> ClusterStart(cs, k) <= ClusterStart(cs, q)
    ensures k < q ==> ClusterStart(cs, k) + cs <= ClusterStart(cs, q)
  {
    if k < q {
      NextStart(cs, k);
      ProductOrder(k + 1, q, cs);
    }
  }

  lemma Division(cs: nat, j: nat)
    requires cs > 0
    ensures ClusterOffset(cs, j) < cs
    ensures j == ClusterStart(cs, ClusterIndex(cs, j)) + ClusterOffset(cs, j)
  {
  }

  /** Byte j lies in cluster k exactly when it lies between the starts of clusters k and k + 1. */
  lemma InCluster(cs: nat, j: nat, k: nat)
    requires cs > 0
    ensures ClusterIndex(cs, j) == k <==> ClusterStart(cs, k) <= j < ClusterStart(cs, k) + cs
    ensures ClusterIndex(cs, j) == k ==> ClusterOffset(cs, j) == j - ClusterStart(cs, k)
  {
    hide ClusterIndex, ClusterOffset, ClusterStart;
    Division(cs, j);
    StartOrder(cs, k, ClusterIndex(cs, j));
    StartOrder(cs, ClusterIndex(cs, j), k);
  }

  lemma IndexOrder(cs: nat, i: nat, j: nat)
    requires cs > 0 && i <= j
    ensures ClusterIndex(cs, i) <= ClusterIndex(cs, j)
  {
    hide ClusterIndex, ClusterOffset, ClusterStart;
    Division(cs, i);
    Division(cs, j);
    StartOrder(cs, ClusterIndex(cs, j), ClusterIndex(cs, i));
  }

  /** A size in clusters, rounded upwards. */
  function ClustersFor(cs: nat, size: nat): nat
    requires cs > 0
  {
    DivRoundUp(size, cs)
  }

  lemma ClustersForIndex(cs: nat, size: nat)
    requires cs > 0
    ensures ClustersFor(cs, size) == if size == 0 then 0 else ClusterIndex(cs, size - 1) + 1
  {
    hide ClusterIndex, ClusterOffset, ClusterStart;
    assert ClustersFor(cs, size) == ClusterIndex(cs, size + cs - 1) by { UnfoldClustersFor(cs, size); }
    if size == 0 {
      assert ClusterStart(cs, 0) == 0 by { StartOfFirst(cs); }
      InCluster(cs, cs - 1, 0);
    } else {
      var q := ClusterIndex(cs, size - 1);
      NextStart(cs, q);
      InCluster(cs, size - 1, q);
      InCluster(cs, size + cs - 1, q + 1);
    }
  }

  lemma UnfoldClustersFor(cs: nat, size: nat)
    requires cs > 0
    ensures ClustersFor(cs, size) == ClusterIndex(cs, size + cs - 1)
  {
  }

  lemma StartOfFirst(cs: nat)
    ensures ClusterStart(cs, 0) == 0
  {
  }

  /** A byte is inside a file of the given size exactly when its cluster is among those the size calls for,
      up to the end of the last cluster. */
  lemma SizeCovers(cs: nat, size: nat, i: nat)
    requires cs > 0
    ensures i < size ==> ClusterIndex(cs, i) < ClustersFor(cs, size)
    ensures ClustersFor(cs, size) == 0 <==> size == 0
    ensures size <= ClusterStart(cs, ClustersFor(cs, size))
  {
    hide ClusterIndex, ClusterOffset, ClusterStart, ClustersFor;
    ClustersForIndex(cs, size);
    if size > 0 {
      var q := ClusterIndex(cs, size - 1);
      InCluster(cs, size - 1, q);
      NextStart(cs, q);
    }
    if i < size {
      IndexOrder(cs, i, size - 1);
    }
  }

  lemma ClustersForOrder(cs: nat, a: nat, b: nat)
    requires cs > 0 && a <= b
    ensures ClustersFor(cs, a) <= ClustersFor(cs, b)
  {
    hide ClusterIndex, ClustersFor;
    ClustersForIndex(cs, a);
    ClustersForIndex(cs, b);
    if a > 0 { IndexOrder(cs, a - 1, b - 1); }
  }
}

/** Rounding to multiples, for any divisor. */
module Rounding {
  import opened Basics
  import ClusterMath

  function RoundUp(x: nat, d: nat): nat
    requires d > 0
  {
    DivRoundUp(x, d) * d
  }

  lemma Bounds(x: nat, d: nat)
    requires d > 0
    ensures x <= DivRoundUp(x, d) * d < x + d
  {
  }

  lemma RoundedUp(x: nat, d: nat)
    requires d > 0
    ensures x <= RoundUp(x, d) < x + d && RoundUp(x, d) % d == 0
  {
    Bounds(x, d);
    var q := DivRoundUp(x, d);
    hide DivRoundUp;
    assert (q * d) % d == 0 by { ProductMultiple(q, d); }
  }

  lemma ProductMultiple(q: nat, d: nat)
    requires d > 0
    ensures (q * d) % d == 0
  {
    var k, m := q * d / d, q * d % d;
    assert k * d + m == q * d;
    if k < q {
      ClusterMath.ProductOrder(k + 1, q, d);
    } else if q < k {
      ClusterMath.ProductOrder(q + 1, k, d);
    }
  }

  lemma Multiply(a: nat, b: nat, d: nat)
    requires a < b
    ensures a * d + d <= b * d
  {
    ClusterMath.ProductOrder(a + 1, b, d);
    assert (a + 1) * d == a * d + d;
  }

  lemma Unique(x: nat, d: nat, q: nat)
    requires d > 0 && x <= q * d < x + d
    ensures DivRoundUp(x, d) == q
  {
    var r := DivRoundUp(x, d);
    Bounds(x, d);
    hide DivRoundUp;
    if q < r { Multiply(q, r, d); }
    if r < q { Multiply(r, q, d); }
  }

  lemma AtMost(x: nat, d: nat, q: nat)
    requires d > 0 && x <= q * d
    ensures DivRoundUp(x, d) <= q
  {
    Bounds(x, d);
    var r := DivRoundUp(x, d);
    hide DivRoundUp;
    if q < r { Multiply(q, r, d); }
  }

  lemma Shifted(a: nat, x: nat, d: nat)
    requires d > 0
    ensures DivRoundUp(a * d + x, d) == a + DivRoundUp(x, d)
    ensures RoundUp(a * d + x, d) == a * d + RoundUp(x, d)
  {
    Bounds(x, d);
    var r := DivRoundUp(x, d);
    hide DivRoundUp;
    assert (a + r) * d == a * d + r * d;
    Unique(a * d + x, d, a + r);
  }

  /** Rounding up stays below any multiple that is not below. */
  lemma RoundUpFits(x: nat, size: nat, d: nat)
    requires d > 0 && x <= size && size % d == 0
    ensures RoundUp(x, d) <= size
  {
    Bounds(x, d);
    var q, k := DivRoundUp(x, d), size / d;
    hide DivRoundUp;
    assert size == k * d;
    if k < q {
      Multiply(k, q, d);
    }
  }

  /** Rounding a size up to sectors and then to clusters is rounding it up to clusters. */
  lemma Nested(x: nat, ss: nat, spc: nat)
    requires ss > 0 && spc > 0
    ensures ss * spc > 0 && DivRoundUp(DivRoundUp(x, ss), spc) == DivRoundUp(x, ss * spc)
  {
    var s := DivRoundUp(x, ss);
    var q := DivRoundUp(s, spc);
    Bounds(x, ss);
    Bounds(s, spc);
    hide DivRoundUp;
    // s * ss - ss < x <= s * ss and s <= q * spc <= s + spc - 1
    assert q * spc * ss == q * (ss * spc);
    assert s * ss <= q * spc * ss by { if s < q * spc { Multiply(s, q * spc, ss); } }
    assert (q * spc) * ss <= (s + spc - 1) * ss by { if q * spc < s + spc - 1 { Multiply(q * spc, s + spc - 1, ss); } }
    assert (s + spc - 1) * ss == s * ss + spc * ss - ss;
    assert ss * spc > 0;
    Unique(x, ss * spc, q);
  }
}
