// Where entry sets lie in a directory: find_slot, check_slot, erase_entries, commit_entry, rename_entry and
// shrink_directory of node.c.

/** Entry sets as ranges of 32-byte slots. */
module Slots {
  import opened Basics
  import FileBytes
  import opened Rounding

  const VALID: nat := 0x80
  const ENTRY_BITMAP: byte := 0x81
  const ENTRY_UPCASE: byte := 0x82
  const ENTRY_LABEL: byte := 0x83
  const ENTRY_FILE: byte := 0x85
  const ENTRY_FILE_INFO: byte := 0xC0
  const ENTRY_FILE_NAME: byte := 0xC1

  /** The slots of a node: 1 + continuations entries, of which nameEntries hold the name. */
  datatype EntrySet = EntrySet(start: nat, count: nat, nameEntries: nat) {
    predicate Has(i: nat) {
      start <= i < start + count
    }

    /** Written by this driver: a file entry, an info entry and the name, without any vendor entries behind. */
    predicate IsPlain() {
      count == 2 + nameEntries
    }
  }

  predicate Covered(nodes: seq<EntrySet>, i: nat) {
    exists k | 0 <= k < |nodes| :: nodes[k].Has(i)
  }

  ghost predicate Uncovered(nodes: seq<EntrySet>, from: nat, to: nat) {
    forall i: nat | from <= i < to :: !Covered(nodes, i)
  }

  /** No slot of [from, to) holds a valid entry. */
  predicate Vacant(types: seq<byte>, from: nat, to: nat) {
    forall i | from <= i < to && i < |types| :: types[i] < VALID
  }

  predicate Apart(a: EntrySet, b: EntrySet) {
    a.start + a.count <= b.start || b.start + b.count <= a.start
  }

  predicate Disjoint(nodes: seq<EntrySet>) {
    forall j, k | 0 <= j < k < |nodes| :: Apart(nodes[j], nodes[k])
  }

  predicate Inside(nodes: seq<EntrySet>, size: nat) {
    forall k | 0 <= k < |nodes| :: nodes[k].count >= 2 + nodes[k].nameEntries && nodes[k].start + nodes[k].count <= size
  }

  ghost predicate AllValid(types: seq<byte>, nodes: seq<EntrySet>) {
    forall i: nat | i < |types| && Covered(nodes, i) :: types[i] >= VALID
  }

  /** A place for n entries: no node there, and in the root directory no other valid entry either. */
  ghost predicate Suits(types: seq<byte>, nodes: seq<EntrySet>, isRoot: bool, at: nat, n: nat) {
    at + n <= |types| && Uncovered(nodes, at, at + n) && (isRoot ==> Vacant(types, at, at + n))
  }

  /** The slots free of nodes at the end of the directory, where an entry set of n goes if it suits nowhere. */
  ghost predicate IsTail(nodes: seq<EntrySet>, size: nat, at: nat, n: nat) {
    && at <= size < at + n && Uncovered(nodes, at, size)
    && (at == 0 || Covered(nodes, at - 1) || at - 1 + n == size)
  }

  lemma TailIsUnique(nodes: seq<EntrySet>, size: nat, a: nat, b: nat, n: nat)
    requires IsTail(nodes, size, a, n) && IsTail(nodes, size, b, n)
    ensures a == b
  {
  }

  /** Whether an entry set of n can be placed without overwriting any valid entry. */
  ghost predicate CanPlace(types: seq<byte>, nodes: seq<EntrySet>, isRoot: bool, n: nat) {
    || (exists at: nat :: Suits(types, nodes, isRoot, at, n))
    || (forall at: nat | IsTail(nodes, |types|, at, n) :: Vacant(types, at, |types|))
  }

  /** A directory extended, by zeros and to whole clusters, if it must be to have `end` slots. */
  function Extended(types: seq<byte>, end: nat, perCluster: nat): (after: seq<byte>)
    requires perCluster > 0
    ensures |types| <= |after| && end <= |after| && (end <= |types| ==> after == types)
    ensures |types| % perCluster == 0 ==> |after| % perCluster == 0
    ensures forall i | 0 <= i < |after| :: after[i] == if i < |types| then types[i] else 0
  {
    RoundedUp(end, perCluster);
    if end <= |types| then types else types + FileBytes.Zeros(RoundUp(end, perCluster) - |types|)
  }

  /** Where find_slot puts an entry set of n: the first place that suits it, or else the end. */
  ghost predicate IsPlace(types: seq<byte>, nodes: seq<EntrySet>, isRoot: bool, at: nat, n: nat) {
    if Suits(types, nodes, isRoot, at, n)
    then forall a: nat | a < at :: !Suits(types, nodes, isRoot, a, n)
    else IsTail(nodes, |types|, at, n) && forall a: nat :: !Suits(types, nodes, isRoot, a, n)
  }

  /** The search has come to i: the slots from `start` on are free of nodes, and no place before `start` suits. */
  ghost predicate Scanned(types: seq<byte>, nodes: seq<EntrySet>, isRoot: bool, n: nat, start: nat, i: nat) {
    && start <= i <= |types| && i - start < n && Uncovered(nodes, start, i)
    && (forall a: nat | a < start :: !Suits(types, nodes, isRoot, a, n))
    && (start == 0 || Covered(nodes, start - 1) || start - 1 + n <= |types|)
  }

  lemma ScanStart(types: seq<byte>, nodes: seq<EntrySet>, isRoot: bool, n: nat)
    requires n > 0
    ensures Scanned(types, nodes, isRoot, n, 0, 0)
  {
  }

  lemma ScanFree(types: seq<byte>, nodes: seq<EntrySet>, isRoot: bool, n: nat, start: nat, i: nat)
    requires Scanned(types, nodes, isRoot, n, start, i) && i < |types| && !Covered(nodes, i)
    ensures i + 1 - start < n ==> Scanned(types, nodes, isRoot, n, start, i + 1)
    ensures i + 1 - start == n ==> (Suits(types, nodes, isRoot, start, n) <==> (isRoot ==> Vacant(types, start, start + n)))
    ensures i + 1 - start == n && Suits(types, nodes, isRoot, start, n) ==> IsPlace(types, nodes, isRoot, start, n)
    ensures i + 1 - start == n && !Suits(types, nodes, isRoot, start, n) ==>
      Scanned(types, nodes, isRoot, n, start + 1, start + 1)
  {
  }

  lemma ScanTaken(types: seq<byte>, nodes: seq<EntrySet>, isRoot: bool, n: nat, start: nat, i: nat)
    requires Scanned(types, nodes, isRoot, n, start, i) && i < |types| && Covered(nodes, i)
    ensures Scanned(types, nodes, isRoot, n, i + 1, i + 1)
  {
  }

  lemma ScanEnd(types: seq<byte>, nodes: seq<EntrySet>, isRoot: bool, n: nat, start: nat)
    requires Scanned(types, nodes, isRoot, n, start, |types|)
    ensures IsPlace(types, nodes, isRoot, start, n) && !Suits(types, nodes, isRoot, start, n)
  {
  }

  /** Only in the root directory can a new entry set overwrite valid entries, and it does exactly if CanPlace fails. */
  lemma PlaceIsVacant(types: seq<byte>, nodes: seq<EntrySet>, isRoot: bool, at: nat, n: nat)
    requires IsPlace(types, nodes, isRoot, at, n)
    requires !isRoot ==> forall i: nat | i < |types| && types[i] >= VALID :: Covered(nodes, i)
    ensures Vacant(types, at, at + n) <==> CanPlace(types, nodes, isRoot, n)
    ensures !isRoot ==> CanPlace(types, nodes, isRoot, n)
  {
  }

  lemma PlaceIsUncovered(types: seq<byte>, nodes: seq<EntrySet>, isRoot: bool, at: nat, n: nat)
    requires IsPlace(types, nodes, isRoot, at, n) && Inside(nodes, |types|)
    ensures Uncovered(nodes, at, at + n)
  {
  }

  /** A fresh root directory of 16 entries: label, bitmap and upcase table, known to no node. */
  const FRESH_ROOT: seq<byte> := [0x83, 0x81, 0x82, 0, 0, 0, 0, 0, 0, 0, 0, 0, 0, 0, 0, 0]

  /** With clusters of one 512-byte sector, the first file with a name of 255 characters goes over them. */
  lemma FreshRootIsOverwritten()
    ensures |FRESH_ROOT| == 16 && IsPlace(FRESH_ROOT, [], true, 0, 19) && !Vacant(FRESH_ROOT, 0, 19)
  {
    assert FRESH_ROOT[1] >= VALID;
  }

  /** The types of a new entry set. */
  function NewTypes(nameEntries: nat): (types: seq<byte>)
    ensures |types| == 2 + nameEntries && forall i | 0 <= i < |types| :: types[i] >= VALID
  {
    [ENTRY_FILE, ENTRY_FILE_INFO] + seq(nameEntries, _ => ENTRY_FILE_NAME)
  }

  /** The types with the valid bit cleared in some slots. */
  function Invalidated(types: seq<byte>, e: EntrySet): (after: seq<byte>)
    ensures |after| == |types|
    ensures forall i: nat | i < |types| :: after[i] == if e.Has(i) then types[i] % VALID else types[i]
  {
    seq(|types|, i requires 0 <= i < |types| => if e.Has(i) then types[i] % VALID else types[i])
  }

  function Without<T>(s: seq<T>, k: nat): seq<T>
    requires k < |s|
  {
    s[..k] + s[k + 1..]
  }

  lemma UncoveredIsApart(nodes: seq<EntrySet>, e: EntrySet, k: nat)
    requires k < |nodes| && nodes[k].count > 0 && e.count > 0 && Uncovered(nodes, e.start, e.start + e.count)
    ensures Apart(e, nodes[k])
  {
    var i := Max(e.start, nodes[k].start);
    if nodes[k].Has(i) {
      assert Covered(nodes, i);
    }
  }

  lemma CoveredAttached(nodes: seq<EntrySet>, e: EntrySet, i: nat)
    ensures Covered([e] + nodes, i) <==> e.Has(i) || Covered(nodes, i)
  {
    var more := [e] + nodes;
    assert more[0] == e;
    assert forall k | 0 <= k < |nodes| :: more[k + 1] == nodes[k];
    if Covered(nodes, i) {
      var k :| 0 <= k < |nodes| && nodes[k].Has(i);
      assert more[k + 1].Has(i);
    }
  }

  lemma CoveredDetached(nodes: seq<EntrySet>, k: nat, i: nat)
    requires Disjoint(nodes) && k < |nodes|
    ensures Covered(Without(nodes, k), i) <==> Covered(nodes, i) && !nodes[k].Has(i)
  {
    var rest := Without(nodes, k);
    if Covered(nodes, i) && !nodes[k].Has(i) {
      var j :| 0 <= j < |nodes| && nodes[j].Has(i);
      assert rest[if j < k then j else j - 1] == nodes[j];
    }
    if Covered(rest, i) {
      var j: nat :| j < |rest| && rest[j].Has(i);
      var j0 := if j < k then j else j + 1;
      assert rest[j] == nodes[j0];
      assert Apart(nodes[if j0 < k then j0 else k], nodes[if j0 < k then k else j0]);
    }
  }

  predicate IsLast(nodes: seq<EntrySet>, k: nat) {
    k < |nodes| && forall j | 0 <= j < |nodes| :: nodes[j].start <= nodes[k].start
  }

  /** Nothing may be cut off behind a removed entry set if another one follows it. */
  predicate AnyBehind(nodes: seq<EntrySet>, at: nat) {
    exists k | 0 <= k < |nodes| :: at < nodes[k].start
  }

  /** The size shrink_directory aims at: up to the end of the last name, but one cluster at least. */
  function ShrunkSize(perCluster: nat, last: EntrySet): nat
    requires perCluster > 0
  {
    Max(perCluster, RoundUp(last.start + 2 + last.nameEntries, perCluster))
  }

  /** Cutting a directory keeps all its nodes exactly if it keeps the last one. */
  lemma LastBoundsAll(nodes: seq<EntrySet>, size: nat, k: nat, newSize: nat)
    requires Disjoint(nodes) && Inside(nodes, size) && IsLast(nodes, k)
    ensures Inside(nodes, newSize) <==> nodes[k].start + nodes[k].count <= newSize
  {
  }

  /** The shrunk size never exceeds the size. */
  lemma ShrinkingShrinks(size: nat, perCluster: nat, last: EntrySet)
    requires 0 < perCluster <= size && size % perCluster == 0 && last.start + 2 + last.nameEntries <= size
    ensures 0 < ShrunkSize(perCluster, last) <= size && ShrunkSize(perCluster, last) % perCluster == 0
    ensures last.start + 2 + last.nameEntries <= ShrunkSize(perCluster, last)
  {
    var end := last.start + 2 + last.nameEntries;
    RoundedUp(end, perCluster);
    RoundUpFits(end, size, perCluster);
    ProductMultiple(1, perCluster);
    hide RoundUp;
  }

  /** 14 vendor entries behind a short name: shrink_directory cuts the last of them off a directory of two clusters. */
  lemma VendorEntriesAreCut()
    ensures var last := EntrySet(0, 17, 1);
      Disjoint([last]) && Inside([last], 32) && IsLast([last], 0) && !Inside([last], ShrunkSize(16, last))
  {
  }

  /** The last of the first n entry sets. */
  function LastOf(nodes: seq<EntrySet>, n: nat): (k: nat)
    requires 0 < n <= |nodes|
    ensures k < n && forall j | 0 <= j < n :: nodes[j].start <= nodes[k].start
  {
    if n == 1 then 0
    else
      var before := LastOf(nodes, n - 1);
      if nodes[before].start < nodes[n - 1].start then n - 1 else before
  }

  /** The size that shrink_directory leaves. */
  function ShrunkTo(nodes: seq<EntrySet>, deleted: nat, perCluster: nat, size: nat): nat
    requires perCluster > 0
  {
    if AnyBehind(nodes, deleted) then size
    else if nodes == [] then perCluster
    else ShrunkSize(perCluster, nodes[LastOf(nodes, |nodes|)])
  }

  /** An entry set that would fit whole, and not only up to its name, if it were the last. */
  predicate FitsItsName(e: EntrySet, perCluster: nat)
    requires perCluster > 0
  {
    e.start + e.count <= ShrunkSize(perCluster, e)
  }

  /** The sets that stay will stay whole: another one lies behind the deleted one, or the last one fits. */
  predicate StaysWhole(nodes: seq<EntrySet>, deleted: nat, perCluster: nat)
    requires perCluster > 0
  {
    AnyBehind(nodes, deleted) || nodes == [] || FitsItsName(nodes[LastOf(nodes, |nodes|)], perCluster)
  }

  lemma ShrinkKeepsNodes(nodes: seq<EntrySet>, size: nat, perCluster: nat, deleted: nat)
    requires 0 < perCluster <= size && size % perCluster == 0
    requires Disjoint(nodes) && Inside(nodes, size)
    ensures var newSize := ShrunkTo(nodes, deleted, perCluster, size);
      && 0 < newSize <= size && newSize % perCluster == 0
      && (Inside(nodes, newSize) <==> StaysWhole(nodes, deleted, perCluster))
  {
    ProductMultiple(1, perCluster);
    if nodes != [] {
      var last := LastOf(nodes, |nodes|);
      ShrinkingShrinks(size, perCluster, nodes[last]);
      LastBoundsAll(nodes, size, last, ShrunkSize(perCluster, nodes[last]));
    }
    hide ShrunkSize;
  }

  lemma PlainFits(e: EntrySet, perCluster: nat)
    requires perCluster > 0 && e.IsPlain()
    ensures FitsItsName(e, perCluster)
  {
    RoundedUp(e.start + 2 + e.nameEntries, perCluster);
    hide RoundUp;
  }

  /** Every valid entry outside the set is still there, as it was. */
  predicate EntriesSurvive(before: seq<byte>, after: seq<byte>, e: EntrySet) {
    forall i | 0 <= i < |before| && before[i] >= VALID && !e.Has(i) :: i < |after| && after[i] == before[i]
  }

  /** A deletion keeps all other valid entries exactly if it cuts off none, whoever they belong to. */
  lemma DeletionKeepsEntries(types: seq<byte>, e: EntrySet, newSize: nat)
    requires newSize <= |types|
    ensures EntriesSurvive(types, Invalidated(types, e)[..newSize], e) <==> Vacant(Invalidated(types, e), newSize, |types|)
  {
    var cleared := Invalidated(types, e);
    if EntriesSurvive(types, cleared[..newSize], e) {
      forall i | newSize <= i < |types| ensures cleared[i] < VALID {
        assert types[i] < VALID || e.Has(i);
      }
    } else {
      var i :| 0 <= i < |types| && types[i] >= VALID && !e.Has(i) && !(i < newSize && cleared[i] == types[i]);
      assert cleared[i] >= VALID;
    }
  }

  /** Two clusters of the root directory: bitmap, upcase table and a file in front, the label behind. */
  const LATE_LABEL: seq<byte> :=
    [0x81, 0x82, 0x85, 0xC0, 0xC1, 0, 0, 0, 0, 0, 0, 0, 0, 0, 0, 0, 0, 0, 0, 0, 0x83, 0, 0, 0, 0, 0, 0, 0, 0, 0, 0, 0]

  /** Deleting the file cuts the label off. */
  lemma LabelIsCut()
    ensures var file := EntrySet(2, 3, 1);
      && |LATE_LABEL| == 32 && IsTidy(LATE_LABEL, [file], true, 16)
      && ShrunkTo(Without([file], 0), file.start, 16, 32) == 16
      && !EntriesSurvive(LATE_LABEL, Invalidated(LATE_LABEL, file)[..16], file)
  {
    var file := EntrySet(2, 3, 1);
    assert forall i: nat :: Covered([file], i) <==> file.Has(i) by {
      assert forall i: nat :: [file][0].Has(i) == file.Has(i);
    }
    assert LATE_LABEL[20] == 0x83;
  }

  /**
   * Entry sets lie apart and inside the directory, and their entries are valid. Only the root directory has other
   * valid entries.
   */
  ghost predicate IsTidy(types: seq<byte>, nodes: seq<EntrySet>, isRoot: bool, perCluster: nat) {
    && perCluster > 0 && |types| > 0 && |types| % perCluster == 0
    && Disjoint(nodes) && Inside(nodes, |types|) && AllValid(types, nodes)
    && (!isRoot ==> forall i: nat | i < |types| && types[i] >= VALID :: Covered(nodes, i))
  }

  lemma PlaceIsFree(types: seq<byte>, nodes: seq<EntrySet>, isRoot: bool, perCluster: nat, at: nat, n: nat)
    requires IsTidy(types, nodes, isRoot, perCluster) && IsPlace(types, nodes, isRoot, at, n)
    ensures Uncovered(nodes, at, at + n)
  {
  }

  lemma RestIsUncovered(nodes: seq<EntrySet>, k: nat, from: nat, to: nat)
    requires k < |nodes| && Disjoint(nodes)
    ensures Uncovered(nodes, from, to) ==> Uncovered(Without(nodes, k), from, to)
  {
    forall i: nat ensures Covered(Without(nodes, k), i) ==> Covered(nodes, i) {
      CoveredDetached(nodes, k, i);
    }
  }

  lemma CutIsTidy(types: seq<byte>, nodes: seq<EntrySet>, isRoot: bool, perCluster: nat, size: nat)
    requires IsTidy(types, nodes, isRoot, perCluster) && 0 < size <= |types| && size % perCluster == 0
    ensures IsTidy(types[..size], nodes, isRoot, perCluster) <==> Inside(nodes, size)
  {
  }

  lemma ExtendedIsTidy(types: seq<byte>, nodes: seq<EntrySet>, isRoot: bool, perCluster: nat, end: nat)
    requires IsTidy(types, nodes, isRoot, perCluster)
    ensures IsTidy(Extended(types, end, perCluster), nodes, isRoot, perCluster)
  {
  }
}

module Directories {
  import opened Basics
  import opened Words
  import opened Bitmap
  import FileBytes
  import Rounding
  import opened Slots

  datatype Placement = Placed(at: nat) | NoSpace

  /** A cached directory: the types of its entries, and the nodes of its files. */
  class Directory {
    var types: seq<byte>
    var nodes: seq<EntrySet>
    const isRoot: bool
    const perCluster: nat

    constructor (types: seq<byte>, nodes: seq<EntrySet>, isRoot: bool, perCluster: nat)
      requires IsTidy(types, nodes, isRoot, perCluster)
      ensures Valid() && this.types == types && this.nodes == nodes
      ensures this.isRoot == isRoot && this.perCluster == perCluster
    {
      this.types, this.nodes, this.isRoot, this.perCluster := types, nodes, isRoot, perCluster;
    }

    ghost predicate Valid()
      reads this
    {
      IsTidy(types, nodes, isRoot, perCluster)
    }

    /** The bitmap of the slots that nodes take. */
    method BuildMap() returns (dmap: array<Word>)
      requires Valid()
      ensures fresh(dmap) && |types| <= dmap.Length * WORD_BITS
      ensures forall i: nat | i < |types| :: Get(dmap[..], i) <==> Covered(nodes, i)
    {
      dmap := new Word[DivRoundUp(|types|, WORD_BITS)](_ => 0);
      Rounding.Bounds(|types|, WORD_BITS);
      forall i: nat | i < |types| ensures !Get(dmap[..], i) {
        ZeroBits(i % WORD_BITS);
      }
      for k := 0 to |nodes|
        invariant forall i: nat | i < |types| :: Get(dmap[..], i) <==> Covered(nodes[..k], i)
      {
        MarkNode(dmap, nodes[k]);
      }
    }

    method MarkNode(dmap: array<Word>, e: EntrySet)
      requires e.start + e.count <= |types| <= dmap.Length * WORD_BITS
      modifies dmap
      ensures forall i: nat | i < |types| :: Get(dmap[..], i) <==> old(Get(dmap[..], i)) || e.Has(i)
    {
      for j := 0 to e.count
        invariant forall i: nat | i < |types| :: Get(dmap[..], i) <==> old(Get(dmap[..], i)) || e.start <= i < e.start + j
      {
        Set(dmap, e.start + j);
      }
    }

    /** check_slot: only the root directory has entries without nodes. */
    method CheckSlot(at: nat, n: nat) returns (free: bool)
      requires at + n <= |types|
      ensures free <==> (isRoot ==> Vacant(types, at, at + n))
    {
      if !isRoot {
        return true;
      }
      for i := at to at + n
        invariant Vacant(types, at, i)
      {
        if types[i] >= VALID {
          return false;
        }
      }
      return true;
    }

    /**
     * The search over the bitmap. The index moves back when check_slot objects to a place, but the place in question
     * always moves on.
     */
    method Search(n: nat) returns (found: bool, at: nat)
      requires Valid() && n > 0
      ensures found <==> Suits(types, nodes, isRoot, at, n)
      ensures IsPlace(types, nodes, isRoot, at, n)
    {
      hide Suits, IsPlace, Scanned, Uncovered, Covered, Vacant;
      var dmap := BuildMap();
      var i, contiguous := 0, 0;
      at := 0;
      ghost var map0 := dmap[..];
      ScanStart(types, nodes, isRoot, n);
      while i < |types|
        invariant contiguous <= i <= |types| && contiguous < n && (contiguous > 0 ==> at == i - contiguous)
        invariant dmap[..] == map0
        invariant Scanned(types, nodes, isRoot, n, i - contiguous, i)
        decreases |types| - (i - contiguous), |types| - i
      {
        if !Get(dmap[..], i) {
          ScanFree(types, nodes, isRoot, n, i - contiguous, i);
          if contiguous == 0 {
            at := i;
          }
          contiguous := contiguous + 1;
          if contiguous == n {
            found := CheckSlot(at, n);
            if found {
              return;
            }
            i := i - (contiguous - 1);
            contiguous := 0;
          }
        } else {
          ScanTaken(types, nodes, isRoot, n, i - contiguous, i);
          contiguous := 0;
        }
        i := i + 1;
      }
      ScanEnd(types, nodes, isRoot, n, i - contiguous);
      found := false;
      if contiguous == 0 {
        at := |types|;
      }
    }

    /** find_slot. When the directory cannot grow, it stays as it is. */
    method FindSlot(n: nat, canGrow: bool) returns (r: Placement)
      requires Valid() && n > 0
      modifies `types
      ensures Valid()
      ensures r.Placed? ==> IsPlace(old(types), nodes, isRoot, r.at, n)
      ensures types == if r.Placed? then Extended(old(types), r.at + n, perCluster) else old(types)
      ensures r.NoSpace? <==> !canGrow && forall a: nat :: !Suits(old(types), nodes, isRoot, a, n)
    {
      hide Uncovered, Covered, Vacant, Extended;
      var found, at := Search(n);
      if found {
        return Placed(at);
      }
      if !canGrow {
        return NoSpace;
      }
      Extend(at + n);
      return Placed(at);
    }

    /** The directory grows by zeros to whole clusters. */
    method Extend(end: nat)
      requires Valid()
      modifies `types
      ensures Valid() && types == Extended(old(types), end, perCluster)
    {
      ExtendedIsTidy(types, nodes, isRoot, perCluster, end);
      types := Extended(types, end, perCluster);
    }

    /** The entries of a file are written, and its node attached. */
    method Attach(at: nat, nameEntries: nat)
      requires Valid() && at + 2 + nameEntries <= |types| && Uncovered(nodes, at, at + 2 + nameEntries)
      modifies `types, `nodes
      ensures Valid()
      ensures nodes == [EntrySet(at, 2 + nameEntries, nameEntries)] + old(nodes)
      ensures types == FileBytes.Patch(old(types), at, NewTypes(nameEntries))
    {
      var e := EntrySet(at, 2 + nameEntries, nameEntries);
      forall i: nat | i < |types| ensures Covered([e] + nodes, i) <==> e.Has(i) || Covered(nodes, i) {
        CoveredAttached(nodes, e, i);
      }
      forall k | 0 <= k < |nodes| ensures Apart(e, nodes[k]) {
        UncoveredIsApart(nodes, e, k);
      }
      types := FileBytes.Patch(types, at, NewTypes(nameEntries));
      nodes := [e] + nodes;
    }

    /** create: the new entry set lies apart from all others, and overwrites no valid entry exactly if it can avoid it. */
    method Create(nameEntries: nat, canGrow: bool) returns (r: Placement)
      requires Valid()
      modifies `types, `nodes
      ensures Valid()
      ensures r.NoSpace? ==> types == old(types) && nodes == old(nodes)
      ensures r.Placed? ==> nodes == [EntrySet(r.at, 2 + nameEntries, nameEntries)] + old(nodes)
      ensures |old(types)| <= |types|
      ensures r.Placed? ==> forall i: nat | i < |old(types)| && !nodes[0].Has(i) :: types[i] == old(types[i])
      ensures r.Placed? ==>
        (Vacant(old(types), r.at, r.at + 2 + nameEntries) <==> old(CanPlace(types, nodes, isRoot, 2 + nameEntries)))
      ensures r.Placed? && !isRoot ==> old(CanPlace(types, nodes, isRoot, 2 + nameEntries))
    {
      hide Covered, Vacant, Disjoint, AllValid, NewTypes, Extended;
      r := FindSlot(2 + nameEntries, canGrow);
      if r.Placed? {
        PlaceIsVacant(old(types), nodes, isRoot, r.at, 2 + nameEntries);
        PlaceIsUncovered(old(types), nodes, isRoot, r.at, 2 + nameEntries);
        Attach(r.at, nameEntries);
      }
    }

    /** erase_entries, and the node detached. */
    method Detach(k: nat)
      requires Valid() && k < |nodes|
      modifies `types, `nodes
      ensures Valid() && nodes == Without(old(nodes), k) && types == Invalidated(old(types), old(nodes[k]))
    {
      forall i: nat ensures Covered(Without(nodes, k), i) <==> Covered(nodes, i) && !nodes[k].Has(i) {
        CoveredDetached(nodes, k, i);
      }
      types := Invalidated(types, nodes[k]);
      nodes := Without(nodes, k);
    }

    /** The last entry set, unless one lies behind the deleted one. */
    method FindLast(deleted: nat) returns (behind: bool, last: nat)
      requires nodes != []
      ensures behind <==> AnyBehind(nodes, deleted)
      ensures !behind ==> last == LastOf(nodes, |nodes|)
    {
      last := 0;
      for k := 0 to |nodes|
        invariant last == if k == 0 then 0 else LastOf(nodes, k)
        invariant forall j | 0 <= j < k :: nodes[j].start <= deleted
      {
        if deleted < nodes[k].start {
          return true, last;
        }
        if nodes[last].start < nodes[k].start {
          last := k;
        }
      }
      behind := false;
    }

    /** shrink_directory. It goes by the names, so the entries behind the last name may be lost. */
    method Shrink(deleted: nat)
      requires Valid()
      modifies `types
      ensures ShrunkTo(nodes, deleted, perCluster, |old(types)|) <= |old(types)|
      ensures types == old(types)[..ShrunkTo(nodes, deleted, perCluster, |old(types)|)]
      ensures Valid() <==> StaysWhole(nodes, deleted, perCluster)
    {
      hide AllValid, Covered, ShrunkSize, LastOf, FitsItsName, Inside;
      ShrinkKeepsNodes(nodes, |types|, perCluster, deleted);
      CutIsTidy(types, nodes, isRoot, perCluster, ShrunkTo(nodes, deleted, perCluster, |types|));
      var size := perCluster;
      if nodes != [] {
        var behind, last := FindLast(deleted);
        if behind {
          return;
        }
        size := ShrunkSize(perCluster, nodes[last]);
      }
      types := types[..size];
    }

    /**
     * delete. Of the nodes that stay, all stay whole exactly if another one lies behind or the last has room for what
     * follows its name; of the valid entries that stay, known to a node or not, all stay exactly if none is cut off.
     */
    method Delete(k: nat)
      requires Valid() && k < |nodes|
      modifies `types, `nodes
      ensures nodes == Without(old(nodes), k)
      ensures var e, rest := old(nodes[k]), Without(old(nodes), k);
        var newSize := ShrunkTo(rest, e.start, perCluster, |old(types)|);
        && newSize <= |old(types)| && types == Invalidated(old(types), e)[..newSize]
        && (Valid() <==> StaysWhole(rest, e.start, perCluster))
        && (EntriesSurvive(old(types), types, e) <==> Vacant(Invalidated(old(types), e), newSize, |old(types)|))
    {
      hide Covered, IsTidy, ShrunkTo, StaysWhole, AnyBehind, Without, EntriesSurvive, Vacant;
      Positive();
      ghost var e := nodes[k];
      var deleted := nodes[k].start;
      Detach(k);
      ghost var newSize := ShrunkTo(nodes, deleted, perCluster, |types|);
      Shrink(deleted);
      DeletionKeepsEntries(old(types), e, newSize);
    }

    /**
     * rename_entry behind find_slot, possibly within one directory: the node moves to a place of the size of its new
     * name, apart from all others; when there is none, nothing changes.
     */
    static method Rename(parent: Directory, k: nat, dir: Directory, nameEntries: nat, canGrow: bool)
      returns (r: Placement)
      requires parent.Valid() && dir.Valid() && k < |parent.nodes|
      modifies parent`types, parent`nodes, dir`types, dir`nodes
      ensures parent.Valid() && dir.Valid()
      ensures r.NoSpace? ==> unchanged(parent) && unchanged(dir)
      ensures r.Placed? ==> IsPlace(old(dir.types), old(dir.nodes), dir.isRoot, r.at, 2 + nameEntries)
      ensures r.Placed? ==>
        var rest := if dir == parent then Without(old(parent.nodes), k) else old(dir.nodes);
        dir.nodes == [EntrySet(r.at, 2 + nameEntries, nameEntries)] + rest
      ensures r.Placed? && dir != parent ==> parent.nodes == Without(old(parent.nodes), k)
      ensures r.Placed? && dir != parent ==> parent.types == Invalidated(old(parent.types), old(parent.nodes[k]))
      ensures r.Placed? ==>
        var grown := Extended(old(dir.types), r.at + 2 + nameEntries, dir.perCluster);
        dir.types == FileBytes.Patch(if dir == parent then Invalidated(grown, old(parent.nodes[k])) else grown,
                           r.at, NewTypes(nameEntries))
      ensures r.Placed? ==>
        (Vacant(old(dir.types), r.at, r.at + 2 + nameEntries) <==>
           old(CanPlace(dir.types, dir.nodes, dir.isRoot, 2 + nameEntries)))
    {
      hide Covered, IsPlace, Extended, NewTypes, Disjoint, AllValid, Vacant, CanPlace;
      r := dir.FindSlot(2 + nameEntries, canGrow);
      if r.Placed? {
        ghost var before := dir.nodes;
        PlaceIsVacant(old(dir.types), before, dir.isRoot, r.at, 2 + nameEntries);
        PlaceIsFree(old(dir.types), before, dir.isRoot, dir.perCluster, r.at, 2 + nameEntries);
        RestIsUncovered(parent.nodes, k, r.at, r.at + 2 + nameEntries);
        parent.Detach(k);
        dir.Attach(r.at, nameEntries);
      }
    }

    /**
     * Over any run of creations, renames and deletions, entry sets stay apart, inside the directory and valid,
     * provided that each set has room for what follows its name to begin with; new ones have nothing there.
     */
    method Run(changes: seq<Change>)
      requires Valid() && AllFit(nodes, perCluster)
      modifies `types, `nodes
      ensures Valid() && AllFit(nodes, perCluster)
    {
      hide IsTidy, IsPlace, CanPlace, ShrunkTo, FitsItsName, AnyBehind, Vacant, Covered, EntriesSurvive, Extended,
        NewTypes, Invalidated, Disjoint, Inside, AllValid, FileBytes.Patch, Uncovered;
      Positive();
      for i := 0 to |changes|
        invariant Valid() && AllFit(nodes, perCluster)
      {
        match changes[i] {
          case Creating(nameEntries, canGrow) =>
            var r := Create(nameEntries, canGrow);
            if r.Placed? { PlainFits(nodes[0], perCluster); }
          case Renaming(k, nameEntries, canGrow) =>
            if k < |nodes| {
              var r := Rename(this, k, this, nameEntries, canGrow);
              if r.Placed? { PlainFits(nodes[0], perCluster); }
            }
          case Deleting(k) =>
            if k < |nodes| {
              Delete(k);
            }
        }
      }
    }

    lemma Positive()
      requires Valid()
      ensures perCluster > 0
    {
    }
  }

  /** A change to one directory: of the k-th node, or a new one. */
  datatype Change =
    | Creating(nameEntries: nat, canGrow: bool)
    | Renaming(k: nat, nameEntries: nat, canGrow: bool)
    | Deleting(k: nat)

  predicate AllFit(nodes: seq<EntrySet>, perCluster: nat) {
    perCluster > 0 && forall j | 0 <= j < |nodes| :: FitsItsName(nodes[j], perCluster)
  }
}
