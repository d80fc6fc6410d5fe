// A directory as a file of the volume: its bytes, the entry sets in them, and the nodes that readdir builds from them.

/** What the entries of a directory mean. */
module Listings {
  import opened Basics
  import opened FileBytes
  import opened Slots
  import opened EntryLayout
  import opened EntrySets
  import opened EntryDamage

  /** The bytes of entries, one entry behind the other. */
  function Flat(entries: seq<Entry>): (bytes: seq<byte>)
    ensures |bytes| == ENTRY * |entries|
  {
    seq(ENTRY * |entries|, j requires 0 <= j < ENTRY * |entries| => entries[j / ENTRY][j % ENTRY])
  }

  /** Entries cut out of their bytes. */
  function Cut(bytes: seq<byte>, n: nat): (entries: seq<Entry>)
    requires |bytes| == ENTRY * n
    ensures |entries| == n
  {
    seq(n, i requires 0 <= i < n => bytes[ENTRY * i..ENTRY * (i + 1)])
  }

  lemma FlatOfCut(bytes: seq<byte>, n: nat)
    requires |bytes| == ENTRY * n
    ensures Flat(Cut(bytes, n)) == bytes
  {
  }

  lemma CutOfFlat(entries: seq<Entry>, at: nat, n: nat)
    requires at + n <= |entries|
    ensures Cut(Flat(entries)[ENTRY * at..ENTRY * (at + n)], n) == entries[at..at + n]
  {
    var bytes := Flat(entries)[ENTRY * at..ENTRY * (at + n)];
    forall i | 0 <= i < n ensures Cut(bytes, n)[i] == entries[at + i] {
      forall j | 0 <= j < ENTRY ensures Cut(bytes, n)[i][j] == entries[at + i][j] {
        assert bytes[ENTRY * i + j] == Flat(entries)[ENTRY * (at + i) + j];
      }
    }
  }

  lemma FlatPatch(entries: seq<Entry>, at: nat, part: seq<Entry>)
    requires at + |part| <= |entries|
    ensures Patch(Flat(entries), ENTRY * at, Flat(part)) == Flat(Patch(entries, at, part))
  {
    var bytes, whole := Patch(Flat(entries), ENTRY * at, Flat(part)), Patch(entries, at, part);
    forall j | 0 <= j < ENTRY * |entries| ensures bytes[j] == Flat(whole)[j] {
      var i, o := j / ENTRY, j % ENTRY;
      if at <= i < at + |part| {
        Shift(j, at);
        assert bytes[j] == Flat(part)[j - ENTRY * at] == part[i - at][o];
      } else {
        assert bytes[j] == Flat(entries)[j] && whole[i] == entries[i];
      }
    }
  }

  lemma Shift(j: nat, at: nat)
    requires ENTRY * at <= j
    ensures (j - ENTRY * at) / ENTRY == j / ENTRY - at && (j - ENTRY * at) % ENTRY == j % ENTRY
  {
  }

  /** Entries cut off, or zeros added. */
  function Refit(entries: seq<Entry>, n: nat): (after: seq<Entry>)
    ensures |after| == n
    ensures forall i | 0 <= i < n :: after[i] == if i < |entries| then entries[i] else Zeros(ENTRY)
  {
    if n <= |entries| then entries[..n] else entries + seq(n - |entries|, _ => Zeros(ENTRY))
  }

  lemma FlatRefit(entries: seq<Entry>, n: nat)
    ensures Resize(Flat(entries), ENTRY * n) == Flat(Refit(entries, n))
  {
  }

  function SetAt(entries: seq<Entry>, e: EntrySet): (part: seq<Entry>)
    requires e.start + e.count <= |entries|
    ensures |part| == e.count
  {
    entries[e.start..e.start + e.count]
  }

  /** The slots of a node hold entries that describe it. */
  ghost predicate IsStored(entries: seq<Entry>, e: EntrySet, file: FileNode, fs: FsInfo) {
    && e.start + e.count <= |entries| && Describes(SetAt(entries, e), file, fs)
    && e.nameEntries == DivRoundUp(Meta2Of(SetAt(entries, e)[1]).nameLength, NAME_UNITS)
  }

  /** Each node's slots hold entries that describe it. */
  ghost predicate InOrder(entries: seq<Entry>, types: seq<byte>, nodes: seq<EntrySet>, files: seq<FileNode>, fs: FsInfo) {
    && TypesOf(entries) == types && |files| == |nodes|
    && forall k | 0 <= k < |nodes| :: IsStored(entries, nodes[k], files[k], fs)
  }

  lemma StoredKept(entries: seq<Entry>, after: seq<Entry>, e: EntrySet, file: FileNode, fs: FsInfo)
    requires IsStored(entries, e, file, fs) && e.start + e.count <= |after|
    requires forall i | e.start <= i < e.start + e.count :: after[i] == entries[i]
    ensures IsStored(after, e, file, fs)
  {
    assert SetAt(after, e) == SetAt(entries, e);
  }

  lemma TypesOfPatch(entries: seq<Entry>, at: nat, part: seq<Entry>)
    requires at + |part| <= |entries|
    ensures TypesOf(Patch(entries, at, part)) == Patch(TypesOf(entries), at, TypesOf(part))
  {
  }

  /** More room, or no less than the nodes need, leaves a directory in order. */
  lemma RefitInOrder(entries: seq<Entry>, nodes: seq<EntrySet>, files: seq<FileNode>, fs: FsInfo, n: nat)
    requires InOrder(entries, TypesOf(entries), nodes, files, fs) && Inside(nodes, n)
    ensures InOrder(Refit(entries, n), TypesOf(Refit(entries, n)), nodes, files, fs)
  {
    hide IsStored;
    forall k | 0 <= k < |nodes| ensures IsStored(Refit(entries, n), nodes[k], files[k], fs) {
      InsideBoth(entries, nodes[k], files[k], fs);
      StoredKept(entries, Refit(entries, n), nodes[k], files[k], fs);
    }
  }

  lemma InsideBoth(entries: seq<Entry>, e: EntrySet, file: FileNode, fs: FsInfo)
    requires IsStored(entries, e, file, fs)
    ensures e.start + e.count <= |entries|
  {
  }

  lemma ExtendedTypes(entries: seq<Entry>, end: nat, perCluster: nat)
    requires perCluster > 0
    ensures var types := Extended(TypesOf(entries), end, perCluster); TypesOf(Refit(entries, |types|)) == types
  {
  }

  lemma RefitTypes(entries: seq<Entry>, types: seq<byte>, nodes: seq<EntrySet>, files: seq<FileNode>, fs: FsInfo)
    requires InOrder(entries, types, nodes, files, fs)
    ensures types == TypesOf(entries) && |entries| == |types| && Refit(entries, |types|) == entries
  {
  }

  /** A directory that grows stays in order. */
  lemma GrowInOrder(entries: seq<Entry>, types: seq<byte>, nodes: seq<EntrySet>, files: seq<FileNode>, fs: FsInfo,
                    isRoot: bool, perCluster: nat, end: nat)
    requires InOrder(entries, types, nodes, files, fs) && IsTidy(types, nodes, isRoot, perCluster)
    ensures var after := Extended(types, end, perCluster); InOrder(Refit(entries, |after|), after, nodes, files, fs)
    ensures |entries| == |types|
  {
    hide Refit, Extended;
    RefitInOrder(entries, nodes, files, fs, |Extended(types, end, perCluster)|);
    ExtendedTypes(entries, end, perCluster);
  }

  /** Entries written to slots free of nodes describe one node more. */
  lemma PatchInOrder(entries: seq<Entry>, nodes: seq<EntrySet>, files: seq<FileNode>, fs: FsInfo,
                     at: nat, part: seq<Entry>, e: EntrySet, file: FileNode)
    requires InOrder(entries, TypesOf(entries), nodes, files, fs) && at + |part| <= |entries|
    requires e.start == at && e.count == |part| > 1 && Describes(part, file, fs)
    requires e.nameEntries == DivRoundUp(Meta2Of(part[1]).nameLength, NAME_UNITS)
    requires forall k | 0 <= k < |nodes| :: Apart(e, nodes[k])
    ensures var after := Patch(entries, at, part); InOrder(after, TypesOf(after), [e] + nodes, [file] + files, fs)
  {
    hide IsStored, Describes, Meta2Of, DivRoundUp;
    var after := Patch(entries, at, part);
    assert SetAt(after, e) == part;
    WrittenIsStored(after, e, file, fs);
    forall k | 0 <= k < |nodes| ensures IsStored(after, nodes[k], files[k], fs) {
      InsideBoth(entries, nodes[k], files[k], fs);
      StoredKept(entries, after, nodes[k], files[k], fs);
    }
  }

  lemma WrittenIsStored(after: seq<Entry>, e: EntrySet, file: FileNode, fs: FsInfo)
    requires e.start + e.count <= |after| && e.count > 1 && Describes(SetAt(after, e), file, fs)
    requires e.nameEntries == DivRoundUp(Meta2Of(SetAt(after, e)[1]).nameLength, NAME_UNITS)
    ensures IsStored(after, e, file, fs)
  {
  }

  /** erase_entries: the valid bits are cleared. */
  function Erased(part: seq<Entry>): (after: seq<Entry>)
    ensures |after| == |part| && forall i | 0 <= i < |part| :: after[i] == part[i][0 := part[i][0] % VALID]
  {
    seq(|part|, i requires 0 <= i < |part| => part[i][0 := part[i][0] % VALID])
  }

  lemma ErasedTypes(entries: seq<Entry>, e: EntrySet)
    requires e.start + e.count <= |entries|
    ensures TypesOf(Patch(entries, e.start, Erased(SetAt(entries, e)))) == Invalidated(TypesOf(entries), e)
  {
  }

  lemma EraseInOrder(entries: seq<Entry>, nodes: seq<EntrySet>, files: seq<FileNode>, fs: FsInfo, k: nat)
    requires InOrder(entries, TypesOf(entries), nodes, files, fs) && k < |nodes| && Disjoint(nodes)
    requires nodes[k].start + nodes[k].count <= |entries|
    ensures var after := Patch(entries, nodes[k].start, Erased(SetAt(entries, nodes[k])));
            InOrder(after, TypesOf(after), Without(nodes, k), Without(files, k), fs)
  {
    hide IsStored;
    var after := Patch(entries, nodes[k].start, Erased(SetAt(entries, nodes[k])));
    var rest := Without(nodes, k);
    forall j | 0 <= j < |rest| ensures IsStored(after, rest[j], Without(files, k)[j], fs) {
      var j0 := if j < k then j else j + 1;
      assert rest[j] == nodes[j0];
      assert Apart(nodes[if j0 < k then j0 else k], nodes[if j0 < k then k else j0]);
      InsideBoth(entries, nodes[j0], files[j0], fs);
      StoredKept(entries, after, nodes[j0], files[j0], fs);
    }
  }

  /** Valid entries that are no one's are the system's. */
  ghost predicate OthersAreSystem(types: seq<byte>, nodes: seq<EntrySet>) {
    forall i: nat | i < |types| && types[i] >= VALID && !Covered(nodes, i) ::
      types[i] == ENTRY_BITMAP || types[i] == ENTRY_UPCASE || types[i] == ENTRY_LABEL
  }

  lemma ExtendedOthers(types: seq<byte>, nodes: seq<EntrySet>, end: nat, perCluster: nat)
    requires OthersAreSystem(types, nodes) && perCluster > 0
    ensures OthersAreSystem(Extended(types, end, perCluster), nodes)
  {
    hide Covered;
  }

  lemma AttachedOthers(types: seq<byte>, nodes: seq<EntrySet>, e: EntrySet, part: seq<byte>)
    requires OthersAreSystem(types, nodes) && e.count == |part| && e.start + e.count <= |types|
    ensures OthersAreSystem(Patch(types, e.start, part), [e] + nodes)
  {
    hide Covered;
    forall i: nat ensures Covered([e] + nodes, i) <==> e.Has(i) || Covered(nodes, i) {
      CoveredAttached(nodes, e, i);
    }
  }

  lemma DetachedOthers(types: seq<byte>, nodes: seq<EntrySet>, k: nat)
    requires OthersAreSystem(types, nodes) && k < |nodes| && Disjoint(nodes)
    ensures OthersAreSystem(Invalidated(types, nodes[k]), Without(nodes, k))
  {
    hide Covered, Without, Disjoint;
    forall i: nat ensures Covered(Without(nodes, k), i) <==> Covered(nodes, i) && !nodes[k].Has(i) {
      CoveredDetached(nodes, k, i);
    }
  }

  /** A node that was found in a directory, and where. */
  datatype Found = Found(start: nat, node: FileNode)

  /** What was found in front of `at` are the nodes there, in the order of their places. */
  ghost predicate FoundSoFar(nodes: seq<EntrySet>, files: seq<FileNode>, found: seq<Found>, at: nat)
    requires |files| == |nodes|
  {
    && (forall k | 0 <= k < |nodes| :: nodes[k].start + nodes[k].count <= at || at <= nodes[k].start)
    && (forall j | 0 <= j < |found| :: found[j].start < at)
    && (forall i, j | 0 <= i < j < |found| :: found[i].start < found[j].start)
    && (forall f :: f in found <==> f.start < at && IsNode(nodes, files, f))
  }

  ghost predicate IsNode(nodes: seq<EntrySet>, files: seq<FileNode>, f: Found)
    requires |files| == |nodes|
  {
    exists k :: 0 <= k < |nodes| && f == Found(nodes[k].start, files[k])
  }

  lemma StoredIsRead(entries: seq<Entry>, e: EntrySet, file: FileNode, fs: FsInfo)
    requires IsStored(entries, e, file, fs)
    ensures fs.clusterSize > 0 && e.start < |entries| && entries[e.start][0] == ENTRY_FILE
    ensures e.count > 0 && Announced(entries[e.start]) == e.count && ReadAt(entries, e.start, fs) == Parsed(file)
  {
    hide Meta1Of, Meta2Of, Parse;
    DescribedParts(SetAt(entries, e), file, fs);
    assert SetAt(entries, e)[0] == entries[e.start];
  }

  /** Behind a set of a directory in order lies neither a name nor a vendor entry. */
  lemma NothingExtends(entries: seq<Entry>, nodes: seq<EntrySet>, files: seq<FileNode>, fs: FsInfo, k: nat)
    requires InOrder(entries, TypesOf(entries), nodes, files, fs) && Disjoint(nodes) && k < |nodes|
    requires OthersAreSystem(TypesOf(entries), nodes)
    ensures var next := nodes[k].start + nodes[k].count; next < |entries| ==> !MayExtend(entries[next][0])
  {
    hide IsStored, Announced, ReadAt;
    var next := nodes[k].start + nodes[k].count;
    StoredIsRead(entries, nodes[k], files[k], fs);
    if next < |entries| && Covered(nodes, next) {
      var j :| 0 <= j < |nodes| && nodes[j].Has(next);
      assert j != k && Apart(nodes[if j < k then j else k], nodes[if j < k then k else j]);
      StoredIsRead(entries, nodes[j], files[j], fs);
    } else if next < |entries| {
      assert TypesOf(entries)[next] == entries[next][0];
    }
  }

  /** In a directory in order, any single changed byte of a set as this driver writes it is noticed: no file is read
      at its place. */
  lemma DirectoryDamageIsDetected(entries: seq<Entry>, nodes: seq<EntrySet>, files: seq<FileNode>, fs: FsInfo, k: nat,
                                  i: nat, o: nat, b: byte)
    requires InOrder(entries, TypesOf(entries), nodes, files, fs) && Disjoint(nodes) && k < |nodes|
    requires OthersAreSystem(TypesOf(entries), nodes) && nodes[k].IsPlain()
    requires nodes[k].start <= i < nodes[k].start + nodes[k].count && i < |entries| && o < ENTRY && b != entries[i][o]
    ensures fs.clusterSize > 0 && ReadAt(Damaged(entries, i, o, b), nodes[k].start, fs) == Rejected
  {
    hide InOrder, ReadAt, Announced, Damaged, MayExtend, OthersAreSystem, Meta2Of, DivRoundUp;
    NothingExtends(entries, nodes, files, fs, k);
    PlainSet(entries, nodes, files, fs, k);
    DamageIsDetected(entries, nodes[k].start, fs, i - nodes[k].start, o, b);
  }

  lemma PlainSet(entries: seq<Entry>, nodes: seq<EntrySet>, files: seq<FileNode>, fs: FsInfo, k: nat)
    requires InOrder(entries, TypesOf(entries), nodes, files, fs) && k < |nodes| && nodes[k].IsPlain()
    ensures nodes[k].start + nodes[k].count <= |entries| && nodes[k].count > 0 && fs.clusterSize > 0
    ensures Announced(entries[nodes[k].start]) == nodes[k].count && ReadAt(entries, nodes[k].start, fs).Parsed?
    ensures IsPlain(entries[nodes[k].start..nodes[k].start + nodes[k].count])
  {
    hide ReadAt, Announced, Meta2Of, DivRoundUp, Parse;
    StoredIsRead(entries, nodes[k], files[k], fs);
  }

  lemma NothingHere(nodes: seq<EntrySet>, files: seq<FileNode>, found: seq<Found>, at: nat)
    requires |files| == |nodes| && FoundSoFar(nodes, files, found, at) && !Covered(nodes, at)
    requires forall k | 0 <= k < |nodes| :: nodes[k].count > 0
    ensures FoundSoFar(nodes, files, found, at + 1)
  {
    forall k | 0 <= k < |nodes|
      ensures nodes[k].start != at && (nodes[k].start + nodes[k].count <= at + 1 || at + 1 <= nodes[k].start)
    {
      assert !nodes[k].Has(at);
    }
  }

  /** A slot of a node, met from the front, is its first. */
  lemma FirstSlot(nodes: seq<EntrySet>, files: seq<FileNode>, found: seq<Found>, at: nat) returns (k: nat)
    requires |files| == |nodes| && FoundSoFar(nodes, files, found, at) && Covered(nodes, at)
    ensures k < |nodes| && nodes[k].start == at
  {
    k :| 0 <= k < |nodes| && nodes[k].Has(at);
  }

  lemma NodeHere(nodes: seq<EntrySet>, files: seq<FileNode>, found: seq<Found>, at: nat, k: nat)
    requires |files| == |nodes| && FoundSoFar(nodes, files, found, at) && Disjoint(nodes)
    requires k < |nodes| && nodes[k].start == at && forall j | 0 <= j < |nodes| :: nodes[j].count > 0
    ensures FoundSoFar(nodes, files, found + [Found(at, files[k])], at + nodes[k].count)
  {
    var next := at + nodes[k].count;
    forall j | 0 <= j < |nodes| && j != k ensures nodes[j].start + nodes[j].count <= at || next <= nodes[j].start {
      assert Apart(nodes[if j < k then j else k], nodes[if j < k then k else j]);
    }
    var more := found + [Found(at, files[k])];
    forall f ensures f in more <==> f.start < next && IsNode(nodes, files, f) {
      if f.start < next && IsNode(nodes, files, f) && f !in found {
        var j :| 0 <= j < |nodes| && f == Found(nodes[j].start, files[j]);
        assert j == k;
      }
      if f == Found(at, files[k]) {
        assert IsNode(nodes, files, f);
      }
    }
  }

  /** One turn of readdir in a directory in order: a node is read here, or the entry is passed over. */
  lemma NextEntry(entries: seq<Entry>, nodes: seq<EntrySet>, files: seq<FileNode>, fs: FsInfo, found: seq<Found>, at: nat)
    requires fs.clusterSize > 0 && InOrder(entries, TypesOf(entries), nodes, files, fs) && at < |entries|
    requires Disjoint(nodes) && Inside(nodes, |entries|) && OthersAreSystem(TypesOf(entries), nodes)
    requires FoundSoFar(nodes, files, found, at)
    ensures var entryType := entries[at][0]; var r := ReadAt(entries, at, fs); var n := Announced(entries[at]);
      if entryType == ENTRY_FILE
      then r.Parsed? && at + n <= |entries| && FoundSoFar(nodes, files, found + [Found(at, r.node)], at + n)
      else FoundSoFar(nodes, files, found, at + 1)
           && (entryType < VALID || entryType == ENTRY_BITMAP || entryType == ENTRY_UPCASE || entryType == ENTRY_LABEL)
  {
    hide FoundSoFar, Covered, IsStored, Disjoint, ReadAt, Announced;
    if Covered(nodes, at) {
      var k := FirstSlot(nodes, files, found, at);
      StoredIsRead(entries, nodes[k], files[k], fs);
      NodeHere(nodes, files, found, at, k);
    } else {
      NothingHere(nodes, files, found, at);
      assert TypesOf(entries)[at] == entries[at][0];
    }
  }

  /**
   * exfat_cache_directory, as far as files are concerned: of a directory in order, exactly its nodes are found, each
   * as it is stored and where it is stored, from front to back.
   */
  method CacheDirectory(entries: seq<Entry>, fs: FsInfo, ghost nodes: seq<EntrySet>, ghost files: seq<FileNode>)
    returns (ok: bool, found: seq<Found>)
    requires fs.clusterSize > 0 && InOrder(entries, TypesOf(entries), nodes, files, fs)
    requires Disjoint(nodes) && Inside(nodes, |entries|) && OthersAreSystem(TypesOf(entries), nodes)
    ensures ok && FoundSoFar(nodes, files, found, |entries|)
  {
    hide FoundSoFar, IsStored, OthersAreSystem, Inside, Disjoint, ReadAt, Meta1Of;
    StartOfListing(nodes, files);
    found := [];
    var at := 0;
    while at < |entries|
      invariant at <= |entries| && FoundSoFar(nodes, files, found, at)
    {
      NextEntry(entries, nodes, files, fs, found, at);
      var entryType := entries[at][0];
      if entryType == ENTRY_FILE {
        var r := ReadAt(entries, at, fs);
        if r.Rejected? {
          return false, found;
        }
        found := found + [Found(at, r.node)];
        at := at + Announced(entries[at]);
      } else if entryType >= VALID && entryType != ENTRY_BITMAP && entryType != ENTRY_UPCASE && entryType != ENTRY_LABEL {
        return false, found;
      } else {
        at := at + 1;
      }
    }
    ok := true;
  }

  lemma StartOfListing(nodes: seq<EntrySet>, files: seq<FileNode>)
    requires |files| == |nodes|
    ensures FoundSoFar(nodes, files, [], 0)
  {
  }
}

/** A cached directory and the file of the volume that holds its entries. */
module Catalogs {
  import opened Basics
  import opened ClusterMath
  import opened FileBytes
  import Rounding
  import opened Slots
  import opened Directories
  import opened Timestamps
  import opened EntryLayout
  import opened EntrySets
  import opened Quota
  import opened FileSystems
  import opened Listings

  /** The other files are as before. */
  ghost predicate OthersSame(before: seq<FileState>, after: seq<FileState>, d: nat) {
    |after| == |before| && forall j | 0 <= j < |before| && j != d :: after[j] == before[j]
  }

  /** A write inside a file of only valid bytes always succeeds, and changes that file only. */
  lemma WriteInside(cs: nat, quota: int, before: seq<FileState>, d: nat, data: seq<byte>, offset: nat, ok: bool,
                    after: seq<FileState>)
    requires cs > 0 && d < |before| && Step(cs, quota, before, d, Writing(data, offset), ok, after)
    requires Demand(cs, before) <= quota && before[d].validSize == |before[d].content| >= offset + |data|
    ensures ok && OthersSame(before, after, d)
    ensures after[d] == FileState(Patch(before[d].content, offset, data), before[d].validSize)
  {
    hide ClustersFor, Demand;
    var content := before[d].content;
    assert FileBytes.Resize(content, |content|) == content;
    assert data == [] ==> Patch(content, offset, data) == content;
  }

  lemma ResizeOutcome(cs: nat, quota: int, before: seq<FileState>, d: nat, size: nat, ok: bool, after: seq<FileState>)
    requires cs > 0 && d < |before| && Step(cs, quota, before, d, Resizing(size, true), ok, after)
    requires before[d].validSize == |before[d].content|
    ensures OthersSame(before, after, d)
    ensures ok <==> Demand(cs, before) - ClustersFor(cs, |before[d].content|) + ClustersFor(cs, size) <= quota
    ensures after[d] == if ok then FileState(FileBytes.Resize(before[d].content, size), size) else before[d]
  {
    hide ClustersFor, Demand;
  }

  class Catalog {
    const fsys: FileSystem
    const d: nat
    const dir: Directory
    const timezone: int
    const startCluster: u32
    var files: seq<FileNode>            // the nodes in memory
    var dirty: seq<bool>                // which of them changed since they were stored
    ghost var stored: seq<FileNode>     // what the slots of each describe
    ghost var entries: seq<Entry>

    /** Takes over a directory that was read. */
    constructor (fsys: FileSystem, d: nat, dir: Directory, timezone: int, files: seq<FileNode>, ghost entries: seq<Entry>)
      requires fsys.Valid() && dir.Valid() && AllFit(dir.nodes, dir.perCluster) && IsZone(timezone)
      requires d < |fsys.nodes| && dir.perCluster >= 16 && fsys.vol.clusterSize == ENTRY * dir.perCluster
      requires entries != [] && fsys.State()[d] == FileState(Flat(entries), ENTRY * |entries|)
      requires dir.isRoot ==> !fsys.nodes[d].isContiguous
      requires InOrder(entries, dir.types, dir.nodes, files, FsInfo(timezone, fsys.vol.clusterSize, fsys.vol.clusterCount))
      requires OthersAreSystem(dir.types, dir.nodes)
      ensures Valid() && this.fsys == fsys && this.d == d && this.dir == dir && this.timezone == timezone
      ensures startCluster == fsys.nodes[d].startCluster
      ensures this.files == stored == files && dirty == seq(|files|, _ => false) && this.entries == entries
    {
      this.fsys, this.d, this.dir, this.timezone, this.startCluster := fsys, d, dir, timezone, fsys.nodes[d].startCluster;
      this.files, this.stored, this.dirty, this.entries := files, files, seq(|files|, _ => false), entries;
      ReadNodesAreUpdates(entries, dir.types, dir.nodes, files,
                          FsInfo(timezone, fsys.vol.clusterSize, fsys.vol.clusterCount));
      new;
      hide FileSystem.Valid, IsTidy, InOrder, OthersAreSystem, AllFit, Flat, IsUpdate;
    }

    function Info(): FsInfo {
      FsInfo(timezone, fsys.vol.clusterSize, fsys.vol.clusterCount)
    }

    /** The file holds the entries and nothing else, in whole clusters; that of a root directory is linked in the FAT. */
    ghost predicate IsHeld()
      reads this, fsys, fsys.nodes
    {
      && d < |fsys.nodes| && dir.perCluster >= 16 && fsys.vol.clusterSize == ENTRY * dir.perCluster
      && entries != [] && fsys.State()[d] == FileState(Flat(entries), ENTRY * |entries|)
      && fsys.nodes[d].startCluster == startCluster && (dir.isRoot ==> !fsys.nodes[d].isContiguous)
    }

    ghost predicate Valid()
      reads this, dir, fsys, fsys.vol, fsys.vol.cmap, fsys.vol.cmap.chunk, fsys.nodes
    {
      && fsys.Valid() && IsHeld() && dir.Valid() && AllFit(dir.nodes, dir.perCluster) && IsZone(timezone)
      && InOrder(entries, dir.types, dir.nodes, stored, Info()) && OthersAreSystem(dir.types, dir.nodes)
      && AreUpdates(stored, files, Info()) && AreKept(stored, files, dirty, timezone)
    }

    /** The directory as a value. */
    ghost function Snapshot(): DirState
      reads this, dir
    {
      DirState(entries, dir.nodes, stored, files, dirty)
    }

    /** The clusters that the other files leave to this directory. */
    ghost function Room(): int
      reads this, fsys, fsys.nodes
      requires IsHeld()
    {
      fsys.TheQuota() - (Demand(fsys.vol.clusterSize, fsys.State()) - ClustersFor(fsys.vol.clusterSize, ENTRY * |entries|))
    }

    /** write_entries, of entries that are there: always possible. */
    method WriteEntries(at: nat, part: seq<Entry>)
      requires fsys.Valid() && IsHeld() && at + |part| <= |entries|
      modifies fsys.vol, fsys.vol.cmap`used, fsys.vol.cmap`dirty, fsys.vol.cmap.chunk, fsys.nodes[d], `entries
      ensures fsys.Valid() && IsHeld() && entries == Patch(old(entries), at, part)
      ensures OthersSame(old(fsys.State()), fsys.State(), d)
    {
      hide ClustersFor, ClusterStart, Demand, FileSystem.Valid, Flat, Step;
      fsys.CapacityOf(d);
      fsys.FileIsInHeap(d, 0);
      ghost var before := fsys.State();
      fsys.StartOfFile(d);
      var ok := fsys.Write(d, Flat(part), ENTRY * at);
      WriteInside(fsys.vol.clusterSize, fsys.TheQuota(), before, d, Flat(part), ENTRY * at, ok, fsys.State());
      FlatPatch(entries, at, part);
      entries := Patch(entries, at, part);
      fsys.StartOfFile(d);
    }

    /** exfat_truncate of the directory: it can always shrink, and grows exactly if the volume has the clusters. */
    method Resize(n: nat) returns (ok: bool)
      requires fsys.Valid() && IsHeld() && 0 < n <= |entries| + 4 * dir.perCluster
      modifies fsys.vol, fsys.vol.cmap`used, fsys.vol.cmap`dirty, fsys.vol.cmap.chunk, fsys.nodes[d], `entries
      ensures fsys.Valid() && IsHeld() && entries == if ok then Refit(old(entries), n) else old(entries)
      ensures ok <==> ClustersFor(fsys.vol.clusterSize, ENTRY * n) <= old(Room())
      ensures n <= |old(entries)| ==> ok
      ensures OthersSame(old(fsys.State()), fsys.State(), d)
    {
      hide ClustersFor, ClusterStart, Demand, FileSystem.Valid, Flat, Refit, Step;
      fsys.CapacityOf(d);
      fsys.FileIsInHeap(d, 4);
      FewMore(fsys.vol.clusterSize, |fsys.nodes[d].chain|);
      if n <= |entries| {
        ClustersForOrder(fsys.vol.clusterSize, ENTRY * n, ENTRY * |entries|);
      }
      ghost var before := fsys.State();
      fsys.StartOfFile(d);
      ok := fsys.Truncate(d, ENTRY * n, true);
      ResizeOutcome(fsys.vol.clusterSize, fsys.TheQuota(), before, d, ENTRY * n, ok, fsys.State());
      if ok {
        FlatRefit(entries, n);
        entries := Refit(entries, n);
      }
      fsys.StartOfFile(d);
    }

    /** read_entries, of entries that are there. */
    method ReadEntries(at: nat, n: nat) returns (part: seq<Entry>)
      requires fsys.Valid() && IsHeld() && 0 < n && at + n <= |entries|
      modifies fsys.nodes[d]
      ensures fsys.Valid() && IsHeld() && fsys.State() == old(fsys.State())
      ensures part == entries[at..at + n]
    {
      hide FileSystem.Valid, Flat, Cut;
      var buffer := new byte[ENTRY * n];
      var r := fsys.Read(d, buffer, ENTRY * n, ENTRY * at);
      CutOfFlat(entries, at, n);
      assert r == ENTRY * n && buffer[..] == buffer[..r];
      part := Cut(buffer[..], n);
    }

    /** No place suits n entries, and the volume has not the clusters for more. */
    ghost predicate IsFull(n: nat)
      reads this, dir, fsys, fsys.nodes
      requires IsHeld()
    {
      IsFullIn(dir.types, dir.nodes, dir.isRoot, dir.perCluster, Room(), n)
    }

    /** The directory is extended to have `end` slots, if the volume has the clusters. */
    method Grow(end: nat) returns (ok: bool)
      requires Valid() && |dir.types| < end <= |dir.types| + 2 * dir.perCluster
      modifies dir`types, fsys.vol, fsys.vol.cmap`used, fsys.vol.cmap`dirty, fsys.vol.cmap.chunk, fsys.nodes[d], `entries
      ensures Valid() && OthersSame(old(fsys.State()), fsys.State(), d)
      ensures ok <==>
              ClustersFor(fsys.vol.clusterSize, ENTRY * |Extended(old(dir.types), end, dir.perCluster)|) <= old(Room())
      ensures dir.types == if ok then Extended(old(dir.types), end, dir.perCluster) else old(dir.types)
      ensures entries == Refit(old(entries), |dir.types|)
    {
      hide FileSystem.Valid, Extended, AllFit, InOrder, Refit, Catalog.Room, ClustersFor, Inside, AllValid, Disjoint,
        OthersAreSystem, AreUpdates;
      ExtendedOthers(dir.types, dir.nodes, end, dir.perCluster);
      GrownSize(dir.types, dir.perCluster, end);
      GrowInOrder(entries, dir.types, dir.nodes, stored, Info(), dir.isRoot, dir.perCluster, end);
      RefitTypes(entries, dir.types, dir.nodes, stored, Info());
      ok := Resize(Rounding.RoundUp(end, dir.perCluster));
      if ok {
        dir.Extend(end);
      }
    }

    lemma IsFullAt(n: nat, at: nat)
      requires IsHeld() && dir.Valid() && IsPlace(dir.types, dir.nodes, dir.isRoot, at, n) && n <= 2 * dir.perCluster
      ensures IsFull(n) <==> !Suits(dir.types, dir.nodes, dir.isRoot, at, n)
                             && ClustersFor(fsys.vol.clusterSize, ENTRY * |Extended(dir.types, at + n, dir.perCluster)|) > Room()
      ensures !Suits(dir.types, dir.nodes, dir.isRoot, at, n) ==> |dir.types| < at + n <= |dir.types| + 2 * dir.perCluster
      ensures Suits(dir.types, dir.nodes, dir.isRoot, at, n) ==> Extended(dir.types, at + n, dir.perCluster) == dir.types
    {
      hide Suits, IsTidy, IsPlace, Extended, Catalog.Room, ClustersFor;
      PlaceFits(dir.types, dir.nodes, dir.isRoot, dir.perCluster, at, n);
    }

    /** find_slot: the first place that suits, or else the end, if the volume has the clusters to grow by. */
    method Place(n: nat) returns (r: Placement)
      requires Valid() && 0 < n <= 2 * dir.perCluster
      modifies dir`types, fsys.vol, fsys.vol.cmap`used, fsys.vol.cmap`dirty, fsys.vol.cmap.chunk, fsys.nodes[d], `entries
      ensures Valid() && OthersSame(old(fsys.State()), fsys.State(), d)
      ensures r.NoSpace? <==> old(IsFull(n))
      ensures r.Placed? ==> IsPlace(old(dir.types), dir.nodes, dir.isRoot, r.at, n)
      ensures dir.types == if r.Placed? then Extended(old(dir.types), r.at + n, dir.perCluster) else old(dir.types)
      ensures entries == Refit(old(entries), |dir.types|)
    {
      hide FileSystem.Valid, Suits, IsTail, IsTidy, IsPlace, Extended, AllFit, InOrder, Refit, OthersAreSystem,
        Catalog.Room, ClustersFor, Catalog.IsFull, AreUpdates;
      var found, at := dir.Search(n);
      IsFullAt(n, at);
      RefitTypes(entries, dir.types, dir.nodes, stored, Info());
      r := Placed(at);
      if !found {
        var ok := Grow(at + n);
        if !ok {
          r := NoSpace;
        }
      }
    }

    /** The entries of a file are written to free slots, and its node attached. */
    method WriteSet(at: nat, part: seq<Entry>, ghost file: FileNode, node: FileNode, isDirty: bool)
      requires Valid() && 2 < |part| && at + |part| <= |entries| && Uncovered(dir.nodes, at, at + |part|)
      requires Describes(part, file, Info()) && IsNewSet(part) && IsUpdate(file, node, Info())
      requires isDirty || IsKept(file, node, timezone)
      modifies dir`types, dir`nodes, `files, `stored, `dirty, `entries
      modifies fsys.vol, fsys.vol.cmap`used, fsys.vol.cmap`dirty, fsys.vol.cmap.chunk, fsys.nodes[d]
      ensures Valid() && OthersSame(old(fsys.State()), fsys.State(), d)
      ensures dir.nodes == [EntrySet(at, |part|, |part| - 2)] + old(dir.nodes)
      ensures stored == [file] + old(stored) && files == [node] + old(files) && dirty == [isDirty] + old(dirty)
      ensures |entries| == |old(entries)| && entries == Patch(old(entries), at, part)
    {
      hide FileSystem.Valid, Covered, InOrder, OthersAreSystem, Describes, Disjoint, AllValid, Inside, FitsItsName,
        IsNewSet, IsUpdate, IsKept;
      SetWritten(entries, dir.types, dir.nodes, stored, Info(), dir.perCluster, at, part, file);
      WriteEntries(at, part);
      dir.Attach(at, |part| - 2);
      stored, files, dirty := [file] + stored, [node] + files, [isDirty] + dirty;
    }

    /** erase_entries, and the node detached. */
    method EraseSet(k: nat)
      requires Valid() && k < |dir.nodes|
      modifies dir`types, dir`nodes, `files, `stored, `dirty, `entries
      modifies fsys.vol, fsys.vol.cmap`used, fsys.vol.cmap`dirty, fsys.vol.cmap.chunk, fsys.nodes[d]
      ensures Valid() && OthersSame(old(fsys.State()), fsys.State(), d)
      ensures dir.nodes == Without(old(dir.nodes), k) && |old(stored)| == |old(files)| == |old(dir.nodes)|
      ensures stored == Without(old(stored), k) && files == Without(old(files), k)
      ensures |old(dirty)| == |old(files)| && dirty == Without(old(dirty), k)
      ensures dir.types == Invalidated(old(dir.types), old(dir.nodes[k])) && |entries| == |old(entries)|
      ensures entries == old(Patch(entries, dir.nodes[k].start, Erased(SetAt(entries, dir.nodes[k]))))
    {
      hide FileSystem.Valid, Covered, InOrder, OthersAreSystem, Describes, Disjoint, AllValid, FitsItsName, Erased,
        AreUpdates, AreKept;
      var e := dir.nodes[k];
      SetErased(entries, dir.types, dir.nodes, stored, Info(), dir.perCluster, k);
      UpdatesWithout(stored, files, k, Info());
      KeptWithout(stored, files, dirty, k, timezone);
      var part := ReadEntries(e.start, e.count);
      WriteEntries(e.start, Erased(part));
      dir.Detach(k);
      stored, files, dirty := Without(stored, k), Without(files, k), Without(dirty, k);
    }

    /** shrink_directory */
    method Shrink(deleted: nat)
      requires Valid()
      modifies dir`types, `entries
      modifies fsys.vol, fsys.vol.cmap`used, fsys.vol.cmap`dirty, fsys.vol.cmap.chunk, fsys.nodes[d]
      ensures Valid() && OthersSame(old(fsys.State()), fsys.State(), d)
      ensures |dir.types| <= |old(dir.types)| == |old(entries)|
      ensures dir.types == old(dir.types)[..|dir.types|] && entries == old(entries)[..|dir.types|]
      ensures |dir.types| == ShrunkTo(dir.nodes, deleted, dir.perCluster, |old(dir.types)|)
    {
      hide FileSystem.Valid, Covered, InOrder, OthersAreSystem, Disjoint, AllValid, FitsItsName, ShrunkTo, Refit, LastOf,
        AnyBehind, Inside, AreUpdates;
      FitMeansWhole(dir.nodes, deleted, dir.perCluster);
      RefitTypes(entries, dir.types, dir.nodes, stored, Info());
      ghost var types := dir.types;
      dir.Shrink(deleted);
      CutInOrder(entries, types, dir.nodes, stored, Info(), |dir.types|);
      var ok := Resize(|dir.types|);
    }

    /** create: find_slot and commit_entry. It fails exactly if no place suits and the volume has no room for more. */
    method Create(name: seq<u16>, attrib: u16, nameHash: u16, s: Stamp) returns (r: Placement)
      requires Valid() && 0 < |name| < NAME_BUFFER
      modifies dir`types, dir`nodes, `files, `stored, `dirty, `entries
      modifies fsys.vol, fsys.vol.cmap`used, fsys.vol.cmap`dirty, fsys.vol.cmap.chunk, fsys.nodes[d]
      ensures Valid() && OthersSame(old(fsys.State()), fsys.State(), d)
      ensures r.NoSpace? <==> old(IsFull(2 + DivRoundUp(|name|, NAME_UNITS)))
      ensures r.NoSpace? ==> Snapshot() == old(Snapshot())
      ensures r.Placed? ==>
        IsMade(old(Snapshot()), Snapshot(), r.at, dir.isRoot, dir.perCluster, Committed(name, attrib, nameHash, s),
               NewNode(name, attrib, s, timezone))
    {
      hide FileSystem.Valid, InOrder, IsTidy, OthersAreSystem, Describes, IsPlace, Uncovered, Extended, Refit, AllFit,
        NewNode, IsNewSet, Catalog.IsFull, Committed, DivRoundUp, FileBytes.Patch, AreUpdates, TypesOf, IsMade;
      NameEntriesSuffice(|name|);
      ghost var types, before := dir.types, Snapshot();
      RefitTypes(entries, dir.types, dir.nodes, stored, Info());
      r := Place(2 + DivRoundUp(|name|, NAME_UNITS));
      if r.Placed? {
        PlaceIsFree(types, dir.nodes, dir.isRoot, dir.perCluster, r.at, 2 + DivRoundUp(|name|, NAME_UNITS));
        RoomMade(types, r.at + 2 + DivRoundUp(|name|, NAME_UNITS), dir.perCluster, entries, dir.nodes, stored, Info());
        CommitSet(r.at, name, attrib, nameHash, s);
        MadeParts(before, Snapshot(), r.at, dir.isRoot, dir.perCluster, Committed(name, attrib, nameHash, s),
                  NewNode(name, attrib, s, timezone));
      }
    }

    /** commit_entry: the entries of a new file are written, and its node attached. */
    method CommitSet(at: nat, name: seq<u16>, attrib: u16, nameHash: u16, s: Stamp)
      requires Valid() && 0 < |name| < NAME_BUFFER
      requires var n := 2 + DivRoundUp(|name|, NAME_UNITS); at + n <= |entries| && Uncovered(dir.nodes, at, at + n)
      modifies dir`types, dir`nodes, `files, `stored, `dirty, `entries
      modifies fsys.vol, fsys.vol.cmap`used, fsys.vol.cmap`dirty, fsys.vol.cmap.chunk, fsys.nodes[d]
      ensures Valid() && OthersSame(old(fsys.State()), fsys.State(), d)
      ensures |entries| == |old(entries)| && entries == Patch(old(entries), at, Committed(name, attrib, nameHash, s))
      ensures files == [NewNode(name, attrib, s, timezone)] + old(files)
      ensures stored == [NewNode(name, attrib, s, timezone)] + old(stored) && dirty == [false] + old(dirty)
      ensures dir.nodes == [EntrySet(at, 2 + DivRoundUp(|name|, NAME_UNITS), DivRoundUp(|name|, NAME_UNITS))] + old(dir.nodes)
    {
      hide FileSystem.Valid, InOrder, IsTidy, OthersAreSystem, Describes, Uncovered, AllFit, NewNode, IsNewSet, Committed,
        DivRoundUp, AreUpdates, IsUpdate, AreKept;
      NameEntriesSuffice(|name|);
      CommittedIsNew(name, attrib, nameHash, s);
      CommitDescribes(name, attrib, nameHash, s, Info());
      NewNodeIsUpdate(name, attrib, s, Info());
      WriteSet(at, Committed(name, attrib, nameHash, s), NewNode(name, attrib, s, timezone),
               NewNode(name, attrib, s, timezone), false);
    }

    /** delete: the entries are erased, and the directory shrinks to the end of its last name. */
    method Delete(k: nat)
      requires Valid() && k < |dir.nodes|
      modifies dir`types, dir`nodes, `files, `stored, `dirty, `entries
      modifies fsys.vol, fsys.vol.cmap`used, fsys.vol.cmap`dirty, fsys.vol.cmap.chunk, fsys.nodes[d]
      ensures Valid() && OthersSame(old(fsys.State()), fsys.State(), d)
      ensures IsGone(old(Snapshot()), Snapshot(), k, dir.perCluster)
    {
      hide FileSystem.Valid, InOrder, IsTidy, OthersAreSystem, AllFit, ShrunkTo, Without, Erased, AreUpdates;
      var deleted := dir.nodes[k].start;
      RefitTypes(entries, dir.types, dir.nodes, stored, Info());
      NodeIsStored(entries, dir.types, dir.nodes, stored, Info(), k);
      EraseSet(k);
      Shrink(deleted);
      RefitTypes(entries, dir.types, dir.nodes, stored, Info());
    }

    /** rename_entry, within one directory: the node moves to free slots, with its new name. */
    method MoveSet(k: nat, at: nat, name: seq<u16>, nameHash: u16)
      requires Valid() && k < |dir.nodes| && 0 < |name| < NAME_BUFFER
      requires var n := 2 + DivRoundUp(|name|, NAME_UNITS); at + n <= |entries| && Uncovered(dir.nodes, at, at + n)
      modifies dir`types, dir`nodes, `files, `stored, `dirty, `entries
      modifies fsys.vol, fsys.vol.cmap`used, fsys.vol.cmap`dirty, fsys.vol.cmap.chunk, fsys.nodes[d]
      ensures Valid() && OthersSame(old(fsys.State()), fsys.State(), d)
      ensures |old(stored)| == |old(files)| == |old(dir.nodes)|
      ensures |entries| == |old(entries)| && IsMoved(old(entries), entries, old(dir.nodes[k]), at, name, nameHash)
      ensures files == [WithName(old(files)[k], name)] + Without(old(files), k)
      ensures stored == [WithName(old(stored)[k], name)] + Without(old(stored), k)
      ensures |old(dirty)| == |old(files)| && dirty == [old(dirty)[k]] + Without(old(dirty), k)
      ensures dir.nodes == [EntrySet(at, 2 + DivRoundUp(|name|, NAME_UNITS), DivRoundUp(|name|, NAME_UNITS))]
                        + Without(old(dir.nodes), k)
    {
      hide FileSystem.Valid, InOrder, IsTidy, OthersAreSystem, Describes, Uncovered, AllFit, WithName, IsNewSet, Renamed,
        DivRoundUp, FileBytes.Patch, Without, SetAt, AreUpdates, IsUpdate, IsKept;
      NameEntriesSuffice(|name|);
      NodeIsStored(entries, dir.types, dir.nodes, stored, Info(), k);
      SameLengths(stored, files, Info());
      ghost var file := stored[k];
      var node := files[k];
      RenamedIsUpdate(stored, files, k, name, Info());
      var isDirty := dirty[k];
      RenamedIsKept(file, node, name, timezone);
      var part := ReadEntries(dir.nodes[k].start, 2);
      FirstTwo(entries, dir.nodes[k], part);
      RenamedSet(SetAt(entries, dir.nodes[k]), part, file, name, nameHash, Info());
      RestIsFree(dir.types, dir.nodes, dir.isRoot, dir.perCluster, k, at, at + 2 + DivRoundUp(|name|, NAME_UNITS));
      EraseSet(k);
      WriteSet(at, Renamed(part, name, nameHash), WithName(file, name), WithName(node, name), isDirty);
    }

    /** find_slot and rename_entry, within one directory. */
    method Rename(k: nat, name: seq<u16>, nameHash: u16) returns (r: Placement)
      requires Valid() && k < |dir.nodes| && 0 < |name| < NAME_BUFFER
      modifies dir`types, dir`nodes, `files, `stored, `dirty, `entries
      modifies fsys.vol, fsys.vol.cmap`used, fsys.vol.cmap`dirty, fsys.vol.cmap.chunk, fsys.nodes[d]
      ensures Valid() && OthersSame(old(fsys.State()), fsys.State(), d)
      ensures r.NoSpace? <==> old(IsFull(2 + DivRoundUp(|name|, NAME_UNITS)))
      ensures r.NoSpace? ==> Snapshot() == old(Snapshot())
      ensures r.Placed? ==> IsRenamed(old(Snapshot()), Snapshot(), r.at, dir.isRoot, dir.perCluster, k, name, nameHash)
    {
      hide FileSystem.Valid, InOrder, IsTidy, OthersAreSystem, Describes, IsPlace, Uncovered, Extended, Refit, AllFit,
        WithName, IsNewSet, Catalog.IsFull, Renamed, DivRoundUp, FileBytes.Patch, Without, SetAt, AreUpdates, TypesOf,
        IsMoved, IsRenamed;
      NameEntriesSuffice(|name|);
      var n := 2 + DivRoundUp(|name|, NAME_UNITS);
      ghost var types, before := dir.types, Snapshot();
      RefitTypes(entries, dir.types, dir.nodes, stored, Info());
      r := Place(n);
      if r.Placed? {
        PlaceIsFree(types, dir.nodes, dir.isRoot, dir.perCluster, r.at, n);
        RoomMade(types, r.at + n, dir.perCluster, entries, dir.nodes, stored, Info());
        MoveSet(k, r.at, name, nameHash);
        RenamedParts(before, Snapshot(), r.at, dir.isRoot, dir.perCluster, k, name, nameHash);
      }
    }

    /** The node in memory changes, to one that can be stored, and is marked. */
    method Change(k: nat, node: FileNode)
      requires Valid() && k < |files| && IsUpdate(files[k], node, Info())
      modifies `files, `dirty
      ensures Valid() && |old(dirty)| == |old(files)|
      ensures files == old(files)[k := node] && dirty == old(dirty)[k := true]
    {
      hide FileSystem.Valid, InOrder, IsTidy, OthersAreSystem, AllFit, IsUpdate, IsKept;
      SameLengths(stored, files, Info());
      UpdateAgain(stored[k], files[k], node, Info());
      files, dirty := files[k := node], dirty[k := true];
    }

    /** exfat_flush_node of a file: if it changed, its first two entries are written anew, and then the bitmap. The node
        in memory stays as it is. */
    method FlushNode(k: nat)
      requires Valid() && k < |dir.nodes|
      modifies `stored, `dirty, `entries, fsys.vol, fsys.vol.cmap, fsys.vol.cmap.chunk, fsys.nodes[d]
      ensures Valid() && OthersSame(old(fsys.State()), fsys.State(), d)
      ensures IsFlushed(old(Snapshot()), Snapshot(), k, timezone)
      ensures old(dirty)[k] ==> fsys.MapTells(fsys.vol.cmap.used) && !fsys.vol.cmap.dirty
    {
      hide FileSystem.Valid, InOrder, OthersAreSystem, Describes, IsUpdate, Flushed, Reread, AllFit, FileBytes.Patch,
        Disjoint, Inside, AllValid, Covered, CanFlush, IsKept;
      NodeIsStored(entries, dir.types, dir.nodes, stored, Info(), k);
      if !dirty[k] {
        return;
      }
      var node := files[k];
      SetFlushed(entries, dir.types, dir.nodes, stored, Info(), k, node);
      FlushedIsUpdate(stored[k], node, Info());
      var part := ReadEntries(dir.nodes[k].start, 1 + node.continuations);
      WriteEntries(dir.nodes[k].start, Flushed(part, node, timezone));
      FlushedIsKept(node, timezone);
      stored, dirty := stored[k := Reread(node, timezone)], dirty[k := false];
      fsys.Flush();
    }

    /** exfat_flush_nodes, for the files of this directory, and exfat_flush. */
    method FlushAllNodes()
      requires Valid()
      modifies `stored, `dirty, `entries, fsys.vol, fsys.vol.cmap, fsys.vol.cmap.chunk, fsys.nodes[d]
      ensures Valid() && OthersSame(old(fsys.State()), fsys.State(), d)
      ensures |dirty| == |files| && forall k | 0 <= k < |files| :: !dirty[k]
      ensures fsys.MapTells(fsys.vol.cmap.used) && !fsys.vol.cmap.dirty
      ensures |entries| == |old(entries)|
      ensures forall i | 0 <= i < |entries| && !Covered(dir.nodes, i) :: entries[i] == old(entries)[i]
    {
      hide FileSystem.Valid, InOrder, IsTidy, OthersAreSystem, AllFit, IsUpdate, Covered, IsKept, IsFlushed;
      SameLengths(stored, files, Info());
      NodesAreFiles(entries, dir.types, dir.nodes, stored, Info());
      for k := 0 to |files|
        invariant Valid() && OthersSame(old(fsys.State()), fsys.State(), d)
        invariant |dirty| == |files| && |entries| == |old(entries)| && forall j | 0 <= j < k :: !dirty[j]
        invariant forall i | 0 <= i < |entries| && !Covered(dir.nodes, i) :: entries[i] == old(entries)[i]
      {
        ghost var before := Snapshot();
        FlushNode(k);
        FlushedParts(before, Snapshot(), k, timezone);
      }
      fsys.Flush();
    }

    /** One edit. */
    method Perform(edit: Edit) returns (ok: bool)
      requires Valid() && HasName(edit)
      modifies dir`types, dir`nodes, `files, `stored, `dirty, `entries
      modifies fsys.vol, fsys.vol.cmap, fsys.vol.cmap.chunk, fsys.nodes[d]
      ensures Valid() && OthersSame(old(fsys.State()), fsys.State(), d)
      ensures EditStep(old(Snapshot()), edit, ok, Snapshot(), dir.isRoot, dir.perCluster, old(Room()), Info())
    {
      hide FileSystem.Valid, IsTidy, OthersAreSystem, AllFit, IsFullIn, IsStored, DivRoundUp, NewNode,
        IsUpdate, IsMade, IsRenamed, IsGone, IsFlushed, Committed, Catalog.Room;
      ok := true;
      match edit {
        case Making(name, attrib, nameHash, s) =>
          var r := Create(name, attrib, nameHash, s);
          ok := r.Placed?;
        case Naming(k, name, nameHash) =>
          ok := k < |files|;
          if ok {
            var r := Rename(k, name, nameHash);
            ok := r.Placed?;
          }
        case Removing(k) =>
          ok := k < |files|;
          if ok { Delete(k); }
        case Changing(k, node) =>
          ok := k < |files| && IsUpdate(files[k], node, Info());
          if ok { Change(k, node); }
        case Flushing(k) =>
          ok := k < |files|;
          if ok { FlushNode(k); }
      }
    }

    /** What the other files leave to the directory does not change while they do not. */
    twostate lemma RoomStays()
      requires old(IsHeld()) && IsHeld() && OthersSame(old(fsys.State()), fsys.State(), d)
      ensures Room() == old(Room())
    {
      hide ClustersFor;
      DemandOfOthers(fsys.vol.clusterSize, old(fsys.State()), fsys.State(), d);
    }

    /**
     * Every run of edits: each takes the directory from one state to the next as EditStep says, which fixes its result
     * too, no other file changes, and throughout each node's slots in the bytes of the directory's file describe the
     * node as it was last stored.
     */
    method Run(edits: seq<Edit>) returns (results: seq<bool>, ghost trace: seq<DirState>)
      requires Valid() && forall i | 0 <= i < |edits| :: HasName(edits[i])
      modifies dir`types, dir`nodes, `files, `stored, `dirty, `entries
      modifies fsys.vol, fsys.vol.cmap, fsys.vol.cmap.chunk, fsys.nodes[d]
      ensures Valid() && OthersSame(old(fsys.State()), fsys.State(), d)
      ensures |results| == |edits| && |trace| == |edits| + 1
      ensures trace[0] == old(Snapshot()) && trace[|edits|] == Snapshot()
      ensures forall i: nat | i < |edits| ::
                EditStep(trace[i], edits[i], results[i], trace[i + 1], dir.isRoot, dir.perCluster, old(Room()), Info())
    {
      hide FileSystem.Valid, InOrder, IsTidy, AllFit, OthersAreSystem, EditStep, HasName, Catalog.Room, AreUpdates;
      results, trace := [], [Snapshot()];
      for i := 0 to |edits|
        invariant Valid() && OthersSame(old(fsys.State()), fsys.State(), d)
        invariant |results| == i && |trace| == i + 1 && trace[0] == old(Snapshot()) && trace[i] == Snapshot()
        invariant forall j: nat | j < i ::
                    EditStep(trace[j], edits[j], results[j], trace[j + 1], dir.isRoot, dir.perCluster, old(Room()), Info())
      {
        RoomStays();
        var ok := Perform(edits[i]);
        results, trace := results + [ok], trace + [Snapshot()];
      }
    }

    /** The directory read anew from its file: the nodes are found as they were last stored, and no others. */
    method ReadBack() returns (ok: bool, found: seq<Found>)
      requires Valid()
      modifies fsys.nodes[d]
      ensures Valid() && fsys.State() == old(fsys.State())
      ensures ok && FoundSoFar(dir.nodes, stored, found, |entries|)
    {
      hide FileSystem.Valid, IsStored, OthersAreSystem, AllFit, Disjoint, AllValid, Covered, FoundSoFar, Inside, AreUpdates;
      RefitTypes(entries, dir.types, dir.nodes, stored, Info());
      var whole := ReadEntries(0, |dir.types|);
      assert whole == entries;
      ok, found := CacheDirectory(whole, Info(), dir.nodes, stored);
    }
  }

  /** A directory: its entries, where its nodes lie, what is stored of them, the nodes in memory, and which changed. */
  datatype DirState = DirState(
    entries: seq<Entry>, nodes: seq<EntrySet>, stored: seq<FileNode>, files: seq<FileNode>, dirty: seq<bool>)

  datatype Edit =
    | Making(name: seq<u16>, attrib: u16, nameHash: u16, stamp: Stamp)
    | Naming(k: nat, name: seq<u16>, nameHash: u16)
    | Removing(k: nat)
    | Changing(k: nat, node: FileNode)
    | Flushing(k: nat)

  predicate HasName(edit: Edit) {
    edit.Making? || edit.Naming? ==> 0 < |edit.name| < NAME_BUFFER
  }

  /** A node in memory belongs to a stored one and is fit to be stored. */
  predicate IsUpdate(stored: FileNode, node: FileNode, fs: FsInfo) {
    && node.name == stored.name && node.continuations == stored.continuations && CanFlush(node, fs.timezone)
    && fs.clusterSize > 0 && IsSound(Reread(node, fs.timezone), fs)
  }

  ghost predicate AreUpdates(stored: seq<FileNode>, files: seq<FileNode>, fs: FsInfo) {
    |files| == |stored| && forall k | 0 <= k < |files| :: IsUpdate(stored[k], files[k], fs)
  }

  /** A node that did not change is as it was read or made, or as it was last stored. */
  predicate IsKept(stored: FileNode, node: FileNode, timezone: int) {
    stored == node || (CanFlush(node, timezone) && stored == Reread(node, timezone))
  }

  ghost predicate AreKept(stored: seq<FileNode>, files: seq<FileNode>, dirty: seq<bool>, timezone: int) {
    |stored| == |files| == |dirty| && forall k | 0 <= k < |files| && !dirty[k] :: IsKept(stored[k], files[k], timezone)
  }

  /** No place in a directory suits n entries, and `room` clusters are too few for it to have more. */
  ghost predicate IsFullIn(types: seq<byte>, nodes: seq<EntrySet>, isRoot: bool, perCluster: nat, room: int, n: nat) {
    && perCluster > 0 && (forall a: nat :: !Suits(types, nodes, isRoot, a, n))
    && exists at: nat :: IsTail(nodes, |types|, at, n)
                      && ClustersFor(ENTRY * perCluster, ENTRY * |Extended(types, at + n, perCluster)|) > room
  }

  /** A set was written to the place that find_slot finds, and its node attached. */
  ghost predicate IsMade(before: DirState, after: DirState, at: nat, isRoot: bool, perCluster: nat, part: seq<Entry>,
                         node: FileNode)
  {
    var types, n := TypesOf(before.entries), |part|;
    && perCluster > 0 && 2 <= n && IsPlace(types, before.nodes, isRoot, at, n)
    && |after.entries| == |Extended(types, at + n, perCluster)| && at + n <= |after.entries|
    && after.entries == Patch(Refit(before.entries, |after.entries|), at, part)
    && after.nodes == [EntrySet(at, n, n - 2)] + before.nodes
    && after.stored == [node] + before.stored && after.files == [node] + before.files
    && after.dirty == [false] + before.dirty
  }

  /** A node moved to the place that find_slot finds for its new name. */
  ghost predicate IsRenamed(before: DirState, after: DirState, at: nat, isRoot: bool, perCluster: nat, k: nat,
                            name: seq<u16>, nameHash: u16)
  {
    var types, n := TypesOf(before.entries), 2 + DivRoundUp(|name|, NAME_UNITS);
    && perCluster > 0 && k < |before.nodes| == |before.stored| == |before.files| == |before.dirty|
    && 0 < |name| < NAME_BUFFER && IsPlace(types, before.nodes, isRoot, at, n)
    && |after.entries| == |Extended(types, at + n, perCluster)|
    && IsMoved(Refit(before.entries, |after.entries|), after.entries, before.nodes[k], at, name, nameHash)
    && after.nodes == [EntrySet(at, n, n - 2)] + Without(before.nodes, k)
    && after.stored == [WithName(before.stored[k], name)] + Without(before.stored, k)
    && after.files == [WithName(before.files[k], name)] + Without(before.files, k)
    && after.dirty == [before.dirty[k]] + Without(before.dirty, k)
  }

  lemma MadeParts(before: DirState, after: DirState, at: nat, isRoot: bool, perCluster: nat, part: seq<Entry>,
                  node: FileNode)
    requires perCluster > 0 && 2 <= |part| && IsPlace(TypesOf(before.entries), before.nodes, isRoot, at, |part|)
    requires |after.entries| == |Extended(TypesOf(before.entries), at + |part|, perCluster)|
    requires at + |part| <= |after.entries| && after.entries == Patch(Refit(before.entries, |after.entries|), at, part)
    requires after.nodes == [EntrySet(at, |part|, |part| - 2)] + before.nodes
    requires after.stored == [node] + before.stored && after.files == [node] + before.files
    requires after.dirty == [false] + before.dirty
    ensures IsMade(before, after, at, isRoot, perCluster, part, node)
  {
  }

  lemma RenamedParts(before: DirState, after: DirState, at: nat, isRoot: bool, perCluster: nat, k: nat, name: seq<u16>,
                     nameHash: u16)
    requires perCluster > 0 && k < |before.nodes| == |before.stored| == |before.files| == |before.dirty|
    requires 0 < |name| < NAME_BUFFER && after.dirty == [before.dirty[k]] + Without(before.dirty, k)
    requires var n := 2 + DivRoundUp(|name|, NAME_UNITS);
      && IsPlace(TypesOf(before.entries), before.nodes, isRoot, at, n)
      && |after.entries| == |Extended(TypesOf(before.entries), at + n, perCluster)|
      && after.nodes == [EntrySet(at, n, n - 2)] + Without(before.nodes, k)
    requires IsMoved(Refit(before.entries, |after.entries|), after.entries, before.nodes[k], at, name, nameHash)
    requires after.stored == [WithName(before.stored[k], name)] + Without(before.stored, k)
    requires after.files == [WithName(before.files[k], name)] + Without(before.files, k)
    ensures IsRenamed(before, after, at, isRoot, perCluster, k, name, nameHash)
  {
  }

  /** A node and its entries are gone, and what lies behind the last name. */
  ghost predicate IsGone(before: DirState, after: DirState, k: nat, perCluster: nat) {
    && perCluster > 0 && k < |before.nodes| == |before.stored| == |before.files| == |before.dirty|
    && var e := before.nodes[k];
    && e.start + e.count <= |before.entries|
    && |after.entries| == ShrunkTo(after.nodes, e.start, perCluster, |before.entries|) <= |before.entries|
    && after.entries == Patch(before.entries, e.start, Erased(SetAt(before.entries, e)))[..|after.entries|]
    && after.nodes == Without(before.nodes, k)
    && after.stored == Without(before.stored, k) && after.files == Without(before.files, k)
    && after.dirty == Without(before.dirty, k)
  }

  /** What is stored of a changed node comes to be as the node is in memory. */
  ghost predicate IsFlushed(before: DirState, after: DirState, k: nat, timezone: int) {
    && k < |before.nodes| == |before.stored| == |before.files| == |before.dirty|
    && if !before.dirty[k] then after == before else
       var e, node := before.nodes[k], before.files[k];
       && CanFlush(node, timezone) && 2 < e.count && e.start + e.count <= |before.entries|
       && after == before.(entries := Patch(before.entries, e.start, Flushed(SetAt(before.entries, e), node, timezone)),
                           stored := before.stored[k := Reread(node, timezone)], dirty := before.dirty[k := false])
  }

  /** The effect of an edit, and its result. New names are refused exactly if the directory is full, edits of no node
      and changes to what cannot be stored do nothing. */
  ghost predicate EditStep(before: DirState, edit: Edit, ok: bool, after: DirState, isRoot: bool, perCluster: nat,
                           room: int, fs: FsInfo)
  {
    var types := TypesOf(before.entries);
    && (!ok ==> after == before)
    && match edit
       case Making(name, attrib, nameHash, s) =>
         && 0 < |name| < NAME_BUFFER
         && (ok <==> !IsFullIn(types, before.nodes, isRoot, perCluster, room, 2 + DivRoundUp(|name|, NAME_UNITS)))
         && (ok ==> exists at: nat :: IsMade(before, after, at, isRoot, perCluster, Committed(name, attrib, nameHash, s),
                                             NewNode(name, attrib, s, fs.timezone)))
       case Naming(k, name, nameHash) =>
         && (ok <==> k < |before.files| &&
                     !IsFullIn(types, before.nodes, isRoot, perCluster, room, 2 + DivRoundUp(|name|, NAME_UNITS)))
         && (ok ==> exists at: nat :: IsRenamed(before, after, at, isRoot, perCluster, k, name, nameHash))
       case Removing(k) => (ok <==> k < |before.files|) && (ok ==> IsGone(before, after, k, perCluster))
       case Changing(k, node) =>
         && (ok <==> k < |before.files| && IsUpdate(before.files[k], node, fs))
         && (ok ==> |before.dirty| == |before.files| &&
                    after == before.(files := before.files[k := node], dirty := before.dirty[k := true]))
       case Flushing(k) => (ok <==> k < |before.files|) && (ok ==> IsFlushed(before, after, k, fs.timezone))
  }

  lemma {:induction false} DemandOfOthers(cs: nat, before: seq<FileState>, after: seq<FileState>, d: nat)
    requires cs > 0 && d < |before| && OthersSame(before, after, d)
    ensures Demand(cs, before) - ClustersFor(cs, |before[d].content|)
            == Demand(cs, after) - ClustersFor(cs, |after[d].content|)
  {
    hide ClustersFor;
    var most0, most1 := before[..|before| - 1], after[..|after| - 1];
    if d < |before| - 1 {
      DemandOfOthers(cs, most0, most1, d);
    } else {
      assert most0 == most1;
    }
  }

  lemma SameLengths(stored: seq<FileNode>, files: seq<FileNode>, fs: FsInfo)
    requires AreUpdates(stored, files, fs)
    ensures |files| == |stored|
  {
  }

  lemma UpdatesWithout(stored: seq<FileNode>, files: seq<FileNode>, k: nat, fs: FsInfo)
    requires AreUpdates(stored, files, fs) && k < |stored|
    ensures |files| == |stored| && AreUpdates(Without(stored, k), Without(files, k), fs)
  {
    hide IsUpdate;
  }

  /** A change of what is in memory leaves it belonging to what is stored. */
  lemma UpdateAgain(stored: FileNode, node: FileNode, changed: FileNode, fs: FsInfo)
    requires IsUpdate(stored, node, fs) && IsUpdate(node, changed, fs)
    ensures IsUpdate(stored, changed, fs)
  {
  }

  lemma NodesAreFiles(entries: seq<Entry>, types: seq<byte>, nodes: seq<EntrySet>, files: seq<FileNode>, fs: FsInfo)
    requires InOrder(entries, types, nodes, files, fs)
    ensures |files| == |nodes|
  {
  }

  /** What a flushed node leaves as it was. */
  lemma FlushedParts(before: DirState, after: DirState, k: nat, timezone: int)
    requires IsFlushed(before, after, k, timezone)
    ensures k < |before.dirty| && after.dirty == before.dirty[k := false] && after.files == before.files
    ensures after.nodes == before.nodes && |after.entries| == |before.entries|
    ensures forall i | 0 <= i < |before.entries| && !Covered(before.nodes, i) :: after.entries[i] == before.entries[i]
  {
    hide Flushed, Reread, CanFlush;
    assert forall i | 0 <= i < |before.entries| && !Covered(before.nodes, i) :: !before.nodes[k].Has(i);
  }

  lemma KeptWithout(stored: seq<FileNode>, files: seq<FileNode>, dirty: seq<bool>, k: nat, timezone: int)
    requires AreKept(stored, files, dirty, timezone) && k < |files|
    ensures |stored| == |files| == |dirty|
    ensures AreKept(Without(stored, k), Without(files, k), Without(dirty, k), timezone)
  {
    hide IsKept;
  }

  lemma RenamedIsKept(stored: FileNode, node: FileNode, name: seq<u16>, timezone: int)
    requires 0 < |name| < NAME_BUFFER
    ensures IsKept(stored, node, timezone) ==> IsKept(WithName(stored, name), WithName(node, name), timezone)
  {
    hide ToUnix, StampOf, IsInWidth, DivRoundUp, Padded;
  }

  lemma FlushedIsKept(node: FileNode, timezone: int)
    requires CanFlush(node, timezone)
    ensures IsKept(Reread(node, timezone), node, timezone)
  {
  }

  lemma FlushedIsUpdate(stored: FileNode, node: FileNode, fs: FsInfo)
    requires IsUpdate(stored, node, fs)
    ensures CanFlush(node, fs.timezone) && IsUpdate(Reread(node, fs.timezone), node, fs)
  {
    hide ToUnix, StampOf, IsInWidth;
  }

  lemma RenamedIsUpdate(stored: seq<FileNode>, files: seq<FileNode>, k: nat, name: seq<u16>, fs: FsInfo)
    requires AreUpdates(stored, files, fs) && k < |stored| && 0 < |name| < NAME_BUFFER
    ensures |files| == |stored| && IsUpdate(WithName(stored[k], name), WithName(files[k], name), fs)
  {
    hide ToUnix, StampOf, IsInWidth, DivRoundUp, Padded;
  }

  /** A node that was read, or just made, can be stored as it is. */
  lemma SoundIsUpdate(node: FileNode, mtime: Stamp, atime: Stamp, fs: FsInfo)
    requires fs.clusterSize > 0 && IsSound(node, fs) && IsZone(fs.timezone)
    requires node.mtime == ToUnix(mtime, fs.timezone) && node.atime == ToUnix(atime, fs.timezone)
    requires node.validSize < 0x1_0000_0000_0000_0000 && node.size < 0x1_0000_0000_0000_0000
    ensures IsUpdate(node, node, fs)
  {
    StampInWidth(mtime, fs.timezone);
    StampInWidth(atime, fs.timezone);
    hide ToUnix, StampOf, IsInWidth;
  }

  lemma NewNodeIsUpdate(name: seq<u16>, attrib: u16, s: Stamp, fs: FsInfo)
    requires 0 < |name| < NAME_BUFFER && fs.clusterSize > 0 && IsZone(fs.timezone)
    ensures IsUpdate(NewNode(name, attrib, s, fs.timezone), NewNode(name, attrib, s, fs.timezone), fs)
  {
    NameEntriesSuffice(|name|);
    NewNodeIsSound(name, attrib, 0, s, fs);
    hide IsUpdate, IsSound, DivRoundUp, Padded, ToUnix;
    SoundIsUpdate(NewNode(name, attrib, s, fs.timezone), Stamp(s.date, s.time, s.centisec, s.tzoffset),
                  Stamp(s.date, s.time, 0, s.tzoffset), fs);
  }

  lemma ReadNodesAreUpdates(entries: seq<Entry>, types: seq<byte>, nodes: seq<EntrySet>, files: seq<FileNode>, fs: FsInfo)
    requires InOrder(entries, types, nodes, files, fs) && IsZone(fs.timezone)
    ensures AreUpdates(files, files, fs)
  {
    hide IsUpdate, IsStored, ToUnix;
    forall k | 0 <= k < |files| ensures IsUpdate(files[k], files[k], fs) {
      ReadNodeIsUpdate(entries, nodes[k], files[k], fs);
    }
  }

  lemma ReadNodeIsUpdate(entries: seq<Entry>, e: EntrySet, file: FileNode, fs: FsInfo)
    requires IsStored(entries, e, file, fs) && IsZone(fs.timezone)
    ensures IsUpdate(file, file, fs)
  {
    hide IsUpdate, IsSound, Meta1Of, Meta2Of, ToUnix, Padded, NameOf, DivRoundUp, Describes;
    var part := SetAt(entries, e);
    DescribedParts(part, file, fs);
    var m1, m2 := Meta1Of(part[0]), Meta2Of(part[1]);
    SoundIsUpdate(file, Stamp(m1.mdate, m1.mtime, m1.mtimeCs, m1.mtimeTzo), Stamp(m1.adate, m1.atime, 0, m1.atimeTzo), fs);
  }

  /** Entries as this driver makes them: a file entry, an info entry and the names. */
  predicate IsNewSet(part: seq<Entry>) {
    && |part| > 2 && TypesOf(part) == NewTypes(|part| - 2)
    && |part| - 2 == DivRoundUp(Meta2Of(part[1]).nameLength, NAME_UNITS)
  }

  lemma SetWritten(entries: seq<Entry>, types: seq<byte>, nodes: seq<EntrySet>, files: seq<FileNode>, fs: FsInfo,
                   perCluster: nat, at: nat, part: seq<Entry>, file: FileNode)
    requires InOrder(entries, types, nodes, files, fs) && Inside(nodes, |types|) && AllFit(nodes, perCluster)
    requires OthersAreSystem(types, nodes) && at + |part| <= |entries| && Uncovered(nodes, at, at + |part|)
    requires Describes(part, file, fs) && IsNewSet(part)
    ensures |entries| == |types|
    ensures var e := EntrySet(at, |part|, |part| - 2); var after := Patch(types, at, NewTypes(|part| - 2));
      && InOrder(Patch(entries, at, part), after, [e] + nodes, [file] + files, fs)
      && AllFit([e] + nodes, perCluster) && OthersAreSystem(after, [e] + nodes)
  {
    hide Covered, IsStored, OthersAreSystem, Describes, FitsItsName, NewTypes;
    var e := EntrySet(at, |part|, |part| - 2);
    forall k | 0 <= k < |nodes| ensures Apart(e, nodes[k]) {
      UncoveredIsApart(nodes, e, k);
    }
    PatchInOrder(entries, nodes, files, fs, at, part, e, file);
    TypesOfPatch(entries, at, part);
    AttachedOthers(types, nodes, e, NewTypes(|part| - 2));
    PlainFits(e, perCluster);
  }

  lemma SetErased(entries: seq<Entry>, types: seq<byte>, nodes: seq<EntrySet>, files: seq<FileNode>, fs: FsInfo,
                  perCluster: nat, k: nat)
    requires InOrder(entries, types, nodes, files, fs) && Disjoint(nodes) && AllFit(nodes, perCluster)
    requires OthersAreSystem(types, nodes) && k < |nodes| && Inside(nodes, |types|)
    ensures |files| == |nodes| && |entries| == |types| && nodes[k].start + nodes[k].count <= |entries|
            && nodes[k].count > 0
    ensures var after := Patch(entries, nodes[k].start, Erased(SetAt(entries, nodes[k])));
      && InOrder(after, Invalidated(types, nodes[k]), Without(nodes, k), Without(files, k), fs)
      && AllFit(Without(nodes, k), perCluster) && OthersAreSystem(Invalidated(types, nodes[k]), Without(nodes, k))
  {
    hide IsStored, OthersAreSystem, FitsItsName, Disjoint;
    EraseInOrder(entries, nodes, files, fs, k);
    ErasedTypes(entries, nodes[k]);
    DetachedOthers(types, nodes, k);
  }

  lemma FitMeansWhole(nodes: seq<EntrySet>, deleted: nat, perCluster: nat)
    requires AllFit(nodes, perCluster)
    ensures StaysWhole(nodes, deleted, perCluster)
  {
  }

  lemma CutInOrder(entries: seq<Entry>, types: seq<byte>, nodes: seq<EntrySet>, files: seq<FileNode>, fs: FsInfo, n: nat)
    requires InOrder(entries, types, nodes, files, fs) && OthersAreSystem(types, nodes) && n <= |types|
    ensures |entries| == |types| && Refit(entries, n) == entries[..n]
    ensures Inside(nodes, n) ==> InOrder(entries[..n], types[..n], nodes, files, fs) && OthersAreSystem(types[..n], nodes)
  {
    hide Covered, IsStored;
    assert TypesOf(entries[..n]) == types[..n];
    if Inside(nodes, n) {
      RefitInOrder(entries, nodes, files, fs, n);
    }
  }

  lemma RoomMade(types: seq<byte>, end: nat, perCluster: nat, entries: seq<Entry>, nodes: seq<EntrySet>,
                 files: seq<FileNode>, fs: FsInfo)
    requires perCluster > 0 && InOrder(entries, Extended(types, end, perCluster), nodes, files, fs)
    ensures end <= |entries|
  {
  }

  lemma SealedIsNew(m1: Meta1, m2: Meta2, names: seq<Entry>)
    requires IsMeta1(m1) && IsMeta2(m2) && |names| > 0 && |names| == DivRoundUp(m2.nameLength, NAME_UNITS)
    requires forall i | 0 <= i < |names| :: names[i][0] == ENTRY_FILE_NAME
    ensures IsNewSet(Sealed(Assembled(m1, m2, names)))
  {
    hide Meta1Of, Meta2Of, Sealed, DivRoundUp, Meta1Bytes, Meta2Bytes;
    var entries := Assembled(m1, m2, names);
    SealedKeepsLength(m1, m2, names);
    SealedTypes(entries);
    AssembledParts(m1, m2, names);
    assert TypesOf(entries) == NewTypes(|names|);
  }

  lemma CommittedIsNew(name: seq<u16>, attrib: u16, nameHash: u16, s: Stamp)
    requires 0 < |name| < NAME_BUFFER
    ensures IsNewSet(Committed(name, attrib, nameHash, s))
  {
    NameEntriesSuffice(|name|);
    var n := DivRoundUp(|name|, NAME_UNITS);
    hide IsNewSet, Sealed, Assembled, NameEntries, Padded, DivRoundUp;
    SealedIsNew(NewMeta1(n, attrib, s), NewMeta2(|name|, nameHash), NameEntries(Padded(name), n));
  }

  lemma RenamedIsNew(entries: seq<Entry>, name: seq<u16>, nameHash: u16)
    requires |entries| > 1 && 0 < |name| < NAME_BUFFER
    ensures IsNewSet(Renamed(entries, name, nameHash))
            && |Renamed(entries, name, nameHash)| == 2 + DivRoundUp(|name|, NAME_UNITS)
  {
    NameEntriesSuffice(|name|);
    var n := DivRoundUp(|name|, NAME_UNITS);
    hide IsNewSet, Sealed, Assembled, NameEntries, Padded, DivRoundUp, Meta1Of, Meta2Of;
    SealedIsNew(Meta1Of(entries[0]).(continuations := 1 + n),
                Meta2Of(entries[1]).(nameLength := |name|, nameHash := nameHash), NameEntries(Padded(name), n));
  }

  lemma NodeIsStored(entries: seq<Entry>, types: seq<byte>, nodes: seq<EntrySet>, files: seq<FileNode>, fs: FsInfo, k: nat)
    requires InOrder(entries, types, nodes, files, fs) && k < |nodes|
    ensures |files| == |nodes| && nodes[k].start + nodes[k].count <= |entries| && nodes[k].count > 2
    ensures Describes(SetAt(entries, nodes[k]), files[k], fs)
  {
  }

  lemma RestIsFree(types: seq<byte>, nodes: seq<EntrySet>, isRoot: bool, perCluster: nat, k: nat, from: nat, to: nat)
    requires IsTidy(types, nodes, isRoot, perCluster) && k < |nodes| && Uncovered(nodes, from, to)
    ensures Uncovered(Without(nodes, k), from, to)
  {
    RestIsUncovered(nodes, k, from, to);
  }

  lemma FirstTwo(entries: seq<Entry>, e: EntrySet, part: seq<Entry>)
    requires e.start + e.count <= |entries| && e.count > 2 && part == entries[e.start..e.start + 2]
    ensures part == SetAt(entries, e)[..2]
  {
  }

  lemma FlushedShape(part: seq<Entry>, stored: FileNode, node: FileNode, fs: FsInfo)
    requires Describes(part, stored, fs) && CanFlush(node, fs.timezone)
    ensures |part| == 1 + stored.continuations && |part| > 2
    ensures var after := Flushed(part, node, fs.timezone);
      |after| == |part| && TypesOf(after) == TypesOf(part)
      && Meta2Of(after[1]).nameLength == Meta2Of(part[1]).nameLength
  {
    hide Meta1Of, Meta2Of, Meta1Bytes, Meta2Bytes, Sealed, Assembled, Describes, CanFlush, StampOf, ToUnix, TypesOf;
    DescribedCount(part, stored, fs);
    var m1 := UpdatedMeta1(Meta1Of(part[0]), node, fs.timezone);
    var m2 := UpdatedMeta2(Meta2Of(part[1]), node, fs.timezone);
    var raw := Assembled(m1, m2, part[2..]);
    AssembledParts(m1, m2, part[2..]);
    SealedKeepsLength(m1, m2, part[2..]);
    SealedTypes(raw);
    SameTypesBehind(raw, part);
  }

  lemma DescribedCount(part: seq<Entry>, stored: FileNode, fs: FsInfo)
    requires Describes(part, stored, fs)
    ensures |part| == 1 + stored.continuations && |part| > 2 && part[0][0] == ENTRY_FILE && part[1][0] == ENTRY_FILE_INFO
  {
    hide Meta1Of, Meta2Of, Parse, ToUnix;
    DescribedParts(part, stored, fs);
  }

  lemma SameTypesBehind(a: seq<Entry>, b: seq<Entry>)
    requires |a| == |b| > 2 && a[0][0] == b[0][0] && a[1][0] == b[1][0] && a[2..] == b[2..]
    ensures TypesOf(a) == TypesOf(b)
  {
    assert a == [a[0], a[1]] + a[2..] && b == [b[0], b[1]] + b[2..];
  }

  /** Entries of the same types, written over those of a node, describe another node in its place. */
  lemma RewriteInOrder(entries: seq<Entry>, types: seq<byte>, nodes: seq<EntrySet>, files: seq<FileNode>, fs: FsInfo, k: nat,
                       part: seq<Entry>, file: FileNode)
    requires InOrder(entries, types, nodes, files, fs) && k < |nodes| && Disjoint(nodes)
    requires nodes[k].start + nodes[k].count <= |entries| && |part| == nodes[k].count > 1 && Describes(part, file, fs)
    requires TypesOf(part) == TypesOf(SetAt(entries, nodes[k]))
    requires nodes[k].nameEntries == DivRoundUp(Meta2Of(part[1]).nameLength, NAME_UNITS)
    ensures InOrder(Patch(entries, nodes[k].start, part), types, nodes, files[k := file], fs)
  {
    hide IsStored, Describes, DivRoundUp, Meta2Of;
    var after := Patch(entries, nodes[k].start, part);
    assert TypesOf(after) == types by {
      TypesOfPatch(entries, nodes[k].start, part);
      SameTypes(entries, nodes[k], part);
    }
    assert SetAt(after, nodes[k]) == part;
    WrittenIsStored(after, nodes[k], file, fs);
    forall j | 0 <= j < |nodes| && j != k ensures IsStored(after, nodes[j], files[j], fs) {
      assert Apart(nodes[if j < k then j else k], nodes[if j < k then k else j]);
      StoredBeside(entries, nodes[k], part, nodes[j], files[j], fs);
    }
  }

  lemma StoredBeside(entries: seq<Entry>, e: EntrySet, part: seq<Entry>, other: EntrySet, file: FileNode, fs: FsInfo)
    requires e.start + e.count <= |entries| && |part| == e.count && IsStored(entries, other, file, fs)
    requires Apart(e, other) || Apart(other, e)
    ensures IsStored(Patch(entries, e.start, part), other, file, fs)
  {
    hide IsStored;
    InsideBoth(entries, other, file, fs);
    StoredKept(entries, Patch(entries, e.start, part), other, file, fs);
  }

  lemma SameTypes(entries: seq<Entry>, e: EntrySet, part: seq<Entry>)
    requires e.start + e.count <= |entries| && TypesOf(part) == TypesOf(SetAt(entries, e))
    ensures Patch(TypesOf(entries), e.start, TypesOf(part)) == TypesOf(entries)
  {
    assert TypesOf(SetAt(entries, e)) == TypesOf(entries)[e.start..e.start + e.count];
  }

  /** What IsUpdate and IsStored say of the entries of one node. */
  lemma UpdateParts(entries: seq<Entry>, e: EntrySet, stored: FileNode, node: FileNode, fs: FsInfo)
    requires IsStored(entries, e, stored, fs) && IsUpdate(stored, node, fs)
    ensures e.start + e.count <= |entries| && e.count == 1 + node.continuations > 2 && CanFlush(node, fs.timezone)
    ensures var part := SetAt(entries, e); var after := Flushed(part, node, fs.timezone);
      && |after| == |part| && TypesOf(after) == TypesOf(part) && Describes(after, Reread(node, fs.timezone), fs)
      && e.nameEntries == DivRoundUp(Meta2Of(after[1]).nameLength, NAME_UNITS)
  {
    hide Flushed, Describes, Reread, IsSound, Meta2Of, DivRoundUp, CanFlush;
    FlushedShape(SetAt(entries, e), stored, node, fs);
    FlushDescribes(SetAt(entries, e), stored, node, fs);
  }

  lemma SetFlushed(entries: seq<Entry>, types: seq<byte>, nodes: seq<EntrySet>, files: seq<FileNode>, fs: FsInfo, k: nat,
                   node: FileNode)
    requires InOrder(entries, types, nodes, files, fs) && k < |nodes| && IsUpdate(files[k], node, fs) && Disjoint(nodes)
    ensures |files| == |nodes| && CanFlush(node, fs.timezone)
    ensures nodes[k].count == 1 + node.continuations > 2 && nodes[k].start + nodes[k].count <= |entries|
    ensures InOrder(Patch(entries, nodes[k].start, Flushed(SetAt(entries, nodes[k]), node, fs.timezone)), types, nodes,
                    files[k := Reread(node, fs.timezone)], fs)
  {
    UpdateParts(entries, nodes[k], files[k], node, fs);
    hide IsStored, Flushed, Describes, Reread, IsUpdate, CanFlush, Meta2Of, DivRoundUp;
    RewriteInOrder(entries, types, nodes, files, fs, k, Flushed(SetAt(entries, nodes[k]), node, fs.timezone),
                   Reread(node, fs.timezone));
  }

  /** A set was erased, and written anew under another name. */
  ghost predicate IsMoved(before: seq<Entry>, after: seq<Entry>, e: EntrySet, at: nat, name: seq<u16>, nameHash: u16) {
    && e.start + e.count <= |before| && e.count > 1 && 0 < |name| < NAME_BUFFER
    && var part := Renamed(SetAt(before, e), name, nameHash);
       at + |part| <= |before| && after == Patch(Patch(before, e.start, Erased(SetAt(before, e))), at, part)
  }

  /** The first two entries of a set are all that a rename keeps of it. */
  lemma RenamedSet(whole: seq<Entry>, part: seq<Entry>, file: FileNode, name: seq<u16>, nameHash: u16, fs: FsInfo)
    requires Describes(whole, file, fs) && part == whole[..2] && 0 < |name| < NAME_BUFFER
    ensures |part| > 1 && Renamed(part, name, nameHash) == Renamed(whole, name, nameHash)
    ensures Describes(Renamed(part, name, nameHash), WithName(file, name), fs)
    ensures IsNewSet(Renamed(part, name, nameHash))
            && |Renamed(part, name, nameHash)| == 2 + DivRoundUp(|name|, NAME_UNITS)
  {
    hide IsNewSet, Sealed, Assembled, NameEntries, Padded, DivRoundUp, Meta1Of, Meta2Of, WithName;
    RenameDescribes(whole, file, name, nameHash, fs);
    assert part[0] == whole[0] && part[1] == whole[1];
    RenamedIsNew(part, name, nameHash);
  }

  /** A place that suits is in the directory, and the end is not far away. */
  lemma PlaceFits(types: seq<byte>, nodes: seq<EntrySet>, isRoot: bool, perCluster: nat, at: nat, n: nat)
    requires IsTidy(types, nodes, isRoot, perCluster) && IsPlace(types, nodes, isRoot, at, n) && n <= 2 * perCluster
    ensures if Suits(types, nodes, isRoot, at, n) then Extended(types, at + n, perCluster) == types && at + n <= |types|
            else IsTail(nodes, |types|, at, n) && (forall b: nat | IsTail(nodes, |types|, b, n) :: b == at)
                 && (forall a: nat :: !Suits(types, nodes, isRoot, a, n))
                 && |Extended(types, at + n, perCluster)| == Rounding.RoundUp(at + n, perCluster) <= |types| + 2 * perCluster
  {
    if !Suits(types, nodes, isRoot, at, n) {
      forall b: nat | IsTail(nodes, |types|, b, n) ensures b == at {
        TailIsUnique(nodes, |types|, at, b, n);
      }
      GrownSize(types, perCluster, at + n);
    }
    hide Suits, IsTail, Extended, Inside, AllValid, Disjoint, Rounding.RoundUp;
  }

  lemma GrownSize(types: seq<byte>, perCluster: nat, end: nat)
    requires perCluster > 0 && |types| % perCluster == 0 && |types| < end <= |types| + 2 * perCluster
    ensures |Extended(types, end, perCluster)| == Rounding.RoundUp(end, perCluster) <= |types| + 2 * perCluster
  {
    Rounding.RoundedUp(end, perCluster);
    var size := |types| + perCluster + perCluster;
    TwoMore(|types|, perCluster);
    Rounding.RoundUpFits(end, size, perCluster);
    hide Rounding.RoundUp;
  }

  lemma TwoMore(size: nat, d: nat)
    requires d > 0 && size % d == 0
    ensures (size + d + d) % d == 0
  {
    var q := size / d;
    assert size + d + d == (q + 2) * d;
    Rounding.ProductMultiple(q + 2, d);
  }

  lemma FewMore(cs: nat, k: nat)
    ensures ClusterStart(cs, k + 4) == ClusterStart(cs, k) + 4 * cs
  {
  }
}
