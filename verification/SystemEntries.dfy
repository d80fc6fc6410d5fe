// The entries of the system in the root directory: which edits they survive.

module SystemEntries {
  import opened Basics
  import FileBytes
  import opened Slots
  import opened Directories
  import opened EntryLayout
  import opened EntrySets
  import opened Listings
  import opened Catalogs
  import opened RootVolumes

  predicate IsSystemType(entryType: byte) {
    entryType == ENTRY_BITMAP || entryType == ENTRY_UPCASE || entryType == ENTRY_LABEL
  }

  predicate IsSystemAt(entries: seq<Entry>, i: nat) {
    i < |entries| && IsSystemType(entries[i][0])
  }

  /** Every entry of the system is still there. */
  ghost predicate KeepsSystem(before: seq<Entry>, after: seq<Entry>) {
    forall i: nat | IsSystemAt(before, i) :: i < |after| && after[i] == before[i]
  }

  /** No entry of the system came, or changed. */
  ghost predicate AddsNoSystem(before: seq<Entry>, after: seq<Entry>) {
    forall i: nat | IsSystemAt(after, i) :: i < |before| && before[i] == after[i]
  }

  /** What gets lost on the way does not come back. */
  lemma Compose(a: seq<Entry>, b: seq<Entry>, c: seq<Entry>)
    requires AddsNoSystem(a, b) && AddsNoSystem(b, c)
    ensures AddsNoSystem(a, c) && (KeepsSystem(a, c) <==> KeepsSystem(a, b) && KeepsSystem(b, c))
  {
    if KeepsSystem(a, c) {
      forall i: nat | IsSystemAt(a, i) ensures i < |b| && b[i] == a[i] {
        assert IsSystemAt(c, i);
      }
    }
  }

  predicate HasNoSystem(part: seq<Entry>) {
    forall i: nat | i < |part| :: !IsSystemType(part[i][0])
  }

  lemma PatchedSystem(entries: seq<Entry>, at: nat, part: seq<Entry>)
    requires at + |part| <= |entries| && HasNoSystem(part)
    ensures var after := FileBytes.Patch(entries, at, part);
      && AddsNoSystem(entries, after)
      && (KeepsSystem(entries, after) <==> forall i | at <= i < at + |part| :: !IsSystemAt(entries, i))
  {
    var after := FileBytes.Patch(entries, at, part);
    FileBytes.PatchedBytes(entries, at, part);
    hide FileBytes.Patch;
    if KeepsSystem(entries, after) {
      forall i | at <= i < at + |part| ensures !IsSystemAt(entries, i) {
        assert after[i] == part[i - at];
      }
    }
    if !KeepsSystem(entries, after) {
      var i: nat :| IsSystemAt(entries, i) && after[i] != entries[i];
      assert at <= i < at + |part|;
    }
  }

  lemma RefitSystem(entries: seq<Entry>, n: nat)
    ensures AddsNoSystem(entries, Refit(entries, n))
    ensures KeepsSystem(entries, Refit(entries, n)) <==> forall i: nat | n <= i :: !IsSystemAt(entries, i)
  {
    hide Refit;
    assert !IsSystemType(FileBytes.Zeros(ENTRY)[0]);
    if exists i: nat :: n <= i && IsSystemAt(entries, i) {
      assert !KeepsSystem(entries, Refit(entries, n));
    }
  }

  /** The entries of a file's set are not the system's. */
  lemma SetIsNotSystem(entries: seq<Entry>, e: EntrySet, file: FileNode, fs: FsInfo)
    requires IsStored(entries, e, file, fs)
    ensures e.start + e.count <= |entries| && HasNoSystem(SetAt(entries, e))
  {
    hide Meta1Of, Meta2Of, Parse, Meant, IsSound, DivRoundUp;
    var part := SetAt(entries, e);
    DescribedParts(part, file, fs);
    assert IsFileSet(TypesOf(part));
    forall i: nat | i < |part| ensures !IsSystemType(part[i][0]) {
      assert TypesOf(part)[i] == part[i][0];
    }
  }

  lemma SlotIsNotSystem(entries: seq<Entry>, e: EntrySet, file: FileNode, fs: FsInfo, i: nat)
    requires IsStored(entries, e, file, fs) && e.Has(i)
    ensures i < |entries| && !IsSystemAt(entries, i)
  {
    hide IsStored, IsSystemType;
    SetIsNotSystem(entries, e, file, fs);
    assert SetAt(entries, e)[i - e.start] == entries[i];
  }

  lemma NewSetIsNotSystem(part: seq<Entry>)
    requires IsNewSet(part)
    ensures HasNoSystem(part)
  {
    hide Meta2Of, DivRoundUp;
    forall i: nat | i < |part| ensures !IsSystemType(part[i][0]) {
      assert TypesOf(part)[i] == part[i][0];
    }
  }

  lemma ErasedIsNotSystem(part: seq<Entry>)
    ensures HasNoSystem(Erased(part))
  {
  }

  /** Where a new set goes, no entry of the system lies, exactly if the set can be placed without overwriting any. */
  lemma PlaceSparesSystem(dir: DirState, env: Setting, at: nat, n: nat)
    requires IsRootInOrder(dir, env) && n > 0 && IsPlace(TypesOf(dir.entries), dir.nodes, true, at, n)
    ensures (forall i | at <= i < at + n :: !IsSystemAt(dir.entries, i))
       <==> CanPlace(TypesOf(dir.entries), dir.nodes, true, n)
  {
    var types, nodes := TypesOf(dir.entries), dir.nodes;
    hide InOrder, Disjoint, Inside, AllValid;
    if Suits(types, nodes, true, at, n) {
      forall i | at <= i < at + n ensures !IsSystemAt(dir.entries, i) {
        assert types[i] < VALID;
      }
    } else {
      forall b: nat | IsTail(nodes, |types|, b, n) ensures b == at {
        TailIsUnique(nodes, |types|, at, b, n);
      }
      assert CanPlace(types, nodes, true, n) <==> Vacant(types, at, |types|);
      if Vacant(types, at, |types|) {
        forall i | at <= i < at + n ensures !IsSystemAt(dir.entries, i) {
          assert i < |types| ==> types[i] < VALID;
        }
      }
      if forall i | at <= i < at + n :: !IsSystemAt(dir.entries, i) {
        forall i | at <= i < |types| ensures types[i] < VALID {
          assert !Covered(nodes, i) && !IsSystemAt(dir.entries, i);
        }
      }
    }
  }

  /** An edit that neither writes over an entry of the system nor cuts one off: what a caller can see beforehand. */
  ghost predicate Spares(dir: DirState, edit: Edit, perCluster: nat)
    requires perCluster > 0
  {
    match edit
    case Making(name, _, _, _) => CanPlace(TypesOf(dir.entries), dir.nodes, true, 2 + DivRoundUp(|name|, NAME_UNITS))
    case Naming(_, name, _) => CanPlace(TypesOf(dir.entries), dir.nodes, true, 2 + DivRoundUp(|name|, NAME_UNITS))
    case Removing(k) =>
      k < |dir.nodes| ==>
        forall i: nat | ShrunkTo(Without(dir.nodes, k), dir.nodes[k].start, perCluster, |dir.entries|) <= i ::
          !IsSystemAt(dir.entries, i)
    case _ => true
  }

  /** Writing over a file's own entries. */
  lemma SetRewritten(entries: seq<Entry>, e: EntrySet, file: FileNode, fs: FsInfo, part: seq<Entry>)
    requires IsStored(entries, e, file, fs) && |part| == e.count && HasNoSystem(part)
    ensures e.start + e.count <= |entries|
    ensures var after := FileBytes.Patch(entries, e.start, part); AddsNoSystem(entries, after) && KeepsSystem(entries, after)
  {
    hide IsStored, FileBytes.Patch, AddsNoSystem, KeepsSystem, HasNoSystem, IsSystemAt;
    InsideBoth(entries, e, file, fs);
    PatchedSystem(entries, e.start, part);
    forall i | e.start <= i < e.start + e.count ensures !IsSystemAt(entries, i) {
      SlotIsNotSystem(entries, e, file, fs, i);
    }
  }

  lemma MadeSystem(before: DirState, after: DirState, env: Setting, at: nat, part: seq<Entry>, node: FileNode)
    requires IsRootInOrder(before, env) && IsNewSet(part)
    requires IsMade(before, after, at, true, env.clusterSize / ENTRY, part, node)
    ensures AddsNoSystem(before.entries, after.entries)
    ensures KeepsSystem(before.entries, after.entries) <==> CanPlace(TypesOf(before.entries), before.nodes, true, |part|)
  {
    PlaceSparesSystem(before, env, at, |part|);
    NewSetIsNotSystem(part);
    hide IsRootInOrder, IsPlace, CanPlace, Extended, FileBytes.Patch, Refit, IsNewSet, TypesOf, AddsNoSystem, KeepsSystem;
    PlacedSystem(before.entries, |after.entries|, at, part);
  }

  /** A set written to a directory that was made large enough. */
  lemma PlacedSystem(entries: seq<Entry>, size: nat, at: nat, part: seq<Entry>)
    requires |entries| <= size && at + |part| <= size && HasNoSystem(part)
    ensures var after := FileBytes.Patch(Refit(entries, size), at, part);
      && AddsNoSystem(entries, after)
      && (KeepsSystem(entries, after) <==> forall i | at <= i < at + |part| :: !IsSystemAt(entries, i))
  {
    var large := Refit(entries, size);
    RefitSystem(entries, size);
    PatchedSystem(large, at, part);
    Compose(entries, large, FileBytes.Patch(large, at, part));
    hide FileBytes.Patch;
    forall i: nat ensures IsSystemAt(large, i) <==> IsSystemAt(entries, i) {
    }
  }

  lemma RenamedSystem(before: DirState, after: DirState, env: Setting, at: nat, k: nat, name: seq<u16>, nameHash: u16)
    requires IsRootInOrder(before, env) && IsRenamed(before, after, at, true, env.clusterSize / ENTRY, k, name, nameHash)
    ensures AddsNoSystem(before.entries, after.entries)
    ensures KeepsSystem(before.entries, after.entries)
       <==> CanPlace(TypesOf(before.entries), before.nodes, true, 2 + DivRoundUp(|name|, NAME_UNITS))
  {
    hide IsRootInOrder, IsRenamed, IsPlace, CanPlace, Extended, Refit, IsMoved, TypesOf, AddsNoSystem, KeepsSystem,
      DivRoundUp, IsStored, IsSystemAt;
    var large := Refit(before.entries, |after.entries|);
    RenamedMoves(before, after, env, at, k, name, nameHash);
    PlaceSparesSystem(before, env, at, 2 + DivRoundUp(|name|, NAME_UNITS));
    NodeKept(before, env, k, large);
    RefitSystem(before.entries, |after.entries|);
    OutsideIsNotSystem(before.entries, |after.entries|);
    MovedSystem(large, after.entries, before.nodes[k], before.stored[k], env.info, at, name, nameHash);
    Compose(before.entries, large, after.entries);
    SameSystem(before.entries, large);
  }

  lemma RenamedMoves(before: DirState, after: DirState, env: Setting, at: nat, k: nat, name: seq<u16>, nameHash: u16)
    requires IsRootInOrder(before, env) && IsRenamed(before, after, at, true, env.clusterSize / ENTRY, k, name, nameHash)
    ensures k < |before.nodes| && |before.entries| <= |after.entries|
    ensures IsPlace(TypesOf(before.entries), before.nodes, true, at, 2 + DivRoundUp(|name|, NAME_UNITS))
    ensures var large := Refit(before.entries, |after.entries|);
      large[..|before.entries|] == before.entries && IsMoved(large, after.entries, before.nodes[k], at, name, nameHash)
  {
    hide IsRootInOrder, IsPlace, IsMoved, DivRoundUp, WithName, Without;
  }

  lemma OutsideIsNotSystem(entries: seq<Entry>, n: nat)
    requires |entries| <= n
    ensures forall i: nat | n <= i :: !IsSystemAt(entries, i)
  {
  }

  /** A set erased, and written elsewhere under another name. */
  lemma MovedSystem(entries: seq<Entry>, after: seq<Entry>, e: EntrySet, file: FileNode, fs: FsInfo, at: nat, name: seq<u16>,
                    nameHash: u16)
    requires IsStored(entries, e, file, fs) && IsMoved(entries, after, e, at, name, nameHash)
    ensures AddsNoSystem(entries, after)
    ensures KeepsSystem(entries, after)
       <==> forall i | at <= i < at + 2 + DivRoundUp(|name|, NAME_UNITS) :: !IsSystemAt(entries, i)
  {
    var part := SetAt(entries, e);
    var erased := FileBytes.Patch(entries, e.start, Erased(part));
    RenamedIsNew(part, name, nameHash);
    NewSetIsNotSystem(Renamed(part, name, nameHash));
    ErasedIsNotSystem(part);
    FileBytes.PatchedBytes(entries, e.start, Erased(part));
    hide FileBytes.Patch, IsNewSet, AddsNoSystem, KeepsSystem, HasNoSystem, Renamed, DivRoundUp, IsStored, IsSystemAt, Erased;
    SetRewritten(entries, e, file, fs, Erased(part));
    PatchedSystem(erased, at, Renamed(part, name, nameHash));
    Compose(entries, erased, after);
    SameSystem(entries, erased);
  }

  lemma SameSystem(before: seq<Entry>, after: seq<Entry>)
    requires AddsNoSystem(before, after) && KeepsSystem(before, after)
    ensures forall i: nat :: IsSystemAt(before, i) <==> IsSystemAt(after, i)
  {
  }

  lemma NodeKept(dir: DirState, env: Setting, k: nat, large: seq<Entry>)
    requires IsRootInOrder(dir, env) && k < |dir.nodes| && |dir.entries| <= |large| && large[..|dir.entries|] == dir.entries
    ensures k < |dir.stored| && IsStored(large, dir.nodes[k], dir.stored[k], env.info)
  {
    hide IsStored, IsTidy, OthersAreSystem;
    assert IsStored(dir.entries, dir.nodes[k], dir.stored[k], env.info);
    InsideBoth(dir.entries, dir.nodes[k], dir.stored[k], env.info);
    forall i | 0 <= i < |dir.entries| ensures large[i] == dir.entries[i] {
      assert large[..|dir.entries|][i] == large[i];
    }
    StoredKept(dir.entries, large, dir.nodes[k], dir.stored[k], env.info);
  }

  lemma GoneSystem(before: DirState, after: DirState, env: Setting, k: nat)
    requires IsRootInOrder(before, env) && IsGone(before, after, k, env.clusterSize / ENTRY)
    ensures AddsNoSystem(before.entries, after.entries)
    ensures KeepsSystem(before.entries, after.entries) <==> Spares(before, Removing(k), env.clusterSize / ENTRY)
  {
    hide IsRootInOrder, AddsNoSystem, KeepsSystem, IsStored, IsSystemAt, Erased, ShrunkTo, FileBytes.Patch;
    NodeKept(before, env, k, before.entries);
    CutSystem(before.entries, before.nodes[k], before.stored[k], env.info, |after.entries|);
  }

  /** A set erased, and the directory cut. */
  lemma CutSystem(entries: seq<Entry>, e: EntrySet, file: FileNode, fs: FsInfo, n: nat)
    requires IsStored(entries, e, file, fs) && n <= |entries|
    ensures e.start + e.count <= |entries|
    ensures var erased := FileBytes.Patch(entries, e.start, Erased(SetAt(entries, e)));
      && |erased| == |entries| && AddsNoSystem(entries, erased[..n])
      && (KeepsSystem(entries, erased[..n]) <==> forall i: nat | n <= i :: !IsSystemAt(entries, i))
  {
    hide IsStored;
    InsideBoth(entries, e, file, fs);
    var part := SetAt(entries, e);
    var erased := FileBytes.Patch(entries, e.start, Erased(part));
    ErasedIsNotSystem(part);
    FileBytes.PatchedBytes(entries, e.start, Erased(part));
    hide FileBytes.Patch, AddsNoSystem, KeepsSystem, HasNoSystem, IsSystemAt, Erased;
    SetRewritten(entries, e, file, fs, Erased(part));
    RefitSystem(erased, n);
    Compose(entries, erased, erased[..n]);
    SameSystem(entries, erased);
  }

  lemma FlushedSystem(before: DirState, after: DirState, env: Setting, k: nat)
    requires IsRootInOrder(before, env) && IsFlushed(before, after, k, env.info.timezone)
    ensures AddsNoSystem(before.entries, after.entries) && KeepsSystem(before.entries, after.entries)
  {
    hide IsRootInOrder, FileBytes.Patch, AddsNoSystem, KeepsSystem, IsStored, Flushed, CanFlush, Reread;
    if before.dirty[k] {
      NodeKept(before, env, k, before.entries);
      FlushedSet(before.entries, before.nodes[k], before.stored[k], before.files[k], env.info);
      SetRewritten(before.entries, before.nodes[k], before.stored[k], env.info,
                   Flushed(SetAt(before.entries, before.nodes[k]), before.files[k], env.info.timezone));
    } else {
      Unchanged(before.entries);
    }
  }

  lemma Unchanged(entries: seq<Entry>)
    ensures AddsNoSystem(entries, entries) && KeepsSystem(entries, entries)
  {
  }

  lemma FlushedSet(entries: seq<Entry>, e: EntrySet, stored: FileNode, node: FileNode, fs: FsInfo)
    requires IsStored(entries, e, stored, fs) && CanFlush(node, fs.timezone)
    ensures e.start + e.count <= |entries| && e.count > 2
    ensures HasNoSystem(Flushed(SetAt(entries, e), node, fs.timezone))
  {
    hide CanFlush, Describes, Flushed;
    var part := SetAt(entries, e);
    SetIsNotSystem(entries, e, stored, fs);
    FlushedShape(part, stored, node, fs);
    var flushed := Flushed(part, node, fs.timezone);
    forall i: nat | i < |flushed| ensures !IsSystemType(flushed[i][0]) {
      assert TypesOf(flushed)[i] == TypesOf(part)[i];
    }
  }

  /** One edit: no entry of the system comes, and all stay exactly if the edit spares them. */
  lemma EditSystem(before: DirState, edit: Edit, ok: bool, after: DirState, room: int, env: Setting)
    requires IsRootInOrder(before, env)
    requires EditStep(before, edit, ok, after, true, env.clusterSize / ENTRY, room, env.info)
    ensures AddsNoSystem(before.entries, after.entries)
    ensures KeepsSystem(before.entries, after.entries) <==> !ok || Spares(before, edit, env.clusterSize / ENTRY)
  {
    hide IsRootInOrder, IsMade, IsRenamed, IsGone, IsFlushed, IsFullIn, CanPlace, Committed, NewNode, TypesOf, IsUpdate,
      ShrunkTo;
    if ok {
      match edit {
        case Making(name, attrib, nameHash, s) =>
          var at: nat :| IsMade(before, after, at, true, env.clusterSize / ENTRY, Committed(name, attrib, nameHash, s),
                                NewNode(name, attrib, s, env.info.timezone));
          CommittedIsNew(name, attrib, nameHash, s);
          MadeSystem(before, after, env, at, Committed(name, attrib, nameHash, s),
                     NewNode(name, attrib, s, env.info.timezone));
        case Naming(k, name, nameHash) =>
          var at: nat :| IsRenamed(before, after, at, true, env.clusterSize / ENTRY, k, name, nameHash);
          RenamedSystem(before, after, env, at, k, name, nameHash);
        case Removing(k) => GoneSystem(before, after, env, k);
        case Changing(k, node) =>
        case Flushing(k) => FlushedSystem(before, after, env, k);
      }
    }
  }

  ghost predicate SparesStep(before: VolumeState, c: VolumeCommand, env: Setting) {
    var perCluster := env.clusterSize / ENTRY;
    && perCluster > 0
    && match c
       case MakeFile(name, attrib, nameHash, stamp) => Spares(before.dir, Making(name, attrib, nameHash, stamp), perCluster)
       case NameFile(k, name, nameHash) => Spares(before.dir, Naming(k, name, nameHash), perCluster)
       case RemoveFile(k) => Spares(before.dir, Removing(k), perCluster)
       case _ => true
  }

  lemma StepSystem(before: VolumeState, c: VolumeCommand, ok: bool, after: VolumeState, env: Setting)
    requires IsRootInOrder(before.dir, env) && IsStep(before, c, ok, after, env)
    ensures AddsNoSystem(before.dir.entries, after.dir.entries)
    ensures KeepsSystem(before.dir.entries, after.dir.entries) <==> !ok || SparesStep(before, c, env)
  {
    assert env.clusterSize / ENTRY > 0;
    hide EditStep, Spares, AddsNoSystem, KeepsSystem, WithRoot, IsDropped, IsRootInOrder;
    if c.StoreBytes? || c.SetSize? {
      Unchanged(before.dir.entries);
    } else {
      var edit := match c
        case MakeFile(name, attrib, nameHash, stamp) => Making(name, attrib, nameHash, stamp)
        case NameFile(k, name, nameHash) => Naming(k, name, nameHash)
        case RemoveFile(k) => Removing(k)
        case FlushFile(k) => Edit.Flushing(k);
      EditSystem(before.dir, edit, ok, after.dir, RoomOf(before, env), env);
    }
  }

  /** Over every run, the system's entries stay exactly if every edit that succeeds spares them. */
  lemma {:induction false} RunSystem(trace: seq<VolumeState>, commands: seq<VolumeCommand>, results: seq<bool>, env: Setting,
                                     n: nat)
    requires n <= |commands| == |results| && |trace| == |commands| + 1
    requires forall i | 0 <= i < n ::
               IsRootInOrder(trace[i].dir, env) && IsStep(trace[i], commands[i], results[i], trace[i + 1], env)
    ensures AddsNoSystem(trace[0].dir.entries, trace[n].dir.entries)
    ensures KeepsSystem(trace[0].dir.entries, trace[n].dir.entries)
       <==> forall i | 0 <= i < n :: results[i] ==> SparesStep(trace[i], commands[i], env)
  {
    hide IsStep, SparesStep, AddsNoSystem, KeepsSystem, IsRootInOrder;
    if n == 0 {
      Unchanged(trace[0].dir.entries);
    } else {
      RunSystem(trace, commands, results, env, n - 1);
      StepSystem(trace[n - 1], commands[n - 1], results[n - 1], trace[n], env);
      Compose(trace[0].dir.entries, trace[n - 1].dir.entries, trace[n].dir.entries);
    }
  }
}
