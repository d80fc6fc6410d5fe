// Entry sets of files: check_entries, parse_file_entries, check_node, commit_entry, rename_entry and
// exfat_flush_node of node.c.

/** The 32-byte entries as records of fields. */
module EntryLayout {
  import opened Basics
  import opened LittleEndian

  const ENTRY: nat := 32
  const NAME_UNITS: nat := 15

  type Entry = e: seq<byte> | |e| == ENTRY witness seq(ENTRY, _ => 0)

  /** struct exfat_entry_meta1, behind the type. The times are kept with their centiseconds and zones. */
  datatype Meta1 = Meta1(
    continuations: byte, checksum: u16, attrib: u16, unknown1: u16,
    crtime: u16, crdate: u16, mtime: u16, mdate: u16, atime: u16, adate: u16,
    crtimeCs: byte, mtimeCs: byte, crtimeTzo: byte, mtimeTzo: byte, atimeTzo: byte, unknown2: seq<byte>)

  /** struct exfat_entry_meta2, behind the type. */
  datatype Meta2 = Meta2(
    flags: byte, unknown1: byte, nameLength: byte, nameHash: u16, unknown2: u16,
    validSize: nat, unknown3: seq<byte>, startCluster: u32, size: nat)

  predicate IsMeta1(m: Meta1) {
    |m.unknown2| == 7
  }

  predicate IsMeta2(m: Meta2) {
    m.validSize < 0x1_0000_0000_0000_0000 && m.size < 0x1_0000_0000_0000_0000 && |m.unknown3| == 4
  }

  function Low(v: u16): byte {
    v % 256
  }

  function High(v: u16): byte {
    v / 256
  }

  function WordAt(e: Entry, i: nat): u16
    requires i + 2 <= ENTRY
  {
    var low: nat, high: nat := e[i], e[i + 1];
    low + 256 * high
  }

  function Meta1Bytes(entryType: byte, m: Meta1): Entry
    requires IsMeta1(m)
  {
    [entryType, m.continuations, Low(m.checksum), High(m.checksum), Low(m.attrib), High(m.attrib),
     Low(m.unknown1), High(m.unknown1), Low(m.crtime), High(m.crtime), Low(m.crdate), High(m.crdate),
     Low(m.mtime), High(m.mtime), Low(m.mdate), High(m.mdate), Low(m.atime), High(m.atime), Low(m.adate), High(m.adate),
     m.crtimeCs, m.mtimeCs, m.crtimeTzo, m.mtimeTzo, m.atimeTzo] + m.unknown2
  }

  function Meta1Of(e: Entry): (m: Meta1)
    ensures IsMeta1(m)
  {
    Meta1(e[1], WordAt(e, 2), WordAt(e, 4), WordAt(e, 6),
          WordAt(e, 8), WordAt(e, 10), WordAt(e, 12), WordAt(e, 14), WordAt(e, 16), WordAt(e, 18),
          e[20], e[21], e[22], e[23], e[24], e[25..])
  }

  function Meta2Bytes(entryType: byte, m: Meta2): Entry
    requires IsMeta2(m)
  {
    [entryType, m.flags, m.unknown1, m.nameLength, Low(m.nameHash), High(m.nameHash), Low(m.unknown2), High(m.unknown2)]
    + Encode(m.validSize, 8) + m.unknown3 + Encode(m.startCluster, 4) + Encode(m.size, 8)
  }

  function Meta2Of(e: Entry): (m: Meta2)
    ensures IsMeta2(m)
  {
    Fits(e[8..16]);
    Fits(e[20..24]);
    Fits(e[24..]);
    Widths();
    Meta2(e[1], e[2], e[3], WordAt(e, 4), WordAt(e, 6), Decode(e[8..16]), e[16..20], Decode(e[20..24]), Decode(e[24..]))
  }

  lemma Meta1RoundTrip(entryType: byte, m: Meta1)
    requires IsMeta1(m)
    ensures Meta1Bytes(entryType, m)[0] == entryType && Meta1Of(Meta1Bytes(entryType, m)) == m
  {
  }

  lemma Meta2RoundTrip(entryType: byte, m: Meta2)
    requires IsMeta2(m)
    ensures Meta2Bytes(entryType, m)[0] == entryType && Meta2Of(Meta2Bytes(entryType, m)) == m
  {
    var e := Meta2Bytes(entryType, m);
    assert e[8..16] == Encode(m.validSize, 8);
    assert e[20..24] == Encode(m.startCluster, 4);
    assert e[24..] == Encode(m.size, 8);
    Widths();
    LittleEndian.RoundTrip(m.validSize, 8);
    LittleEndian.RoundTrip(m.startCluster, 4);
    LittleEndian.RoundTrip(m.size, 8);
  }

  type Units = u: seq<u16> | |u| == NAME_UNITS witness seq(NAME_UNITS, _ => 0)

  /** struct exfat_entry_name. */
  function NameBytes(entryType: byte, units: Units): (e: Entry)
    ensures e[0] == entryType
  {
    seq(ENTRY, j requires 0 <= j < ENTRY =>
      if j == 0 then entryType
      else if j == 1 then 0
      else if j % 2 == 0 then Low(units[j / 2 - 1])
      else High(units[j / 2 - 1]))
  }

  function UnitsOf(e: Entry): Units {
    seq(NAME_UNITS, i requires 0 <= i < NAME_UNITS => WordAt(e, 2 + 2 * i))
  }

  lemma UnitsRoundTrip(entryType: byte, units: Units)
    ensures UnitsOf(NameBytes(entryType, units)) == units
  {
  }
}

/** What a set of entries means. */
module EntrySets {
  import opened Basics
  import Bitmap
  import ClusterMaps
  import Chains
  import opened Checksum
  import opened Slots
  import opened Timestamps
  import opened EntryLayout
  import opened ClusterMath
  import FileBytes
  import FileIO
  import Volumes

  const ENTRY_FILE_TAIL: nat := 0xE0
  const ENTRY_NONE: int := -1
  const NAME_BUFFER: nat := 256
  const ATTRIB_DIR_BIT: nat := 0x10

  function TypesOf(entries: seq<Entry>): (types: seq<byte>)
    ensures |types| == |entries| && forall i | 0 <= i < |types| :: types[i] == entries[i][0]
  {
    seq(|entries|, i requires 0 <= i < |entries| => entries[i][0])
  }

  predicate IsFileSet(types: seq<byte>) {
    exists j | 3 <= j <= |types| :: IsSplitAt(types, j)
  }

  /** A file entry, an info entry, names up to j, and vendor entries from there on. */
  predicate IsSplitAt(types: seq<byte>, j: nat)
    requires 3 <= j <= |types|
  {
    && types[0] == ENTRY_FILE && types[1] == ENTRY_FILE_INFO
    && (forall i | 2 <= i < j :: types[i] == ENTRY_FILE_NAME)
    && (forall i | j <= i < |types| :: types[i] >= ENTRY_FILE_TAIL)
  }

  /** One transition of check_entries. */
  predicate MayFollow(previous: int, current: int) {
    if previous == ENTRY_NONE then current == ENTRY_FILE
    else if previous == ENTRY_FILE then current == ENTRY_FILE_INFO
    else if previous == ENTRY_FILE_INFO then current == ENTRY_FILE_NAME
    else if previous == ENTRY_FILE_NAME then
      current == ENTRY_FILE_NAME || current == ENTRY_NONE || current >= ENTRY_FILE_TAIL
    else if previous >= ENTRY_FILE_TAIL then current >= ENTRY_FILE_TAIL || current == ENTRY_NONE
    else false
  }

  /** check_entries accepts exactly a file entry, an info entry, one name or more, and any vendor entries. */
  method CheckEntries(types: seq<byte>) returns (ok: bool)
    ensures ok <==> IsFileSet(types)
  {
    var previous, current := ENTRY_NONE, ENTRY_NONE;
    ghost var j := 2;
    var i := 0;
    while i < |types| + 1
      invariant 0 <= i <= |types| + 1 && 2 <= j
      invariant 0 < i <= |types| ==> previous == types[i - 1]
      invariant i == 0 ==> previous == ENTRY_NONE
      invariant i == |types| + 1 ==> 3 <= j <= |types| && IsSplitAt(types, j)
      invariant forall k | 0 < k < i && k < |types| :: MayFollow(types[k - 1], types[k])
      invariant 0 < i && 0 < |types| ==> types[0] == ENTRY_FILE
      invariant 1 < i && 1 < |types| ==> types[1] == ENTRY_FILE_INFO
      invariant 2 < i && 2 < |types| ==> 3 <= j && types[2] == ENTRY_FILE_NAME
      invariant i <= |types| ==> j <= if i < 2 then 2 else i
      invariant forall k | 2 <= k < j && k < |types| :: types[k] == ENTRY_FILE_NAME
      invariant forall k | j <= k < i && k < |types| :: types[k] >= ENTRY_FILE_TAIL
      invariant i <= |types| && 2 < i && j < i ==> types[i - 1] >= ENTRY_FILE_TAIL
    {
      current := if i < |types| then types[i] else ENTRY_NONE;
      if !MayFollow(previous, current) {
        if n: nat :| 3 <= n <= |types| && IsSplitAt(types, n) {
          assert false;
        }
        return false;
      }
      if i < |types| && 2 <= i && current == ENTRY_FILE_NAME {
        j := i + 1;
      }
      previous := current;
      i := i + 1;
    }
    ok := true;
  }

  /** The fields of an in-memory node that come from its entries, the name in a zero-filled buffer. */
  datatype FileNode = FileNode(
    attrib: u16, continuations: byte, mtime: int, atime: int,
    validSize: nat, size: nat, startCluster: u32, isContiguous: bool, name: seq<u16>)

  datatype ParseResult = Parsed(node: FileNode) | Rejected

  /** A name of at most 255 units in its buffer. */
  function Padded(name: seq<u16>): (buffer: seq<u16>)
    ensures |name| <= NAME_BUFFER ==> |buffer| == NAME_BUFFER
  {
    if |name| <= NAME_BUFFER then name + seq(NAME_BUFFER - |name|, _ => 0) else name
  }

  /** init_node_name: the units of n name entries, one after the other. */
  function NameOf(names: seq<Entry>, n: nat): (units: seq<u16>)
    requires n <= |names|
    ensures |units| == NAME_UNITS * n
  {
    if n == 0 then [] else NameOf(names, n - 1) + UnitsOf(names[n - 1])
  }

  /** init_node_meta1 and init_node_meta2. */
  function NodeOf(m1: Meta1, m2: Meta2, name: seq<u16>, timezone: int): FileNode {
    FileNode(m1.attrib, m1.continuations,
             ToUnix(Stamp(m1.mdate, m1.mtime, m1.mtimeCs, m1.mtimeTzo), timezone),
             ToUnix(Stamp(m1.adate, m1.atime, 0, m1.atimeTzo), timezone),
             m2.validSize, m2.size, m2.startCluster, m2.flags / 2 % 2 == 1, name)
  }

  /** exfat_calc_checksum, over the first n entries, without the checksum itself. */
  function SetSum(entries: seq<Entry>, n: nat): (sum: nat)
    requires 0 < n <= |entries|
    ensures sum < 2 * HALF16
  {
    if n == 1 then StartSum(HALF16, entries[0], {2, 3}) else SumOf(HALF16, SetSum(entries, n - 1), entries[n - 1])
  }

  /** What parsing depends on besides the entries. */
  datatype FsInfo = FsInfo(timezone: int, clusterSize: nat, clusterCount: nat)

  /** check_node, behind the checksum. */
  predicate IsSound(node: FileNode, fs: FsInfo)
    requires fs.clusterSize > 0
  {
    && node.validSize <= node.size
    && (node.size == 0 ==> node.startCluster == Bitmap.CLUSTER_FREE && !node.isContiguous)
    && (node.size > 0 ==> ClusterMaps.DataCluster(fs.clusterCount, node.startCluster))
    && node.size <= fs.clusterCount * fs.clusterSize
    && (node.attrib / ATTRIB_DIR_BIT % 2 == 1 ==> node.size % fs.clusterSize == 0)
  }

  /** parse_file_entries, of as many entries as the first one announces. */
  function Parse(entries: seq<Entry>, fs: FsInfo): ParseResult
    requires |entries| > 0 && |entries| == 1 + Meta1Of(entries[0]).continuations && fs.clusterSize > 0
  {
    if !IsFileSet(TypesOf(entries)) then Rejected
    else
      var m1, m2 := Meta1Of(entries[0]), Meta2Of(entries[1]);
      var nameEntries := DivRoundUp(m2.nameLength, NAME_UNITS);
      if m1.continuations < 2 || m2.flags >= 4 || m1.continuations < 1 + nameEntries then Rejected
      else
        var node := NodeOf(m1, m2, Padded(NameOf(entries[2..], nameEntries)), fs.timezone);
        if SetSum(entries, |entries|) != m1.checksum || !IsSound(node, fs) then Rejected
        else Parsed(node)
  }

  /** A set of entries on the device describes a node: it is as long as it says, and parses to the node. */
  predicate Describes(entries: seq<Entry>, node: FileNode, fs: FsInfo) {
    && |entries| > 2 && |entries| == 1 + Meta1Of(entries[0]).continuations && fs.clusterSize > 0
    && Parse(entries, fs) == Parsed(node)
  }

  /** exfat_calc_checksum. */
  method CalcChecksum(entries: seq<Entry>) returns (sum: nat)
    requires |entries| > 0
    ensures sum == SetSum(entries, |entries|)
  {
    sum := Start(HALF16, entries[0], {2, 3});
    for i := 1 to |entries|
      invariant sum == SetSum(entries, i)
    {
      sum := AddBytes(HALF16, sum, entries[i]);
    }
  }

  /** The set with its checksum stored in it. */
  function Sealed(entries: seq<Entry>): (after: seq<Entry>)
    requires |entries| > 0
    ensures |after| == |entries| && after[1..] == entries[1..]
  {
    entries[0 := Meta1Bytes(entries[0][0], Meta1Of(entries[0]).(checksum := SetSum(entries, |entries|)))]
  }

  lemma ChecksumIsSkipped(entryType: byte, m: Meta1, sum: u16)
    requires IsMeta1(m)
    ensures StartSum(HALF16, Meta1Bytes(entryType, m.(checksum := sum)), {2, 3})
         == StartSum(HALF16, Meta1Bytes(entryType, m), {2, 3})
  {
    CountedIgnoresSkipped(Meta1Bytes(entryType, m.(checksum := sum)), Meta1Bytes(entryType, m), {2, 3}, ENTRY);
  }

  lemma {:induction false} SetSumOfRest(a: seq<Entry>, b: seq<Entry>, n: nat)
    requires 0 < n <= |a| == |b| && a[1..] == b[1..] && SetSum(a, 1) == SetSum(b, 1)
    ensures SetSum(a, n) == SetSum(b, n)
  {
    if n > 1 {
      SetSumOfRest(a, b, n - 1);
      assert a[1..][n - 2] == a[n - 1] && b[1..][n - 2] == b[n - 1];
    }
  }

  lemma Meta1BytesOf(e: Entry)
    ensures Meta1Bytes(e[0], Meta1Of(e)) == e
  {
  }

  /** A sealed set carries its own checksum, and is otherwise as before. */
  lemma SealedMatches(entries: seq<Entry>)
    requires |entries| > 0
    ensures var after := Sealed(entries); var sum := SetSum(entries, |entries|);
      && SetSum(after, |after|) == sum
      && Meta1Of(after[0]) == Meta1Of(entries[0]).(checksum := sum) && after[0][0] == entries[0][0]
  {
    var after, m := Sealed(entries), Meta1Of(entries[0]);
    var sum := SetSum(entries, |entries|);
    Meta1BytesOf(entries[0]);
    ChecksumIsSkipped(entries[0][0], m, sum);
    Meta1RoundTrip(entries[0][0], m.(checksum := sum));
    SetSumOfRest(after, entries, |entries|);
  }

  /** The name entries for a name in its buffer, 15 units each. */
  function NameEntries(buffer: seq<u16>, n: nat): (names: seq<Entry>)
    requires NAME_UNITS * n <= |buffer|
    ensures |names| == n && forall i | 0 <= i < n :: names[i][0] == ENTRY_FILE_NAME
  {
    if n == 0 then []
    else NameEntries(buffer, n - 1) + [NameBytes(ENTRY_FILE_NAME, buffer[NAME_UNITS * (n - 1)..NAME_UNITS * n])]
  }

  lemma {:induction false} NameReadsBack(buffer: seq<u16>, n: nat)
    requires NAME_UNITS * n <= |buffer|
    ensures NameOf(NameEntries(buffer, n), n) == buffer[..NAME_UNITS * n]
  {
    hide NameBytes, UnitsOf;
    if n > 0 {
      NameReadsBack(buffer, n - 1);
      UnitsRoundTrip(ENTRY_FILE_NAME, buffer[NAME_UNITS * (n - 1)..NAME_UNITS * n]);
      NameOfPrefix(NameEntries(buffer, n), NameEntries(buffer, n - 1), n - 1);
    }
  }

  lemma {:induction false} NameOfPrefix(a: seq<Entry>, b: seq<Entry>, n: nat)
    requires n <= |a| && n <= |b| && a[..n] == b[..n]
    ensures NameOf(a, n) == NameOf(b, n)
  {
    if n > 0 {
      assert a[..n][..n - 1] == a[..n - 1] && b[..n][..n - 1] == b[..n - 1];
      assert a[n - 1] == a[..n][n - 1] == b[..n][n - 1] == b[n - 1];
      NameOfPrefix(a, b, n - 1);
    }
  }

  /** Cutting the buffer behind its last name entry loses only zeros. */
  lemma PaddedAgain(name: seq<u16>, n: nat)
    requires |name| <= NAME_UNITS * n <= NAME_BUFFER
    ensures Padded(Padded(name)[..NAME_UNITS * n]) == Padded(name)
  {
  }

  lemma NameEntriesSuffice(length: nat)
    requires 0 < length < NAME_BUFFER
    ensures 0 < DivRoundUp(length, NAME_UNITS) <= 17 && length <= NAME_UNITS * DivRoundUp(length, NAME_UNITS) <= 255
  {
  }

  /** A file entry, an info entry and name entries are a set that check_entries accepts. */
  lemma PlainIsFileSet(first: Entry, second: Entry, names: seq<Entry>)
    requires first[0] == ENTRY_FILE && second[0] == ENTRY_FILE_INFO
    requires names != [] && forall i | 0 <= i < |names| :: names[i][0] == ENTRY_FILE_NAME
    ensures IsFileSet(TypesOf([first, second] + names))
  {
    assert IsSplitAt(TypesOf([first, second] + names), 2 + |names|);
  }

  /** Sealing does not change the types. */
  lemma SealedTypes(entries: seq<Entry>)
    requires |entries| > 0
    ensures TypesOf(Sealed(entries)) == TypesOf(entries)
  {
  }

  /** The node that a set would describe if its checksum were right. */
  function Meant(entries: seq<Entry>, fs: FsInfo): FileNode
    requires |entries| > 2 && |entries| >= 2 + DivRoundUp(Meta2Of(entries[1]).nameLength, NAME_UNITS)
  {
    var m2 := Meta2Of(entries[1]);
    NodeOf(Meta1Of(entries[0]), m2, Padded(NameOf(entries[2..], DivRoundUp(m2.nameLength, NAME_UNITS))), fs.timezone)
  }

  /** All that parse_file_entries asks for before it looks at checksum and node. */
  predicate IsWellFormed(entries: seq<Entry>) {
    && |entries| > 2 && |entries| == 1 + Meta1Of(entries[0]).continuations && IsFileSet(TypesOf(entries))
    && Meta2Of(entries[1]).flags < 4 && |entries| >= 2 + DivRoundUp(Meta2Of(entries[1]).nameLength, NAME_UNITS)
  }

  /** A well-formed set, once sealed, describes the node that it means, if that is sound. */
  lemma SealedDescribes(entries: seq<Entry>, fs: FsInfo)
    requires IsWellFormed(entries) && fs.clusterSize > 0
    ensures Describes(Sealed(entries), Meant(entries, fs), fs) <==> IsSound(Meant(entries, fs), fs)
  {
    hide Meta1Of, Meta2Of, IsSound, Sealed, IsFileSet, SetSum, NameOf, Padded, DivRoundUp;
    SealedMatches(entries);
    SealedTypes(entries);
    var after := Sealed(entries);
    assert after[1] == after[1..][0] == entries[1];
    assert after[2..] == after[1..][1..] == entries[2..];
  }

  /** What describes a node is well-formed, and means it. */
  lemma DescribedParts(entries: seq<Entry>, node: FileNode, fs: FsInfo)
    requires Describes(entries, node, fs)
    ensures fs.clusterSize > 0 && IsWellFormed(entries) && Meant(entries, fs) == node && IsSound(node, fs)
    ensures entries[0][0] == ENTRY_FILE && entries[1][0] == ENTRY_FILE_INFO
  {
    hide Meta1Of, Meta2Of, IsSound, NameOf, Padded, NodeOf, DivRoundUp, SetSum;
    assert TypesOf(entries)[0] == ENTRY_FILE && TypesOf(entries)[1] == ENTRY_FILE_INFO;
  }

  /** The two entries of a new node. */
  function NewMeta1(nameEntries: byte, attrib: u16, s: Stamp): (m: Meta1)
    requires nameEntries < 0xFF
    ensures IsMeta1(m)
  {
    Meta1(1 + nameEntries, 0, attrib, 0, s.time, s.date, s.time, s.date, s.time, s.date,
          s.centisec, s.centisec, s.tzoffset, s.tzoffset, s.tzoffset, [0, 0, 0, 0, 0, 0, 0])
  }

  function NewMeta2(nameLength: byte, nameHash: u16): (m: Meta2)
    ensures IsMeta2(m)
  {
    Meta2(1, 0, nameLength, nameHash, 0, 0, [0, 0, 0, 0], Bitmap.CLUSTER_FREE, 0)
  }

  /** commit_entry: the entries that it writes. */
  function Committed(name: seq<u16>, attrib: u16, nameHash: u16, s: Stamp): (entries: seq<Entry>)
    requires 0 < |name| < NAME_BUFFER
    ensures |entries| == 2 + DivRoundUp(|name|, NAME_UNITS)
  {
    NameEntriesSuffice(|name|);
    var n := DivRoundUp(|name|, NAME_UNITS);
    Sealed(Assembled(NewMeta1(n, attrib, s), NewMeta2(|name|, nameHash), NameEntries(Padded(name), n)))
  }

  /** The node that commit_entry attaches. */
  function NewNode(name: seq<u16>, attrib: u16, s: Stamp, timezone: int): FileNode
    requires 0 < |name| < NAME_BUFFER
  {
    NameEntriesSuffice(|name|);
    NodeOf(NewMeta1(DivRoundUp(|name|, NAME_UNITS), attrib, s), NewMeta2(|name|, 0), Padded(name), timezone)
  }

  lemma NewNodeIsSound(name: seq<u16>, attrib: u16, nameHash: u16, s: Stamp, fs: FsInfo)
    requires 0 < |name| < NAME_BUFFER && DivRoundUp(|name|, NAME_UNITS) < 0xFF && fs.clusterSize > 0
    ensures var m1, m2 := NewMeta1(DivRoundUp(|name|, NAME_UNITS), attrib, s), NewMeta2(|name|, nameHash);
      && m1.continuations == 1 + DivRoundUp(|name|, NAME_UNITS) && m2.nameLength == |name| && m2.flags == 1
      && NodeOf(m1, m2, Padded(name), fs.timezone) == NewNode(name, attrib, s, fs.timezone)
      && IsSound(NewNode(name, attrib, s, fs.timezone), fs)
  {
  }

  /** The first two entries of a set and the others. */
  function Assembled(m1: Meta1, m2: Meta2, names: seq<Entry>): (entries: seq<Entry>)
    requires IsMeta1(m1) && IsMeta2(m2)
    ensures |entries| == 2 + |names|
  {
    [Meta1Bytes(ENTRY_FILE, m1), Meta2Bytes(ENTRY_FILE_INFO, m2)] + names
  }

  lemma AssembledParts(m1: Meta1, m2: Meta2, names: seq<Entry>)
    requires IsMeta1(m1) && IsMeta2(m2)
    ensures var entries := Assembled(m1, m2, names);
      && entries[0][0] == ENTRY_FILE && entries[1][0] == ENTRY_FILE_INFO
      && Meta1Of(entries[0]) == m1 && Meta2Of(entries[1]) == m2 && entries[2..] == names
  {
    hide Meta1Of, Meta2Of, Meta1Bytes, Meta2Bytes;
    Meta1RoundTrip(ENTRY_FILE, m1);
    Meta2RoundTrip(ENTRY_FILE_INFO, m2);
  }

  lemma SealedKeepsLength(m1: Meta1, m2: Meta2, names: seq<Entry>)
    requires IsMeta1(m1) && IsMeta2(m2)
    ensures var after := Sealed(Assembled(m1, m2, names)); |after| == 2 + |names| && Meta2Of(after[1]) == m2
  {
    hide Meta1Of, Meta2Of, Sealed, Assembled;
    var entries := Assembled(m1, m2, names);
    AssembledParts(m1, m2, names);
    assert Sealed(entries)[1] == Sealed(entries)[1..][0] == entries[1];
  }

  /** New first entries and names, sealed, describe their node. */
  lemma NewSetDescribes(m1: Meta1, m2: Meta2, buffer: seq<u16>, fs: FsInfo)
    requires IsMeta1(m1) && IsMeta2(m2) && fs.clusterSize > 0 && |buffer| == NAME_BUFFER
    requires 0 < m2.nameLength && m2.flags < 4 && Padded(buffer[..m2.nameLength]) == buffer
    requires m1.continuations == 1 + DivRoundUp(m2.nameLength, NAME_UNITS)
    requires NAME_UNITS * DivRoundUp(m2.nameLength, NAME_UNITS) <= NAME_BUFFER
    ensures var node := NodeOf(m1, m2, buffer, fs.timezone);
      var entries := Sealed(Assembled(m1, m2, NameEntries(buffer, DivRoundUp(m2.nameLength, NAME_UNITS))));
      Describes(entries, node, fs) <==> IsSound(node, fs)
  {
    var n := DivRoundUp(m2.nameLength, NAME_UNITS);
    NameEntriesSuffice(m2.nameLength);
    NameReadsBack(buffer, n);
    PaddedAgain(buffer[..m2.nameLength], n);
    hide Meta1Of, Meta2Of, Meta1Bytes, Meta2Bytes, Describes, Sealed, IsFileSet, NameEntries, NameOf, Padded, NodeOf,
      IsSound, DivRoundUp, Assembled;
    var entries := Assembled(m1, m2, NameEntries(buffer, n));
    AssembledParts(m1, m2, NameEntries(buffer, n));
    PlainIsFileSet(entries[0], entries[1], NameEntries(buffer, n));
    assert entries == [entries[0], entries[1]] + entries[2..];
    SealedDescribes(entries, fs);
  }

  /** Every set that commit_entry writes describes the node in memory. */
  lemma CommitDescribes(name: seq<u16>, attrib: u16, nameHash: u16, s: Stamp, fs: FsInfo)
    requires 0 < |name| < NAME_BUFFER && fs.clusterSize > 0
    ensures Describes(Committed(name, attrib, nameHash, s), NewNode(name, attrib, s, fs.timezone), fs)
  {
    NameEntriesSuffice(|name|);
    var n := DivRoundUp(|name|, NAME_UNITS);
    NewNodeIsSound(name, attrib, nameHash, s, fs);
    assert Padded(name)[..|name|] == name;
    hide NameEntries, NewMeta1, NewMeta2, Describes, Sealed, NodeOf, NewNode, IsSound, DivRoundUp, Padded, Assembled;
    NewSetDescribes(NewMeta1(n, attrib, s), NewMeta2(|name|, nameHash), Padded(name), fs);
  }

  /** exfat_flush_node: the fields that it writes into the first two entries. */
  function UpdatedMeta1(m: Meta1, node: FileNode, timezone: int): (after: Meta1)
    requires IsMeta1(m) && CanFlush(node, timezone)
    ensures IsMeta1(after)
  {
    var modified, accessed := StampOf(node.mtime, timezone), StampOf(node.atime, timezone);
    m.(attrib := node.attrib,
       mdate := modified.date, mtime := modified.time, mtimeCs := modified.centisec, mtimeTzo := modified.tzoffset,
       adate := accessed.date, atime := accessed.time, atimeTzo := accessed.tzoffset)
  }

  function UpdatedMeta2(m: Meta2, node: FileNode, timezone: int): (after: Meta2)
    requires IsMeta2(m) && CanFlush(node, timezone)
    ensures IsMeta2(after)
  {
    m.(validSize := node.validSize, size := node.size, startCluster := node.startCluster,
       flags := if node.size != 0 && node.isContiguous then 3 else 1)
  }

  /** The years fit in 16 bits, and the sizes in 64. */
  predicate CanFlush(node: FileNode, timezone: int) {
    && IsInWidth(node.mtime, timezone) && IsInWidth(node.atime, timezone)
    && node.validSize < 0x1_0000_0000_0000_0000 && node.size < 0x1_0000_0000_0000_0000
  }

  function Flushed(entries: seq<Entry>, node: FileNode, timezone: int): (after: seq<Entry>)
    requires |entries| > 2 && CanFlush(node, timezone)
    ensures |after| == |entries|
  {
    Sealed(Assembled(UpdatedMeta1(Meta1Of(entries[0]), node, timezone), UpdatedMeta2(Meta2Of(entries[1]), node, timezone),
                     entries[2..]))
  }

  /** What a node looks like after it was flushed and read again: no mark of contiguity on an empty file. */
  function Reread(node: FileNode, timezone: int): FileNode
    requires CanFlush(node, timezone)
  {
    node.(isContiguous := node.size != 0 && node.isContiguous,
          mtime := ToUnix(StampOf(node.mtime, timezone), timezone),
          atime := ToUnix(StampOf(node.atime, timezone).(centisec := 0), timezone))
  }

  lemma UpdatedParts(m1: Meta1, m2: Meta2, node: FileNode, timezone: int)
    requires IsMeta1(m1) && IsMeta2(m2) && CanFlush(node, timezone)
    ensures var u1, u2 := UpdatedMeta1(m1, node, timezone), UpdatedMeta2(m2, node, timezone);
      && u1.continuations == m1.continuations && u2.nameLength == m2.nameLength && u2.flags < 4
      && (m1.continuations == node.continuations ==> NodeOf(u1, u2, node.name, timezone) == Reread(node, timezone))
  {
    hide ToUnix, StampOf;
  }

  /** The entries of a node, flushed, describe the node in memory, if it is sound. */
  lemma FlushDescribes(entries: seq<Entry>, stored: FileNode, node: FileNode, fs: FsInfo)
    requires Describes(entries, stored, fs) && CanFlush(node, fs.timezone)
    requires node.name == stored.name && node.continuations == stored.continuations
    ensures Describes(Flushed(entries, node, fs.timezone), Reread(node, fs.timezone), fs)
       <==> IsSound(Reread(node, fs.timezone), fs)
  {
    hide Meta1Of, Meta2Of, Meta1Bytes, Meta2Bytes, Describes, Sealed, IsFileSet, NameOf, Padded, IsSound, DivRoundUp,
      Reread, UpdatedMeta1, UpdatedMeta2, CanFlush, ToUnix, Assembled;
    DescribedParts(entries, stored, fs);
    var m1 := UpdatedMeta1(Meta1Of(entries[0]), node, fs.timezone);
    var m2 := UpdatedMeta2(Meta2Of(entries[1]), node, fs.timezone);
    UpdatedParts(Meta1Of(entries[0]), Meta2Of(entries[1]), node, fs.timezone);
    AssembledParts(m1, m2, entries[2..]);
    var raw := Assembled(m1, m2, entries[2..]);
    assert raw == [raw[0], raw[1]] + raw[2..] && entries == [entries[0], entries[1]] + entries[2..];
    assert TypesOf(raw) == TypesOf(entries);
    SealedDescribes(raw, fs);
  }

  /** rename_entry: the old first two entries with the new name. */
  function Renamed(entries: seq<Entry>, name: seq<u16>, nameHash: u16): (after: seq<Entry>)
    requires |entries| > 1 && 0 < |name| < NAME_BUFFER
  {
    NameEntriesSuffice(|name|);
    var n := DivRoundUp(|name|, NAME_UNITS);
    Sealed(Assembled(Meta1Of(entries[0]).(continuations := 1 + n),
                     Meta2Of(entries[1]).(nameLength := |name|, nameHash := nameHash), NameEntries(Padded(name), n)))
  }

  function WithName(node: FileNode, name: seq<u16>): FileNode
    requires 0 < |name| < NAME_BUFFER
  {
    NameEntriesSuffice(|name|);
    node.(continuations := 1 + DivRoundUp(|name|, NAME_UNITS), name := Padded(name))
  }

  /** A renamed set describes the node that was stored, but for its name and its length. */
  lemma RenameDescribes(entries: seq<Entry>, stored: FileNode, name: seq<u16>, nameHash: u16, fs: FsInfo)
    requires Describes(entries, stored, fs) && 0 < |name| < NAME_BUFFER
    ensures Describes(Renamed(entries, name, nameHash), WithName(stored, name), fs)
  {
    NameEntriesSuffice(|name|);
    var n := DivRoundUp(|name|, NAME_UNITS);
    assert Padded(name)[..|name|] == name;
    hide Meta1Of, Meta2Of, Describes, Sealed, NameEntries, NameOf, Padded, ToUnix, DivRoundUp, Assembled, IsFileSet;
    DescribedParts(entries, stored, fs);
    var m1 := Meta1Of(entries[0]).(continuations := 1 + n);
    var m2 := Meta2Of(entries[1]).(nameLength := |name|, nameHash := nameHash);
    NewSetDescribes(m1, m2, Padded(name), fs);
  }

  /** What the allocator keeps true of a file is what check_node asks of it when its entries are read again. */
  lemma FileIsSound(ef: Volumes.Volume, n: Volumes.Node, node: FileNode, timezone: int)
    requires ef.Valid() && FileIO.IsFile(ef, n) && CanFlush(node, timezone)
    requires node.size == n.size && node.validSize == n.validSize
    requires node.startCluster == n.startCluster && node.isContiguous == n.isContiguous
    requires node.attrib / ATTRIB_DIR_BIT % 2 == 1 ==> n.size % ef.clusterSize == 0
    ensures IsSound(Reread(node, timezone), FsInfo(timezone, ef.clusterSize, ef.clusterCount))
  {
    hide FileBytes.ByteAt, ClusterIndex, ClusterOffset, ClusterStart, ClustersFor, ToUnix, StampOf;
    SizeCovers(ef.clusterSize, n.size, 0);
    SizeFits(ef.clusterSize, ef.clusterCount, n.chain, n.size, ef.cmap.used);
  }

  lemma SizeFits(clusterSize: nat, clusterCount: nat, chain: seq<nat>, size: nat, used: set<nat>)
    requires clusterSize > 0 && Chains.NoDup(chain)
             && Chains.Elems(chain) <= used <= ClusterMaps.AllClusters(clusterCount)
    requires |chain| == ClustersFor(clusterSize, size)
    ensures size <= clusterCount * clusterSize
    ensures chain != [] ==> ClusterMaps.DataCluster(clusterCount, chain[0])
  {
    Chains.CapacityIsChainAndFree(clusterCount, used, chain);
    SizeCovers(clusterSize, size, 0);
    ProductOrder(|chain|, clusterCount, clusterSize);
    if chain != [] {
      assert chain[0] in Chains.Elems(chain);
    }
  }
}
