// What a single damaged byte does to an entry set: readdir and parse_file_entry of node.c.

module EntryDamage {
  import opened Basics
  import opened Checksum
  import opened Slots
  import Timestamps
  import opened EntryLayout
  import opened EntrySets

  /** The entries with one byte changed. */
  function Damaged(entries: seq<Entry>, i: nat, k: nat, b: byte): (after: seq<Entry>)
    requires i < |entries| && k < ENTRY
    ensures |after| == |entries|
  {
    entries[i := entries[i][k := b]]
  }

  /** How many entries a file entry announces. */
  function Announced(first: Entry): nat {
    1 + Meta1Of(first).continuations
  }

  /** readdir at one of the directory's entries: a file is read from as many entries as the first one
      announces, if the directory has them. */
  function ReadAt(dir: seq<Entry>, at: nat, fs: FsInfo): ParseResult
    requires at < |dir| && fs.clusterSize > 0
  {
    if dir[at][0] != ENTRY_FILE || at + Announced(dir[at]) > |dir| then Rejected
    else Parse(dir[at..at + Announced(dir[at])], fs)
  }

  lemma StartTellsApart(e: Entry, k: nat, b: byte)
    requires k < ENTRY && b != e[k] && k != 2 && k != 3
    ensures StartSum(HALF16, e[k := b], {2, 3}) != StartSum(HALF16, e, {2, 3})
  {
    var at := CountedDetects(e, {2, 3}, ENTRY, k, b);
    OneByteDetected(HALF16, 0, Counted(e, {2, 3}, ENTRY), at, b);
  }

  lemma {:induction false} SumTellsApart(entries: seq<Entry>, i: nat, k: nat, b: byte, n: nat)
    requires i < n <= |entries| && k < ENTRY && b != entries[i][k] && (i == 0 ==> k != 2 && k != 3)
    ensures SetSum(Damaged(entries, i, k, b), n) != SetSum(entries, n)
  {
    hide StartSum, SumOf;
    var after := Damaged(entries, i, k, b);
    if n == 1 {
      StartTellsApart(entries[0], k, b);
    } else if n == i + 1 {
      SumBelow(entries, i, k, b, i);
      OneByteDetected(HALF16, SetSum(entries, i), entries[i], k, b);
    } else {
      SumTellsApart(entries, i, k, b, n - 1);
      SumInjective(HALF16, SetSum(after, n - 1), SetSum(entries, n - 1), entries[n - 1]);
    }
  }

  lemma {:induction false} SumBelow(entries: seq<Entry>, i: nat, k: nat, b: byte, n: nat)
    requires 0 < n <= i < |entries| && k < ENTRY
    ensures SetSum(Damaged(entries, i, k, b), n) == SetSum(entries, n)
  {
    if n > 1 {
      SumBelow(entries, i, k, b, n - 1);
    }
  }

  /** What the announced entries must have carried for a file to be read. */
  lemma ReadParts(dir: seq<Entry>, at: nat, fs: FsInfo)
    requires at < |dir| && fs.clusterSize > 0 && ReadAt(dir, at, fs).Parsed?
    ensures at + Announced(dir[at]) <= |dir|
    ensures var whole := dir[at..at + Announced(dir[at])];
      && IsWellFormed(whole) && SetSum(whole, |whole|) == Meta1Of(dir[at]).checksum
      && Meant(whole, fs) == ReadAt(dir, at, fs).node && IsSound(Meant(whole, fs), fs)
      && Meta1Of(dir[at]).continuations >= 2
  {
    hide Meta1Of, Meta2Of, IsSound, SetSum, NameOf, Padded, DivRoundUp, IsFileSet, NodeOf;
  }

  /** A set of unchanged length with one byte changed does not carry its checksum. */
  lemma SumIsWrong(whole: seq<Entry>, i: nat, k: nat, b: byte)
    requires i < |whole| && k < ENTRY && b != whole[i][k] && SetSum(whole, |whole|) == Meta1Of(whole[0]).checksum
    ensures SetSum(Damaged(whole, i, k, b), |whole|) != Meta1Of(Damaged(whole, i, k, b)[0]).checksum
  {
    hide SetSum;
    var after := Damaged(whole, i, k, b);
    if i == 0 && (k == 2 || k == 3) {
      StartIgnoresChecksum(whole, k, b);
      SetSumOfRest(after, whole, |whole|);
      assert Meta1Of(after[0]).checksum != Meta1Of(whole[0]).checksum;
    } else {
      SumTellsApart(whole, i, k, b, |whole|);
      assert Meta1Of(after[0]).checksum == Meta1Of(whole[0]).checksum;
    }
  }

  lemma StartIgnoresChecksum(whole: seq<Entry>, k: nat, b: byte)
    requires |whole| > 0 && (k == 2 || k == 3)
    ensures SetSum(Damaged(whole, 0, k, b), 1) == SetSum(whole, 1) && Damaged(whole, 0, k, b)[1..] == whole[1..]
  {
    CountedIgnoresSkipped(whole[0][k := b], whole[0], {2, 3}, ENTRY);
  }

  /** Any changed byte of a set, but for the number of entries, is noticed. */
  lemma OtherByteIsDetected(dir: seq<Entry>, at: nat, fs: FsInfo, i: nat, k: nat, b: byte)
    requires at < |dir| && fs.clusterSize > 0 && ReadAt(dir, at, fs).Parsed?
    requires i < Announced(dir[at]) && at + i < |dir| && k < ENTRY && b != dir[at + i][k] && (i != 0 || k != 1)
    ensures ReadAt(Damaged(dir, at + i, k, b), at, fs) == Rejected
  {
    hide Meta2Of, IsSound, SetSum, NameOf, Padded, DivRoundUp, IsFileSet, NodeOf;
    var after, n := Damaged(dir, at + i, k, b), Announced(dir[at]);
    ReadParts(dir, at, fs);
    var whole := dir[at..at + n];
    assert after[at..at + n] == Damaged(whole, i, k, b);
    assert Announced(after[at]) == n;
    SumIsWrong(whole, i, k, b);
  }

  /** The set passes with another number of entries. */
  predicate PassesWith(dir: seq<Entry>, at: nat, b: byte)
    requires at + 1 < |dir|
  {
    && 2 <= b && at + 1 + b <= |dir| && IsFileSet(TypesOf(dir[at..at + 1 + b]))
    && DivRoundUp(Meta2Of(dir[at + 1]).nameLength, NAME_UNITS) < b
    && SetSum(Damaged(dir, at, 1, b)[at..at + 1 + b], 1 + b) == Meta1Of(dir[at]).checksum
  }

  lemma RecountedFields(first: Entry, b: byte)
    ensures Meta1Of(first[1 := b]) == Meta1Of(first).(continuations := b) && first[1 := b][0] == first[0]
  {
  }

  /** Exactly when a changed number of entries goes unnoticed, and what is read then. */
  lemma CountIsExact(dir: seq<Entry>, at: nat, fs: FsInfo, b: byte)
    requires at < |dir| && fs.clusterSize > 0 && ReadAt(dir, at, fs).Parsed?
    ensures at + 1 < |dir|
    ensures ReadAt(Damaged(dir, at, 1, b), at, fs)
         == if PassesWith(dir, at, b) then Parsed(ReadAt(dir, at, fs).node.(continuations := b)) else Rejected
  {
    hide Meta1Of, Meta2Of, IsSound, SetSum, NameOf, Padded, DivRoundUp, IsFileSet, Timestamps.ToUnix;
    var after, n := Damaged(dir, at, 1, b), Announced(dir[at]);
    ReadParts(dir, at, fs);
    RecountedFields(dir[at], b);
    if at + 1 + b <= |dir| {
      var before, whole := dir[at..at + n], after[at..at + 1 + b];
      assert TypesOf(whole) == TypesOf(dir[at..at + 1 + b]);
      var names := DivRoundUp(Meta2Of(dir[at + 1]).nameLength, NAME_UNITS);
      if 2 <= b && names < b {
        assert whole[1] == dir[at + 1] == before[1];
        assert whole[2..][..names] == dir[at + 2..at + 2 + names] == before[2..][..names];
        NameOfPrefix(whole[2..], before[2..], names);
        SameSoundness(ReadAt(dir, at, fs).node, b, fs);
      }
    }
  }

  lemma SameSoundness(node: FileNode, b: byte, fs: FsInfo)
    requires fs.clusterSize > 0
    ensures IsSound(node.(continuations := b), fs) == IsSound(node, fs)
  {
  }

  /** A set as this driver writes it, without vendor entries. */
  predicate IsPlain(entries: seq<Entry>) {
    |entries| > 2 && |entries| == 2 + DivRoundUp(Meta2Of(entries[1]).nameLength, NAME_UNITS)
  }

  /** Entries that check_entries takes behind a name. */
  predicate MayExtend(entryType: byte) {
    entryType == ENTRY_FILE_NAME || entryType >= ENTRY_FILE_TAIL
  }

  lemma NoLongerSet(dir: seq<Entry>, at: nat, n: nat, b: nat)
    requires 2 < n <= b && at + 1 + b <= |dir| && !MayExtend(dir[at + n][0])
    ensures !IsFileSet(TypesOf(dir[at..at + 1 + b]))
  {
    var types := TypesOf(dir[at..at + 1 + b]);
    assert types[n] == dir[at + n][0];
  }

  /** Any single changed byte of a plain set is noticed, unless more names or vendor entries lie behind it. */
  lemma DamageIsDetected(dir: seq<Entry>, at: nat, fs: FsInfo, i: nat, k: nat, b: byte)
    requires at < |dir| && fs.clusterSize > 0 && ReadAt(dir, at, fs).Parsed?
    requires i < Announced(dir[at]) && at + i < |dir| && k < ENTRY && b != dir[at + i][k]
    requires at + Announced(dir[at]) <= |dir| && IsPlain(dir[at..at + Announced(dir[at])])
    requires at + Announced(dir[at]) < |dir| ==> !MayExtend(dir[at + Announced(dir[at])][0])
    ensures ReadAt(Damaged(dir, at + i, k, b), at, fs) == Rejected
  {
    hide Meta2Of, SetSum, ReadAt, DivRoundUp, IsFileSet, MayExtend;
    if i == 0 && k == 1 {
      CountIsExact(dir, at, fs, b);
      var n := Announced(dir[at]);
      assert dir[at..at + n][1] == dir[at + 1];
      if n <= b && at + 1 + b <= |dir| {
        NoLongerSet(dir, at, n, b);
      }
    } else {
      OtherByteIsDetected(dir, at, fs, i, k, b);
    }
  }

  /** commit_entry and rename_entry write plain sets, and exfat_flush_node keeps a set plain. */
  lemma WrittenSetsArePlain(name: seq<u16>, attrib: u16, nameHash: u16, s: Timestamps.Stamp, entries: seq<Entry>, node: FileNode,
                            timezone: int)
    requires 0 < |name| < NAME_BUFFER && |entries| > 2 && CanFlush(node, timezone)
    ensures IsPlain(Committed(name, attrib, nameHash, s)) && IsPlain(Renamed(entries, name, nameHash))
    ensures IsPlain(Flushed(entries, node, timezone)) <==> IsPlain(entries)
  {
    NameEntriesSuffice(|name|);
    var n := DivRoundUp(|name|, NAME_UNITS);
    hide Meta1Of, Meta2Of, DivRoundUp, NameEntries, Padded, Timestamps.StampOf, Sealed, Assembled, Timestamps.ToUnix;
    SealedKeepsLength(NewMeta1(n, attrib, s), NewMeta2(|name|, nameHash), NameEntries(Padded(name), n));
    SealedKeepsLength(Meta1Of(entries[0]).(continuations := 1 + n),
                      Meta2Of(entries[1]).(nameLength := |name|, nameHash := nameHash), NameEntries(Padded(name), n));
    SealedKeepsLength(UpdatedMeta1(Meta1Of(entries[0]), node, timezone), UpdatedMeta2(Meta2Of(entries[1]), node, timezone),
                      entries[2..]);
  }
}

/** A set with a vendor entry that is read as another set when one byte is damaged. */
module VendorDamage {
  import opened Basics
  import Bitmap
  import opened Checksum
  import Slots
  import Timestamps
  import opened EntryLayout
  import opened EntrySets
  import opened EntryDamage
  import opened FileBytes
  import LittleEndian

  /** One step, for a sum given by its half and its lowest bit. */
  lemma Step(half: nat, odd: nat, b: byte)
    requires half < HALF16 && odd < 2
    requires odd * HALF16 + half + b < 2 * HALF16
    ensures Next(HALF16, 2 * half + odd, b) == odd * HALF16 + half + b
  {
  }

  lemma SumOfOne(sum: nat, b: byte)
    ensures SumOf(HALF16, sum, [b]) == Next(HALF16, sum, b)
  {
    assert [b][..0] == [];
  }

  /** The sum behind another byte. */
  lemma SumAnother(sum: nat, bytes: seq<byte>, b: byte)
    ensures SumOf(HALF16, sum, bytes + [b]) == Next(HALF16, SumOf(HALF16, sum, bytes), b)
  {
    SumAppend(HALF16, sum, bytes, [b]);
    SumOfOne(SumOf(HALF16, sum, bytes), b);
  }

  /** The sum behind four more bytes. */
  lemma SumFour(sum: nat, bytes: seq<byte>, a: byte, b: byte, c: byte, d: byte)
    ensures SumOf(HALF16, sum, bytes + [a, b, c, d])
         == Next(HALF16, Next(HALF16, Next(HALF16, Next(HALF16, SumOf(HALF16, sum, bytes), a), b), c), d)
  {
    assert bytes + [a, b, c, d] == bytes + [a] + [b] + [c] + [d];
    hide Next, SumOf;
    SumAnother(sum, bytes, a);
    SumAnother(sum, bytes + [a], b);
    SumAnother(sum, bytes + [a] + [b], c);
    SumAnother(sum, bytes + [a] + [b] + [c], d);
  }

  lemma FourSteps(h: nat, b3: nat, b2: nat, b1: nat, b0: nat)
    requires h < 0x1000 && b3 < 2 && b2 < 2 && b1 < 2 && b0 < 2
    ensures Next(HALF16, Next(HALF16, Next(HALF16, Next(HALF16, 16 * h + 8 * b3 + 4 * b2 + 2 * b1 + b0, 0), 0), 0), 0)
         == 0x8000 * b3 + 0x4000 * b2 + 0x2000 * b1 + 0x1000 * b0 + h
  {
    hide Next;
    Step(8 * h + 4 * b3 + 2 * b2 + b1, b0, 0);
    Step(0x4000 * b0 + 4 * h + 2 * b3 + b2, b1, 0);
    Step(0x4000 * b1 + 0x2000 * b0 + 2 * h + b3, b2, 0);
    Step(0x4000 * b2 + 0x2000 * b1 + 0x1000 * b0 + h, b3, 0);
  }

  lemma BitsOf(digit: nat) returns (b3: nat, b2: nat, b1: nat, b0: nat)
    requires digit < 16
    ensures b3 < 2 && b2 < 2 && b1 < 2 && b0 < 2 && digit == 8 * b3 + 4 * b2 + 2 * b1 + b0
  {
    b3 := if digit < 8 then 0 else 1;
    b2 := if digit - 8 * b3 < 4 then 0 else 1;
    b1 := if digit - 8 * b3 - 4 * b2 < 2 then 0 else 1;
    b0 := digit - 8 * b3 - 4 * b2 - 2 * b1;
  }

  /** A sum by its four hexadecimal digits. */
  function Hex(a: nat, b: nat, c: nat, d: nat): nat {
    0x1000 * a + 0x100 * b + 0x10 * c + d
  }

  /** Four zeros turn the digits of a sum by one place. */
  lemma FourZeros(sum: nat, bytes: seq<byte>, a: nat, b: nat, c: nat, d: nat)
    requires a < 16 && b < 16 && c < 16 && d < 16 && SumOf(HALF16, sum, bytes) == Hex(a, b, c, d)
    ensures SumOf(HALF16, sum, bytes + Zeros(4)) == Hex(d, a, b, c)
  {
    assert Zeros(4) == [0, 0, 0, 0];
    hide Next, SumOf, Zeros;
    var b3, b2, b1, b0 := BitsOf(d);
    SumFour(sum, bytes, 0, 0, 0, 0);
    FourSteps(0x100 * a + 0x10 * b + c, b3, b2, b1, b0);
  }

  /** Sixteen zeros turn a sum once round. */
  lemma SixteenZeros(sum: nat, bytes: seq<byte>, a: nat, b: nat, c: nat, d: nat)
    requires a < 16 && b < 16 && c < 16 && d < 16 && SumOf(HALF16, sum, bytes) == Hex(a, b, c, d)
    ensures SumOf(HALF16, sum, bytes + Zeros(16)) == Hex(a, b, c, d)
  {
    assert bytes + Zeros(16) == bytes + Zeros(4) + Zeros(4) + Zeros(4) + Zeros(4);
    hide SumOf, Zeros, Hex;
    FourZeros(sum, bytes, a, b, c, d);
    FourZeros(sum, bytes + Zeros(4), d, a, b, c);
    FourZeros(sum, bytes + Zeros(4) + Zeros(4), c, d, a, b);
    FourZeros(sum, bytes + Zeros(4) + Zeros(4) + Zeros(4), b, c, d, a);
  }

  lemma RestIsZeros(sum: nat, bytes: seq<byte>, a: nat, b: nat, c: nat, d: nat)
    requires a < 16 && b < 16 && c < 16 && d < 16 && SumOf(HALF16, sum, bytes) == Hex(a, b, c, d)
    ensures SumOf(HALF16, sum, bytes + Zeros(28)) == Hex(b, c, d, a)
  {
    assert bytes + Zeros(28) == bytes + Zeros(16) + Zeros(4) + Zeros(4) + Zeros(4);
    hide SumOf, Zeros, Hex;
    SixteenZeros(sum, bytes, a, b, c, d);
    FourZeros(sum, bytes + Zeros(16), a, b, c, d);
    FourZeros(sum, bytes + Zeros(16) + Zeros(4), d, a, b, c);
    FourZeros(sum, bytes + Zeros(16) + Zeros(4) + Zeros(4), c, d, a, b);
  }

  /** An entry of which only the first four bytes are not zero. */
  function Short(a: byte, b: byte, c: byte, d: byte): (e: Entry)
    ensures e == [a, b, c, d] + Zeros(28)
  {
    [a, b, c, d] + Zeros(28)
  }

  /** The entry of a vendor, with two bytes that make up for the other number of entries. */
  function Vendor(): (e: Entry)
    ensures e == [0xE0, 0, 0, 0] + [0, 0, 0, 254] + Zeros(4) + [0, 0, 0, 47] + Zeros(16)
  {
    [0xE0, 0, 0, 0] + [0, 0, 0, 254] + Zeros(4) + [0, 0, 0, 47] + Zeros(16)
  }

  /** The sums of a file entry with two or three continuations, and of the entries behind it. */
  lemma FileSum(more: nat)
    requires more < 2
    ensures SumOf(HALF16, 0, [0x85, 2 + more] + Zeros(28)) == 0x448 + 0x10 * more
  {
    hide SumOf, Next, Zeros;
    SumOfOne(0, 0x85);
    Step(0, 0, 0x85);
    assert [0x85, 2 + more] == [0x85] + [2 + more];
    SumAnother(0, [0x85], 2 + more);
    Step(0x42, 1, 2 + more);
    RestIsZeros(0, [0x85, 2 + more], 8, 0, 4, 4 + more);
  }

  lemma InfoSum(more: nat)
    requires more < 2
    ensures SumOf(HALF16, 0x448 + 0x10 * more, Short(0xC0, 1, 0, 1)) == 0x5DC + 0x10 * more
  {
    var sum := 0x448 + 0x10 * more;
    assert [] + [0xC0, 1, 0, 1] == [0xC0, 1, 0, 1] && SumOf(HALF16, sum, []) == sum;
    hide SumOf, Next, Zeros, Short;
    SumFour(sum, [], 0xC0, 1, 0, 1);
    if more == 0 {
      Step(0x224, 0, 0xC0);
      Step(0x172, 0, 1);
      Step(0xB9, 1, 0);
      Step(0x405C, 1, 1);
      RestIsZeros(sum, [0xC0, 1, 0, 1], 12, 0, 5, 13);
    } else {
      Step(0x22C, 0, 0xC0);
      Step(0x176, 0, 1);
      Step(0xBB, 1, 0);
      Step(0x405D, 1, 1);
      RestIsZeros(sum, [0xC0, 1, 0, 1], 12, 0, 5, 14);
    }
  }

  lemma NameSum(more: nat)
    requires more < 2
    ensures SumOf(HALF16, 0x5DC + 0x10 * more, Short(0xC1, 0, 0x61, 0)) == 0xA66 + 0x10 * more
  {
    var sum := 0x5DC + 0x10 * more;
    assert [] + [0xC1, 0, 0x61, 0] == [0xC1, 0, 0x61, 0] && SumOf(HALF16, sum, []) == sum;
    hide SumOf, Next, Zeros, Short;
    SumFour(sum, [], 0xC1, 0, 0x61, 0);
    if more == 0 {
      Step(0x2EE, 0, 0xC1);
      Step(0x1D7, 1, 0);
      Step(0x40EB, 1, 0x61);
      Step(0x60A6, 0, 0);
      RestIsZeros(sum, [0xC1, 0, 0x61, 0], 6, 0, 10, 6);
    } else {
      Step(0x2F6, 0, 0xC1);
      Step(0x1DB, 1, 0);
      Step(0x40ED, 1, 0x61);
      Step(0x60A7, 0, 0);
      RestIsZeros(sum, [0xC1, 0, 0x61, 0], 6, 0, 10, 7);
    }
  }

  lemma VendorSum()
    ensures SumOf(HALF16, 0xA76, Vendor()) == 0xA66
  {
    var first, second := [0xE0, 0, 0, 0], [0xE0, 0, 0, 0] + [0, 0, 0, 254];
    assert [] + [0xE0, 0, 0, 0] == first && SumOf(HALF16, 0xA76, []) == 0xA76;
    hide SumOf, Next, Zeros, Vendor;
    SumFour(0xA76, [], 0xE0, 0, 0, 0);
    Step(0x53B, 0, 0xE0);
    Step(0x30D, 1, 0);
    Step(0x4186, 1, 0);
    Step(0x60C3, 0, 0);
    SumFour(0xA76, first, 0, 0, 0, 254);
    Step(0x3061, 1, 0);
    Step(0x5830, 1, 0);
    Step(0x6C18, 0, 0);
    Step(0x360C, 0, 254);
    FourZeros(0xA76, second, 3, 7, 0, 10);
    SumFour(0xA76, second + Zeros(4), 0, 0, 0, 47);
    Step(0x51B8, 0, 0);
    Step(0x28DC, 0, 0);
    Step(0x146E, 0, 0);
    Step(0xA37, 0, 47);
    SixteenZeros(0xA76, second + Zeros(4) + [0, 0, 0, 47], 0, 10, 6, 6);
  }

  /** A file entry of the given checksum, with two or three continuations, and no attributes or times. */
  function FileEntry(more: nat, checksum: u16): (e: Entry)
    requires more < 2
    ensures e == [0x85, 2 + more, Low(checksum), High(checksum)] + Zeros(28)
  {
    [0x85, 2 + more, Low(checksum), High(checksum)] + Zeros(28)
  }

  /** A file named "a", its entries followed by one of a vendor's. */
  function VendorSet(more: nat): (entries: seq<Entry>)
    requires more < 2
    ensures |entries| == 4 && entries[0] == FileEntry(more, 0xA66) && entries[1] == Short(0xC0, 1, 0, 1)
    ensures entries[2] == Short(0xC1, 0, 0x61, 0) && entries[3] == Vendor()
  {
    [FileEntry(more, 0xA66), Short(0xC0, 1, 0, 1), Short(0xC1, 0, 0x61, 0), Vendor()]
  }

  lemma {:induction false} CountedBehindChecksum(e: Entry, n: nat)
    requires 4 <= n <= ENTRY
    ensures Counted(e, {2, 3}, n) == e[..2] + e[4..n]
  {
    if n == 4 {
      assert Counted(e, {2, 3}, 1) == [] + [e[0]] && Counted(e, {2, 3}, 2) == [] + [e[0]] + [e[1]];
      assert Counted(e, {2, 3}, 4) == Counted(e, {2, 3}, 3) == Counted(e, {2, 3}, 2);
    } else {
      CountedBehindChecksum(e, n - 1);
    }
  }

  lemma SumOfFirst(more: nat)
    requires more < 2
    ensures StartSum(HALF16, FileEntry(more, 0xA66), {2, 3}) == 0x448 + 0x10 * more
  {
    var first := FileEntry(more, 0xA66);
    CountedBehindChecksum(first, ENTRY);
    assert first[..2] + first[4..32] == [0x85, 2 + more] + Zeros(28);
    hide SumOf, Counted, Zeros, FileEntry;
    FileSum(more);
  }

  lemma SumOfThree(more: nat, entries: seq<Entry>)
    requires more < 2 && 3 <= |entries|
    requires entries[0] == FileEntry(more, 0xA66) && entries[1] == Short(0xC0, 1, 0, 1)
             && entries[2] == Short(0xC1, 0, 0x61, 0)
    ensures SetSum(entries, 3) == 0xA66 + 0x10 * more
  {
    hide StartSum, SumOf, FileEntry, Short, Zeros;
    SumOfFirst(more);
    InfoSum(more);
    NameSum(more);
    assert SetSum(entries, 1) == 0x448 + 0x10 * more;
    assert SetSum(entries, 2) == 0x5DC + 0x10 * more;
  }

  /** Both numbers of entries have the same sum. */
  lemma SameSums()
    ensures SetSum(VendorSet(1), 4) == 0xA66 == SetSum(VendorSet(0)[..3], 3)
  {
    hide StartSum, SumOf, Zeros, FileEntry, Short, Vendor, VendorSet;
    SumOfThree(0, VendorSet(0)[..3]);
    SumOfThree(1, VendorSet(1));
    VendorSum();
  }

  lemma FirstFields(more: nat)
    requires more < 2
    ensures var m := Meta1Of(FileEntry(more, 0xA66)); m.continuations == 2 + more && m.checksum == 0xA66 && m.attrib == 0
  {
  }

  lemma SecondFields()
    ensures var m := Meta2Of(Short(0xC0, 1, 0, 1));
      m.flags == 1 && m.nameLength == 1 && m.validSize == 0 && m.size == 0 && m.startCluster == Bitmap.CLUSTER_FREE
  {
    var e := Short(0xC0, 1, 0, 1);
    assert e[8..16] == Zeros(8) && e[20..24] == Zeros(4) && e[24..] == Zeros(8);
    hide Zeros, LittleEndian.Decode;
    DecodeZeros(8);
    DecodeZeros(4);
  }

  lemma {:induction false} DecodeZeros(n: nat)
    ensures LittleEndian.Decode(Zeros(n)) == 0
  {
    if n > 0 {
      assert Zeros(n)[1..] == Zeros(n - 1);
      DecodeZeros(n - 1);
    }
  }

  lemma VendorTypes()
    ensures IsFileSet(TypesOf(VendorSet(1))) && IsFileSet(TypesOf(VendorSet(1)[..3]))
  {
    assert IsSplitAt(TypesOf(VendorSet(1)), 3) && IsSplitAt(TypesOf(VendorSet(1)[..3]), 3);
  }

  lemma VendorNodeIsSound(fs: FsInfo, name: seq<u16>)
    requires fs.clusterSize > 0
    ensures IsSound(NodeOf(Meta1Of(FileEntry(1, 0xA66)), Meta2Of(Short(0xC0, 1, 0, 1)), name, fs.timezone), fs)
  {
    hide Meta1Of, Meta2Of, FileEntry, Short, Timestamps.ToUnix;
    FirstFields(1);
    SecondFields();
  }

  lemma VendorSetIsRead(fs: FsInfo)
    requires fs.clusterSize > 0
    ensures ReadAt(VendorSet(1), 0, fs).Parsed?
  {
    hide SetSum, Meta1Of, Meta2Of, FileEntry, Short, Vendor, IsFileSet, NameOf, Padded, NodeOf, IsSound, VendorSet;
    var entries := VendorSet(1);
    assert entries[0..4] == entries;
    assert entries[0][0] == Slots.ENTRY_FILE;
    SameSums();
    VendorTypes();
    FirstFields(1);
    SecondFields();
    VendorNodeIsSound(fs, Padded(NameOf(entries[2..], 1)));
  }

  lemma DamagedVendorSet()
    ensures Damaged(VendorSet(1), 0, 1, 2)[..3] == VendorSet(0)[..3]
  {
    assert FileEntry(1, 0xA66)[1 := 2] == FileEntry(0, 0xA66);
    hide FileEntry, Short, Vendor;
  }

  /** A damaged number of entries that goes unnoticed: three are read as two, and the file seems intact. */
  lemma CountGoesUnnoticed(fs: FsInfo)
    requires fs.clusterSize > 0
    ensures var dir := VendorSet(1); var read := ReadAt(dir, 0, fs);
      && read.Parsed? && dir[0][1] == 3 && |dir| == Announced(dir[0])
      && ReadAt(Damaged(dir, 0, 1, 2), 0, fs) == Parsed(read.node.(continuations := 2))
  {
    var dir := VendorSet(1);
    DamagedVendorSet();
    assert Damaged(dir, 0, 1, 2)[0..3] == Damaged(dir, 0, 1, 2)[..3] && dir[0..3] == dir[..3];
    hide SetSum, Meta1Of, Meta2Of, ReadAt, FileEntry, Short, Vendor, IsFileSet, VendorSet;
    VendorSetIsRead(fs);
    SameSums();
    VendorTypes();
    FirstFields(1);
    SecondFields();
    CountIsExact(dir, 0, fs, 2);
  }
}
