// The checksums of entry sets and of the boot region, and what keeps the latter valid: utils.c, vbr.c and mount.c.

/** The rotate-and-add checksum of exFAT, 16 or 32 bits wide: modulo twice `half`. */
module Checksum {
  import opened Basics

  const HALF16: nat := 0x8000
  const HALF32: nat := 0x8000_0000

  /** Rotated right by a bit, and the byte added: add_checksum_byte. */
  function Next(half: nat, sum: nat, b: byte): (next: nat)
    requires half > 0
    ensures next < 2 * half
  {
    (Rotated(half, sum) + b) % (2 * half)
  }

  function Rotated(half: nat, sum: nat): (r: nat)
    requires half > 0
    ensures sum < 2 * half ==> r < 2 * half
  {
    sum % 2 * half + sum / 2
  }

  lemma RotationLosesNothing(half: nat, a: nat, b: nat)
    requires a < 2 * half && b < 2 * half && half > 0
    requires Rotated(half, a) == Rotated(half, b)
    ensures a == b
  {
  }

  lemma AdditionLosesNothing(half: nat, a: nat, b: nat, x: byte, y: byte)
    requires half == HALF16 || half == HALF32
    requires a < 2 * half && b < 2 * half && (a + x) % (2 * half) == (b + y) % (2 * half)
    ensures x == y ==> a == b
    ensures a == b ==> x == y
  {
  }

  function SumOf(half: nat, sum: nat, bytes: seq<byte>): (s: nat)
    requires half > 0
    ensures sum < 2 * half ==> s < 2 * half
  {
    if bytes == [] then sum else Next(half, SumOf(half, sum, bytes[..|bytes| - 1]), bytes[|bytes| - 1])
  }

  lemma {:induction false} SumAppend(half: nat, sum: nat, first: seq<byte>, second: seq<byte>)
    requires half > 0
    ensures SumOf(half, sum, first + second) == SumOf(half, SumOf(half, sum, first), second)
  {
    if second == [] {
      assert first + second == first;
    } else {
      var most := second[..|second| - 1];
      SumAppend(half, sum, first, most);
      assert (first + second)[..|first + second| - 1] == first + most;
    }
  }

  /** Rotation loses nothing: a step tells sums apart, and bytes. */
  lemma NextInjective(half: nat, a: nat, b: nat, x: byte, y: byte)
    requires (half == HALF16 || half == HALF32) && a < 2 * half && b < 2 * half
    requires Next(half, a, x) == Next(half, b, y)
    ensures x == y ==> a == b
    ensures a == b ==> x == y
  {
    hide Rotated;
    AdditionLosesNothing(half, Rotated(half, a), Rotated(half, b), x, y);
    if x == y {
      RotationLosesNothing(half, a, b);
    }
  }

  lemma {:induction false} SumInjective(half: nat, a: nat, b: nat, bytes: seq<byte>)
    requires (half == HALF16 || half == HALF32) && a < 2 * half && b < 2 * half && a != b
    ensures SumOf(half, a, bytes) != SumOf(half, b, bytes)
  {
    hide Next;
    if bytes != [] {
      var most := bytes[..|bytes| - 1];
      SumInjective(half, a, b, most);
      if SumOf(half, a, bytes) == SumOf(half, b, bytes) {
        NextInjective(half, SumOf(half, a, most), SumOf(half, b, most), bytes[|bytes| - 1], bytes[|bytes| - 1]);
      }
    }
  }

  /** One changed byte changes the sum. */
  lemma OneByteDetected(half: nat, sum: nat, bytes: seq<byte>, k: nat, b: byte)
    requires (half == HALF16 || half == HALF32) && sum < 2 * half && k < |bytes| && b != bytes[k]
    ensures SumOf(half, sum, bytes[k := b]) != SumOf(half, sum, bytes)
  {
    hide Next;
    var before, rest := bytes[..k], bytes[k + 1..];
    assert bytes == before + [bytes[k]] + rest;
    assert bytes[k := b] == before + [b] + rest;
    var s := SumOf(half, sum, before);
    SumAppend(half, sum, before, [bytes[k]]);
    SumAppend(half, sum, before, [b]);
    assert [b][..0] == [] && [bytes[k]][..0] == [];
    assert SumOf(half, s, [b]) == Next(half, s, b) && SumOf(half, s, [bytes[k]]) == Next(half, s, bytes[k]);
    if Next(half, s, b) == Next(half, s, bytes[k]) {
      NextInjective(half, s, s, b, bytes[k]);
    }
    SumInjective(half, Next(half, s, b), Next(half, s, bytes[k]), rest);
    SumAppend(half, sum, before + [bytes[k]], rest);
    SumAppend(half, sum, before + [b], rest);
  }

  /** add_checksum_bytes and exfat_vbr_add_checksum. */
  method AddBytes(half: nat, sum: nat, bytes: seq<byte>) returns (s: nat)
    requires half > 0
    ensures s == SumOf(half, sum, bytes)
  {
    s := sum;
    for i := 0 to |bytes|
      invariant s == SumOf(half, sum, bytes[..i])
    {
      assert bytes[..i + 1][..i] == bytes[..i];
      s := Next(half, s, bytes[i]);
    }
    assert bytes[..|bytes|] == bytes;
  }

  /** The first n bytes but for the skipped ones. */
  function Counted(bytes: seq<byte>, skipped: set<nat>, n: nat): seq<byte>
    requires n <= |bytes|
  {
    if n == 0 then []
    else if n - 1 in skipped then Counted(bytes, skipped, n - 1)
    else Counted(bytes, skipped, n - 1) + [bytes[n - 1]]
  }

  /** Only the skipped bytes may change. */
  lemma {:induction false} CountedIgnoresSkipped(a: seq<byte>, b: seq<byte>, skipped: set<nat>, n: nat)
    requires n <= |a| == |b| && forall i | 0 <= i < n && i !in skipped :: a[i] == b[i]
    ensures Counted(a, skipped, n) == Counted(b, skipped, n)
  {
    if n > 0 {
      CountedIgnoresSkipped(a, b, skipped, n - 1);
    }
  }

  /** A changed byte that is not skipped changes one byte of those counted. */
  lemma {:induction false} CountedDetects(bytes: seq<byte>, skipped: set<nat>, n: nat, k: nat, b: byte)
    returns (at: nat)
    requires k < n <= |bytes| && k !in skipped
    ensures at < |Counted(bytes, skipped, n)| && Counted(bytes, skipped, n)[at] == bytes[k]
    ensures Counted(bytes[k := b], skipped, n) == Counted(bytes, skipped, n)[at := b]
  {
    if k == n - 1 {
      at := |Counted(bytes, skipped, n - 1)|;
      CountedIgnoresSkipped(bytes, bytes[k := b], skipped, n - 1);
    } else {
      at := CountedDetects(bytes, skipped, n - 1, k, b);
    }
  }

  function StartSum(half: nat, bytes: seq<byte>, skipped: set<nat>): (s: nat)
    requires half > 0
    ensures s < 2 * half
  {
    SumOf(half, 0, Counted(bytes, skipped, |bytes|))
  }

  /** exfat_start_checksum and exfat_vbr_start_checksum. */
  method Start(half: nat, bytes: seq<byte>, skipped: set<nat>) returns (s: nat)
    requires half > 0
    ensures s == StartSum(half, bytes, skipped)
  {
    s := 0;
    for i := 0 to |bytes|
      invariant s == SumOf(half, 0, Counted(bytes, skipped, i))
    {
      if i !in skipped {
        var counted := Counted(bytes, skipped, i);
        assert (counted + [bytes[i]])[..|counted|] == counted;
        s := Next(half, s, bytes[i]);
      }
    }
  }
}

/** The boot region of a volume: 12 sectors, the last of which repeats the checksum of the others. */
module BootRegion {
  import opened Basics
  import opened Words
  import opened Checksum
  import FileBytes
  import opened LittleEndian

  const SECTOR: nat := 512
  const VOLUME_STATE: nat := 0x6A
  const ALLOCATED_PERCENT: nat := 0x70
  const SKIPPED: set<nat> := {0x6A, 0x6B, 0x70}

  type Sector = s: seq<byte> | |s| == SECTOR witness seq(SECTOR, _ => 0)

  /** The checksum of the first n sectors. */
  function RegionSum(sectors: seq<Sector>, n: nat): (sum: nat)
    requires 0 < n <= |sectors|
    ensures sum < 2 * HALF32
  {
    if n == 1 then StartSum(HALF32, sectors[0], SKIPPED) else SumOf(HALF32, RegionSum(sectors, n - 1), sectors[n - 1])
  }

  function WordAt(sector: Sector, i: nat): nat
    requires i < SECTOR / 4
  {
    Decode(sector[4 * i..4 * i + 4])
  }

  predicate IsVerified(sectors: seq<Sector>) {
    && |sectors| == 12
    && forall i | 0 <= i < SECTOR / 4 :: WordAt(sectors[11], i) == RegionSum(sectors, 11)
  }

  /** A sector full of one word. */
  function Repeated(sum: nat): (s: Sector) {
    var word := Encode(sum, 4);
    seq(SECTOR, j requires 0 <= j => word[j % 4])
  }

  lemma RepeatedReadsBack(sum: nat, i: nat)
    requires sum < 2 * HALF32 && i < SECTOR / 4
    ensures WordAt(Repeated(sum), i) == sum
  {
    Widths();
    RoundTrip(sum, 4);
    forall k | 0 <= k < 4 ensures Repeated(sum)[4 * i + k] == Encode(sum, 4)[k] {
      assert (4 * i + k) % 4 == k;
    }
    assert Repeated(sum)[4 * i..4 * i + 4] == Encode(sum, 4);
  }

  /** verify_vbr_checksum. */
  method Verify(sectors: seq<Sector>) returns (ok: bool)
    requires |sectors| == 12
    ensures ok == IsVerified(sectors)
  {
    var sum := Start(HALF32, sectors[0], SKIPPED);
    for i := 1 to 11
      invariant sum == RegionSum(sectors, i)
    {
      sum := AddBytes(HALF32, sum, sectors[i]);
    }
    for i := 0 to SECTOR / 4
      invariant forall j | 0 <= j < i :: WordAt(sectors[11], j) == sum
    {
      if WordAt(sectors[11], i) != sum {
        return false;
      }
    }
    return true;
  }

  /** vbr_write: what it writes behind any super block passes verification. */
  method Write(sb: Sector) returns (sectors: seq<Sector>)
    ensures IsVerified(sectors) && sectors[0] == sb
    ensures forall i | 1 <= i < 9 :: sectors[i][510..] == [0x55, 0xAA]
  {
    sectors := [sb];
    var sum := Start(HALF32, sb, SKIPPED);
    var signed: Sector := seq(SECTOR, j => if j == 510 then 0x55 else if j == 511 then 0xAA else 0);
    for i := 0 to 8
      invariant |sectors| == 1 + i && sectors[0] == sb && sum == RegionSum(sectors, 1 + i)
      invariant forall j | 1 <= j < 1 + i :: sectors[j] == signed
    {
      RegionGrows(sectors, signed, 1 + i);
      sectors := sectors + [signed];
      sum := AddBytes(HALF32, sum, signed);
    }
    var empty: Sector := seq(SECTOR, _ => 0);
    for i := 0 to 2
      invariant |sectors| == 9 + i && sectors[0] == sb && sum == RegionSum(sectors, 9 + i)
      invariant forall j | 1 <= j < 9 :: sectors[j] == signed
    {
      RegionGrows(sectors, empty, 9 + i);
      sectors := sectors + [empty];
      sum := AddBytes(HALF32, sum, empty);
    }
    RegionGrows(sectors, Repeated(sum), 11);
    sectors := sectors + [Repeated(sum)];
    forall i | 0 <= i < SECTOR / 4 ensures WordAt(sectors[11], i) == sum {
      RepeatedReadsBack(sum, i);
    }
  }

  lemma {:induction false} RegionGrows(sectors: seq<Sector>, next: Sector, n: nat)
    requires 0 < n <= |sectors|
    ensures RegionSum(sectors + [next], n) == RegionSum(sectors, n)
  {
    if n > 1 {
      RegionGrows(sectors, next, n - 1);
    }
  }

  /** Of the super block, only the skipped bytes can change without the checksum's knowledge. */
  lemma {:induction false} RegionIgnoresSkipped(sectors: seq<Sector>, sb: Sector, n: nat)
    requires 0 < n <= |sectors| && forall i | 0 <= i < SECTOR && i !in SKIPPED :: sb[i] == sectors[0][i]
    ensures RegionSum(sectors[0 := sb], n) == RegionSum(sectors, n)
  {
    if n == 1 {
      CountedIgnoresSkipped(sb, sectors[0], SKIPPED, SECTOR);
    } else {
      RegionIgnoresSkipped(sectors, sb, n - 1);
    }
  }

  lemma SkippedBytesMayChange(sectors: seq<Sector>, sb: Sector)
    requires IsVerified(sectors) && forall i | 0 <= i < SECTOR && i !in SKIPPED :: sb[i] == sectors[0][i]
    ensures IsVerified(sectors[0 := sb])
  {
    RegionIgnoresSkipped(sectors, sb, 11);
  }

  /** Any other single byte of the super block cannot. */
  lemma OtherByteIsDetected(sectors: seq<Sector>, k: nat, b: byte)
    requires IsVerified(sectors) && k < SECTOR && k !in SKIPPED && b != sectors[0][k]
    ensures !IsVerified(sectors[0 := sectors[0][k := b]])
  {
    var after := sectors[0 := sectors[0][k := b]];
    var at := CountedDetects(sectors[0], SKIPPED, SECTOR, k, b);
    OneByteDetected(HALF32, 0, Counted(sectors[0], SKIPPED, SECTOR), at, b);
    RegionTellsApart(sectors, after, 11);
    assert WordAt(after[11], 0) == WordAt(sectors[11], 0);
  }

  lemma {:induction false} RegionTellsApart(a: seq<Sector>, b: seq<Sector>, n: nat)
    requires 0 < n <= |a| == |b| && RegionSum(a, 1) != RegionSum(b, 1) && a[1..] == b[1..]
    ensures RegionSum(a, n) != RegionSum(b, n)
  {
    if n > 1 {
      RegionTellsApart(a, b, n - 1);
      assert a[1..][n - 2] == a[n - 1] && b[1..][n - 2] == b[n - 1];
      SumInjective(HALF32, RegionSum(a, n - 1), RegionSum(b, n - 1), a[n - 1]);
    }
  }

  /** A hundred times the clusters in use, and half a cluster count for rounding. */
  function Hundredfold(total: nat, free: nat): (x: nat)
    requires free <= total
    ensures x <= 100 * total + total / 2
  {
    (total - free) * 100 + total / 2
  }

  function Share(x: nat, total: nat): nat
    requires total > 0
  {
    x / total
  }

  /** The percentage that finalize_super_block stores, computed in 32 bits and cut to 8. */
  function Percent(x: nat, total: nat): nat
    requires 0 < total
  {
    Share(x % 0x1_0000_0000, total) % 0x100
  }

  /** It is the percentage of the clusters in use, rounded, exactly if the computation fits in 32 bits. */
  lemma PercentIsRounded(total: nat, free: nat)
    requires 0 < total < 0x1_0000_0000 && free <= total
    ensures Percent(Hundredfold(total, free), total) == Share(Hundredfold(total, free), total)
       <==> Hundredfold(total, free) < 0x1_0000_0000
    ensures Share(Hundredfold(total, free), total) <= 100
  {
    var x := Hundredfold(total, free);
    hide Hundredfold, Percent, Share;
    Quotients(x, total);
    if x < 0x1_0000_0000 {
      PercentFits(x, total);
    } else {
      PercentWraps(x, total);
    }
  }

  lemma PercentFits(x: nat, total: nat)
    requires 0 < total && x < 0x1_0000_0000 && Share(x, total) <= 100
    ensures Percent(x, total) == Share(x, total)
  {
  }

  lemma PercentWraps(x: nat, total: nat)
    requires 0 < total < 0x1_0000_0000 <= x && Share(x, total) <= 100
    ensures Percent(x, total) != Share(x, total)
  {
    hide Share;
    var y := x % 0x1_0000_0000;
    LowPart(x, total);
    SmallerQuotient(y, x, total);
    SmallByte(Share(y, total));
  }

  lemma LowPart(x: nat, total: nat)
    requires total < 0x1_0000_0000 <= x
    ensures x % 0x1_0000_0000 + total <= x
  {
  }

  lemma SmallByte(q: nat)
    requires q <= 100
    ensures q % 0x100 == q
  {
  }

  lemma Quotients(x: nat, total: nat)
    requires 0 < total && x <= 100 * total + total / 2
    ensures Share(x, total) <= 100
  {
  }

  lemma SmallerQuotient(x: nat, y: nat, d: nat)
    requires d > 0 && x + d <= y
    ensures Share(x, d) < Share(y, d)
  {
  }

  /** A full volume of 42,949,673 clusters is stored as empty. */
  lemma PercentWrapsAround()
    ensures Percent(Hundredfold(42_949_673, 0), 42_949_673) == 0
  {
  }

  /** The super block in memory and the boot region on the device. */
  class Boot {
    var sb: Sector
    var sectors: seq<Sector>
    const readOnly: bool

    predicate Valid()
      reads this
    {
      IsVerified(sectors) && sectors[0] == sb
    }

    /** The super block with some skipped bytes changed is written back. */
    method Commit(changed: Sector)
      requires Valid() && forall i | 0 <= i < SECTOR && i !in SKIPPED :: changed[i] == sb[i]
      modifies `sb, `sectors
      ensures Valid() && sb == changed && sectors == old(sectors)[0 := sb]
    {
      SkippedBytesMayChange(sectors, changed);
      sb := changed;
      sectors := sectors[0 := sb];
    }

    /** exfat_soil_super_block: the volume is marked as mounted. */
    method Soil()
      requires Valid()
      modifies `sb, `sectors
      ensures Valid() && sectors == old(sectors)[0 := sb]
      ensures readOnly ==> sb == old(sb)
      ensures !readOnly ==> sb == WithState(old(sb), SetBit(State(old(sb)), MOUNTED_BIT))
    {
      if !readOnly {
        Commit(WithState(sb, SetBit(State(sb), MOUNTED_BIT)));
      }
    }

    /** finalize_super_block: the mark is taken off, and the percentage updated unless it is 0xFF. */
    method Finalize(total: nat, free: nat)
      requires Valid() && 0 < total < 0x1_0000_0000 && free <= total
      modifies `sb, `sectors
      ensures Valid() && sectors == old(sectors)[0 := sb]
      ensures readOnly ==> sb == old(sb)
      ensures !readOnly ==> sb == WithState(old(sb), ClearBit(State(old(sb)), MOUNTED_BIT))[ALLOCATED_PERCENT :=
        if old(sb[ALLOCATED_PERCENT]) == 0xFF then 0xFF else Percent(Hundredfold(total, free), total)]
    {
      if !readOnly {
        var changed := WithState(sb, ClearBit(State(sb), MOUNTED_BIT));
        if changed[ALLOCATED_PERCENT] != 0xFF {
          changed := changed[ALLOCATED_PERCENT := Percent(Hundredfold(total, free), total)];
        }
        Commit(changed);
      }
    }
  }

  const MOUNTED_BIT: nat := 1

  /** volume_state */
  function State(sb: Sector): nat {
    Decode(sb[VOLUME_STATE..VOLUME_STATE + 2])
  }

  function WithState(sb: Sector, state: nat): (after: Sector)
    ensures forall i | 0 <= i < SECTOR && i !in SKIPPED :: after[i] == sb[i]
    ensures after[ALLOCATED_PERCENT] == sb[ALLOCATED_PERCENT]
  {
    FileBytes.Patch(sb, VOLUME_STATE, Encode(state, 2))
  }

  lemma StateReadsBack(sb: Sector, state: nat)
    requires state < 0x1_0000
    ensures State(WithState(sb, state)) == state
  {
    Widths();
    RoundTrip(state, 2);
    assert WithState(sb, state)[VOLUME_STATE..VOLUME_STATE + 2] == Encode(state, 2);
  }

  /** Marking a volume as mounted, or not, touches no other state bit. */
  lemma MountedMark(sb: Sector, k: nat)
    ensures Bit(State(WithState(sb, SetBit(State(sb), MOUNTED_BIT))), k) <==> k == MOUNTED_BIT || Bit(State(sb), k)
    ensures Bit(State(WithState(sb, ClearBit(State(sb), MOUNTED_BIT))), k) <==> k != MOUNTED_BIT && Bit(State(sb), k)
  {
    Widths();
    Fits(sb[VOLUME_STATE..VOLUME_STATE + 2]);
    assert Pow2(16) == 0x1_0000 by {
      assert Pow2(8) == 256 && Pow2(16) == 256 * Pow2(8);
    }
    BitsFit(State(sb), MOUNTED_BIT, 16);
    StateReadsBack(sb, SetBit(State(sb), MOUNTED_BIT));
    StateReadsBack(sb, ClearBit(State(sb), MOUNTED_BIT));
    UpdateBit(State(sb), MOUNTED_BIT, k);
  }
}
