// The CRC of partition tables: init_crc32_table and crc32 of usb_scsi.cpp.

/** The CRC of section 5.3.2 of the UEFI specification, bit by bit, and the table that computes it byte by byte. */
module Crc32 {
  type Bits = bv32

  const POLYNOMIAL: Bits := 0xEDB8_8320

  function Xor(a: Bits, b: Bits): Bits {
    a ^ b
  }

  function Low(c: Bits): (low: Bits)
    ensures low < 0x100
  {
    c & 0xFF
  }

  function High(c: Bits): Bits {
    c & 0xFFFF_FF00
  }

  /** One bit of polynomial division. */
  function Step(c: Bits): Bits {
    if c & 1 == 1 then Xor(POLYNOMIAL, c >> 1) else c >> 1
  }

  function Steps(c: Bits, n: nat): Bits {
    if n == 0 then c else Step(Steps(c, n - 1))
  }

  function Divided(c: Bits, b: bv8): Bits {
    Steps(Xor(c, b as Bits), 8)
  }

  /** The definition: every byte is added into the low end of the remainder, and divided out bit by bit. */
  function Remainder(c: Bits, message: seq<bv8>): Bits {
    if message == [] then c
    else Divided(Remainder(c, message[..|message| - 1]), message[|message| - 1])
  }

  lemma XorAndShift(a: Bits, b: Bits)
    ensures (a ^ b) >> 1 == (a >> 1) ^ (b >> 1)
  {
  }

  lemma XorAndLowBit(a: Bits, b: Bits)
    ensures (a ^ b) & 1 == 1 <==> (a & 1 == 1) != (b & 1 == 1)
  {
  }

  lemma XorTwice(p: Bits, a: Bits, b: Bits)
    ensures (p ^ a) ^ (p ^ b) == a ^ b && (p ^ a) ^ b == p ^ (a ^ b) && a ^ (p ^ b) == p ^ (a ^ b)
  {
  }

  lemma StepIsLinear(a: Bits, b: Bits)
    ensures Step(Xor(a, b)) == Xor(Step(a), Step(b))
  {
    XorAndShift(a, b);
    XorAndLowBit(a, b);
    XorTwice(POLYNOMIAL, a >> 1, b >> 1);
  }

  lemma {:induction false} StepsAreLinear(a: Bits, b: Bits, n: nat)
    ensures Steps(Xor(a, b), n) == Xor(Steps(a, n), Steps(b, n))
  {
    hide Step, Xor;
    if n > 0 {
      StepsAreLinear(a, b, n - 1);
      StepIsLinear(Steps(a, n - 1), Steps(b, n - 1));
    }
  }

  /** Low bits that are zero are only shifted out. */
  lemma ZerosAreShifted(c: Bits)
    requires Low(c) == 0
    ensures Steps(c, 8) == c >> 8
  {
    assert Steps(c, 1) == c >> 1;
    assert Steps(c, 2) == c >> 2;
    assert Steps(c, 3) == c >> 3;
    assert Steps(c, 4) == c >> 4;
    assert Steps(c, 5) == c >> 5;
    assert Steps(c, 6) == c >> 6;
    assert Steps(c, 7) == c >> 7;
  }

  lemma LowAndHigh(c: Bits)
    ensures Xor(Low(c), High(c)) == c
  {
  }

  lemma LowOfHigh(c: Bits)
    ensures Low(High(c)) == 0
  {
  }

  lemma HighShifted(c: Bits)
    ensures High(c) >> 8 == c >> 8
  {
  }

  /** Eight steps at once: the table for the low byte, a shift for the rest. */
  lemma EightSteps(c: Bits)
    ensures Steps(c, 8) == Xor(Steps(Low(c), 8), c >> 8)
  {
    hide Steps, Xor, Low, High;
    LowAndHigh(c);
    LowOfHigh(c);
    HighShifted(c);
    StepsAreLinear(Low(c), High(c), 8);
    ZerosAreShifted(High(c));
  }

  lemma ShiftPastByte(c: Bits, b: bv8)
    ensures Xor(c, b as Bits) >> 8 == c >> 8
  {
  }

  lemma StepInjective(a: Bits, b: Bits)
    requires Step(a) == Step(b)
    ensures a == b
  {
  }

  lemma {:induction false} StepsInjective(a: Bits, b: Bits, n: nat)
    requires Steps(a, n) == Steps(b, n)
    ensures a == b
  {
    hide Step;
    if n > 0 {
      StepInjective(Steps(a, n - 1), Steps(b, n - 1));
      StepsInjective(a, b, n - 1);
    }
  }

  lemma XorInjective(a: Bits, b: Bits, x: bv8, y: bv8)
    requires Xor(a, x as Bits) == Xor(b, y as Bits)
    ensures x == y ==> a == b
    ensures a == b ==> x == y
  {
  }

  lemma DividedInjective(a: Bits, b: Bits, x: bv8, y: bv8)
    requires Divided(a, x) == Divided(b, y)
    ensures x == y ==> a == b
    ensures a == b ==> x == y
  {
    hide Steps, Xor;
    StepsInjective(Xor(a, x as Bits), Xor(b, y as Bits), 8);
    XorInjective(a, b, x, y);
  }

  /** One changed byte changes the remainder. */
  lemma {:induction false} OneByteDetected(c: Bits, message: seq<bv8>, k: nat, b: bv8)
    requires k < |message| && b != message[k]
    ensures Remainder(c, message[k := b]) != Remainder(c, message)
  {
    hide Divided;
    var n := |message| - 1;
    var changed := message[k := b];
    if k < n {
      OneByteDetected(c, message[..n], k, b);
      assert changed[..n] == message[..n][k := b];
    } else {
      assert changed[..n] == message[..n];
    }
    if Divided(Remainder(c, changed[..n]), changed[n]) == Divided(Remainder(c, message[..n]), message[n]) {
      DividedInjective(Remainder(c, changed[..n]), Remainder(c, message[..n]), changed[n], message[n]);
    }
  }

  predicate IsTable(table: seq<Bits>) {
    |table| == 256 && forall i: nat | i < 256 :: table[i] == Steps(i as Bits, 8)
  }

  /** init_crc32_table */
  method InitTable(table: array<Bits>)
    requires table.Length == 256
    modifies table
    ensures IsTable(table[..])
  {
    hide Step;
    for i := 0 to 256
      invariant forall k: nat | k < i :: table[k] == Steps(k as Bits, 8)
    {
      var c := i as Bits;
      for j := 0 to 8
        invariant c == Steps(i as Bits, j)
      {
        c := Step(c);
      }
      table[i] := c;
    }
  }

  /** crc32: looking bytes up in the table computes the remainder. */
  method Crc(table: array<Bits>, crc: Bits, buf: seq<bv8>) returns (result: Bits)
    requires IsTable(table[..])
    ensures result == Xor(0xFFFF_FFFF, Remainder(Xor(0xFFFF_FFFF, crc), buf))
  {
    hide Xor, Steps, Low;
    var start := Xor(0xFFFF_FFFF, crc);
    var c := start;
    for i := 0 to |buf|
      invariant c == Remainder(start, buf[..i])
    {
      var mixed := Xor(c, buf[i] as Bits);
      EightSteps(mixed);
      ShiftPastByte(c, buf[i]);
      c := Xor(LookUp(table, Low(mixed)), c >> 8);
      assert buf[..i + 1][..i] == buf[..i];
    }
    assert buf[..|buf|] == buf;
    result := Xor(0xFFFF_FFFF, c);
  }

  function LookUp(table: array<Bits>, c: Bits): (entry: Bits)
    requires IsTable(table[..]) && c < 0x100
    reads table
    ensures entry == Steps(c, 8)
  {
    assert table[..][c as nat] == Steps((c as nat) as Bits, 8);
    table[c as nat]
  }
}
