// Conversion of names between UTF-16 and UTF-8: utf.c. Shifts and masks are written as arithmetic.

module Utf {
  import opened Basics

  /** A character read off the front of a string, with the length of its encoding. */
  datatype Wchar = Wchar(wc: nat, size: nat) | Illegal

  datatype Result<T> = Ok(value: T) | IllegalSequence | NameTooLong

  /** utf16_to_wchar. A low surrogate on its own passes for a character. */
  function FromUtf16(input: seq<u16>): (r: Wchar)
    requires input != []
    ensures r.Wchar? ==> 0 < r.size <= |input| && r.wc < 0x11_0000
  {
    if input[0] / 0x400 == 0x36 then
      if |input| < 2 || input[1] / 0x400 != 0x37 then Illegal
      else
        var high: nat, low: nat := input[0] % 0x400, input[1] % 0x400;
        Wchar(high * 0x400 + low + 0x1_0000, 2)
    else Wchar(input[0], 1)
  }

  /** wchar_to_utf16 */
  function ToUtf16(wc: nat): (units: seq<u16>)
    ensures 1 <= |units| <= 2
  {
    if wc <= 0xFFFF then [wc]
    else [0xD800 + (wc - 0x1_0000) / 0x400 % 0x400, 0xDC00 + (wc - 0x1_0000) % 0x400]
  }

  function Tail(wc: nat, shift: nat): (b: byte)
    requires shift > 0
    ensures b / 0x40 == 2
  {
    0x80 + wc / shift % 0x40
  }

  /** wchar_to_utf8, for characters below 2^31. */
  function ToUtf8(wc: nat): (bytes: seq<byte>)
    requires wc < 0x8000_0000
    ensures 1 <= |bytes| <= 6
  {
    if wc <= 0x7F then [wc]
    else if wc <= 0x7FF then [0xC0 + wc / 0x40, Tail(wc, 1)]
    else if wc <= 0xFFFF then [0xE0 + wc / 0x1000, Tail(wc, 0x40), Tail(wc, 1)]
    else if wc <= 0x1F_FFFF then [0xF0 + wc / 0x4_0000, Tail(wc, 0x1000), Tail(wc, 0x40), Tail(wc, 1)]
    else if wc <= 0x3FF_FFFF then
      [0xF8 + wc / 0x100_0000, Tail(wc, 0x4_0000), Tail(wc, 0x1000), Tail(wc, 0x40), Tail(wc, 1)]
    else
      [0xFC + wc / 0x4000_0000, Tail(wc, 0x100_0000), Tail(wc, 0x4_0000), Tail(wc, 0x1000), Tail(wc, 0x40), Tail(wc, 1)]
  }

  /** The length of an encoding, from its first byte; 0 for none. */
  function SizeOf(first: byte): (size: nat)
    ensures size <= 6
  {
    if first < 0x80 then 1
    else if first / 0x20 == 6 then 2
    else if first / 0x10 == 14 then 3
    else if first / 8 == 30 then 4
    else if first / 4 == 62 then 5
    else if first / 2 == 126 then 6
    else 0
  }

  function FirstBits(first: byte): nat {
    match SizeOf(first)
    case 1 => first
    case 2 => first % 0x20
    case 3 => first % 0x10
    case 4 => first % 8
    case 5 => first % 4
    case 6 => first % 2
    case _ => 0
  }

  /** The bits of the first n bytes of an encoding, 6 from every byte but the first. */
  function Bits(input: seq<byte>, n: nat): nat
    requires 0 < n <= |input|
  {
    if n == 1 then FirstBits(input[0]) else Bits(input, n - 1) * 0x40 + input[n - 1] % 0x40
  }

  /** utf8_to_wchar */
  function FromUtf8(input: seq<byte>): (r: Wchar)
    requires input != []
    ensures r.Wchar? ==> 0 < r.size <= |input|
  {
    var size := SizeOf(input[0]);
    if size == 0 || |input| < size || exists i | 1 <= i < size :: input[i] / 0x40 != 2 then Illegal
    else Wchar(Bits(input, size), size)
  }

  /** Reading on over a tail byte puts the bits of the character back together. */
  lemma TailBits(input: seq<byte>, n: nat, wc: nat, shift: nat)
    requires 0 < n < |input| && shift > 0 && input[n] == Tail(wc, shift) && Bits(input, n) == wc / shift / 0x40
    ensures Bits(input, n + 1) == wc / shift
  {
  }

  lemma Shifts(wc: nat)
    ensures wc / 1 == wc && wc / 0x40 / 0x40 == wc / 0x1000 && wc / 0x1000 / 0x40 == wc / 0x4_0000
    ensures wc / 0x4_0000 / 0x40 == wc / 0x100_0000 && wc / 0x100_0000 / 0x40 == wc / 0x4000_0000
  {
  }

  lemma OneByte(input: seq<byte>)
    requires input != []
    ensures Bits(input, 1) == FirstBits(input[0])
  {
  }

  lemma EncodedBits(wc: nat, input: seq<byte>)
    requires wc < 0x8000_0000 && ToUtf8(wc) <= input
    ensures Bits(input, |ToUtf8(wc)|) == wc
  {
    hide Tail, SizeOf, FirstBits, Bits;
    Shifts(wc);
    FirstByte(wc);
    OneByte(input);
    var size := |ToUtf8(wc)|;
    if size == 6 { TailBits(input, 1, wc, 0x100_0000); }
    if size >= 5 { TailBits(input, size - 4, wc, 0x4_0000); }
    if size >= 4 { TailBits(input, size - 3, wc, 0x1000); }
    if size >= 3 { TailBits(input, size - 2, wc, 0x40); }
    if size >= 2 { TailBits(input, size - 1, wc, 1); }
  }

  /** A character survives its encoding in UTF-8, whatever follows. */
  lemma Utf8RoundTrip(wc: nat, rest: seq<byte>)
    requires wc < 0x8000_0000
    ensures FromUtf8(ToUtf8(wc) + rest) == Wchar(wc, |ToUtf8(wc)|)
  {
    hide ToUtf8, SizeOf, FirstBits, Bits;
    var input := ToUtf8(wc) + rest;
    FirstByte(wc);
    EncodedBits(wc, input);
    TailBytes(wc);
    assert forall i | 0 <= i < |ToUtf8(wc)| :: input[i] == ToUtf8(wc)[i];
  }

  lemma TailBytes(wc: nat)
    requires wc < 0x8000_0000
    ensures forall i | 1 <= i < |ToUtf8(wc)| :: ToUtf8(wc)[i] / 0x40 == 2
  {
  }

  /** The first byte tells the length, and holds the high bits. */
  lemma FirstByte(wc: nat)
    requires wc < 0x8000_0000
    ensures SizeOf(ToUtf8(wc)[0]) == |ToUtf8(wc)|
    ensures FirstBits(ToUtf8(wc)[0]) == match |ToUtf8(wc)|
      case 1 => wc case 2 => wc / 0x40 case 3 => wc / 0x1000 case 4 => wc / 0x4_0000
      case 5 => wc / 0x100_0000 case _ => wc / 0x4000_0000
  {
    hide Tail;
  }

  /** The units that a character was read from are the ones it is written as. */
  lemma Utf16RoundTrip(input: seq<u16>)
    requires input != [] && FromUtf16(input).Wchar?
    ensures ToUtf16(FromUtf16(input).wc) == input[..FromUtf16(input).size]
  {
  }

  /** A character takes at most three bytes for each of its units. */
  lemma ThreeBytesAUnit(input: seq<u16>)
    requires input != [] && FromUtf16(input).Wchar?
    ensures |ToUtf8(FromUtf16(input).wc)| <= 3 * FromUtf16(input).size
  {
  }

  /** What is already written, and the outcome of the rest. */
  function Behind<T>(written: seq<T>, rest: Result<seq<T>>): Result<seq<T>> {
    match rest
    case Ok(more) => Ok(written + more)
    case error => error
  }

  /** The end of a conversion: the NUL, if there is room. */
  function Ended(room: nat): Result<seq<u16>> {
    if room == 0 then NameTooLong else Ok([0])
  }

  /** utf16_to_utf8, with the terminating NUL, in a buffer of `room` bytes. The first error met is the one reported. */
  function Utf8Of(input: seq<u16>, room: nat): Result<seq<byte>>
  {
    if input == [] then if room == 0 then NameTooLong else Ok([0])
    else match FromUtf16(input)
      case Illegal => IllegalSequence
      case Wchar(wc, size) =>
        var bytes := ToUtf8(wc);
        if |bytes| > room then NameTooLong
        else Behind(bytes, if wc == 0 then Ok([]) else Utf8Of(input[size..], room - |bytes|))
  }

  /** utf8_to_utf16, with the terminating NUL, in a buffer of `room` units. */
  function Utf16Of(input: seq<byte>, room: nat): Result<seq<u16>>
  {
    if input == [] then Ended(room)
    else match FromUtf8(input)
      case Illegal => IllegalSequence
      case Wchar(wc, size) =>
        var units := ToUtf16(wc);
        if |units| > room then NameTooLong
        else Behind(units, if wc == 0 then Ended(room - |units|) else Utf16Of(input[size..], room - |units|))
  }

  predicate HasNul(input: seq<u16>) {
    exists i | 0 <= i < |input| :: input[i] == 0
  }

  lemma Utf8Step(name: seq<u16>, room: nat)
    requires name != [] && !HasNul(name) && Utf8Of(name, room).Ok?
    ensures FromUtf16(name).Wchar? && FromUtf16(name).wc != 0
    ensures var bytes, size := ToUtf8(FromUtf16(name).wc), FromUtf16(name).size;
      && |bytes| <= room && !HasNul(name[size..]) && Utf8Of(name[size..], room - |bytes|).Ok?
      && Utf8Of(name, room).value == bytes + Utf8Of(name[size..], room - |bytes|).value
  {
  }

  lemma Utf16Step(wc: nat, rest: seq<byte>, room: nat)
    requires 0 < wc < 0x8000_0000 && |ToUtf16(wc)| <= room && Utf16Of(rest, room - |ToUtf16(wc)|).Ok?
    ensures Utf16Of(ToUtf8(wc) + rest, room) == Ok(ToUtf16(wc) + Utf16Of(rest, room - |ToUtf16(wc)|).value)
  {
    hide ToUtf8, ToUtf16, FromUtf8;
    Utf8RoundTrip(wc, rest);
    assert (ToUtf8(wc) + rest)[|ToUtf8(wc)|..] == rest;
  }

  lemma EmptyName(room8: nat, room16: nat)
    requires Utf8Of([], room8).Ok? && 0 < room16
    ensures Utf8Of([], room8) == Ok([0]) && Utf16Of([], room16) == Ok([0])
  {
  }

  /** A name in UTF-16 without NULs comes back unchanged from UTF-8, given room, if it can be converted at all. */
  lemma {:induction false} NameRoundTrip(name: seq<u16>, room8: nat, room16: nat)
    requires !HasNul(name) && Utf8Of(name, room8).Ok? && |name| < room16
    ensures var bytes := Utf8Of(name, room8).value;
      && bytes != [] && bytes[|bytes| - 1] == 0
      && Utf16Of(bytes[..|bytes| - 1], room16) == Ok(name + [0])
    decreases |name|
  {
    hide ToUtf8, ToUtf16, HasNul, Utf8Of, Utf16Of, FromUtf16;
    if name == [] {
      EmptyName(room8, room16);
      assert Utf8Of([], room8).value[..0] == [];
      assert name + [0] == [0];
    } else {
      Utf8Step(name, room8);
      Utf16RoundTrip(name);
      var wc, size := FromUtf16(name).wc, FromUtf16(name).size;
      var bytes := ToUtf8(wc);
      var more := Utf8Of(name[size..], room8 - |bytes|).value;
      NameRoundTrip(name[size..], room8 - |bytes|, room16 - size);
      Utf16Step(wc, more[..|more| - 1], room16);
      assert (bytes + more)[..|bytes + more| - 1] == bytes + more[..|more| - 1];
      assert name[..size] + (name[size..] + [0]) == name + [0];
    }
  }

  /** Three bytes for every unit and one for the NUL are always enough: no name of 255 units is too long for 766 bytes. */
  lemma {:induction false} NamesFit(name: seq<u16>, room: nat)
    requires 3 * |name| < room
    ensures !Utf8Of(name, room).NameTooLong?
    decreases |name|
  {
    hide ToUtf8;
    if name != [] && FromUtf16(name).Wchar? {
      ThreeBytesAUnit(name);
      NamesFit(name[FromUtf16(name).size..], room - |ToUtf8(FromUtf16(name).wc)|);
    }
  }

  lemma BehindTwice<T>(first: seq<T>, second: seq<T>, rest: Result<seq<T>>)
    ensures Behind(first, Behind(second, rest)) == Behind(first + second, rest)
  {
    if rest.Ok? {
      assert first + (second + rest.value) == first + second + rest.value;
    }
  }

  lemma BehindNothing<T>(rest: Result<seq<T>>)
    ensures Behind([], rest) == rest
  {
    if rest.Ok? {
      assert [] + rest.value == rest.value;
    }
  }

  /** The outcome of a conversion into a buffer: its first `value` elements hold the result. */
  ghost predicate IsOutcome<T>(r: Result<nat>, buffer: seq<T>, expected: Result<seq<T>>) {
    match expected
    case Ok(result) => r == Ok(|result|) && |result| <= |buffer| && buffer[..|result|] == result
    case IllegalSequence => r == IllegalSequence
    case NameTooLong => r == NameTooLong
  }

  /** exfat_utf16_to_utf8 */
  method Utf16ToUtf8(output: array<byte>, input: seq<u16>) returns (r: Result<nat>)
    modifies output
    ensures IsOutcome(r, output[..], Utf8Of(input, output.Length))
  {
    hide ToUtf8, FromUtf16;
    var i: nat, o: nat := 0, 0;
    assert input[0..] == input;
    BehindNothing(Utf8Of(input, output.Length));
    while i < |input|
      invariant i <= |input| && o <= output.Length
      invariant Behind(output[..o], Utf8Of(input[i..], output.Length - o)) == Utf8Of(input, output.Length)
    {
      var c := FromUtf16(input[i..]);
      if c.Illegal? {
        return IllegalSequence;
      }
      var bytes := ToUtf8(c.wc);
      if |bytes| > output.Length - o {
        return NameTooLong;
      }
      ghost var written, rest := output[..o], Utf8Of(input[i + c.size..], output.Length - (o + |bytes|));
      forall j | 0 <= j < |bytes| {
        output[o + j] := bytes[j];
      }
      assert output[..o + |bytes|] == written + bytes;
      assert input[i..][c.size..] == input[i + c.size..];
      i, o := i + c.size, o + |bytes|;
      if c.wc == 0 {
        return Ok(o);
      }
      BehindTwice(written, bytes, rest);
    }
    if o >= output.Length {
      return NameTooLong;
    }
    output[o] := 0;
    r := Ok(o + 1);
  }

  /** exfat_utf8_to_utf16 */
  method Utf8ToUtf16(output: array<u16>, input: seq<byte>) returns (r: Result<nat>)
    modifies output
    ensures IsOutcome(r, output[..], Utf16Of(input, output.Length))
  {
    hide ToUtf16, FromUtf8;
    var i: nat, o: nat := 0, 0;
    assert input[0..] == input;
    BehindNothing(Utf16Of(input, output.Length));
    while i < |input|
      invariant i <= |input| && o <= output.Length
      invariant Behind(output[..o], Utf16Of(input[i..], output.Length - o)) == Utf16Of(input, output.Length)
    {
      var c := FromUtf8(input[i..]);
      if c.Illegal? {
        return IllegalSequence;
      }
      var units := ToUtf16(c.wc);
      if |units| > output.Length - o {
        return NameTooLong;
      }
      ghost var written, rest := output[..o], Utf16Of(input[i + c.size..], output.Length - (o + |units|));
      forall j | 0 <= j < |units| {
        output[o + j] := units[j];
      }
      assert output[..o + |units|] == written + units;
      assert input[i..][c.size..] == input[i + c.size..];
      i, o := i + c.size, o + |units|;
      if c.wc == 0 {
        BehindTwice(written, units, Ended(output.Length - o));
        assert Utf16Of(input[i - c.size..], output.Length - (o - |units|)) == Behind(units, Ended(output.Length - o));
        break;
      }
      BehindTwice(written, units, rest);
    }
    assert Behind(output[..o], Ended(output.Length - o)) == Utf16Of(input, output.Length);
    if o >= output.Length {
      return NameTooLong;
    }
    output[o] := 0;
    r := Ok(o + 1);
  }
}
