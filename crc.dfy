/** The two checksums of Maxim Application Note 27 that 1-Wire devices use:
    the Dow CRC-8 (x^8 + x^5 + x^4 + 1, shifted least significant bit first,
    so the feedback constant is 0x8C) and the CRC-16 (x^16 + x^15 + x^2 + 1,
    feedback constant 0xA001).  Each is defined once here as a shift
    register; the loops of the C implementation are methods proved to
    compute exactly that register. */
module OneWireCrc {
  import opened OneWireCodec

  type word = bv16

  // ---------------------------------------------------------------- CRC-8

  /** One shift of the CRC-8 register with no input bit. */
  function Crc8Round(z: byte): byte {
    if z & 1 == 1 then (z >> 1) ^ 0x8C else z >> 1
  }

  /** `k` shifts of the CRC-8 register. */
  function Crc8Rounds(z: byte, k: nat): byte {
    if k == 0 then z else Crc8Round(Crc8Rounds(z, k - 1))
  }

  /** Eight shifts: what one data byte does once it is folded into the register. */
  function Crc8Shift(z: byte): byte {
    Crc8Rounds(z, 8)
  }

  /** The register after absorbing byte `b`. */
  function Crc8Update(crc: byte, b: byte): byte {
    Crc8Shift(crc ^ b)
  }

  /** The Dow CRC-8 of a byte string, starting from 0. */
  function Crc8(s: seq<byte>): byte
    decreases |s|
  {
    if s == [] then 0 else Crc8Update(Crc8(s[..|s| - 1]), s[|s| - 1])
  }

  /** Exclusive or of two registers, named so that the linearity of the
      register can be stated and used as an equation between terms. */
  function Xor(a: byte, b: byte): byte {
    a ^ b
  }

  lemma Crc8RoundLinear(a: byte, b: byte)
    ensures Crc8Round(Xor(a, b)) == Xor(Crc8Round(a), Crc8Round(b))
  {
  }

  lemma {:induction false} Crc8RoundsLinear(a: byte, b: byte, k: nat)
    ensures Crc8Rounds(Xor(a, b), k) == Xor(Crc8Rounds(a, k), Crc8Rounds(b, k))
  {
    if k > 0 {
      Crc8RoundsLinear(a, b, k - 1);
      Crc8RoundLinear(Crc8Rounds(a, k - 1), Crc8Rounds(b, k - 1));
    }
  }

  /** The register is linear over GF(2). */
  lemma Crc8ShiftLinear(a: byte, b: byte)
    ensures Crc8Shift(Xor(a, b)) == Xor(Crc8Shift(a), Crc8Shift(b))
  {
    Crc8RoundsLinear(a, b, 8);
  }

  lemma {:induction false} Crc8RoundsZero(z: byte, k: nat)
    ensures Crc8Rounds(z, k) == 0 <==> z == 0
  {
    if k > 0 {
      Crc8RoundsZero(z, k - 1);
    }
  }

  lemma XorZero(a: byte, b: byte)
    ensures Xor(a, b) == 0 <==> a == b
  {
  }

  /** Only the zero register shifts to zero. */
  lemma Crc8ShiftInjective(a: byte, b: byte)
    ensures Crc8Shift(a) == Crc8Shift(b) <==> a == b
  {
    Crc8ShiftLinear(a, b);
    Crc8RoundsZero(Xor(a, b), 8);
    XorZero(a, b);
    XorZero(Crc8Shift(a), Crc8Shift(b));
  }

  /** One pass of the inner loop of the bitwise OW_Crc8: the register
      shifts right and takes 0x8C when its outgoing bit differs from the
      input bit. */
  function Crc8BitStep(crc: byte, inbyte: byte): byte {
    var mix := (crc ^ inbyte) & 0x01;
    if mix == 1 then (crc >> 1) ^ 0x8C else crc >> 1
  }

  /** The input byte after `k` right shifts. */
  function Consumed(b: byte, k: nat): byte {
    if k == 0 then b else Consumed(b, k - 1) >> 1
  }

  /** The state of the inner loop after `i` passes: the exclusive or of the
      register and the unconsumed input bits is `i` shifts of the value
      the two started with. */
  ghost predicate Absorbing(crc: byte, inbyte: byte, crc0: byte, inbyte0: byte, i: nat) {
    crc ^ inbyte == Crc8Rounds(crc0 ^ inbyte0, i) && inbyte == Consumed(inbyte0, i)
  }

  lemma Crc8BitStepXor(crc: byte, inbyte: byte)
    ensures Crc8BitStep(crc, inbyte) ^ (inbyte >> 1) == Crc8Round(crc ^ inbyte)
  {
  }

  lemma AbsorbStep(crc: byte, inbyte: byte, crc0: byte, inbyte0: byte, i: nat)
    requires Absorbing(crc, inbyte, crc0, inbyte0, i)
    ensures Absorbing(Crc8BitStep(crc, inbyte), inbyte >> 1, crc0, inbyte0, i + 1)
  {
    assert Consumed(inbyte0, i + 1) == inbyte >> 1;
    assert Crc8Rounds(crc0 ^ inbyte0, i + 1) == Crc8Round(crc ^ inbyte);
    Crc8BitStepXor(crc, inbyte);
  }

  lemma ConsumedEight(b: byte)
    ensures Consumed(b, 8) == 0
  {
    assert Consumed(b, 1) == b >> 1;
    assert Consumed(b, 2) == b >> 2;
    assert Consumed(b, 4) == b >> 4;
    assert Consumed(b, 6) == b >> 6;
  }

  /** After eight passes every input bit has been consumed, so the register
      alone holds the eight-shift value. */
  lemma AbsorbDone(crc: byte, inbyte: byte, crc0: byte, inbyte0: byte)
    requires Absorbing(crc, inbyte, crc0, inbyte0, 8)
    ensures crc == Crc8Update(crc0, inbyte0)
  {
    ConsumedEight(inbyte0);
  }

  /** The tiny 2x16 table of Arjen Lentz: the low half holds the register
      after shifting a low nibble, the high half after shifting a high one. */
  const DSCRC2X16_TABLE: seq<byte> := [
    0x00, 0x5E, 0xBC, 0xE2, 0x61, 0x3F, 0xDD, 0x83,
    0xC2, 0x9C, 0x7E, 0x20, 0xA3, 0xFD, 0x1F, 0x41,
    0x00, 0x9D, 0x23, 0xBE, 0x46, 0xDB, 0x65, 0xF8,
    0x8C, 0x11, 0xAF, 0x32, 0xCA, 0x57, 0xE9, 0x74
  ]

  // The register after shifting each nibble, evaluated on constants.
  lemma LowNibbleShifts()
    ensures Crc8Shift(0x00) == 0x00
      && Crc8Shift(0x01) == 0x5E
      && Crc8Shift(0x02) == 0xBC
      && Crc8Shift(0x03) == 0xE2
      && Crc8Shift(0x04) == 0x61
      && Crc8Shift(0x05) == 0x3F
      && Crc8Shift(0x06) == 0xDD
      && Crc8Shift(0x07) == 0x83
  {
  }

  lemma LowNibbleShifts2()
    ensures Crc8Shift(0x08) == 0xC2
      && Crc8Shift(0x09) == 0x9C
      && Crc8Shift(0x0A) == 0x7E
      && Crc8Shift(0x0B) == 0x20
      && Crc8Shift(0x0C) == 0xA3
      && Crc8Shift(0x0D) == 0xFD
      && Crc8Shift(0x0E) == 0x1F
      && Crc8Shift(0x0F) == 0x41
  {
  }

  lemma HighNibbleShifts()
    ensures Crc8Shift(0x00) == 0x00
      && Crc8Shift(0x10) == 0x9D
      && Crc8Shift(0x20) == 0x23
      && Crc8Shift(0x30) == 0xBE
      && Crc8Shift(0x40) == 0x46
      && Crc8Shift(0x50) == 0xDB
      && Crc8Shift(0x60) == 0x65
      && Crc8Shift(0x70) == 0xF8
  {
  }

  lemma HighNibbleShifts2()
    ensures Crc8Shift(0x80) == 0x8C
      && Crc8Shift(0x90) == 0x11
      && Crc8Shift(0xA0) == 0xAF
      && Crc8Shift(0xB0) == 0x32
      && Crc8Shift(0xC0) == 0xCA
      && Crc8Shift(0xD0) == 0x57
      && Crc8Shift(0xE0) == 0xE9
      && Crc8Shift(0xF0) == 0x74
  {
  }

  lemma TableEntryLow(n: byte)
    requires n < 16
    ensures DSCRC2X16_TABLE[n as int] == Crc8Shift(n)
  {
    LowNibbleShifts();
    LowNibbleShifts2();
    if n == 0 {}
    else if n == 1 {}
    else if n == 2 {}
    else if n == 3 {}
    else if n == 4 {}
    else if n == 5 {}
    else if n == 6 {}
    else if n == 7 {}
    else if n == 8 {}
    else if n == 9 {}
    else if n == 10 {}
    else if n == 11 {}
    else if n == 12 {}
    else if n == 13 {}
    else if n == 14 {}
    else {}
  }

  lemma TableEntryHigh(n: byte)
    requires n < 16
    ensures DSCRC2X16_TABLE[16 + n as int] == Crc8Shift(n << 4)
  {
    HighNibbleShifts();
    HighNibbleShifts2();
    if n == 0 { assert n << 4 == 0x00; }
    else if n == 1 { assert n << 4 == 0x10; }
    else if n == 2 { assert n << 4 == 0x20; }
    else if n == 3 { assert n << 4 == 0x30; }
    else if n == 4 { assert n << 4 == 0x40; }
    else if n == 5 { assert n << 4 == 0x50; }
    else if n == 6 { assert n << 4 == 0x60; }
    else if n == 7 { assert n << 4 == 0x70; }
    else if n == 8 { assert n << 4 == 0x80; }
    else if n == 9 { assert n << 4 == 0x90; }
    else if n == 10 { assert n << 4 == 0xA0; }
    else if n == 11 { assert n << 4 == 0xB0; }
    else if n == 12 { assert n << 4 == 0xC0; }
    else if n == 13 { assert n << 4 == 0xD0; }
    else if n == 14 { assert n << 4 == 0xE0; }
    else { assert n << 4 == 0xF0; }
  }

  lemma NibbleSplit(x: byte, lo: byte, hi: byte)
    requires lo == x & 0x0F && hi == (x >> 4) & 0x0F
    ensures x == Xor(lo, hi << 4)
  {
  }

  /** The table lookup of the fast OW_Crc8 is the eight-shift register. */
  lemma TableLookup(x: byte)
    ensures DSCRC2X16_TABLE[(x & 0x0F) as int] ^ DSCRC2X16_TABLE[16 + ((x >> 4) & 0x0F) as int] == Crc8Shift(x)
  {
    var lo := x & 0x0F;
    var hi := (x >> 4) & 0x0F;
    NibbleSplit(x, lo, hi);
    TableEntryLow(lo);
    TableEntryHigh(hi);
    Crc8ShiftLinear(lo, hi << 4);
  }

  /** OW_Crc8, the bitwise variant (the default build): eight shifts per
      byte, folding in 0x8C whenever the outgoing bit differs from the input bit. */
  method Crc8Bitwise(addr: array<byte>, len: nat) returns (crc: byte)
    requires len <= addr.Length
    ensures crc == Crc8(addr[..len])
  {
    crc := 0;
    var n := 0;
    while n < len
      invariant n <= len
      invariant crc == Crc8(addr[..n])
    {
      crc := AbsorbBits(crc, addr[n]);
      assert addr[..n + 1][..n] == addr[..n];
      n := n + 1;
    }
  }

  /** The inner loop of the bitwise OW_Crc8, on one input byte. */
  method AbsorbBits(crc0: byte, inbyte0: byte) returns (crc: byte)
    ensures crc == Crc8Update(crc0, inbyte0)
  {
    crc := crc0;
    var inbyte := inbyte0;
    for i := 0 to 8
      invariant Absorbing(crc, inbyte, crc0, inbyte0, i)
    {
      AbsorbStep(crc, inbyte, crc0, inbyte0, i);
      crc := Crc8BitStep(crc, inbyte);
      inbyte := inbyte >> 1;
    }
    AbsorbDone(crc, inbyte, crc0, inbyte0);
  }

  /** OW_Crc8, the table variant (ONEWIRE_CRC8_TABLE). */
  method Crc8Table(addr: array<byte>, len: nat) returns (crc: byte)
    requires len <= addr.Length
    ensures crc == Crc8(addr[..len])
  {
    crc := 0;
    var n := 0;
    while n < len
      invariant n <= len
      invariant crc == Crc8(addr[..n])
    {
      crc := addr[n] ^ crc;
      TableLookup(crc);
      crc := DSCRC2X16_TABLE[(crc & 0x0F) as int] ^ DSCRC2X16_TABLE[16 + ((crc >> 4) & 0x0F) as int];
      assert addr[..n + 1][..n] == addr[..n];
      n := n + 1;
    }
  }

  /** A byte string ending in its own CRC-8 has CRC-8 zero. */
  lemma Crc8Residue(s: seq<byte>)
    ensures Crc8(s + [Crc8(s)]) == 0
  {
    assert (s + [Crc8(s)])[..|s|] == s;
    Crc8RoundsZero(0, 8);
  }

  /** The check every reader of a ROM code or scratchpad makes: the last
      byte is the CRC-8 of the others exactly when the CRC-8 of the whole
      string is zero. */
  lemma Crc8Gate(s: seq<byte>)
    requires |s| > 0
    ensures Crc8(s[..|s| - 1]) == s[|s| - 1] <==> Crc8(s) == 0
  {
    var c := Crc8(s[..|s| - 1]);
    Crc8RoundsZero(c ^ s[|s| - 1], 8);
  }

  /** The register update forgets neither the old register nor the byte. */
  lemma Crc8UpdateInjective(c: byte, d: byte, b: byte, e: byte)
    ensures Crc8Update(c, b) == Crc8Update(d, e) <==> c ^ b == d ^ e
  {
    Crc8ShiftInjective(c ^ b, d ^ e);
  }

  /** Changing the bits of one byte of a string always changes its CRC-8. */
  lemma {:induction false} Crc8DetectsByteError(s: seq<byte>, t: seq<byte>, i: nat)
    requires |s| == |t| && i < |s|
    requires s[i] != t[i]
    requires forall j | 0 <= j < |s| && j != i :: s[j] == t[j]
    ensures Crc8(s) != Crc8(t)
    decreases |s|
  {
    var n := |s| - 1;
    if i == n {
      assert s[..n] == t[..n];
      Crc8UpdateInjective(Crc8(s[..n]), Crc8(t[..n]), s[n], t[n]);
    } else {
      Crc8DetectsByteError(s[..n], t[..n], i);
      Crc8UpdateInjective(Crc8(s[..n]), Crc8(t[..n]), s[n], t[n]);
    }
  }

  lemma RomExampleSteps()
    ensures Crc8Update(0, 0x02) == 0xBC
      && Crc8Update(0xBC, 0x1C) == 0xAF
      && Crc8Update(0xAF, 0xB8) == 0x1E
      && Crc8Update(0x1E, 0x01) == 0xDC
      && Crc8Update(0xDC, 0x00) == 0xF4
      && Crc8Update(0xF4, 0x00) == 0x15
      && Crc8Update(0x15, 0x00) == 0xA2
  {
  }

  /** The example ROM code of Application Note 27: family code 0x02, serial
      number 0x0000001B81C and CRC byte 0xA2. */
  lemma Crc8RomExample()
    ensures Crc8([0x02, 0x1C, 0xB8, 0x01, 0x00, 0x00, 0x00]) == 0xA2
  {
    var s: seq<byte> := [0x02, 0x1C, 0xB8, 0x01, 0x00, 0x00, 0x00];
    RomExampleSteps();
    assert Crc8(s[..1]) == 0xBC;
    assert s[..2][..1] == s[..1];
    assert Crc8(s[..2]) == 0xAF;
    assert s[..3][..2] == s[..2];
    assert Crc8(s[..3]) == 0x1E;
    assert s[..4][..3] == s[..3];
    assert Crc8(s[..4]) == 0xDC;
    assert s[..5][..4] == s[..4];
    assert Crc8(s[..5]) == 0xF4;
    assert s[..6][..5] == s[..5];
    assert Crc8(s[..6]) == 0x15;
    assert s[..6] == s[..|s| - 1];
  }
}
