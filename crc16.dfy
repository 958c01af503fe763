/** The CRC-16 of Maxim Application Note 27 (x^16 + x^15 + x^2 + 1, shifted
    least significant bit first, feedback constant 0xA001) that 1-Wire
    devices append, complemented, to memory pages and command responses.
    It is defined once as a shift register; OW_Crc16 is a method proved to
    compute it and OW_CheckCrc16 a method proved to accept exactly the
    complemented CRC. */
module OneWireCrc16 {
  import opened OneWireCodec

  type word = bv16

  /** Exclusive or of two registers, named so that the linearity of the
      register can be stated and used as an equation between terms. */
  function Xor(a: word, b: word): word {
    a ^ b
  }

  /** One shift of the CRC-16 register with no input bit. */
  function Crc16Round(z: word): word {
    if z & 1 == 1 then (z >> 1) ^ 0xA001 else z >> 1
  }

  /** `k` shifts of the CRC-16 register. */
  function Crc16Rounds(z: word, k: nat): word {
    if k == 0 then z else Crc16Round(Crc16Rounds(z, k - 1))
  }

  /** The register with byte `b` mixed into its low half. */
  function Mix(crc: word, b: byte): word {
    crc ^ (b as word)
  }

  /** The CRC-16 register after absorbing byte `b`. */
  function Crc16Update(crc: word, b: byte): word {
    Crc16Rounds(Mix(crc, b), 8)
  }

  /** The CRC-16 of a byte string, starting from `seed`. */
  function Crc16(s: seq<byte>, seed: word): word
    decreases |s|
  {
    if s == [] then seed else Crc16Update(Crc16(s[..|s| - 1], seed), s[|s| - 1])
  }

  lemma Crc16RoundLinear(a: word, b: word)
    ensures Crc16Round(Xor(a, b)) == Xor(Crc16Round(a), Crc16Round(b))
  {
    if a & 1 == 1 {
      if b & 1 == 1 { assert (a ^ b) & 1 == 0; } else { assert (a ^ b) & 1 == 1; }
    } else {
      if b & 1 == 1 { assert (a ^ b) & 1 == 1; } else { assert (a ^ b) & 1 == 0; }
    }
  }

  /** The register is linear over GF(2). */
  lemma {:induction false} Crc16RoundsLinear(a: word, b: word, k: nat)
    ensures Crc16Rounds(Xor(a, b), k) == Xor(Crc16Rounds(a, k), Crc16Rounds(b, k))
  {
    if k > 0 {
      Crc16RoundsLinear(a, b, k - 1);
      Crc16RoundLinear(Crc16Rounds(a, k - 1), Crc16Rounds(b, k - 1));
    }
  }

  /** Only the zero register shifts to zero. */
  lemma {:induction false} Crc16RoundsZero(z: word, k: nat)
    ensures Crc16Rounds(z, k) == 0 <==> z == 0
  {
    if k > 0 {
      Crc16RoundsZero(z, k - 1);
    }
  }

  /** Eight shifts lose no information. */
  lemma Crc16ShiftInjective(a: word, b: word)
    ensures Crc16Rounds(a, 8) == Crc16Rounds(b, 8) <==> a == b
  {
    Crc16RoundsLinear(a, b, 8);
    Crc16RoundsZero(Xor(a, b), 8);
  }

  /** What eight shifts make of a low byte `x`: 0xC001 when `x` has odd
      parity, plus `x` shifted left by six and by seven. */
  function LowFormula(x: word): word {
    Xor(Xor(if OddParity(x) then 0xC001 else 0, x << 6), x << 7)
  }

  /** Eight shifts of a register holding only a low byte. */
  lemma Crc16LowByte(x: word)
    requires x < 256
    ensures Crc16Rounds(x, 8) == LowFormula(x)
  {
    var r1 := Crc16Round(x);
    var r2 := Crc16Round(r1);
    var r3 := Crc16Round(r2);
    var r4 := Crc16Round(r3);
    var r5 := Crc16Round(r4);
    var r6 := Crc16Round(r5);
    var r7 := Crc16Round(r6);
    var r8 := Crc16Round(r7);
    assert Crc16Rounds(x, 1) == r1;
    assert Crc16Rounds(x, 2) == r2;
    assert Crc16Rounds(x, 3) == r3;
    assert Crc16Rounds(x, 4) == r4;
    assert Crc16Rounds(x, 5) == r5;
    assert Crc16Rounds(x, 6) == r6;
    assert Crc16Rounds(x, 7) == r7;
    assert Crc16Rounds(x, 8) == r8;
  }

  /** Eight shifts of a register holding only a high byte move it down
      unchanged: none of its bits reaches the feedback tap in time. */
  lemma Crc16HighByte(c: word, x: word)
    requires x == c & 0xFF00
    ensures Crc16Rounds(x, 8) == c >> 8
  {
    var r1 := Crc16Round(x);
    var r2 := Crc16Round(r1);
    var r3 := Crc16Round(r2);
    var r4 := Crc16Round(r3);
    var r5 := Crc16Round(r4);
    var r6 := Crc16Round(r5);
    var r7 := Crc16Round(r6);
    var r8 := Crc16Round(r7);
    assert Crc16Rounds(x, 1) == r1;
    assert Crc16Rounds(x, 2) == r2;
    assert Crc16Rounds(x, 3) == r3;
    assert Crc16Rounds(x, 4) == r4;
    assert Crc16Rounds(x, 5) == r5;
    assert Crc16Rounds(x, 6) == r6;
    assert Crc16Rounds(x, 7) == r7;
    assert Crc16Rounds(x, 8) == r8;
  }

  /** Odd parity of the low eight bits. */
  predicate OddParity(x: word) {
    ((x ^ (x >> 1) ^ (x >> 2) ^ (x >> 3) ^ (x >> 4) ^ (x >> 5) ^ (x >> 6) ^ (x >> 7)) & 1) == 1
  }

  /** The odd-parity table of a nibble in OW_Crc16. */
  const ODD_PARITY: seq<byte> := [0, 1, 1, 0, 1, 0, 0, 1, 1, 0, 0, 1, 0, 1, 1, 0]

  lemma OddParityEntry(n: word)
    requires n < 16
    ensures ODD_PARITY[n as int] == (if OddParity(n) then 1 else 0)
  {
    if n == 0 {}
    else if n == 1 {}
    else if n == 2 {}
    else if n == 3 {}
    else if n == 4 {}
    else if n == 5 {}
    else if n == 6 {}
    else if n == 7 {}
    else if n == 8 {}
    else if n == 9 {}
    else if n == 10 {}
    else if n == 11 {}
    else if n == 12 {}
    else if n == 13 {}
    else if n == 14 {}
    else {}
  }

  /** The parity of a byte is the exclusive or of its nibbles' parities. */
  lemma OddParityNibbles(x: word)
    requires x < 256
    ensures OddParity(x) <==> OddParity(x & 0x0F) != OddParity(x >> 4)
  {
  }

  /** One pass of the OW_Crc16 loop body: the register drops its low byte,
      takes 0xC001 when the byte mixed into it has odd parity, and the
      mixed byte shifted left by six and then by one more. */
  function Crc16Step(crc: word, b: byte): word {
    var cdata := Mix(crc, b) & 0xFF;
    var fed := if TableParity(cdata) then Xor(crc >> 8, 0xC001) else crc >> 8;
    var six := cdata << 6;
    Xor(Xor(fed, six), six << 1)
  }

  /** The parity-table step of OW_Crc16 is the eight-shift register update. */
  lemma Crc16StepIsUpdate(crc: word, b: byte)
    ensures Crc16Step(crc, b) == Crc16Update(crc, b)
  {
    var cdata := Mix(crc, b) & 0xFF;
    var hi := crc & 0xFF00;
    SplitBytes(crc, b, cdata, hi);
    Crc16RoundsLinear(hi, cdata, 8);
    Crc16HighByte(crc, hi);
    Crc16LowByte(cdata);
    StepParity(cdata);
    XorShape(crc >> 8, TableParity(cdata), cdata);
  }

  lemma SplitBytes(crc: word, b: byte, cdata: word, hi: word)
    requires cdata == Mix(crc, b) & 0xFF && hi == crc & 0xFF00
    ensures Mix(crc, b) == Xor(hi, cdata)
  {
  }

  lemma XorShape(h: word, p: bool, x: word)
    ensures Xor(Xor(if p then Xor(h, 0xC001) else h, x << 6), (x << 6) << 1)
         == Xor(h, Xor(Xor(if p then 0xC001 else 0, x << 6), x << 7))
  {
  }

  /** The parity test of OW_Crc16 through its nibble table. */
  predicate TableParity(cdata: word)
    requires cdata < 256
  {
    ODD_PARITY[(cdata & 0x0F) as int] ^ ODD_PARITY[(cdata >> 4) as int] != 0
  }

  /** The nibble table gives the odd parity of the whole byte. */
  lemma StepParity(cdata: word)
    requires cdata < 256
    ensures TableParity(cdata) <==> OddParity(cdata)
  {
    OddParityEntry(cdata & 0x0F);
    OddParityEntry(cdata >> 4);
    OddParityNibbles(cdata);
  }

  /** OW_Crc16: the CRC-16 of `input[..len]`, continuing from `seed`. */
  method ComputeCrc16(input: array<byte>, len: nat, seed: word) returns (crc: word)
    requires len <= input.Length
    ensures crc == Crc16(input[..len], seed)
  {
    crc := seed;
    var i := 0;
    while i < len
      invariant i <= len
      invariant crc == Crc16(input[..i], seed)
    {
      Crc16StepIsUpdate(crc, input[i]);
      Crc16Extend(input[..i], input[i], seed);
      assert input[..i] + [input[i]] == input[..i + 1];
      crc := Crc16Step(crc, input[i]);
      i := i + 1;
    }
  }

  /** The CRC-16 of a string extended by one byte. */
  lemma Crc16Extend(s: seq<byte>, x: byte, seed: word)
    ensures Crc16(s + [x], seed) == Crc16Update(Crc16(s, seed), x)
  {
    assert (s + [x])[..|s|] == s;
  }

  /** The two bytes a device sends after its data: the complement of the
      CRC-16, low byte first. */
  function InvertedTrailer(crc: word): (t: seq<byte>)
    ensures |t| == 2
    ensures ((t[1] as word) << 8) | (t[0] as word) == !crc
  {
    [(!crc & 0xFF) as byte, (!crc >> 8) as byte]
  }

  /** OW_CheckCrc16: whether the two bytes at `invertedCrc` are the
      complemented CRC-16 of `input[..len]` from `seed`. */
  method CheckCrc16(input: array<byte>, len: nat, invertedCrc: array<byte>, seed: word) returns (ok: bool)
    requires len <= input.Length
    requires invertedCrc.Length >= 2
    ensures ok <==> invertedCrc[..2] == InvertedTrailer(Crc16(input[..len], seed))
  {
    var crc := ComputeCrc16(input, len, seed);
    crc := !crc;
    ok := (crc & 0xFF) == invertedCrc[0] as word && (crc >> 8) == invertedCrc[1] as word;
    TrailerEquality(crc, invertedCrc[..2]);
  }

  lemma TrailerEquality(inv: word, t: seq<byte>)
    requires |t| == 2
    ensures ((inv & 0xFF) == t[0] as word && (inv >> 8) == t[1] as word) <==> t == InvertedTrailer(!inv)
  {
    assert !(!inv) == inv;
  }

  /** The CRC-16 of a string extended by two bytes. */
  lemma Crc16TwoMore(s: seq<byte>, x: byte, y: byte, seed: word)
    ensures Crc16(s + [x, y], seed) == Crc16Update(Crc16Update(Crc16(s, seed), x), y)
  {
    assert s + [x, y] == (s + [x]) + [y];
    Crc16Extend(s + [x], y, seed);
    Crc16Extend(s, x, seed);
  }

  lemma LowByteCancels(c: word)
    ensures Mix(c, (c & 0xFF) as byte) == c & 0xFF00
    ensures Mix(c >> 8, (c >> 8) as byte) == 0
  {
  }

  /** A string followed by its own CRC-16, low byte first, leaves the
      register at zero. */
  lemma Crc16Residue(s: seq<byte>, seed: word)
    ensures var c := Crc16(s, seed);
            Crc16(s + [(c & 0xFF) as byte, (c >> 8) as byte], seed) == 0
  {
    var c := Crc16(s, seed);
    Crc16TwoMore(s, (c & 0xFF) as byte, (c >> 8) as byte, seed);
    LowByteCancels(c);
    Crc16HighByte(c, Mix(c, (c & 0xFF) as byte));
    Crc16RoundsZero(Mix(c >> 8, (c >> 8) as byte), 8);
  }

  lemma Crc16ShiftConstants()
    ensures Crc16Rounds(0xFF, 8) == 0x4040
    ensures Crc16Rounds(0x40BF, 8) == 0xB001
  {
  }

  lemma InvertedBytes(c: word)
    ensures Mix(c, InvertedTrailer(c)[0]) == Xor(c & 0xFF00, 0xFF)
    ensures Mix(Xor(c >> 8, 0x4040), InvertedTrailer(c)[1]) == 0x40BF
  {
  }

  /** A string followed by its complemented CRC-16, as devices send it,
      always leaves the register at the same constant 0xB001. */
  lemma Crc16InvertedResidue(s: seq<byte>, seed: word)
    ensures Crc16(s + InvertedTrailer(Crc16(s, seed)), seed) == 0xB001
  {
    var c := Crc16(s, seed);
    var tr := InvertedTrailer(c);
    assert s + tr == s + [tr[0], tr[1]];
    Crc16TwoMore(s, tr[0], tr[1], seed);
    InvertedBytes(c);
    Crc16RoundsLinear(c & 0xFF00, 0xFF, 8);
    Crc16HighByte(c, c & 0xFF00);
    Crc16ShiftConstants();
  }

  /** The register update forgets neither the old register nor the byte. */
  lemma Crc16UpdateInjective(c: word, d: word, b: byte, e: byte)
    ensures Crc16Update(c, b) == Crc16Update(d, e) <==> Mix(c, b) == Mix(d, e)
  {
    Crc16ShiftInjective(Mix(c, b), Mix(d, e));
  }

  lemma MixCancels(c: word, x: byte)
    ensures Mix(c, x) ^ c == x as word
    ensures Mix(c, x) ^ (x as word) == c
  {
  }

  lemma XorByteCancels(c: word, d: word, x: byte, y: byte)
    requires Mix(c, x) == Mix(d, y)
    ensures c == d <==> x == y
  {
    MixCancels(c, x);
    MixCancels(d, y);
    if c == d {
      assert x as word == y as word;
    }
  }

  /** Changing the bits of one byte of a string always changes its CRC-16. */
  lemma {:induction false} Crc16DetectsByteError(s: seq<byte>, t: seq<byte>, i: nat, seed: word)
    requires |s| == |t| && i < |s|
    requires s[i] != t[i]
    requires forall j | 0 <= j < |s| && j != i :: s[j] == t[j]
    ensures Crc16(s, seed) != Crc16(t, seed)
    decreases |s|
  {
    var n := |s| - 1;
    assert s == s[..n] + [s[n]] && t == t[..n] + [t[n]];
    Crc16Extend(s[..n], s[n], seed);
    Crc16Extend(t[..n], t[n], seed);
    var c, d := Crc16(s[..n], seed), Crc16(t[..n], seed);
    Crc16UpdateInjective(c, d, s[n], t[n]);
    if i == n {
      assert s[..n] == t[..n];
    } else {
      Crc16DetectsByteError(s[..n], t[..n], i, seed);
    }
    if Mix(c, s[n]) == Mix(d, t[n]) {
      XorByteCancels(c, d, s[n], t[n]);
    }
  }
}
