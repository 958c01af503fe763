/** The 1-Wire bit codec: one logical byte travels as eight UART characters
    ("slots"), least significant bit first.  A slot sent as 0xFF is a short
    low pulse (write 1, or a read slot the device may pull low); a slot sent
    as 0x00 is a long low pulse (write 0). */
module OneWireCodec {

  type byte = bv8

  const OW_0: byte := 0x00
  const OW_1: byte := 0xFF
  const OW_R_1: byte := 0xFF
  const SLOTS: nat := 8

  /** Bit i (0 = least significant) of a byte. */
  predicate Bit(b: byte, i: nat)
    requires i < 8
  {
    (b >> i) & 1 == 1
  }

  /** Two bytes with the same eight bits are the same byte. */
  lemma BitsDetermineByte(x: byte, y: byte)
    requires forall i | 0 <= i < 8 :: Bit(x, i) == Bit(y, i)
    ensures x == y
  {
    assert Bit(x, 0) == Bit(y, 0) && Bit(x, 1) == Bit(y, 1);
    assert Bit(x, 2) == Bit(y, 2) && Bit(x, 3) == Bit(y, 3);
    assert Bit(x, 4) == Bit(y, 4) && Bit(x, 5) == Bit(y, 5);
    assert Bit(x, 6) == Bit(y, 6) && Bit(x, 7) == Bit(y, 7);
  }

  /** Shifting right once more is shifting by one more. */
  lemma ShiftRightStep(b: byte, i: nat)
    requires i < 8
    ensures (b >> i) >> 1 == b >> (i + 1)
  {
    if i == 0 {} else if i == 1 {} else if i == 2 {} else if i == 3 {}
    else if i == 4 {} else if i == 5 {} else if i == 6 {} else {}
  }

  /** Shifting right by one and setting the top bit to `top` moves bit j + 1
      down to bit j. */
  lemma ShiftInTop(b: byte, top: bool, j: nat)
    requires j < 8
    ensures var c: byte := (b >> 1) | (if top then 0x80 else 0);
            Bit(c, j) <==> (if j == 7 then top else Bit(b, j + 1))
  {
    if j == 0 {} else if j == 1 {} else if j == 2 {} else if j == 3 {}
    else if j == 4 {} else if j == 5 {} else if j == 6 {} else {}
  }

  /** The slot pattern of one byte, as OW_ToBits writes it. */
  function EncodeByte(b: byte): (slots: seq<byte>)
    ensures |slots| == SLOTS
  {
    seq(SLOTS, i requires 0 <= i < SLOTS => if Bit(b, i) then OW_1 else OW_0)
  }

  lemma BitOr(d: byte, m: byte, i: nat)
    requires i < 8
    ensures Bit(d | m, i) <==> Bit(d, i) || Bit(m, i)
  {
    if i == 0 {} else if i == 1 {} else if i == 2 {} else if i == 3 {}
    else if i == 4 {} else if i == 5 {} else if i == 6 {} else {}
  }

  lemma BitOfPower(k: nat, i: nat)
    requires k < 8 && i < 8
    ensures Bit((1 as byte) << k, i) <==> i == k
  {
    if i == 0 {} else if i == 1 {} else if i == 2 {} else if i == 3 {}
    else if i == 4 {} else if i == 5 {} else if i == 6 {} else {}
  }

  /** Clearing bit k with a mask leaves every other bit as it was. */
  lemma BitAndNot(d: byte, k: nat, i: nat)
    requires k < 8 && i < 8
    ensures Bit(d & !((1 as byte) << k), i) <==> Bit(d, i) && i != k
  {
    if k == 0 {} else if k == 1 {} else if k == 2 {} else if k == 3 {}
    else if k == 4 {} else if k == 5 {} else if k == 6 {} else {}
  }

  /** Testing bit k with a mask. */
  lemma BitMask(d: byte, k: nat)
    requires k < 8
    ensures (d & ((1 as byte) << k) != 0) <==> Bit(d, k)
  {
    if k == 0 {} else if k == 1 {} else if k == 2 {} else if k == 3 {}
    else if k == 4 {} else if k == 5 {} else if k == 6 {} else {}
  }

  lemma BitOfZero(i: nat)
    requires i < 8
    ensures !Bit(0, i)
  {
  }

  /** The byte read back from a prefix of slot bytes: slot i gives bit i,
      which is set only when the slot came back as exactly 0xFF. */
  function DecodeSlots(slots: seq<byte>): byte
    requires |slots| <= SLOTS
    decreases |slots|
  {
    if slots == [] then 0
    else
      var k := |slots| - 1;
      DecodeSlots(slots[..k]) | (if slots[k] == OW_R_1 then (1 as byte) << k else 0)
  }

  /** Bit i of a decoded prefix is slot i read as 0xFF, and bits beyond the
      prefix are clear. */
  lemma {:induction false} DecodeSlotsBit(slots: seq<byte>, i: nat)
    requires |slots| <= SLOTS && i < 8
    ensures Bit(DecodeSlots(slots), i) <==> (i < |slots| && slots[i] == OW_R_1)
    decreases |slots|
  {
    if slots != [] {
      var k := |slots| - 1;
      DecodeSlotsBit(slots[..k], i);
      var d := DecodeSlots(slots[..k]);
      var m: byte := if slots[k] == OW_R_1 then (1 as byte) << k else 0;
      assert DecodeSlots(slots) == d | m;
      BitOr(d, m, i);
      if slots[k] == OW_R_1 {
        BitOfPower(k, i);
      } else {
        assert m == 0;
        BitOfZero(i);
      }
    }
  }

  /** The byte read back from the eight echoed slots of one exchange. */
  function DecodeByte(slots: seq<byte>): byte
    requires |slots| == SLOTS
  {
    DecodeSlots(slots)
  }

  /** Bit i of the decoded byte is set exactly when slot i came back as
      0xFF. */
  lemma DecodeByteBits(slots: seq<byte>)
    requires |slots| == SLOTS
    ensures forall i | 0 <= i < SLOTS :: Bit(DecodeByte(slots), i) <==> slots[i] == OW_R_1
  {
    forall i | 0 <= i < SLOTS ensures Bit(DecodeByte(slots), i) <==> slots[i] == OW_R_1 {
      DecodeSlotsBit(slots, i);
    }
  }

  /** Decoding the encoding gives the byte back, because the "write 1"
      pattern OW_1 is the same byte as the "read 1" pattern OW_R_1. */
  lemma DecodeEncode(b: byte)
    ensures DecodeByte(EncodeByte(b)) == b
  {
    var d := DecodeByte(EncodeByte(b));
    DecodeByteBits(EncodeByte(b));
    forall i | 0 <= i < 8 ensures Bit(d, i) == Bit(b, i) {
    }
    BitsDetermineByte(d, b);
  }

  /** A slot pattern made only of 0x00 and 0xFF is the encoding of the byte
      it decodes to. */
  lemma EncodeDecode(slots: seq<byte>)
    requires |slots| == SLOTS
    requires forall i | 0 <= i < SLOTS :: slots[i] == OW_0 || slots[i] == OW_1
    ensures EncodeByte(DecodeByte(slots)) == slots
  {
    DecodeByteBits(slots);
  }

  /** The low bit of `b >> i` is bit i of `b`. */
  lemma LowBit(b: byte, i: nat, rest: byte)
    requires i < 8 && rest == b >> i
    ensures rest & 0x01 == 1 <==> Bit(b, i)
  {
  }

  /** OW_ToBits: writes the eight slots of `b` into `slots`. */
  method ToBits(b: byte, slots: array<byte>)
    requires slots.Length == SLOTS
    modifies slots
    ensures slots[..] == EncodeByte(b)
  {
    var rest := b;
    for i := 0 to SLOTS
      invariant rest == b >> i
      invariant forall j | 0 <= j < i :: slots[j] == if Bit(b, j) then OW_1 else OW_0
    {
      LowBit(b, i, rest);
      slots[i] := if rest & 0x01 == 1 then OW_1 else OW_0;
      ShiftRightStep(b, i);
      rest := rest >> 1;
    }
  }

  /** OW_ToByte: shifts each slot into the top bit, so that after eight
      slots slot i sits at bit i. */
  method ToByte(slots: array<byte>) returns (b: byte)
    requires slots.Length == SLOTS
    ensures b == DecodeByte(slots[..])
  {
    b := 0;
    for i := 0 to SLOTS
      invariant forall j | 0 <= j < 8 :: Bit(b, j) <==> SLOTS - i <= j && slots[j + i - SLOTS] == OW_R_1
    {
      var next: byte := (b >> 1) | (if slots[i] == OW_R_1 then 0x80 else 0);
      forall j | 0 <= j < 8 ensures Bit(next, j) <==> SLOTS - i - 1 <= j && slots[j + i + 1 - SLOTS] == OW_R_1 {
        ShiftInTop(b, slots[i] == OW_R_1, j);
      }
      b := next;
    }
    DecodeByteBits(slots[..]);
    BitsDetermineByte(b, DecodeByte(slots[..]));
  }
}
