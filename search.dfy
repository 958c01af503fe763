/** The ROM search of src/UartOneWire.c (OW_SearchBlock and OW_SendBits):
    the binary-tree walk of the 1-Wire Search ROM command over the ROM codes
    of the devices on the bus.  The bus is a set of ROM codes; a device
    takes part in a pass while its code agrees with the bits selected so
    far, and it answers each pair of read slots with its bit and that bit's
    complement, pulling the bus low for a 0. */
module OneWireSearch {
  import opened OneWireCodec
  import opened RomOrder
  import opened UartOneWire

  /** What the devices still taking part in a search pass do to the two read
      slots of search bit n + 1: a device whose bit is 0 pulls the first slot
      low, one whose bit is 1 pulls the second (the complement) low. */
  function ReadPull(active: set<Rom>, n: nat): Pull
    requires n < ROM_BITS
  {
    [if exists d :: d in active && !d[n] then 0x00 else 0xFF,
     if exists d :: d in active && d[n] then 0x00 else 0xFF,
     0xFF, 0xFF, 0xFF, 0xFF, 0xFF, 0xFF]
  }

  /** What the devices do to a reset character: any device on the bus
      answers with a presence pulse, which pulls the echo low. */
  function PresencePull(devices: set<Rom>): byte {
    if devices == {} then 0xFF else 0x00
  }

  /** The two slot buffers of the engine, which the search drives directly. */
  ghost predicate SlotsReady(ow: OneWire) {
    ow.romRd.Length == SLOTS && ow.romWr.Length == SLOTS && ow.romRd != ow.romWr
  }

  /** OW_SendBits: the first `count` slots of ROM_WR_NO go out while as
      many echoes come into ROM_RD_NO; the UART is awaited, so the exchange
      is complete on return. */
  method SendBits(ow: OneWire, count: nat, pull: Pull)
    requires SlotsReady(ow) && count <= SLOTS
    modifies ow.romRd
    ensures ow.romRd[..count] == Echo(ow.romWr[..count], pull) && ow.romRd[count..] == old(ow.romRd[count..])
  {
    forall i | 0 <= i < count {
      ow.romRd[i] := ow.romWr[i] & pull[i];
    }
  }

  /** The two read slots of search bit n + 1, answered by the devices still
      taking part: the first comes back as OW_R_1 exactly when none of them
      has a 0 there, the second exactly when none has a 1. */
  method ReadBit(ow: OneWire, active: set<Rom>, n: nat) returns (r0: byte, r1: byte)
    requires SlotsReady(ow) && n < ROM_BITS
    modifies ow.romRd, ow.romWr
    ensures r0 == OW_R_1 <==> forall d | d in active :: d[n]
    ensures r1 == OW_R_1 <==> forall d | d in active :: !d[n]
  {
    ToBits(OW_READ_SLOT, ow.romWr);
    SendBits(ow, 2, ReadPull(active, n));
    assert ow.romWr[0] == EncodeByte(OW_READ_SLOT)[0] && ow.romWr[1] == EncodeByte(OW_READ_SLOT)[1];
    r0, r1 := ow.romRd[0], ow.romRd[1];
  }

  /** The read slots of search bit numBit and the bit OW_SearchBlock selects
      from them.  No answer in either slot ends the search.  A collision
      (both slots pulled low) follows `last`, the code found by the previous
      pass and stored just before buf[8 * found ..], before lastCollision,
      takes 0 at lastCollision and 1 after it; a collision resolved to 1
      moves currentCollision to numBit. */
  method SelectBit(ow: OneWire, active: set<Rom>, numBit: nat, lastCollision: nat, currentCollision: nat,
                   buf: array<byte>, found: nat, ghost lastBytes: seq<byte>, ghost last: Rom)
    returns (aborted: bool, sel: bool, newCollision: nat)
    requires SlotsReady(ow) && 1 <= numBit <= ROM_BITS && currentCollision < numBit
    requires buf != ow.romRd && buf != ow.romWr
    requires numBit < lastCollision ==>
      1 <= found && 8 * found <= buf.Length && |lastBytes| == ROM_BYTES && last == RomOfBytes(lastBytes) &&
      forall k | 0 <= k < ROM_BYTES :: buf[8 * found - 8 + k] == lastBytes[k]
    modifies ow.romRd, ow.romWr
    ensures aborted <==> active == {}
    ensures !aborted ==>
      sel == Selected(active, numBit - 1, lastCollision, last) &&
      newCollision == if Disagree(active, numBit - 1) && sel
                      then numBit else currentCollision
  {
    var n := numBit - 1;
    var r0, r1 := ReadBit(ow, active, n);
    aborted, sel, newCollision := false, false, currentCollision;
    if r0 == OW_R_1 {
      if r1 == OW_R_1 {
        aborted := true;
      } else {
        sel := true;
      }
    } else if r1 == OW_R_1 {
      sel := false;
    } else if numBit < lastCollision {
      assert buf[8 * (found - 1) + n / 8] == lastBytes[n / 8];
      BitMask(buf[8 * (found - 1) + n / 8], n % 8);
      if buf[8 * (found - 1) + n / 8] & ((1 as byte) << (n % 8)) != 0 {
        sel := true;
        if newCollision < numBit {
          newCollision := numBit;
        }
      } else {
        sel := false;
      }
    } else if numBit == lastCollision {
      sel := false;
    } else {
      sel := true;
      if newCollision < numBit {
        newCollision := numBit;
      }
    }
  }

  /** Sets or clears bit n of the eight-byte code at `at` in `buf`. */
  method WriteBit(buf: array<byte>, at: nat, n: nat, sel: bool, ghost p: seq<bool>)
    requires n < ROM_BITS && at + ROM_BYTES <= buf.Length
    requires |p| == n && HoldsBits(buf[at .. at + ROM_BYTES], p)
    modifies buf
    ensures HoldsBits(buf[at .. at + ROM_BYTES], p + [sel])
    ensures forall j | 0 <= j < buf.Length && (j < at || at + ROM_BYTES <= j) :: buf[j] == old(buf[j])
  {
    ghost var slot := buf[at .. at + ROM_BYTES];
    buf[at + n / 8] := WithBit(buf[at + n / 8], n % 8, sel);
    assert buf[at .. at + ROM_BYTES] == SetBit(slot, n, sel);
    HoldsBitsStep(slot, p, sel);
  }

  /** The write slot of search bit n + 1, which ends one step of the
      search: the selected bit is stored into the slot at buf[at ..], which
      held the bits p selected before, then 0x01 or 0x00 is encoded and its
      first slot exchanged. */
  method StoreBit(ow: OneWire, buf: array<byte>, at: nat, n: nat, sel: bool, ghost p: seq<bool>)
    requires SlotsReady(ow) && n < ROM_BITS && at + ROM_BYTES <= buf.Length
    requires buf != ow.romRd && buf != ow.romWr
    requires |p| == n && HoldsBits(buf[at .. at + ROM_BYTES], p)
    modifies buf, ow.romRd, ow.romWr
    ensures HoldsBits(buf[at .. at + ROM_BYTES], p + [sel])
    ensures forall j | 0 <= j < buf.Length && (j < at || at + ROM_BYTES <= j) :: buf[j] == old(buf[j])
    ensures ow.romWr[0] == if sel then OW_1 else OW_0
  {
    WriteBit(buf, at, n, sel, p);
    ToBits(if sel then 0x01 else 0x00, ow.romWr);
    SendBits(ow, 1, NO_PULL);
  }

  /** The Search ROM command that starts each pass, sent by calling OW_Send
      until it stops reporting OW_WAIT; its outcome is not looked at.
      `presence` is what the devices do to the reset character.  Either the
      command byte went out and its echo was heard, or the reset found no
      device. */
  method SendSearchRom(ow: OneWire, cmd: array<byte>, none: array<byte>, presence: byte)
    requires ow.Valid() && ow.Idle()
    requires cmd.Length == 1 && none.Length == 0 && cmd != none
    requires cmd != ow.romRd && cmd != ow.romWr && none != ow.romRd && none != ow.romWr
    modifies ow, ow.romRd, ow.romWr, none
    ensures ow.Valid() && ow.Idle()
    ensures (ow.cmdBuf == cmd && |ow.heard| == 1) ||
      (|ow.pulseEchoes| == OW_READ_ATTEMPT + 1 && AllSilent(ow.pulseEchoes[..OW_READ_ATTEMPT]))
  {
    SendWaiting(ow, cmd, none, none, BusInput(presence, NO_PULL, true, 0));
  }

  /** One pass of OW_SearchBlock after the Search ROM command: selects the
      64 bits of one ROM code into buf[8 * found .. 8 * found + 8]. */
  method SearchPass(ow: OneWire, buf: array<byte>, found: nat, lastCollision: nat, devices: set<Rom>, ghost last: Rom)
    returns (aborted: bool, currentCollision: nat, ghost p: seq<bool>)
    requires SlotsReady(ow)
    requires buf != ow.romRd && buf != ow.romWr && 8 * found + 8 <= buf.Length
    requires found > 0 ==> last == RomOfBytes(buf[8 * found - 8 .. 8 * found])
    requires ReplayOk(devices, lastCollision, last, found > 0)
    modifies buf, ow.romRd, ow.romWr
    ensures forall j | 0 <= j < buf.Length && (j < 8 * found || 8 * found + 8 <= j) :: buf[j] == old(buf[j])
    ensures aborted ==> devices == {} && buf[..] == old(buf[..])
    ensures !aborted ==>
      |p| == ROM_BITS && Match(devices, p) != {} && HoldsBits(buf[8 * found .. 8 * found + 8], p) &&
      PassOk(devices, p, Match(devices, p), lastCollision, last, found > 0, currentCollision)
  {
    var numBit := 1;
    currentCollision := 0;
    p := [];
    var active := devices;
    aborted := false;
    ghost var lastBytes := if found > 0 then buf[8 * found - 8 .. 8 * found] else [];
    PassBegins(devices, lastCollision, last, found > 0);
    while numBit <= ROM_BITS
      invariant 1 <= numBit <= ROM_BITS + 1 && |p| == numBit - 1
      invariant PassOk(devices, p, active, lastCollision, last, found > 0, currentCollision)
      invariant devices == {} ==> numBit == 1
      invariant numBit == 1 ==> forall j | 0 <= j < buf.Length :: buf[j] == old(buf[j])
      invariant HoldsBits(buf[8 * found .. 8 * found + 8], p)
      invariant forall j | 0 <= j < buf.Length && (j < 8 * found || 8 * found + 8 <= j) :: buf[j] == old(buf[j])
      invariant found > 0 ==> forall k | 0 <= k < ROM_BYTES :: buf[8 * found - 8 + k] == lastBytes[k]
    {
      var sel, newCollision, next;
      aborted, sel, newCollision, next :=
        SearchStep(ow, buf, found, numBit, lastCollision, currentCollision, devices, active, lastBytes, last, p);
      if aborted {
        assert buf[..] == old(buf[..]);
        return;
      }
      currentCollision := newCollision;
      active := next;
      p := p + [sel];
      numBit := numBit + 1;
    }
  }

  /** Search bit numBit of a pass on the bus and in buf: the two read
      slots, the selected bit, and the write slot that stores it into
      buf[8 * found .. 8 * found + 8]. */
  method SelectAndStore(ow: OneWire, buf: array<byte>, found: nat, numBit: nat, lastCollision: nat, currentCollision: nat,
                        active: set<Rom>, ghost lastBytes: seq<byte>, ghost last: Rom, ghost p: seq<bool>)
    returns (aborted: bool, sel: bool, newCollision: nat)
    requires SlotsReady(ow) && buf != ow.romRd && buf != ow.romWr
    requires 1 <= numBit <= ROM_BITS && currentCollision < numBit && 8 * found + 8 <= buf.Length
    requires |p| == numBit - 1 && HoldsBits(buf[8 * found .. 8 * found + 8], p)
    requires numBit < lastCollision ==>
      1 <= found && |lastBytes| == ROM_BYTES && last == RomOfBytes(lastBytes) &&
      forall k | 0 <= k < ROM_BYTES :: buf[8 * found - 8 + k] == lastBytes[k]
    modifies buf, ow.romRd, ow.romWr
    ensures aborted <==> active == {}
    ensures aborted ==> forall j | 0 <= j < buf.Length :: buf[j] == old(buf[j])
    ensures !aborted ==>
      sel == Selected(active, numBit - 1, lastCollision, last) &&
      newCollision == (if Disagree(active, numBit - 1) && sel then numBit else currentCollision) &&
      HoldsBits(buf[8 * found .. 8 * found + 8], p + [sel])
    ensures forall j | 0 <= j < buf.Length && (j < 8 * found || 8 * found + 8 <= j) :: buf[j] == old(buf[j])
  {
    aborted, sel, newCollision := SelectBit(ow, active, numBit, lastCollision, currentCollision, buf, found, lastBytes, last);
    if !aborted {
      StoreBit(ow, buf, 8 * found, numBit - 1, sel, p);
    }
  }

  /** One iteration of the bit loop of OW_SearchBlock: the selected bit keeps
      the pass on track (PassOk), with `next` the devices still taking
      part. */
  method SearchStep(ow: OneWire, buf: array<byte>, found: nat, numBit: nat, lastCollision: nat, currentCollision: nat,
                    devices: set<Rom>, active: set<Rom>, ghost lastBytes: seq<byte>, ghost last: Rom, ghost p: seq<bool>)
    returns (aborted: bool, sel: bool, newCollision: nat, next: set<Rom>)
    requires SlotsReady(ow) && buf != ow.romRd && buf != ow.romWr
    requires 1 <= numBit <= ROM_BITS && 8 * found + 8 <= buf.Length
    requires |p| == numBit - 1 && HoldsBits(buf[8 * found .. 8 * found + 8], p)
    requires numBit < lastCollision ==>
      1 <= found && |lastBytes| == ROM_BYTES && last == RomOfBytes(lastBytes) &&
      forall k | 0 <= k < ROM_BYTES :: buf[8 * found - 8 + k] == lastBytes[k]
    requires ReplayOk(devices, lastCollision, last, found > 0)
    requires PassOk(devices, p, active, lastCollision, last, found > 0, currentCollision)
    modifies buf, ow.romRd, ow.romWr
    ensures aborted <==> active == {}
    ensures aborted ==> forall j | 0 <= j < buf.Length :: buf[j] == old(buf[j])
    ensures !aborted ==>
      HoldsBits(buf[8 * found .. 8 * found + 8], p + [sel]) &&
      PassOk(devices, p + [sel], next, lastCollision, last, found > 0, newCollision)
    ensures forall j | 0 <= j < buf.Length && (j < 8 * found || 8 * found + 8 <= j) :: buf[j] == old(buf[j])
  {
    aborted, sel, newCollision := SelectAndStore(ow, buf, found, numBit, lastCollision, currentCollision, active, lastBytes, last, p);
    next := {};
    if !aborted {
      next := set d | d in active && d[numBit - 1] == sel;
      PassStep(devices, p, active, lastCollision, last, found > 0, currentCollision, sel, newCollision, next);
    }
  }



  /** One pass of the outer loop of OW_SearchBlock, after the Search ROM
      command: the 64 bits of the next code in search order into slot `found`
      of buf. */
  method FindNext(ow: OneWire, buf: array<byte>, found: nat, lastCollision: nat, devices: set<Rom>)
    returns (newFound: nat, newCollision: nat, done: bool)
    requires SlotsReady(ow) && buf != ow.romRd && buf != ow.romWr && 8 * found + 8 <= buf.Length
    requires SearchState(devices, Roms(buf[..], found), lastCollision, false)
    modifies ow.romRd, ow.romWr, buf
    ensures found <= newFound <= found + 1 && (!done ==> newFound == found + 1)
    ensures SearchState(devices, Roms(buf[..], newFound), newCollision, done)
    ensures forall j | 8 * newFound <= j < buf.Length :: buf[j] == old(buf[j])
  {
    ghost var before := buf[..];
    ghost var last := ReplayTarget(devices, before, found, lastCollision);
    var aborted, currentCollision;
    ghost var p;
    aborted, currentCollision, p := SearchPass(ow, buf, found, lastCollision, devices, last);
    newFound := if aborted then found else found + 1;
    newCollision := if aborted then lastCollision else currentCollision;
    done := aborted || currentCollision == 0;
    PassOutcome(devices, before, buf[..], found, lastCollision, last, p, aborted, currentCollision,
                newFound, newCollision, done);
  }

  /** One round of the outer loop of OW_SearchBlock: the Search ROM command
      on the bus, then the pass that reads the next code into slot `found`
      of buf.  The engine is left valid and idle. */
  method SearchRound(ow: OneWire, buf: array<byte>, cmd: array<byte>, none: array<byte>, presence: byte,
                     found: nat, lastCollision: nat, devices: set<Rom>)
    returns (newFound: nat, newCollision: nat, done: bool)
    requires ow.Valid() && ow.Idle() && buf != ow.romRd && buf != ow.romWr && 8 * found + 8 <= buf.Length
    requires cmd.Length == 1 && none.Length == 0 && cmd != none && none != buf
    requires cmd != ow.romRd && cmd != ow.romWr && none != ow.romRd && none != ow.romWr
    requires SearchState(devices, Roms(buf[..], found), lastCollision, false)
    modifies ow, ow.romRd, ow.romWr, none, buf
    ensures ow.Valid() && ow.Idle()
    ensures found <= newFound <= found + 1 && (!done ==> newFound == found + 1)
    ensures SearchState(devices, Roms(buf[..], newFound), newCollision, done)
    ensures forall j | 8 * newFound <= j < buf.Length :: buf[j] == old(buf[j])
  {
    SendSearchRom(ow, cmd, none, presence);
    label pass:
    newFound, newCollision, done := FindNext(ow, buf, found, lastCollision, devices);
    IdleIgnoresBuffers@pass(ow);
  }

  /** OW_SearchBlock: finds up to `num` ROM codes of the devices on the bus,
      one per pass, into consecutive eight-byte slots of buf.  The codes
      found are the first ones of the search order, in that order, and when
      fewer than `num` are found, they are all the devices on the bus. */
  method SearchBlock(ow: OneWire, buf: array<byte>, num: nat, devices: set<Rom>) returns (found: nat)
    requires ow.Valid() && buf != ow.romRd && buf != ow.romWr && num <= 0xFF && 8 * num <= buf.Length
    modifies ow, ow.romRd, ow.romWr, buf
    ensures ow.Valid() && ow.Idle() && found <= num
    ensures FirstInOrder(Roms(buf[..], found), devices)
    ensures found < num ==> forall d :: d in devices <==> d in Roms(buf[..], found)
    ensures forall j | 8 * found <= j < buf.Length :: buf[j] == old(buf[j])
  {
    ow.Halt();
    var cmd := new byte[1];
    cmd[0] := SEARCH_ROM;
    var none := new byte[0];
    var presence := PresencePull(devices);
    found := 0;
    var lastCollision := 0;
    var done := false;
    while found < num && !done
      invariant found <= num && ow.Valid() && ow.Idle()
      invariant cmd != ow.romRd && cmd != ow.romWr && none != ow.romRd && none != ow.romWr && none != buf
      invariant SearchState(devices, Roms(buf[..], found), lastCollision, done)
      invariant forall j | 8 * found <= j < buf.Length :: buf[j] == old(buf[j])
      decreases num - found, if done then 0 else 1
    {
      found, lastCollision, done := SearchRound(ow, buf, cmd, none, presence, found, lastCollision, devices);
    }
  }
}
