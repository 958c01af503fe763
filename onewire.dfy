/** The 1-Wire master of src/UartOneWire.c: a UART whose transmit and
    receive lines are tied to the bus.  A reset is one 0xF0 character at the
    low baud rate, and each data bit is one character at the high rate.
    The reset and transfer state machines do one step per call.  The UART
    is not modelled: each step gets a `BusInput` that says what the bus
    echoes and whether the UART has finished. */
module UartOneWire {
  import opened OneWireCodec
  import opened RomOrder

  /** OW_OK, OW_WAIT and OW_NO_DEVICE. */
  datatype Status = Ok | Wait | NoDevice

  const OW_READ_ATTEMPT: nat := 4
  const OW_RESET_SPEED: nat := 9600
  const OW_TRANSFER_SPEED: nat := 115200
  const OW_NO_READ: nat := 0xFF
  const OW_READ_SLOT: byte := 0xFF
  /** The reset character: four low bits make the reset pulse. */
  const RESET_PULSE: byte := 0xF0
  /** The Search ROM command. */
  const SEARCH_ROM: byte := 0xF0
  /** The fallback timeout, in milliseconds, of one exchange. */
  const EXCHANGE_TIMEOUT: nat := 5

  /** A reading of the uint32 millisecond clock. */
  type Tick = x: nat | x < 0x1_0000_0000

  /** now - start in uint32 arithmetic: the milliseconds between the two
      readings, modulo 2^32. */
  function Since(now: Tick, start: Tick): Tick {
    (now - start) % 0x1_0000_0000
  }

  /** Eight slot bytes as one byte gets put on the bus. */
  type Pull = s: seq<byte> | |s| == 8 witness [0xFF as byte, 0xFF, 0xFF, 0xFF, 0xFF, 0xFF, 0xFF, 0xFF]

  /** No device drives any slot low. */
  const NO_PULL: Pull := [0xFF, 0xFF, 0xFF, 0xFF, 0xFF, 0xFF, 0xFF, 0xFF]

  /** What the UART shows one step of a state machine.  The bus is wired
      AND: the devices can only pull it low.  The echo of the reset character
      is RESET_PULSE & resetPull, and the echo of slot i of an exchange is
      the byte sent there & slotPull[i]; 0xFF means no device pulls.  `ready`
      is true when the UART reports that it is idle again, and `tick` is the
      millisecond clock. */
  datatype BusInput = BusInput(resetPull: byte, slotPull: Pull, ready: bool, tick: Tick)

  /** The UART reports the exchange started at `started` finished, or it
      started more than EXCHANGE_TIMEOUT ms ago. */
  predicate ExchangeOver(input: BusInput, started: Tick) {
    input.ready || Since(input.tick, started) > EXCHANGE_TIMEOUT
  }

  /** The bytes received while `sent` is transmitted onto a bus pulled as
      `pull`. */
  function Echo(sent: seq<byte>, pull: Pull): seq<byte>
    requires |sent| <= SLOTS
  {
    seq(|sent|, i requires 0 <= i < |sent| => sent[i] & pull[i])
  }

  /** On a bus where no device pulls, every slot comes back as it was sent. */
  lemma SilentEcho(sent: seq<byte>)
    requires |sent| <= SLOTS
    ensures Echo(sent, NO_PULL) == sent
  {
  }

  /** So on such a bus, the byte decoded from the echo of a transmitted byte
      is that byte. */
  lemma SilentByte(b: byte)
    ensures DecodeByte(Echo(EncodeByte(b), NO_PULL)) == b
  {
    SilentEcho(EncodeByte(b));
    DecodeEncode(b);
  }

  /** Every reset pulse in `echoes` came back unchanged: no device answered. */
  ghost predicate AllSilent(echoes: seq<byte>) {
    forall i | 0 <= i < |echoes| :: echoes[i] == RESET_PULSE
  }

  /** How a finished reset ended: it sent one to OW_READ_ATTEMPT + 1 reset
      pulses, every pulse but the last came back unchanged, it stopped at the
      first presence pulse or after the last retry, and it found a device
      (`present`) exactly when a presence pulse came while retries were
      left. */
  ghost predicate ResetReport(echoes: seq<byte>, present: bool) {
    var n := |echoes|;
    1 <= n <= OW_READ_ATTEMPT + 1 && AllSilent(echoes[..n - 1]) &&
    (n == OW_READ_ATTEMPT + 1 || echoes[n - 1] != RESET_PULSE) &&
    (present <==> n <= OW_READ_ATTEMPT && echoes[n - 1] != RESET_PULSE)
  }

  /** A reset that found no device sent every pulse, and none but possibly
      the last was answered. */
  lemma ResetReportAbsent(echoes: seq<byte>)
    requires ResetReport(echoes, false)
    ensures |echoes| == OW_READ_ATTEMPT + 1 && AllSilent(echoes[..OW_READ_ATTEMPT])
  {
  }

  function Min(a: nat, b: nat): nat {
    if a <= b then a else b
  }

  /** The bytes a transfer stores into its data buffer once the decoded
      echoes `heard` have come back: the echoes of transmitted bytes k,
      k + 1, ..., at most d of them.  A skip count of OW_NO_READ stores
      nothing. */
  function Captured(heard: seq<byte>, k: nat, d: nat): seq<byte> {
    if k == OW_NO_READ || |heard| <= k then [] else heard[k .. k + Min(|heard| - k, d)]
  }

  /** The value of read_start once h echoes have been consumed.  It counts
      down to 0 and stays there while bytes are stored.  Once d bytes are
      stored, the uint8 wraps from 0 to 0xFF, which then reads as OW_NO_READ. */
  function SkipLeft(h: nat, k: nat, d: nat): nat {
    if k == OW_NO_READ then OW_NO_READ
    else if h <= k then k - h
    else if h - k <= d then 0
    else OW_NO_READ
  }

  /** What one execution of state 3 of OW_Send does to the stored bytes and
      the skip counter: it stores the echo when the counter is 0 and room is
      left, and otherwise it counts down (0 wraps to 0xFF) unless reading is
      off. */
  lemma CaptureStep(heard: seq<byte>, b: byte, k: nat, d: nat)
    requires k <= OW_NO_READ
    ensures var s, c := SkipLeft(|heard|, k, d), Captured(heard, k, d);
            |c| <= d &&
            Captured(heard + [b], k, d) == (if s == 0 && |c| < d then c + [b] else c) &&
            SkipLeft(|heard| + 1, k, d) ==
              (if s == 0 && |c| < d then s
               else if s != OW_NO_READ then (if s == 0 then OW_NO_READ else s - 1)
               else s)
  {
    var h := heard + [b];
    if k != OW_NO_READ && |heard| >= k {
      assert h[k .. k + Min(|h| - k, d)] == if |heard| - k < d then heard[k .. k + Min(|heard| - k, d)] + [b]
                                          else heard[k .. k + Min(|heard| - k, d)];
    }
  }

  /** The number of bytes a whole transfer of cLen bytes stores. */
  lemma CapturedCount(heard: seq<byte>, k: nat, d: nat)
    ensures |Captured(heard, k, d)| ==
      if k == OW_NO_READ then 0 else Min(d, if |heard| > k then |heard| - k else 0)
  {
  }

  /** What the reset machine has done, by state: 1 is about to send a
      pulse, 2 waits for its echo, 3 checks it, and 4 reports.  Every pulse
      before the last one came back unchanged, and the counter counts the
      pulses left.  `echo` is what the receive buffer holds. */
  ghost predicate ResetOk(state: nat, counter: nat, pulses: seq<byte>, baud: nat, echo: byte) {
    var n := |pulses|;
    state <= 4 && counter <= OW_READ_ATTEMPT &&
    (state == 1 ==> n + counter == OW_READ_ATTEMPT && AllSilent(pulses) && baud == OW_RESET_SPEED) &&
    (state >= 2 ==>
      n >= 1 && n + counter == OW_READ_ATTEMPT + 1 && AllSilent(pulses[..n - 1]) && baud == OW_RESET_SPEED) &&
    (2 <= state <= 3 ==> echo == pulses[n - 1]) &&
    (state == 4 ==> counter == 0 || pulses[n - 1] != RESET_PULSE)
  }

  /** What the last transfer has done: the first cmdPos command bytes went
      out, the echo of each was decoded into `heard` (all but the last one in
      states 2 and 3, where it is still in the receive buffer), and `stored`,
      the filled part of the data buffer, is the captured part of `heard`
      while the transfer runs (once it is over, the caller owns the buffer).
      cmdPos + wSize and dataPos + rSize stay the call's cLen and dLen. */
  ghost predicate TransferOk(state: nat, cmdPos: nat, wSize: nat, cmdLen: nat, dataPos: nat, rSize: nat,
                             dataLen: nat, readStart: nat, skip: nat, heard: seq<byte>, stored: seq<byte>)
  {
    cmdPos + wSize <= cmdLen && dataPos + rSize <= dataLen &&
    cmdPos + wSize <= 0xFF && dataPos + rSize <= 0xFF && skip <= 0xFF && |stored| == dataPos &&
    (state == 0 ==> |heard| <= cmdPos) &&
    (state == 1 ==> |heard| == cmdPos) &&
    (state >= 2 ==> |heard| + 1 == cmdPos) &&
    (state != 0 ==> stored == Captured(heard, skip, dataPos + rSize)) &&
    readStart == SkipLeft(|heard|, skip, dataPos + rSize)
  }

  /** State 3 of OW_Send keeps TransferOk: the decoded echo b is either
      stored, while readStart is 0 and room is left, or counted against
      readStart, whose uint8 wraps from 0 to 0xFF. */
  lemma ConsumeKeeps(cmdPos: nat, wSize: nat, cmdLen: nat, dataPos: nat, rSize: nat, dataLen: nat,
                     readStart: nat, skip: nat, heard: seq<byte>, stored: seq<byte>, b: byte)
    requires TransferOk(3, cmdPos, wSize, cmdLen, dataPos, rSize, dataLen, readStart, skip, heard, stored)
    ensures var take := readStart == 0 && rSize != 0;
      TransferOk(1, cmdPos, wSize, cmdLen, if take then dataPos + 1 else dataPos, if take then rSize - 1 else rSize,
                 dataLen,
                 if take || readStart == OW_NO_READ then readStart else if readStart == 0 then 0xFF else readStart - 1,
                 skip, heard + [b], if take then stored + [b] else stored)
  {
    CaptureStep(heard, b, skip, dataPos + rSize);
  }

  class OneWire {
    /** ROM_RD_NO: the slot bytes received during the last exchange. */
    const romRd: array<byte>
    /** ROM_WR_NO: the slot bytes transmitted during the last exchange. */
    const romWr: array<byte>
    var wSize: nat
    var rSize: nat
    var transmittState: nat
    var resetState: nat
    var resetCounter: nat
    var lastTime: Tick
    /** command_ptr is cmdBuf + cmdPos. */
    var cmdBuf: array<byte>
    var cmdPos: nat
    /** data_ptr is dataBuf + dataPos. */
    var dataBuf: array<byte>
    var dataPos: nat
    var readStart: nat

    /** The baud rate the UART was last set to. */
    ghost var baud: nat
    /** The echoes of the reset characters sent since the reset machine
        last started. */
    ghost var pulseEchoes: seq<byte>
    /** The last transfer: the bytes decoded from the echoes consumed so
        far, one per transmitted byte, and the readStart it was called with. */
    ghost var heard: seq<byte>
    ghost var skip0: nat

    ghost predicate Valid()
      reads this, romRd, dataBuf
    {
      romRd.Length == SLOTS && romWr.Length == SLOTS && romRd != romWr &&
      cmdBuf != romRd && cmdBuf != romWr && dataBuf != romRd && dataBuf != romWr &&
      transmittState <= 3 && (transmittState != 0 ==> resetState == 0) && dataPos <= dataBuf.Length &&
      ResetOk(resetState, resetCounter, pulseEchoes, baud, romRd[0]) &&
      TransferOk(transmittState, cmdPos, wSize, cmdBuf.Length, dataPos, rSize, dataBuf.Length,
                 readStart, skip0, heard, dataBuf[..dataPos])
    }

    /** Neither machine is in the middle of anything. */
    ghost predicate Idle()
      reads this
    {
      transmittState == 0 && resetState == 0
    }

    /** An upper bound on the calls the reset machine still needs when the
        UART always reports ready. */
    ghost function ResetProgress(): nat
      reads this
    {
      if resetState == 0 then 3 * OW_READ_ATTEMPT + 5
      else if resetState == 1 then 3 * resetCounter + 4
      else if resetState == 2 then 3 * resetCounter + 3
      else if resetState == 3 then 3 * resetCounter + 2
      else 1
    }

    /** An upper bound on the calls a transfer of cLen bytes still needs
        when the UART always reports ready. */
    ghost function SendProgress(cLen: nat): nat
      reads this
    {
      if transmittState == 0 then 3 * cLen + 2 + ResetProgress()
      else if transmittState == 1 then 3 * wSize + 1
      else if transmittState == 2 then 3 * wSize + 3
      else 3 * wSize + 2
    }

    /** OW_Init, without the UART: both machines idle, the UART at the reset
        rate. */
    constructor ()
      ensures Valid() && Idle() && fresh(romRd) && fresh(romWr)
      ensures resetCounter == 0 && lastTime == 0 && baud == OW_RESET_SPEED
    {
      romRd := new byte[SLOTS];
      romWr := new byte[SLOTS];
      cmdBuf := new byte[0];
      dataBuf := new byte[0];
      transmittState, resetState, resetCounter, lastTime := 0, 0, 0, 0;
      cmdPos, wSize, dataPos, rSize, readStart := 0, 0, 0, 0, 0;
      baud := OW_RESET_SPEED;
      pulseEchoes, heard, skip0 := [], [], 0;
    }

    /** OW_ClearStates: drops whatever either machine was doing. */
    method ClearStates()
      requires Valid()
      modifies this`transmittState, this`resetState, this`resetCounter, this`lastTime
      ensures Valid() && Idle()
      ensures resetCounter == 0 && lastTime == 0
    {
      transmittState := 0;
      resetState := 0;
      resetCounter := 0;
      lastTime := 0;
    }

    /** The start of OW_SearchBlock: both machines are forced back to state
        0, whatever they were doing. */
    method Halt()
      requires Valid()
      modifies this`transmittState, this`resetState
      ensures Valid() && Idle()
    {
      transmittState, resetState := 0, 0;
    }

    /** What one step of the reset machine from states 0 to 3 does, by the
        state it started from, and what every step leaves alone. */
    twostate predicate ResetStepped(input: BusInput)
      reads this, romRd, romWr
    {
      romRd.Length == SLOTS && romWr.Length == SLOTS &&
      // Init: switch to the reset rate and allow OW_READ_ATTEMPT retries.
      (old(resetState) == 0 ==>
        resetState == 1 && resetCounter == OW_READ_ATTEMPT && pulseEchoes == [] && baud == OW_RESET_SPEED) &&
      // Send one reset character and arm the one-byte receive.
      (old(resetState) == 1 ==>
        resetState == 2 && romWr[0] == RESET_PULSE && romRd[0] == RESET_PULSE & input.resetPull &&
        pulseEchoes == old(pulseEchoes) + [romRd[0]] && lastTime == input.tick) &&
      // Wait for the UART, or for more than EXCHANGE_TIMEOUT ms.
      (old(resetState) == 2 ==>
        resetState == if ExchangeOver(input, lastTime) then 3 else 2) &&
      // A changed echo is a presence pulse; otherwise retry while the counter allows.
      (old(resetState) == 3 ==>
        if romRd[0] != RESET_PULSE || old(resetCounter) == 0 then resetState == 4 && resetCounter == old(resetCounter)
        else resetState == 1 && resetCounter == old(resetCounter) - 1) &&
      (old(resetState) != 1 ==> romRd[..] == old(romRd[..]) && lastTime == old(lastTime)) &&
      (old(resetState) >= 2 ==> pulseEchoes == old(pulseEchoes)) &&
      romWr[1..] == old(romWr[1..])
    }

    /** OW_Reset: one step of the reset machine. */
    method Reset(input: BusInput) returns (status: Status)
      requires Valid() && transmittState == 0
      modifies this`resetState, this`resetCounter, this`lastTime, this`baud, this`pulseEchoes, romRd, romWr
      ensures Valid()
      ensures status == Wait <==> old(resetState) != 4
      ensures ResetStepped(input)
      // Report, back at the transfer rate.
      ensures old(resetState) == 4 ==>
        resetState == 0 && baud == OW_TRANSFER_SPEED &&
        status == if resetCounter != 0 then Ok else NoDevice
      // The outcome of a whole reset: it stops at the first presence pulse or
      // after OW_READ_ATTEMPT + 1 pulses, and only a presence pulse seen while
      // retries were left counts.
      ensures status != Wait ==> ResetReport(pulseEchoes, status == Ok)
      ensures status != Wait && AllSilent(pulseEchoes) ==>
        status == NoDevice && |pulseEchoes| == OW_READ_ATTEMPT + 1
      ensures status == Wait && input.ready ==> ResetProgress() < old(ResetProgress())
    {
      status := Wait;
      if resetState == 0 {
        StartReset();
      } else if resetState == 1 {
        SendPulse(input);
      } else if resetState == 2 {
        AwaitPulse(input);
      } else if resetState == 3 {
        CheckPulse();
      } else {
        status := ReportReset();
      }
    }

    /** State 0 of OW_Reset. */
    method StartReset()
      requires Valid() && transmittState == 0 && resetState == 0
      modifies this`resetState, this`resetCounter, this`baud, this`pulseEchoes
      ensures Valid()
      ensures resetState == 1 && resetCounter == OW_READ_ATTEMPT && pulseEchoes == [] && baud == OW_RESET_SPEED
    {
      baud := OW_RESET_SPEED;
      resetCounter := OW_READ_ATTEMPT;
      pulseEchoes := [];
      resetState := 1;
    }

    /** State 1 of OW_Reset: one reset character out, its echo in. */
    method SendPulse(input: BusInput)
      requires Valid() && transmittState == 0 && resetState == 1
      modifies this`resetState, this`lastTime, this`pulseEchoes, romRd, romWr
      ensures Valid()
      ensures resetState == 2 && romWr[0] == RESET_PULSE && romRd[0] == RESET_PULSE & input.resetPull &&
        pulseEchoes == old(pulseEchoes) + [romRd[0]] && lastTime == input.tick
      ensures romWr[1..] == old(romWr[1..])
    {
      romWr[0] := RESET_PULSE;
      romRd[0] := romWr[0] & input.resetPull;
      pulseEchoes := pulseEchoes + [romRd[0]];
      lastTime := input.tick;
      resetState := 2;
    }

    /** State 2 of OW_Reset: wait for the UART, or for more than
        EXCHANGE_TIMEOUT ms. */
    method AwaitPulse(input: BusInput)
      requires Valid() && transmittState == 0 && resetState == 2
      modifies this`resetState
      ensures Valid()
      ensures resetState == if ExchangeOver(input, lastTime) then 3 else 2
    {
      if ExchangeOver(input, lastTime) {
        resetState := 3;
      }
    }

    /** State 3 of OW_Reset. */
    method CheckPulse()
      requires Valid() && transmittState == 0 && resetState == 3
      modifies this`resetState, this`resetCounter
      ensures Valid()
      ensures if romRd[0] != RESET_PULSE || old(resetCounter) == 0 then resetState == 4 && resetCounter == old(resetCounter)
        else resetState == 1 && resetCounter == old(resetCounter) - 1
    {
      if romRd[0] != RESET_PULSE {
        resetState := 4;
      } else if resetCounter != 0 {
        resetCounter := resetCounter - 1;
        resetState := 1;
      } else {
        resetState := 4;
      }
    }

    /** State 4 of OW_Reset. */
    method ReportReset() returns (status: Status)
      requires Valid() && transmittState == 0 && resetState == 4
      modifies this`resetState, this`baud
      ensures Valid() && resetState == 0 && baud == OW_TRANSFER_SPEED
      ensures status == if resetCounter != 0 then Ok else NoDevice
      ensures ResetReport(pulseEchoes, status == Ok)
      ensures AllSilent(pulseEchoes) ==> status == NoDevice && |pulseEchoes| == OW_READ_ATTEMPT + 1
    {
      baud := OW_TRANSFER_SPEED;
      resetState := 0;
      status := if resetCounter != 0 then Ok else NoDevice;
      assert pulseEchoes == pulseEchoes[..|pulseEchoes| - 1] + [pulseEchoes[|pulseEchoes| - 1]];
    }

    /** OW_Send: one step of the transfer machine.  `command[..cLen]` is
        transmitted; from transmitted byte `skip` on, the decoded echoes are
        stored into `data`, at most dLen of them.  A skip of OW_NO_READ
        stores nothing. */
    method Send(command: array<byte>, cLen: nat, data: array<byte>, dLen: nat, skip: nat, input: BusInput)
      returns (status: Status)
      requires Valid()
      requires cLen <= command.Length && dLen <= data.Length && cLen <= 0xFF && dLen <= 0xFF && skip <= 0xFF
      requires command != romRd && command != romWr && data != romRd && data != romWr
      modifies this, romRd, romWr, if transmittState == 3 then {dataBuf} else {}
      ensures Valid()
      // Setup: run the reset machine; when it reports a device, take the
      // call's buffers; when it reports none, give up.
      ensures old(transmittState) == 0 ==>
        (status == NoDevice <==> old(resetState) == 4 && old(resetCounter) == 0) && transmittState <= 1 &&
        (status != NoDevice ==> status == Wait) &&
        (status == NoDevice ==>
          Idle() && |pulseEchoes| == OW_READ_ATTEMPT + 1 && AllSilent(pulseEchoes[..OW_READ_ATTEMPT])) &&
        (transmittState == 1 <==> old(resetState) == 4 && old(resetCounter) != 0) &&
        (transmittState == 1 ==>
          cmdBuf == command && dataBuf == data && cmdPos == 0 && dataPos == 0 &&
          wSize == cLen && rSize == dLen && readStart == skip && skip0 == skip && heard == [])
      // Until the reset machine reports, each call is one step of it.
      ensures old(transmittState) == 0 && old(resetState) != 4 ==> transmittState == 0 && ResetStepped(input)
      // Once it reports, the whole reset went as ResetReport says.
      ensures old(transmittState) == 0 && old(resetState) == 4 ==> ResetReport(pulseEchoes, transmittState == 1)
      ensures old(transmittState) != 0 ==>
        status != NoDevice && resetState == 0 && cmdBuf == old(cmdBuf) && dataBuf == old(dataBuf) &&
        cmdPos + wSize == old(cmdPos + wSize) && dataPos + rSize == old(dataPos + rSize) && skip0 == old(skip0)
      // Transmit: encode the next command byte and exchange its eight slots.
      ensures old(transmittState) == 1 && old(wSize) != 0 ==>
        status == Wait && transmittState == 2 && cmdPos == old(cmdPos) + 1 &&
        romWr[..] == EncodeByte(cmdBuf[old(cmdPos)]) && romRd[..] == Echo(romWr[..], input.slotPull) &&
        heard == old(heard) && lastTime == input.tick
      // Done: every command byte went out and every echo was consumed; the
      // data buffer holds what was captured.
      ensures old(transmittState) == 1 && old(wSize) == 0 ==> status == Ok && Idle()
      ensures status == Ok ==>
        old(transmittState) == 1 && wSize == 0 && |heard| == cmdPos &&
        dataBuf[..dataPos] == Captured(heard, skip0, dataPos + rSize)
      // Wait for the UART, or for more than EXCHANGE_TIMEOUT ms.
      ensures old(transmittState) == 2 ==>
        status == Wait && transmittState == (if ExchangeOver(input, old(lastTime)) then 3 else 2) &&
        romRd[..] == old(romRd[..]) && heard == old(heard)
      // Consume: decode the echo and store it or count the skip down.
      ensures old(transmittState) == 3 ==>
        status == Wait && transmittState == 1 && heard == old(heard) + [DecodeByte(old(romRd[..]))]
      // Neither the wait nor the consume touches the slot buffers or the
      // time of the exchange, and the consume writes at most *data_ptr.
      ensures old(transmittState) == 2 || old(transmittState) == 3 ==>
        lastTime == old(lastTime) && romRd[..] == old(romRd[..]) && romWr[..] == old(romWr[..])
      ensures old(transmittState) == 3 ==>
        forall j | 0 <= j < dataBuf.Length && !(old(dataPos) <= j < dataPos) :: dataBuf[j] == old(dataBuf[j])
      ensures status == Wait && input.ready ==> SendProgress(cLen) < old(SendProgress(cLen))
    {
      if transmittState == 0 {
        status := Setup(command, cLen, data, dLen, skip, input);
      } else {
        status := Proceed(input);
      }
    }

    /** State 0 of OW_Send: run the reset machine and, once it reports a
        device, take the call's buffers. */
    method Setup(command: array<byte>, cLen: nat, data: array<byte>, dLen: nat, skip: nat, input: BusInput)
      returns (status: Status)
      requires Valid() && transmittState == 0
      requires cLen <= command.Length && dLen <= data.Length && cLen <= 0xFF && dLen <= 0xFF && skip <= 0xFF
      requires command != romRd && command != romWr && data != romRd && data != romWr
      modifies this, romRd, romWr
      ensures Valid()
      ensures (status == NoDevice <==> old(resetState) == 4 && old(resetCounter) == 0) && transmittState <= 1 &&
        (status != NoDevice ==> status == Wait) &&
        (status == NoDevice ==>
          Idle() && |pulseEchoes| == OW_READ_ATTEMPT + 1 && AllSilent(pulseEchoes[..OW_READ_ATTEMPT])) &&
        (transmittState == 1 <==> old(resetState) == 4 && old(resetCounter) != 0) &&
        (transmittState == 1 ==>
          cmdBuf == command && dataBuf == data && cmdPos == 0 && dataPos == 0 &&
          wSize == cLen && rSize == dLen && readStart == skip && skip0 == skip && heard == [])
      ensures old(resetState) != 4 ==> transmittState == 0 && ResetStepped(input)
      ensures old(resetState) == 4 ==> ResetReport(pulseEchoes, transmittState == 1)
      ensures status == Wait && input.ready ==> SendProgress(cLen) < old(SendProgress(cLen))
    {
      status := Wait;
      var r := Reset(input);
      if r == NoDevice {
        ResetReportAbsent(pulseEchoes);
        status := NoDevice;
      } else if r == Ok {
        Begin(command, cLen, data, dLen, skip);
      }
    }

    /** States 1 to 3 of OW_Send: one step of a running transfer. */
    method Proceed(input: BusInput) returns (status: Status)
      requires Valid() && transmittState != 0
      modifies this, romRd, romWr, if transmittState == 3 then {dataBuf} else {}
      ensures Valid()
      ensures status != NoDevice && resetState == 0 && cmdBuf == old(cmdBuf) && dataBuf == old(dataBuf) &&
        cmdPos + wSize == old(cmdPos + wSize) && dataPos + rSize == old(dataPos + rSize) && skip0 == old(skip0)
      ensures old(transmittState) == 1 && old(wSize) != 0 ==>
        status == Wait && transmittState == 2 && cmdPos == old(cmdPos) + 1 &&
        romWr[..] == EncodeByte(cmdBuf[old(cmdPos)]) && romRd[..] == Echo(romWr[..], input.slotPull) &&
        heard == old(heard) && lastTime == input.tick
      ensures old(transmittState) == 1 && old(wSize) == 0 ==> status == Ok && Idle()
      ensures status == Ok ==>
        old(transmittState) == 1 && wSize == 0 && |heard| == cmdPos &&
        dataBuf[..dataPos] == Captured(heard, skip0, dataPos + rSize)
      ensures old(transmittState) == 2 ==>
        status == Wait && transmittState == (if ExchangeOver(input, old(lastTime)) then 3 else 2) &&
        romRd[..] == old(romRd[..]) && heard == old(heard)
      ensures old(transmittState) == 3 ==>
        status == Wait && transmittState == 1 && heard == old(heard) + [DecodeByte(old(romRd[..]))]
      // Neither the wait nor the consume touches the slot buffers or the
      // time of the exchange, and the consume writes at most *data_ptr.
      ensures old(transmittState) == 2 || old(transmittState) == 3 ==>
        lastTime == old(lastTime) && romRd[..] == old(romRd[..]) && romWr[..] == old(romWr[..])
      ensures old(transmittState) == 3 ==>
        forall j | 0 <= j < dataBuf.Length && !(old(dataPos) <= j < dataPos) :: dataBuf[j] == old(dataBuf[j])
      ensures status == Wait && input.ready ==> SendProgress(0) < old(SendProgress(0))
    {
      status := Wait;
      if transmittState == 1 {
        if wSize != 0 {
          TransmitNext(input);
        } else {
          FinishTransfer();
          status := Ok;
        }
      } else if transmittState == 2 {
        AwaitEcho(input);
      } else {
        ConsumeEcho();
      }
    }

    /** State 0 of OW_Send once the reset machine found a device: take the
        call's buffers and sizes. */
    method Begin(command: array<byte>, cLen: nat, data: array<byte>, dLen: nat, skip: nat)
      requires Valid() && Idle()
      requires cLen <= command.Length && dLen <= data.Length && cLen <= 0xFF && dLen <= 0xFF && skip <= 0xFF
      requires command != romRd && command != romWr && data != romRd && data != romWr
      modifies this`cmdBuf, this`cmdPos, this`wSize, this`dataBuf, this`dataPos, this`rSize, this`readStart,
        this`heard, this`skip0, this`transmittState
      ensures Valid() && transmittState == 1
      ensures cmdBuf == command && dataBuf == data && cmdPos == 0 && dataPos == 0 &&
        wSize == cLen && rSize == dLen && readStart == skip && skip0 == skip && heard == []
    {
      TakeData(data, dLen, skip);
      TakeCommand(command, cLen);
      assert dataBuf[..dataPos] == [];
      transmittState := 1;
    }

    /** The data buffer and skip count of a new transfer, taken while idle;
        nothing has been heard yet. */
    method TakeData(data: array<byte>, dLen: nat, skip: nat)
      requires Valid() && Idle()
      requires dLen <= data.Length && dLen <= 0xFF && skip <= 0xFF && data != romRd && data != romWr
      modifies this`dataBuf, this`dataPos, this`rSize, this`readStart, this`heard, this`skip0
      ensures Valid() && Idle()
      ensures dataBuf == data && dataPos == 0 && rSize == dLen && readStart == skip && skip0 == skip && heard == []
    {
      dataBuf, dataPos, rSize, readStart := data, 0, dLen, skip;
      heard, skip0 := [], skip;
    }

    /** The command buffer of a new transfer, taken while idle. */
    method TakeCommand(command: array<byte>, cLen: nat)
      requires Valid() && Idle() && heard == []
      requires cLen <= command.Length && cLen <= 0xFF && command != romRd && command != romWr
      modifies this`cmdBuf, this`cmdPos, this`wSize
      ensures Valid() && Idle()
      ensures cmdBuf == command && cmdPos == 0 && wSize == cLen
    {
      cmdBuf, cmdPos, wSize := command, 0, cLen;
    }

    /** State 1 of OW_Send with bytes left: OW_ToBits of the next command
        byte, then the eight-slot exchange. */
    method TransmitNext(input: BusInput)
      requires Valid() && transmittState == 1 && wSize != 0
      modifies this`transmittState, this`cmdPos, this`wSize, this`lastTime, romRd, romWr
      ensures Valid() && transmittState == 2 && wSize == old(wSize) - 1 && cmdPos == old(cmdPos) + 1
      ensures romWr[..] == EncodeByte(cmdBuf[old(cmdPos)]) && romRd[..] == Echo(romWr[..], input.slotPull)
      ensures lastTime == input.tick
    {
      ToBits(cmdBuf[cmdPos], romWr);
      cmdPos := cmdPos + 1;
      wSize := wSize - 1;
      forall i | 0 <= i < SLOTS {
        romRd[i] := romWr[i] & input.slotPull[i];
      }
      lastTime := input.tick;
      transmittState := 2;
    }

    /** State 1 of OW_Send with no bytes left: the transfer is complete. */
    method FinishTransfer()
      requires Valid() && transmittState == 1 && wSize == 0
      modifies this`transmittState
      ensures Valid() && Idle()
      ensures |heard| == cmdPos && dataBuf[..dataPos] == Captured(heard, skip0, dataPos + rSize)
    {
      transmittState := 0;
    }

    /** State 2 of OW_Send: wait for the UART, or for more than
        EXCHANGE_TIMEOUT ms. */
    method AwaitEcho(input: BusInput)
      requires Valid() && transmittState == 2
      modifies this`transmittState
      ensures Valid()
      ensures transmittState == if ExchangeOver(input, lastTime) then 3 else 2
    {
      if ExchangeOver(input, lastTime) {
        transmittState := 3;
      }
    }

    /** State 3 of OW_Send: OW_ToByte of the echo, then store it or count
        the skip down. */
    method ConsumeEcho()
      requires Valid() && transmittState == 3
      modifies this`transmittState, this`dataPos, this`rSize, this`readStart, this`heard, dataBuf
      ensures Valid() && transmittState == 1
      ensures heard == old(heard) + [DecodeByte(romRd[..])] && dataPos + rSize == old(dataPos + rSize)
      ensures forall j | 0 <= j < dataBuf.Length && !(old(dataPos) <= j < dataPos) :: dataBuf[j] == old(dataBuf[j])
    {
      var b := ToByte(romRd);
      if readStart == 0 && rSize != 0 {
        StoreByte(b);
      } else {
        SkipByte(b);
      }
    }

    /** State 3 of OW_Send while readStart is 0 and room is left: the
        decoded echo is stored. */
    method StoreByte(b: byte)
      requires Valid() && transmittState == 3 && readStart == 0 && rSize != 0
      modifies this`transmittState, this`dataPos, this`rSize, this`heard, dataBuf
      ensures Valid() && transmittState == 1
      ensures heard == old(heard) + [b] && dataPos + rSize == old(dataPos + rSize)
      ensures dataPos == old(dataPos) + 1 && dataBuf[old(dataPos)] == b
      ensures forall j | 0 <= j < dataBuf.Length && j != old(dataPos) :: dataBuf[j] == old(dataBuf[j])
    {
      ConsumeKeeps(cmdPos, wSize, cmdBuf.Length, dataPos, rSize, dataBuf.Length, readStart, skip0, heard,
                   dataBuf[..dataPos], b);
      dataBuf[dataPos] := b;
      assert dataBuf[..dataPos + 1] == old(dataBuf[..dataPos]) + [b];
      dataPos, rSize, heard, transmittState := dataPos + 1, rSize - 1, heard + [b], 1;
    }

    /** State 3 of OW_Send otherwise: the decoded echo is counted against
        readStart, a uint8 that wraps from 0 to 0xFF, unless reading is
        off. */
    method SkipByte(b: byte)
      requires Valid() && transmittState == 3 && !(readStart == 0 && rSize != 0)
      modifies this`transmittState, this`readStart, this`heard
      ensures Valid() && transmittState == 1 && heard == old(heard) + [b]
    {
      ConsumeKeeps(cmdPos, wSize, cmdBuf.Length, dataPos, rSize, dataBuf.Length, readStart, skip0, heard,
                   dataBuf[..dataPos], b);
      if readStart != OW_NO_READ {
        readStart := if readStart == 0 then 0xFF else readStart - 1;
      }
      heard, transmittState := heard + [b], 1;
    }
  }

  /** The busy-wait of DT_init and OW_SearchBlock: OW_Send is called with
      `command`, no data and no read until it stops answering OW_WAIT.  A
      transfer already in flight, which stores into `rd` or `none`, is
      finished instead.  From an idle engine, either the whole command went
      out and every echo was heard, or the reset found no device. */
  method SendWaiting(ow: OneWire, command: array<byte>, none: array<byte>, rd: array<byte>, input: BusInput)
    requires ow.Valid() && input.ready && command.Length <= 0xFF && none.Length == 0
    requires command != ow.romRd && command != ow.romWr && none != ow.romRd && none != ow.romWr
    requires command != none && command != rd
    requires ow.transmittState != 0 ==> ow.dataBuf == rd || ow.dataBuf == none
    modifies ow, ow.romRd, ow.romWr, rd, none
    ensures ow.Valid() && ow.Idle()
    ensures old(ow.Idle()) ==>
      (ow.cmdBuf == command && |ow.heard| == command.Length) ||
      (|ow.pulseEchoes| == OW_READ_ATTEMPT + 1 && AllSilent(ow.pulseEchoes[..OW_READ_ATTEMPT]))
  {
    ghost var idle := ow.Idle();
    while true
      invariant ow.Valid()
      invariant ow.transmittState != 0 ==> ow.dataBuf == rd || ow.dataBuf == none
      invariant idle && ow.transmittState != 0 ==> ow.cmdBuf == command && ow.cmdPos + ow.wSize == command.Length
      decreases ow.SendProgress(command.Length)
    {
      var status := ow.Send(command, command.Length, none, 0, OW_NO_READ, input);
      if status != Wait {
        break;
      }
    }
  }

  /** A proof helper with no counterpart in the C code.  While neither
      machine runs, the buffers are not the engine's concern:
      writing to the data buffer, to the slot buffers or to any other array
      keeps the engine valid and idle. */
  twostate lemma IdleIgnoresBuffers(ow: OneWire)
    requires old(ow.Valid()) && old(ow.Idle())
    requires unchanged(ow)
    ensures ow.Valid() && ow.Idle()
  {
  }
}
