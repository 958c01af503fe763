/** The DS18B20 poller of src/dallas_temperature.c: it finds up to three
    thermometers with the ROM search, then cycles forever through "convert
    on every sensor, wait, read each sensor's scratchpad", one small step
    per call, driving the 1-Wire engine one step at a time as well.
    Readings are kept as the raw signed 16-bit value the sensor reports,
    in units of 1/16 degree Celsius. */
module DallasTemperature {
  import opened OneWireCodec
  import opened OneWireCrc
  import opened RomOrder
  import opened UartOneWire
  import opened OneWireSearch

  const DS_MAX_SENSORS: nat := 3
  const DS_ALARM_TH: byte := 0x64
  const DS_ALARM_TL: byte := 0x9E

  // Function commands of the DS18B20.
  const STARTCONVO: byte := 0x44
  const READSCRATCH: byte := 0xBE
  const WRITESCRATCH: byte := 0x4E
  // ROM commands.
  const SKIP_ROM: byte := 0xCC
  const MATCH_ROM: byte := 0x55

  // Scratchpad locations.
  const TEMP_LSB: nat := 0
  const TEMP_MSB: nat := 1
  const SCRATCHPAD_CRC: nat := 8
  const SCRATCHPAD_BYTES: nat := 9

  // Resolution codes of the configuration register.
  const TEMP_9_BIT: byte := 0x1F
  const TEMP_10_BIT: byte := 0x3F
  const TEMP_11_BIT: byte := 0x5F
  const TEMP_12_BIT: byte := 0x7F

  /** The number of reset-and-search attempts DT_Search makes. */
  const SEARCH_ATTEMPTS: nat := 5
  /** The read frame transmits this many command bytes before its read slots. */
  const READ_SKIP: nat := 10
  const READ_FRAME_LEN: nat := 19
  const CONVERT_FRAME_LEN: nat := 2

  // ------------------------------------------------------------ frames

  /** The DT_init query: every sensor (Skip ROM) gets Write Scratchpad with
      the alarm bytes and the configuration byte holding the resolution. */
  function InitQuery(resolution: byte): seq<byte> {
    [SKIP_ROM, WRITESCRATCH, DS_ALARM_TH, DS_ALARM_TL, resolution]
  }

  /** State 0's frame: every sensor (Skip ROM) starts a conversion. */
  function ConvertFrame(): seq<byte> {
    [SKIP_ROM, STARTCONVO]
  }

  /** State 3's frame: Match ROM with the sensor's eight ROM bytes, Read
      Scratchpad, then nine read slots. */
  function ReadFrame(rom: seq<byte>): seq<byte>
    requires |rom| == ROM_BYTES
  {
    [MATCH_ROM] + rom + [READSCRATCH] + seq(SCRATCHPAD_BYTES, i => OW_READ_SLOT)
  }

  /** Byte j of the read frame. */
  lemma ReadFrameAt(rom: seq<byte>, j: nat)
    requires |rom| == ROM_BYTES && j < READ_FRAME_LEN
    ensures |ReadFrame(rom)| == READ_FRAME_LEN
    ensures ReadFrame(rom)[j] ==
      if j == 0 then MATCH_ROM else if j <= ROM_BYTES then rom[j - 1]
      else if j == ROM_BYTES + 1 then READSCRATCH else OW_READ_SLOT
  {
  }

  /** Sent with readStart READ_SKIP and nine data bytes, the read frame
      stores exactly the echoes of its nine read slots: the sensor's
      scratchpad.  Everything before them is the Match ROM addressing and
      the Read Scratchpad command. */
  lemma ReadFrameCaptures(rom: seq<byte>, heard: seq<byte>)
    requires |rom| == ROM_BYTES && |heard| == |ReadFrame(rom)|
    ensures |ReadFrame(rom)| == READ_FRAME_LEN
    ensures Captured(heard, READ_SKIP, SCRATCHPAD_BYTES) == heard[READ_SKIP..]
    ensures forall i | READ_SKIP <= i < READ_FRAME_LEN :: ReadFrame(rom)[i] == OW_READ_SLOT
    ensures ReadFrame(rom)[..READ_SKIP] == [MATCH_ROM] + rom + [READSCRATCH]
  {
    var f := ReadFrame(rom);
    assert f[..READ_SKIP] == [MATCH_ROM] + rom + [READSCRATCH];
  }

  // ------------------------------------------------------------ scratchpad

  /** DT_IsConnected_ScratchPad: byte 8 of the scratchpad is the CRC-8 of
      bytes 0 to 7. */
  predicate ScratchpadOk(pad: seq<byte>)
    requires |pad| == SCRATCHPAD_BYTES
  {
    Crc8(pad[..SCRATCHPAD_CRC]) == pad[SCRATCHPAD_CRC]
  }

  /** The gate is the CRC-8 residue check: a scratchpad passes exactly when
      the CRC-8 of all nine bytes is zero. */
  lemma ScratchpadResidue(pad: seq<byte>)
    requires |pad| == SCRATCHPAD_BYTES
    ensures ScratchpadOk(pad) <==> Crc8(pad) == 0
  {
    assert pad[..|pad| - 1] == pad[..SCRATCHPAD_CRC];
    Crc8Gate(pad);
  }

  /** A sensor's eight data bytes followed by their CRC-8 pass the gate. */
  lemma ScratchpadOfData(data: seq<byte>)
    requires |data| == SCRATCHPAD_CRC
    ensures ScratchpadOk(data + [Crc8(data)])
  {
    assert (data + [Crc8(data)])[..SCRATCHPAD_CRC] == data;
  }

  /** A scratchpad that passes the gate fails it once any one byte is
      corrupted. */
  lemma ScratchpadDetectsByteError(pad: seq<byte>, bad: seq<byte>, i: nat)
    requires |pad| == SCRATCHPAD_BYTES && |bad| == SCRATCHPAD_BYTES && i < SCRATCHPAD_BYTES
    requires pad[i] != bad[i] && forall j | 0 <= j < SCRATCHPAD_BYTES && j != i :: pad[j] == bad[j]
    requires ScratchpadOk(pad)
    ensures !ScratchpadOk(bad)
  {
    if i < SCRATCHPAD_CRC {
      Crc8DetectsByteError(pad[..SCRATCHPAD_CRC], bad[..SCRATCHPAD_CRC], i);
    } else {
      assert pad[..SCRATCHPAD_CRC] == bad[..SCRATCHPAD_CRC];
    }
  }

  // ------------------------------------------------------------ readings

  /** A C cast to int16_t: the value modulo 2^16, read as two's complement. */
  function Int16(x: int): int {
    var u := x % 0x1_0000;
    if u >= 0x8000 then u - 0x1_0000 else u
  }

  /** The reading of state 5: (int16_t)(MSB << 8) | (int16_t)LSB.  The low
      byte of the first operand is zero, so the "or" adds the LSB.  The
      reading is a signed 16-bit value whose sign is bit 7 of the MSB. */
  function RawTemperature(lsb: byte, msb: byte): (t: int)
    ensures -0x8000 <= t < 0x8000
    ensures t < 0 <==> msb >= 0x80
  {
    Int16(msb as int * 256) + lsb as int
  }

  /** The values of the two scratchpad bytes that report a raw reading t:
      the low and high byte of its 16-bit two's complement pattern. */
  function TemperatureBytes(t: int): (bytes: (int, int))
    requires -0x8000 <= t < 0x8000
    ensures 0 <= bytes.0 < 256 && 0 <= bytes.1 < 256
  {
    var u := if t < 0 then t + 0x1_0000 else t;
    (u % 256, u / 256)
  }

  /** A uint16 pattern read through the int16 cast. */
  lemma Int16OfPattern(u: int)
    requires 0 <= u < 0x1_0000
    ensures Int16(u) == if u >= 0x8000 then u - 0x1_0000 else u
  {
  }

  /** The quotient and remainder of u = 256 q + r. */
  lemma DivideByByte(u: int, q: int, r: int)
    requires 0 <= r < 256 && u == 256 * q + r
    ensures u / 256 == q && u % 256 == r
  {
  }

  /** The arithmetic of the reading on the byte values m and l. */
  lemma PatternValue(l: int, m: int, t: int)
    requires 0 <= l < 256 && 0 <= m < 256 && -0x8000 <= t < 0x8000
    ensures Int16(m * 256) + l == t <==> (l, m) == TemperatureBytes(t)
  {
    Int16OfPattern(m * 256);
    var u := if t < 0 then t + 0x1_0000 else t;
    if Int16(m * 256) + l == t {
      assert u == m * 256 + l;
      DivideByByte(u, m, l);
    }
  }

  /** Each raw reading has exactly one pair of bytes that reports it: the
      bytes read as t exactly when they are t's low and high byte. */
  lemma RawTemperatureBytes(lsb: byte, msb: byte, t: int)
    requires -0x8000 <= t < 0x8000
    ensures RawTemperature(lsb, msb) == t <==> (lsb as int, msb as int) == TemperatureBytes(t)
  {
    PatternValue(lsb as int, msb as int, t);
  }

  /** Two readings from the DS18B20 data sheet: 07D0h is +125 degrees and
      FF5Eh is -10.125 degrees, in units of 1/16 degree. */
  lemma DataSheetReadings()
    ensures RawTemperature(0xD0, 0x07) == 125 * 16
    ensures RawTemperature(0x5E, 0xFF) * 1000 == -10125 * 16
  {
  }

  // ------------------------------------------------------------ conversion time

  /** The conversion time in milliseconds for a resolution code: the
      data sheet's 93.75, 187.5, 375 and 750 ms, rounded up; any other code
      waits as long as 12 bits. */
  function ConversionMillis(resolution: byte): (ms: nat)
    ensures ms == 94 || ms == 188 || ms == 375 || ms == 750
    ensures resolution != TEMP_9_BIT && resolution != TEMP_10_BIT && resolution != TEMP_11_BIT ==> ms == 750
  {
    if resolution == TEMP_9_BIT then 94
    else if resolution == TEMP_10_BIT then 188
    else if resolution == TEMP_11_BIT then 375
    else 750
  }

  /** DT_MillisToWaitForConversion as written: the uint32 difference
      `lastTime - time` is compared with the conversion time. */
  predicate ConversionWaitOver(resolution: byte, lastTime: Tick, time: Tick) {
    Since(lastTime, time) > ConversionMillis(resolution)
  }

  /** The test the wait evidently intends: more than the conversion time has
      passed since lastTime, with the uint32 difference `time - lastTime`. */
  predicate ConversionElapsed(resolution: byte, lastTime: Tick, time: Tick) {
    Since(time, lastTime) > ConversionMillis(resolution)
  }

  /** The time `elapsed` milliseconds after `start` on the wrapping clock. */
  function After(start: Tick, elapsed: nat): Tick
    requires elapsed < 0x1_0000_0000
  {
    (start + elapsed) % 0x1_0000_0000
  }

  /** The intended test holds exactly once more than the conversion time has
      passed, across a wrap of the clock as well. */
  lemma ConversionElapsedMeans(resolution: byte, start: Tick, elapsed: nat)
    requires elapsed < 0x1_0000_0000
    ensures ConversionElapsed(resolution, start, After(start, elapsed)) <==> elapsed > ConversionMillis(resolution)
  {
    var time := After(start, elapsed);
    if start + elapsed < 0x1_0000_0000 {
      assert time == start + elapsed;
    } else {
      assert time == start + elapsed - 0x1_0000_0000;
    }
  }

  /** The test as written holds from the first millisecond after the
      conversion started until the conversion time before the clock comes
      round again: the wait is over after one millisecond. */
  lemma ConversionWaitOverMeans(resolution: byte, start: Tick, elapsed: nat)
    requires elapsed < 0x1_0000_0000
    ensures ConversionWaitOver(resolution, start, After(start, elapsed)) <==>
      0 < elapsed < 0x1_0000_0000 - ConversionMillis(resolution)
  {
    var time := After(start, elapsed);
    if start + elapsed < 0x1_0000_0000 {
      assert time == start + elapsed;
    } else {
      assert time == start + elapsed - 0x1_0000_0000;
    }
    if elapsed != 0 {
      assert Since(start, time) == 0x1_0000_0000 - elapsed;
    }
  }

  /** At 12 bits, one millisecond after the convert command the code as
      written goes on to read the scratchpad, 749 ms before the conversion
      is done. */
  lemma ConversionWaitOneMillisecond()
    ensures ConversionWaitOver(TEMP_12_BIT, 1000, 1001)
    ensures !ConversionElapsed(TEMP_12_BIT, 1000, 1001)
  {
    ConversionWaitOverMeans(TEMP_12_BIT, 1000, 1);
    ConversionElapsedMeans(TEMP_12_BIT, 1000, 1);
  }

  // ------------------------------------------------------------ search

  /** What a search of at most DS_MAX_SENSORS devices leaves: the codes are
      the first ones in search order, and all of them when fewer were found. */
  ghost predicate Discovered(devices: set<Rom>, roms: seq<Rom>) {
    FirstInOrder(roms, devices) &&
    (|roms| < DS_MAX_SENSORS ==> forall d :: d in devices <==> d in roms)
  }

  /** The attempt at which DT_Search stops: the first whose bus holds a
      device, or the number of attempts when every bus is empty. */
  function FirstBusy(buses: seq<set<Rom>>): (k: nat)
    ensures k <= |buses|
    ensures forall a | 0 <= a < k :: buses[a] == {}
    ensures k < |buses| ==> buses[k] != {}
  {
    if buses == [] || buses[0] != {} then 0 else 1 + FirstBusy(buses[1..])
  }

  /** A search finds no device exactly when there is none on the bus. */
  lemma DiscoveredNone(devices: set<Rom>, roms: seq<Rom>)
    requires Discovered(devices, roms)
    ensures roms == [] <==> devices == {}
  {
    if roms != [] {
      assert roms[0] in devices;
    }
  }

  /** The reset busy-wait of DT_Search: OW_Reset is called until it stops
      answering OW_WAIT. */
  method ResetBus(ow: OneWire, input: BusInput)
    requires ow.Valid() && ow.transmittState == 0 && input.ready
    modifies ow`resetState, ow`resetCounter, ow`lastTime, ow`baud, ow`pulseEchoes, ow.romRd, ow.romWr
    ensures ow.Valid() && ow.Idle()
  {
    while true
      invariant ow.Valid() && ow.transmittState == 0
      decreases ow.ResetProgress()
    {
      var status := ow.Reset(input);
      if status != Wait {
        break;
      }
    }
  }

  /** One attempt of DT_Search: reset the bus, waiting for the reset machine
      to finish, then search for up to DS_MAX_SENSORS codes. */
  method SearchOnce(ow: OneWire, id: array<byte>, devices: set<Rom>) returns (found: nat)
    requires ow.Valid() && ow.Idle() && id != ow.romRd && id != ow.romWr
    requires id.Length == ROM_BYTES * DS_MAX_SENSORS
    modifies ow, ow.romRd, ow.romWr, id
    ensures ow.Valid() && ow.Idle() && found <= DS_MAX_SENSORS
    ensures Discovered(devices, Roms(id[..], found)) && (found == 0 <==> devices == {})
    ensures forall j | ROM_BYTES * found <= j < id.Length :: id[j] == old(id[j])
  {
    ResetBus(ow, BusInput(PresencePull(devices), NO_PULL, true, 0));
    found := SearchBlock(ow, id, DS_MAX_SENSORS, devices);
    DiscoveredNone(devices, Roms(id[..], found));
  }

  /** The frame building of state 3: Match ROM, the eight ROM bytes at
      `base` copied out of `id`, Read Scratchpad, and nine read slots. */
  method FillReadFrame(frame: array<byte>, id: array<byte>, base: nat)
    requires frame != id && READ_FRAME_LEN <= frame.Length && base + ROM_BYTES <= id.Length
    modifies frame
    ensures frame[..READ_FRAME_LEN] == ReadFrame(id[base .. base + ROM_BYTES])
    ensures frame[READ_FRAME_LEN..] == old(frame[READ_FRAME_LEN..])
  {
    frame[0] := MATCH_ROM;
    forall i | 0 <= i < ROM_BYTES {
      frame[1 + i] := id[base + i];
    }
    frame[9] := READSCRATCH;
    forall i | READ_SKIP <= i < READ_FRAME_LEN {
      frame[i] := OW_READ_SLOT;
    }
    var rom := id[base .. base + ROM_BYTES];
    forall j | 0 <= j < READ_FRAME_LEN
      ensures frame[j] == ReadFrame(rom)[j]
    {
      ReadFrameAt(rom, j);
    }
  }

  // ------------------------------------------------------------ the poller

  /** DallasTemperatureData: the engine, the ROM codes found, the raw
      readings, the frame buffers and the polling state. */
  class Sensors {
    const ow: OneWire
    /** Eight ROM bytes per sensor found. */
    const id: array<byte>
    /** The last good raw reading of each sensor. */
    const temp: array<int>
    const rddata: array<byte>
    const wrdata: array<byte>
    /** The empty buffer passed where the C code passes NULL. */
    const none: array<byte>
    var devicesCount: nat
    var state: nat
    var resolution: byte
    /** When the last conversion was started. */
    var lastTime: Tick
    /** counteRead: the sensor being read. */
    var current: nat

    /** The buffers have the sizes of the C struct and are distinct from each
        other and from the engine's slot buffers. */
    ghost predicate Storage() {
      id.Length == ROM_BYTES * DS_MAX_SENSORS && temp.Length == DS_MAX_SENSORS &&
      rddata.Length == 10 && wrdata.Length == 20 && none.Length == 0 &&
      id != rddata && id != wrdata && rddata != wrdata && none != id && none != rddata && none != wrdata &&
      id != ow.romRd && id != ow.romWr && rddata != ow.romRd && rddata != ow.romWr &&
      wrdata != ow.romRd && wrdata != ow.romWr && none != ow.romRd && none != ow.romWr
    }

    /** The poller's invariant: at most DS_MAX_SENSORS sensors, the sensor
        being read is one of them, the engine rests outside the two sending
        states, and a transfer in flight is the one the current state sent. */
    ghost predicate Valid()
      reads this, ow, ow.romRd, ow.dataBuf
    {
      ow.Valid() && Storage() &&
      devicesCount <= DS_MAX_SENSORS && state <= 5 && (current < devicesCount || current == 0) &&
      (state != 1 && state != 4 ==> ow.Idle()) &&
      (ow.transmittState != 0 && state == 1 ==>
        ow.cmdBuf == wrdata && ow.dataBuf == none && ow.cmdPos + ow.wSize == CONVERT_FRAME_LEN &&
        ow.skip0 == OW_NO_READ) &&
      (ow.transmittState != 0 && state == 4 ==>
        ow.cmdBuf == wrdata && ow.dataBuf == rddata && ow.cmdPos + ow.wSize == READ_FRAME_LEN &&
        ow.dataPos + ow.rSize == SCRATCHPAD_BYTES && ow.skip0 == READ_SKIP)
    }

    /** DT_SetOneWire: take the engine, clear the state and search the bus. */
    constructor (ow: OneWire, buses: seq<set<Rom>>)
      requires ow.Valid() && |buses| == SEARCH_ATTEMPTS
      modifies ow, ow.romRd, ow.romWr
      ensures Valid() && ow.Idle() && this.ow == ow
      ensures resolution == 0 && lastTime == 0 && state == 0 && current == 0
      ensures devicesCount == 0 <==> forall a | 0 <= a < SEARCH_ATTEMPTS :: buses[a] == {}
      ensures FirstBusy(buses) < SEARCH_ATTEMPTS ==>
        Discovered(buses[FirstBusy(buses)], Roms(id[..], devicesCount))
    {
      this.ow := ow;
      id := new byte[ROM_BYTES * DS_MAX_SENSORS];
      temp := new int[DS_MAX_SENSORS];
      rddata := new byte[10];
      wrdata := new byte[20];
      none := new byte[0];
      devicesCount, state, resolution, lastTime, current := 0, 0, 0, 0, 0;
      new;
      Search(buses);
    }

    /** DT_Search: forget everything, then make up to SEARCH_ATTEMPTS
        reset-and-search attempts, stopping at the first that finds a
        sensor.  Attempt a meets the bus holding `buses[a]`: the codes found
        are those of the first attempt whose bus is not empty. */
    method Search(buses: seq<set<Rom>>)
      requires ow.Valid() && Storage() && |buses| == SEARCH_ATTEMPTS
      modifies this`devicesCount, this`state, this`current, ow, ow.romRd, ow.romWr, id, temp
      ensures Valid() && ow.Idle() && state == 0 && current == 0
      ensures devicesCount == 0 <==> forall a | 0 <= a < SEARCH_ATTEMPTS :: buses[a] == {}
      ensures FirstBusy(buses) < SEARCH_ATTEMPTS ==>
        Discovered(buses[FirstBusy(buses)], Roms(id[..], devicesCount))
      ensures forall j | ROM_BYTES * devicesCount <= j < id.Length :: id[j] == 0
      ensures forall k | 0 <= k < temp.Length :: temp[k] == 0
    {
      Forget();
      var attempt: nat := SEARCH_ATTEMPTS;
      while attempt != 0
        invariant ow.Valid() && ow.Idle() && Storage() && devicesCount == 0 && state == 0 && current == 0
        invariant attempt <= SEARCH_ATTEMPTS
        invariant forall a | 0 <= a < SEARCH_ATTEMPTS - attempt :: buses[a] == {}
        invariant forall j | 0 <= j < id.Length :: id[j] == 0
        invariant forall k | 0 <= k < temp.Length :: temp[k] == 0
        decreases attempt
      {
        var a := SEARCH_ATTEMPTS - attempt;
        devicesCount := SearchOnce(ow, id, buses[a]);
        if devicesCount != 0 {
          assert FirstBusy(buses) == a;
          break;
        }
        attempt := attempt - 1;
      }
    }

    /** The clearing part of DT_Search: no codes, no sensors, no readings,
        and both engine machines stopped. */
    method Forget()
      requires ow.Valid() && Storage()
      modifies this`devicesCount, this`state, this`current, ow`transmittState, ow`resetState, ow`resetCounter,
        ow`lastTime, id, temp
      ensures ow.Valid() && ow.Idle() && devicesCount == 0 && state == 0 && current == 0
      ensures forall j | 0 <= j < id.Length :: id[j] == 0
      ensures forall k | 0 <= k < temp.Length :: temp[k] == 0
    {
      ow.ClearStates();
      label cleared:
      forall i | 0 <= i < id.Length {
        id[i] := 0;
      }
      devicesCount, state, current := 0, 0, 0;
      forall k | 0 <= k < temp.Length {
        temp[k] := 0;
      }
      IdleIgnoresBuffers@cleared(ow);
    }
    /** DT_init: send the query setting the resolution, waiting for the
        transfer to finish.  When the engine was idle, the query is what
        went out, unless the reset found no device. */
    method Init(res: byte, input: BusInput)
      requires Valid() && input.ready
      modifies this`resolution, ow, ow.romRd, ow.romWr, rddata, none
      ensures Valid() && ow.Idle() && resolution == res
      ensures old(ow.Idle()) ==>
        (ow.cmdBuf[..] == InitQuery(res) && |ow.heard| == |InitQuery(res)|) ||
        (|ow.pulseEchoes| == OW_READ_ATTEMPT + 1 && AllSilent(ow.pulseEchoes[..OW_READ_ATTEMPT]))
    {
      var query := new byte[5];
      query[0], query[1], query[2], query[3], query[4] := SKIP_ROM, WRITESCRATCH, DS_ALARM_TH, DS_ALARM_TL, res;
      SendWaiting(ow, query, none, rddata, input);
      resolution := res;
    }

    /** DT_ContiniousProceed: one step of the polling machine at time
        `time`.  Without sensors it answers OW_NO_DEVICE and does nothing.
        Otherwise it answers OW_NO_DEVICE only when a transfer's reset found
        no device, and OW_OK in every other case, also while a transfer is
        still waiting; it never answers OW_WAIT. */
    method Proceed(time: Tick, input: BusInput) returns (status: Status)
      requires Valid()
      modifies this`state, this`current, this`lastTime, wrdata, temp, ow, ow.romRd, ow.romWr, rddata, none
      ensures Valid()
      ensures old(devicesCount) == 0 ==>
        status == NoDevice && unchanged(this, ow, ow.romRd, ow.romWr, wrdata, rddata, temp)
      ensures old(devicesCount) != 0 && old(state) == 0 ==>
        status == Ok && state == 1 && current == 0 && wrdata[..CONVERT_FRAME_LEN] == ConvertFrame()
      ensures status != Wait
      ensures old(devicesCount) != 0 && (old(state) == 1 || old(state) == 4) ==>
        (status == NoDevice ==> state == 0) && (status == Ok ==> state == old(state) || state == old(state) + 1)
      ensures old(devicesCount) != 0 && old(state) == 1 ==>
        (state == 2 ==> lastTime == time) && (state != 2 ==> lastTime == old(lastTime))
      ensures old(devicesCount) != 0 && old(state) == 2 ==>
        status == Ok && state == if ConversionWaitOver(resolution, old(lastTime), time) then 3 else 2
      ensures old(devicesCount) != 0 && old(state) == 3 ==>
        status == Ok && state == 4 &&
        wrdata[..READ_FRAME_LEN] == ReadFrame(id[ROM_BYTES * current .. ROM_BYTES * current + ROM_BYTES])
      ensures old(devicesCount) != 0 && old(state) == 4 && state == 5 ==>
        |ow.heard| == READ_FRAME_LEN && rddata[..SCRATCHPAD_BYTES] == ow.heard[READ_SKIP..]
      ensures old(devicesCount) != 0 && old(state) == 5 ==>
        status == Ok &&
        temp[..] == (if ScratchpadOk(rddata[..SCRATCHPAD_BYTES])
                     then old(temp[..])[old(current) := RawTemperature(rddata[TEMP_LSB], rddata[TEMP_MSB])]
                     else old(temp[..])) &&
        if old(current) + 1 < devicesCount then current == old(current) + 1 && state == 3
        else current == 0 && state == 0
      // What each state leaves alone: a reading changes only in state 5, the
      // sensor being read only in states 0 and 5, the start time only in
      // state 1, the received scratchpad only in state 4, and the frame only
      // in states 0 and 3, each beyond the part they build.
      ensures old(state) != 5 ==> temp[..] == old(temp[..])
      ensures 1 <= old(state) <= 4 ==> current == old(current)
      ensures old(state) != 1 ==> lastTime == old(lastTime)
      ensures old(state) != 4 ==> rddata[..] == old(rddata[..])
      ensures old(state) != 0 && old(state) != 3 ==> wrdata[..] == old(wrdata[..])
      ensures old(state) == 0 ==> wrdata[CONVERT_FRAME_LEN..] == old(wrdata[CONVERT_FRAME_LEN..])
      ensures old(state) == 3 ==> wrdata[READ_FRAME_LEN..] == old(wrdata[READ_FRAME_LEN..])
    {
      if devicesCount == 0 {
        return NoDevice;
      }
      status := Ok;
      if state == 0 {
        StartConversion();
      } else if state == 1 {
        var val := SendConversion(time, input);
        status := if val == NoDevice then NoDevice else Ok;
      } else if state == 2 {
        AwaitConversion(time);
      } else if state == 3 {
        BuildRead();
      } else if state == 4 {
        var val := SendRead(input);
        status := if val == NoDevice then NoDevice else Ok;
      } else {
        TakeReading();
      }
    }

    /** State 0: every sensor is told to convert. */
    method StartConversion()
      requires Valid() && state == 0
      modifies this`state, this`current, wrdata
      ensures Valid() && state == 1 && current == 0
      ensures wrdata[..CONVERT_FRAME_LEN] == ConvertFrame() && wrdata[CONVERT_FRAME_LEN..] == old(wrdata[CONVERT_FRAME_LEN..])
    {
      label start:
      current := 0;
      wrdata[0] := SKIP_ROM;
      wrdata[1] := STARTCONVO;
      IdleIgnoresBuffers@start(ow);
      state := state + 1;
    }

    /** State 1: one step of sending the convert frame, reading nothing.
        Once it is out, the conversion's start time is taken. */
    method SendConversion(time: Tick, input: BusInput) returns (status: Status)
      requires Valid() && state == 1
      modifies this`state, this`lastTime, ow, ow.romRd, ow.romWr, none
      ensures Valid()
      ensures status == NoDevice ==> state == 0 && lastTime == old(lastTime)
      ensures status == Ok ==> state == 2 && lastTime == time
      ensures status == Wait ==> state == 1 && lastTime == old(lastTime)
    {
      status := ow.Send(wrdata, CONVERT_FRAME_LEN, none, 0, OW_NO_READ, input);
      if status == NoDevice {
        state := 0;
      } else if status == Ok {
        lastTime := time;
        state := state + 1;
      }
    }

    /** State 2: wait for the conversion. */
    method AwaitConversion(time: Tick)
      requires Valid() && state == 2
      modifies this`state
      ensures Valid()
      ensures state == if ConversionWaitOver(resolution, lastTime, time) then 3 else 2
    {
      if ConversionWaitOver(resolution, lastTime, time) {
        state := state + 1;
      }
    }

    /** State 3: build the frame that reads the current sensor's
        scratchpad. */
    method BuildRead()
      requires Valid() && state == 3 && devicesCount != 0
      modifies this`state, wrdata
      ensures Valid() && state == 4
      ensures wrdata[..READ_FRAME_LEN] == ReadFrame(id[ROM_BYTES * current .. ROM_BYTES * current + ROM_BYTES])
      ensures wrdata[READ_FRAME_LEN..] == old(wrdata[READ_FRAME_LEN..])
    {
      label start:
      FillReadFrame(wrdata, id, ROM_BYTES * current);
      IdleIgnoresBuffers@start(ow);
      state := state + 1;
    }

    /** State 4: one step of sending the read frame; the nine bytes after
        the command land in rddata. */
    method SendRead(input: BusInput) returns (status: Status)
      requires Valid() && state == 4
      modifies this`state, ow, ow.romRd, ow.romWr, rddata
      ensures Valid()
      ensures status == NoDevice ==> state == 0
      ensures status == Ok ==>
        state == 5 && |ow.heard| == READ_FRAME_LEN && rddata[..SCRATCHPAD_BYTES] == ow.heard[READ_SKIP..]
      ensures status == Wait ==> state == 4
    {
      status := ow.Send(wrdata, READ_FRAME_LEN, rddata, SCRATCHPAD_BYTES, READ_SKIP, input);
      if status == NoDevice {
        state := 0;
      } else if status == Ok {
        state := state + 1;
      }
    }

    /** State 5: keep the reading when the scratchpad's CRC is good, then go
        on to the next sensor, or back to a new conversion after the last. */
    method TakeReading()
      requires Valid() && state == 5 && devicesCount != 0
      modifies this`state, this`current, temp
      ensures Valid()
      ensures temp[..] == if ScratchpadOk(rddata[..SCRATCHPAD_BYTES])
                          then old(temp[..])[old(current) := RawTemperature(rddata[TEMP_LSB], rddata[TEMP_MSB])]
                          else old(temp[..])
      ensures if old(current) + 1 < devicesCount then current == old(current) + 1 && state == 3
              else current == 0 && state == 0
    {
      var crc := Crc8Bitwise(rddata, SCRATCHPAD_CRC);
      assert rddata[..SCRATCHPAD_BYTES][..SCRATCHPAD_CRC] == rddata[..SCRATCHPAD_CRC];
      if crc == rddata[SCRATCHPAD_CRC] {
        temp[current] := RawTemperature(rddata[TEMP_LSB], rddata[TEMP_MSB]);
      }
      if current < devicesCount - 1 {
        current := current + 1;
        state := 3;
      } else {
        current := 0;
        state := 0;
      }
    }
  }
}
