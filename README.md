# A verified model of a UART-driven 1-Wire master and DS18B20 poller

The repository drives a 1-Wire bus from a microcontroller UART. The UART's
transmit and receive lines are tied together onto the bus:

- **Reset.** The UART sends the character 0xF0 at 9600 baud. A device
  answers with a presence pulse, which changes the echo.
- **Data bits.** Each bit is one UART character at 115200 baud. 0xFF is a
  short low pulse: write 1, or a read slot. 0x00 is a long one: write 0.

The engine (`src/UartOneWire.c`) has these parts:

- Two cooperative state machines, one step per call:
  - `OW_Reset` sends up to five reset pulses until a presence pulse is seen.
  - `OW_Send` resets the bus, transmits a command buffer byte by byte, and
    stores the decoded echoes from a chosen byte onwards.
- A blocking ROM search, `OW_SearchBlock`.
- The Dow CRC-8 of Maxim Application Note 27, in two variants (bitwise and a
  2x16 table), and the CRC-16 with its inverted-trailer check.

The poller (`src/dallas_temperature.c`) does three things:

- It searches for up to three DS18B20 thermometers.
- It configures their resolution.
- It cycles for ever through these steps, one step per call:
  1. Every sensor is told to convert.
  2. The poller waits for the conversion time.
  3. Each sensor's scratchpad is read with Match ROM.
  4. The reading is kept when the scratchpad's CRC-8 checks out.

The model has six modules:

- `OneWireCodec` (codec.dfy): the slot encoding of a byte and its decoding.
- `OneWireCrc` and `OneWireCrc16` (crc.dfy, crc16.dfy): each CRC is defined
  once as a shift register. Each C loop is a method proved to compute that
  register.
- `RomOrder` (rom_order.dfy): the order in which the search finds devices,
  and the invariants of one search pass.
- `UartOneWire` (onewire.dfy): the engine as a class. Its fields are those of
  `UartOneWire_HandleTypeDef`, and each state of each machine is a method.
- `OneWireSearch` (search.dfy): `OW_SendBits` and `OW_SearchBlock` over a bus
  given as the set of ROM codes of its devices.
- `DallasTemperature` (dallas.dfy): `DallasTemperatureData` as a class whose
  methods are `DT_SetOneWire`, `DT_Search`, `DT_init` and one step of
  `DT_ContiniousProceed`.

How the environment is modelled:

- **The UART.** A step of a state machine receives a `BusInput`. It says what
  the bus does to the characters sent (the wired AND of the devices), whether
  the UART reports it is ready, and the millisecond tick.
- **Ghost fields.** The class records what the code itself does not keep: the
  echoes of the reset pulses, the decoded bytes heard during a transfer, and
  the baud rate.
- **Integer widths.** The uint8 counters are naturals kept below 256 by the
  class invariant. The one wrap the code reaches (`read_start--` from 0) is
  written out. The uint32 tick difference is `Since`, taken modulo 2^32.

## Model

| member | source | states |
|---|---|---|
| OneWireCodec.ToBits | src/UartOneWire.c:46-53 | the eight slots written are the slot encoding of the byte: slot i is OW_1 exactly when bit i is set |
| OneWireCodec.ToByte | src/UartOneWire.c:55-68 | the byte shifted together from eight slots is the decoding of those slots |
| OneWireCodec.DecodeByteBits | src/UartOneWire.c:55-68 | bit i of the decoded byte is set exactly when slot i came back as OW_R_1 |
| OneWireCodec.DecodeEncode | src/UartOneWire.c:46-68 | decoding the slots of an encoded byte gives the byte back, because OW_1 and OW_R_1 are the same byte |
| OneWireCodec.EncodeDecode | src/UartOneWire.c:46-68 | a slot pattern of only 0x00 and 0xFF is the encoding of what it decodes to |
| OneWireCrc.Crc8Bitwise | src/UartOneWire.c:335-351 | the bitwise OW_Crc8 returns the Dow CRC-8 register over addr[..len] |
| OneWireCrc.AbsorbBits | src/UartOneWire.c:341-348 | eight passes of the inner loop fold one byte into the register exactly as the eight-shift update does |
| OneWireCrc.Crc8Table | src/UartOneWire.c:318-329 | the 2x16 table variant returns the same CRC-8 as the register |
| OneWireCrc.TableLookup | src/UartOneWire.c:309-314 | the two nibble lookups of the table combine to eight shifts of the register |
| OneWireCrc.Crc8Residue | src/UartOneWire.c:335-351 | a string followed by its own CRC-8 has CRC-8 zero |
| OneWireCrc.Crc8Gate | src/dallas_temperature.c:12-15 | "last byte equals the CRC-8 of the rest" holds exactly when the CRC-8 of the whole string is zero |
| OneWireCrc.Crc8UpdateInjective | src/UartOneWire.c:341-348 | two register updates agree exactly when register xor byte agrees |
| OneWireCrc.Crc8DetectsByteError | src/UartOneWire.c:335-351 | changing any one byte of a string changes its CRC-8 |
| OneWireCrc.Crc8RomExample | src/UartOneWire.c:301-302 | the example ROM code of Application Note 27 has CRC-8 0xA2 |
| OneWireCrc16.Crc16StepIsUpdate | src/UartOneWire.c:364-374 | one pass of the parity-table loop body of OW_Crc16 is eight shifts of the CRC-16 register |
| OneWireCrc16.StepParity | src/UartOneWire.c:358-368 | the nibble table gives the odd parity of the whole byte |
| OneWireCrc16.ComputeCrc16 | src/UartOneWire.c:356-378 | OW_Crc16 returns the CRC-16 register over input[..len] from the given seed |
| OneWireCrc16.CheckCrc16 | src/UartOneWire.c:380-384 | OW_CheckCrc16 accepts exactly when the two bytes are the complemented CRC-16, low byte first |
| OneWireCrc16.InvertedTrailer | src/UartOneWire.c:382-383 | the trailer is two bytes whose little-endian value is the complement of the CRC |
| OneWireCrc16.Crc16Residue | src/UartOneWire.c:356-378 | a string followed by its own CRC-16, low byte first, leaves the register at zero |
| OneWireCrc16.Crc16InvertedResidue | src/UartOneWire.c:380-384 | a string followed by its complemented CRC-16 leaves the fixed residue 0xB001, whatever the string |
| OneWireCrc16.Crc16UpdateInjective | src/UartOneWire.c:364-374 | two register updates agree exactly when the mixed registers agree |
| OneWireCrc16.Crc16DetectsByteError | src/UartOneWire.c:356-378 | changing any one byte of a string changes its CRC-16 |
| UartOneWire.SilentEcho | src/UartOneWire.c:162-163 | when no device pulls the bus, every received slot is the slot sent |
| UartOneWire.SilentByte | src/UartOneWire.c:157-163 | when no device pulls the bus, the byte decoded from the echo of a transmitted byte is that byte |
| UartOneWire.ResetReportAbsent | src/UartOneWire.c:98-113 | a reset that reports no device sent all OW_READ_ATTEMPT + 1 pulses, and none of the first OW_READ_ATTEMPT was answered |
| UartOneWire.CaptureStep | src/UartOneWire.c:178-189 | one consumed echo is stored while read_start is 0 and room is left; otherwise read_start counts down, wrapping from 0 to 0xFF, unless reading is off |
| UartOneWire.CapturedCount | src/UartOneWire.c:178-189 | a whole transfer stores min(dLen, bytes after readStart) bytes, and none with OW_NO_READ |
| UartOneWire.ConsumeKeeps | src/UartOneWire.c:178-189 | state 3 of OW_Send keeps the transfer invariant |
| UartOneWire.OneWire.constructor | src/UartOneWire.c:23-34 | OW_Init leaves both machines idle, the counter and tick at 0 and the UART at the reset rate |
| UartOneWire.OneWire.ClearStates | src/UartOneWire.c:36-44 | both machines are idle, and the counter and tick are 0 |
| UartOneWire.OneWire.Halt | src/UartOneWire.c:220-221 | whatever either machine was doing, both are back at state 0 |
| UartOneWire.OneWire.Reset | src/UartOneWire.c:73-121 | the step each state takes, and that only state 1 touches the slot buffers and the tick. A finished reset sent 1 to 5 pulses, and every pulse but the last came back unchanged. It reports OW_OK exactly when a presence pulse came while retries were left. If no device ever answers it reports OW_NO_DEVICE after 5 pulses. Each waiting step makes progress when the UART is ready |
| UartOneWire.OneWire.StartReset | src/UartOneWire.c:77-81 | reset rate, counter at OW_READ_ATTEMPT, state 1 |
| UartOneWire.OneWire.SendPulse | src/UartOneWire.c:83-89 | 0xF0 goes out, its echo comes back as 0xF0 anded with the presence pull, and the tick is taken |
| UartOneWire.OneWire.AwaitPulse | src/UartOneWire.c:91-96 | goes on when the UART is ready or more than 5 ms have passed (uint32 difference) |
| UartOneWire.OneWire.CheckPulse | src/UartOneWire.c:98-108 | a changed echo or an exhausted counter goes to state 4; otherwise the counter drops by one and another pulse follows |
| UartOneWire.OneWire.ReportReset | src/UartOneWire.c:110-114 | back at the transfer rate and state 0; OW_OK exactly when the counter is not 0; a bus that stayed silent reports OW_NO_DEVICE after OW_READ_ATTEMPT + 1 pulses |
| UartOneWire.OneWire.Send | src/UartOneWire.c:133-197 | the step each state takes. In state 0, each call before the reset reports is one reset step, as for OW_Reset. Once the reset reports, the whole reset went as OW_Reset's outcome says. It reports OW_NO_DEVICE only from state 0, after five pulses with the first four unanswered. States 2 and 3 keep the tick and both slot buffers, and state 3 writes no data byte but the one at data_ptr. A finished transfer sent every command byte and decoded every echo. The data buffer then holds the decoded echoes from transmitted byte readStart on, at most dLen of them. Each waiting step makes progress when the UART is ready |
| UartOneWire.OneWire.Setup | src/UartOneWire.c:137-154 | before the reset machine reports, one reset step with that step's effect; when it reports, how the whole reset went; on a device, the call's buffers, lengths and readStart are taken; on none, OW_NO_DEVICE after five pulses with the first four unanswered |
| UartOneWire.OneWire.Proceed | src/UartOneWire.c:156-189 | states 1 to 3 of OW_Send keep the buffers and remaining lengths of the transfer; states 2 and 3 keep the tick and both slot buffers, and state 3 changes no data byte but the one at data_ptr |
| UartOneWire.OneWire.Begin | src/UartOneWire.c:143-151 | command, data, lengths and readStart are those of the call, and nothing is heard yet |
| UartOneWire.OneWire.TakeData | src/UartOneWire.c:146-148 | the data buffer, its length and readStart are those of the call |
| UartOneWire.OneWire.TakeCommand | src/UartOneWire.c:143-144 | the command buffer and its length are those of the call |
| UartOneWire.OneWire.TransmitNext | src/UartOneWire.c:157-165 | the next command byte is encoded into ROM_WR_NO and exchanged, and one fewer byte is left |
| UartOneWire.OneWire.FinishTransfer | src/UartOneWire.c:166-169 | with nothing left to send, the machine is idle, every transmitted byte was heard, and the data buffer holds what was captured |
| UartOneWire.OneWire.AwaitEcho | src/UartOneWire.c:172-176 | goes on when the UART is ready or more than 5 ms have passed |
| UartOneWire.OneWire.ConsumeEcho | src/UartOneWire.c:178-189 | the echo is decoded and appended to what was heard; the data length is kept; no data byte changes but the one stored at data_ptr, if any |
| UartOneWire.OneWire.StoreByte | src/UartOneWire.c:179-182 | the decoded byte is stored at data_ptr, which moves on by one, and no other byte of the data buffer changes |
| UartOneWire.OneWire.SkipByte | src/UartOneWire.c:183-187 | the decoded byte is not stored; read_start counts down unless it is OW_NO_READ |
| RomOrder.BeforeTotal | src/UartOneWire.c:241-273 | two different ROM codes are found in one order or the other |
| RomOrder.BeforeAsymmetric | src/UartOneWire.c:241-273 | no two codes are each found before the other |
| RomOrder.BeforeTransitive | src/UartOneWire.c:241-273 | the search order is transitive |
| RomOrder.FirstPassFindsFirst | src/UartOneWire.c:262-270 | a pass that takes the 1-branch at every collision finds the first device in search order |
| RomOrder.NextPassFindsNext | src/UartOneWire.c:251-270 | a pass that replays the previous code up to its deepest 1-branch collision, then takes 0 there and 1 after, finds the next device in search order |
| RomOrder.NoBranchFindsLast | src/UartOneWire.c:288-290 | a pass with no 1-branch collision found the last device in search order |
| RomOrder.FirstInOrderExtend | src/UartOneWire.c:285-287 | appending the next device keeps the list of codes the first ones in search order |
| RomOrder.FirstInOrderComplete | src/UartOneWire.c:288-290 | once the last device is listed, the list holds every device |
| RomOrder.PassStep | src/UartOneWire.c:237-283 | each selected bit keeps the pass invariant, and the devices still taking part are those matching the bits so far |
| RomOrder.PassOutcome | src/UartOneWire.c:241-293 | after a pass the search state holds again: an aborted pass means no devices, and a completed one adds the next code |
| RomOrder.PassEnds | src/UartOneWire.c:283-285 | the code a completed pass selected belongs to a device, and it is the first or the next in search order |
| RomOrder.StoredRoms | src/UartOneWire.c:275-287 | the slot a completed pass wrote holds its code, and the earlier slots are unchanged |
| RomOrder.HoldsBitsStep | src/UartOneWire.c:275-281 | storing the next selected bit keeps the bits stored before |
| RomOrder.SetBitAt | src/UartOneWire.c:276-279 | setting or clearing search bit n changes only that bit of the slot |
| RomOrder.ReplayTarget | src/UartOneWire.c:251-252 | the code a pass replays is the latest one found, and its deepest branch is lastCollision |
| RomOrder.NothingLeft | src/UartOneWire.c:241-243 | with no device on the bus there is nothing more to find |
| RomOrder.PassBegins | src/UartOneWire.c:227-228 | a pass starts with nothing selected and every device taking part |
| OneWireSearch.SendBits | src/UartOneWire.c:201-209 | the first numBits slots of ROM_WR_NO go out and their echoes are in ROM_RD_NO; the rest of ROM_RD_NO is unchanged |
| OneWireSearch.ReadBit | src/UartOneWire.c:238-239 | the first read slot comes back as OW_R_1 exactly when no device taking part has a 0 there, the second exactly when none has a 1 |
| OneWireSearch.SelectBit | src/UartOneWire.c:241-273 | aborts exactly when no device takes part. Otherwise the selected bit follows the rule of the search order. currentCollision moves to numBit exactly at a collision resolved to 1 |
| OneWireSearch.WriteBit | src/UartOneWire.c:275-281 | bit numBit of the current code takes the selected value, and the rest of buf is unchanged |
| OneWireSearch.StoreBit | src/UartOneWire.c:275-282 | the selected bit is stored and sent as one write slot |
| OneWireSearch.SendSearchRom | src/UartOneWire.c:230-235 | OW_Send is called until it stops answering OW_WAIT, and the engine is left idle. Either the one Search ROM byte went out and its echo was heard, or the reset found no device after five pulses |
| OneWireSearch.SearchPass | src/UartOneWire.c:237-283 | aborts only on an empty bus, leaving buf as it was; a completed pass holds a device's 64 bits in the current slot, and the pass invariant holds |
| OneWireSearch.SelectAndStore | src/UartOneWire.c:238-282 | one bit: the read slots, the selection, the stored bit and the write slot |
| OneWireSearch.SearchStep | src/UartOneWire.c:237-283 | one iteration of the bit loop keeps the pass invariant |
| OneWireSearch.FindNext | src/UartOneWire.c:237-292 | one outer iteration: either the search ends, or the next code in search order is stored into slot `found` |
| OneWireSearch.SearchRound | src/UartOneWire.c:226-293 | the Search ROM command, then one pass; the engine is left valid and idle |
| OneWireSearch.SearchBlock | src/UartOneWire.c:211-295 | at most num codes are found, and they are the first ones in search order, in that order. When fewer than num are found they are every device on the bus. buf beyond them is unchanged |
| DallasTemperature.ReadFrameCaptures | src/dallas_temperature.c:146-158 | the read frame is Match ROM, the 8 ROM bytes and Read Scratchpad, then 9 read slots; with readStart 10 and 9 data bytes it stores exactly the 9 echoes of the read slots |
| DallasTemperature.ReadFrameAt | src/dallas_temperature.c:147-153 | byte j of the read frame |
| DallasTemperature.ScratchpadResidue | src/dallas_temperature.c:12-15 | the scratchpad passes exactly when the CRC-8 of all nine bytes is zero |
| DallasTemperature.ScratchpadOfData | src/dallas_temperature.c:12-15 | eight data bytes followed by their CRC-8 pass |
| DallasTemperature.ScratchpadDetectsByteError | src/dallas_temperature.c:12-15 | a passing scratchpad fails once any one byte is corrupted |
| DallasTemperature.RawTemperature | src/dallas_temperature.c:170 | the reading is a signed 16-bit value, negative exactly when bit 7 of the MSB is set |
| DallasTemperature.TemperatureBytes | src/dallas_temperature.c:170 | the scratchpad bytes of a reading are two byte values |
| DallasTemperature.RawTemperatureBytes | src/dallas_temperature.c:170 | the bytes read as t exactly when they are t's two's complement low and high byte, so each reading has exactly one byte pair |
| DallasTemperature.DataSheetReadings | src/dallas_temperature.c:170-171 | 07D0h reads as +125 degrees and FF5Eh as -10.125 degrees, in sixteenths |
| DallasTemperature.ConversionMillis | src/dallas_temperature.c:18-30 | the conversion time is 94, 188, 375 or 750 ms, and any code other than 9, 10 or 11 bits waits 750 ms |
| DallasTemperature.ConversionWaitOverMeans | src/dallas_temperature.c:18-30 | as written, the wait is over from 1 ms after the start until the conversion time before the clock comes round |
| DallasTemperature.ConversionWaitOneMillisecond | src/dallas_temperature.c:18-30 | at 12 bits, lastTime 1000 and time 1001, the code as written ends the wait although the conversion time has not passed |
| DallasTemperature.ConversionElapsedMeans | src/dallas_temperature.c:18-30 | with time - lastTime, the wait is over exactly when more than the conversion time has passed, across a clock wrap too |
| DallasTemperature.FirstBusy | src/dallas_temperature.c:71-86 | the attempt at which the retry loop stops: every earlier bus is empty, and the bus at it holds a device unless all attempts were used |
| DallasTemperature.DiscoveredNone | src/dallas_temperature.c:81-85 | a search finds no code exactly when the bus holds no device |
| DallasTemperature.ResetBus | src/dallas_temperature.c:74-79 | OW_Reset is called until it stops answering OW_WAIT, and both machines end idle |
| DallasTemperature.SearchOnce | src/dallas_temperature.c:74-81 | one reset and one search of up to 3 codes. The codes are the first in search order, and every device when fewer than 3. None is found exactly when the bus is empty. id beyond them is unchanged |
| UartOneWire.SendWaiting | src/dallas_temperature.c:96-101 | OW_Send is called until it stops answering OW_WAIT. From an idle engine, either the whole command was sent and heard, or the reset found no device after five pulses with the first four unanswered |
| DallasTemperature.FillReadFrame | src/dallas_temperature.c:146-155 | wrdata[..19] is the read frame for the ROM code at the given offset of id, and the rest of wrdata is unchanged |
| DallasTemperature.Sensors.constructor | src/dallas_temperature.c:33-45 | DT_SetOneWire takes the engine and clears the state, then searches with one bus per attempt: devicesCount is 0 exactly when the bus was empty at all five attempts, and otherwise the codes are those of the first attempt that met a device, first in search order |
| DallasTemperature.Sensors.Search | src/dallas_temperature.c:47-89 | DT_Search makes up to 5 attempts, attempt a meeting the bus `buses[a]`, and stops at the first that finds a code. devicesCount is 0 exactly when all five buses are empty. Otherwise the codes are those of the first non-empty bus (later buses play no part): the first in search order, every device when fewer than 3. The rest of id is zero, all readings are zero, and the poller is at state 0 |
| DallasTemperature.Sensors.Forget | src/dallas_temperature.c:52-67 | no codes, no sensors, no readings, and both engine machines stopped |
| DallasTemperature.Sensors.Init | src/dallas_temperature.c:91-103 | the resolution is stored. From an idle engine, either the query Skip ROM, Write Scratchpad, TH, TL, resolution went out in full, or the reset found no device |
| DallasTemperature.Sensors.Proceed | src/dallas_temperature.c:105-186 | it never answers OW_WAIT. Without sensors it answers OW_NO_DEVICE and changes nothing. In states 1 and 4, OW_NO_DEVICE goes back to state 0. Otherwise it answers OW_OK and stays or moves one state on. The start time is taken when the convert frame is out, and rddata holds the 9 echoes when the read frame is out. State 2 moves on exactly when the wait test holds for the start time before the call, and state 5 stores the reading of the sensor read, iff its CRC-8 checks out. Each state leaves the rest alone: readings change only in state 5, the sensor index only in states 0 and 5, the start time only in state 1, rddata only in state 4, and wrdata only in states 0 and 3, beyond the frame they build |
| DallasTemperature.Sensors.StartConversion | src/dallas_temperature.c:119-125 | wrdata starts with Skip ROM, Convert T; counteRead is 0 and the state is 1 |
| DallasTemperature.Sensors.SendConversion | src/dallas_temperature.c:127-138 | OW_NO_DEVICE goes back to state 0; OW_OK records the start time and goes to state 2; OW_WAIT stays |
| DallasTemperature.Sensors.AwaitConversion | src/dallas_temperature.c:140-144 | goes to state 3 exactly when the wait test as written holds |
| DallasTemperature.Sensors.BuildRead | src/dallas_temperature.c:146-155 | wrdata[..19] is the read frame of the current sensor's ROM code, and the state is 4 |
| DallasTemperature.Sensors.SendRead | src/dallas_temperature.c:157-166 | OW_NO_DEVICE goes back to state 0. On OW_OK, all 19 bytes were heard, rddata holds the 9 echoes after the command, and the state is 5. OW_WAIT stays |
| DallasTemperature.Sensors.TakeReading | src/dallas_temperature.c:168-182 | the current sensor's reading is replaced exactly when the scratchpad's CRC-8 checks out, and no other reading changes. Then the next sensor is read (state 3), or after the last the cycle restarts at state 0 with counteRead 0 |

## Left out

- The UART and DMA are not modelled: `OW_UART_Init`, `HAL_UART_Init`, the
  receive and transmit DMA calls, `HAL_UART_GetState`, `HAL_GetTick` and
  `HAL_UART_DMAStop`. A step receives what they would report as a
  `BusInput`. A baud-rate change is recorded in the ghost field `baud`.
  An exchange is complete when the step that starts it returns. The
  timeout check is modelled.
- OneWireSearch.SendBits: the busy-wait for the UART is not modelled. The
  exchange is atomic.
- The busy loops (`while(1) OW_Reset`, `while(1) OW_Send` in `DT_Search`,
  `DT_init` and `OW_SearchBlock`) are modelled for a UART that always
  reports ready (`input.ready`), and the bus answers every call of one such
  loop alike: the same reset pull on every retry and the same slot pull for
  every byte of the command. Their termination is proved under that
  assumption. With a UART that never finishes, the C loops still end through
  the 5 ms timeout, and the model does not cover that case.
- The numeric codes of OW_OK, OW_WAIT and OW_NO_DEVICE (1, 2 and 3 in
  src/UartOneWire.h) are not modelled. The answers are the constructors of
  `UartOneWire.Status`, which are distinct; the callers only compare the codes
  with one another.
- The devices are not modelled as programs. The bus is the set of their ROM
  codes, answering reset pulses and search slots as a wired AND. Echoes of
  ordinary transfers are free inputs.
- Null-pointer guards (`if(!ow)`, `if(!dt)`) are left out, because the
  references of the model cannot be null. A NULL data pointer is an empty
  array, `none`.
- The `default:` branches of `OW_Reset` and `OW_Send` are unreachable under
  the class invariant, which keeps both states in range. They are not
  modelled.
- The readings are kept as the raw signed 16-bit value, in sixteenths of a
  degree. The float multiplication by 0.0625 in state 5 and
  `getTemperatureByPosition_Celsius` are not modelled (floating point).
- DallasTemperature.Sensors.Search: it returns nothing. The C function
  returns OW_OK whenever both pointers are set, which carries no
  information.
- UartOneWire.OneWire.Send: a transfer is modelled with cLen, dLen and
  readStart below 256 and the buffers of the call long enough, as the C
  prototypes' uint8_t parameters and the callers guarantee. The C code
  dereferences the pointers without checking.
- UartOneWire.SendWaiting and DallasTemperature.Sensors.Init: they
  state what went out only when the engine was idle beforehand. A transfer
  already in flight is finished instead, and what it sends is not stated.
- `OW_Crc16` and `OW_CheckCrc16` are compiled only with ONEWIRE_CRC16, and
  the table `OW_Crc8` only with ONEWIRE_CRC8_TABLE. Both are modelled anyway,
  beside the bitwise CRC-8 of the default build.
- The `search_state` field of the handle is never used by the code and is
  not modelled.
- The commented-out periodic re-search of `DT_ContiniousProceed` is not
  modelled.

Two behaviours of the code worth noting, both modelled as written:

- `OW_SearchBlock` does not look at the status of the Search ROM transfer,
  unlike `OWSearch` of Maxim Application Note 187, which gives up when the
  reset finds no device. On a bus without devices it stops because both read
  slots of the first bit come back as 1.
- A presence pulse that answers only the fifth reset pulse, when the counter
  is already 0, is reported as OW_NO_DEVICE (`UartOneWire.OneWire.Reset`).

## Findings

| source | as written | input that shows it | evidently intended | confidence | as-written member | corrected member |
|---|---|---|---|---|---|---|
| src/dallas_temperature.c:18-30 | the wait compares the uint32 difference `lastTime - time` with the conversion time | 12-bit resolution, lastTime 1000, time 1001: 1000 - 1001 wraps to 4294967295 > 750, so the scratchpad is read 1 ms after Convert T, 749 ms early | `time - lastTime`, as in the commented-out test at line 109: the wait is over once more than the conversion time has passed | not executed | DallasTemperature.ConversionWaitOneMillisecond | DallasTemperature.ConversionElapsedMeans |

The polling machine keeps the test as written (`ConversionWaitOver`),
because that is what `DT_ContiniousProceed` does. `ConversionWaitOverMeans`
shows that this test holds from one millisecond after the start.
`ConversionElapsed` is the intended test; `ConversionElapsedMeans` proves
that it holds exactly when more than the conversion time has passed.
