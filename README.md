# HT16K33 LED backpack driver, modelled in Dafny

This project models the driver class `LEDBackpack` of `led_backpack.js`, which
talks to an HT16K33 LED controller over an i2c bus. The driver:

- encodes the controller's one-byte commands: oscillator on (`0x21`), display
  setup (`0x80 | state | rate << 1`, with blink rates above 3 replaced by 0) and
  dimming (`0xE0 | level`, with the level clamped to 0..15);
- keeps an eight-entry 16-bit display buffer, where `setBufferBlock(block, value, dot)`
  stores `value | (dot << 7)` and throws on a block outside 0..7;
- serialises the buffer little-endian (low byte, then high byte of each entry)
  into sixteen bytes and writes them in one block to display RAM at `0x00`;
- clears the buffer and flushes it;
- on creation, opens the bus and runs the start-up chain oscillator on, blink
  off, brightness 10, clear, then emits `ready`, or emits `error` at the first
  failure (this is the intended chain; as written, step 2 throws, see
  "## Findings").

Modules:

- `JsNumbers` (`js_numbers.dfy`) gives the JavaScript number operators the
  driver uses on integers: `ToUint32`, `ToInt32`, `ToUint16`, `|`, `&`, `<<`
  and `>>` (signed). `|` and `&` are defined bit by bit on naturals. It also
  proves the bit facts the rest needs.
- `Commands` (`commands.dfy`) holds the command bytes as functions of their
  inputs, with lemmas that give their values and decode their fields.
- `DisplayBuffer` (`display_buffer.dfy`) holds the value a buffer store keeps,
  the byte image of the buffer and its inverse, and the block write as a
  function with a range error.
- `Transport` (`transport.dfy`) is the bus as an oracle. It is fixed at
  creation: whether opening succeeds and which writes, counted in call order,
  report an error. It records every write.
- `LedBackpack` (`led_backpack.dfy`) is the driver class. Its methods update
  the buffer array in place and issue bus writes. The start-up chain is also
  given as a function (`Startup`) with lemmas about all bus behaviours. The
  constructor and `Start` are proved to follow that function.

The asynchronous chain becomes a sequential method: each bus call completes
before the next one starts. A rejected promise becomes a `false` result. The
throw in `setBufferBlock` also becomes a `false` result, with the buffer
unchanged. Emitted events are appended to the `events` field.

Three behaviours of the code worth knowing:

- Blink rates below 0 are not coerced to Off (only rates above 3 are).
  A rate in -2^30..-1 makes the command negative
  (`BlinkNegativeRateNotAByte`). Below -2^30 the shift sees only the rate
  modulo 2^31 (`ShiftLeftWraps`). When that residue is 0..3 the command is
  the residue's (`BlinkNegativeRateWraps`; -2^31 sends 0x81, the Off
  command, by `BlinkWrapExamples`). Otherwise the command is
  `0x80 | state | 2r` for the residue r, reduced to int32. Residues 64..67
  again give a setup byte (rate 64 - 2^31 sends 0x81, by
  `BlinkWrapSetupByte`). Other residues give no setup byte (-2^30 - 1 sends
  a command of at least 0x7FFF_FFFE, by `BlinkWrapNotAByte`).
- The byte image of an entry is taken from the stored value, so the low byte
  carries the dot bit when the dot is set. It is not the plain pattern's low
  byte.
- The start-up brightness is the constant 10.

## Model

| member | source | states |
|---|---|---|
| Commands.OscillatorOnCommand | led_backpack.js:54 | the oscillator command, register 0x20 ORed with 0x01, is `0x21` |
| Commands.CoerceRate | led_backpack.js:74-76 | a rate above Half (3) becomes Off (0); any other rate is kept |
| Commands.BlinkCommand | led_backpack.js:73-78 | for state 0 or 1 and rate 0..3, the display setup command (the state and the shifted rate ORed into 0x80) is `0x80 + state + 2*rate`, a byte in 0x80..0x87 |
| Commands.BlinkInvalidRateIsOff | led_backpack.js:74-78 | every rate above 3 gives the same command as Off: `0x80 + state` |
| Commands.BlinkCommandDecodes | led_backpack.js:78 | bit 0 of the setup command is the state, bits 1-2 the coerced rate, the rest the 0x80 register |
| Commands.BlinkNegativeRateNotAByte | led_backpack.js:74-78 | a rate in -2^30..-1 passes the guard and makes the command negative, so it is not a command byte |
| Commands.BlinkNegativeRateWraps | led_backpack.js:74-78 | a negative rate whose residue modulo 2^31 is 0..3 sends the command of that residue: the 32-bit shift drops the high bit |
| Commands.BlinkWrapExamples | led_backpack.js:74-78 | with the display on, rate -2^31 sends 0x81 (Off) and rate 1 - 2^32 sends 0x83 (Double) |
| Commands.BlinkWrapSetupByte | led_backpack.js:74-78 | with the display on, rate 64 - 2^31 (residue 64 modulo 2^31) sends 0x81, the Off command: its shifted bits fall on the 0x80 register bit |
| Commands.BlinkWrapNotAByte | led_backpack.js:74-78 | with the display on, rate -2^30 - 1 (residue 2^30 - 1 modulo 2^31) sends a command in 0x7FFF_FFFE..0x7FFF_FFFF, not a command byte |
| JsNumbers.ShiftLeftWraps | led_backpack.js:78 | JavaScript `a << 1` equals `(a mod 2^31) << 1` for every integer a |
| Commands.ClampBrightness | led_backpack.js:88-93 | the level is clamped into 0..15: above 15 gives 15, below 0 gives 0, otherwise unchanged |
| Commands.BrightnessCommand | led_backpack.js:86-95 | the dimming command is `0xE0` plus the clamped level, always in 0xE0..0xEF |
| Commands.BrightnessSaturates | led_backpack.js:88-93 | every level at or above 15 sends 0xEF and every level at or below 0 sends 0xE0 |
| Commands.BrightnessCommandDecodes | led_backpack.js:95 | the low nibble of the dimming command is the clamped level |
| DisplayBuffer.Stored | led_backpack.js:104 | the stored entry is a 16-bit word at least the value's low 16 bits, and at least 0x80 when the dot is set |
| DisplayBuffer.StoredIsJsStore | led_backpack.js:104 | the value ORed with `dot << 7` and written into a Uint16Array is `Stored(value, dot)` |
| DisplayBuffer.StoredWithoutDot | led_backpack.js:104 | without the dot the entry is the value modulo 2^16 |
| DisplayBuffer.StoredBits | led_backpack.js:104 | bit i (0..15) of the entry is set iff the value has it or i is 7 and the dot is set |
| DisplayBuffer.LowByteIsMask | led_backpack.js:114 | `item & 0xFF` is the entry's low byte |
| DisplayBuffer.HighByteIsShift | led_backpack.js:115 | `item >> 8` is the entry's high byte |
| DisplayBuffer.JoinSplit | led_backpack.js:114-115 | an entry is recovered from its low and high byte |
| DisplayBuffer.SplitJoin | led_backpack.js:114-115 | the low and high byte of a joined word are the two bytes it was joined from |
| DisplayBuffer.Serialize | led_backpack.js:109-116 | the image has two bytes per entry |
| DisplayBuffer.SerializeAt | led_backpack.js:111-116 | byte 2i of the image is entry i's low byte and byte 2i+1 its high byte |
| DisplayBuffer.SerializedEntry | led_backpack.js:111-116 | `image[2i] + 256*image[2i+1]` is entry i |
| DisplayBuffer.DeserializeSerialize | led_backpack.js:109-116 | reading an image back gives the buffer it came from |
| DisplayBuffer.SerializeDeserialize | led_backpack.js:109-116 | every even-length byte string is the image of the buffer read from it |
| DisplayBuffer.SerializeZeros | led_backpack.js:129-133 | the image of a zeroed buffer is all zero bytes |
| DisplayBuffer.SetBlock | led_backpack.js:98-105 | out of range iff block is outside the buffer; else only entry `block` changes, to the stored entry |
| DisplayBuffer.SetBlockImage | led_backpack.js:98-116 | after a block write the image changes at bytes 2*block and 2*block+1 only, to the stored entry's bytes |
| Transport.Bus.WriteByte | led_backpack.js:145 | the write is recorded and reports the oracle's outcome for its position |
| Transport.Bus.WriteI2cBlock | led_backpack.js:118 | the block write is recorded and reports the oracle's outcome for its position |
| LedBackpack.Command | led_backpack.js:143-145 | the write executeCommand issues is a single-byte write of the command to the device address with argument 0 |
| LedBackpack.Flush | led_backpack.js:109-118 | the write writeDisplay issues is one block write to register 0x00 whose length field is its byte count, two bytes per entry |
| LedBackpack.FlushDecodes | led_backpack.js:109-118 | the bytes of a flush decode back to the buffer that was flushed |
| LedBackpack.InitWrites | led_backpack.js:54-58 | start-up has four steps |
| LedBackpack.FirstFailure | led_backpack.js:54-66 | the first failing step among the remaining ones, or 4 when none fails |
| LedBackpack.Startup | led_backpack.js:49-70 | start-up emits exactly one event and issues a prefix of the four steps |
| LedBackpack.InitWritesValues | led_backpack.js:54-58 | with the display on, start-up writes 0x21, 0x81, 0xEA (argument 0), then 16 zero bytes to register 0x00 |
| LedBackpack.StartupSucceeds | led_backpack.js:54-62 | when the bus opens and no step fails, all four steps are issued and `ready` is emitted |
| LedBackpack.StartupFailsAt | led_backpack.js:54-66 | when step k is the first failure, steps 0..k are issued and `error` names step k's write |
| LedBackpack.StartupSignalsOnce | led_backpack.js:49-70 | exactly one event; `ready` iff the bus opened and every step succeeded; an error after opening names a failed write |
| LedBackpack.StartupAsWritten | led_backpack.js:54-66 | the chain as written issues at most one write and emits one event |
| LedBackpack.StartupAsWrittenNeverReady | led_backpack.js:54-66 | the chain as written never emits `ready`; on a bus where all writes succeed the intended chain does |
| LedBackpack.LEDBackpack.constructor | led_backpack.js:39-70 | a zeroed eight-entry buffer, display on, then start-up: the bus log and events are those of `Startup` |
| LedBackpack.LEDBackpack.Start | led_backpack.js:49-70 | the writes and events are those of `Startup`; the buffer is zeroed exactly when the clear step was reached |
| LedBackpack.LEDBackpack.ExecuteCommand | led_backpack.js:143-154 | one byte write of the command with argument 0; its result is the bus's outcome |
| LedBackpack.LEDBackpack.SetBlinkRate | led_backpack.js:73-79 | sends the display setup command for the current state and the coerced rate |
| LedBackpack.LEDBackpack.SetBrightness | led_backpack.js:86-96 | sends the dimming command for the clamped level |
| LedBackpack.LEDBackpack.SetBufferBlock | led_backpack.js:98-105 | fails and leaves the buffer alone when the block is out of range; otherwise the buffer becomes `SetBlock`'s result |
| LedBackpack.LEDBackpack.Bytes | led_backpack.js:109-116 | the bytes built with the running index are the buffer's image |
| LedBackpack.LEDBackpack.WriteDisplay | led_backpack.js:107-127 | one block write of the buffer's 16-byte image to register 0x00; the buffer is unchanged |
| LedBackpack.LEDBackpack.Clear | led_backpack.js:129-134 | every entry becomes 0, then the zero image is flushed |

## Left out

- `phb-adafruit7segment.js`, the digit and character layer above the driver, is not part of this model.
- The real i2c bus is foreign I/O. It is an oracle fixed when the bus is created: whether opening succeeds and which writes report an error. The number of bytes written, which the driver ignores, is not modelled.
- EventEmitter and Promise plumbing is modelled as sequential calls and an event log. Listeners, scheduling and exceptions thrown by listeners are not modelled.
- `parseInt(address)` is not modelled. The address is an integer parameter.
- Arguments that are not integers are not modelled: fractions, `NaN`, `undefined`, strings. A fractional block index in a Uint16Array store is one case.
- The debug names, the commented-out logging and the constants the driver never uses (oscillator off, key data address, register aliases) are left out.
- LedBackpack.LEDBackpack.ExecuteCommand: after a failed write the source calls `resolve()` after `reject()`. That call has no effect and is not modelled.

## Findings

| source | as written | input that shows it | evidently intended | confidence | as-written member | corrected member |
|---|---|---|---|---|---|---|
| led_backpack.js:56 | the chain calls `this.setBlinkrate`, which the class does not define, so that step throws a TypeError; the chain emits `error` after the oscillator command and never reaches brightness, clear or `ready` | a bus that opens and on which every write succeeds | call `setBlinkRate(BlinkRate.Off)`, so start-up runs all four steps and emits `ready` | high, from reading the code; not executed | LedBackpack.StartupAsWrittenNeverReady | LedBackpack.StartupSucceeds |
