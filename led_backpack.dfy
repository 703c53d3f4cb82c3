/**
 * The HT16K33 backpack driver: start-up sequence, command issue, buffer
 * writes, clearing and flushing the buffer to display RAM.
 *
 * The promise chain of start-up is a sequential method; each bus call
 * completes before the next is issued, and the events the driver emits
 * (`ready`, `error`) are appended to a log.
 */
module LedBackpack {
  import opened JsNumbers
  import opened Commands
  import opened DisplayBuffer
  import opened Transport

  /**
   * Why start-up failed: the bus did not open, a write reported an error,
   * or the chain called a method the driver does not have (a TypeError).
   */
  datatype Cause = OpenFailed | WriteFailed(write: Write) | NotAFunction(name: string)

  /** The signals the driver emits. */
  datatype Event = Ready | Error(cause: Cause)

  /** Brightness set during start-up. */
  const InitialBrightness: int := 10

  /** Display RAM register that writeDisplay writes to. */
  const DisplayRam: int := 0x00

  /** The write executeCommand issues: the command byte to the device, with argument 0. */
  function Command(address: int, cmd: int): (w: Write)
    ensures w.ByteWrite? && w.address == address && w.cmd == cmd && w.arg == 0
  {
    ByteWrite(address, cmd, 0)
  }

  /** The write writeDisplay issues: the buffer's byte image, in one block, to display RAM. */
  function Flush(address: int, words: seq<Word>): (w: Write)
    ensures w.BlockWrite? && w.address == address && w.cmd == DisplayRam
    ensures w.length == |w.bytes| == 2 * |words|
  {
    BlockWrite(address, DisplayRam, 2 * |words|, Serialize(words))
  }

  /** The bytes of a flush decode back to the buffer that was flushed. */
  lemma FlushDecodes(address: int, words: seq<Word>)
    ensures Deserialize(Flush(address, words).bytes) == words
  {
    DeserializeSerialize(words);
  }

  /** The four writes of start-up, in the order they are issued. */
  function InitWrites(address: int, state: int): (ws: seq<Write>)
    ensures |ws| == 4
  {
    [ Command(address, OscillatorOnCommand()),
      Command(address, BlinkCommand(state, BlinkOff)),
      Command(address, BrightnessCommand(InitialBrightness)),
      Flush(address, Zeros(BufferSize)) ]
  }

  /** Whether step j of start-up fails on a bus that has already seen `base` writes. */
  predicate StepFails(base: nat, failing: set<nat>, j: nat)
  {
    base + j in failing
  }

  /**
   * The first step among from..3 whose write fails on a bus that has
   * already seen `base` writes; 4 when none of them fails.
   */
  function FirstFailure(base: nat, failing: set<nat>, from: nat): (k: nat)
    requires from <= 4
    ensures from <= k <= 4
    ensures k < 4 ==> StepFails(base, failing, k)
    ensures forall j :: from <= j < k ==> !StepFails(base, failing, j)
    decreases 4 - from
  {
    if from == 4 then 4
    else if base + from in failing then from
    else FirstFailure(base, failing, from + 1)
  }

  /** What start-up does: the writes it issues and the events it emits. */
  datatype Run = Run(writes: seq<Write>, events: seq<Event>)

  /**
   * Start-up on a bus that opens (or not) and has already seen `base`
   * writes: the steps run in order up to and including the first that
   * fails, which emits its error; if none fails, `ready` is emitted.
   */
  function Startup(opens: bool, failing: set<nat>, base: nat, address: int, state: int): (r: Run)
    ensures |r.events| == 1
    ensures r.writes <= InitWrites(address, state)
  {
    if !opens then Run([], [Error(OpenFailed)])
    else
      var k := FirstFailure(base, failing, 0);
      var steps := InitWrites(address, state);
      if k == 4 then Run(steps, [Ready])
      else Run(steps[..k + 1], [Error(WriteFailed(steps[k]))])
  }

  /**
   * With the display on, start-up writes 0x21, then 0x81 (blink off), then
   * 0xEA (brightness 10), each with argument 0, then sixteen zero bytes to
   * display RAM.
   */
  lemma InitWritesValues(address: int)
    ensures InitWrites(address, DisplayOn) ==
      [ ByteWrite(address, 0x21, 0x00),
        ByteWrite(address, 0x81, 0x00),
        ByteWrite(address, 0xEA, 0x00),
        BlockWrite(address, 0x00, 16, seq(16, _ => 0)) ]
  {
    SerializeZeros(BufferSize);
  }

  /** When the bus opens and every write succeeds, all four steps run and `ready` is emitted once. */
  lemma StartupSucceeds(failing: set<nat>, base: nat, address: int, state: int)
    requires forall j :: 0 <= j < 4 ==> !StepFails(base, failing, j)
    ensures Startup(true, failing, base, address, state) == Run(InitWrites(address, state), [Ready])
  {
  }

  /**
   * When step k is the first whose write fails, steps 0..k are issued and
   * no later one, and the one event is an error naming the failed write.
   */
  lemma StartupFailsAt(failing: set<nat>, base: nat, address: int, state: int, k: nat)
    requires k < 4 && StepFails(base, failing, k)
    requires forall j :: 0 <= j < k ==> !StepFails(base, failing, j)
    ensures Startup(true, failing, base, address, state).writes == InitWrites(address, state)[..k + 1]
    ensures Startup(true, failing, base, address, state).events == [Error(WriteFailed(InitWrites(address, state)[k]))]
  {
    var first := FirstFailure(base, failing, 0);
    assert first <= k;
    assert !(first < k);
  }

  /**
   * Whatever the bus does, start-up issues a prefix of the four steps and
   * emits exactly one event; that event is `ready` exactly when the bus
   * opened and all four steps were issued and succeeded.
   */
  lemma StartupSignalsOnce(opens: bool, failing: set<nat>, base: nat, address: int, state: int)
    ensures var run := Startup(opens, failing, base, address, state);
      run.writes <= InitWrites(address, state) && |run.events| == 1 &&
      (run.events[0] == Ready <==> opens && forall j :: 0 <= j < 4 ==> !StepFails(base, failing, j)) &&
      (run.events[0] == Ready ==> run.writes == InitWrites(address, state)) &&
      (run.events[0] != Ready && opens ==> StepFails(base, failing, |run.writes| - 1))
  {
    if opens {
      var k := FirstFailure(base, failing, 0);
      if k < 4 {
        assert StepFails(base, failing, k);
      }
    }
  }

  /**
   * Start-up as the chain is written: its second step calls
   * `this.setBlinkrate`, which the driver does not define, so after a
   * successful oscillator command the chain throws a TypeError that is
   * caught and emitted as `error`.
   */
  function StartupAsWritten(opens: bool, failing: set<nat>, base: nat, address: int, state: int): (r: Run)
    ensures |r.events| == 1 && |r.writes| <= 1
  {
    var oscillator := Command(address, OscillatorOnCommand());
    if !opens then Run([], [Error(OpenFailed)])
    else if StepFails(base, failing, 0) then Run([oscillator], [Error(WriteFailed(oscillator))])
    else Run([oscillator], [Error(NotAFunction("setBlinkrate"))])
  }

  /**
   * As written, start-up never emits `ready` and never sends more than the
   * oscillator command, even on a bus where every write succeeds; there the
   * intended chain sends all four steps and emits `ready`.
   */
  lemma StartupAsWrittenNeverReady(opens: bool, failing: set<nat>, base: nat, address: int, state: int)
    ensures Ready !in StartupAsWritten(opens, failing, base, address, state).events
    ensures opens && (forall j :: 0 <= j < 4 ==> !StepFails(base, failing, j)) ==>
      Startup(opens, failing, base, address, state).events == [Ready] &&
      |Startup(opens, failing, base, address, state).writes| == 4 &&
      StartupAsWritten(opens, failing, base, address, state).events == [Error(NotAFunction("setBlinkrate"))]
  {
    if opens && (forall j :: 0 <= j < 4 ==> !StepFails(base, failing, j)) {
      StartupSucceeds(failing, base, address, state);
    }
  }

  /** The driver for one backpack at one bus address. */
  class LEDBackpack {
    /** The device address on the bus. */
    const address: int
    /** The display buffer: eight 16-bit entries. */
    const buffer: array<Word>
    /** The display power bit used in every display setup command: on from construction and never changed. */
    const state: int
    /** The opened bus. */
    const wire: Bus
    /** The events emitted so far, oldest first. */
    var events: seq<Event>

    ghost predicate Valid()
      reads this
    {
      buffer.Length == BufferSize
    }

    /**
     * Creates the driver with a zeroed buffer and the display on, then runs
     * start-up on the bus.
     */
    constructor(wire: Bus, address: int)
      modifies wire
      ensures Valid() && fresh(buffer)
      ensures this.wire == wire && this.address == address && state == DisplayOn
      ensures buffer[..] == Zeros(BufferSize)
      ensures var run := Startup(wire.opens, wire.failing, |old(wire.log)|, address, DisplayOn);
        wire.log == old(wire.log) + run.writes && events == run.events
    {
      this.address := address;
      buffer := new Word[BufferSize](_ => 0);
      state := DisplayOn;
      this.wire := wire;
      events := [];
      new;
      Start();
    }

    /**
     * The start-up chain run once the bus reports on opening: oscillator
     * on, blink off, brightness 10, clear; the first failure stops the
     * chain and emits `error`, success emits `ready`.
     */
    method Start()
      requires Valid()
      modifies this, buffer, wire
      ensures Valid()
      ensures var run := Startup(wire.opens, wire.failing, |old(wire.log)|, address, state);
        wire.log == old(wire.log) + run.writes && events == old(events) + run.events &&
        buffer[..] == if |run.writes| == 4 then Zeros(BufferSize) else old(buffer[..])
    {
      if !wire.opens {
        events := events + [Error(OpenFailed)];
        return;
      }
      ghost var base := |wire.log|;
      ghost var steps := InitWrites(address, state);
      // Turn the oscillator on.
      var ok := ExecuteCommand(BitOr(OscillatorRegister, OscillatorOn));
      if !ok {
        events := events + [Error(WriteFailed(wire.log[|wire.log| - 1]))];
        return;
      }
      assert FirstFailure(base, wire.failing, 0) == FirstFailure(base, wire.failing, 1);
      // Turn blink off.  The chain in the source calls `this.setBlinkrate`,
      // a name no method has (the method is setBlinkRate); the model runs the
      // intended setBlinkRate, and StartupAsWritten models the chain as written.
      ok := SetBlinkRate(BlinkOff);
      if !ok {
        events := events + [Error(WriteFailed(wire.log[|wire.log| - 1]))];
        return;
      }
      assert FirstFailure(base, wire.failing, 1) == FirstFailure(base, wire.failing, 2);
      ok := SetBrightness(InitialBrightness);
      if !ok {
        events := events + [Error(WriteFailed(wire.log[|wire.log| - 1]))];
        return;
      }
      assert FirstFailure(base, wire.failing, 2) == FirstFailure(base, wire.failing, 3);
      ok := Clear();
      if !ok {
        events := events + [Error(WriteFailed(wire.log[|wire.log| - 1]))];
        return;
      }
      assert FirstFailure(base, wire.failing, 3) == 4;
      events := events + [Ready];
    }

    /** executeCommand: one single-byte write of cmd to the device, argument 0. */
    method ExecuteCommand(cmd: int) returns (ok: bool)
      modifies wire
      ensures wire.log == old(wire.log) + [Command(address, cmd)]
      ensures ok == (|old(wire.log)| !in wire.failing)
    {
      ok := wire.WriteByte(address, cmd, 0x00);
    }

    /** setBlinkRate: a rate above Half is replaced by Off, then the display setup command is sent. */
    method SetBlinkRate(rate: int) returns (ok: bool)
      modifies wire
      ensures wire.log == old(wire.log) + [Command(address, BlinkCommand(state, rate))]
      ensures ok == (|old(wire.log)| !in wire.failing)
    {
      var r := rate;
      if r > BlinkHalf {
        r := BlinkOff;
      }
      ok := ExecuteCommand(BitOr(BitOr(DisplayRegister, state), ShiftLeft(r, 1)));
    }

    /** setBrightness: the level is clamped to 0..15, then the dimming command is sent. */
    method SetBrightness(brightness: int) returns (ok: bool)
      modifies wire
      ensures wire.log == old(wire.log) + [Command(address, BrightnessCommand(brightness))]
      ensures ok == (|old(wire.log)| !in wire.failing)
    {
      var level := brightness;
      if level > MaxBrightness {
        level := MaxBrightness;
      }
      if level < 0 {
        level := 0;
      }
      ok := ExecuteCommand(BitOr(BrightnessRegister, level));
    }

    /**
     * setBufferBlock: a block outside 0..7 throws (reported here as false)
     * and leaves the buffer alone; otherwise entry `block` becomes
     * `value | (dot << 7)` kept to 16 bits.
     */
    method SetBufferBlock(block: int, value: int, dot: bool) returns (ok: bool)
      requires Valid()
      modifies buffer
      ensures var r := SetBlock(old(buffer[..]), block, value, dot);
        ok == r.Written? && buffer[..] == if ok then r.words else old(buffer[..])
    {
      if block < 0 || block >= BufferSize {
        return false;
      }
      StoredIsJsStore(value, dot);
      buffer[block] := ToUint16(BitOr(value, ShiftLeft(DotNumber(dot), DotBit)));
      ok := true;
    }

    /** The byte image writeDisplay builds: low byte then high byte of each entry, with a running index. */
    method Bytes() returns (bytes: seq<Byte>)
      requires Valid()
      ensures bytes == Serialize(buffer[..])
    {
      var out := new Byte[BufferSize * 2];
      var i := 0;
      for k := 0 to BufferSize
        invariant i == 2 * k
        invariant out[..i] == Serialize(buffer[..k])
      {
        var item := buffer[k];
        LowByteIsMask(item);
        HighByteIsShift(item);
        assert buffer[..k + 1][..k] == buffer[..k];
        out[i] := BitAnd(item, 0xFF);
        i := i + 1;
        out[i] := ShiftRight(item, 8);
        i := i + 1;
      }
      assert buffer[..BufferSize] == buffer[..];
      bytes := out[..];
    }

    /** writeDisplay: the buffer's image in one block write to display RAM; the buffer is not touched. */
    method WriteDisplay() returns (ok: bool)
      requires Valid()
      modifies wire
      ensures wire.log == old(wire.log) + [Flush(address, buffer[..])]
      ensures ok == (|old(wire.log)| !in wire.failing)
    {
      var bytes := Bytes();
      ok := wire.WriteI2cBlock(address, DisplayRam, |bytes|, bytes);
    }

    /** clear: zeroes every entry, then flushes the buffer. */
    method Clear() returns (ok: bool)
      requires Valid()
      modifies buffer, wire
      ensures buffer[..] == Zeros(BufferSize)
      ensures wire.log == old(wire.log) + [Flush(address, Zeros(BufferSize))]
      ensures ok == (|old(wire.log)| !in wire.failing)
    {
      for i := 0 to BufferSize
        modifies buffer
        invariant forall j :: 0 <= j < i ==> buffer[j] == 0
      {
        buffer[i] := 0;
      }
      assert buffer[..] == Zeros(BufferSize);
      ok := WriteDisplay();
    }
  }
}
