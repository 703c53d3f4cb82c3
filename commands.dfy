/**
 * The HT16K33 command encoder: the single command bytes the driver sends
 * for the oscillator, the display setup (on/off and blink rate) and the
 * dimming level, computed with the JavaScript operators of the driver.
 */
module Commands {
  import opened JsNumbers

  /** System setup register and its oscillator-on bit. */
  const OscillatorRegister: int := 0x20
  const OscillatorOn: int := 0x01

  /** Display setup register and the display-on bit (the driver's `state`). */
  const DisplayRegister: int := 0x80
  const DisplayOn: int := 0x01
  const DisplayOff: int := 0x00

  /** Dimming register; the level occupies its low four bits. */
  const BrightnessRegister: int := 0xE0
  const MaxBrightness: int := 15

  /** The blink rates, as the driver numbers them. */
  const BlinkOff: int := 0
  const BlinkDouble: int := 1
  const BlinkNormal: int := 2
  const BlinkHalf: int := 3

  /** The command that starts the oscillator: `0x20 | 0x01`. */
  function OscillatorOnCommand(): (cmd: int)
    ensures cmd == 0x21
  {
    Pow2Small();
    BitOrDisjoint(0x10, OscillatorOn, 1);
    BitOr(OscillatorRegister, OscillatorOn)
  }

  /** The rate setBlinkRate uses: any rate above Half becomes Off; nothing else is checked. */
  function CoerceRate(rate: int): (r: int)
    ensures r <= BlinkHalf
    ensures rate <= BlinkHalf ==> r == rate
    ensures rate > BlinkHalf ==> r == BlinkOff
  {
    if rate > BlinkHalf then BlinkOff else rate
  }

  /**
   * The command setBlinkRate sends: `0x80 | state | (rate << 1)` after
   * coercing the rate.  For the display on or off and a rate of the
   * enumeration, the fields do not overlap and the command is the byte
   * 0x80 + state + 2 * rate, within 0x80..0x87.
   */
  function BlinkCommand(state: int, rate: int): (cmd: int)
    ensures (state == DisplayOn || state == DisplayOff) && BlinkOff <= rate <= BlinkHalf ==>
      cmd == DisplayRegister + state + 2 * rate && 0x80 <= cmd <= 0x87
  {
    if (state == DisplayOn || state == DisplayOff) && BlinkOff <= rate <= BlinkHalf then
      SetupSum(state, rate);
      BitOr(BitOr(DisplayRegister, state), ShiftLeft(CoerceRate(rate), 1))
    else
      BitOr(BitOr(DisplayRegister, state), ShiftLeft(CoerceRate(rate), 1))
  }

  /** The level setBrightness uses: above 15 becomes 15, then below 0 becomes 0. */
  function ClampBrightness(level: int): (r: int)
    ensures 0 <= r <= MaxBrightness
    ensures 0 <= level <= MaxBrightness ==> r == level
    ensures level > MaxBrightness ==> r == MaxBrightness
    ensures level < 0 ==> r == 0
  {
    var capped := if level > MaxBrightness then MaxBrightness else level;
    if capped < 0 then 0 else capped
  }

  /**
   * The command setBrightness sends: `0xE0 | level` after clamping.  The
   * OR never carries into the register bits, so the command is the
   * register plus the clamped level and stays within 0xE0..0xEF.
   */
  function BrightnessCommand(level: int): (cmd: int)
    ensures cmd == BrightnessRegister + ClampBrightness(level)
    ensures 0xE0 <= cmd <= 0xEF
  {
    Pow2Small();
    BitOrDisjoint(0x0E, ClampBrightness(level), 4);
    BitOr(BrightnessRegister, ClampBrightness(level))
  }

  /** `0x80 | state | (rate << 1)` is the sum of its fields for a state bit and a rate 0..3. */
  lemma SetupSum(state: int, rate: int)
    requires state == DisplayOn || state == DisplayOff
    requires BlinkOff <= rate <= BlinkHalf
    ensures BitOr(BitOr(DisplayRegister, state), ShiftLeft(rate, 1)) == DisplayRegister + state + 2 * rate
  {
    SetupWithState(state);
    assert ShiftLeft(rate, 1) == 2 * rate by {
      Pow2Small();
      ShiftLeftNonNegative(rate, 1);
    }
    SetupWithRate(state, rate);
  }

  /** `0x80 | state` is 0x80 plus the state bit. */
  lemma SetupWithState(state: int)
    requires state == DisplayOn || state == DisplayOff
    ensures BitOr(DisplayRegister, state) == DisplayRegister + state
  {
    Pow2Small();
    BitOrDisjoint(0x40, state, 1);
  }

  /** `(0x80 + state) | (2 * rate)` adds the rate bits 1-2 to the setup byte. */
  lemma SetupWithRate(state: int, rate: int)
    requires state == DisplayOn || state == DisplayOff
    requires BlinkOff <= rate <= BlinkHalf
    ensures BitOr(DisplayRegister + state, 2 * rate) == DisplayRegister + state + 2 * rate
  {
    RateBits(state, rate);
    assert Or(DisplayRegister + state, 2 * rate) == DisplayRegister + state + 2 * rate by {
      Pow2Small();
      OrSplit(0x10, state, 2 * rate, 3);
    }
    BitOrNonNegative(DisplayRegister + state, 2 * rate);
  }

  /** The state bit and the rate bits do not overlap: their Or is their sum. */
  lemma RateBits(state: int, rate: int)
    requires state == DisplayOn || state == DisplayOff
    requires BlinkOff <= rate <= BlinkHalf
    ensures Or(state, 2 * rate) == 2 * rate + state
  {
    Pow2Small();
    OrCommutes(state, 2 * rate);
    OrDisjoint(rate, state, 1);
  }

  /** A rate above Half sends exactly the command of rate Off: 0x80 plus the state bit. */
  lemma BlinkInvalidRateIsOff(state: int, rate: int)
    requires state == DisplayOn || state == DisplayOff
    requires rate > BlinkHalf
    ensures BlinkCommand(state, rate) == BlinkCommand(state, BlinkOff) == DisplayRegister + state
  {
    assert CoerceRate(rate) == BlinkOff;
  }

  /**
   * The display setup command can be read back: bit 0 is the state, bits
   * 1-2 the (coerced) rate and the bits above the display register.
   */
  lemma BlinkCommandDecodes(state: int, rate: int)
    requires state == DisplayOn || state == DisplayOff
    requires rate >= BlinkOff
    ensures BlinkCommand(state, rate) % 2 == state
    ensures BlinkCommand(state, rate) / 2 % 4 == CoerceRate(rate)
    ensures BlinkCommand(state, rate) / 8 == DisplayRegister / 8
  {
    var r := CoerceRate(rate);
    assert BlinkCommand(state, rate) == BlinkCommand(state, r);
    SetupFields(BlinkCommand(state, rate), state, r);
  }

  /** The fields of a display setup byte 0x80 + state + 2 * rate. */
  lemma SetupFields(cmd: int, state: int, rate: int)
    requires 0 <= state <= 1 && 0 <= rate <= 3
    requires cmd == DisplayRegister + state + 2 * rate
    ensures cmd % 2 == state && cmd / 2 % 4 == rate && cmd / 8 == DisplayRegister / 8
  {
  }

  /**
   * A negative rate is not coerced.  For a rate in -2^30..-1 the shift
   * keeps the sign, so the command the driver sends is a negative number,
   * not a command byte.
   */
  lemma BlinkNegativeRateNotAByte(state: int, rate: int)
    requires state == DisplayOn || state == DisplayOff
    requires -0x4000_0000 <= rate < 0
    ensures BlinkCommand(state, rate) < 0
  {
    SetupWithState(state);
    DoubleNegative(rate);
    NegativeOr(DisplayRegister + state, 2 * rate);
  }

  /**
   * Below -2^30 the 32-bit shift sees only the rate modulo 2^31.  When that
   * residue is 0..3 the command is the residue's, so such a negative rate
   * sends a valid blink command.  Otherwise the command is `0x80 | state | 2r`
   * for the residue r, reduced to int32: residues 64..67 again give a setup
   * byte (see BlinkWrapSetupByte), other residues give no setup byte (see
   * BlinkWrapNotAByte).
   */
  lemma BlinkNegativeRateWraps(state: int, rate: int)
    requires rate < 0 && rate % 0x8000_0000 <= BlinkHalf
    ensures BlinkCommand(state, rate) == BlinkCommand(state, rate % 0x8000_0000)
  {
    ShiftLeftWraps(rate);
  }

  /** With the display on, rate -2^31 sends Off (0x81) and rate 1 - 2^32 sends Double (0x83). */
  lemma BlinkWrapExamples(off: int, double: int)
    requires off == -0x8000_0000 && double == -0xFFFF_FFFF
    ensures BlinkCommand(DisplayOn, off) == 0x81
    ensures BlinkCommand(DisplayOn, double) == 0x83
  {
    DivUnique(off, 0x8000_0000, -1, BlinkOff);
    BlinkNegativeRateWraps(DisplayOn, off);
    DivUnique(double, 0x8000_0000, -2, BlinkDouble);
    BlinkNegativeRateWraps(DisplayOn, double);
  }

  /**
   * Rate -2^30 - 1 has the residue 2^30 - 1, which is not a rate: the shift
   * yields 0x7FFF_FFFE and the command is a large positive number, not a
   * command byte.
   */
  lemma BlinkWrapNotAByte(rate: int)
    requires rate == -0x4000_0001
    ensures 0x7FFF_FFFE <= BlinkCommand(DisplayOn, rate) < 0x8000_0000
  {
    assert ShiftLeft(rate, 1) == 0x7FFF_FFFE by {
      assert Pow2(1) == 2;
      DivUnique(rate, 0x1_0000_0000, -1, 0xBFFF_FFFF);
    }
    SetupWithState(DisplayOn);
    BitOrNonNegative(DisplayRegister + DisplayOn, 0x7FFF_FFFE);
    OrAtLeast(DisplayRegister + DisplayOn, 0x7FFF_FFFE);
  }

  /**
   * Rate 64 - 2^31 has the residue 64, which is not a rate, yet its shifted
   * bits 0x80 fall on the register bit: with the display on the command is
   * 0x81, the Off command.
   */
  lemma BlinkWrapSetupByte(rate: int)
    requires rate == 64 - 0x8000_0000
    ensures BlinkCommand(DisplayOn, rate) == 0x81
  {
    DivUnique(rate, 0x8000_0000, -1, 64);
    ShiftLeftWraps(rate);
    assert ShiftLeft(64, 1) == 0x80 by {
      Pow2Small();
      ShiftLeftNonNegative(64, 1);
    }
    SetupWithState(DisplayOn);
    BitOrNonNegative(DisplayRegister + DisplayOn, 0x80);
    assert Or(0x81, 0x80) == 0x81;
  }

  /** The dimming command saturates: 20 sends what 15 sends, and -5 what 0 sends. */
  lemma BrightnessSaturates(level: int)
    ensures level >= MaxBrightness ==> BrightnessCommand(level) == BrightnessCommand(MaxBrightness) == 0xEF
    ensures level <= 0 ==> BrightnessCommand(level) == BrightnessCommand(0) == 0xE0
  {
  }

  /**
   * The dimming command can be read back: `cmd & 0x0F` is the clamped
   * level, so two levels in 0..15 never share a command.
   */
  lemma BrightnessCommandDecodes(level: int)
    ensures BitAnd(BrightnessCommand(level), 0x0F) == ClampBrightness(level)
  {
    LowNibble(BrightnessCommand(level));
  }

  /** `cmd & 0x0F` of a dimming command is its level. */
  lemma LowNibble(cmd: int)
    requires BrightnessRegister <= cmd <= BrightnessRegister + MaxBrightness
    ensures BitAnd(cmd, 0x0F) == cmd - BrightnessRegister
  {
    BitAndNibble(cmd);
  }
}
