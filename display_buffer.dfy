/**
 * The driver's display buffer: eight unsigned 16-bit entries (a
 * `Uint16Array`), the value a block write stores, and the little-endian
 * byte image that is sent to display RAM.
 */
module DisplayBuffer {
  import opened JsNumbers

  /** An unsigned 8-bit value, as written by `writeUInt8`. */
  type Byte = x: int | 0 <= x < 0x100

  /** An unsigned 16-bit value, as held by a `Uint16Array` slot. */
  type Word = x: int | 0 <= x < 0x1_0000

  /** Number of 16-bit entries in the buffer. */
  const BufferSize: nat := 8

  /** The bit that carries the decimal point / colon flag. */
  const DotBit: nat := 7
  const DotFlag: int := 0x80

  /** `dot << 7` first converts dot to a number: true is 1, false (or absent) is 0. */
  function DotNumber(dot: bool): int
  {
    if dot then 1 else 0
  }

  /**
   * The entry that `this.buffer[block] = value | (dot << 7)` stores: the low
   * 16 bits of value with the flag bit added.  StoredIsJsStore shows that
   * this is what the int32 OR followed by the `Uint16Array` store yields.
   */
  function Stored(value: int, dot: bool): (w: Word)
    ensures w >= value % 0x1_0000
    ensures dot ==> w >= DotFlag
  {
    var flag := if dot then DotFlag else 0;
    Pow2Large();
    OrBound(value % 0x1_0000, flag, 16);
    OrAtLeast(value % 0x1_0000, flag);
    Or(value % 0x1_0000, flag)
  }

  /** `dot << 7` is the flag value. */
  lemma FlagShift(dot: bool)
    ensures ShiftLeft(DotNumber(dot), DotBit) == if dot then DotFlag else 0
  {
    Pow2Small();
    ShiftLeftNonNegative(DotNumber(dot), DotBit);
  }

  /** The low 16 bits of an int32 value are the low 16 bits of the number it came from. */
  lemma Uint16OfInt32(x: int)
    ensures ToUint16(ToInt32(x)) == x % 0x1_0000
  {
    var u := x % 0x1_0000_0000;
    assert x == 0x1_0000_0000 * (x / 0x1_0000_0000) + u;
    assert x % 0x1_0000 == u % 0x1_0000;
    assert ToInt32(x) == u || ToInt32(x) == u - 0x1_0000_0000;
  }

  /** The low 16 bits of a number survive the reduction modulo 2^32. */
  lemma LowBitsOfUint32(x: int)
    ensures ToUint32(x) % 0x1_0000 == x % 0x1_0000
  {
    assert x == 0x1_0000_0000 * (x / 0x1_0000_0000) + ToUint32(x);
  }

  /** Or with a number below 2^16 acts on the low 16 bits alone. */
  lemma OrLow16(u: nat, m: nat)
    requires m < 0x1_0000
    ensures Or(u, m) % 0x1_0000 == Or(u % 0x1_0000, m)
  {
    assert Pow2(16) == 0x1_0000 by {
      Pow2Large();
    }
    OrSplit(u / 0x1_0000, u % 0x1_0000, m, 16);
    OrBound(u % 0x1_0000, m, 16);
    assert u == (u / 0x1_0000) * Pow2(16) + u % 0x1_0000;
  }

  /** The JavaScript store `ToUint16(value | (dot << 7))` yields the Stored entry. */
  lemma StoredIsJsStore(value: int, dot: bool)
    ensures ToUint16(BitOr(value, ShiftLeft(DotNumber(dot), DotBit))) == Stored(value, dot)
  {
    var m := if dot then DotFlag else 0;
    FlagShift(dot);
    Int32Small(m);
    StoredOr(value, m);
  }

  lemma StoredOr(value: int, m: nat)
    requires m < 0x8000_0000 && m < 0x1_0000
    ensures ToUint16(BitOr(value, m)) == Or(value % 0x1_0000, m)
  {
    var u := ToUint32(value);
    assert BitOr(value, m) == ToInt32(Or(u, m)) by {
      Int32Small(m);
    }
    Uint16OfInt32(Or(u, m));
    OrLow16(u, m);
    LowBitsOfUint32(value);
  }

  /** Without the flag, the store keeps exactly the low 16 bits of the value. */
  lemma StoredWithoutDot(value: int)
    ensures Stored(value, false) == value % 0x1_0000
  {
    OrZero(value % 0x1_0000);
  }

  /**
   * Bit by bit: bit 7 of the stored entry is set when the flag is given or
   * the value has it; every other bit 0..15 is the value's own.
   */
  lemma StoredBits(value: int, dot: bool, i: nat)
    requires i < 16
    ensures Bit(Stored(value, dot), i) == 1
        <==> (dot && i == DotBit) || Bit(value % 0x1_0000, i) == 1
  {
    OrBit(value % 0x1_0000, if dot then DotFlag else 0, i);
    Pow2Small();
    BitOfPow2(DotBit, i);
    if !dot {
      BitOfZero(i);
    }
  }

  /** The low byte of an entry; LowByteIsMask shows it is `item & 0xFF`. */
  function LowByte(w: Word): Byte
  {
    w % 0x100
  }

  /** The high byte of an entry; HighByteIsShift shows it is `item >> 8`. */
  function HighByte(w: Word): Byte
  {
    w / 0x100
  }

  /** JavaScript `item & 0xFF` on an entry is its low byte. */
  lemma LowByteIsMask(w: Word)
    ensures BitAnd(w, 0xFF) == LowByte(w)
  {
    assert Pow2(8) == 0x100 by {
      Pow2Small();
    }
    BitAndLowMask(w, 8);
  }

  /** JavaScript `item >> 8` on an entry is its high byte. */
  lemma HighByteIsShift(w: Word)
    ensures ShiftRight(w, 8) == HighByte(w)
  {
    Pow2Small();
    Int32Small(w);
  }

  /** The 16-bit value a little-endian byte pair stands for: `lo + 256 * hi`. */
  function Join(lo: Byte, hi: Byte): Word
  {
    lo + 0x100 * hi
  }

  /** Splitting an entry into its bytes and joining them gives the entry back. */
  lemma JoinSplit(w: Word)
    ensures Join(LowByte(w), HighByte(w)) == w
  {
  }

  /** Joining two bytes and splitting the entry gives the two bytes back. */
  lemma SplitJoin(lo: Byte, hi: Byte)
    ensures LowByte(Join(lo, hi)) == lo && HighByte(Join(lo, hi)) == hi
  {
  }

  /**
   * The bytes writeDisplay sends: for each entry in index order, the low
   * byte and then the high byte.
   */
  function Serialize(words: seq<Word>): (bytes: seq<Byte>)
    ensures |bytes| == 2 * |words|
  {
    if words == [] then []
    else
      var last := words[|words| - 1];
      Serialize(words[..|words| - 1]) + [LowByte(last), HighByte(last)]
  }

  /** The entries a byte image stands for: each pair joined little-endian. */
  function Deserialize(bytes: seq<Byte>): (words: seq<Word>)
    requires |bytes| % 2 == 0
    ensures |words| == |bytes| / 2
  {
    if bytes == [] then []
    else
      var n := |bytes|;
      Deserialize(bytes[..n - 2]) + [Join(bytes[n - 2], bytes[n - 1])]
  }

  /** Byte 2i of the image is the low byte of entry i and byte 2i + 1 its high byte. */
  lemma {:induction false} SerializeAt(words: seq<Word>, i: nat)
    requires i < |words|
    ensures Serialize(words)[2 * i] == LowByte(words[i])
    ensures Serialize(words)[2 * i + 1] == HighByte(words[i])
    decreases |words|
  {
    var n := |words|;
    var front := words[..n - 1];
    assert Serialize(words) == Serialize(front) + [LowByte(words[n - 1]), HighByte(words[n - 1])];
    if i < n - 1 {
      SerializeAt(front, i);
    }
  }

  /** Reassembling bytes 2i and 2i + 1 of the image gives back entry i. */
  lemma SerializedEntry(words: seq<Word>, i: nat)
    requires i < |words|
    ensures Serialize(words)[2 * i] as int + 0x100 * Serialize(words)[2 * i + 1] as int == words[i]
  {
    SerializeAt(words, i);
  }

  /** Deserializing the image of a buffer gives the buffer back. */
  lemma {:induction false} DeserializeSerialize(words: seq<Word>)
    ensures Deserialize(Serialize(words)) == words
    decreases |words|
  {
    if words != [] {
      var n := |words|;
      var bytes := Serialize(words);
      var front := words[..n - 1];
      assert bytes[..2 * n - 2] == Serialize(front);
      DeserializeSerialize(front);
      JoinSplit(words[n - 1]);
      assert words == front + [words[n - 1]];
    }
  }

  /** Serializing the entries a byte image stands for gives the image back. */
  lemma {:induction false} SerializeDeserialize(bytes: seq<Byte>)
    requires |bytes| % 2 == 0
    ensures Serialize(Deserialize(bytes)) == bytes
    decreases |bytes|
  {
    if bytes != [] {
      var n := |bytes|;
      var words := Deserialize(bytes);
      var front := bytes[..n - 2];
      assert words[..|words| - 1] == Deserialize(front);
      SerializeDeserialize(front);
      SplitJoin(bytes[n - 2], bytes[n - 1]);
      assert bytes == front + [bytes[n - 2], bytes[n - 1]];
    }
  }

  /** A buffer of n zero entries. */
  function Zeros(n: nat): (words: seq<Word>)
    ensures |words| == n
  {
    seq(n, _ => 0)
  }

  /** The image of a zeroed buffer is all zero bytes. */
  lemma {:induction false} SerializeZeros(n: nat)
    ensures Serialize(Zeros(n)) == seq(2 * n, _ => 0)
    decreases n
  {
    if n > 0 {
      assert Zeros(n)[..n - 1] == Zeros(n - 1);
      SerializeZeros(n - 1);
    }
  }

  /** How a block write ends: the new entries, or the range error it throws. */
  datatype Outcome = Written(words: seq<Word>) | OutOfRange(block: int)

  /**
   * setBufferBlock on a buffer value: a block outside 0..size - 1 is
   * rejected and the buffer is untouched; otherwise only that entry changes,
   * to the stored value.
   */
  function SetBlock(words: seq<Word>, block: int, value: int, dot: bool): (r: Outcome)
    ensures r.OutOfRange? <==> block < 0 || block >= |words|
    ensures r.OutOfRange? ==> r.block == block
    ensures r.Written? ==> |r.words| == |words| && r.words[block] == Stored(value, dot)
    ensures r.Written? ==> forall j :: 0 <= j < |words| && j != block ==> r.words[j] == words[j]
  {
    if block < 0 || block >= |words| then OutOfRange(block)
    else Written(words[block := Stored(value, dot)])
  }

  /**
   * After a block write, the image carries the stored entry's bytes at
   * 2 * block and 2 * block + 1, and every other byte is as before.
   */
  lemma SetBlockImage(words: seq<Word>, block: nat, value: int, dot: bool)
    requires block < |words|
    ensures var image := Serialize(SetBlock(words, block, value, dot).words);
      image[2 * block] == LowByte(Stored(value, dot)) &&
      image[2 * block + 1] == HighByte(Stored(value, dot)) &&
      forall j :: 0 <= j < 2 * |words| && j / 2 != block ==> image[j] == Serialize(words)[j]
  {
    var w := Stored(value, dot);
    assert SetBlock(words, block, value, dot).words == words[block := w];
    UpdateImage(words, block, w);
  }

  /** Replacing entry k changes bytes 2k and 2k + 1 of the image and no other. */
  lemma UpdateImage(words: seq<Word>, k: nat, w: Word)
    requires k < |words|
    ensures Serialize(words[k := w])[2 * k] == LowByte(w)
    ensures Serialize(words[k := w])[2 * k + 1] == HighByte(w)
    ensures forall j :: 0 <= j < 2 * |words| && j / 2 != k ==> Serialize(words[k := w])[j] == Serialize(words)[j]
  {
    var updated := words[k := w];
    SerializeAt(updated, k);
    forall j | 0 <= j < 2 * |words| && j / 2 != k
      ensures Serialize(updated)[j] == Serialize(words)[j]
    {
      SerializeAt(updated, j / 2);
      SerializeAt(words, j / 2);
    }
  }
}
