/**
 * The i2c bus as the driver sees it.  The real bus is foreign I/O; here it
 * is an oracle fixed at creation (whether opening succeeds and which writes
 * report an error) that records every write the driver issues.
 */
module Transport {
  import opened DisplayBuffer

  /** One call on the bus: `writeByte(address, cmd, byte)` or `writeI2cBlock(address, cmd, length, buffer)`. */
  datatype Write =
    | ByteWrite(address: int, cmd: int, arg: int)
    | BlockWrite(address: int, cmd: int, length: int, bytes: seq<Byte>)

  class Bus {
    /** Whether opening the bus reports success. */
    const opens: bool
    /** Positions, counted from 0 in call order, of the writes that report an error. */
    const failing: set<nat>
    /** Every write issued so far, failed or not, oldest first. */
    var log: seq<Write>

    constructor(opens: bool, failing: set<nat>)
      ensures this.opens == opens && this.failing == failing && log == []
    {
      this.opens := opens;
      this.failing := failing;
      log := [];
    }

    /** Whether the next write will report success. */
    predicate NextSucceeds()
      reads this
    {
      |log| !in failing
    }

    /** `writeByte`: records the write and reports the oracle's outcome for it. */
    method WriteByte(address: int, cmd: int, arg: int) returns (ok: bool)
      modifies this
      ensures log == old(log) + [ByteWrite(address, cmd, arg)]
      ensures ok == old(NextSucceeds())
    {
      ok := NextSucceeds();
      log := log + [ByteWrite(address, cmd, arg)];
    }

    /** `writeI2cBlock`: records the write and reports the oracle's outcome for it. */
    method WriteI2cBlock(address: int, cmd: int, length: int, bytes: seq<Byte>) returns (ok: bool)
      modifies this
      ensures log == old(log) + [BlockWrite(address, cmd, length, bytes)]
      ensures ok == old(NextSucceeds())
    {
      ok := NextSucceeds();
      log := log + [BlockWrite(address, cmd, length, bytes)];
    }
  }
}
