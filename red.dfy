/** The device record `Red` (SMD-java/red.java:118-473): its registry of 116
    typed slots, the acknowledgment size it expects next, and the builders that
    update the registry and return the frame to put on the bus. */
module Device {
  import opened Common
  import opened Crc32
  import opened Registry
  import opened Codec

  /** The commands sent by the builders that carry no register list. */
  predicate IsVerb(cmd: Command) {
    cmd in {Reboot, HardReset, EepromWrite, EepromWriteAck, Ping, ResetEnc, Tune, ModuleScan, BlJump}
  }

  /** The acknowledgment a command-only builder expects: the prefix and the
      CRC trailer for the commands the device answers, nothing for the others. */
  function VerbAckSize(cmd: Command): nat
    requires IsVerb(cmd)
  {
    if cmd in {EepromWrite, EepromWriteAck, Ping, ResetEnc, ModuleScan} then |PrefixFormat| + TrailerSize else 0
  }

  /** The command a write sends (red.java:259). */
  function WriteCommand(ack: bool): Command {
    if ack then WriteAck else Write
  }

  /** What `setValue(crc.getValue())` stores in the `CRCValue` slot for a
      body: the CRC-32 of the patched body, a non-negative `long` boxed to a
      `Long`. */
  function CrcOf(body: seq<byte>): (v: Value)
    requires |body| > PackageSize
    ensures v.Long? && 0 <= v.l < 0x1_0000_0000
  {
    Long(Crc(Patch(body)) as int)
  }

  /** The `CRCValue` slot after checksumming a format string. */
  function CrcSlot(fmt: string): (v: Value)
    requires IsAscii(fmt) && |fmt| > PackageSize
    ensures v.Long? && 0 <= v.l < 0x1_0000_0000
    ensures v == CrcOf(Ascii(fmt))
  {
    CrcOf(Ascii(fmt))
  }

  /** What a builder returns as written (red.java:279-283, and the same lines
      of every builder): the trailer is `putInt((int) value)` of the stored
      CRC, and the `(int)` cast must succeed before `result.put` copies
      anything; past the cast, `put` copies no byte and the trailer stays zero
      (`FrameAsWritten`). */
  function BuiltAsWritten(vars: seq<Data>, body: seq<byte>): (r: Result<seq<byte>, Error>)
    requires WellFormed(vars) && |body| > PackageSize
    ensures r.Success? <==> vars[CrcValue].value.Int?
    ensures r.Success? ==> r.value == FrameAsWritten(body)
    ensures vars[CrcValue].value.Long? ==> r == Failure(ClassCast)
  {
    match AsInt(vars[CrcValue].value)
    case Success(_) => Success(FrameAsWritten(body))
    case Failure(e) => Failure(e)
  }

  /** As written, every builder throws ClassCastException once it has stored
      its CRC: the slot holds a `Long`, which `(int)` does not unbox. So no
      builder returns a frame, whichever command it stamps. */
  lemma BuildersThrowAsWritten(vars: seq<Data>, cmd: Command, fmt: string, body: seq<byte>)
    requires WellFormed(vars) && IsAscii(fmt) && |fmt| > PackageSize && |body| > PackageSize
    ensures BuiltAsWritten(Stamped(vars, cmd, fmt), Ascii(fmt)) == Failure(ClassCast)
    ensures BuiltAsWritten(SetValue(vars, CrcValue, CrcOf(body)), body) == Failure(ClassCast)
  {
  }

  /** The registry after a builder that stores only its command and its CRC. */
  function Stamped(vars: seq<Data>, cmd: Command, fmt: string): (r: seq<Data>)
    requires WellFormed(vars) && IsAscii(fmt) && |fmt| > PackageSize
    ensures WellFormed(r)
    ensures r[CommandSlot].value == Cmd(cmd) && r[CrcValue].value == CrcSlot(fmt)
    ensures forall k | 0 <= k < Count && k != CommandSlot && k != CrcValue :: r[k] == vars[k]
  {
    SetValue(SetValue(vars, CommandSlot, Cmd(cmd)), CrcValue, CrcSlot(fmt))
  }

  /** A builder that stores only its command and CRC overwrites everything
      the previous such builder stored: only the last one shows. */
  lemma StampedTwice(vars: seq<Data>, c1: Command, f1: string, c2: Command, f2: string)
    requires WellFormed(vars) && IsAscii(f1) && |f1| > PackageSize && IsAscii(f2) && |f2| > PackageSize
    ensures Stamped(Stamped(vars, c1, f1), c2, f2) == Stamped(vars, c2, f2)
  {
    var a, b := Stamped(Stamped(vars, c1, f1), c2, f2), Stamped(vars, c2, f2);
    assert forall k | 0 <= k < Count :: a[k] == b[k];
  }

  /** A builder that stores only its command and CRC overwrites whatever
      command and CRC an earlier builder stored, `updateDriverId`'s included. */
  lemma RestampedKeepsLast(vars: seq<Data>, c: Value, crc: Value, cmd: Command, fmt: string)
    requires WellFormed(vars) && IsAscii(fmt) && |fmt| > PackageSize
    ensures Stamped(SetValue(SetValue(vars, CommandSlot, c), CrcValue, crc), cmd, fmt) == Stamped(vars, cmd, fmt)
  {
    var a, b := Stamped(SetValue(SetValue(vars, CommandSlot, c), CrcValue, crc), cmd, fmt), Stamped(vars, cmd, fmt);
    assert forall k | 0 <= k < Count :: a[k] == b[k];
  }

  /** How many leading pairs of a write can be stored before `vars.get` or
      `valueList.get` throws: the index must name a slot and a value must exist. */
  function GoodPrefix(indices: seq<int>, values: seq<Value>): (g: nat)
    ensures g <= |indices| && g <= |values|
    ensures forall j | 0 <= j < g :: InRange(indices[j]) && j < |values|
    ensures g < |indices| ==> !(InRange(indices[g]) && g < |values|)
    ensures g == |indices| <==> AllInRange(indices) && |indices| <= |values|
    decreases |indices|
  {
    if |indices| == 0 then 0
    else if InRange(indices[0]) && 0 < |values| then 1 + GoodPrefix(indices[1..], values[1..])
    else 0
  }

  /** The registry after storing the first `g` pairs of a write. */
  function StoreFirst(vars: seq<Data>, indices: seq<int>, values: seq<Value>, g: nat): (r: seq<Data>)
    requires WellFormed(vars) && g <= GoodPrefix(indices, values)
    ensures WellFormed(r)
  {
    assert AllInRange(indices[..g]);
    StoreAll(vars, indices[..g], values[..g])
  }

  /** The registry after a write that set its command and stored its first `g` pairs. */
  function StoredPrefix(vars: seq<Data>, indices: seq<int>, values: seq<Value>, ack: bool, g: nat): (r: seq<Data>)
    requires WellFormed(vars) && g <= GoodPrefix(indices, values)
    ensures WellFormed(r)
  {
    StoreFirst(SetValue(vars, CommandSlot, Cmd(WriteCommand(ack))), indices, values, g)
  }

  /** The registry after a complete write: the command, then every pair in
      list order, then the CRC. */
  function AfterWrite(vars: seq<Data>, indices: seq<int>, values: seq<Value>, ack: bool): (r: seq<Data>)
    requires WellFormed(vars) && AllInRange(indices) && |indices| <= |values|
    ensures WellFormed(r)
  {
    SetValue(StoredPrefix(vars, indices, values, ack, |indices|), CrcValue, CrcSlot(WriteFormat(indices)))
  }

  /** What a write leaves in slot `k`: the CRC in `CRCValue`; else the value
      of the last pair naming `k` (the last duplicate wins); else the write
      command in `Command`; else the old value. No slot changes its tag. */
  lemma AfterWriteSlot(vars: seq<Data>, indices: seq<int>, values: seq<Value>, ack: bool, k: nat)
    requires WellFormed(vars) && AllInRange(indices) && |indices| <= |values| && k < Count
    ensures AfterWrite(vars, indices, values, ack)[k].tag == vars[k].tag
    ensures AfterWrite(vars, indices, values, ack)[k].value ==
              if k == CrcValue then CrcSlot(WriteFormat(indices))
              else match LastWrite(indices, values[..|indices|], k)
                case Some(v) => v
                case None => if k == CommandSlot then Cmd(WriteCommand(ack)) else vars[k].value
  {
    var n := |indices|;
    assert indices[..n] == indices;
    StoreAllLastWins(SetValue(vars, CommandSlot, Cmd(WriteCommand(ack))), indices, values[..n], k);
  }

  /** A write whose pairs all name other slots than `k` leaves `k` as it was,
      unless `k` is `Command` or `CRCValue`. */
  lemma AfterWriteOthers(vars: seq<Data>, indices: seq<int>, values: seq<Value>, ack: bool, k: nat)
    requires WellFormed(vars) && AllInRange(indices) && |indices| <= |values| && k < Count
    requires k != CommandSlot && k != CrcValue
    requires forall j | 0 <= j < |indices| :: indices[j] != k
    ensures AfterWrite(vars, indices, values, ack)[k] == vars[k]
  {
    var n := |indices|;
    assert indices[..n] == indices;
    StoreAllOthersUnchanged(SetValue(vars, CommandSlot, Cmd(WriteCommand(ack))), indices, values[..n], k);
  }

  /** A write of one pair stores its value in its slot, the write command
      and the CRC, and leaves every other slot as it was. */
  lemma AfterWriteOne(vars: seq<Data>, k: nat, v: Value, ack: bool)
    requires WellFormed(vars) && k < Count && k != CommandSlot && k != CrcValue
    ensures AfterWrite(vars, [k], [v], ack)[k].value == v
    ensures AfterWrite(vars, [k], [v], ack)[CommandSlot].value == Cmd(WriteCommand(ack))
    ensures forall j | 0 <= j < Count && j != k && j != CommandSlot && j != CrcValue ::
              AfterWrite(vars, [k], [v], ack)[j] == vars[j]
  {
    var w := SetValue(vars, CommandSlot, Cmd(WriteCommand(ack)));
    assert [k][..1] == [k] && [v][..1] == [v] && [k][..0] == [] && [v][..0] == [];
    assert StoreAll(w, [k], [v]) == SetValue(w, k, v);
    assert StoredPrefix(vars, [k], [v], ack, 1) == SetValue(w, k, v);
  }

  /** The loop of `setVariables` (red.java:262-265): stores the pairs in list
      order and appends "B" and the slot's tag to the format string, until a
      pair names no slot or has no value. */
  method StorePairs(vars: seq<Data>, indices: seq<int>, values: seq<Value>) returns (stored: nat, after: seq<Data>, fmt: string)
    requires WellFormed(vars)
    ensures stored == GoodPrefix(indices, values)
    ensures after == StoreFirst(vars, indices, values, stored)
    ensures stored == |indices| ==> AllInRange(indices) && fmt == WriteFormat(indices)
  {
    after := vars;
    fmt := PrefixFormat;
    stored := 0;
    while stored < |indices|
      invariant stored <= |indices| && stored <= GoodPrefix(indices, values) && stored <= |values|
      invariant AllInRange(indices[..stored])
      invariant after == StoreAll(vars, indices[..stored], values[..stored])
      invariant fmt == PrefixFormat + PairTags(indices[..stored])
    {
      if !InRange(indices[stored]) || stored >= |values| {
        break;
      }
      assert indices[..stored + 1][..stored] == indices[..stored];
      assert values[..stored + 1][..stored] == values[..stored];
      assert AllInRange(indices[..stored + 1]);
      after := SetValue(after, indices[stored], values[stored]);
      fmt := fmt + ['B', Tag(indices[stored])];
      stored := stored + 1;
    }
    assert stored == |indices| ==> indices[..stored] == indices;
  }

  /** A Java `int`, the type of the new ID. */
  predicate IsJavaInt(x: int) {
    -0x8000_0000 <= x < 0x8000_0000
  }

  /** The 32 bits of a Java `int` (two's complement). */
  function IntBits(x: int): bv32
    requires IsJavaInt(x)
  {
    (x % 0x1_0000_0000) as bv32
  }

  /** The four bytes `ByteBuffer.putInt` writes, most significant first (the
      default byte order). */
  function BigEndian(x: bv32): (r: seq<byte>)
    ensures |r| == 4
  {
    [((x >> 24) & 0xFF) as byte, ((x >> 16) & 0xFF) as byte, ((x >> 8) & 0xFF) as byte, (x & 0xFF) as byte]
  }

  /** The body `updateDriverId` checksums: its format string with bytes 1..4
      overwritten by the bits of the new ID (`structOut.putInt(1, id)`). */
  function IdBody(bits: bv32): (b: seq<byte>)
    ensures |b| == 9
    ensures b[1..5] == BigEndian(bits)
  {
    var a := Ascii(IdFormat());
    a[..1] + BigEndian(bits) + a[5..]
  }

  lemma BigEndianOfByte(b: byte)
    ensures BigEndian(b as bv32) == [0, 0, 0, b]
  {
  }

  /** For an ID below 256 the frame carries it in byte 4 and zeros in bytes 1
      and 2; byte 3, where `putInt` wrote the ID's third byte, holds the
      package size instead. */
  lemma IdFrameCarriesId(b: byte)
    ensures Frame(IdBody(b as bv32))[1] == 0 && Frame(IdBody(b as bv32))[2] == 0
    ensures Frame(IdBody(b as bv32))[4] == b
  {
    BigEndianOfByte(b);
    var body := IdBody(b as bv32);
    assert body[1] == 0 && body[2] == 0 && body[4] == b;
  }

  class Red {
    /** The registry (`vars`). */
    var vars: Registry
    /** The size of the acknowledgment the last builder expects (`__ack_size`). */
    var ackSize: nat

    /** `new Red(ID)` for an ID the constructor accepts. */
    constructor (id: int)
      requires 0 <= id <= 255
      ensures vars == Initial(id) && ackSize == 0
    {
      vars := Initial(id);
      ackSize := 0;
    }

    /** `new Red(ID)`: an ID outside 0..255 raises IllegalArgumentException
        (red.java:129-131). */
    static method Create(id: int) returns (r: Result<Red, Error>)
      ensures r.Failure? <==> !(0 <= id <= 255)
      ensures r.Failure? ==> r.error == InvalidId
      ensures r.Success? ==> fresh(r.value) && r.value.vars == Initial(id) && r.value.ackSize == 0
    {
      if id > 255 || id < 0 {
        return Failure(InvalidId);
      }
      var d := new Red(id);
      r := Success(d);
    }

    /** The value of the `DeviceID` slot. */
    function StoredId(): Value
      reads this
    {
      vars[DeviceId].value
    }

    /** `setVariables(indexList, valueList, ack)` (red.java:258-284): sets the
        command, stores the pairs in list order while building the format
        string, records the ack size, stores the CRC and returns the frame. A
        bad index or a missing value throws midway, leaving the pairs before
        it stored and no frame. */
    method SetVariables(indices: seq<int>, values: seq<Value>, ack: bool) returns (r: Result<seq<byte>, Error>)
      modifies this
      ensures r.Success? <==> AllInRange(indices) && |indices| <= |values|
      ensures r.Success? ==> && vars == AfterWrite(old(vars), indices, values, ack)
                             && ackSize == 7 + 2 * |indices|
                             && r.value == Frame(Ascii(WriteFormat(indices)))
                             && BuiltAsWritten(vars, Ascii(WriteFormat(indices))) == Failure(ClassCast)
      ensures r.Failure? ==> && r.error == IndexOutOfBounds
                             && vars == StoredPrefix(old(vars), indices, values, ack, GoodPrefix(indices, values))
                             && ackSize == old(ackSize)
    {
      vars := SetValue(vars, CommandSlot, Cmd(WriteCommand(ack)));
      var stored, after, fmt := StorePairs(vars, indices, values);
      vars := after;
      if stored < |indices| {
        return Failure(IndexOutOfBounds);
      }
      ackSize := |fmt|;
      var body := Ascii(fmt);
      var frame := Encode(body);
      vars := SetValue(vars, CrcValue, CrcOf(body));
      r := Success(frame);
    }

    /** `getVariables(indexList)` (red.java:286-311): sets the command to READ;
        an index that names no slot throws while the ack size is computed, so
        the ack size and the CRC stay as they were. Otherwise the ack size is
        the format string, the trailer and one tag per index. */
    method GetVariables(indices: seq<int>) returns (r: Result<seq<byte>, Error>)
      modifies this
      ensures r.Success? <==> AllInRange(indices)
      ensures r.Success? ==> && vars == Stamped(old(vars), Read, ReadFormat(|indices|))
                             && ackSize == 11 + 2 * |indices|
                             && r.value == Frame(Ascii(ReadFormat(|indices|)))
                             && BuiltAsWritten(vars, Ascii(ReadFormat(|indices|))) == Failure(ClassCast)
      ensures r.Failure? ==> && r.error == IndexOutOfBounds
                             && vars == SetValue(old(vars), CommandSlot, Cmd(Read))
                             && ackSize == old(ackSize)
    {
      vars := SetValue(vars, CommandSlot, Cmd(Read));
      var fmt := ReadFormat(|indices|);
      if !AllInRange(indices) {
        return Failure(IndexOutOfBounds);
      }
      var vs := vars;
      var tags := seq(|indices|, j requires 0 <= j < |indices| => vs[indices[j]].tag);
      ackSize := |fmt| + TrailerSize + |tags|;
      var body := Ascii(fmt);
      var frame := Encode(body);
      vars := SetValue(vars, CrcValue, CrcOf(body));
      r := Success(frame);
    }

    /** The common shape of the command-only builders (red.java:313-455): set
        the command, checksum the prefix, store the CRC, set the ack size. */
    method Verb(cmd: Command) returns (frame: seq<byte>)
      requires IsVerb(cmd)
      modifies this
      ensures vars == Stamped(old(vars), cmd, PrefixFormat)
      ensures ackSize == VerbAckSize(cmd)
      ensures frame == Frame(Ascii(PrefixFormat))
      ensures BuiltAsWritten(vars, Ascii(PrefixFormat)) == Failure(ClassCast)
    {
      PrefixShape();
      vars := SetValue(vars, CommandSlot, Cmd(cmd));
      var body := Ascii(PrefixFormat);
      frame := Encode(body);
      vars := SetValue(vars, CrcValue, CrcOf(body));
      ackSize := VerbAckSize(cmd);
    }

    /** `reboot()` (red.java:313-329). */
    method Reboot() returns (frame: seq<byte>)
      modifies this
      ensures vars == Stamped(old(vars), Command.Reboot, PrefixFormat) && ackSize == 0
      ensures frame == Frame(Ascii(PrefixFormat))
      ensures BuiltAsWritten(vars, Ascii(PrefixFormat)) == Failure(ClassCast)
    {
      frame := Verb(Command.Reboot);
    }

    /** `factoryReset()` (red.java:331-347). */
    method FactoryReset() returns (frame: seq<byte>)
      modifies this
      ensures vars == Stamped(old(vars), Command.HardReset, PrefixFormat) && ackSize == 0
      ensures frame == Frame(Ascii(PrefixFormat))
      ensures BuiltAsWritten(vars, Ascii(PrefixFormat)) == Failure(ClassCast)
    {
      frame := Verb(Command.HardReset);
    }

    /** `EEPROMWrite(ack)` (red.java:349-365). */
    method EepromWrite(ack: bool) returns (frame: seq<byte>)
      modifies this
      ensures vars == Stamped(old(vars), if ack then EepromWriteAck else Command.EepromWrite, PrefixFormat)
      ensures ackSize == 11
      ensures frame == Frame(Ascii(PrefixFormat))
      ensures BuiltAsWritten(vars, Ascii(PrefixFormat)) == Failure(ClassCast)
    {
      frame := Verb(if ack then EepromWriteAck else Command.EepromWrite);
    }

    /** `ping()` (red.java:367-383). */
    method Ping() returns (frame: seq<byte>)
      modifies this
      ensures vars == Stamped(old(vars), Command.Ping, PrefixFormat) && ackSize == 11
      ensures frame == Frame(Ascii(PrefixFormat))
      ensures BuiltAsWritten(vars, Ascii(PrefixFormat)) == Failure(ClassCast)
    {
      frame := Verb(Command.Ping);
    }

    /** `resetEncoder()` (red.java:385-401). */
    method ResetEncoder() returns (frame: seq<byte>)
      modifies this
      ensures vars == Stamped(old(vars), Command.ResetEnc, PrefixFormat) && ackSize == 11
      ensures frame == Frame(Ascii(PrefixFormat))
      ensures BuiltAsWritten(vars, Ascii(PrefixFormat)) == Failure(ClassCast)
    {
      frame := Verb(Command.ResetEnc);
    }

    /** `tune()` (red.java:403-419). */
    method Tune() returns (frame: seq<byte>)
      modifies this
      ensures vars == Stamped(old(vars), Command.Tune, PrefixFormat) && ackSize == 0
      ensures frame == Frame(Ascii(PrefixFormat))
      ensures BuiltAsWritten(vars, Ascii(PrefixFormat)) == Failure(ClassCast)
    {
      frame := Verb(Command.Tune);
    }

    /** `scanModules()` (red.java:421-437). */
    method ScanModules() returns (frame: seq<byte>)
      modifies this
      ensures vars == Stamped(old(vars), Command.ModuleScan, PrefixFormat) && ackSize == 11
      ensures frame == Frame(Ascii(PrefixFormat))
      ensures BuiltAsWritten(vars, Ascii(PrefixFormat)) == Failure(ClassCast)
    {
      frame := Verb(Command.ModuleScan);
    }

    /** `enterBootloader()` (red.java:439-455). */
    method EnterBootloader() returns (frame: seq<byte>)
      modifies this
      ensures vars == Stamped(old(vars), Command.BlJump, PrefixFormat) && ackSize == 0
      ensures frame == Frame(Ascii(PrefixFormat))
      ensures BuiltAsWritten(vars, Ascii(PrefixFormat)) == Failure(ClassCast)
    {
      frame := Verb(Command.BlJump);
    }

    /** `updateDriverId(id)` (red.java:457-473): a WRITE whose body carries the
        new ID over bytes 1..4 before byte 3 is patched. The `DeviceID` slot and
        the ack size are left as they were. */
    method UpdateDriverId(newId: int) returns (frame: seq<byte>)
      requires IsJavaInt(newId)
      modifies this
      ensures vars == SetValue(SetValue(old(vars), CommandSlot, Cmd(Write)), CrcValue, CrcOf(IdBody(IntBits(newId))))
      ensures ackSize == old(ackSize)
      ensures frame == Frame(IdBody(IntBits(newId)))
      ensures BuiltAsWritten(vars, IdBody(IntBits(newId))) == Failure(ClassCast)
    {
      vars := SetValue(vars, CommandSlot, Cmd(Write));
      var structOut := Ascii(IdFormat());
      structOut := structOut[..1] + BigEndian(IntBits(newId)) + structOut[5..];
      frame := Encode(structOut);
      vars := SetValue(vars, CrcValue, CrcOf(structOut));
    }
  }

  /** The acknowledgment sizes the builders record: 7 + 2n for a write of n
      pairs, (7 + n) + 4 + n for a read of n registers, 7 + 4 for EEPROM
      writes, ping, encoder reset and module scan, and 0 for reboot, factory
      reset, tuning and the bootloader jump. */
  lemma AckSizes(indices: seq<int>)
    requires AllInRange(indices)
    ensures |WriteFormat(indices)| == 7 + 2 * |indices|
    ensures |ReadFormat(|indices|)| + TrailerSize + |indices| == 11 + 2 * |indices|
    ensures VerbAckSize(EepromWrite) == VerbAckSize(EepromWriteAck) == VerbAckSize(Ping) == 11
    ensures VerbAckSize(ResetEnc) == VerbAckSize(ModuleScan) == 11
    ensures VerbAckSize(Reboot) == VerbAckSize(HardReset) == VerbAckSize(Tune) == VerbAckSize(BlJump) == 0
  {
    PrefixShape();
  }

  /** Every command-only builder sends the same bytes whatever its command:
      the body is the format string, and the command is not part of it. */
  lemma VerbFrameIndependentOfCommand(c1: Command, c2: Command, vars: seq<Data>)
    requires IsVerb(c1) && IsVerb(c2) && WellFormed(vars)
    ensures Stamped(vars, c1, PrefixFormat)[CommandSlot].value != Stamped(vars, c2, PrefixFormat)[CommandSlot].value <==> c1 != c2
    ensures |Frame(Ascii(PrefixFormat))| == 11 && Frame(Ascii(PrefixFormat))[..7] == VerbBody
  {
    PrefixShape();
    VerbBodyIsPatchedPrefix();
  }
}
