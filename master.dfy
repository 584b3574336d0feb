/** The bus master `Master` (SMD-java/red.java:476-1215): a table of 256 device
    records indexed by ID, the checks every transaction runs before it touches
    the bus, and the transactions themselves.

    The serial port is not modelled. What `__writeBus` sends is appended to
    the ghost trace `bus`, and `__readAck`, which the file calls but does not
    define, is an oracle that may answer either way on every call. */
module Transport {
  import opened Common
  import opened Crc32
  import opened Registry
  import opened Codec
  import opened Device
  import opened Discovery

  /** `_BROADCAST_ID`. */
  const BroadcastId: int := 0xFF

  /** The baud rates the master and the drivers accept: 3.053 kbit/s to
      12.5 Mbit/s (red.java:487, 616, 632). */
  predicate BaudrateOk(br: int) {
    3053 <= br <= 12500000
  }

  /** The frame every command-only builder returns. */
  function VerbFrame(): (f: seq<byte>)
    ensures |f| == 11
  {
    PrefixShape();
    Frame(Ascii(PrefixFormat))
  }

  /** The frame of a write of the given registers. */
  function WriteFrame(indices: seq<int>): (f: seq<byte>)
    requires AllInRange(indices)
    ensures |f| == 11 + 2 * |indices|
  {
    Frame(Ascii(WriteFormat(indices)))
  }

  /** The frame of a read of `n` registers. */
  function ReadFrame(n: nat): (f: seq<byte>)
    ensures |f| == 11 + n
  {
    Frame(Ascii(ReadFormat(n)))
  }

  /** `n` copies of a frame. */
  function Repeat(f: seq<byte>, n: nat): (r: seq<seq<byte>>)
    ensures |r| == n && forall j | 0 <= j < n :: r[j] == f
  {
    seq(n, _ => f)
  }

  /** One copy is the frame alone. */
  lemma RepeatOne(f: seq<byte>)
    ensures Repeat(f, 1) == [f]
  {
  }

  /** One more copy extends the trace by one frame. */
  lemma RepeatSnoc(prefix: seq<seq<byte>>, f: seq<byte>, n: nat)
    ensures prefix + Repeat(f, n) + [f] == prefix + Repeat(f, n + 1)
  {
    assert Repeat(f, n) + [f] == Repeat(f, n + 1);
  }

  /** The frames of the first `n` mask writes of `setConnectedModules`. */
  function ManualFrames(n: nat): (fs: seq<seq<byte>>)
    requires n <= 10
    ensures |fs| == n
  {
    seq(n, MaskFrame)
  }

  /** The frame of mask write `i`, a one-pair write of `SetManual*` register `i`. */
  function MaskFrame(i: int): seq<byte> {
    if 0 <= i < 10 then WriteFrame([ManualRegister(i)]) else []
  }

  /** A sequence built by `seq(n + 1, f)` is the one built by `seq(n, f)` and one element more. */
  lemma SeqSnoc<T>(f: int -> T, n: nat)
    ensures seq(n + 1, f) == seq(n, f) + [f(n)]
  {
    var gs, fs := seq(n + 1, f), seq(n, f) + [f(n)];
    assert forall j | 0 <= j < n :: gs[j] == f(j) == fs[j];
    assert gs[n] == f(n) == fs[n];
  }

  /** The frame of the write of scan mode 1. */
  function ScanModeFrame(): seq<byte> {
    assert AllInRange([SetScanModuleMode]) by { assert [SetScanModuleMode][0] == SetScanModuleMode; }
    WriteFrame([SetScanModuleMode])
  }

  /** One mask frame more at the end of a trace. */
  lemma ManualFramesSnoc(prefix: seq<seq<byte>>, n: nat)
    requires n < 10
    ensures prefix + ManualFrames(n) + [WriteFrame([ManualRegister(n)])] == prefix + ManualFrames(n + 1)
  {
    SeqSnoc(MaskFrame, n);
    SnocAssoc(prefix, ManualFrames(n), MaskFrame(n));
  }

  /** Appending one frame after a concatenation. */
  lemma SnocThree<T>(s: seq<T>, x: T, y: T, z: T)
    ensures s + [x] + [y] + [z] == s + [x, y, z]
  {
  }

  lemma SnocAssoc<T>(a: seq<T>, b: seq<T>, x: T)
    ensures a + b + [x] == a + (b + [x])
  {
  }

  /** The registry after the first `n` mask writes of `setConnectedModules`,
      each a one-pair write without acknowledgement. */
  function Masked(vars: Registry, masks: seq<bv8>, n: nat): (r: Registry)
    requires |masks| == 10 && n <= 10
  {
    if n == 0 then vars
    else
      var k := ManualRegister(n - 1);
      assert AllInRange([k]) by { assert [k][0] == k; }
      AfterWrite(Masked(vars, masks, n - 1), [k], [ManualValue(masks, n - 1)], false)
  }

  /** After `n` mask writes, the first `n` mask registers hold their masks,
      the command is WRITE, and every slot but those, the command and the CRC
      is as it was. */
  lemma MaskedSlots(vars: Registry, masks: seq<bv8>, n: nat)
    requires |masks| == 10 && n <= 10
    ensures forall i | 0 <= i < n :: Masked(vars, masks, n)[ManualRegister(i)].value == ManualValue(masks, i)
    ensures n > 0 ==> Masked(vars, masks, n)[CommandSlot].value == Cmd(Write)
    ensures forall k | 0 <= k < Count && !(SetManualBuzzer <= k < SetManualBuzzer + n) && k != CommandSlot && k != CrcValue ::
              Masked(vars, masks, n)[k] == vars[k]
  {
    MaskedStores(vars, masks, n);
    MaskedKeeps(vars, masks, n);
    if n > 0 {
      AfterWriteOne(Masked(vars, masks, n - 1), ManualRegister(n - 1), ManualValue(masks, n - 1), false);
    }
  }

  /** The first `n` mask registers hold their masks after `n` mask writes. */
  lemma {:induction false} MaskedStores(vars: Registry, masks: seq<bv8>, n: nat)
    requires |masks| == 10 && n <= 10
    ensures forall i | 0 <= i < n :: Masked(vars, masks, n)[ManualRegister(i)].value == ManualValue(masks, i)
  {
    if n > 0 {
      var before, last := Masked(vars, masks, n - 1), ManualRegister(n - 1);
      var after := AfterWrite(before, [last], [ManualValue(masks, n - 1)], false);
      assert Masked(vars, masks, n) == after;
      MaskedStores(vars, masks, n - 1);
      AfterWriteOne(before, last, ManualValue(masks, n - 1), false);
      forall i | 0 <= i < n
        ensures after[ManualRegister(i)].value == ManualValue(masks, i)
      {
        if i < n - 1 {
          assert ManualRegister(i) != last;
        }
      }
    }
  }

  /** The mask writes touch only the mask registers, the command and the CRC. */
  lemma {:induction false} MaskedKeeps(vars: Registry, masks: seq<bv8>, n: nat)
    requires |masks| == 10 && n <= 10
    ensures forall k | 0 <= k < Count && !(SetManualBuzzer <= k < SetManualBuzzer + n) && k != CommandSlot && k != CrcValue ::
              Masked(vars, masks, n)[k] == vars[k]
  {
    if n > 0 {
      MaskedKeeps(vars, masks, n - 1);
      AfterWriteOne(Masked(vars, masks, n - 1), ManualRegister(n - 1), ManualValue(masks, n - 1), false);
    }
  }

  /** The registry `setConnectedModules` leaves behind: scan mode 1, the ten
      masks, and the command and CRC of the scan frame. */
  function ConfiguredRegistry(vars: Registry, masks: seq<bv8>): (r: Registry)
    requires |masks| == 10
  {
    assert AllInRange([SetScanModuleMode]) by { assert [SetScanModuleMode][0] == SetScanModuleMode; }
    MaskedAndScanned(AfterWrite(vars, [SetScanModuleMode], [Int(1)], false), masks)
  }

  /** The registry after the ten mask writes and the scan frame. */
  function MaskedAndScanned(vars: Registry, masks: seq<bv8>): (r: Registry)
    requires |masks| == 10
  {
    Scanned(Masked(vars, masks, |masks|))
  }

  /** A read after the scan frame overwrites both slots the scan frame set. */
  lemma ScannedThenRead(vars: Registry, n: nat)
    ensures Stamped(Scanned(vars), Read, ReadFormat(n)) == Stamped(vars, Read, ReadFormat(n))
  {
    PrefixShape();
    StampedTwice(vars, ModuleScan, PrefixFormat, Read, ReadFormat(n));
  }

  /** The registry after `scanModules()` of the record: the scan command and
      the CRC of the prefix. */
  function Scanned(vars: Registry): (r: Registry)
  {
    PrefixShape();
    Stamped(vars, ModuleScan, PrefixFormat)
  }

  /** What slot holds what after `setConnectedModules`. */
  predicate Configured(before: Registry, after: Registry, masks: seq<bv8>)
    requires |masks| == 10
  {
    PrefixShape();
    && after[SetScanModuleMode].value == Int(1)
    && (forall i | 0 <= i < 10 :: after[ManualRegister(i)].value == ManualValue(masks, i))
    && after[CommandSlot].value == Cmd(ModuleScan)
    && after[CrcValue].value == CrcSlot(PrefixFormat)
    && forall k | 0 <= k < Count && !(SetScanModuleMode <= k < SetManualBuzzer + 10) && k != CommandSlot && k != CrcValue ::
         after[k] == before[k]
  }

  /** The registry `setConnectedModules` leaves behind holds scan mode 1 and
      the masks, and nothing else of the old registry but the command and CRC
      has changed. */
  lemma ConfiguredSlots(vars: Registry, masks: seq<bv8>)
    requires |masks| == 10
    ensures Configured(vars, ConfiguredRegistry(vars, masks), masks)
  {
    AfterWriteOne(vars, SetScanModuleMode, Int(1), false);
    var moded := AfterWrite(vars, [SetScanModuleMode], [Int(1)], false);
    MaskedSlots(moded, masks, |masks|);
    var masked := Masked(moded, masks, |masks|);
    ConfiguredFrom(vars, moded, masked, Scanned(masked), masks);
  }

  /** The three steps of `setConnectedModules`, slot by slot. */
  lemma ConfiguredFrom(before: Registry, moded: Registry, masked: Registry, after: Registry, masks: seq<bv8>)
    requires |masks| == 10
    requires moded[SetScanModuleMode].value == Int(1)
    requires forall j | 0 <= j < Count && j != SetScanModuleMode && j != CommandSlot && j != CrcValue :: moded[j] == before[j]
    requires forall i | 0 <= i < 10 :: masked[ManualRegister(i)].value == ManualValue(masks, i)
    requires forall k | 0 <= k < Count && !(SetManualBuzzer <= k < SetManualBuzzer + 10) && k != CommandSlot && k != CrcValue :: masked[k] == moded[k]
    requires after[CommandSlot].value == Cmd(ModuleScan) && after[CrcValue].value == CrcSlot(PrefixFormat)
    requires forall k | 0 <= k < Count && k != CommandSlot && k != CrcValue :: after[k] == masked[k]
    ensures Configured(before, after, masks)
  {
    assert after[SetScanModuleMode] == masked[SetScanModuleMode];
    forall i | 0 <= i < 10
      ensures after[ManualRegister(i)].value == ManualValue(masks, i)
    {
      assert after[ManualRegister(i)] == masked[ManualRegister(i)];
    }
  }

  /** The registers of a list of (index, value) pairs, in list order. */
  function Indices(pairs: seq<(int, Value)>): (r: seq<int>)
    ensures |r| == |pairs|
  {
    seq(|pairs|, j requires 0 <= j < |pairs| => pairs[j].0)
  }

  /** The values of a list of (index, value) pairs, in list order. */
  function Values(pairs: seq<(int, Value)>): (r: seq<Value>)
    ensures |r| == |pairs|
  {
    seq(|pairs|, j requires 0 <= j < |pairs| => pairs[j].1)
  }

  /** The loop of `setVariables` that splits the pairs into an index list
      and a value list (red.java:667-671). */
  method Unzip(pairs: seq<(int, Value)>) returns (indices: seq<int>, values: seq<Value>)
    ensures indices == Indices(pairs) && values == Values(pairs)
  {
    indices, values := [], [];
    for j := 0 to |pairs|
      invariant indices == Indices(pairs[..j]) && values == Values(pairs[..j])
    {
      indices := indices + [pairs[j].0];
      values := values + [pairs[j].1];
    }
    assert pairs[..|pairs|] == pairs;
  }

  /** One more pair adds its register and its value at the end. */
  lemma PairsSnoc(pairs: seq<(int, Value)>, p: (int, Value))
    ensures Indices(pairs + [p]) == Indices(pairs) + [p.0]
    ensures Values(pairs + [p]) == Values(pairs) + [p.1]
  {
    assert forall j | 0 <= j < |pairs| :: (pairs + [p])[j] == pairs[j];
  }

  /** The last pair of a list names `k` or leaves the search to the rest. */
  lemma LastWriteSnoc(indices: seq<int>, values: seq<Value>, i: int, v: Value, k: int)
    requires |indices| == |values|
    ensures LastWrite(indices + [i], values + [v], k) == if i == k then Some(v) else LastWrite(indices, values, k)
  {
    assert (indices + [i])[..|indices|] == indices && (values + [v])[..|values|] == values;
  }

  /** No pair names a register missing from the index list. */
  lemma {:induction false} LastWriteAbsent(indices: seq<int>, values: seq<Value>, k: int)
    requires |indices| == |values| && k !in indices
    ensures LastWrite(indices, values, k) == None
    decreases |indices|
  {
    if |indices| > 0 {
      var n := |indices| - 1;
      assert k !in indices[..n] by {
        assert forall j | 0 <= j < n :: indices[..n][j] == indices[j];
      }
      LastWriteAbsent(indices[..n], values[..n], k);
    }
  }

  /** The pairs of the parameters that are not null name only the
      parameters' registers. */
  lemma {:induction false} PresentIndices(indices: seq<nat>, vals: seq<Option<bv32>>)
    requires |indices| == |vals|
    ensures forall m | 0 <= m < |Present(indices, vals)| :: Indices(Present(indices, vals))[m] in indices
    decreases |indices|
  {
    if |indices| > 0 {
      var n := |indices| - 1;
      var rest := Present(indices[..n], vals[..n]);
      PresentIndices(indices[..n], vals[..n]);
      assert forall m | 0 <= m < |rest| :: Indices(rest)[m] in indices by {
        assert forall x | x in indices[..n] :: x in indices;
      }
      if vals[n].Some? {
        PairsSnoc(rest, (indices[n], Float(vals[n].value)));
      }
    }
  }

  /** With distinct registers, the register of parameter `j` is last written
      with its gain when the parameter is not null, and not written at all
      when it is. */
  lemma {:induction false} PresentLastWrite(indices: seq<nat>, vals: seq<Option<bv32>>, j: nat)
    requires |indices| == |vals| && j < |indices|
    requires forall a, b | 0 <= a < b < |indices| :: indices[a] != indices[b]
    ensures LastWrite(Indices(Present(indices, vals)), Values(Present(indices, vals)), indices[j]) ==
              if vals[j].Some? then Some(Float(vals[j].value)) else None
    decreases |indices|
  {
    var n := |indices| - 1;
    var rest := Present(indices[..n], vals[..n]);
    if vals[n].Some? {
      PairsSnoc(rest, (indices[n], Float(vals[n].value)));
      LastWriteSnoc(Indices(rest), Values(rest), indices[n], Float(vals[n].value), indices[j]);
    }
    if j < n {
      assert indices[..n][j] == indices[j] && vals[..n][j] == vals[j];
      PresentLastWrite(indices[..n], vals[..n], j);
    } else if vals[n].None? {
      PresentIndices(indices[..n], vals[..n]);
      assert indices[n] !in Indices(rest) by {
        assert forall x | x in indices[..n] :: x != indices[n];
      }
      LastWriteAbsent(Indices(rest), Values(rest), indices[n]);
    }
  }

  /** The pairs `setControlParameters*` writes for a loop; their registers
      are all in range. */
  function ControlWrite(l: Loop, vals: seq<Option<bv32>>): (pairs: seq<(int, Value)>)
    requires |vals| == 6
    ensures AllInRange(Indices(pairs))
  {
    PresentIndices(ControlIndices(l), vals);
    Present(ControlIndices(l), vals)
  }

  /** The six gain registers of a loop are distinct. */
  lemma ControlIndicesDistinct(l: Loop)
    ensures forall a, b | 0 <= a < b < 6 :: ControlIndices(l)[a] != ControlIndices(l)[b]
  {
  }

  /** No gain is null: what `List.of(p, i, d, db, ff, ol)` demands
      (red.java:1041, 1060, 1079). */
  predicate AllGiven(vals: seq<Option<bv32>>) {
    forall j | 0 <= j < |vals| :: vals[j].Some?
  }

  /** The gains as the values a write stores. */
  function Gains(vals: seq<Option<bv32>>): (g: seq<Value>)
    requires AllGiven(vals)
    ensures |g| == |vals|
  {
    seq(|vals|, j requires 0 <= j < |vals| => Float(vals[j].value))
  }

  /** With no gain null, the filter loop passes every parameter: the write
      names the six registers of the loop in order, with the six gains. */
  lemma ControlWriteAllGiven(l: Loop, vals: seq<Option<bv32>>)
    requires |vals| == 6 && AllGiven(vals)
    ensures Indices(ControlWrite(l, vals)) == ControlIndices(l)
    ensures Values(ControlWrite(l, vals)) == Gains(vals)
  {
    PresentExtremes(ControlIndices(l), vals);
  }

  /** After the write of `setControlParameters*`, the register of each gain
      holds it, and every slot other than the six, the command and the CRC is
      as it was. */
  lemma ControlGainsStored(vars: Registry, l: Loop, vals: seq<Option<bv32>>)
    requires |vals| == 6 && AllGiven(vals)
    ensures forall j | 0 <= j < 6 ::
              AfterWrite(vars, ControlIndices(l), Gains(vals), false)[ControlIndices(l)[j]].value == Float(vals[j].value)
    ensures forall k | 0 <= k < Count && k !in ControlIndices(l) && k != CommandSlot && k != CrcValue ::
              AfterWrite(vars, ControlIndices(l), Gains(vals), false)[k] == vars[k]
  {
    ControlWriteAllGiven(l, vals);
    forall j | 0 <= j < 6 {
      ControlGainSlot(vars, l, vals, j);
    }
    forall k | 0 <= k < Count && k !in ControlIndices(l) && k != CommandSlot && k != CrcValue {
      ControlOtherSlot(vars, l, vals, k);
    }
  }

  /** The register of gain `j` after the write of the pairs the filter passes. */
  lemma ControlGainSlot(vars: Registry, l: Loop, vals: seq<Option<bv32>>, j: nat)
    requires |vals| == 6 && j < 6
    ensures AfterWrite(vars, Indices(ControlWrite(l, vals)), Values(ControlWrite(l, vals)), false)[ControlIndices(l)[j]].value ==
              if vals[j].Some? then Float(vals[j].value) else vars[ControlIndices(l)[j]].value
  {
    var pairs := ControlWrite(l, vals);
    var indices, values, k := Indices(pairs), Values(pairs), ControlIndices(l)[j];
    ControlIndicesDistinct(l);
    PresentLastWrite(ControlIndices(l), vals, j);
    assert values[..|indices|] == values;
    assert LastWrite(indices, values[..|indices|], k) == if vals[j].Some? then Some(Float(vals[j].value)) else None;
    AfterWriteSlot(vars, indices, values, false, k);
  }

  /** A slot outside the six gain registers, the command and the CRC after
      the write. */
  lemma ControlOtherSlot(vars: Registry, l: Loop, vals: seq<Option<bv32>>, k: nat)
    requires |vals| == 6 && k < Count && k !in ControlIndices(l) && k != CommandSlot && k != CrcValue
    ensures AfterWrite(vars, Indices(ControlWrite(l, vals)), Values(ControlWrite(l, vals)), false)[k] == vars[k]
  {
    var pairs := ControlWrite(l, vals);
    PresentIndices(ControlIndices(l), vals);
    AfterWriteOthers(vars, Indices(pairs), Values(pairs), false, k);
  }

  /** `__readAck(id)`: not part of the file, so any answer is possible. */
  method ReadAck() returns (ok: bool)
  {
    ok :| true;
  }

  class Master {
    /** `__driver_list`: slot `k` holds the record of the driver with ID `k`,
        or the `Red(255)` placeholder. */
    var drivers: seq<Red>
    /** `__baudrate`, fixed by the constructor. */
    const baudrate: int
    /** The rate the serial port runs at; `updateMasterBaudrate` changes it. */
    var portBaudrate: int
    /** Every frame written to the bus, oldest first. */
    ghost var bus: seq<seq<byte>>

    ghost predicate Valid()
      reads this
    {
      |drivers| == 256
    }

    /** The record a transaction on `id` uses, if `id` names a slot. */
    function Target(id: int): set<Red>
      reads this
    {
      if 0 <= id < |drivers| then {drivers[id]} else {}
    }

    /** The `DeviceID` value stored in slot `id`. */
    function StoredAt(id: int): Value
      reads this, drivers
      requires Valid() && 0 <= id < 256
    {
      drivers[id].StoredId()
    }

    /** The checks of `setVariables`, in order (red.java:655-665): an ID
        outside 0..255, then a slot whose record has another ID, then an empty
        pair list. */
    function WriteCheck(id: int, n: nat): (r: Outcome)
      reads this, drivers
      requires Valid()
      ensures r == Failure(InvalidId) <==> !(0 <= id <= 255)
      ensures r == Failure(NotAttached) <==> 0 <= id <= 255 && StoredAt(id) != Int(id)
      ensures r == Failure(EmptyList) <==> 0 <= id <= 255 && StoredAt(id) == Int(id) && n == 0
      ensures r.Success? <==> 0 <= id <= 255 && StoredAt(id) == Int(id) && n > 0
    {
      if id < 0 || id > 255 then Failure(InvalidId)
      else if StoredAt(id) != Int(id) then Failure(NotAttached)
      else if n == 0 then Failure(EmptyList)
      else Success(())
    }

    /** The checks of `getVariables`, in order (red.java:689-703): as for a
        write, except that the broadcast ID 255 is refused as invalid (the
        second check, against `_BROADCAST_ID`, can never fire). */
    function ReadCheck(id: int, n: nat): (r: Outcome)
      reads this, drivers
      requires Valid()
      ensures r == Failure(InvalidId) <==> !(0 <= id <= 254)
      ensures r == Failure(NotAttached) <==> 0 <= id <= 254 && StoredAt(id) != Int(id)
      ensures r == Failure(EmptyList) <==> 0 <= id <= 254 && StoredAt(id) == Int(id) && n == 0
      ensures r.Success? <==> 0 <= id <= 254 && StoredAt(id) == Int(id) && n > 0
    {
      if id < 0 || id > 254 then Failure(InvalidId)
      else if id == BroadcastId then Failure(InvalidId)
      else if StoredAt(id) != Int(id) then Failure(NotAttached)
      else if n == 0 then Failure(EmptyList)
      else Success(())
    }

    /** `new Master(portname, baudrate)` for a rate the constructor accepts:
        256 fresh placeholder records `Red(255)` and an empty bus. */
    constructor (baudrate: int)
      requires BaudrateOk(baudrate)
      ensures Valid() && bus == []
      ensures this.baudrate == baudrate && portBaudrate == baudrate
      ensures forall k | 0 <= k < 256 :: fresh(drivers[k]) && drivers[k].vars == Initial(255)
      ensures forall j, k | 0 <= j < k < 256 :: drivers[j] != drivers[k]
    {
      var list: seq<Red> := [];
      for i := 0 to 256
        invariant |list| == i
        invariant forall k | 0 <= k < i :: fresh(list[k]) && list[k].vars == Initial(255)
        invariant forall j, k | 0 <= j < k < i :: list[j] != list[k]
      {
        var placeholder := new Red(255);
        list := list + [placeholder];
      }
      drivers := list;
      this.baudrate := baudrate;
      portBaudrate := baudrate;
      bus := [];
    }

    /** `new Master(portname, baudrate)`: a rate outside the accepted range
        raises IllegalArgumentException before anything is set up
        (red.java:486-489). */
    static method Create(baudrate: int) returns (r: Result<Master, Error>)
      ensures r.Failure? <==> !BaudrateOk(baudrate)
      ensures r.Failure? ==> r.error == InvalidArgument
      ensures r.Success? ==> && fresh(r.value) && r.value.Valid() && r.value.bus == []
                             && r.value.baudrate == baudrate
                             && forall k | 0 <= k < 256 :: r.value.StoredAt(k) == Int(255)
    {
      if baudrate > 12500000 || baudrate < 3053 {
        return Failure(InvalidArgument);
      }
      var m := new Master(baudrate);
      return Success(m);
    }

    /** `attach(driver)` (red.java:643-645): puts the record in the slot its
        `DeviceID` value names. The value must be an integer naming a slot. */
    method Attach(driver: Red) returns (r: Outcome)
      requires Valid()
      modifies this
      ensures Valid() && bus == old(bus)
      ensures r.Success? <==> driver.StoredId().Int? && 0 <= driver.StoredId().i < 256
      ensures r.Success? ==> drivers == old(drivers)[driver.StoredId().i := driver]
      ensures r.Failure? ==> drivers == old(drivers)
      ensures driver.StoredId().Int? && !(0 <= driver.StoredId().i < 256) ==> r == Failure(IndexOutOfBounds)
      ensures driver.StoredId().Absent? ==> r == Failure(NullValue)
      ensures !driver.StoredId().Int? && !driver.StoredId().Absent? ==> r == Failure(ClassCast)
    {
      match driver.vars[DeviceId].value
      case Int(k) =>
        if k < 0 || k >= 256 {
          return Failure(IndexOutOfBounds);
        }
        drivers := drivers[k := driver];
        return Success(());
      case Absent =>
        return Failure(NullValue);
      case _ =>
        return Failure(ClassCast);
    }

    /** `detach(id)` (red.java:647-652): puts a fresh placeholder in slot
        `id`; afterwards no transaction on `id` passes the attachment check,
        unless `id` is 255. */
    method Detach(id: int) returns (r: Outcome)
      requires Valid()
      modifies this
      ensures Valid() && bus == old(bus)
      ensures r.Failure? <==> !(0 <= id <= 255)
      ensures r.Failure? ==> r.error == InvalidId && drivers == old(drivers)
      ensures r.Success? ==> && drivers == old(drivers)[id := drivers[id]]
                             && fresh(drivers[id]) && drivers[id].vars == Initial(255)
      ensures r.Success? && id != 255 ==> forall n: nat :: WriteCheck(id, n) == Failure(NotAttached)
      ensures r.Success? && id != 255 ==> forall n: nat :: ReadCheck(id, n) == Failure(NotAttached)
      ensures r.Success? && id == 255 ==> StoredAt(id) == Int(id)
    {
      if id < 0 || id > 255 {
        return Failure(InvalidId);
      }
      var placeholder := new Red(255);
      drivers := drivers[id := placeholder];
      return Success(());
    }

    /** `setVariables(id, idxValPairs, ack)` (red.java:654-686). After the
        checks, the record builds the frame (a bad index throws there, with
        the pairs before it stored and nothing sent), the frame is sent, and
        with `ack` and a positive acknowledgment the new values of the
        written slots are returned in list order; otherwise null. */
    method SetVariables(id: int, pairs: seq<(int, Value)>, ack: bool) returns (r: Result<Option<seq<Value>>, Error>)
      requires Valid()
      modifies this, Target(id)
      ensures Valid() && drivers == old(drivers)
      ensures old(WriteCheck(id, |pairs|)).Failure? ==>
                && r == Failure(old(WriteCheck(id, |pairs|)).error)
                && bus == old(bus) && unchanged(Target(id))
      ensures old(WriteCheck(id, |pairs|)).Success? && !AllInRange(Indices(pairs)) ==>
                && r == Failure(IndexOutOfBounds) && bus == old(bus)
                && drivers[id].vars == StoredPrefix(old(drivers[id].vars), Indices(pairs), Values(pairs), ack,
                                                    GoodPrefix(Indices(pairs), Values(pairs)))
      ensures old(WriteCheck(id, |pairs|)).Success? && AllInRange(Indices(pairs)) ==>
                && r.Success?
                && bus == old(bus) + [WriteFrame(Indices(pairs))]
                && drivers[id].vars == AfterWrite(old(drivers[id].vars), Indices(pairs), Values(pairs), ack)
                && drivers[id].ackSize == 7 + 2 * |pairs|
                && (r.value.Some? ==> ack && r.value.value == ValuesAt(drivers[id].vars, Indices(pairs)))
      ensures r.Success? && !ack ==> r.value.None?
    {
      if id < 0 || id > 255 {
        return Failure(InvalidId);
      }
      if drivers[id].vars[DeviceId].value != Int(id) {
        return Failure(NotAttached);
      }
      if |pairs| == 0 {
        return Failure(EmptyList);
      }
      var indices, values := Unzip(pairs);
      var driver := drivers[id];
      var frame := driver.SetVariables(indices, values, ack);
      if frame.Failure? {
        return Failure(frame.error);
      }
      Send(frame.value);
      r := Success(None);
      if ack {
        var ok := ReadAck();
        if ok {
          var vs := driver.vars;
          r := Success(Some(ValuesAt(vs, indices)));
        }
      }
    }

    /** `port.writeBytes`: the frame goes on the bus. */
    method Send(frame: seq<byte>)
      modifies this
      ensures bus == old(bus) + [frame]
      ensures drivers == old(drivers) && portBaudrate == old(portBaudrate)
    {
      bus := bus + [frame];
    }

    /** `getVariables(id, indexList)` (red.java:688-715): after the checks
        the record builds the read frame (an index naming no slot throws
        there, before anything is sent), the frame is sent, and on a positive
        acknowledgment the values of the slots are returned in request
        order; otherwise null. */
    method GetVariables(id: int, indices: seq<int>) returns (r: Result<Option<seq<Value>>, Error>)
      requires Valid()
      modifies this, Target(id)
      ensures Valid() && drivers == old(drivers)
      ensures old(ReadCheck(id, |indices|)).Failure? ==>
                && r == Failure(old(ReadCheck(id, |indices|)).error)
                && bus == old(bus) && unchanged(Target(id))
      ensures old(ReadCheck(id, |indices|)).Success? && !AllInRange(indices) ==>
                && r == Failure(IndexOutOfBounds) && bus == old(bus)
                && drivers[id].vars == SetValue(old(drivers[id].vars), CommandSlot, Cmd(Read))
      ensures old(ReadCheck(id, |indices|)).Success? && AllInRange(indices) ==>
                && r.Success?
                && bus == old(bus) + [ReadFrame(|indices|)]
                && drivers[id].vars == Stamped(old(drivers[id].vars), Read, ReadFormat(|indices|))
                && drivers[id].ackSize == 11 + 2 * |indices|
                && (r.value.Some? ==> r.value.value == ValuesAt(drivers[id].vars, indices))
    {
      if id < 0 || id > 254 {
        return Failure(InvalidId);
      }
      if id == BroadcastId {
        return Failure(InvalidId);
      }
      if drivers[id].vars[DeviceId].value != Int(id) {
        return Failure(NotAttached);
      }
      if |indices| == 0 {
        return Failure(EmptyList);
      }
      var driver := drivers[id];
      var frame := driver.GetVariables(indices);
      if frame.Failure? {
        r := Failure(frame.error);
      } else {
        Send(frame.value);
        r := Success(None);
        var ok := ReadAck();
        if ok {
          var vs := driver.vars;
          assert |vs| == Count && AllInRange(indices);
          r := Success(Some(ValuesAt(vs, indices)));
        }
      }
    }

    /** `reboot(id)` (red.java:717-720): no check but the slot lookup, which
        throws for an ID outside 0..255. */
    method Reboot(id: int) returns (r: Outcome)
      requires Valid()
      modifies this, Target(id)
      ensures Valid() && drivers == old(drivers)
      ensures r.Failure? <==> !(0 <= id <= 255)
      ensures r.Failure? ==> r.error == IndexOutOfBounds && bus == old(bus)
      ensures r.Success? ==> && bus == old(bus) + [VerbFrame()]
                             && drivers[id].vars == Stamped(old(drivers[id].vars), Command.Reboot, PrefixFormat)
                             && drivers[id].ackSize == 0
    {
      if id < 0 || id > 255 {
        return Failure(IndexOutOfBounds);
      }
      var frame := drivers[id].Reboot();
      Send(frame);
      return Success(());
    }

    /** `factoryReset(id)` (red.java:722-725). */
    method FactoryReset(id: int) returns (r: Outcome)
      requires Valid()
      modifies this, Target(id)
      ensures Valid() && drivers == old(drivers)
      ensures r.Failure? <==> !(0 <= id <= 255)
      ensures r.Failure? ==> r.error == IndexOutOfBounds && bus == old(bus)
      ensures r.Success? ==> && bus == old(bus) + [VerbFrame()]
                             && drivers[id].vars == Stamped(old(drivers[id].vars), HardReset, PrefixFormat)
                             && drivers[id].ackSize == 0
    {
      if id < 0 || id > 255 {
        return Failure(IndexOutOfBounds);
      }
      var frame := drivers[id].FactoryReset();
      Send(frame);
      return Success(());
    }

    /** `eepromWrite(id, ack)` (red.java:727-736): the frame is sent in every
        case; with `ack`, a negative acknowledgment then raises an exception. */
    method EepromWrite(id: int, ack: bool) returns (r: Outcome)
      requires Valid()
      modifies this, Target(id)
      ensures Valid() && drivers == old(drivers)
      ensures !(0 <= id <= 255) ==> r == Failure(IndexOutOfBounds) && bus == old(bus)
      ensures 0 <= id <= 255 ==>
                && bus == old(bus) + [VerbFrame()]
                && drivers[id].vars == Stamped(old(drivers[id].vars), if ack then EepromWriteAck else Command.EepromWrite, PrefixFormat)
                && drivers[id].ackSize == 11
                && (r.Failure? ==> ack && r.error == EepromAckFailed)
      ensures 0 <= id <= 255 && !ack ==> r.Success?
    {
      if id < 0 || id > 255 {
        return Failure(IndexOutOfBounds);
      }
      var frame := drivers[id].EepromWrite(ack);
      Send(frame);
      if ack {
        var ok := ReadAck();
        if !ok {
          return Failure(EepromAckFailed);
        }
      }
      return Success(());
    }

    /** `ping(id)` (red.java:738-742): the answer is the acknowledgment. */
    method Ping(id: int) returns (r: Result<bool, Error>)
      requires Valid()
      modifies this, Target(id)
      ensures Valid() && drivers == old(drivers)
      ensures r.Failure? <==> !(0 <= id <= 255)
      ensures r.Failure? ==> r.error == IndexOutOfBounds && bus == old(bus)
      ensures r.Success? ==> && bus == old(bus) + [VerbFrame()]
                             && drivers[id].vars == Stamped(old(drivers[id].vars), Command.Ping, PrefixFormat)
                             && drivers[id].ackSize == 11
    {
      if id < 0 || id > 255 {
        return Failure(IndexOutOfBounds);
      }
      var frame := drivers[id].Ping();
      Send(frame);
      var ok := ReadAck();
      return Success(ok);
    }

    /** `resetEncoder(id)` (red.java:744-747). */
    method ResetEncoder(id: int) returns (r: Outcome)
      requires Valid()
      modifies this, Target(id)
      ensures Valid() && drivers == old(drivers)
      ensures r.Failure? <==> !(0 <= id <= 255)
      ensures r.Failure? ==> r.error == IndexOutOfBounds && bus == old(bus)
      ensures r.Success? ==> && bus == old(bus) + [VerbFrame()]
                             && drivers[id].vars == Stamped(old(drivers[id].vars), ResetEnc, PrefixFormat)
                             && drivers[id].ackSize == 11
    {
      if id < 0 || id > 255 {
        return Failure(IndexOutOfBounds);
      }
      var frame := drivers[id].ResetEncoder();
      Send(frame);
      return Success(());
    }

    /** `pidTuner(id)` (red.java:904-907). */
    method PidTuner(id: int) returns (r: Outcome)
      requires Valid()
      modifies this, Target(id)
      ensures Valid() && drivers == old(drivers)
      ensures r.Failure? <==> !(0 <= id <= 255)
      ensures r.Failure? ==> r.error == IndexOutOfBounds && bus == old(bus)
      ensures r.Success? ==> && bus == old(bus) + [VerbFrame()]
                             && drivers[id].vars == Stamped(old(drivers[id].vars), Command.Tune, PrefixFormat)
                             && drivers[id].ackSize == 0
    {
      if id < 0 || id > 255 {
        return Failure(IndexOutOfBounds);
      }
      var frame := drivers[id].Tune();
      Send(frame);
      return Success(());
    }

    /** `enterBootloader(id)` (red.java:865-868). */
    method EnterBootloader(id: int) returns (r: Outcome)
      requires Valid()
      modifies this, Target(id)
      ensures Valid() && drivers == old(drivers)
      ensures r.Failure? <==> !(0 <= id <= 255)
      ensures r.Failure? ==> r.error == IndexOutOfBounds && bus == old(bus)
      ensures r.Success? ==> && bus == old(bus) + [VerbFrame()]
                             && drivers[id].vars == Stamped(old(drivers[id].vars), BlJump, PrefixFormat)
                             && drivers[id].ackSize == 0
    {
      if id < 0 || id > 255 {
        return Failure(IndexOutOfBounds);
      }
      var frame := drivers[id].EnterBootloader();
      Send(frame);
      return Success(());
    }

    /** `setVariables(id, List.of(new Object[]{k, v}), false)`, the one-pair
        write the configuration calls make: after the checks, slot `k` holds
        `v`, the command is WRITE and only the CRC changes besides. */
    method WriteSlot(id: int, k: nat, v: Value) returns (r: Outcome)
      requires Valid() && k < Count && k != CommandSlot && k != CrcValue
      modifies this, Target(id)
      ensures Valid() && drivers == old(drivers)
      ensures r.Failure? <==> old(WriteCheck(id, 1)).Failure?
      ensures r.Failure? ==> r.error == old(WriteCheck(id, 1)).error && bus == old(bus) && unchanged(Target(id))
      ensures r.Success? ==>
                && bus == old(bus) + [WriteFrame([k])]
                && drivers[id].vars == AfterWrite(old(drivers[id].vars), [k], [v], false)
                && drivers[id].ackSize == 9
                && drivers[id].vars[k].value == v
                && drivers[id].vars[CommandSlot].value == Cmd(Write)
                && forall j | 0 <= j < Count && j != k && j != CommandSlot && j != CrcValue ::
                     drivers[id].vars[j] == old(drivers[id].vars[j])
    {
      var pairs: seq<(int, Value)> := [(k, v)];
      assert Indices(pairs) == [k] && Values(pairs) == [v];
      var written := SetVariables(id, pairs, false);
      if written.Failure? {
        return Failure(written.error);
      }
      AfterWriteOne(old(drivers[id].vars), k, v, false);
      return Success(());
    }

    /** `updateDriverId(id, id_new)` (red.java:883-897): both IDs must lie in
        0..254. The record in slot `id` sends the ID frame, the record in slot
        `id_new` an EEPROM write and the record in slot `id` a reboot. Neither
        ID has to be attached, and no record's `DeviceID` value changes. */
    method UpdateDriverId(id: int, newId: int) returns (r: Outcome)
      requires Valid()
      modifies this, Target(id), Target(newId)
      ensures Valid() && drivers == old(drivers)
      ensures r.Success? <==> 0 <= id <= 254 && 0 <= newId <= 254
      ensures !(0 <= id <= 254) ==> r == Failure(InvalidId)
      ensures 0 <= id <= 254 && !(0 <= newId <= 254) ==> r == Failure(InvalidArgument)
      ensures r.Failure? ==> bus == old(bus) && unchanged(Target(id)) && unchanged(Target(newId))
      ensures r.Success? ==> IdChanged(id, newId)
    {
      if id < 0 || id > 254 {
        return Failure(InvalidId);
      }
      if newId < 0 || newId > 254 {
        return Failure(InvalidArgument);
      }
      ChangeId(id, newId);
      r := Success(());
    }

    /** What the three frames of `updateDriverId` did: the ID frame, an EEPROM
        write and a reboot went on the bus; the record in slot `id` ends with
        the reboot's command and CRC and no ack expected, the record in slot
        `newId`, when it is another record, with the EEPROM write's command and
        CRC and an 11-byte ack expected, and no other slot of either record,
        `DeviceID` included, changes. */
    twostate predicate IdChanged(id: int, newId: int)
      reads this, drivers
      requires old(Valid()) && Valid() && drivers == old(drivers) && 0 <= id <= 254 && 0 <= newId <= 254
    {
      && bus == old(bus) + [Frame(IdBody(IntBits(newId))), VerbFrame(), VerbFrame()]
      && Restamped(id, Command.Reboot, 0)
      && (drivers[newId] != drivers[id] ==> Restamped(newId, Command.EepromWrite, 11))
    }

    /** The record in slot `id` holds its old registry with the command `cmd`
        and the CRC of the command-only frame, and expects an ack of `ack` bytes. */
    twostate predicate Restamped(id: int, cmd: Command, ack: nat)
      reads this, drivers
      requires old(Valid()) && Valid() && drivers == old(drivers) && 0 <= id <= 255
    {
      PrefixFits();
      && drivers[id].vars == Stamped(old(drivers[id].vars), cmd, PrefixFormat)
      && drivers[id].ackSize == ack
    }

    /** The three frames of `updateDriverId` once both IDs are in range. */
    method ChangeId(id: int, newId: int)
      requires Valid() && 0 <= id <= 254 && 0 <= newId <= 254
      modifies this, Target(id), Target(newId)
      ensures Valid() && drivers == old(drivers)
      ensures IdChanged(id, newId)
    {
      if drivers[newId] == drivers[id] {
        ChangeSharedId(id, newId);
      } else {
        ChangeOtherId(id, newId);
      }
    }

    /** `updateDriverId` when slots `id` and `newId` hold the same record:
        its last stamp is the reboot's. */
    method ChangeSharedId(id: int, newId: int)
      requires Valid() && 0 <= id <= 254 && 0 <= newId <= 254 && drivers[newId] == drivers[id]
      modifies this, Target(id)
      ensures Valid() && drivers == old(drivers)
      ensures bus == old(bus) + [Frame(IdBody(IntBits(newId))), VerbFrame(), VerbFrame()]
      ensures Restamped(id, Command.Reboot, 0)
    {
      PrefixFits();
      ghost var before, b := drivers[id].vars, bus;
      ghost var f, v := Frame(IdBody(IntBits(newId))), VerbFrame();
      SendIdFrame(id, newId);
      var saved := EepromWrite(newId, false);
      var rebooted := Reboot(id);
      SnocThree(b, f, v, v);
      RestampedKeepsLast(before, Cmd(Write), CrcOf(IdBody(IntBits(newId))), Command.EepromWrite, PrefixFormat);
      StampedTwice(before, Command.EepromWrite, PrefixFormat, Command.Reboot, PrefixFormat);
    }

    /** `updateDriverId` when slots `id` and `newId` hold different records. */
    method ChangeOtherId(id: int, newId: int)
      requires Valid() && 0 <= id <= 254 && 0 <= newId <= 254 && drivers[newId] != drivers[id]
      modifies this, Target(id), Target(newId)
      ensures Valid() && drivers == old(drivers)
      ensures bus == old(bus) + [Frame(IdBody(IntBits(newId))), VerbFrame(), VerbFrame()]
      ensures Restamped(id, Command.Reboot, 0) && Restamped(newId, Command.EepromWrite, 11)
    {
      PrefixFits();
      ghost var before, b := drivers[id].vars, bus;
      ghost var f, v := Frame(IdBody(IntBits(newId))), VerbFrame();
      SendIdFrame(id, newId);
      var saved := EepromWrite(newId, false);
      var rebooted := Reboot(id);
      RestampedKeepsLast(before, Cmd(Write), CrcOf(IdBody(IntBits(newId))), Command.Reboot, PrefixFormat);
      SnocThree(b, f, v, v);
    }

    /** `__writeBus(__driver_list.get(id).updateDriverId(id_new))`: the record
        in slot `id` stores the write command and the CRC of the ID frame, and
        the ID frame goes out. */
    method SendIdFrame(id: int, newId: int)
      requires Valid() && 0 <= id <= 254 && 0 <= newId <= 254
      modifies this, Target(id)
      ensures Valid() && drivers == old(drivers)
      ensures bus == old(bus) + [Frame(IdBody(IntBits(newId)))]
      ensures drivers[id].vars == SetValue(SetValue(old(drivers[id].vars), CommandSlot, Cmd(Write)), CrcValue, CrcOf(IdBody(IntBits(newId))))
    {
      var frame := drivers[id].UpdateDriverId(newId);
      Send(frame);
    }

    /** `updateDriverBaudrate(id, br)` (red.java:615-625): a rate outside the
        accepted range is refused first; then the rate is written to the
        `Baudrate` slot, saved to EEPROM and the driver rebooted. */
    method UpdateDriverBaudrate(id: int, br: int) returns (r: Outcome)
      requires Valid()
      modifies this, Target(id)
      ensures Valid() && drivers == old(drivers)
      ensures r.Success? <==> BaudrateOk(br) && old(WriteCheck(id, 1)).Success?
      ensures !BaudrateOk(br) ==> r == Failure(InvalidArgument)
      ensures BaudrateOk(br) && old(WriteCheck(id, 1)).Failure? ==> r == Failure(old(WriteCheck(id, 1)).error)
      ensures r.Failure? ==> bus == old(bus) && unchanged(Target(id))
      ensures r.Success? ==>
                && bus == old(bus) + [WriteFrame([Baudrate]), VerbFrame(), VerbFrame()]
                && drivers[id].vars[Baudrate].value == Int(br)
                && drivers[id].vars[CommandSlot].value == Cmd(Command.Reboot)
                && drivers[id].ackSize == 0
                && Rebauded(id, br)
                && forall j | 0 <= j < Count && j != Baudrate && j != CommandSlot && j != CrcValue ::
                     drivers[id].vars[j] == old(drivers[id].vars[j])
    {
      if br < 3053 || br > 12500000 {
        return Failure(InvalidArgument);
      }
      var written := WriteSlot(id, Baudrate, Int(br));
      if written.Failure? {
        return Failure(written.error);
      }
      SaveAndReboot(id);
      return Success(());
    }

    /** The record `id` after a successful `updateDriverBaudrate(id, br)`: the
        one-pair write of the rate, restamped by the EEPROM write and then by
        the reboot, which expects no answer. */
    twostate predicate Rebauded(id: int, br: int)
      reads this, drivers
      requires old(Valid()) && Valid() && drivers == old(drivers) && 0 <= id <= 255
    {
      PrefixFits();
      && drivers[id].vars == Stamped(AfterWrite(old(drivers[id].vars), [Baudrate], [Int(br)], false), Command.Reboot, PrefixFormat)
      && drivers[id].ackSize == 0
    }

    /** `eepromWrite(id)` then `reboot(id)` on an ID in 0..255: two command
        frames, and the record keeps every slot but the command and the CRC. */
    method SaveAndReboot(id: int)
      requires Valid() && 0 <= id <= 255
      modifies this, Target(id)
      ensures Valid() && drivers == old(drivers)
      ensures bus == old(bus) + [VerbFrame(), VerbFrame()]
      ensures Restamped(id, Command.Reboot, 0)
      ensures drivers[id].vars[CommandSlot].value == Cmd(Command.Reboot)
      ensures forall j | 0 <= j < Count && j != CommandSlot && j != CrcValue ::
                drivers[id].vars[j] == old(drivers[id].vars[j])
    {
      var saved := EepromWrite(id, false);
      var rebooted := Reboot(id);
    }

    /** `getVariables(id, List.of(k))`, the one-register read of the
        accessors: after the checks the read frame is sent and, when the
        device answers, the value returned is the one slot `k` holds. */
    method ReadSlot(id: int, k: nat) returns (r: Result<Option<Value>, Error>)
      requires Valid() && k < Count && k != CommandSlot && k != CrcValue
      modifies this, Target(id)
      ensures Valid() && drivers == old(drivers)
      ensures r.Failure? <==> old(ReadCheck(id, 1)).Failure?
      ensures r.Failure? ==> r.error == old(ReadCheck(id, 1)).error && bus == old(bus) && unchanged(Target(id))
      ensures r.Success? ==>
                && bus == old(bus) + [ReadFrame(1)]
                && drivers[id].vars == Stamped(old(drivers[id].vars), Read, ReadFormat(1))
                && drivers[id].ackSize == 13
                && (r.value.Some? ==> r.value.value == old(drivers[id].vars[k].value))
    {
      var values := GetVariables(id, [k]);
      if values.Failure? {
        return Failure(values.error);
      }
      if values.value.None? {
        return Success(None);
      }
      ghost var vs := drivers[id].vars;
      assert values.value.value == ValuesAt(vs, [k]);
      assert vs[k] == old(drivers[id].vars[k]);
      return Success(Some(values.value.value[0]));
    }

    /** What a one-register read did to the record `id`: the READ command and
        the CRC of the read format are stamped, every other slot is kept, and
        the answer of 7 + 1 + 4 + 1 bytes is expected. */
    twostate predicate ReadStamped(id: int)
      reads this, drivers
      requires old(Valid()) && Valid() && drivers == old(drivers) && 0 <= id <= 255
    {
      && drivers[id].vars == Stamped(old(drivers[id].vars), Read, ReadFormat(1))
      && drivers[id].ackSize == 13
    }

    /** `getDriverBaudrate(id)` (red.java:627-629): the first value of a read
        of `Baudrate`; an unacknowledged read returns null, which cannot be
        unboxed. */
    method GetDriverBaudrate(id: int) returns (r: Result<int, Error>)
      requires Valid()
      modifies this, Target(id)
      ensures Valid() && drivers == old(drivers)
      ensures old(ReadCheck(id, 1)).Failure? ==>
                r == Failure(old(ReadCheck(id, 1)).error) && bus == old(bus) && unchanged(Target(id))
      ensures old(ReadCheck(id, 1)).Success? ==>
                && bus == old(bus) + [ReadFrame(1)]
                && ReadStamped(id)
                && (r == Failure(NullValue) || r == AsInt(old(drivers[id].vars[Baudrate].value)))
    {
      var value := ReadSlot(id, Baudrate);
      if value.Failure? {
        return Failure(value.error);
      }
      if value.value.None? {
        return Failure(NullValue);
      }
      return AsInt(value.value.value);
    }

    /** `updateMasterBaudrate(br)` (red.java:631-641): a rate outside the
        accepted range is refused; otherwise the port runs at the new rate. */
    method UpdateMasterBaudrate(br: int) returns (r: Outcome)
      modifies this
      ensures r.Success? <==> BaudrateOk(br)
      ensures r.Failure? ==> r.error == InvalidArgument && portBaudrate == old(portBaudrate)
      ensures r.Success? ==> portBaudrate == br
      ensures drivers == old(drivers) && bus == old(bus)
    {
      if br < 3053 || br > 12500000 {
        return Failure(InvalidArgument);
      }
      portBaudrate := br;
      return Success(());
    }

    // -------------------------------------------------------------------
    // The module accessors (red.java:1096-1214)

    /** The categories whose accessor casts the value to `int`. */
    static predicate IntCategory(c: Category) {
      c == Button || c == Light || c == Distance || c == Pot
    }

    /** The categories whose accessor casts the value to a list. */
    static predicate ListCategory(c: Category) {
      c == Joystick || c == Imu
    }

    /** `getButton`, `getLight`, `getDistance` and `getPotentiometer`
        (red.java:1096-1114, 1139-1147, 1180-1188): a module ID outside 1..5
        is refused before anything is sent; then the module's register is
        read, an unanswered read gives 0 and an answered one the value the
        register holds, unboxed. */
    method GetIntModule(id: int, c: Category, moduleId: int) returns (r: Result<int, Error>)
      requires Valid() && IntCategory(c)
      modifies this, Target(id)
      ensures Valid() && drivers == old(drivers)
      ensures ModuleIndex(c, moduleId).Failure? ==>
                r == Failure(InvalidIndex) && bus == old(bus) && unchanged(Target(id))
      ensures ModuleIndex(c, moduleId).Success? && old(ReadCheck(id, 1)).Failure? ==>
                r == Failure(old(ReadCheck(id, 1)).error) && bus == old(bus) && unchanged(Target(id))
      ensures ModuleIndex(c, moduleId).Success? && old(ReadCheck(id, 1)).Success? ==>
                && bus == old(bus) + [ReadFrame(1)]
                && ReadStamped(id)
                && (r == Success(0) || r == AsInt(old(drivers[id].vars[ModuleIndex(c, moduleId).value].value)))
    {
      var index := ModuleIndex(c, moduleId);
      if index.Failure? {
        return Failure(InvalidIndex);
      }
      var ret := ReadSlot(id, index.value);
      if ret.Failure? {
        return Failure(ret.error);
      }
      if ret.value.None? {
        return Success(0);
      }
      return AsInt(ret.value.value);
    }

    /** `getJoystick` and `getImu` (red.java:1129-1137, 1205-1214): as the
        integer accessors, but an unanswered read gives null and the value is
        cast to a list. */
    method GetListModule(id: int, c: Category, moduleId: int) returns (r: Result<Option<seq<Value>>, Error>)
      requires Valid() && ListCategory(c)
      modifies this, Target(id)
      ensures Valid() && drivers == old(drivers)
      ensures ModuleIndex(c, moduleId).Failure? ==>
                r == Failure(InvalidIndex) && bus == old(bus) && unchanged(Target(id))
      ensures ModuleIndex(c, moduleId).Success? && old(ReadCheck(id, 1)).Failure? ==>
                r == Failure(old(ReadCheck(id, 1)).error) && bus == old(bus) && unchanged(Target(id))
      ensures ModuleIndex(c, moduleId).Success? && old(ReadCheck(id, 1)).Success? ==>
                && bus == old(bus) + [ReadFrame(1)]
                && ReadStamped(id)
                && (r == Success(None) || r == AsList(old(drivers[id].vars[ModuleIndex(c, moduleId).value].value)))
    {
      var index := ModuleIndex(c, moduleId);
      if index.Failure? {
        return Failure(InvalidIndex);
      }
      var ret := ReadSlot(id, index.value);
      if ret.Failure? {
        return Failure(ret.error);
      }
      if ret.value.None? {
        return Success(None);
      }
      return AsList(ret.value.value);
    }

    /** `getQtr(id, moduleId)` (red.java:1149-1164): the three sensor bits of
        the register's value; null when the read is not answered. */
    method GetQtr(id: int, moduleId: int) returns (r: Result<Option<seq<bool>>, Error>)
      requires Valid()
      modifies this, Target(id)
      ensures Valid() && drivers == old(drivers)
      ensures ModuleIndex(Qtr, moduleId).Failure? ==>
                r == Failure(InvalidIndex) && bus == old(bus) && unchanged(Target(id))
      ensures ModuleIndex(Qtr, moduleId).Success? && old(ReadCheck(id, 1)).Failure? ==>
                r == Failure(old(ReadCheck(id, 1)).error) && bus == old(bus) && unchanged(Target(id))
      ensures ModuleIndex(Qtr, moduleId).Success? && old(ReadCheck(id, 1)).Success? ==>
                && bus == old(bus) + [ReadFrame(1)]
                && ReadStamped(id)
                && (r == Success(None) ||
                    r == Success(Some(QtrBits(old(drivers[id].vars[ModuleIndex(Qtr, moduleId).value].value)))))
    {
      var index := ModuleIndex(Qtr, moduleId);
      if index.Failure? {
        return Failure(InvalidIndex);
      }
      var data := ReadSlot(id, index.value);
      if data.Failure? {
        return Failure(data.error);
      }
      if data.value.None? {
        return Success(None);
      }
      return Success(Some(QtrBits(data.value.value)));
    }

    /** What a one-pair write of `v` to slot `k` of the record `id` did: it
        failed exactly when the checks of `setVariables` did, changing
        nothing; otherwise the write frame went on the bus, slot `k` holds
        `v` and only the command and the CRC changed besides. */
    twostate predicate WroteSlot(id: int, k: nat, v: Value, new r: Outcome)
      reads this, drivers
      requires old(Valid()) && Valid() && drivers == old(drivers) && k < Count
    {
      && (r.Failure? <==> old(WriteCheck(id, 1)).Failure?)
      && (r.Failure? ==> r.error == old(WriteCheck(id, 1)).error && bus == old(bus) && unchanged(Target(id)))
      && (r.Success? ==>
            && bus == old(bus) + [WriteFrame([k])]
            && drivers[id].vars == AfterWrite(old(drivers[id].vars), [k], [v], false)
            && drivers[id].ackSize == 9
            && drivers[id].vars[k].value == v
            && drivers[id].vars[CommandSlot].value == Cmd(Write)
            && forall j | 0 <= j < Count && j != k && j != CommandSlot && j != CrcValue ::
                 drivers[id].vars[j] == old(drivers[id].vars[j]))
    }

    /** `setBuzzer(id, moduleId, noteFrequency)` (red.java:1116-1127): a
        negative frequency, then a module ID outside 1..5, is refused before
        anything is sent; then the frequency is written to the module's
        register. */
    method SetBuzzer(id: int, moduleId: int, frequency: int) returns (r: Outcome)
      requires Valid()
      modifies this, Target(id)
      ensures Valid() && drivers == old(drivers)
      ensures frequency < 0 || ModuleIndex(Buzzer, moduleId).Failure? ==>
                r == Failure(InvalidIndex) && bus == old(bus) && unchanged(Target(id))
      ensures frequency >= 0 && ModuleIndex(Buzzer, moduleId).Success? ==>
                WroteSlot(id, ModuleIndex(Buzzer, moduleId).value, Int(frequency), r)
    {
      if frequency < 0 {
        return Failure(InvalidIndex);
      }
      var index := ModuleIndex(Buzzer, moduleId);
      if index.Failure? {
        return Failure(InvalidIndex);
      }
      r := WriteSlot(id, index.value, Int(frequency));
    }

    /** `setServo(id, moduleId, val)` (red.java:1166-1178): a value outside
        0..255, then a module ID outside 1..5, is refused before anything is
        sent; then the value is written to the module's register. */
    method SetServo(id: int, moduleId: int, val: int) returns (r: Outcome)
      requires Valid()
      modifies this, Target(id)
      ensures Valid() && drivers == old(drivers)
      ensures !(0 <= val <= 255) ==> r == Failure(InvalidArgument) && bus == old(bus) && unchanged(Target(id))
      ensures 0 <= val <= 255 && ModuleIndex(Servo, moduleId).Failure? ==>
                r == Failure(InvalidIndex) && bus == old(bus) && unchanged(Target(id))
      ensures 0 <= val <= 255 && ModuleIndex(Servo, moduleId).Success? ==>
                WroteSlot(id, ModuleIndex(Servo, moduleId).value, Int(val), r)
    {
      if val < 0 || val > 255 {
        return Failure(InvalidArgument);
      }
      var index := ModuleIndex(Servo, moduleId);
      if index.Failure? {
        return Failure(InvalidIndex);
      }
      r := WriteSlot(id, index.value, Int(val));
    }

    /** `setRgb(id, moduleId, red, green, blue)` (red.java:1190-1204): a
        channel outside 0..255, then a module ID outside 1..5, is refused
        before anything is sent; then the packed colour word is written to
        the module's register. */
    method SetRgb(id: int, moduleId: int, red: int, green: int, blue: int) returns (r: Outcome)
      requires Valid()
      modifies this, Target(id)
      ensures Valid() && drivers == old(drivers)
      ensures !(0 <= red <= 255 && 0 <= green <= 255 && 0 <= blue <= 255) ==>
                r == Failure(InvalidArgument) && bus == old(bus) && unchanged(Target(id))
      ensures 0 <= red <= 255 && 0 <= green <= 255 && 0 <= blue <= 255 && ModuleIndex(Rgb, moduleId).Failure? ==>
                r == Failure(InvalidIndex) && bus == old(bus) && unchanged(Target(id))
      ensures 0 <= red <= 255 && 0 <= green <= 255 && 0 <= blue <= 255 && ModuleIndex(Rgb, moduleId).Success? ==>
                WroteSlot(id, ModuleIndex(Rgb, moduleId).value, Int(PackRgb(red, green, blue)), r)
    {
      if red < 0 || red > 255 || green < 0 || green > 255 || blue < 0 || blue > 255 {
        return Failure(InvalidArgument);
      }
      var colorRgb := PackRgb(red, green, blue);
      var index := ModuleIndex(Rgb, moduleId);
      if index.Failure? {
        return Failure(InvalidIndex);
      }
      r := WriteSlot(id, index.value, Int(colorRgb));
    }

    // -------------------------------------------------------------------
    // Module discovery (red.java:749-863)

    /** `scanModules(id)` (red.java:749-786): the record sends the scan frame,
        then the connected bitfield is read up to ten times until a read is
        answered. The answered list holds one value, so `values.get(1)`
        throws; an ID without an attached record fails on the first read
        with the scan frame already sent; ten unanswered reads leave the
        field 0, which reports no modules. The decode that follows is never
        reached; `DecodeModules` models it on the field itself. */
    method ScanModules(id: int) returns (r: Result<Option<seq<string>>, Error>, ghost polls: nat)
      requires Valid()
      modifies this, Target(id)
      ensures Valid() && drivers == old(drivers)
      ensures r.Success? ==> r.value.None?
      ensures !(0 <= id <= 255) ==> r == Failure(IndexOutOfBounds) && bus == old(bus) && unchanged(Target(id))
      ensures 0 <= id <= 255 && old(ReadCheck(id, 1)).Failure? ==>
                && r == Failure(old(ReadCheck(id, 1)).error)
                && bus == old(bus) + [VerbFrame()]
                && drivers[id].vars == Scanned(old(drivers[id].vars))
      ensures 0 <= id <= 255 && old(ReadCheck(id, 1)).Success? ==>
                && drivers[id].vars == Stamped(old(drivers[id].vars), Read, ReadFormat(1))
                && 1 <= polls <= 10 && bus == old(bus) + [VerbFrame()] + Repeat(ReadFrame(1), polls)
                && (r.Success? ==> polls == 10)
                && (r.Failure? ==> r.error == IndexOutOfBounds)
    {
      if id < 0 || id > 255 {
        return Failure(IndexOutOfBounds), 0;
      }
      SendScan(id);
      assert StoredAt(id) == old(StoredAt(id));
      assert AllInRange([ConnectedBitfield]) by { assert [ConnectedBitfield][0] == ConnectedBitfield; }
      r, polls := PollBitfield(id, [ConnectedBitfield]);
      if old(ReadCheck(id, 1)).Success? {
        ScannedThenRead(old(drivers[id].vars), 1);
      }
    }

    /** The polling loop of `scanModules` (red.java:766-773), from the state
        the scan frame left: up to ten reads of the registers `reg` (the
        connected bitfield alone), the first answered one ending in the throw
        of `values.get(1)`. */
    method PollBitfield(id: int, reg: seq<int>) returns (r: Result<Option<seq<string>>, Error>, ghost polls: nat)
      requires Valid() && 0 <= id <= 255 && AllInRange(reg)
      modifies this, Target(id)
      ensures Valid() && drivers == old(drivers)
      ensures r.Success? ==> r.value.None?
      ensures old(ReadCheck(id, |reg|)).Failure? ==>
                r == Failure(old(ReadCheck(id, |reg|)).error) && bus == old(bus) && unchanged(Target(id))
      ensures old(ReadCheck(id, |reg|)).Success? ==>
                && drivers[id].vars == Stamped(old(drivers[id].vars), Read, ReadFormat(|reg|))
                && 1 <= polls <= 10 && bus == old(bus) + Repeat(ReadFrame(|reg|), polls)
                && (r.Success? ==> polls == 10)
                && (r.Failure? ==> r.error == IndexOutOfBounds)
    {
      ghost var f := ReadFrame(|reg|);
      // The first pass of the loop: the checks of the read either fail here,
      // with nothing changed, or pass on every later pass too.
      var values := ReadRegisters(id, reg);
      if values.Failure? {
        return Failure(values.error), 0;
      }
      RepeatOne(f);
      if values.value.Some? {
        // `((long) values.get(1) << 32) | values.get(0)` on a one-element list
        return Failure(IndexOutOfBounds), 1;
      }
      ghost var start := old(drivers[id].vars);
      r, polls := PollRemaining(id, reg, start, old(bus));
    }

    /** Passes two to ten of the polling loop, after a first read that passed
        its checks and was not answered: the checks pass on every later read,
        so the loop ends at the first answered read, in the throw of
        `values.get(1)`, or after the tenth. */
    method PollRemaining(id: int, reg: seq<int>, ghost start: seq<Data>, ghost base: seq<seq<byte>>)
        returns (r: Result<Option<seq<string>>, Error>, ghost polls: nat)
      requires Valid() && 0 <= id <= 255 && AllInRange(reg)
      requires ReadCheck(id, |reg|).Success? && WellFormed(start)
      requires drivers[id].vars == Stamped(start, Read, ReadFormat(|reg|))
      requires bus == base + Repeat(ReadFrame(|reg|), 1)
      modifies this, Target(id)
      ensures Valid() && drivers == old(drivers)
      ensures drivers[id].vars == old(drivers[id].vars)
      ensures 1 <= polls <= 10 && bus == base + Repeat(ReadFrame(|reg|), polls)
      ensures r.Success? ==> r.value.None? && polls == 10
      ensures r.Failure? ==> r.error == IndexOutOfBounds
    {
      var i := 1;
      while i < 10
        invariant 1 <= i <= 10
        invariant Valid() && drivers == old(drivers)
        invariant ReadCheck(id, |reg|).Success?
        invariant bus == base + Repeat(ReadFrame(|reg|), i)
        invariant drivers[id].vars == old(drivers[id].vars)
      {
        var answered := PollAgain(id, reg, start, base, i);
        if answered {
          return Failure(IndexOutOfBounds), i + 1;
        }
        i := i + 1;
      }
      return Success(None), 10;
    }

    /** One later pass of the polling loop, the `i`-th read after the scan
        frame: it passes its checks, sends one more read frame, leaves the
        record as the first read left it, and tells whether it was
        answered. */
    method PollAgain(id: int, reg: seq<int>, ghost start: seq<Data>, ghost base: seq<seq<byte>>, i: nat)
        returns (answered: bool)
      requires Valid() && 0 <= id <= 255 && AllInRange(reg)
      requires ReadCheck(id, |reg|).Success? && WellFormed(start)
      requires drivers[id].vars == Stamped(start, Read, ReadFormat(|reg|))
      requires bus == base + Repeat(ReadFrame(|reg|), i)
      modifies this, Target(id)
      ensures Valid() && drivers == old(drivers)
      ensures ReadCheck(id, |reg|).Success?
      ensures drivers[id].vars == old(drivers[id].vars)
      ensures bus == base + Repeat(ReadFrame(|reg|), i + 1)
    {
      ghost var f := ReadFrame(|reg|);
      var values := ReadRegisters(id, reg);
      StampedTwice(start, Read, ReadFormat(|reg|), Read, ReadFormat(|reg|));
      assert bus == old(bus) + [f];
      RepeatSnoc(base, f, i);
      answered := values.value.Some?;
    }

    /** One pass of the polling loop: `getVariables(id, reg)` with `reg`
        in range, which either fails its checks with nothing changed or sends
        the read frame and leaves the stored ID as it was. */
    method ReadRegisters(id: int, reg: seq<int>) returns (r: Result<Option<seq<Value>>, Error>)
      requires Valid() && 0 <= id <= 255 && AllInRange(reg)
      modifies this, Target(id)
      ensures Valid() && drivers == old(drivers) && StoredAt(id) == old(StoredAt(id))
      ensures old(ReadCheck(id, |reg|)).Failure? ==>
                r == Failure(old(ReadCheck(id, |reg|)).error) && bus == old(bus) && unchanged(Target(id))
      ensures old(ReadCheck(id, |reg|)).Success? ==>
                && r.Success?
                && bus == old(bus) + [ReadFrame(|reg|)]
                && drivers[id].vars == Stamped(old(drivers[id].vars), Read, ReadFormat(|reg|))
    {
      r := GetVariables(id, reg);
    }

    /** `setControlParametersPosition`, `...Velocity` and `...Torque(id, p, i,
        d, db, ff, ol)` (red.java:1039-1090): `List.of` refuses a null element,
        so any null gain throws NullPointerException before anything is sent.
        Otherwise the filter loop passes all six gains, given by their IEEE-754
        bits, which are written in parameter order without acknowledgement,
        with the checks of `setVariables`. */
    method SetControlParameters(id: int, l: Loop, vals: seq<Option<bv32>>) returns (r: Outcome)
      requires Valid() && |vals| == 6
      modifies this, Target(id)
      ensures Valid() && drivers == old(drivers)
      ensures !AllGiven(vals) ==> r == Failure(NullValue) && bus == old(bus) && unchanged(Target(id))
      ensures AllGiven(vals) && old(WriteCheck(id, 6)).Failure? ==>
                r == Failure(old(WriteCheck(id, 6)).error) && bus == old(bus) && unchanged(Target(id))
      ensures AllGiven(vals) && old(WriteCheck(id, 6)).Success? ==>
                && r.Success?
                && bus == old(bus) + [WriteFrame(ControlIndices(l))]
                && drivers[id].vars == AfterWrite(old(drivers[id].vars), ControlIndices(l), Gains(vals), false)
    {
      if !AllGiven(vals) {
        // `List.of(p, i, d, db, ff, ol)` throws on the null element
        return Failure(NullValue);
      }
      var pairs := ControlPairs(ControlIndices(l), vals);
      PresentExtremes(ControlIndices(l), vals);
      ControlWriteAllGiven(l, vals);
      var written := SetVariables(id, pairs, false);
      if written.Failure? {
        return Failure(written.error);
      }
      return Success(());
    }

    /** `setConnectedModules(id, modules)` (red.java:788-863): the names,
        without repeats, are turned into the ten masks, any bad name failing
        before anything is sent; then the masks are configured. */
    method SetConnectedModules(id: int, modules: seq<string>) returns (r: Outcome)
      requires Valid()
      modifies this, Target(id)
      ensures Valid() && drivers == old(drivers)
      ensures MasksOf(Distinct(modules)).Failure? ==>
                r == Failure(InvalidModule) && bus == old(bus) && unchanged(Target(id))
      ensures MasksOf(Distinct(modules)).Success? ==> ConfiguredWith(id, MasksOf(Distinct(modules)).value, r)
    {
      var masks := ManualMasks(Distinct(modules));
      if masks.Failure? {
        // the `catch` wraps every failure of the loop in one exception
        return Failure(InvalidModule);
      }
      r := Configure(id, masks.value);
    }

    /** What configuring the record `id` with `masks` did: when the checks of
        `setVariables` fail, their error and no change; otherwise the
        scan-mode write, the ten mask writes and the scan frame went on the
        bus, and the record is configured with the masks. */
    twostate predicate ConfiguredWith(id: int, masks: seq<bv8>, new r: Outcome)
      reads this, drivers
      requires old(Valid()) && Valid() && drivers == old(drivers) && |masks| == 10
    {
      && (old(WriteCheck(id, 1)).Failure? ==>
            r == Failure(old(WriteCheck(id, 1)).error) && bus == old(bus) && unchanged(Target(id)))
      && (old(WriteCheck(id, 1)).Success? ==>
            && r.Success?
            && bus == old(bus) + [ScanModeFrame()] + ManualFrames(|masks|) + [VerbFrame()]
            && drivers[id].vars == ConfiguredRegistry(old(drivers[id].vars), masks))
    }

    /** The writes of `setConnectedModules` once the masks are known
        (red.java:848-862): scan mode 1, whose write carries the checks of the
        ID, the ten masks, then the scan frame. */
    method Configure(id: int, masks: seq<bv8>) returns (r: Outcome)
      requires Valid() && |masks| == 10
      modifies this, Target(id)
      ensures Valid() && drivers == old(drivers)
      ensures ConfiguredWith(id, masks, r)
    {
      r := WriteSlot(id, SetScanModuleMode, Int(1));
      if r.Failure? {
        return;
      }
      assert StoredAt(id) == old(StoredAt(id));
      WriteMasksAndScan(id, masks);
    }

    /** The ten mask writes and the scan frame (red.java:850-862). */
    method WriteMasksAndScan(id: int, masks: seq<bv8>)
      requires Valid() && 0 <= id <= 255 && |masks| == 10 && WriteCheck(id, 1).Success?
      modifies this, Target(id)
      ensures Valid() && drivers == old(drivers)
      ensures bus == old(bus) + ManualFrames(|masks|) + [VerbFrame()]
      ensures drivers[id].vars == MaskedAndScanned(old(drivers[id].vars), masks)
    {
      WriteMasks(id, masks);
      SendScan(id);
    }

    /** `__writeBus(__driver_list.get(id).scanModules())`: the record stores
        the scan command and its CRC, and the scan frame goes out. */
    method SendScan(id: int)
      requires Valid() && 0 <= id <= 255
      modifies this, Target(id)
      ensures Valid() && drivers == old(drivers)
      ensures bus == old(bus) + [VerbFrame()]
      ensures drivers[id].vars == Scanned(old(drivers[id].vars))
    {
      var frame := drivers[id].ScanModules();
      PrefixShape();
      Send(frame);
    }

    /** The ten mask writes of `setConnectedModules` (red.java:850-859),
        made in the order of its calls to a record whose checks pass; the
        loop stands for the ten calls written out one after another. */
    method WriteMasks(id: int, masks: seq<bv8>)
      requires Valid() && 0 <= id <= 255 && |masks| == 10 && WriteCheck(id, 1).Success?
      modifies this, Target(id)
      ensures Valid() && drivers == old(drivers)
      ensures bus == old(bus) + ManualFrames(|masks|)
      ensures drivers[id].vars == Masked(old(drivers[id].vars), masks, |masks|)
    {
      ghost var start := drivers[id].vars;
      ghost var base := bus;
      var i := 0;
      while i < 10
        invariant 0 <= i <= 10
        invariant Valid() && drivers == old(drivers)
        invariant WriteCheck(id, 1).Success?
        invariant bus == base + ManualFrames(i)
        invariant drivers[id].vars == Masked(start, masks, i)
      {
        WriteMask(id, masks, i, start, base);
        i := i + 1;
      }
    }

    /** The `i`-th mask write: its frame extends the trace and the record
        stores the mask, with the checks still passing. */
    method WriteMask(id: int, masks: seq<bv8>, i: nat, ghost start: Registry, ghost base: seq<seq<byte>>)
      requires Valid() && 0 <= id <= 255 && |masks| == 10 && i < 10 && WriteCheck(id, 1).Success?
      requires bus == base + ManualFrames(i)
      requires drivers[id].vars == Masked(start, masks, i)
      modifies this, Target(id)
      ensures Valid() && drivers == old(drivers)
      ensures WriteCheck(id, 1).Success?
      ensures bus == base + ManualFrames(i + 1)
      ensures drivers[id].vars == Masked(start, masks, i + 1)
    {
      var written := WriteSlot(id, ManualRegister(i), ManualValue(masks, i));
      ManualFramesSnoc(base, i);
      assert StoredAt(id) == old(StoredAt(id));
    }
  }
}
