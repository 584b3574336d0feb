/** The register registry: the `Index` enum, the typed slot of each register
    (class `Data`), the size of each type tag and the 116-slot table every
    device record starts with (SMD-java/red.java:47-251). */
module Registry {
  import opened Common

  /** Number of registers: the ordinals of `Index` are 0 .. Count - 1. */
  const Count: nat := 116

  // Ordinals of the registers the core refers to by name.
  const Header: nat := 0
  const DeviceId: nat := 1
  const DeviceFamily: nat := 2
  const PackageSize: nat := 3
  const CommandSlot: nat := 4
  const Status: nat := 5
  const Baudrate: nat := 8
  const OperationMode: nat := 9
  const TorqueEnable: nat := 10
  const SetScanModuleMode: nat := 49
  const SetManualBuzzer: nat := 50
  const AnalogPort: nat := 78
  const ConnectedBitfield: nat := 114
  const CrcValue: nat := 115

  /** The number of registers of the mandatory frame prefix (`vars.subList(0, 6)`). */
  const PrefixCount: nat := 6

  /** Type tag of register `k`, as the constructor of `Red` declares them
      (red.java:134-249), one branch per run of equal tags. */
  function Tag(k: nat): (t: char)
    ensures t in "BHIfi"
  {
    if k < 6 then 'B'            // Header .. Status
    else if k < 9 then 'I'       // HardwareVersion, SoftwareVersion, Baudrate
    else if k < 11 then 'B'      // OperationMode, TorqueEnable
    else if k < 13 then 'f'      // OutputShaftCPR, OutputShaftRPM
    else if k < 14 then 'B'      // UserIndicator
    else if k < 16 then 'i'      // MinimumPositionLimit, MaximumPositionLimit
    else if k < 18 then 'H'      // TorqueLimit, VelocityLimit
    else if k < 40 then 'f'      // PositionFF .. SetPosition
    else if k < 41 then 'B'      // PositionControlMode
    else if k < 49 then 'f'      // SCurveSetpoint .. SetDutyCycle
    else if k < 60 then 'B'      // SetScanModuleMode, SetManualBuzzer .. SetManualIMU
    else if k < 65 then 'i'      // Buzzer_1 .. Buzzer_5
    else if k < 70 then 'B'      // Servo_1 .. Servo_5
    else if k < 75 then 'i'      // RGB_1 .. RGB_5
    else if k < 78 then 'f'      // PresentPosition, PresentVelocity, MotorCurrent
    else if k < 79 then 'H'      // AnalogPort
    else if k < 84 then 'B'      // Button_1 .. Button_5
    else if k < 89 then 'H'      // Light_1 .. Light_5
    else if k < 94 then 'i'      // Joystick_1 .. Joystick_5
    else if k < 99 then 'H'      // Distance_1 .. Distance_5
    else if k < 104 then 'i'     // QTR_1 .. QTR_5
    else if k < 109 then 'B'     // Pot_1 .. Pot_5
    else if k < 114 then 'f'     // IMU_1 .. IMU_5
    else 'I'                     // connected_bitfield, CRCValue
  }

  /** The constant names of the `Index` enum below `Buzzer_1`, in ordinal
      order (red.java:100-108). */
  const LeadingNames: seq<string> := [
    "Header", "DeviceID", "DeviceFamily", "PackageSize", "Command", "Status", "HardwareVersion",
    "SoftwareVersion", "Baudrate", "OperationMode", "TorqueEnable", "OutputShaftCPR", "OutputShaftRPM",
    "UserIndicator", "MinimumPositionLimit", "MaximumPositionLimit", "TorqueLimit", "VelocityLimit",
    "PositionFF", "VelocityFF", "TorqueFF", "PositionDeadband", "VelocityDeadband", "TorqueDeadband",
    "PositionOutputLimit", "VelocityOutputLimit", "TorqueOutputLimit", "PositionScalerGain",
    "PositionPGain", "PositionIGain", "PositionDGain", "VelocityScalerGain", "VelocityPGain",
    "VelocityIGain", "VelocityDGain", "TorqueScalerGain", "TorquePGain", "TorqueIGain", "TorqueDGain",
    "SetPosition", "PositionControlMode", "SCurveSetpoint", "ScurveAccel", "SCurveMaxVelocity",
    "SCurveTime", "SetVelocity", "SetVelocityAcceleration", "SetTorque", "SetDutyCycle",
    "SetScanModuleMode", "SetManualBuzzer", "SetManualServo", "SetManualRGB", "SetManualButton",
    "SetManualLight", "SetManualJoystick", "SetManualDistance", "SetManualQTR", "SetManualPot",
    "SetManualIMU"]

  /** The decimal digit of a module number 1 .. 5. */
  function Digit(s: nat): char
    requires 1 <= s <= 5
  {
    if s == 1 then '1' else if s == 2 then '2' else if s == 3 then '3' else if s == 4 then '4' else '5'
  }

  /** The name of the register `k` of a block of five module registers that
      starts at `first`: "Buzzer_1" .. "Buzzer_5" and so on. */
  function BlockName(prefix: string, k: nat, first: nat): string
    requires first <= k < first + 5
  {
    prefix + "_" + [Digit(k - first + 1)]
  }

  /** `Index.values()[k].name()`: the name of register `k` (red.java:100-116). */
  function Name(k: nat): string
    requires k < Count
  {
    if k < 60 then LeadingNames[k]
    else if k < 65 then BlockName("Buzzer", k, 60)
    else if k < 70 then BlockName("Servo", k, 65)
    else if k < 75 then BlockName("RGB", k, 70)
    else if k == 75 then "PresentPosition"
    else if k == 76 then "PresentVelocity"
    else if k == 77 then "MotorCurrent"
    else if k == 78 then "AnalogPort"
    else if k < 84 then BlockName("Button", k, 79)
    else if k < 89 then BlockName("Light", k, 84)
    else if k < 94 then BlockName("Joystick", k, 89)
    else if k < 99 then BlockName("Distance", k, 94)
    else if k < 104 then BlockName("QTR", k, 99)
    else if k < 109 then BlockName("Pot", k, 104)
    else if k < 114 then BlockName("IMU", k, 109)
    else if k == 114 then "connected_bitfield"
    else "CRCValue"
  }

  /** The `Commands` enum (red.java:96-98). */
  datatype Command =
    Write | WriteAck | Read | Reboot | HardReset | EepromWrite | EepromWriteAck | Ping | ResetEnc | Tune | ModuleScan | BlJump

  /** What a slot's untyped `Object value` can hold: nothing yet (`null`), an
      `Integer`, a `Long` (what `CRC32.getValue` boxes to), a `Float` given by
      its IEEE-754 bits, a `Commands` constant, or a list. */
  datatype Value = Absent | Int(i: int) | Long(l: int) | Float(bits: bv32) | Cmd(c: Command) | Items(items: seq<Value>)

  /** One slot of the registry (class `Data`). */
  datatype Data = Data(index: nat, tag: char, isConst: bool, value: Value)

  /** `Data.getSize`: the wire size in bytes of a type tag (red.java:80-93). */
  function Size(tag: char): nat {
    match tag
    case 'B' => 1
    case 'H' => 2
    case 'I' => 4
    case 'f' => 4
    case _ => 0
  }

  /** The registers declared with the signed tag 'i', which `getSize` does not know. */
  predicate SignedSlot(k: nat) {
    k == 14 || k == 15 || 60 <= k < 65 || 70 <= k < 75 || 89 <= k < 94 || 99 <= k < 104
  }

  /** Every size `getSize` reports for a schema slot is 1, 2 or 4, except the
      signed 'i' slots (position limits, buzzers, RGB, joysticks, QTR), for
      which it reports 0. */
  lemma SchemaSizes(k: nat)
    requires k < Count
    ensures Tag(k) == 'i' <==> SignedSlot(k)
    ensures Size(Tag(k)) == 0 <==> SignedSlot(k)
    ensures !SignedSlot(k) ==> Size(Tag(k)) in {1, 2, 4}
  {
  }

  /** The tag-to-size table itself: 1 for 'B', 2 for 'H', 4 for 'I' and 'f',
      and 0 for every other tag, the signed 'i' included. */
  lemma SizeTable(tag: char)
    ensures Size(tag) == (if tag == 'B' then 1 else if tag == 'H' then 2 else if tag == 'I' || tag == 'f' then 4 else 0)
    ensures Size('i') == 0
  {
  }

  /** A registry has the shape of the schema: one slot per ordinal, in order,
      each with its declared tag. No builder changes this shape. */
  ghost predicate WellFormed(vars: seq<Data>) {
    && |vars| == Count
    && forall k | 0 <= k < |vars| :: vars[k].index == k && vars[k].tag == Tag(k) && !vars[k].isConst
  }

  /** A registry every slot of which holds its own index and tag. */
  type Registry = vars: seq<Data> | WellFormed(vars) witness Initial(0)

  /** The value the constructor of `Red` gives slot `k`: the header 0x55, the
      device ID, the family byte `(int) (byte) 0xBA` (which is -70), and
      nothing elsewhere. */
  function InitialValue(k: nat, id: int): Value {
    if k == Header then Int(0x55)
    else if k == DeviceId then Int(id)
    else if k == DeviceFamily then Int(-70)
    else Absent
  }

  /** The registry `new Red(id)` builds (red.java:133-251). */
  function Initial(id: int): (vars: seq<Data>)
    ensures WellFormed(vars)
    ensures vars[Header].value == Int(0x55) && vars[DeviceFamily].value == Int(-70)
    ensures vars[DeviceId].value == Int(id)
    ensures forall k | 0 <= k < Count && k !in {Header, DeviceId, DeviceFamily} :: vars[k].value == Absent
  {
    seq(Count, k requires 0 <= k < Count => Data(k, Tag(k), false, InitialValue(k, id)))
  }

  predicate InRange(k: int) { 0 <= k < Count }

  predicate AllInRange(indices: seq<int>) {
    forall j | 0 <= j < |indices| :: InRange(indices[j])
  }

  /** `vars.get(k).setValue(v)`. */
  function SetValue(vars: seq<Data>, k: nat, v: Value): (r: seq<Data>)
    requires WellFormed(vars) && k < Count
    ensures WellFormed(r)
    ensures r[k].value == v
    ensures forall j | 0 <= j < Count && j != k :: r[j] == vars[j]
  {
    vars[k := vars[k].(value := v)]
  }

  /** Stores `values[j]` into slot `indices[j]` for j = 0, 1, ... in turn. */
  function StoreAll(vars: seq<Data>, indices: seq<int>, values: seq<Value>): (r: seq<Data>)
    requires WellFormed(vars) && |indices| == |values| && AllInRange(indices)
    ensures WellFormed(r)
    decreases |indices|
  {
    if |indices| == 0 then vars
    else
      var n := |indices| - 1;
      SetValue(StoreAll(vars, indices[..n], values[..n]), indices[n], values[n])
  }

  /** The value of the last pair that names slot `k`, if any pair does. */
  function LastWrite(indices: seq<int>, values: seq<Value>, k: int): Option<Value>
    requires |indices| == |values|
    decreases |indices|
  {
    if |indices| == 0 then None
    else
      var n := |indices| - 1;
      if indices[n] == k then Some(values[n]) else LastWrite(indices[..n], values[..n], k)
  }

  /** After storing the pairs in list order, each slot holds the value of the
      last pair that names it (the last duplicate wins) and every slot no pair
      names keeps its value. */
  lemma {:induction false} StoreAllLastWins(vars: seq<Data>, indices: seq<int>, values: seq<Value>, k: nat)
    requires WellFormed(vars) && |indices| == |values| && AllInRange(indices) && k < Count
    ensures StoreAll(vars, indices, values)[k].value ==
              match LastWrite(indices, values, k)
              case Some(v) => v
              case None => vars[k].value
    decreases |indices|
  {
    if |indices| > 0 {
      var n := |indices| - 1;
      assert AllInRange(indices[..n]);
      StoreAllLastWins(vars, indices[..n], values[..n], k);
    }
  }

  /** A slot that no pair names is left as it was. */
  lemma {:induction false} StoreAllOthersUnchanged(vars: seq<Data>, indices: seq<int>, values: seq<Value>, k: nat)
    requires WellFormed(vars) && |indices| == |values| && AllInRange(indices) && k < Count
    requires forall j | 0 <= j < |indices| :: indices[j] != k
    ensures StoreAll(vars, indices, values)[k] == vars[k]
    decreases |indices|
  {
    if |indices| > 0 {
      var n := |indices| - 1;
      assert AllInRange(indices[..n]);
      StoreAllOthersUnchanged(vars, indices[..n], values[..n], k);
    }
  }

  /** The current values of the given slots, in request order. */
  function ValuesAt(vars: seq<Data>, indices: seq<int>): (r: seq<Value>)
    requires |vars| == Count && AllInRange(indices)
    ensures |r| == |indices|
    ensures forall j | 0 <= j < |indices| :: r[j] == vars[indices[j]].value
  {
    seq(|indices|, j requires 0 <= j < |indices| => vars[indices[j]].value)
  }

  /** `(int)` of a slot's value: a null value cannot be unboxed, and the cast
      to `Integer` refuses every other box, a `Long` included. */
  function AsInt(v: Value): (r: Result<int, Error>)
    ensures r.Success? <==> v.Int?
    ensures r.Success? ==> r.value == v.i
    ensures v.Absent? ==> r == Failure(NullValue)
    ensures !v.Absent? && !v.Int? ==> r == Failure(ClassCast)
    ensures v.Long? ==> r == Failure(ClassCast)
  {
    match v
    case Int(i) => Success(i)
    case Absent => Failure(NullValue)
    case _ => Failure(ClassCast)
  }

  /** `(List<Object>)` of a slot's value: null stays null, a list is kept and
      any other value cannot be cast. */
  function AsList(v: Value): (r: Result<Option<seq<Value>>, Error>)
    ensures r == Success(None) <==> v.Absent?
    ensures r.Success? && r.value.Some? <==> v.Items?
    ensures v.Items? ==> r == Success(Some(v.items))
    ensures r.Failure? ==> r.error == ClassCast
  {
    match v
    case Items(items) => Success(Some(items))
    case Absent => Success(None)
    case _ => Failure(ClassCast)
  }
}
