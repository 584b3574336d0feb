# SMD Red host driver — a Dafny model

This project models the host-side driver of the Acrome Smart Motion Devices
"Red" motor-driver bus, as written in `SMD-java/red.java`. It covers three parts.

- **Register table** (`registry.dfy`, module `Registry`). This is the `Index` enum and the
  typed slots of class `Data`. It includes `Data.getSize` and the 116-slot table that the
  constructor of `Red` builds.
- **Frame builders** (`crc32.dfy`, `codec.dfy`, `red.dfy`; modules `Crc32`, `Codec`, `Device`).
  Class `Device.Red` has the registry `vars` and the expected acknowledgement size `ackSize`.
  Every builder of `Red` is a method on it.
  - It stamps the `Command` slot.
  - It builds the body from the ASCII characters of the format string, as the Java does.
  - It patches body byte 3 with the package size.
  - It stores the CRC-32 of the patched body in `CRCValue` and records the acknowledgement size.
  - The CRC is the reflected 0xEDB88320 CRC-32 of `java.util.zip.CRC32`, computed bit by bit.
- **Transaction engine** (`master.dfy`, module `Transport`; the pure logic of discovery and
  module configuration is in `discovery.dfy`, module `Discovery`). Class `Transport.Master`
  has the driver table (256 `Red` records), the configured and port baud rates, and a ghost
  trace `bus` of every frame written to the wire. Because of the trace, "fails before
  anything is sent" is stated as `bus == old(bus)`.
  - Each Java exception is an `Error` value in a `Result`.
  - The undefined `__readAck` is `Transport.ReadAck`, a nondeterministic boolean.
  - The loops of the source each become a method with loop invariants:
    - the pair split of `setVariables`;
    - the bitfield poll of `scanModules`;
    - the decode loop;
    - the mask loop of `setConnectedModules`;
    - the null filter of `setControlParameters*`, which the code after `List.of` only reaches with six gains.

  Each loop method is proved equal to a specification function. The properties are proved
  about those functions.

Where the code and the design of the protocol disagree, the model follows the code, with
two exceptions. Each exception is a defect logged under "## Findings" and modelled both as
written and as corrected; the rest of the model uses the corrected behaviour.

- **CRC trailer (Findings rows 1 and 2):** as written, every builder throws
  ClassCastException once it has stored its CRC. Past the throw, the trailer would be four zero
  bytes. The builders of `Device.Red` return the intended frame, and each one's contract also
  states that the as-written cast throws. So the operations of `Transport.Master` each send the
  intended frames, where the Java throws before anything reaches the bus.
- **Module masks (Findings row 3):** the masks are ORs of module bits, where the code sums them.

The other disagreements follow the code:

- **Frame bodies:** they hold the format string, not packed values.
- **Bitfield decode:** bit 0 decodes to `AnalogPort`, and `Button_1` is bit 1.
- **Bitfield read:** the 64-bit bitfield is meant to arrive as two 32-bit halves, combined
  as `high << 32 | low` (red.java:770). The code reads one register and then takes element 1
  of the one-element answer. So a successful
  `scanModules` poll always ends in `IndexOutOfBoundsException`. `Transport.Master.ScanModules`
  states exactly that. The decode the poll was meant to reach is `Discovery.DecodeModules`,
  and its properties are proved on its own.
- **Null gains:** `List.of(p, i, d, db, ff, ol)` throws NullPointerException on a null
  element. So in `setControlParameters*` any null gain throws before anything is sent, and the
  null filter after it always passes all six gains. `Transport.Master.SetControlParameters`
  states exactly that.
- **Compilation:** `red.java` does not compile as written. For example, it assigns a `List<Object>`
  to a `List<Integer>`, and it unboxes `getValue()` in `attach`. The model gives each such
  statement the meaning the surrounding code evidently intends.

## Model

| member | source | states |
|---|---|---|
| Crc32.CheckValue | SMD-java/red.java:274-277 | the CRC of the nine digits "123456789" is 0xCBF43926, the published check value of the CRC-32 that `java.util.zip.CRC32` computes |
| Crc32.Le32RoundTrip | SMD-java/red.java:281 | reading the 4-byte little-endian trailer back gives the 32-bit CRC value that was written |
| Crc32.FromLe32RoundTrip | SMD-java/red.java:281 | every 4-byte trailer is the little-endian encoding of the value it reads as, so the encoding is a bijection |
| Registry.Tag | SMD-java/red.java:134-249 | every slot of the schema is declared with one of the tags B, H, I, f, i |
| Registry.SchemaSizes | SMD-java/red.java:80-93 | `getSize` of a schema slot is 0 exactly for the slots declared 'i' (position limits, buzzers, RGB, joysticks, QTR), and is 1, 2 or 4 for every other slot |
| Registry.SizeTable | SMD-java/red.java:80-93 | `getSize` is 1 for 'B', 2 for 'H', 4 for 'I' and 'f', and 0 for every other tag, including 'i' |
| Registry.Initial | SMD-java/red.java:133-251 | `new Red(id)` builds 116 non-constant slots, slot k with index k and its declared tag, holding header 0x55, device ID `id` and family `(int) (byte) 0xBA` = -70, with every other slot null |
| Registry.SetValue | SMD-java/red.java:76-78 | `setValue` on slot k gives slot k the new value and leaves every other slot and the schema shape as they were |
| Registry.StoreAllLastWins | SMD-java/red.java:262-265 | storing the pairs in list order leaves each slot holding the value of its last occurrence in the list, or its old value when it is not listed |
| Registry.StoreAllOthersUnchanged | SMD-java/red.java:262-265 | a slot that no pair names is unchanged by the store loop |
| Registry.ValuesAt | SMD-java/red.java:678-680 | the values returned after an acknowledged write are, in request order, the values the named slots hold |
| Registry.AsInt | SMD-java/red.java:1103 | the cast `(int) ret.get(0)` gives the `Integer`'s value, throws NullPointerException on null, and throws ClassCastException on anything else, a `Long` included |
| Registry.AsList | SMD-java/red.java:1136 | the cast `(List<Object>) ret.get(0)` gives null for null and the list for a list, and throws ClassCastException otherwise |
| Codec.Ascii | SMD-java/red.java:270 | `getBytes` of an ASCII format string has one byte per character, equal to the character's code |
| Codec.PrefixShape | SMD-java/red.java:261 | the format of the six-slot prefix is "<BBBBBB", seven ASCII characters, and the CRC slot's size is 4 |
| Codec.PairTags | SMD-java/red.java:262-265 | the write loop appends, per pair, a 'B' followed by the tag of the pair's register |
| Codec.WriteFormat | SMD-java/red.java:261-265 | the format string of a write of n pairs has 7 + 2n ASCII characters and begins with "<BBBBBB" |
| Codec.ReadFormat | SMD-java/red.java:289-290 | the format string of a read of n registers is "<BBBBBB" followed by n characters 'B' |
| Codec.IdFormat | SMD-java/red.java:459 | the format string of `updateDriverId` is "<BBBBBBBB" |
| Codec.Patch | SMD-java/red.java:272 | patching writes (body length + 4) mod 256 into byte 3 and changes no other byte |
| Codec.Frame | SMD-java/red.java:269-283 | the intended frame is the patched body plus a 4-byte trailer, so its length is the body's plus 4; byte 3 holds that length mod 256; every other body byte is kept; the trailer is the little-endian CRC of the patched body |
| Codec.CorruptTrailerRejected | SMD-java/red.java:274-281 | any trailer other than the little-endian CRC of the patched body fails the CRC check |
| Codec.FrameAsWritten | SMD-java/red.java:279-281 | the frame the code would assemble if the `(int)` cast of the CRC succeeded, whose `put` of the already-filled trailer buffer copies nothing: the patched body followed by four zero bytes |
| Codec.AsWrittenTrailerValidIff | SMD-java/red.java:279-281 | the frame as written passes the CRC check if and only if the CRC of its body is 0 |
| Codec.VerbBodyIsPatchedPrefix | SMD-java/red.java:315-318 | the patched body of every command-only builder is the seven bytes "<BB", 11, "BBB" |
| Codec.AsWrittenVerbFrameRejected | SMD-java/red.java:324-326 | if the cast of the CRC succeeded, the zero-trailer frame of every command-only builder would fail the CRC check |
| Codec.Encode | SMD-java/red.java:269-283 | copying the body into a fresh buffer, patching byte 3 in place and appending the little-endian CRC of the buffer yields exactly `Frame(body)` |
| Device.CrcOf | SMD-java/red.java:277 | `setValue(crc.getValue())` stores in `CRCValue` a boxed `Long`, non-negative and below 2^32, and never an `Integer` |
| Device.CrcSlot | SMD-java/red.java:274-277 | the `CRCValue` slot after checksumming a format string is the `Long` of the CRC of its patched ASCII bytes |
| Device.BuiltAsWritten | SMD-java/red.java:279-283 | as written, a builder returns a frame only when `CRCValue` holds an `Integer`, and the frame is then the zero-trailer one. A `Long` there throws ClassCastException at the `(int)` cast, and a null throws NullPointerException |
| Device.BuildersThrowAsWritten | SMD-java/red.java:277-281 | after any builder has stored its CRC, the as-written trailer cast throws ClassCastException, so no builder returns a frame. This holds whatever the command, and for the bodies of writes and of `updateDriverId` too |
| Device.RestampedKeepsLast | SMD-java/red.java:457-473 | a command-only builder run after `updateDriverId` overwrites the command and CRC that `updateDriverId` stored, leaving the registry as if only the later builder had run |
| Device.Stamped | SMD-java/red.java:313-321 | a builder sets the `Command` slot and the `CRCValue` slot and leaves every other slot unchanged |
| Device.StampedTwice | SMD-java/red.java:286-304 | a builder overwrites whatever command and CRC an earlier builder left on the record |
| Device.GoodPrefix | SMD-java/red.java:262-263 | the number of pairs stored before the loop throws is the longest prefix whose indices are in range and have a value; it covers the whole list exactly when all indices are in range and there are enough values |
| Device.AfterWriteSlot | SMD-java/red.java:258-277 | after a complete write, `CRCValue` holds the CRC of the write format and each listed slot holds its last listed value; `Command` holds WRITE_ACK or WRITE unless it was listed; every other slot keeps its value; every tag is kept |
| Device.AfterWriteOthers | SMD-java/red.java:258-277 | a write leaves every slot that it does not name, other than `Command` and `CRCValue`, unchanged |
| Device.AfterWriteOne | SMD-java/red.java:258-277 | a one-pair write of v to slot k sets slot k to v and `Command` to WRITE or WRITE_ACK, and changes nothing else except `CRCValue` |
| Device.StorePairs | SMD-java/red.java:261-265 | the store loop stores the longest good prefix of the pairs and, when that is all of them, builds exactly the write format string |
| Device.IdBody | SMD-java/red.java:459-462 | the body of `updateDriverId` has 9 bytes, of which bytes 1 .. 4 are the new ID written big-endian by `putInt` |
| Device.IdFrameCarriesId | SMD-java/red.java:462-463 | for an ID 0 .. 255, bytes 1 and 2 of that frame are 0 and byte 4 is the ID, while byte 3 is overwritten by the package size |
| Device.Red.constructor | SMD-java/red.java:128-252 | accepts IDs 0 .. 255 and builds exactly `Initial(id)`, with acknowledgement size 0 |
| Device.Red.Create | SMD-java/red.java:128-131 | `new Red(ID)` throws IllegalArgumentException if and only if the ID is outside 0 .. 255; otherwise it gives a fresh record holding `Initial(id)` with acknowledgement size 0 |
| Device.Red.SetVariables | SMD-java/red.java:258-284 | succeeds if and only if every index is in range and has a value; on success the registry is `AfterWrite`, the ack size is 7 + 2n, and the frame is `Frame` of the write format; on failure it throws IndexOutOfBounds after storing the good prefix, with the ack size unchanged; on success, as written, the `(int)` cast of the stored CRC then throws ClassCastException |
| Device.Red.GetVariables | SMD-java/red.java:286-311 | succeeds if and only if every index is in range; then `Command` is READ, `CRCValue` is the CRC of the read format, the ack size is (7 + n) + 4 + n, and the frame is `Frame` of the read format; otherwise only `Command` changes; on success, as written, the `(int)` cast of the stored CRC then throws ClassCastException |
| Device.Red.Reboot | SMD-java/red.java:313-329 | stamps REBOOT, sets ack size 0, and returns the 11-byte command-only frame; as written, the `(int)` cast of the stored CRC then throws ClassCastException |
| Device.Red.FactoryReset | SMD-java/red.java:331-347 | stamps HARD_RESET, sets ack size 0, and returns the command-only frame; as written, the `(int)` cast of the stored CRC then throws ClassCastException |
| Device.Red.EepromWrite | SMD-java/red.java:349-365 | stamps EEPROM_WRITE_ACK or EEPROM_WRITE as `ack` says, sets ack size 7 + 4, and returns the command-only frame; as written, the `(int)` cast of the stored CRC then throws ClassCastException |
| Device.Red.Ping | SMD-java/red.java:367-383 | stamps PING, sets ack size 7 + 4, and returns the command-only frame; as written, the `(int)` cast of the stored CRC then throws ClassCastException |
| Device.Red.ResetEncoder | SMD-java/red.java:385-401 | stamps RESET_ENC, sets ack size 7 + 4, and returns the command-only frame; as written, the `(int)` cast of the stored CRC then throws ClassCastException |
| Device.Red.Tune | SMD-java/red.java:403-419 | stamps TUNE, sets ack size 0, and returns the command-only frame; as written, the `(int)` cast of the stored CRC then throws ClassCastException |
| Device.Red.ScanModules | SMD-java/red.java:421-437 | stamps MODULE_SCAN, sets ack size 7 + 4, and returns the command-only frame; as written, the `(int)` cast of the stored CRC then throws ClassCastException |
| Device.Red.EnterBootloader | SMD-java/red.java:439-455 | stamps BL_JUMP, sets ack size 0, and returns the command-only frame; as written, the `(int)` cast of the stored CRC then throws ClassCastException |
| Device.Red.UpdateDriverId | SMD-java/red.java:457-473 | sets `Command` to WRITE and `CRCValue` to the CRC of the patched ID body, keeps the ack size, and returns `Frame` of the body carrying the new ID; as written, the `(int)` cast of the stored CRC then throws ClassCastException |
| Device.AckSizes | SMD-java/red.java:292-294 | the expected acknowledgement is 7 + 2n bytes for a write of n pairs and (7 + n) + 4 + n for a read of n registers; it is 11 for EEPROM_WRITE(_ACK), PING, RESET_ENC and MODULE_SCAN, and 0 for REBOOT, HARD_RESET, TUNE and BL_JUMP |
| Device.VerbFrameIndependentOfCommand | SMD-java/red.java:313-328 | two command-only builders record different commands on the record if and only if they are different builders, yet both return the same 11-byte frame, since the body carries only the format string |
| Discovery.GroupRoundTrip | SMD-java/red.java:750-761 | the ten categories and the rows 0 .. 9 of the offset table correspond one to one |
| Discovery.RegisterNames | SMD-java/red.java:110-115 | register `Cat_1` + s - 1 is the enum constant named "Cat_s", for every category and every s in 1 .. 5 |
| Discovery.ModuleIndex | SMD-java/red.java:1096-1104 | an accessor's index `Cat_1 + moduleId - 1` is accepted if and only if moduleId is 1 .. 5; the register is then a module register named "Cat_moduleId"; otherwise the accessor throws InvalidIndexError |
| Discovery.ModuleIndexInjective | SMD-java/red.java:1096-1214 | two accepted (category, moduleId) pairs name the same register only if they are the same pair |
| Discovery.OffsetsRows | SMD-java/red.java:750-761 | row g of `_ID_OFFSETS` is (5g + 1, first register of category g) |
| Discovery.JavaDiv | SMD-java/red.java:782 | Java's `/` truncates toward zero, so `(addr - 1) / 5` is 0 for addr = 0 |
| Discovery.DecodeAddr | SMD-java/red.java:782 | a set bit decodes to `AnalogPort` for bit 0 and to the register of slot (addr - 1) mod 5 + 1 of category (addr - 1) / 5 for bits 1 .. 50; bits 51 .. 63 index past the offset table and throw IndexOutOfBounds |
| Discovery.DecodeAddrModule | SMD-java/red.java:782 | bit addr decodes to the register of module (c, s) if and only if addr = 5 * group(c) + s |
| Discovery.DecodeModules | SMD-java/red.java:775-785 | the decode loop returns null for a zero bitfield and otherwise the names of the set bits in ascending order, or the exception of the first bad bit; this is exactly `Decode` |
| Discovery.DecodeFails | SMD-java/red.java:780-784 | the decode throws if and only if one of the bits 51 .. 63 is set |
| Discovery.DecodedUpToMembers | SMD-java/red.java:780-784 | register k is in the decoded list if and only if some set bit decodes to k |
| Discovery.LastUnderscore | SMD-java/red.java:804 | `lastIndexOf("_")` is -1 or the position of an underscore with none after it |
| Discovery.ParseInt | SMD-java/red.java:804 | `Integer.parseInt` accepts only a non-empty string, and the value it accepts fits in an `int` |
| Discovery.ParseDigit | SMD-java/red.java:804 | the suffixes "s" and "0s" both parse to s, for s in 1 .. 5 |
| Discovery.CategoryNamedName | SMD-java/red.java:809-842 | the switch recognises each of the ten category labels and maps it to its own category |
| Discovery.ParseModuleShape | SMD-java/red.java:803-842 | a name passes the check only if it is a category label, an underscore, and a suffix that `parseInt` reads as the slot |
| Discovery.ParseLabelled | SMD-java/red.java:803-842 | conversely, a category label, an underscore and any suffix that parses to 1 .. 5 is accepted for that category and slot |
| Discovery.ParseModuleName | SMD-java/red.java:803-842 | the enum name of every module register is accepted as its own module |
| Discovery.AnalogPortRefused | SMD-java/red.java:803-842 | the name "AnalogPort" is refused |
| Discovery.ParseEachSome | SMD-java/red.java:802-846 | the validation loop gets through a list if and only if every name in it is accepted |
| Discovery.MaskBits | SMD-java/red.java:811-838 | in the mask of category c, bit s - 1 is set if and only if (c, s) was parsed; bits 5 .. 7 are always clear |
| Discovery.MaskBitsOfNames | SMD-java/red.java:802-846 | the masks exist if and only if every name is accepted; the bit of module (c, s) is set if and only if some name denotes (c, s); every mask is below 32 |
| Discovery.MasksOf | SMD-java/red.java:802-846 | the masks are ten bytes, and the only error is an invalid module |
| Discovery.ManualMasks | SMD-java/red.java:802-846 | the accumulation loop computes exactly `MasksOf` of its list, the error included |
| Discovery.Distinct | SMD-java/red.java:789 | the deduplicated list has the same members as the input and no repeated element |
| Discovery.MasksOfDistinct | SMD-java/red.java:789 | deduplicating the names changes neither whether they are accepted nor any mask bit |
| Discovery.MasksAsWritten | SMD-java/red.java:811-838 | the masks as the code sums them fail exactly when the OR-ed masks fail |
| Discovery.SumsAreMasksWithoutRepeats | SMD-java/red.java:811-838 | when no module is parsed twice, each summed mask equals the OR-ed mask |
| Discovery.RepeatedModuleCarries | SMD-java/red.java:811-838 | ["Buzzer_2", "Buzzer_02"] survives deduplication, and the sums give the Buzzer mask 4, which is the bit of Buzzer_3 |
| Discovery.RepeatedModuleMasked | SMD-java/red.java:811-838 | the corrected masks give that input the Buzzer mask 2, the bit of Buzzer_2 |
| Discovery.ManualRegister | SMD-java/red.java:850-859 | the ten mask writes go to ten distinct `SetManual*` registers, starting at `SetManualBuzzer` |
| Discovery.AddrModuleParses | SMD-java/red.java:782 | the name decoded from a bit 1 .. 50 is accepted by the module-name check, as the module of that bit |
| Discovery.AddrModuleIff | SMD-java/red.java:782 | bit addr in 1 .. 50 belongs to module (c, s) if and only if addr = 5 * group(c) + s |
| Discovery.DecodedModules | SMD-java/red.java:775-785 | for a non-zero bitfield with bits only in 1 .. 50, the decode succeeds; every name it yields is a valid module; module (c, s) is among them if and only if bit 5 * group(c) + s is set |
| Discovery.ScanThenConfigure | SMD-java/red.java:775-846 | feeding the names of such a bitfield to the mask computation succeeds, and sets the bit of (c, s) exactly when the bitfield had bit 5 * group(c) + s |
| Discovery.AnalogBitRefused | SMD-java/red.java:782 | a bitfield with bit 0 set decodes successfully, but the mask computation refuses the resulting list as an invalid module |
| Discovery.PackRgbRoundTrip | SMD-java/red.java:1195 | `red + 256 green + 65536 blue` of three channels 0 .. 255 fits in 24 bits and gives back each channel |
| Discovery.QtrBitsDigits | SMD-java/red.java:1157-1161 | the three QTR booleans are bits 0, 1 and 2 of the stored integer |
| Discovery.QtrBitsPeriodic | SMD-java/red.java:1157-1161 | the QTR booleans depend only on the value mod 8 |
| Discovery.ControlIndices | SMD-java/red.java:1040 | each loop has six gain registers, all among the float slots 18 .. 38 |
| Discovery.ControlPairs | SMD-java/red.java:1043-1048 | the filter loop returns exactly `Present`, the non-null gains paired with their registers, in order |
| Discovery.PresentMembers | SMD-java/red.java:1043-1048 | (k, v) is in the filtered list if and only if some position has register k and the non-null value v; the list is never longer than the input |
| Discovery.PresentExtremes | SMD-java/red.java:1043-1048 | all null gives the empty list; no null gives every (register, gain) pair in order |
| Transport.VerbFrame | SMD-java/red.java:313-328 | the command-only frame has 11 bytes |
| Transport.WriteFrame | SMD-java/red.java:258-283 | a write frame of n pairs has 11 + 2n bytes |
| Transport.ReadFrame | SMD-java/red.java:286-310 | a read frame of n registers has 11 + n bytes |
| Transport.MaskedSlots | SMD-java/red.java:850-859 | after the first n mask writes, each written `SetManual*` slot holds its mask and `Command` is WRITE; everything else except `CRCValue` is unchanged |
| Transport.ConfiguredSlots | SMD-java/red.java:848-862 | after `setConnectedModules`, `SetScanModuleMode` is 1, the ten `SetManual*` slots hold the masks, `Command` is MODULE_SCAN, `CRCValue` is the command-only CRC, and every other slot is unchanged |
| Transport.Unzip | SMD-java/red.java:667-672 | the split loop yields the index list and the value list of the pairs |
| Transport.ControlWrite | SMD-java/red.java:1039-1050 | the pairs `setControlParameters*` passes on name only registers in range |
| Transport.ControlIndicesDistinct | SMD-java/red.java:1040 | the six registers of a loop are pairwise distinct |
| Transport.ControlWriteAllGiven | SMD-java/red.java:1041-1048 | with no gain null, the filter passes every parameter: the write names the six registers of the loop in order, with the six gains |
| Transport.ControlGainsStored | SMD-java/red.java:1039-1052 | after the write of six gains, each gain is stored in its register, and no other slot but `Command` and `CRCValue` changes |
| Transport.Master.WriteCheck | SMD-java/red.java:655-665 | the write chain first rejects an ID outside 0 .. 255, then a slot that does not hold that ID, then an empty list, and passes otherwise |
| Transport.Master.ReadCheck | SMD-java/red.java:689-703 | the read chain first rejects an ID outside 0 .. 254, 255 included, then a slot that does not hold that ID, then an empty list, and passes otherwise |
| Transport.Master.Create | SMD-java/red.java:486-496 | `new Master(portname, baudrate)` throws IllegalArgumentException if and only if the rate is outside 3053 .. 12500000; otherwise it gives a fresh, valid master with the rate and an empty bus, in which every slot stores device ID 255 |
| Transport.Master.constructor | SMD-java/red.java:486-503 | accepts baud rates 3053 .. 12500000, starts with an empty bus, and fills all 256 slots with distinct fresh `Red(255)` placeholders |
| Transport.Master.Attach | SMD-java/red.java:643-645 | puts the driver into the slot its stored ID names and changes no other slot; a null ID, a non-integer ID or an ID outside 0 .. 255 throws, with the table unchanged; nothing is sent |
| Transport.Master.Detach | SMD-java/red.java:647-652 | rejects an ID outside 0 .. 255; otherwise puts a fresh `Red(255)` into that slot only, after which writes and reads to that ID fail as not attached, except for 255, which stays attached |
| Transport.Master.SetVariables | SMD-java/red.java:654-686 | sends nothing and changes nothing when the write chain fails; splits the pairs and throws IndexOutOfBounds without sending when an index is bad; otherwise sends one write frame, applies `AfterWrite`, and, only if `ack` was asked for and answered, returns the stored values in request order |
| Transport.Master.GetVariables | SMD-java/red.java:688-715 | sends nothing when the read chain fails or an index is bad; otherwise sends one read frame, stamps READ, and returns the stored values in request order, or null when unanswered |
| Transport.Master.Reboot | SMD-java/red.java:717-720 | an ID outside 0 .. 255 throws IndexOutOfBounds before anything is sent; otherwise the command-only frame is sent and the record is stamped REBOOT |
| Transport.Master.FactoryReset | SMD-java/red.java:722-725 | as `Reboot`, with HARD_RESET |
| Transport.Master.EepromWrite | SMD-java/red.java:727-736 | as `Reboot`, with EEPROM_WRITE(_ACK); fails only when an acknowledgement was asked for and not given |
| Transport.Master.Ping | SMD-java/red.java:738-742 | as `Reboot`, with PING; the result is whether the acknowledgement came |
| Transport.Master.ResetEncoder | SMD-java/red.java:744-747 | as `Reboot`, with RESET_ENC |
| Transport.Master.PidTuner | SMD-java/red.java:904-907 | as `Reboot`, with TUNE |
| Transport.Master.EnterBootloader | SMD-java/red.java:865-868 | as `Reboot`, with BL_JUMP |
| Transport.Master.UpdateDriverId | SMD-java/red.java:883-897 | succeeds if and only if both IDs are 0 .. 254, with the old ID checked first and nothing sent on failure. It then sends the ID frame, an EEPROM write to the new ID and a reboot of the old one. The old ID's record ends as the reboot stamped it, expecting no ack. The new ID's record, when it is another record, ends as the EEPROM write stamped it, expecting 11 bytes. No other slot of either record changes, the host-side `DeviceID` slots included |
| Transport.Master.ChangeId | SMD-java/red.java:892-896 | the three frames, in order, with both records' whole registries and ack sizes as above, also when both slots hold the same record |
| Transport.Master.UpdateDriverBaudrate | SMD-java/red.java:615-625 | rejects a baud rate outside 3053 .. 12500000 first and then any write-chain failure, sending nothing and changing nothing; otherwise it sends the write of `Baudrate`, an EEPROM write and a reboot; the record ends as the one-pair write of the rate restamped by the reboot (`Rebauded`), so `Baudrate` holds the rate, `Command` is REBOOT, `CRCValue` is the command-only CRC, no answer is expected, and every other slot is kept |
| Transport.Master.GetDriverBaudrate | SMD-java/red.java:627-629 | fails as the read chain does, sending nothing and changing nothing; otherwise it sends one read, leaves the record stamped READ with the one-register read CRC and an expected answer of 13 bytes (`ReadStamped`), and returns the stored baud rate unboxed, or throws NullPointerException when the read is unanswered |
| Transport.Master.UpdateMasterBaudrate | SMD-java/red.java:631-641 | accepts exactly 3053 .. 12500000, switching the port rate only then; neither the table nor the bus changes |
| Transport.Master.GetIntModule | SMD-java/red.java:1096-1104 | `getButton`, `getLight`, `getDistance` and `getPotentiometer` reject a module ID outside 1 .. 5 before anything is sent, and then a failing read chain; otherwise they read that module's register, leave the record `ReadStamped`, and return 0 when unanswered and the stored value unboxed otherwise |
| Transport.Master.GetListModule | SMD-java/red.java:1129-1137 | `getJoystick` and `getImu` do the same, leaving the record `ReadStamped`, and return null when unanswered and the stored list otherwise |
| Transport.Master.GetQtr | SMD-java/red.java:1149-1164 | as the accessors above, leaving the record `ReadStamped`; an answered read gives the three low bits of the stored value |
| Transport.Master.SetBuzzer | SMD-java/red.java:1116-1127 | a negative frequency or a bad module ID is refused before anything is sent; otherwise, when the write chain passes, one write frame is sent and the registry is exactly the one-pair `AfterWrite` of the frequency to the buzzer's register (its CRC included), with 9 answer bytes expected (`WroteSlot`); a failing chain sends nothing and changes nothing |
| Transport.Master.SetServo | SMD-java/red.java:1166-1178 | a value outside 0 .. 255 is refused first, then a bad module ID; otherwise the registry is exactly the one-pair `AfterWrite` of the value to the servo's register, as for `SetBuzzer` |
| Transport.Master.SetRgb | SMD-java/red.java:1190-1204 | a channel outside 0 .. 255 is refused first, then a bad module ID; otherwise the registry is exactly the one-pair `AfterWrite` of the packed colour to the RGB module's register, as for `SetBuzzer` |
| Transport.Master.ScanModules | SMD-java/red.java:749-786 | an ID outside 0 .. 255 throws before anything is sent; otherwise MODULE_SCAN is sent, then a failing read chain ends it; otherwise 1 .. 10 reads are sent; ten unanswered reads give null, and an answered read throws IndexOutOfBounds at `values.get(1)` |
| Transport.Master.PollBitfield | SMD-java/red.java:766-773 | the retry loop sends between 1 and 10 reads of the bitfield register; it returns null only after ten unanswered reads and throws on the first answered one |
| Transport.Master.SetControlParameters | SMD-java/red.java:1039-1052 | any null gain throws NullPointerException in `List.of`, and nothing is sent or changed. With six gains, a failing write chain sends nothing and changes nothing. Otherwise one frame writes the six gains of the position, velocity or torque loop to its six registers in order |
| Transport.Master.SetConnectedModules | SMD-java/red.java:788-863 | validates the deduplicated names before anything is sent; then, if the write chain passes, it sends the scan-mode write, the ten mask writes in register order and MODULE_SCAN, and leaves the registry `Configured` with `MasksOf` of those names |
| Transport.Master.WriteMasks | SMD-java/red.java:850-859 | when the write chain passes, the ten mask writes send one write frame each, in the order of the calls (the trace `ManualFrames`), and leave the registry `Masked` with the ten masks; no slot of the table changes |
| Transport.Master.Configure | SMD-java/red.java:848-862 | the write sequence of those ten masks: nothing is sent when the write chain fails; otherwise the twelve frames are sent and the registry is configured with the masks |

## Left out

- Serial I/O is left out: `__writeBus`, `__readBus`, the port setup in the constructor, `finalize`, and every `Thread.sleep`. A write is an append to the ghost `bus`, and a read is not modelled.
- `__post_sleep` is left out because it is floating point and only feeds the sleeps.
- `Transport.ReadAck` stands for the undefined `__readAck` as a nondeterministic boolean.
  - It does not decode an answer or write anything back into the registry.
  - So the values that set/get return are the values the host record holds after the builder ran.
- Firmware update and version lookup (`getLatestFwVersion`, `updateFwVersion`, red.java:528-613) are left out: they use HTTP, JSON, MD5 and an external tool.
- `attached()` is left out: its list is never filled.
- `getDriverInfo` is left out: it is string formatting over a `getVariables` call that is modelled.
- The one-register setters and getters are not modelled one by one: `enableTorque`, `setOperationMode`, the limits, `setPosition`, `setTorque`, `setDutyCycle`, `getAnalogPort` and their getters. Each is a `setVariables` or `getVariables` call, and those are modelled in full.
- The `getControlParameters*` reads are left out for the same reason: each is one `getVariables`.
- `goTo`, `goToConstantSpeed` and `setVelocity` are left out: they poll without bound and compare floats.
- Floats are opaque 32-bit patterns (`Float(bits)`), since no arithmetic on them is modelled.
- The files under `CheckSMD-java` and `test-java` are not part of this model. They are hardware demos and mocked tests of methods that do not exist.
- Transport.Master.SetVariables: the `(Integer) pair[0]` cast of a non-integer key is not modelled; keys are integers.
- Transport.Unzip: likewise takes integer keys only.
- Discovery.ParseInt: reads ASCII digits with an optional sign, not the other Unicode digits that `Integer.parseInt` accepts.
  - The module names of this protocol are ASCII.
- Discovery.Distinct: keeps the first occurrence of each name in list order, whereas `new ArrayList<>(new HashSet<>(modules))` has an unspecified order.
  - The order matters only for which invalid name the exception names.
  - `Discovery.MasksOfDistinct` shows that acceptance and every mask bit do not depend on it.
- Discovery.MasksAsWritten: sums unbounded integers. The Java `int +=` of a `double` cannot overflow for lists of realistic length.
- Transport.Master.WriteMasks: a loop over the ten masks stands for the ten written-out `setVariables` calls (red.java:850-859). `Transport.ManualFrames` is its trace.
- Discovery.ManualMasks: the accumulation loop of red.java:803-843 ORs each module's bit into its mask, where the code adds 2^(s-1) with `+=`. This is the corrected half of Findings row 3. `Discovery.MasksAsWritten` is the sum as written.
- Transport.Master.SetConnectedModules: it writes the OR-ed masks (`MasksOf`), where the code writes the sums (`MasksAsWritten`). The two differ only when one module is named twice under different spellings (Findings row 3).
- Device.CrcSlot: it gives the boxed `Long` that the code stores. The builders that store it then return the intended frame, whereas the `(int)` cast of that `Long` throws ClassCastException (Findings row 1). Each builder's contract states that throw through `Device.BuiltAsWritten`.
- Device.Red.SetVariables: returns the intended frame; as written, the `(int)` cast at red.java:281 throws ClassCastException after the stamps its contract states (Findings row 1).
- Device.Red.GetVariables: returns the intended frame; as written, the `(int)` cast at red.java:308 throws ClassCastException after the stamps its contract states (Findings row 1).
- Device.Red.Reboot: returns the intended frame; as written, the `(int)` cast at red.java:326 throws ClassCastException after the stamps its contract states (Findings row 1).
- Device.Red.FactoryReset: returns the intended frame; as written, the `(int)` cast at red.java:344 throws ClassCastException after the stamps its contract states (Findings row 1).
- Device.Red.EepromWrite: returns the intended frame; as written, the `(int)` cast at red.java:362 throws ClassCastException after the stamps its contract states (Findings row 1).
- Device.Red.Ping: returns the intended frame; as written, the `(int)` cast at red.java:380 throws ClassCastException after the stamps its contract states (Findings row 1).
- Device.Red.ResetEncoder: returns the intended frame; as written, the `(int)` cast at red.java:398 throws ClassCastException after the stamps its contract states (Findings row 1).
- Device.Red.Tune: returns the intended frame; as written, the `(int)` cast at red.java:416 throws ClassCastException after the stamps its contract states (Findings row 1).
- Device.Red.ScanModules: returns the intended frame; as written, the `(int)` cast at red.java:434 throws ClassCastException after the stamps its contract states (Findings row 1).
- Device.Red.EnterBootloader: returns the intended frame; as written, the `(int)` cast at red.java:452 throws ClassCastException after the stamps its contract states (Findings row 1).
- Device.Red.UpdateDriverId: returns the intended frame; as written, the `(int)` cast at red.java:470 throws ClassCastException after the stamps its contract states (Findings row 1).
- Codec.FrameAsWritten: covers only the trailer copy, which would happen after the cast; as written the cast throws first (`Device.BuiltAsWritten`, Findings rows 1 and 2).
- Codec.AsWrittenVerbFrameRejected: concerns the zero-trailer frame, which the code would return only if the cast did not throw (Findings row 2).
- Transport.Master: every operation that builds a frame sends the intended one. As written, each throws ClassCastException in the builder, before anything is sent (Findings row 1).
- Transport.ControlGainsStored: it states only the case of six gains, the only case `setControlParameters*` lets reach the write, because `List.of` throws on a null first. The null case of the filter loop (red.java:1043-1048) is stated on its own by `Discovery.ControlPairs` and `Discovery.PresentMembers`.
- Transport.Master.ScanModules: because of `values.get(1)` the decode is never reached from it, so the model does not connect the two. `Discovery.DecodeModules` carries the decode's properties on its own.
- Transport.Master.GetDriverBaudrate: does not say which of the two outcomes happens, because that depends on the nondeterministic acknowledgement. The same holds for `Transport.Master.GetIntModule`, `Transport.Master.GetListModule` and `Transport.Master.GetQtr`.

## Findings

| source | as written | input that shows it | evidently intended | confidence | as-written member | corrected member |
|---|---|---|---|---|---|---|
| SMD-java/red.java:277-281 | `setValue(crc.getValue())` boxes the `long` CRC as a `Long`. The trailer's `putInt((int) ...getValue())` casts that `Object` to `int`, which is a checked cast to `Integer`, so it throws ClassCastException. No builder returns a frame, and no operation of `Master` reaches the bus. The same holds in every builder (308, 326, 344, 362, 380, 398, 416, 434, 452, 470). | `new Red(3).reboot()` throws ClassCastException after stamping REBOOT and the CRC | the little-endian CRC-32 of the patched body as the last four bytes of a returned frame | not executed | Device.BuildersThrowAsWritten | Codec.Frame |
| SMD-java/red.java:281 | past the cast, `result.put(ByteBuffer.allocate(4)...putInt(crc))` copies the trailer buffer's remaining bytes. After `putInt` there are none, so the trailer stays four zero bytes. | with the cast alone repaired, `reboot()` gives the body "<BB", 11, "BBB" the trailer 0,0,0,0. No device accepts that frame, because the body's CRC is not 0 | the trailer buffer flipped (or its array copied) so that its four bytes are appended | not executed | Codec.AsWrittenVerbFrameRejected | Codec.CorruptTrailerRejected |
| SMD-java/red.java:811-838 | each distinct name adds 2^(s-1) to its category's mask. Different spellings of one module survive the `HashSet` and are added twice, so the mask carries into a neighbouring module's bit. | `setConnectedModules(id, ["Buzzer_2", "Buzzer_02"])` writes Buzzer mask 4 (Buzzer_3) instead of 2 | each named module sets its own bit once (an OR) | not executed | Discovery.RepeatedModuleCarries | Discovery.RepeatedModuleMasked |
