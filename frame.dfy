/** `unpack_sm_payload`: the 256-byte rectifier telemetry frame, its fixed
    layout, its CRC check and the record decoded from it.

    Layout (byte offsets, end exclusive):
      [0,20)    header                [20,23) reserved PMActiveBit
      [23,24)   PMActiveBit           [24,136) seven 16-byte power modules
      [136,168) charging information  [168,254) padding
      [254,256) CRC, compared high byte first */
module Frame {
  import opened Bytes
  import opened Crc16

  const TotalSize: nat := 256
  const CrcCovered: nat := 254
  const HeaderLength: nat := 20
  const ModuleCount: nat := 7
  const ModuleBase: nat := 24
  const ModuleSize: nat := 16
  const ChargingInfoStart: nat := 136
  const ChargingInfoEnd: nat := 168

  /** First byte of power-module record `i` (`24 + i * 16`). */
  function ModuleStart(i: nat): nat
  {
    ModuleBase + ModuleSize * i
  }

  /** The dictionary `parse_power_module` returns. Scaled values are exact:
      `current` and `voltage` are the raw little-endian integers divided by
      ten; `ambientTemperature` is the raw integer, not divided. */
  datatype PowerModule = PowerModule(
    statusFlag1: seq<byte>,
    statusFlag2: seq<byte>,
    ambientTemperatureHex: string,
    ambientTemperature: nat,
    currentHex: string,
    current: real,
    voltageHex: string,
    voltage: real,
    reserved: seq<byte>)

  /** The `charging_related_info` dictionary. As in the source, the field
      `chargingCurrent` holds bytes [154,156) and `chargingVoltage` holds
      bytes [152,154), while the two hex renderings are labelled the other
      way round. */
  datatype ChargingInfo = ChargingInfo(
    batterySoc: seq<byte>,
    batterySoh: seq<byte>,
    reserved1: seq<byte>,
    chargingStateCount: seq<byte>,
    chargingState: nat,
    contactorStatus: string,
    demandVoltageHex: string,
    demandVoltage: real,
    demandCurrentHex: string,
    demandCurrent: real,
    positiveGunTemperature: seq<byte>,
    negativeGunTemperature: seq<byte>,
    reserved2: seq<byte>,
    chargingCurrentHex: string,
    chargingCurrent: real,
    chargingVoltageHex: string,
    chargingVoltage: real,
    chargingTimeMinute: seq<byte>,
    chargingTimeHour: seq<byte>,
    reserved3: seq<byte>,
    bstReason: seq<byte>,
    cstReason: seq<byte>,
    energyData: seq<byte>,
    reservedHighNibble: nat,
    chargeEnableBit: nat,
    reservedLowBits: nat)

  /** The dictionary `unpack_sm_payload` returns. It does not carry the CRC
      verdict: the source only reports that. */
  datatype DecodedFrame = DecodedFrame(
    header: seq<byte>,
    pmActiveBit: seq<byte>,
    reservedPmActiveBit: seq<byte>,
    powerModules: seq<PowerModule>,
    chargingInfo: ChargingInfo,
    padding: seq<byte>,
    crc1: seq<byte>,
    crc2: seq<byte>)

  /** `s[::-1].hex()`: the bytes rendered most significant first. */
  function MsbFirstHex(s: seq<byte>): string
  {
    Hex(Reverse(s))
  }

  /** A raw integer in tenths, as the physical value `raw / 10.0`. */
  function Tenths(raw: nat): real
  {
    raw as real / 10.0
  }

  // ---------------------------------------------------------------------------
  // CRC check

  /** `int.from_bytes(data[254:256], byteorder="big")` */
  function ReceivedCrc(data: seq<byte>): nat
    requires |data| == TotalSize
  {
    FromBig(data[CrcCovered..TotalSize])
  }

  /** The CRC of bytes [0,254) after the source's "reverse the bytes" step:
      `to_bytes(2, "little")`, reversed, read back big-endian. */
  function CalculatedCrc(data: seq<byte>): nat
    requires |data| == TotalSize
  {
    FromBig(Reverse(ToLittle(Crc(data[..CrcCovered]) as nat, 2)))
  }

  /** The verdict `unpack_sm_payload` reports (match or mismatch). */
  predicate CrcMatches(data: seq<byte>)
    requires |data| == TotalSize
  {
    ReceivedCrc(data) == CalculatedCrc(data)
  }

  // ---------------------------------------------------------------------------
  // Field decoding

  /** `parse_power_module(start_byte)` */
  function ParsePowerModule(data: seq<byte>, start: nat): PowerModule
    requires start + ModuleSize <= |data|
  {
    PowerModule(
      statusFlag1 := data[start..start + 1],
      statusFlag2 := data[start + 1..start + 2],
      ambientTemperatureHex := MsbFirstHex(data[start + 2..start + 4]),
      ambientTemperature := FromLittle(data[start + 2..start + 4]),
      currentHex := MsbFirstHex(data[start + 4..start + 6]),
      current := Tenths(FromLittle(data[start + 4..start + 6])),
      voltageHex := MsbFirstHex(data[start + 6..start + 8]),
      voltage := Tenths(FromLittle(data[start + 6..start + 8])),
      reserved := data[start + 8..start + 16])
  }

  /** The `power_modules` list: one record per module, in module order. */
  function PowerModules(data: seq<byte>): seq<PowerModule>
    requires |data| == TotalSize
  {
    seq(ModuleCount, i requires 0 <= i < ModuleCount => ParsePowerModule(data, ModuleStart(i)))
  }

  /** Byte 139: contactor status in the high nibble (`(b >> 4) & 0x0F`). */
  function ContactorStatus(data: seq<byte>): nat
    requires |data| == TotalSize
  {
    data[139] / 16 % 16
  }

  /** Byte 139: charging state in the low nibble (`b & 0x0F`). */
  function ChargingState(data: seq<byte>): nat
    requires |data| == TotalSize
  {
    data[139] % 16
  }

  /** Byte 138: high nibble (`(b >> 4) & 0x0F`). */
  function ReservedHighNibble(data: seq<byte>): nat
    requires |data| == TotalSize
  {
    data[138] / 16 % 16
  }

  /** Byte 138: bit 0 (`b & 0x01`). */
  function ChargeEnableBit(data: seq<byte>): nat
    requires |data| == TotalSize
  {
    data[138] % 2
  }

  /** Byte 138: bits 1 to 3 (`(b >> 1) & 0x07`). */
  function ReservedLowBits(data: seq<byte>): nat
    requires |data| == TotalSize
  {
    data[138] / 2 % 8
  }

  /** `low_nibble_binary`: the low nibble of PMActiveBit as four binary
      digits (`bin(n)[2:].zfill(4)`); the source only logs it. */
  function ActiveNibbleBinary(data: seq<byte>): string
    requires |data| == TotalSize
  {
    BinaryDigits(data[23] % 16, 4)
  }

  /** The `charging_related_info` dictionary, from bytes [136,168). */
  function ParseChargingInfo(data: seq<byte>): ChargingInfo
    requires |data| == TotalSize
  {
    ChargingInfo(
      batterySoc := data[136..137],
      batterySoh := data[137..138],
      reserved1 := data[138..139],
      chargingStateCount := data[139..140],
      chargingState := ChargingState(data),
      contactorStatus := BinaryDigits(ContactorStatus(data), 4),
      demandVoltageHex := MsbFirstHex(data[140..144]),
      demandVoltage := Tenths(FromLittle(data[140..144])),
      demandCurrentHex := MsbFirstHex(data[144..148]),
      demandCurrent := Tenths(FromLittle(data[144..148])),
      positiveGunTemperature := data[148..149],
      negativeGunTemperature := data[149..150],
      reserved2 := data[150..152],
      chargingCurrentHex := MsbFirstHex(data[152..154]),
      chargingCurrent := Tenths(FromLittle(data[154..156])),
      chargingVoltageHex := MsbFirstHex(data[154..156]),
      chargingVoltage := Tenths(FromLittle(data[152..154])),
      chargingTimeMinute := data[156..157],
      chargingTimeHour := data[157..158],
      reserved3 := data[158..160],
      bstReason := data[160..162],
      cstReason := data[162..164],
      energyData := data[164..168],
      reservedHighNibble := ReservedHighNibble(data),
      chargeEnableBit := ChargeEnableBit(data),
      reservedLowBits := ReservedLowBits(data))
  }

  /** The record decoded from a frame of the right length. */
  function DecodeFrame(data: seq<byte>): DecodedFrame
    requires |data| == TotalSize
  {
    DecodedFrame(
      header := data[..HeaderLength],
      pmActiveBit := data[23..24],
      reservedPmActiveBit := data[20..23],
      powerModules := PowerModules(data),
      chargingInfo := ParseChargingInfo(data),
      padding := data[ChargingInfoEnd..CrcCovered],
      crc1 := data[254..255],
      crc2 := data[255..256])
  }

  /** `unpack_sm_payload` as a function: `None` for a buffer of the wrong
      length, otherwise the decoded record whatever the CRC verdict. */
  function Unpack(data: seq<byte>): Option<DecodedFrame>
  {
    if |data| != TotalSize then None else Some(DecodeFrame(data))
  }

  // ---------------------------------------------------------------------------
  // The imperative decoder

  /** The `for i in range(7)` loop that appends one record per module. */
  method CollectPowerModules(data: seq<byte>) returns (modules: seq<PowerModule>)
    requires |data| == TotalSize
    ensures |modules| == ModuleCount
    ensures forall i :: 0 <= i < ModuleCount ==> modules[i] == ParsePowerModule(data, ModuleStart(i))
  {
    modules := [];
    for i := 0 to ModuleCount
      invariant |modules| == i
      invariant forall j :: 0 <= j < i ==> modules[j] == ParsePowerModule(data, ModuleStart(j))
    {
      var startByte := ModuleBase + i * ModuleSize;
      modules := modules + [ParsePowerModule(data, startByte)];
    }
  }

  /** `unpack_sm_payload`: rejects a buffer of the wrong length; otherwise
      computes the CRC verdict (which the source only prints, and which is
      returned here as `crcMatches`) and decodes the frame regardless of it. */
  method UnpackSmPayload(data: seq<byte>) returns (frame: Option<DecodedFrame>, crcMatches: bool)
    ensures frame == Unpack(data)
    ensures frame.None? <==> |data| != TotalSize
    ensures frame.Some? ==> crcMatches == CrcMatches(data)
    ensures frame.None? ==> !crcMatches
  {
    if |data| != TotalSize {
      return None, false;
    }
    var received := FromBig(data[CrcCovered..TotalSize]);
    var calculated := CalculateCrc(data[..CrcCovered]);
    NarrowKeepsValue(calculated);
    var reversed := FromBig(Reverse(ToLittle(calculated as nat, 2)));
    crcMatches := received == reversed;
    ReversalIsIdentity(calculated as nat);
    var modules := CollectPowerModules(data);
    assert modules == PowerModules(data);
    frame := Some(DecodedFrame(
      header := data[..HeaderLength],
      pmActiveBit := data[23..24],
      reservedPmActiveBit := data[20..23],
      powerModules := modules,
      chargingInfo := ParseChargingInfo(data),
      padding := data[ChargingInfoEnd..CrcCovered],
      crc1 := data[254..255],
      crc2 := data[255..256]));
  }

  // ---------------------------------------------------------------------------
  // Properties of the CRC check

  /** The "reverse the bytes" step is the identity on every 16-bit value:
      little-endian bytes, reversed, read big-endian, give the value back. */
  lemma ReversalIsIdentity(c: nat)
    requires c < 0x1_0000
    ensures FromBig(Reverse(ToLittle(c, 2))) == c
  {
    BigOfReverse(ToLittle(c, 2));
    LittleRoundTrip(c, 2);
  }

  /** So the check passes exactly when byte 254 holds the high byte and byte
      255 the low byte of the CRC of bytes [0,254). */
  lemma CrcMatchesIff(data: seq<byte>)
    requires |data| == TotalSize
    ensures CrcMatches(data) <==>
      data[254] == Crc(data[..CrcCovered]) as nat / 256 && data[255] == Crc(data[..CrcCovered]) as nat % 256
  {
    ReversalIsIdentity(Crc(data[..CrcCovered]) as nat);
    FromBig2(data[CrcCovered..TotalSize]);
  }

  /** Every 254-byte payload has a trailer that passes the check: the CRC,
      high byte first. */
  lemma SealedFrameMatches(payload: seq<byte>)
    requires |payload| == CrcCovered
    ensures var c := Crc(payload) as nat;
      |payload + [c / 256, c % 256]| == TotalSize && CrcMatches(payload + [c / 256, c % 256])
  {
    var c := Crc(payload) as nat;
    var data := payload + [c / 256, c % 256];
    assert data[..CrcCovered] == payload;
    assert data[254] == c / 256 && data[255] == c % 256;
    CrcMatchesIff(data);
  }

  /** Changing the trailer of a passing frame in any way (a flipped bit, a
      swapped byte pair) makes the check fail. */
  lemma TrailerCorruptionDetected(good: seq<byte>, bad: seq<byte>)
    requires |good| == TotalSize && |bad| == TotalSize
    requires good[..CrcCovered] == bad[..CrcCovered]
    requires good[CrcCovered..] != bad[CrcCovered..]
    requires CrcMatches(good)
    ensures !CrcMatches(bad)
  {
    CrcMatchesIff(good);
    CrcMatchesIff(bad);
    assert good[CrcCovered..] == [good[254], good[255]];
    assert bad[CrcCovered..] == [bad[254], bad[255]];
  }

  // ---------------------------------------------------------------------------
  // Properties of the decoder

  /** A mismatching CRC is only reported: any two frames that agree on bytes
      [0,254) decode to the same record except for the raw CRC1/CRC2 bytes. */
  lemma DecodeIgnoresTrailer(a: seq<byte>, b: seq<byte>)
    requires |a| == TotalSize && |b| == TotalSize
    requires a[..CrcCovered] == b[..CrcCovered]
    ensures Unpack(a).Some? && Unpack(b).Some?
    ensures DecodeFrame(a).(crc1 := b[254..255], crc2 := b[255..256]) == DecodeFrame(b)
  {
    assert forall k :: 0 <= k < CrcCovered ==> a[k] == a[..CrcCovered][k];
    assert forall k :: 0 <= k < CrcCovered ==> a[k] == b[k];
    assert PowerModules(a) == PowerModules(b) by {
      forall i | 0 <= i < ModuleCount
        ensures PowerModules(a)[i] == PowerModules(b)[i]
      {
        ModuleReadsOnlyItsBytes(a, b, i);
      }
    }
    assert a[..HeaderLength] == b[..HeaderLength];
    assert a[20..23] == b[20..23];
    assert a[23..24] == b[23..24];
    assert a[ChargingInfoEnd..CrcCovered] == b[ChargingInfoEnd..CrcCovered];
    assert a[136..168] == b[136..168];
    ChargingInfoReadsOnlyItsBytes(a, b);
  }

  /** The record that byte `p` of [24,136) belongs to. */
  function ModuleOf(p: nat): nat
    requires ModuleBase <= p
  {
    (p - ModuleBase) / ModuleSize
  }

  /** The seven records lie inside [24,136), do not overlap, and together
      cover every byte of [24,136): each such byte lies in record
      `ModuleOf(p)`. The last record ends where the charging information
      starts. */
  lemma ModulesTileTheirRange()
    ensures forall i :: 0 <= i < ModuleCount ==>
      ModuleBase <= ModuleStart(i) && ModuleStart(i) + ModuleSize <= ChargingInfoStart
    ensures ModuleStart(0) == ModuleBase && ModuleStart(ModuleCount - 1) + ModuleSize == ChargingInfoStart
    ensures forall i, j :: 0 <= i < j < ModuleCount ==> ModuleStart(i) + ModuleSize <= ModuleStart(j)
    ensures forall p :: ModuleBase <= p < ChargingInfoStart ==>
      ModuleOf(p) < ModuleCount && ModuleStart(ModuleOf(p)) <= p < ModuleStart(ModuleOf(p)) + ModuleSize
  {
  }

  /** Module `i` reads only bytes [24+16i, 40+16i). */
  lemma ModuleReadsOnlyItsBytes(a: seq<byte>, b: seq<byte>, i: nat)
    requires |a| == TotalSize && |b| == TotalSize && i < ModuleCount
    requires a[ModuleStart(i)..ModuleStart(i) + ModuleSize] == b[ModuleStart(i)..ModuleStart(i) + ModuleSize]
    ensures ParsePowerModule(a, ModuleStart(i)) == ParsePowerModule(b, ModuleStart(i))
  {
    var s := ModuleStart(i);
    forall k | s <= k < s + ModuleSize
      ensures a[k] == b[k]
    {
      assert a[k] == a[s..s + ModuleSize][k - s];
      assert b[k] == b[s..s + ModuleSize][k - s];
    }
    assert a[s..s + 1] == b[s..s + 1];
    assert a[s + 1..s + 2] == b[s + 1..s + 2];
    assert a[s + 2..s + 4] == b[s + 2..s + 4];
    assert a[s + 4..s + 6] == b[s + 4..s + 6];
    assert a[s + 6..s + 8] == b[s + 6..s + 8];
    assert a[s + 8..s + 16] == b[s + 8..s + 16];
  }

  /** The charging information reads only bytes [136,168). */
  lemma ChargingInfoReadsOnlyItsBytes(a: seq<byte>, b: seq<byte>)
    requires |a| == TotalSize && |b| == TotalSize
    requires a[ChargingInfoStart..ChargingInfoEnd] == b[ChargingInfoStart..ChargingInfoEnd]
    ensures ParseChargingInfo(a) == ParseChargingInfo(b)
  {
    forall k | ChargingInfoStart <= k < ChargingInfoEnd
      ensures a[k] == b[k]
    {
      assert a[k] == a[ChargingInfoStart..ChargingInfoEnd][k - ChargingInfoStart];
      assert b[k] == b[ChargingInfoStart..ChargingInfoEnd][k - ChargingInfoStart];
    }
    assert a[136..137] == b[136..137] && a[137..138] == b[137..138];
    assert a[138..139] == b[138..139] && a[139..140] == b[139..140];
    assert a[140..144] == b[140..144] && a[144..148] == b[144..148];
    assert a[148..149] == b[148..149] && a[149..150] == b[149..150];
    assert a[150..152] == b[150..152] && a[152..154] == b[152..154];
    assert a[154..156] == b[154..156] && a[156..157] == b[156..157];
    assert a[157..158] == b[157..158] && a[158..160] == b[158..160];
    assert a[160..162] == b[160..162] && a[162..164] == b[162..164];
    assert a[164..168] == b[164..168];
  }

  /** The decoded frame holds the seven records in module order. */
  lemma DecodedModules(data: seq<byte>)
    requires |data| == TotalSize
    ensures |DecodeFrame(data).powerModules| == ModuleCount
    ensures forall i :: 0 <= i < ModuleCount ==>
      DecodeFrame(data).powerModules[i] == ParsePowerModule(data, ModuleStart(i))
  {
  }

  /** The values of the module record at `s`, in terms of the frame's bytes:
      little-endian 16-bit integers at s+2, s+4 and s+6; current and voltage
      divided by ten, ambient temperature not. */
  lemma PowerModuleValues(data: seq<byte>, s: nat)
    requires s + ModuleSize <= |data|
    ensures var m := ParsePowerModule(data, s);
      && m.statusFlag1 == [data[s]] && m.statusFlag2 == [data[s + 1]]
      && m.ambientTemperature == data[s + 2] as nat + 256 * data[s + 3] as nat
      && m.ambientTemperature < 0x1_0000
      && m.current == (data[s + 4] as nat + 256 * data[s + 5] as nat) as real / 10.0
      && m.voltage == (data[s + 6] as nat + 256 * data[s + 7] as nat) as real / 10.0
      && m.reserved == data[s + 8..s + 16]
  {
    FromLittle2(data[s + 2..s + 4]);
    FromLittle2(data[s + 4..s + 6]);
    FromLittle2(data[s + 6..s + 8]);
  }

  /** Each hex field of the module record at `s` is four characters that
      parse back, base 16, to the raw value of its two bytes. */
  lemma PowerModuleHex(data: seq<byte>, s: nat)
    requires s + ModuleSize <= |data|
    ensures var m := ParsePowerModule(data, s);
      && |m.ambientTemperatureHex| == 4 && |m.currentHex| == 4 && |m.voltageHex| == 4
      && ParseInt(m.ambientTemperatureHex, 16) == Some(m.ambientTemperature)
      && ParseInt(m.currentHex, 16) == Some(FromLittle(data[s + 4..s + 6]))
      && ParseInt(m.voltageHex, 16) == Some(FromLittle(data[s + 6..s + 8]))
  {
    HexOfReversed(data[s + 2..s + 4]);
    HexOfReversed(data[s + 4..s + 6]);
    HexOfReversed(data[s + 6..s + 8]);
  }

  /** Byte 139 splits into two nibbles with nothing lost; the contactor
      status is rendered as four binary digits that parse back to it. */
  lemma ChargingStateSplit(data: seq<byte>)
    requires |data| == TotalSize
    ensures var c := ParseChargingInfo(data);
      && ContactorStatus(data) < 16 && c.chargingState < 16
      && ContactorStatus(data) * 16 + c.chargingState == data[139]
      && |c.contactorStatus| == 4
      && ParseInt(c.contactorStatus, 2) == Some(ContactorStatus(data))
  {
    var b: nat := data[139];
    assert b / 16 % 16 == b / 16;
    BinaryRoundTrip(ContactorStatus(data), 4);
  }

  /** Byte 138 splits into a high nibble, three reserved bits and the
      charge-enable bit with nothing lost. */
  lemma Reserved1Split(data: seq<byte>)
    requires |data| == TotalSize
    ensures var c := ParseChargingInfo(data);
      && c.reservedHighNibble < 16 && c.reservedLowBits < 8 && c.chargeEnableBit < 2
      && c.reservedHighNibble * 16 + c.reservedLowBits * 2 + c.chargeEnableBit == data[138]
  {
    var b: nat := data[138];
    assert b / 16 % 16 == b / 16;
    assert b == (b / 16) * 16 + (b / 2 % 8) * 2 + b % 2;
  }

  /** The PMActiveBit low nibble is logged as four binary digits that parse
      back to the nibble. */
  lemma ActiveNibbleRendering(data: seq<byte>)
    requires |data| == TotalSize
    ensures |ActiveNibbleBinary(data)| == 4
    ensures ParseInt(ActiveNibbleBinary(data), 2) == Some(data[23] % 16)
  {
    BinaryRoundTrip(data[23] % 16, 4);
  }

  /** The demand and charging values, in terms of the frame's bytes: demand
      voltage and current are 32-bit little-endian values at 140 and 144;
      `chargingCurrent` is read from [154,156) and `chargingVoltage` from
      [152,154); all four are divided by ten; each hex field parses back to
      the raw value of the bytes its name labels. */
  lemma ChargingValues(data: seq<byte>)
    requires |data| == TotalSize
    ensures var c := ParseChargingInfo(data);
      && c.demandVoltage == FromLittle(data[140..144]) as real / 10.0
      && FromLittle(data[140..144]) < 0x1_0000_0000
      && c.demandCurrent == FromLittle(data[144..148]) as real / 10.0
      && FromLittle(data[144..148]) < 0x1_0000_0000
      && c.chargingCurrent == (data[154] as nat + 256 * data[155] as nat) as real / 10.0
      && c.chargingVoltage == (data[152] as nat + 256 * data[153] as nat) as real / 10.0
      && |c.demandVoltageHex| == 8 && ParseInt(c.demandVoltageHex, 16) == Some(FromLittle(data[140..144]))
      && |c.demandCurrentHex| == 8 && ParseInt(c.demandCurrentHex, 16) == Some(FromLittle(data[144..148]))
      && |c.chargingCurrentHex| == 4 && ParseInt(c.chargingCurrentHex, 16) == Some(FromLittle(data[152..154]))
      && |c.chargingVoltageHex| == 4 && ParseInt(c.chargingVoltageHex, 16) == Some(FromLittle(data[154..156]))
  {
    FromLittle4(data[140..144]);
    FromLittle4(data[144..148]);
    FromLittle2(data[152..154]);
    FromLittle2(data[154..156]);
    HexOfReversed(data[140..144]);
    HexOfReversed(data[144..148]);
    HexOfReversed(data[152..154]);
    HexOfReversed(data[154..156]);
  }
}
