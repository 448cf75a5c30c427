/** An encoder for the rectifier frame: it writes every field of a decoded
    record back at its offset. It is a left inverse of `unpack_sm_payload`:
    decoding then encoding gives back the original 256 bytes, so the decoder
    loses nothing (the nibble splits, the scalings by ten and the swapped
    charging current/voltage fields can all be undone). On canonical records,
    whose derived text fields agree with their values, it is also a right
    inverse: encoding then decoding gives back the record. */
module FrameEncoder {
  import opened Bytes
  import opened Frame

  /** The raw integer behind a value in tenths. */
  function RawTenths(x: real): int
  {
    (x * 10.0).Floor
  }

  /** `x` is `raw / 10.0` for a raw integer that fits in `k` bytes. */
  predicate FitsTenths(x: real, k: nat)
  {
    0 <= RawTenths(x) < Pow256(k) && RawTenths(x) as real == x * 10.0
  }

  lemma TenthsRoundTrip(raw: nat, k: nat)
    requires raw < Pow256(k)
    ensures FitsTenths(Tenths(raw), k) && RawTenths(Tenths(raw)) == raw
  {
    assert Tenths(raw) * 10.0 == raw as real;
  }

  predicate ModuleWellFormed(m: PowerModule)
  {
    && |m.statusFlag1| == 1 && |m.statusFlag2| == 1
    && m.ambientTemperature < Pow256(2)
    && FitsTenths(m.current, 2) && FitsTenths(m.voltage, 2)
    && |m.reserved| == 8
  }

  /** Bytes [136,140): state of charge, state of health, and the split
      fields of bytes 138 and 139. */
  predicate StatusWellFormed(c: ChargingInfo)
  {
    && |c.batterySoc| == 1 && |c.batterySoh| == 1
    && c.reservedHighNibble < 16 && c.reservedLowBits < 8 && c.chargeEnableBit < 2
    && ParseInt(c.contactorStatus, 2).Some? && ParseInt(c.contactorStatus, 2).value < 16
    && c.chargingState < 16
  }

  predicate DemandWellFormed(c: ChargingInfo)
  {
    FitsTenths(c.demandVoltage, 4) && FitsTenths(c.demandCurrent, 4)
  }

  predicate GunWellFormed(c: ChargingInfo)
  {
    |c.positiveGunTemperature| == 1 && |c.negativeGunTemperature| == 1 && |c.reserved2| == 2
  }

  predicate OutputWellFormed(c: ChargingInfo)
  {
    FitsTenths(c.chargingVoltage, 2) && FitsTenths(c.chargingCurrent, 2)
  }

  predicate TrailingWellFormed(c: ChargingInfo)
  {
    && |c.chargingTimeMinute| == 1 && |c.chargingTimeHour| == 1 && |c.reserved3| == 2
    && |c.bstReason| == 2 && |c.cstReason| == 2 && |c.energyData| == 4
  }

  predicate ChargingWellFormed(c: ChargingInfo)
  {
    StatusWellFormed(c) && DemandWellFormed(c) && GunWellFormed(c)
    && OutputWellFormed(c) && TrailingWellFormed(c)
  }

  /** Every field has the width its slot in the frame has. */
  predicate WellFormed(f: DecodedFrame)
  {
    && |f.header| == HeaderLength && |f.reservedPmActiveBit| == 3 && |f.pmActiveBit| == 1
    && |f.powerModules| == ModuleCount
    && (forall i :: 0 <= i < |f.powerModules| ==> ModuleWellFormed(f.powerModules[i]))
    && ChargingWellFormed(f.chargingInfo)
    && |f.padding| == CrcCovered - ChargingInfoEnd && |f.crc1| == 1 && |f.crc2| == 1
  }

  /** A well-formed module record whose hex renderings are the ones the
      decoder writes for its values. */
  predicate ModuleCanonical(m: PowerModule)
    requires ModuleWellFormed(m)
  {
    && m.ambientTemperatureHex == MsbFirstHex(ToLittle(m.ambientTemperature, 2))
    && m.currentHex == MsbFirstHex(ToLittle(RawTenths(m.current), 2))
    && m.voltageHex == MsbFirstHex(ToLittle(RawTenths(m.voltage), 2))
  }

  /** The raw bytes 138 and 139 agree with their split fields, and the
      contactor status is the four-digit rendering of its value. */
  predicate StatusCanonical(c: ChargingInfo)
    requires StatusWellFormed(c)
  {
    && c.reserved1 == [Reserved1Byte(c)]
    && c.chargingStateCount == [StateCountByte(c)]
    && c.contactorStatus == BinaryDigits(ParseInt(c.contactorStatus, 2).value, 4)
  }

  /** The demand renderings are the ones the decoder writes. */
  predicate DemandCanonical(c: ChargingInfo)
    requires DemandWellFormed(c)
  {
    && c.demandVoltageHex == MsbFirstHex(ToLittle(RawTenths(c.demandVoltage), 4))
    && c.demandCurrentHex == MsbFirstHex(ToLittle(RawTenths(c.demandCurrent), 4))
  }

  /** The output renderings are the ones the decoder writes:
      `chargingCurrentHex` renders the bytes that hold `chargingVoltage`,
      and the other way round. */
  predicate OutputCanonical(c: ChargingInfo)
    requires OutputWellFormed(c)
  {
    && c.chargingCurrentHex == MsbFirstHex(ToLittle(RawTenths(c.chargingVoltage), 2))
    && c.chargingVoltageHex == MsbFirstHex(ToLittle(RawTenths(c.chargingCurrent), 2))
  }

  predicate ChargingCanonical(c: ChargingInfo)
    requires ChargingWellFormed(c)
  {
    StatusCanonical(c) && DemandCanonical(c) && OutputCanonical(c)
  }

  /** A well-formed record in which every derived field (hex and binary
      renderings, raw copies of split bytes) agrees with the value it
      accompanies: exactly the records the decoder produces. */
  predicate Canonical(f: DecodedFrame)
  {
    && WellFormed(f)
    && (forall i :: 0 <= i < |f.powerModules| ==> ModuleCanonical(f.powerModules[i]))
    && ChargingCanonical(f.chargingInfo)
  }

  /** The 16 bytes of one power-module record. */
  function EncodeModule(m: PowerModule): (r: seq<byte>)
    requires ModuleWellFormed(m)
    ensures |r| == ModuleSize
  {
    m.statusFlag1 + m.statusFlag2
      + ToLittle(m.ambientTemperature, 2)
      + ToLittle(RawTenths(m.current), 2)
      + ToLittle(RawTenths(m.voltage), 2)
      + m.reserved
  }

  function EncodeModules(ms: seq<PowerModule>): (r: seq<byte>)
    requires forall i :: 0 <= i < |ms| ==> ModuleWellFormed(ms[i])
    ensures |r| == ModuleSize * |ms|
  {
    if ms == [] then [] else EncodeModule(ms[0]) + EncodeModules(ms[1..])
  }

  /** Byte 138 rebuilt from its high nibble, three reserved bits and the
      charge-enable bit. */
  function Reserved1Byte(c: ChargingInfo): byte
    requires StatusWellFormed(c)
  {
    c.reservedHighNibble * 16 + c.reservedLowBits * 2 + c.chargeEnableBit
  }

  /** Byte 139 rebuilt from the contactor status and the charging state. */
  function StateCountByte(c: ChargingInfo): byte
    requires StatusWellFormed(c)
  {
    ParseInt(c.contactorStatus, 2).value * 16 + c.chargingState
  }

  /** Bytes [136,140), with 138 and 139 rebuilt from their split fields. */
  function EncodeStatus(c: ChargingInfo): (r: seq<byte>)
    requires StatusWellFormed(c)
    ensures |r| == 4
  {
    c.batterySoc + c.batterySoh + [Reserved1Byte(c)] + [StateCountByte(c)]
  }

  /** Bytes [140,148): demand voltage, then demand current. */
  function EncodeDemand(c: ChargingInfo): (r: seq<byte>)
    requires DemandWellFormed(c)
    ensures |r| == 8
  {
    ToLittle(RawTenths(c.demandVoltage), 4) + ToLittle(RawTenths(c.demandCurrent), 4)
  }

  /** Bytes [148,152). */
  function EncodeGun(c: ChargingInfo): (r: seq<byte>)
    requires GunWellFormed(c)
    ensures |r| == 4
  {
    c.positiveGunTemperature + c.negativeGunTemperature + c.reserved2
  }

  /** Bytes [152,156): `chargingVoltage` goes to [152,154) and
      `chargingCurrent` to [154,156), where the decoder took them from. */
  function EncodeOutput(c: ChargingInfo): (r: seq<byte>)
    requires OutputWellFormed(c)
    ensures |r| == 4
  {
    ToLittle(RawTenths(c.chargingVoltage), 2) + ToLittle(RawTenths(c.chargingCurrent), 2)
  }

  /** Bytes [156,168). */
  function EncodeTrailing(c: ChargingInfo): (r: seq<byte>)
    requires TrailingWellFormed(c)
    ensures |r| == 12
  {
    c.chargingTimeMinute + c.chargingTimeHour + c.reserved3 + c.bstReason + c.cstReason + c.energyData
  }

  /** The 32 bytes of the charging information. */
  function EncodeChargingInfo(c: ChargingInfo): (r: seq<byte>)
    requires ChargingWellFormed(c)
    ensures |r| == ChargingInfoEnd - ChargingInfoStart
  {
    EncodeStatus(c) + EncodeDemand(c) + EncodeGun(c) + EncodeOutput(c) + EncodeTrailing(c)
  }

  /** The whole 256-byte frame. */
  function Encode(f: DecodedFrame): (r: seq<byte>)
    requires WellFormed(f)
    ensures |r| == TotalSize
  {
    f.header + f.reservedPmActiveBit + f.pmActiveBit
      + EncodeModules(f.powerModules)
      + EncodeChargingInfo(f.chargingInfo)
      + f.padding + f.crc1 + f.crc2
  }

  // ---------------------------------------------------------------------------
  // Decoding loses nothing

  lemma ModuleRoundTrip(data: seq<byte>, s: nat)
    requires s + ModuleSize <= |data|
    ensures ModuleWellFormed(ParsePowerModule(data, s))
    ensures EncodeModule(ParsePowerModule(data, s)) == data[s..s + ModuleSize]
  {
    var m := ParsePowerModule(data, s);
    LittleBytesRoundTrip(data[s + 2..s + 4]);
    LittleBytesRoundTrip(data[s + 4..s + 6]);
    LittleBytesRoundTrip(data[s + 6..s + 8]);
    TenthsRoundTrip(FromLittle(data[s + 4..s + 6]), 2);
    TenthsRoundTrip(FromLittle(data[s + 6..s + 8]), 2);
    assert data[s..s + 1] + data[s + 1..s + 2] + data[s + 2..s + 4] + data[s + 4..s + 6]
      + data[s + 6..s + 8] + data[s + 8..s + 16] == data[s..s + ModuleSize];
  }

  lemma ModulesWellFormed(data: seq<byte>)
    requires |data| == TotalSize
    ensures forall i :: 0 <= i < |PowerModules(data)| ==> ModuleWellFormed(PowerModules(data)[i])
  {
    forall i | 0 <= i < |PowerModules(data)|
      ensures ModuleWellFormed(PowerModules(data)[i])
    {
      ModuleRoundTrip(data, ModuleStart(i));
    }
  }

  /** Records j..6 encode to bytes [24+16j, 136). */
  lemma {:induction false} ModulesRoundTrip(data: seq<byte>, j: nat)
    requires |data| == TotalSize && j <= ModuleCount
    requires forall i :: 0 <= i < |PowerModules(data)| ==> ModuleWellFormed(PowerModules(data)[i])
    ensures EncodeModules(PowerModules(data)[j..]) == data[ModuleStart(j)..ChargingInfoStart]
    decreases ModuleCount - j
  {
    if j < ModuleCount {
      var ms := PowerModules(data)[j..];
      assert ms[1..] == PowerModules(data)[j + 1..];
      assert EncodeModules(ms[1..]) == data[ModuleStart(j + 1)..ChargingInfoStart] by {
        ModulesRoundTrip(data, j + 1);
      }
      assert EncodeModule(ms[0]) == data[ModuleStart(j)..ModuleStart(j + 1)] by {
        ModuleRoundTrip(data, ModuleStart(j));
      }
      Join(data, ModuleStart(j), ModuleStart(j + 1), ChargingInfoStart);
    }
  }

  /** Adjacent slices join. */
  lemma Join(d: seq<byte>, i: nat, j: nat, k: nat)
    requires i <= j <= k <= |d|
    ensures d[i..j] + d[j..k] == d[i..k]
  {
  }

  /** A slice of a slice is a slice of the whole. */
  lemma SubSlice(d: seq<byte>, i: nat, j: nat, a: nat, b: nat)
    requires i <= j <= |d| && a <= b <= j - i
    ensures d[i..j][a..b] == d[i + a..i + b]
  {
    forall k | 0 <= k < b - a
      ensures d[i..j][a..b][k] == d[i + a..i + b][k]
    {
      assert d[i..j][a..b][k] == d[i..j][a + k] == d[i + a + k];
    }
  }

  /** The converse of `Join`: a slice equal to a concatenation splits at
      the length of its first part. */
  lemma Split(d: seq<byte>, i: nat, a: seq<byte>, b: seq<byte>)
    requires i + |a| + |b| <= |d| && d[i..i + |a| + |b|] == a + b
    ensures d[i..i + |a|] == a && d[i + |a|..i + |a| + |b|] == b
  {
    Join(d, i, i + |a|, i + |a| + |b|);
    assert (a + b)[..|a|] == a && (a + b)[|a|..] == b;
    assert d[i..i + |a|] == (d[i..i + |a|] + d[i + |a|..i + |a| + |b|])[..|a|];
  }

  lemma StatusRoundTrip(data: seq<byte>)
    requires |data| == TotalSize
    ensures StatusWellFormed(ParseChargingInfo(data))
    ensures EncodeStatus(ParseChargingInfo(data)) == data[136..140]
  {
    ChargingStateSplit(data);
    Reserved1Split(data);
    assert data[136..137] + data[137..138] + data[138..139] + data[139..140] == data[136..140];
  }

  lemma DemandRoundTrip(data: seq<byte>)
    requires |data| == TotalSize
    ensures DemandWellFormed(ParseChargingInfo(data))
    ensures EncodeDemand(ParseChargingInfo(data)) == data[140..148]
  {
    LittleBytesRoundTrip(data[140..144]);
    LittleBytesRoundTrip(data[144..148]);
    TenthsRoundTrip(FromLittle(data[140..144]), 4);
    TenthsRoundTrip(FromLittle(data[144..148]), 4);
    Join(data, 140, 144, 148);
  }

  lemma GunRoundTrip(data: seq<byte>)
    requires |data| == TotalSize
    ensures GunWellFormed(ParseChargingInfo(data))
    ensures EncodeGun(ParseChargingInfo(data)) == data[148..152]
  {
    assert data[148..149] + data[149..150] + data[150..152] == data[148..152];
  }

  lemma OutputRoundTrip(data: seq<byte>)
    requires |data| == TotalSize
    ensures OutputWellFormed(ParseChargingInfo(data))
    ensures EncodeOutput(ParseChargingInfo(data)) == data[152..156]
  {
    LittleBytesRoundTrip(data[152..154]);
    LittleBytesRoundTrip(data[154..156]);
    TenthsRoundTrip(FromLittle(data[152..154]), 2);
    TenthsRoundTrip(FromLittle(data[154..156]), 2);
    Join(data, 152, 154, 156);
  }

  lemma TrailingRoundTrip(data: seq<byte>)
    requires |data| == TotalSize
    ensures TrailingWellFormed(ParseChargingInfo(data))
    ensures EncodeTrailing(ParseChargingInfo(data)) == data[156..168]
  {
    assert data[156..157] + data[157..158] + data[158..160] + data[160..162] + data[162..164] + data[164..168]
      == data[156..168];
  }

  lemma ChargingRoundTrip(data: seq<byte>)
    requires |data| == TotalSize
    ensures ChargingWellFormed(ParseChargingInfo(data))
    ensures EncodeChargingInfo(ParseChargingInfo(data)) == data[ChargingInfoStart..ChargingInfoEnd]
  {
    StatusRoundTrip(data);
    DemandRoundTrip(data);
    GunRoundTrip(data);
    OutputRoundTrip(data);
    TrailingRoundTrip(data);
    Join(data, 136, 140, 148);
    Join(data, 136, 148, 152);
    Join(data, 136, 152, 156);
    Join(data, 136, 156, 168);
  }

  /** Encoding the record decoded from any 256-byte frame gives back the
      frame: every byte, including padding and CRC, is kept by the decoder. */
  lemma EncodeInvertsDecode(data: seq<byte>)
    requires |data| == TotalSize
    ensures WellFormed(DecodeFrame(data))
    ensures Encode(DecodeFrame(data)) == data
  {
    var f := DecodeFrame(data);
    ModulesWellFormed(data);
    ChargingRoundTrip(data);
    assert EncodeModules(f.powerModules) == data[24..136] by {
      ModulesRoundTrip(data, 0);
      assert PowerModules(data)[0..] == f.powerModules;
    }
    assert Encode(f) == data[0..20] + data[20..23] + data[23..24] + data[24..136] + data[136..168]
      + data[168..254] + data[254..255] + data[255..256];
    Join(data, 0, 20, 23);
    Join(data, 0, 23, 24);
    Join(data, 0, 24, 136);
    Join(data, 0, 136, 168);
    Join(data, 0, 168, 254);
    Join(data, 0, 254, 255);
    Join(data, 0, 255, 256);
    assert data[0..256] == data;
  }

  /** Hence two frames that decode to the same record are the same frame. */
  lemma DecodeIsInjective(a: seq<byte>, b: seq<byte>)
    requires |a| == TotalSize && |b| == TotalSize
    requires DecodeFrame(a) == DecodeFrame(b)
    ensures a == b
  {
    EncodeInvertsDecode(a);
    EncodeInvertsDecode(b);
  }

  // ---------------------------------------------------------------------------
  // Encoding loses nothing on canonical records

  /** A value in tenths is recovered from its raw integer. */
  lemma TenthsOfRaw(x: real, k: nat)
    requires FitsTenths(x, k)
    ensures Tenths(RawTenths(x)) == x
  {
  }

  /** Decoding the 16 bytes of an encoded canonical module record gives it back. */
  lemma ModuleDecodesBack(data: seq<byte>, s: nat, m: PowerModule)
    requires s + ModuleSize <= |data| && ModuleWellFormed(m) && ModuleCanonical(m)
    requires data[s..s + ModuleSize] == EncodeModule(m)
    ensures ParsePowerModule(data, s) == m
  {
    var t := ToLittle(m.ambientTemperature, 2);
    var c := ToLittle(RawTenths(m.current), 2);
    var v := ToLittle(RawTenths(m.voltage), 2);
    var f := m.statusFlag1 + m.statusFlag2;
    Split(data, s, f + t + c + v, m.reserved);
    Split(data, s, f + t + c, v);
    Split(data, s, f + t, c);
    Split(data, s, f, t);
    Split(data, s, m.statusFlag1, m.statusFlag2);
    LittleRoundTrip(m.ambientTemperature, 2);
    LittleRoundTrip(RawTenths(m.current), 2);
    LittleRoundTrip(RawTenths(m.voltage), 2);
    TenthsOfRaw(m.current, 2);
    TenthsOfRaw(m.voltage, 2);
  }

  /** Record i's encoding sits at offset 16i of the encoded list. */
  lemma {:induction false} EncodedModuleAt(ms: seq<PowerModule>, i: nat)
    requires forall j :: 0 <= j < |ms| ==> ModuleWellFormed(ms[j])
    requires i < |ms|
    ensures EncodeModules(ms)[ModuleSize * i..ModuleSize * i + ModuleSize] == EncodeModule(ms[i])
    decreases i
  {
    var head := EncodeModule(ms[0]);
    var rest := EncodeModules(ms[1..]);
    assert EncodeModules(ms) == head + rest;
    if i > 0 {
      EncodedModuleAt(ms[1..], i - 1);
      assert (head + rest)[ModuleSize * i..ModuleSize * i + ModuleSize]
        == rest[ModuleSize * (i - 1)..ModuleSize * (i - 1) + ModuleSize];
    }
  }

  /** Decoding an encoded list of seven canonical records gives it back. */
  lemma {:induction false} ModulesDecodeBack(data: seq<byte>, ms: seq<PowerModule>)
    requires |data| == TotalSize && |ms| == ModuleCount
    requires forall i :: 0 <= i < |ms| ==> ModuleWellFormed(ms[i]) && ModuleCanonical(ms[i])
    requires data[ModuleBase..ChargingInfoStart] == EncodeModules(ms)
    ensures PowerModules(data) == ms
  {
    forall i | 0 <= i < ModuleCount
      ensures PowerModules(data)[i] == ms[i]
    {
      ModuleAtDecodesBack(data, ms, i);
    }
  }

  lemma ModuleAtDecodesBack(data: seq<byte>, ms: seq<PowerModule>, i: nat)
    requires |data| == TotalSize && |ms| == ModuleCount && i < ModuleCount
    requires forall i :: 0 <= i < |ms| ==> ModuleWellFormed(ms[i]) && ModuleCanonical(ms[i])
    requires data[ModuleBase..ChargingInfoStart] == EncodeModules(ms)
    ensures ParsePowerModule(data, ModuleStart(i)) == ms[i]
  {
    var s := ModuleStart(i);
    EncodedModuleAt(ms, i);
    SubSlice(data, ModuleBase, ChargingInfoStart, ModuleSize * i, ModuleSize * i + ModuleSize);
    ModuleDecodesBack(data, s, ms[i]);
  }

  /** Byte 138's fields are recovered from the byte they are packed into. */
  lemma Reserved1Fields(h: nat, l: nat, en: nat)
    requires h < 16 && l < 8 && en < 2
    ensures (h * 16 + l * 2 + en) / 16 % 16 == h
    ensures (h * 16 + l * 2 + en) % 2 == en
    ensures (h * 16 + l * 2 + en) / 2 % 8 == l
  {
    var b := h * 16 + l * 2 + en;
    assert b / 2 == h * 8 + l;
  }

  /** Byte 139's nibbles are recovered from the byte they are packed into. */
  lemma StateCountFields(ct: nat, st: nat)
    requires ct < 16 && st < 16
    ensures (ct * 16 + st) / 16 % 16 == ct && (ct * 16 + st) % 16 == st
  {
  }

  /** Where `EncodeStatus` puts each of its four bytes. */
  lemma StatusBytes(data: seq<byte>, c: ChargingInfo)
    requires |data| == TotalSize && StatusWellFormed(c)
    requires data[136..140] == EncodeStatus(c)
    ensures data[136..137] == c.batterySoc && data[137..138] == c.batterySoh
    ensures data[138..139] == [Reserved1Byte(c)] && data[139..140] == [StateCountByte(c)]
    ensures data[138] == Reserved1Byte(c) && data[139] == StateCountByte(c)
  {
    var soc, soh := c.batterySoc, c.batterySoh;
    Split(data, 136, soc + soh + [Reserved1Byte(c)], [StateCountByte(c)]);
    Split(data, 136, soc + soh, [Reserved1Byte(c)]);
    Split(data, 136, soc, soh);
    assert data[138] == data[138..139][0];
    assert data[139] == data[139..140][0];
  }

  /** Bytes [136,140) decode back to SOC, SOH, the raw bytes 138 and 139
      and their split fields. */
  lemma StatusDecodesBack(data: seq<byte>, c: ChargingInfo)
    requires |data| == TotalSize && StatusWellFormed(c) && StatusCanonical(c)
    requires data[136..140] == EncodeStatus(c)
    ensures var p := ParseChargingInfo(data);
      && p.batterySoc == c.batterySoc && p.batterySoh == c.batterySoh
      && p.reserved1 == c.reserved1 && p.chargingStateCount == c.chargingStateCount
      && p.chargingState == c.chargingState && p.contactorStatus == c.contactorStatus
      && p.reservedHighNibble == c.reservedHighNibble && p.chargeEnableBit == c.chargeEnableBit
      && p.reservedLowBits == c.reservedLowBits
  {
    StatusBytes(data, c);
    Reserved1Fields(c.reservedHighNibble, c.reservedLowBits, c.chargeEnableBit);
    StateCountFields(ParseInt(c.contactorStatus, 2).value, c.chargingState);
  }

  /** Bytes [140,148) decode back to the demand values and their renderings. */
  lemma DemandDecodesBack(data: seq<byte>, c: ChargingInfo)
    requires |data| == TotalSize && DemandWellFormed(c) && DemandCanonical(c)
    requires data[140..148] == EncodeDemand(c)
    ensures var p := ParseChargingInfo(data);
      && p.demandVoltageHex == c.demandVoltageHex && p.demandVoltage == c.demandVoltage
      && p.demandCurrentHex == c.demandCurrentHex && p.demandCurrent == c.demandCurrent
  {
    Split(data, 140, ToLittle(RawTenths(c.demandVoltage), 4), ToLittle(RawTenths(c.demandCurrent), 4));
    LittleRoundTrip(RawTenths(c.demandVoltage), 4);
    LittleRoundTrip(RawTenths(c.demandCurrent), 4);
    TenthsOfRaw(c.demandVoltage, 4);
    TenthsOfRaw(c.demandCurrent, 4);
  }

  /** Bytes [148,152) decode back to the gun temperatures and reserved_2. */
  lemma GunDecodesBack(data: seq<byte>, c: ChargingInfo)
    requires |data| == TotalSize && GunWellFormed(c)
    requires data[148..152] == EncodeGun(c)
    ensures var p := ParseChargingInfo(data);
      && p.positiveGunTemperature == c.positiveGunTemperature
      && p.negativeGunTemperature == c.negativeGunTemperature
      && p.reserved2 == c.reserved2
  {
    var pos, neg := c.positiveGunTemperature, c.negativeGunTemperature;
    Split(data, 148, pos + neg, c.reserved2);
    Split(data, 148, pos, neg);
  }

  /** Bytes [152,156) decode back to the swapped charging values and their
      renderings. */
  lemma OutputDecodesBack(data: seq<byte>, c: ChargingInfo)
    requires |data| == TotalSize && OutputWellFormed(c) && OutputCanonical(c)
    requires data[152..156] == EncodeOutput(c)
    ensures var p := ParseChargingInfo(data);
      && p.chargingCurrentHex == c.chargingCurrentHex && p.chargingCurrent == c.chargingCurrent
      && p.chargingVoltageHex == c.chargingVoltageHex && p.chargingVoltage == c.chargingVoltage
  {
    Split(data, 152, ToLittle(RawTenths(c.chargingVoltage), 2), ToLittle(RawTenths(c.chargingCurrent), 2));
    LittleRoundTrip(RawTenths(c.chargingVoltage), 2);
    LittleRoundTrip(RawTenths(c.chargingCurrent), 2);
    TenthsOfRaw(c.chargingVoltage, 2);
    TenthsOfRaw(c.chargingCurrent, 2);
  }

  /** Bytes [156,168) decode back to the remaining raw fields. */
  lemma TrailingDecodesBack(data: seq<byte>, c: ChargingInfo)
    requires |data| == TotalSize && TrailingWellFormed(c)
    requires data[156..168] == EncodeTrailing(c)
    ensures var p := ParseChargingInfo(data);
      && p.chargingTimeMinute == c.chargingTimeMinute && p.chargingTimeHour == c.chargingTimeHour
      && p.reserved3 == c.reserved3 && p.bstReason == c.bstReason
      && p.cstReason == c.cstReason && p.energyData == c.energyData
  {
    var mi, hr, r3, bst, cst := c.chargingTimeMinute, c.chargingTimeHour, c.reserved3, c.bstReason, c.cstReason;
    Split(data, 156, mi + hr + r3 + bst + cst, c.energyData);
    Split(data, 156, mi + hr + r3 + bst, cst);
    Split(data, 156, mi + hr + r3, bst);
    Split(data, 156, mi + hr, r3);
    Split(data, 156, mi, hr);
  }

  /** Decoding encoded canonical charging information gives it back. */
  lemma ChargingDecodesBack(data: seq<byte>, c: ChargingInfo)
    requires |data| == TotalSize && ChargingWellFormed(c) && ChargingCanonical(c)
    requires data[ChargingInfoStart..ChargingInfoEnd] == EncodeChargingInfo(c)
    ensures ParseChargingInfo(data) == c
  {
    var st, de, gu, ou := EncodeStatus(c), EncodeDemand(c), EncodeGun(c), EncodeOutput(c);
    Split(data, 136, st + de + gu + ou, EncodeTrailing(c));
    Split(data, 136, st + de + gu, ou);
    Split(data, 136, st + de, gu);
    Split(data, 136, st, de);
    StatusDecodesBack(data, c);
    DemandDecodesBack(data, c);
    GunDecodesBack(data, c);
    OutputDecodesBack(data, c);
    TrailingDecodesBack(data, c);
  }

  /** Encoding a canonical record and decoding the 256 bytes gives the
      record back: field values put into a frame are read out unchanged. */
  lemma DecodeInvertsEncode(f: DecodedFrame)
    requires Canonical(f)
    ensures |Encode(f)| == TotalSize
    ensures DecodeFrame(Encode(f)) == f
  {
    var d := Encode(f);
    var mods := EncodeModules(f.powerModules);
    var ch := EncodeChargingInfo(f.chargingInfo);
    var hd, rp, pm := f.header, f.reservedPmActiveBit, f.pmActiveBit;
    var pd, c1 := f.padding, f.crc1;
    assert d[0..256] == d;
    Split(d, 0, hd + rp + pm + mods + ch + pd + c1, f.crc2);
    Split(d, 0, hd + rp + pm + mods + ch + pd, c1);
    Split(d, 0, hd + rp + pm + mods + ch, pd);
    Split(d, 0, hd + rp + pm + mods, ch);
    Split(d, 0, hd + rp + pm, mods);
    Split(d, 0, hd + rp, pm);
    Split(d, 0, hd, rp);
    assert d[..20] == d[0..20];
    ModulesDecodeBack(d, f.powerModules);
    ChargingDecodesBack(d, f.chargingInfo);
  }

  /** Every record the decoder produces is canonical. */
  lemma DecodedIsCanonical(data: seq<byte>)
    requires |data| == TotalSize
    ensures Canonical(DecodeFrame(data))
  {
    var f := DecodeFrame(data);
    EncodeInvertsDecode(data);
    forall i | 0 <= i < |f.powerModules|
      ensures ModuleCanonical(f.powerModules[i])
    {
      var s := ModuleStart(i);
      assert f.powerModules[i] == ParsePowerModule(data, s);
      ModuleRoundTrip(data, s);
      LittleBytesRoundTrip(data[s + 2..s + 4]);
      LittleBytesRoundTrip(data[s + 4..s + 6]);
      LittleBytesRoundTrip(data[s + 6..s + 8]);
      TenthsRoundTrip(FromLittle(data[s + 4..s + 6]), 2);
      TenthsRoundTrip(FromLittle(data[s + 6..s + 8]), 2);
    }
    ChargingIsCanonical(data);
  }

  lemma StatusIsCanonical(data: seq<byte>)
    requires |data| == TotalSize
    ensures var c := ParseChargingInfo(data); StatusWellFormed(c) && StatusCanonical(c)
  {
    var c := ParseChargingInfo(data);
    StatusRoundTrip(data);
    ChargingStateSplit(data);
    assert EncodeStatus(c)[2..3] == data[138..139] && EncodeStatus(c)[3..4] == data[139..140];
  }

  lemma DemandIsCanonical(data: seq<byte>)
    requires |data| == TotalSize
    ensures var c := ParseChargingInfo(data); DemandWellFormed(c) && DemandCanonical(c)
  {
    DemandRoundTrip(data);
    LittleBytesRoundTrip(data[140..144]);
    LittleBytesRoundTrip(data[144..148]);
    TenthsRoundTrip(FromLittle(data[140..144]), 4);
    TenthsRoundTrip(FromLittle(data[144..148]), 4);
  }

  lemma OutputIsCanonical(data: seq<byte>)
    requires |data| == TotalSize
    ensures var c := ParseChargingInfo(data); OutputWellFormed(c) && OutputCanonical(c)
  {
    OutputRoundTrip(data);
    LittleBytesRoundTrip(data[152..154]);
    LittleBytesRoundTrip(data[154..156]);
    TenthsRoundTrip(FromLittle(data[152..154]), 2);
    TenthsRoundTrip(FromLittle(data[154..156]), 2);
  }

  lemma ChargingIsCanonical(data: seq<byte>)
    requires |data| == TotalSize
    ensures var c := ParseChargingInfo(data); ChargingWellFormed(c) && ChargingCanonical(c)
  {
    ChargingRoundTrip(data);
    StatusIsCanonical(data);
    DemandIsCanonical(data);
    OutputIsCanonical(data);
  }
}
