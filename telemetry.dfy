/** The telemetry summary the producer loop of `start_client` builds from
    each decoded frame and hands to the display process: state of charge,
    state of health, and one temperature, current and voltage per power
    module. */
module Telemetry {
  import opened Bytes
  import opened Frame

  /** The `{soc, soh, temp, current, voltage}` dictionary. */
  datatype Summary = Summary(
    soc: nat,
    soh: nat,
    temp: seq<real>,
    current: seq<real>,
    voltage: seq<real>)

  /** `int(b.hex(), 16)`; `None` stands for the ValueError an empty `b`
      raises, which the `except Exception` handler swallows. */
  function ByteValue(b: seq<byte>): Option<nat>
  {
    ParseInt(Hex(b), 16)
  }

  /** A module's temperature as the summary reports it: the ambient
      temperature divided by ten. */
  function Temperature(m: PowerModule): real
  {
    m.ambientTemperature as real / 10.0
  }

  /** The projection of a decoded record: `None` when reading `soc` or
      `soh` fails, otherwise the summary with the three lists in module
      order. */
  function Project(frame: DecodedFrame): (r: Option<Summary>)
    ensures r.Some? ==> |r.value.temp| == |r.value.current| == |r.value.voltage| == |frame.powerModules|
  {
    var ms := frame.powerModules;
    var soc := ByteValue(frame.chargingInfo.batterySoc);
    var soh := ByteValue(frame.chargingInfo.batterySoh);
    if soc.None? || soh.None? then None
    else Some(Summary(
      soc := soc.value,
      soh := soh.value,
      temp := seq(|ms|, i requires 0 <= i < |ms| => Temperature(ms[i])),
      current := seq(|ms|, i requires 0 <= i < |ms| => ms[i].current),
      voltage := seq(|ms|, i requires 0 <= i < |ms| => ms[i].voltage)))
  }

  /** The body of the `try` in `start_client` after a frame has been
      decoded: read `soc` and `soh`, then append one entry per module to
      each list. */
  method BuildSummary(frame: DecodedFrame) returns (summary: Option<Summary>)
    ensures summary == Project(frame)
  {
    var soc := ByteValue(frame.chargingInfo.batterySoc);
    var soh := ByteValue(frame.chargingInfo.batterySoh);
    if soc.None? || soh.None? {
      return None;
    }
    var ms := frame.powerModules;
    var temp: seq<real> := [];
    var current: seq<real> := [];
    var voltage: seq<real> := [];
    for i := 0 to |ms|
      invariant |temp| == i && |current| == i && |voltage| == i
      invariant forall j :: 0 <= j < i ==> temp[j] == Temperature(ms[j])
      invariant forall j :: 0 <= j < i ==> current[j] == ms[j].current
      invariant forall j :: 0 <= j < i ==> voltage[j] == ms[j].voltage
    {
      temp := temp + [Temperature(ms[i])];
      current := current + [ms[i].current];
      voltage := voltage + [ms[i].voltage];
    }
    assert temp == seq(|ms|, i requires 0 <= i < |ms| => Temperature(ms[i]));
    assert current == seq(|ms|, i requires 0 <= i < |ms| => ms[i].current);
    assert voltage == seq(|ms|, i requires 0 <= i < |ms| => ms[i].voltage);
    summary := Some(Summary(soc.value, soh.value, temp, current, voltage));
  }

  /** A frame is received, decoded and projected: `None` when it has the
      wrong length or the projection fails. */
  function Receive(data: seq<byte>): Option<Summary>
  {
    match Unpack(data)
    case None => None
    case Some(frame) => Project(frame)
  }

  // ---------------------------------------------------------------------------
  // Properties

  /** `int(b.hex(), 16)` of a single byte is that byte. */
  lemma ByteValueOfOne(b: seq<byte>)
    requires |b| == 1
    ensures ByteValue(b) == Some(b[0] as nat)
  {
    HexParsesToBig(b);
    var v: nat := b[0];
    assert FromBig(b) == ValueFrom(256, v, b[1..]);
    assert b[1..] == [];
  }

  /** `int(b.hex(), 16)` fails exactly on an empty `b`. */
  lemma ByteValueFails(b: seq<byte>)
    ensures ByteValue(b).None? <==> b == []
  {
    if b == [] {
      assert Hex(b) == [];
    } else {
      HexParsesToBig(b);
    }
  }

  /** The projection fails exactly when `battery_SOC` or `battery_SOH` is
      empty; `int(text, 16)` accepts every other `bytes.hex()` rendering. */
  lemma ProjectFailsOnlyOnEmpty(frame: DecodedFrame)
    ensures Project(frame).None? <==>
      frame.chargingInfo.batterySoc == [] || frame.chargingInfo.batterySoh == []
  {
    ByteValueFails(frame.chargingInfo.batterySoc);
    ByteValueFails(frame.chargingInfo.batterySoh);
  }

  /** The summary of a decoded 256-byte frame exists, and its `soc` and
      `soh` are bytes 136 and 137. */
  lemma ProjectBattery(data: seq<byte>)
    requires |data| == TotalSize
    ensures Project(DecodeFrame(data)).Some?
    ensures Project(DecodeFrame(data)).value.soc == data[136]
    ensures Project(DecodeFrame(data)).value.soh == data[137]
  {
    var c := DecodeFrame(data).chargingInfo;
    assert c.batterySoc == data[136..137] && c.batterySoh == data[137..138];
    ByteValueOfOne(data[136..137]);
    ByteValueOfOne(data[137..138]);
  }

  /** Entry i of each list comes from module i of the record. */
  lemma ProjectEntries(frame: DecodedFrame, i: nat)
    requires Project(frame).Some? && i < |frame.powerModules|
    ensures Project(frame).value.temp[i] == frame.powerModules[i].ambientTemperature as real / 10.0
    ensures Project(frame).value.current[i] == frame.powerModules[i].current
    ensures Project(frame).value.voltage[i] == frame.powerModules[i].voltage
  {
  }

  /** The projection reads only the module records and the SOC and SOH
      bytes of a record. */
  lemma ProjectReads(f: DecodedFrame, g: DecodedFrame)
    requires f.powerModules == g.powerModules
    requires f.chargingInfo.batterySoc == g.chargingInfo.batterySoc
    requires f.chargingInfo.batterySoh == g.chargingInfo.batterySoh
    ensures Project(f) == Project(g)
  {
  }

  /** Entry i of each list of the summary of a decoded 256-byte frame, in
      terms of the frame's bytes: the temperature is the little-endian value
      at 24+16i+2 divided by ten (the decoder keeps it raw; the projection
      scales it), current and voltage are the module's own values, the
      little-endian values at 24+16i+4 and 24+16i+6 divided by ten. */
  lemma ProjectModule(data: seq<byte>, i: nat)
    requires |data| == TotalSize && i < ModuleCount
    ensures Project(DecodeFrame(data)).Some?
    ensures var s := Project(DecodeFrame(data)).value;
      && s.temp[i] == (data[ModuleStart(i) + 2] as nat + 256 * data[ModuleStart(i) + 3] as nat) as real / 10.0
      && s.current[i] == (data[ModuleStart(i) + 4] as nat + 256 * data[ModuleStart(i) + 5] as nat) as real / 10.0
      && s.voltage[i] == (data[ModuleStart(i) + 6] as nat + 256 * data[ModuleStart(i) + 7] as nat) as real / 10.0
  {
    var f := DecodeFrame(data);
    var m := ParsePowerModule(data, ModuleStart(i));
    assert Project(f).Some? by {
      ProjectBattery(data);
    }
    assert f.powerModules[i] == m by {
      DecodedModules(data);
    }
    ProjectEntries(f, i);
    PowerModuleValues(data, ModuleStart(i));
  }

  /** The three lists of the summary of a decoded 256-byte frame have one
      entry per module, in module order, each as `ProjectModule` states. */
  lemma ProjectModules(data: seq<byte>)
    requires |data| == TotalSize
    ensures Project(DecodeFrame(data)).Some?
    ensures var s := Project(DecodeFrame(data)).value;
      && |s.temp| == ModuleCount && |s.current| == ModuleCount && |s.voltage| == ModuleCount
      && (forall i :: 0 <= i < ModuleCount ==>
            s.temp[i] == (data[ModuleStart(i) + 2] as nat + 256 * data[ModuleStart(i) + 3] as nat) as real / 10.0)
      && (forall i :: 0 <= i < ModuleCount ==>
            s.current[i] == (data[ModuleStart(i) + 4] as nat + 256 * data[ModuleStart(i) + 5] as nat) as real / 10.0)
      && (forall i :: 0 <= i < ModuleCount ==>
            s.voltage[i] == (data[ModuleStart(i) + 6] as nat + 256 * data[ModuleStart(i) + 7] as nat) as real / 10.0)
  {
    ProjectBattery(data);
    DecodedModules(data);
    forall i | 0 <= i < ModuleCount {
      ProjectModule(data, i);
    }
  }

  /** End to end: a summary is produced exactly for buffers of 256 bytes,
      whatever their CRC, and then it is the projection of the decoded
      frame. */
  lemma ReceiveIff(data: seq<byte>)
    ensures Receive(data).Some? <==> |data| == TotalSize
    ensures |data| == TotalSize ==> Receive(data) == Project(DecodeFrame(data))
  {
    if |data| == TotalSize {
      ProjectBattery(data);
    }
  }

  /** The summary depends only on bytes 136, 137 and the module records:
      two frames that agree on [24,138) give the same summary. */
  lemma SummaryReadsModulesAndBattery(a: seq<byte>, b: seq<byte>)
    requires |a| == TotalSize && |b| == TotalSize
    requires a[ModuleBase..ChargingInfoStart + 2] == b[ModuleBase..ChargingInfoStart + 2]
    ensures Receive(a) == Receive(b)
  {
    forall k | ModuleBase <= k < ChargingInfoStart + 2
      ensures a[k] == b[k]
    {
      assert a[k] == a[ModuleBase..ChargingInfoStart + 2][k - ModuleBase];
    }
    assert PowerModules(a) == PowerModules(b) by {
      forall i | 0 <= i < ModuleCount
        ensures PowerModules(a)[i] == PowerModules(b)[i]
      {
        ModuleReadsOnlyItsBytes(a, b, i);
      }
    }
    assert DecodeFrame(a).chargingInfo.batterySoc == DecodeFrame(b).chargingInfo.batterySoc by {
      assert a[136..137] == b[136..137];
    }
    assert DecodeFrame(a).chargingInfo.batterySoh == DecodeFrame(b).chargingInfo.batterySoh by {
      assert a[137..138] == b[137..138];
    }
    ProjectReads(DecodeFrame(a), DecodeFrame(b));
  }
}
