# Rectifier telemetry codec

A Dafny model of the telemetry codec in
`python_multithreating_multiprocessing/user_interface_for_Rectifier.py`. The
codec is the part of the rectifier user interface that turns one 256-byte
frame from the power-supply controller into the values the display shows.
The model covers three parts of that file:

- **`calculate_crc`** (module `Crc16`, file `crc16.dfy`). This is the bitwise
  CRC-16 with initial value 0xFFFF and reflected polynomial 0xA001 (the
  CRC-16/MODBUS parameters of section 6.2.2 of the Modbus over Serial Line
  Specification V1.02).
  - `CalculateCrc` keeps the source's nested byte and bit loops.
  - It is proved equal to `Crc`, a left fold of one byte step over the input.
  - Lemmas then prove the fold's algebra (append, single byte) and the
    standard check value 0x4B37 for the ASCII digits "123456789".
- **`unpack_sm_payload`** (module `Frame`, file `frame.dfy`). It does four
  things:
  - rejects a buffer whose length is not 256;
  - compares the received CRC (bytes 254 and 255, read big-endian) with the
    computed one;
  - slices the fixed layout into the header, the seven 16-byte
    power-module records, the 32 bytes of charging information, the
    padding and the two CRC bytes;
  - splits bytes 138 and 139 into their bit fields.

  Each step has a function of its own:
  - `ParsePowerModule` reads one 16-byte module record at a given offset
    (lines 101-133).
  - `ParseChargingInfo` reads the 32 bytes of charging information
    (lines 141-186).
  - `ActiveNibbleBinary` renders the low nibble of byte 23 as four binary
    digits (lines 93-96).

  `DecodeFrame` is the decoder as a function. `UnpackSmPayload` is the
  imperative version: it calls `CalculateCrc`, builds the module list in
  the source's `for i in range(7)` append loop (`CollectPowerModules`), and
  is proved equal to `Unpack`. The CRC verdict, which the source only
  prints, is returned as `crcMatches`.
- **The summary projection in `start_client`** (module `Telemetry`, file
  `telemetry.dfy`). From a decoded record it builds the
  `{soc, soh, temp, current, voltage}` dictionary that is sent to the
  display process. `Project` is the function and `BuildSummary` is the
  append loop, proved equal to it. `ByteValue` is the `int(b.hex(), 16)`
  conversion of `soc` and `soh` (lines 255-260); `None` stands for the
  exception it raises on an empty `b`.

Two further modules support these:

- `Bytes` (`bytes.dfy`) models the Python primitives the codec uses:
  - `int.from_bytes` and `int.to_bytes`;
  - slice reversal `s[::-1]`;
  - `bytes.hex()`;
  - `format(n, "04b")` and `bin(n)[2:].zfill(4)`;
  - `int(text, base)`.

  It also proves the round trips between these, for example that parsing
  `s[::-1].hex()` in base 16 gives the little-endian value of `s`.
- `FrameEncoder` (`frame_encoder.dfy`) writes every field of a decoded
  record back at its offset.
  - `EncodeInvertsDecode` proves that it is a left inverse of the decoder:
    encoding the record decoded from any 256-byte frame gives back the
    frame.
  - So the decoder loses nothing: the nibble splits of bytes 138 and 139 and
    the division by ten of the scaled fields can all be undone.
  - `DecodeIsInjective` follows: two different frames never decode to the
    same record.
  - It is not a two-sided inverse on all well-formed records. A record
    whose hex or binary text fields disagree with its values (say, a
    `currentHex` of "zz") encodes to a frame that decodes to different
    text. `Canonical` names the records whose derived fields agree with
    their values: the hex renderings, the four-digit contactor status,
    and the raw copies of bytes 138 and 139.
  - `DecodeInvertsEncode` proves that encoding a canonical record and
    decoding the result gives the record back.
  - `DecodedIsCanonical` proves that every decoded record is canonical.
    Decoding is therefore a bijection between 256-byte frames and
    canonical records, and encoding is its inverse.

Numbers are modelled as follows:

- Python's unbounded integers are `nat`s.
- The CRC specification `Crc` works on `bv16`.
- `CalculateCrc` keeps a 32-bit register, because a Python integer has no
  width. Its loop invariants prove that the register stays below 2^16, so
  the `to_bytes(2, "little")` that follows can never overflow.
  `Crc16.NarrowKeepsValue` proves that narrowing such a value to 16 bits
  keeps it.
- The `/ 10.0` scalings are exact `real` divisions (`Frame.Tenths`).

Two behaviours of the code are kept as written and stated as proved facts:

- **CRC byte order.** The source converts the computed CRC to two
  little-endian bytes, reverses them and reads them big-endian.
  `Frame.ReversalIsIdentity` proves that this round trip is the identity on
  every 16-bit value. The check therefore passes exactly when byte 254
  holds the high byte of the CRC and byte 255 the low byte
  (`Frame.CrcMatchesIff`). That is the opposite of the low-byte-first order
  in which Modbus RTU transmits its CRC.
- **Charging current and voltage.** The `charging_current` entry holds
  bytes [154,156) divided by ten, and `charging_voltage` holds bytes
  [152,154). The two hex renderings are labelled the other way round:
  `charging_current_hex` renders [152,154). `Frame.ChargingValues` states
  both facts. The code assigns the values crosswise on purpose, so the
  model keeps that assignment and does not "fix" it.

A CRC mismatch is only reported: the record is decoded either way
(`Frame.DecodeIgnoresTrailer`).

## Model

| member | source | states |
|---|---|---|
| Crc16.CalculateCrc | python_multithreating_multiprocessing/user_interface_for_Rectifier.py:15-33 | the nested byte/bit loop keeps the register below 2^16 and computes `Crc(data)`, the left fold of eight shift-and-conditional-XOR-0xA001 steps per byte starting from 0xFFFF |
| Crc16.NarrowKeepsValue | python_multithreating_multiprocessing/user_interface_for_Rectifier.py:53-54 | a register value below 2^16 fits the two bytes of `to_bytes(2, ...)` and keeps its value when narrowed to 16 bits |
| Crc16.CrcEmpty | python_multithreating_multiprocessing/user_interface_for_Rectifier.py:22 | the checksum of no bytes is the initial value 0xFFFF |
| Crc16.CrcFromAppend | python_multithreating_multiprocessing/user_interface_for_Rectifier.py:24-31 | resuming the outer loop over `a + b` from any accumulator is running it over `a` and then over `b` |
| Crc16.CrcAppend | python_multithreating_multiprocessing/user_interface_for_Rectifier.py:24-31 | the CRC of a concatenation continues from the CRC of its first part |
| Crc16.CrcSnoc | python_multithreating_multiprocessing/user_interface_for_Rectifier.py:24-31 | appending one byte is exactly one more outer-loop iteration |
| Crc16.CrcOfZeroByte | python_multithreating_multiprocessing/user_interface_for_Rectifier.py:22-31 | the CRC of the single byte 0x00 is 0x40BF |
| Crc16.CheckValueSteps | python_multithreating_multiprocessing/user_interface_for_Rectifier.py:25-31 | the nine outer-loop steps over "123456789" pass through 0x947E, 0xF595, …, 0x37DD to 0x4B37 |
| Crc16.CrcCheckValue | python_multithreating_multiprocessing/user_interface_for_Rectifier.py:15-33 | the CRC of the ASCII digits "123456789" is 0x4B37, the CRC-16/MODBUS check value |
| Bytes.Reverse | python_multithreating_multiprocessing/user_interface_for_Rectifier.py:54 | `s[::-1]` has the length of `s` and element i is `s[len-1-i]` |
| Bytes.FromLittle | python_multithreating_multiprocessing/user_interface_for_Rectifier.py:102-104 | `int.from_bytes(s, "little")` is below 256^len(s) |
| Bytes.ToLittle | python_multithreating_multiprocessing/user_interface_for_Rectifier.py:54 | `n.to_bytes(k, "little")` is defined for `n < 256^k` and has exactly k bytes |
| Bytes.HexDigit | python_multithreating_multiprocessing/user_interface_for_Rectifier.py:120-122 | a nibble's hex digit is lower-case ('0'-'9' or 'a'-'f') and parses back to the nibble |
| Bytes.Hex | python_multithreating_multiprocessing/user_interface_for_Rectifier.py:120-122 | `bytes.hex()` has two characters per byte |
| Bytes.HexIsLowerCase | python_multithreating_multiprocessing/user_interface_for_Rectifier.py:120-122 | every character of `bytes.hex()` is '0'-'9' or 'a'-'f' |
| Bytes.BinaryDigits | python_multithreating_multiprocessing/user_interface_for_Rectifier.py:94-96 | zero-padded binary rendering of an n below 2^w is w characters, each '0' or '1' |
| Bytes.BigOfReverse | python_multithreating_multiprocessing/user_interface_for_Rectifier.py:53-55 | reading reversed bytes big-endian is reading the original little-endian |
| Bytes.LittleRoundTrip | python_multithreating_multiprocessing/user_interface_for_Rectifier.py:53-55 | `from_bytes(n.to_bytes(k, "little"), "little") == n` for every n that fits |
| Bytes.LittleBytesRoundTrip | python_multithreating_multiprocessing/user_interface_for_Rectifier.py:102-104 | `from_bytes(s, "little").to_bytes(len(s), "little") == s`: no byte sequence is lost by the conversion |
| Bytes.FromLittle2 | python_multithreating_multiprocessing/user_interface_for_Rectifier.py:102-104 | a 2-byte little-endian value is `s[0] + 256*s[1]`, below 0x10000 |
| Bytes.FromBig2 | python_multithreating_multiprocessing/user_interface_for_Rectifier.py:50 | a 2-byte big-endian value is `256*s[0] + s[1]` |
| Bytes.FromLittle4 | python_multithreating_multiprocessing/user_interface_for_Rectifier.py:141-142 | a 4-byte little-endian value is the weighted sum of its bytes, below 2^32 |
| Bytes.HexParsesToBig | python_multithreating_multiprocessing/user_interface_for_Rectifier.py:255-260 | `int(s.hex(), 16)` of a non-empty `s` is its big-endian value |
| Bytes.HexOfReversed | python_multithreating_multiprocessing/user_interface_for_Rectifier.py:120-131 | `s[::-1].hex()` has 2·len(s) characters and parses back, base 16, to the little-endian value of `s` |
| Bytes.BinaryRoundTrip | python_multithreating_multiprocessing/user_interface_for_Rectifier.py:94-96 | the w-digit binary rendering of n parses back, base 2, to n |
| Frame.CollectPowerModules | python_multithreating_multiprocessing/user_interface_for_Rectifier.py:135-138 | the append loop yields exactly seven records, record i parsed at offset 24+16i |
| Frame.UnpackSmPayload | python_multithreating_multiprocessing/user_interface_for_Rectifier.py:37-201 | returns no record iff the length is not 256; otherwise the decoded record whatever the CRC, with the reported verdict equal to `CrcMatches` |
| Frame.ReversalIsIdentity | python_multithreating_multiprocessing/user_interface_for_Rectifier.py:53-55 | the "reverse the bytes" transform returns every 16-bit CRC unchanged |
| Frame.CrcMatchesIff | python_multithreating_multiprocessing/user_interface_for_Rectifier.py:50-56 | the check passes iff byte 254 is the CRC's high byte and byte 255 its low byte |
| Frame.SealedFrameMatches | python_multithreating_multiprocessing/user_interface_for_Rectifier.py:50-56 | any 254-byte payload followed by its CRC, high byte first, is a 256-byte frame that passes |
| Frame.TrailerCorruptionDetected | python_multithreating_multiprocessing/user_interface_for_Rectifier.py:50-56 | changing the two CRC bytes of a passing frame in any way makes the check fail |
| Frame.DecodeIgnoresTrailer | python_multithreating_multiprocessing/user_interface_for_Rectifier.py:56-65 | frames agreeing on bytes [0,254) both decode, to records that differ at most in CRC1/CRC2 |
| Frame.ModulesTileTheirRange | python_multithreating_multiprocessing/user_interface_for_Rectifier.py:136-138 | the seven records lie in [24,136) without overlap and every byte there belongs to record `ModuleOf(p)` |
| Frame.ModuleReadsOnlyItsBytes | python_multithreating_multiprocessing/user_interface_for_Rectifier.py:101-133 | record i depends only on bytes [24+16i, 40+16i) |
| Frame.ChargingInfoReadsOnlyItsBytes | python_multithreating_multiprocessing/user_interface_for_Rectifier.py:141-186 | the charging information depends only on bytes [136,168) |
| Frame.DecodedModules | python_multithreating_multiprocessing/user_interface_for_Rectifier.py:135-138 | the decoded list has seven records in module order |
| Frame.PowerModuleValues | python_multithreating_multiprocessing/user_interface_for_Rectifier.py:101-133 | status flags are bytes s and s+1; ambient temperature is the raw little-endian value at s+2 (below 0x10000, not scaled); current and voltage are those at s+4 and s+6 divided by ten; reserved is [s+8,s+16) |
| Frame.PowerModuleHex | python_multithreating_multiprocessing/user_interface_for_Rectifier.py:120-131 | each module hex field is four characters that parse back to the raw value of its two bytes |
| Frame.ChargingStateSplit | python_multithreating_multiprocessing/user_interface_for_Rectifier.py:150-165 | byte 139 is contactor·16 + state with both below 16; the contactor string is four binary digits parsing back to it |
| Frame.Reserved1Split | python_multithreating_multiprocessing/user_interface_for_Rectifier.py:154-157 | byte 138 is high·16 + low·2 + enable with high < 16, low < 8, enable < 2 |
| Frame.ActiveNibbleRendering | python_multithreating_multiprocessing/user_interface_for_Rectifier.py:93-96 | the PMActiveBit low-nibble string is four characters parsing back, base 2, to `data[23] & 0x0F` |
| Frame.ChargingValues | python_multithreating_multiprocessing/user_interface_for_Rectifier.py:141-176 | demand voltage and current are 32-bit little-endian at 140 and 144 over ten; `charging_current` is [154,156) and `charging_voltage` [152,154) over ten; each hex field parses back to the bytes its key names |
| FrameEncoder.TenthsRoundTrip | python_multithreating_multiprocessing/user_interface_for_Rectifier.py:105-116 | scaling a raw integer by 1/10 loses nothing: the raw value is recovered exactly |
| FrameEncoder.ModuleRoundTrip | python_multithreating_multiprocessing/user_interface_for_Rectifier.py:101-133 | re-encoding a parsed module record gives back its 16 bytes |
| FrameEncoder.ModulesWellFormed | python_multithreating_multiprocessing/user_interface_for_Rectifier.py:135-138 | every decoded module record has the widths and ranges of its slot |
| FrameEncoder.ModulesRoundTrip | python_multithreating_multiprocessing/user_interface_for_Rectifier.py:135-138 | re-encoding records j..6 gives back bytes [24+16j, 136) |
| FrameEncoder.StatusRoundTrip | python_multithreating_multiprocessing/user_interface_for_Rectifier.py:150-163 | SOC, SOH and the split fields of bytes 138 and 139 re-encode to bytes [136,140) |
| FrameEncoder.DemandRoundTrip | python_multithreating_multiprocessing/user_interface_for_Rectifier.py:141-142 | the scaled demand voltage and current re-encode to bytes [140,148) |
| FrameEncoder.GunRoundTrip | python_multithreating_multiprocessing/user_interface_for_Rectifier.py:170-172 | the gun temperatures and reserved_2 re-encode to bytes [148,152) |
| FrameEncoder.OutputRoundTrip | python_multithreating_multiprocessing/user_interface_for_Rectifier.py:143-148 | the swapped charging voltage and current re-encode to bytes [152,156) |
| FrameEncoder.TrailingRoundTrip | python_multithreating_multiprocessing/user_interface_for_Rectifier.py:177-182 | charging time, reserved_3, BST/CST reasons and energy data re-encode to bytes [156,168) |
| FrameEncoder.ChargingRoundTrip | python_multithreating_multiprocessing/user_interface_for_Rectifier.py:141-186 | the charging information re-encodes to bytes [136,168) |
| FrameEncoder.EncodeInvertsDecode | python_multithreating_multiprocessing/user_interface_for_Rectifier.py:70-201 | every decoded 256-byte frame is well formed and encodes back to the same 256 bytes |
| FrameEncoder.DecodeIsInjective | python_multithreating_multiprocessing/user_interface_for_Rectifier.py:70-201 | two 256-byte frames with the same decoded record are equal |
| FrameEncoder.TenthsOfRaw | python_multithreating_multiprocessing/user_interface_for_Rectifier.py:105-116 | a value in tenths that fits k bytes is recovered from its raw integer divided by ten |
| FrameEncoder.ModuleDecodesBack | python_multithreating_multiprocessing/user_interface_for_Rectifier.py:101-133 | parsing the 16 bytes of an encoded canonical module record gives the record back |
| FrameEncoder.EncodedModuleAt | python_multithreating_multiprocessing/user_interface_for_Rectifier.py:135-138 | record i's encoding occupies bytes [16i, 16i+16) of the encoded list |
| FrameEncoder.ModuleAtDecodesBack | python_multithreating_multiprocessing/user_interface_for_Rectifier.py:135-138 | record i parsed from an encoded list of canonical records is record i of the list |
| FrameEncoder.ModulesDecodeBack | python_multithreating_multiprocessing/user_interface_for_Rectifier.py:135-138 | decoding an encoded list of seven canonical records gives the list back |
| FrameEncoder.Reserved1Fields | python_multithreating_multiprocessing/user_interface_for_Rectifier.py:154-157 | the high nibble, bits 1-3 and bit 0 are recovered from the byte high·16 + low·2 + enable |
| FrameEncoder.StateCountFields | python_multithreating_multiprocessing/user_interface_for_Rectifier.py:150-152 | both nibbles are recovered from the byte contactor·16 + state |
| FrameEncoder.StatusBytes | python_multithreating_multiprocessing/user_interface_for_Rectifier.py:159-163 | encoded status bytes hold SOC at 136, SOH at 137 and the rebuilt bytes 138 and 139 |
| FrameEncoder.StatusDecodesBack | python_multithreating_multiprocessing/user_interface_for_Rectifier.py:150-165 | bytes [136,140) decode back to SOC, SOH, the raw bytes 138 and 139 and every split field of a canonical record |
| FrameEncoder.DemandDecodesBack | python_multithreating_multiprocessing/user_interface_for_Rectifier.py:141-142 | bytes [140,148) decode back to a canonical record's demand values and renderings |
| FrameEncoder.GunDecodesBack | python_multithreating_multiprocessing/user_interface_for_Rectifier.py:170-172 | bytes [148,152) decode back to the gun temperatures and reserved_2 |
| FrameEncoder.OutputDecodesBack | python_multithreating_multiprocessing/user_interface_for_Rectifier.py:143-148 | bytes [152,156) decode back to a canonical record's swapped charging values and renderings |
| FrameEncoder.TrailingDecodesBack | python_multithreating_multiprocessing/user_interface_for_Rectifier.py:177-182 | bytes [156,168) decode back to charging time, reserved_3, BST/CST reasons and energy data |
| FrameEncoder.ChargingDecodesBack | python_multithreating_multiprocessing/user_interface_for_Rectifier.py:141-186 | decoding encoded canonical charging information gives it back |
| FrameEncoder.DecodeInvertsEncode | python_multithreating_multiprocessing/user_interface_for_Rectifier.py:70-201 | encoding a canonical record gives 256 bytes that decode back to the record |
| FrameEncoder.StatusIsCanonical | python_multithreating_multiprocessing/user_interface_for_Rectifier.py:150-165 | decoded status fields are well formed, their raw bytes agree with the split fields, and the contactor string is the rendering of its value |
| FrameEncoder.DemandIsCanonical | python_multithreating_multiprocessing/user_interface_for_Rectifier.py:141-142 | decoded demand renderings are those of their values |
| FrameEncoder.OutputIsCanonical | python_multithreating_multiprocessing/user_interface_for_Rectifier.py:143-148 | decoded charging renderings are those of the crosswise values |
| FrameEncoder.ChargingIsCanonical | python_multithreating_multiprocessing/user_interface_for_Rectifier.py:141-186 | decoded charging information is well formed and canonical |
| FrameEncoder.DecodedIsCanonical | python_multithreating_multiprocessing/user_interface_for_Rectifier.py:70-201 | every record decoded from a 256-byte frame is canonical |
| Telemetry.Project | python_multithreating_multiprocessing/user_interface_for_Rectifier.py:255-291 | the three lists of a summary have one entry per module record |
| Telemetry.BuildSummary | python_multithreating_multiprocessing/user_interface_for_Rectifier.py:255-291 | reading SOC/SOH and the append loop over the modules compute `Project(frame)` |
| Telemetry.ByteValueOfOne | python_multithreating_multiprocessing/user_interface_for_Rectifier.py:255-260 | `int(b.hex(), 16)` of a one-byte `b` is that byte |
| Telemetry.ByteValueFails | python_multithreating_multiprocessing/user_interface_for_Rectifier.py:255-260 | `int(b.hex(), 16)` fails exactly when `b` is empty |
| Telemetry.ProjectFailsOnlyOnEmpty | python_multithreating_multiprocessing/user_interface_for_Rectifier.py:255-260 | the projection fails iff battery_SOC or battery_SOH is empty |
| Telemetry.ProjectBattery | python_multithreating_multiprocessing/user_interface_for_Rectifier.py:255-260 | for a decoded frame the summary exists, with `soc` = byte 136 and `soh` = byte 137 |
| Telemetry.ProjectEntries | python_multithreating_multiprocessing/user_interface_for_Rectifier.py:279-282 | entry i is module i's ambient temperature over ten, and its current and voltage unchanged |
| Telemetry.ProjectReads | python_multithreating_multiprocessing/user_interface_for_Rectifier.py:255-291 | the summary depends only on the module records and the SOC/SOH bytes |
| Telemetry.ProjectModule | python_multithreating_multiprocessing/user_interface_for_Rectifier.py:273-291 | entry i of temp/current/voltage is the little-endian value at 24+16i+2, +4, +6 divided by ten |
| Telemetry.ProjectModules | python_multithreating_multiprocessing/user_interface_for_Rectifier.py:273-291 | all three lists have length 7 and every entry is as `ProjectModule` states |
| Telemetry.ReceiveIff | python_multithreating_multiprocessing/user_interface_for_Rectifier.py:224-291 | a summary is produced iff the buffer has 256 bytes, whatever its CRC, and is then the projection of the decoded record |
| Telemetry.SummaryReadsModulesAndBattery | python_multithreating_multiprocessing/user_interface_for_Rectifier.py:255-291 | frames agreeing on bytes [24,138) give the same summary |

## Left out

- The producer loop of `start_client`: the `while True` loop, the hard-coded hex frame, `bytes.fromhex`, the commented-out socket and `queue.put` (lines 218-229 and 293). These are I/O and inter-process delivery. `Telemetry.Receive` models one pass of the loop body.
- All `print` output, including the ASCII rendering of the header (`decode('ascii', 'ignore')`), the `payload = data[20:]` slice that is only printed, and the CRC mismatch message. This is diagnostics; only the verdict is kept, as `crcMatches`.
- The `except ValueError` handler of `unpack_sm_payload` (lines 202-204). Nothing in its `try` block raises `ValueError` on a 256-byte buffer; `Frame.Unpack` is total there. The `OverflowError` that `to_bytes(2)` could raise cannot happen either, since the CRC never leaves 16 bits.
- Python float rounding of `/ 10.0`. The scaled values are exact reals, so `FrameEncoder.TenthsRoundTrip` holds for the model, not for IEEE doubles.
- `int(text, base)` is modelled only on plain digit strings (`Bytes.ParseInt`). Signs, surrounding whitespace, underscores and `0x` prefixes are not modelled; `bytes.hex()` and `format(n, "04b")` never produce them.
- `python_multithreating_multiprocessing/frontend.py`: the Tkinter GUI, its timer, the process and queue wiring, and its simulated data provider. Its only logic is label updates, and it has six display slots against the seven decoded modules.
- The C files (`InterProcessCommunication/`, `socket_programming.c`, `enums.c`, `functionCallCounter.c`, `negetive-coding.c`, `variableLengthArguments.c`) and the threading and multiprocessing demos. They are plumbing or teaching snippets, not part of the codec.
