/** The frame checksum: a bitwise CRC-16 with initial value 0xFFFF, reflected
    polynomial 0xA001 and no final XOR, i.e. CRC-16/MODBUS as section 6.2.2 of
    the Modbus over Serial Line Specification V1.02 describes it.

    `Crc` specifies it on 16-bit values. The imperative `CalculateCrc` keeps
    the accumulator in a 32-bit register, wider than the checksum, and proves
    that it stays below 2^16 after every XOR and shift, so Python's unbounded
    `int` and the 16-bit specification agree. */
module Crc16 {
  import opened Bytes

  const Initial: bv16 := 0xFFFF
  const Polynomial: bv16 := 0xA001

  /** One pass of the inner loop: shift right, and XOR in the polynomial
      when the bit shifted out was set. */
  function BitStep(acc: bv16): bv16
  {
    if acc & 1 != 0 then (acc >> 1) ^ Polynomial else acc >> 1
  }

  /** `k` passes of the inner loop. */
  function BitSteps(acc: bv16, k: nat): bv16
  {
    if k == 0 then acc else BitStep(BitSteps(acc, k - 1))
  }

  /** One iteration of the outer loop: merge the byte into the low 8 bits,
      then eight bit steps. */
  function ByteStep(acc: bv16, b: byte): bv16
  {
    BitSteps(acc ^ (b as bv16), 8)
  }

  /** The outer loop resumed from accumulator `acc`: a left fold of ByteStep. */
  function CrcFrom(acc: bv16, data: seq<byte>): bv16
    decreases |data|
  {
    if data == [] then acc else CrcFrom(ByteStep(acc, data[0]), data[1..])
  }

  /** The checksum of `data`. */
  function Crc(data: seq<byte>): bv16
  {
    CrcFrom(Initial, data)
  }

  /** `calculate_crc`: the nested loop over bytes and bits, proved to compute
      `Crc`. The register is wider than 16 bits, as Python's `int` is; the
      invariants show it never leaves 16 bits. */
  method CalculateCrc(data: seq<byte>) returns (crc: bv32)
    ensures crc < 0x1_0000
    ensures crc as bv16 == Crc(data)
  {
    crc := 0xFFFF;
    for i := 0 to |data|
      invariant crc < 0x1_0000
      invariant CrcFrom(crc as bv16, data[i..]) == Crc(data)
    {
      assert data[i..][1..] == data[i + 1..];
      ghost var before := crc as bv16;
      crc := crc ^ (data[i] as bv32);
      ghost var merged := crc as bv16;
      assert merged == before ^ (data[i] as bv16);
      for k := 0 to 8
        invariant crc < 0x1_0000
        invariant crc as bv16 == BitSteps(merged, k)
      {
        if crc & 0x0001 != 0 {
          crc := crc >> 1;
          crc := crc ^ 0xA001;
        } else {
          crc := crc >> 1;
        }
      }
    }
    assert data[|data|..] == [];
  }

  /** A register value below 2^16 is the same number as its low 16 bits. */
  lemma NarrowKeepsValue(c: bv32)
    requires c < 0x1_0000
    ensures c as nat < 0x1_0000
    ensures c as nat == (c as bv16) as nat
  {
  }

  /** The checksum of nothing is the initial value. */
  lemma CrcEmpty()
    ensures Crc([]) == 0xFFFF
  {
  }

  /** Checksumming a concatenation is checksumming the first part and then
      resuming from that accumulator over the second part. */
  lemma {:induction false} CrcFromAppend(acc: bv16, a: seq<byte>, b: seq<byte>)
    ensures CrcFrom(acc, a + b) == CrcFrom(CrcFrom(acc, a), b)
    decreases |a|
  {
    if a == [] {
      assert a + b == b;
    } else {
      assert (a + b)[1..] == a[1..] + b;
      CrcFromAppend(ByteStep(acc, a[0]), a[1..], b);
    }
  }

  lemma CrcAppend(a: seq<byte>, b: seq<byte>)
    ensures Crc(a + b) == CrcFrom(Crc(a), b)
  {
    CrcFromAppend(Initial, a, b);
  }

  /** Appending one byte is one more step of the outer loop. */
  lemma CrcSnoc(a: seq<byte>, x: byte)
    ensures Crc(a + [x]) == ByteStep(Crc(a), x)
  {
    CrcAppend(a, [x]);
    assert [x][1..] == [];
  }

  /** Check value: a single zero byte. */
  lemma CrcOfZeroByte()
    ensures Crc([0]) == 0x40BF
  {
    assert [0 as byte][1..] == [];
  }

  /** One outer-loop step with its intermediate values given. */
  lemma ByteStepVia(acc: bv16, b: byte, merged: bv16, next: bv16)
    requires acc ^ (b as bv16) == merged
    requires BitSteps(merged, 8) == next
    ensures ByteStep(acc, b) == next
  {
  }

  /** The nine outer-loop steps over the ASCII digits "123456789". */
  lemma CheckValueSteps()
    ensures ByteStep(0xFFFF, 0x31) == 0x947E
    ensures ByteStep(0x947E, 0x32) == 0xF595
    ensures ByteStep(0xF595, 0x33) == 0x7A75
    ensures ByteStep(0x7A75, 0x34) == 0x30BA
    ensures ByteStep(0x30BA, 0x35) == 0xA471
    ensures ByteStep(0xA471, 0x36) == 0x32E4
    ensures ByteStep(0x32E4, 0x37) == 0x9D73
    ensures ByteStep(0x9D73, 0x38) == 0x37DD
    ensures ByteStep(0x37DD, 0x39) == 0x4B37
  {
    ByteStepVia(0xFFFF, 0x31, 0xFFCE, 0x947E);
    ByteStepVia(0x947E, 0x32, 0x944C, 0xF595);
    ByteStepVia(0xF595, 0x33, 0xF5A6, 0x7A75);
    ByteStepVia(0x7A75, 0x34, 0x7A41, 0x30BA);
    ByteStepVia(0x30BA, 0x35, 0x308F, 0xA471);
    ByteStepVia(0xA471, 0x36, 0xA447, 0x32E4);
    ByteStepVia(0x32E4, 0x37, 0x32D3, 0x9D73);
    ByteStepVia(0x9D73, 0x38, 0x9D4B, 0x37DD);
    ByteStepVia(0x37DD, 0x39, 0x37E4, 0x4B37);
  }

  /** Check value of CRC-16/MODBUS: the ASCII digits "123456789". */
  lemma CrcCheckValue(digits: seq<byte>)
    requires digits == [0x31, 0x32, 0x33, 0x34, 0x35, 0x36, 0x37, 0x38, 0x39]
    ensures Crc(digits) == 0x4B37
  {
    CheckValueSteps();
    assert digits[0..][0] == 0x31 && digits[0..][1..] == digits[1..];
    assert CrcFrom(0xFFFF, digits[0..]) == CrcFrom(0x947E, digits[1..]);
    assert digits[1..][0] == 0x32 && digits[1..][1..] == digits[2..];
    assert CrcFrom(0x947E, digits[1..]) == CrcFrom(0xF595, digits[2..]);
    assert digits[2..][0] == 0x33 && digits[2..][1..] == digits[3..];
    assert CrcFrom(0xF595, digits[2..]) == CrcFrom(0x7A75, digits[3..]);
    assert digits[3..][0] == 0x34 && digits[3..][1..] == digits[4..];
    assert CrcFrom(0x7A75, digits[3..]) == CrcFrom(0x30BA, digits[4..]);
    assert digits[4..][0] == 0x35 && digits[4..][1..] == digits[5..];
    assert CrcFrom(0x30BA, digits[4..]) == CrcFrom(0xA471, digits[5..]);
    assert digits[5..][0] == 0x36 && digits[5..][1..] == digits[6..];
    assert CrcFrom(0xA471, digits[5..]) == CrcFrom(0x32E4, digits[6..]);
    assert digits[6..][0] == 0x37 && digits[6..][1..] == digits[7..];
    assert CrcFrom(0x32E4, digits[6..]) == CrcFrom(0x9D73, digits[7..]);
    assert digits[7..][0] == 0x38 && digits[7..][1..] == digits[8..];
    assert CrcFrom(0x9D73, digits[7..]) == CrcFrom(0x37DD, digits[8..]);
    assert digits[8..][0] == 0x39 && digits[8..][1..] == digits[9..];
    assert CrcFrom(0x37DD, digits[8..]) == CrcFrom(0x4B37, digits[9..]);
    assert digits[0..] == digits && digits[9..] == [];
  }
}
