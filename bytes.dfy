/** Bytes, the integer conversions of Python's `int.from_bytes` / `int.to_bytes`,
    and the text renderings the rectifier codec produces (`bytes.hex()`,
    `format(n, "04b")`) together with the parser that reads them back
    (`int(text, base)`). */
module Bytes {

  /** One element of a Python `bytes` value. */
  type byte = b: nat | b < 256

  datatype Option<T> = None | Some(value: T)

  function Pow256(k: nat): (r: nat)
    ensures r >= 1
  {
    if k == 0 then 1 else 256 * Pow256(k - 1)
  }

  function Pow2(k: nat): (r: nat)
    ensures r >= 1
  {
    if k == 0 then 1 else 2 * Pow2(k - 1)
  }

  /** `s[::-1]` */
  function Reverse<T>(s: seq<T>): (r: seq<T>)
    ensures |r| == |s|
    ensures forall i :: 0 <= i < |s| ==> r[i] == s[|s| - 1 - i]
  {
    if s == [] then [] else Reverse(s[1..]) + [s[0]]
  }

  /** Value of a most-significant-first digit sequence in `base`, accumulated
      left to right from `acc` exactly as positional parsing does it. */
  function ValueFrom(base: nat, acc: nat, ds: seq<nat>): nat
    decreases |ds|
  {
    if ds == [] then acc else ValueFrom(base, acc * base + ds[0], ds[1..])
  }

  /** `int.from_bytes(s, byteorder="big")` */
  function FromBig(s: seq<byte>): nat
  {
    ValueFrom(256, 0, s)
  }

  /** `int.from_bytes(s, byteorder="little")`: byte i weighs 256^i. */
  function FromLittle(s: seq<byte>): (r: nat)
    ensures r < Pow256(|s|)
  {
    if s == [] then 0 else s[0] + 256 * FromLittle(s[1..])
  }

  /** `n.to_bytes(k, byteorder="little")`; Python raises OverflowError when
      `n` does not fit in `k` bytes, hence the precondition. */
  function ToLittle(n: nat, k: nat): (r: seq<byte>)
    requires n < Pow256(k)
    ensures |r| == k
  {
    if k == 0 then [] else [n % 256] + ToLittle(n / 256, k - 1)
  }

  /** Appending one digit multiplies the value so far by the base. */
  lemma {:induction false} ValueFromSnoc(base: nat, acc: nat, ds: seq<nat>, d: nat)
    ensures ValueFrom(base, acc, ds + [d]) == ValueFrom(base, acc, ds) * base + d
    decreases |ds|
  {
    if ds == [] {
      assert [] + [d] == [d];
    } else {
      assert (ds + [d])[1..] == ds[1..] + [d];
      ValueFromSnoc(base, acc * base + ds[0], ds[1..], d);
    }
  }

  /** Reading the reversed bytes big-endian is reading them little-endian. */
  lemma {:induction false} BigOfReverse(s: seq<byte>)
    ensures FromBig(Reverse(s)) == FromLittle(s)
  {
    if s != [] {
      BigOfReverse(s[1..]);
      ValueFromSnoc(256, 0, Reverse(s[1..]), s[0]);
    }
  }

  /** `int.from_bytes(n.to_bytes(k, "little"), "little") == n`. */
  lemma {:induction false} LittleRoundTrip(n: nat, k: nat)
    requires n < Pow256(k)
    ensures FromLittle(ToLittle(n, k)) == n
  {
    if k > 0 {
      LittleRoundTrip(n / 256, k - 1);
    }
  }

  /** `int.from_bytes(s, "little").to_bytes(len(s), "little") == s`. */
  lemma {:induction false} LittleBytesRoundTrip(s: seq<byte>)
    ensures ToLittle(FromLittle(s), |s|) == s
  {
    if s != [] {
      LittleBytesRoundTrip(s[1..]);
      assert FromLittle(s) % 256 == s[0];
      assert FromLittle(s) / 256 == FromLittle(s[1..]);
    }
  }

  /** The two-byte little-endian value, spelled out. */
  lemma FromLittle2(s: seq<byte>)
    requires |s| == 2
    ensures FromLittle(s) == s[0] as nat + 256 * (s[1] as nat)
    ensures FromLittle(s) < 0x1_0000
  {
    assert s[1..][1..] == [];
  }

  /** The two-byte big-endian value, spelled out. */
  lemma FromBig2(s: seq<byte>)
    requires |s| == 2
    ensures FromBig(s) == s[0] as nat * 256 + s[1] as nat
  {
    var hi, lo: nat := s[0], s[1];
    assert FromBig(s) == ValueFrom(256, hi, s[1..]);
    assert s[1..][0] == lo && s[1..][1..] == [];
    assert ValueFrom(256, hi, s[1..]) == ValueFrom(256, hi * 256 + lo, []);
  }

  /** The four-byte little-endian value, spelled out. */
  lemma FromLittle4(s: seq<byte>)
    requires |s| == 4
    ensures FromLittle(s) == s[0] as nat + 256 * (s[1] as nat) + 65536 * (s[2] as nat) + 16777216 * (s[3] as nat)
    ensures FromLittle(s) < 0x1_0000_0000
  {
    var t := s[2..];
    assert s[1..][1..] == t;
    FromLittle2(t);
    assert FromLittle(s[1..]) == s[1] as nat + 256 * FromLittle(t);
    assert FromLittle(s) == s[0] as nat + 256 * FromLittle(s[1..]);
  }

  // ---------------------------------------------------------------------------
  // Text

  /** A lower-case hexadecimal digit, as `bytes.hex()` writes it. */
  function HexDigit(n: nat): (c: char)
    requires n < 16
    ensures '0' <= c <= '9' || 'a' <= c <= 'f'
    ensures DigitValue(c) == Some(n)
  {
    if n < 10 then ('0' as nat + n) as char else ('a' as nat + n - 10) as char
  }

  /** `bytes.hex()`: two lower-case digits per byte, high nibble first. */
  function Hex(s: seq<byte>): (r: string)
    ensures |r| == 2 * |s|
  {
    if s == [] then [] else [HexDigit(s[0] / 16), HexDigit(s[0] % 16)] + Hex(s[1..])
  }

  /** `bytes.hex()` writes only the digits 0-9 and the lower-case letters a-f. */
  lemma {:induction false} HexIsLowerCase(s: seq<byte>)
    ensures forall i :: 0 <= i < |Hex(s)| ==> '0' <= Hex(s)[i] <= '9' || 'a' <= Hex(s)[i] <= 'f'
  {
    if s != [] {
      HexIsLowerCase(s[1..]);
      var h := Hex(s);
      assert h == [HexDigit(s[0] / 16), HexDigit(s[0] % 16)] + Hex(s[1..]);
      forall i | 2 <= i < |h|
        ensures h[i] == Hex(s[1..])[i - 2]
      {
      }
    }
  }

  /** `format(n, "0<w>b")` (and `bin(n)[2:].zfill(w)`) for an `n` that fits in
      `w` bits: exactly `w` characters, most significant bit first. */
  function BinaryDigits(n: nat, w: nat): (r: string)
    requires n < Pow2(w)
    ensures |r| == w
    ensures forall i :: 0 <= i < |r| ==> r[i] in "01"
  {
    if w == 0 then [] else BinaryDigits(n / 2, w - 1) + [if n % 2 == 1 then '1' else '0']
  }

  /** The digit value Python's `int(text, base)` gives a character, if any. */
  function DigitValue(c: char): Option<nat>
  {
    if '0' <= c <= '9' then Some(c as nat - '0' as nat)
    else if 'a' <= c <= 'z' then Some(c as nat - 'a' as nat + 10)
    else if 'A' <= c <= 'Z' then Some(c as nat - 'A' as nat + 10)
    else None
  }

  /** The digit values of `t`, or `None` if some character is not a digit of `base`. */
  function DigitValues(t: string, base: nat): (r: Option<seq<nat>>)
    ensures r.Some? ==> |r.value| == |t|
  {
    if t == [] then Some([])
    else match (DigitValue(t[0]), DigitValues(t[1..], base))
      case (Some(d), Some(ds)) => if d < base then Some([d] + ds) else None
      case _ => None
  }

  /** `int(t, base)` on a plain digit string; `None` stands for the ValueError
      Python raises on an empty string or a character that is not a digit. */
  function ParseInt(t: string, base: nat): Option<nat>
  {
    if t == [] then None
    else match DigitValues(t, base)
      case Some(ds) => Some(ValueFrom(base, 0, ds))
      case None => None
  }

  /** The nibbles of `s`, high nibble of each byte first. */
  function Nibbles(s: seq<byte>): (r: seq<nat>)
    ensures |r| == 2 * |s|
  {
    if s == [] then [] else [s[0] / 16, s[0] % 16] + Nibbles(s[1..])
  }

  /** Parsing a string whose first character is a digit of `base`. */
  lemma DigitValuesCons(c: char, t: string, base: nat)
    requires DigitValue(c).Some? && DigitValue(c).value < base
    requires DigitValues(t, base).Some?
    ensures DigitValues([c] + t, base) == Some([DigitValue(c).value] + DigitValues(t, base).value)
  {
    assert ([c] + t)[0] == c && ([c] + t)[1..] == t;
  }

  lemma {:induction false} HexDigitValues(s: seq<byte>)
    ensures DigitValues(Hex(s), 16) == Some(Nibbles(s))
  {
    if s != [] {
      var high, low := s[0] / 16, s[0] % 16;
      var hi, lo := HexDigit(high), HexDigit(low);
      var rest := Hex(s[1..]);
      var tail := [low] + Nibbles(s[1..]);
      assert DigitValues([lo] + rest, 16) == Some(tail) by {
        HexDigitValues(s[1..]);
        DigitValuesCons(lo, rest, 16);
      }
      assert DigitValues([hi] + ([lo] + rest), 16) == Some([high] + tail) by {
        DigitValuesCons(hi, [lo] + rest, 16);
      }
      assert Hex(s) == [hi] + ([lo] + rest);
      assert Nibbles(s) == [high] + tail;
    }
  }

  lemma {:induction false} NibbleValue(acc: nat, s: seq<byte>)
    ensures ValueFrom(16, acc, Nibbles(s)) == ValueFrom(256, acc, s)
    decreases |s|
  {
    if s != [] {
      var n := Nibbles(s);
      assert n[1..][1..] == Nibbles(s[1..]);
      assert (acc * 16 + s[0] / 16) * 16 + s[0] % 16 == acc * 256 + s[0];
      NibbleValue(acc * 256 + s[0], s[1..]);
    }
  }

  /** `int(s.hex(), 16)` is the big-endian value of a non-empty `s`. */
  lemma HexParsesToBig(s: seq<byte>)
    requires s != []
    ensures ParseInt(Hex(s), 16) == Some(FromBig(s))
  {
    HexDigitValues(s);
    NibbleValue(0, s);
  }

  /** The most-significant-first rendering `s[::-1].hex()` has two characters
      per byte and parses back, base 16, to the little-endian value of `s`. */
  lemma HexOfReversed(s: seq<byte>)
    requires s != []
    ensures |Hex(Reverse(s))| == 2 * |s|
    ensures ParseInt(Hex(Reverse(s)), 16) == Some(FromLittle(s))
  {
    HexParsesToBig(Reverse(s));
    BigOfReverse(s);
  }

  lemma {:induction false} BinaryDigitValues(n: nat, w: nat)
    requires n < Pow2(w)
    ensures DigitValues(BinaryDigits(n, w), 2).Some?
    ensures ValueFrom(2, 0, DigitValues(BinaryDigits(n, w), 2).value) == n
  {
    if w > 0 {
      var t := BinaryDigits(n / 2, w - 1);
      var c := if n % 2 == 1 then '1' else '0';
      BinaryDigitValues(n / 2, w - 1);
      DigitValuesSnoc(t, c, 2);
      ValueFromSnoc(2, 0, DigitValues(t, 2).value, n % 2);
    }
  }

  lemma {:induction false} DigitValuesSnoc(t: string, c: char, base: nat)
    requires DigitValues(t, base).Some?
    requires DigitValue(c).Some? && DigitValue(c).value < base
    ensures DigitValues(t + [c], base) == Some(DigitValues(t, base).value + [DigitValue(c).value])
  {
    if t == [] {
      assert [] + [c] == [c];
      assert [c][1..] == [];
      var v := DigitValue(c).value;
      assert [v] + [] == [v] && [] + [v] == [v];
      assert DigitValues([c], base) == Some([v]);
    } else {
      assert (t + [c])[1..] == t[1..] + [c];
      assert (t + [c])[0] == t[0];
      DigitValuesSnoc(t[1..], c, base);
      var d := DigitValue(t[0]).value;
      assert DigitValues(t, base).value == [d] + DigitValues(t[1..], base).value;
      assert [d] + (DigitValues(t[1..], base).value + [DigitValue(c).value])
          == ([d] + DigitValues(t[1..], base).value) + [DigitValue(c).value];
    }
  }

  /** `int(format(n, "0<w>b"), 2) == n` for a non-empty field that holds `n`. */
  lemma BinaryRoundTrip(n: nat, w: nat)
    requires 0 < w && n < Pow2(w)
    ensures ParseInt(BinaryDigits(n, w), 2) == Some(n)
  {
    BinaryDigitValues(n, w);
  }
}
