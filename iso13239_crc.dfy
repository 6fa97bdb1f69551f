/**
 * The 16-bit CRC of ISO/IEC 13239 in the form ISO/IEC 15693-3 (Annex C) uses
 * for every request and response frame: reflected polynomial 0x8408, register
 * preset to 0xFFFF, the final register complemented, and the two CRC bytes
 * appended least significant byte first.
 *
 * The firmware's CRC helpers (`iso13239_crc_append`, `iso13239_crc_check`,
 * `iso13239_crc_trim` with the default CRC type, and `iso15693_crc_append`) are
 * not part of this model; they are taken to compute exactly this CRC.
 */
module Iso13239Crc {

  type byte = bv8

  /** Number of CRC bytes at the end of a frame. */
  const CrcSize: nat := 2

  /** Register value before the first byte is shifted in. */
  const Preset: bv16 := 0xFFFF

  /** One shift of the reflected register: the polynomial 0x8408 is added when the low bit is 1. */
  function ShiftBit(reg: bv16): bv16 {
    (reg >> 1) ^ ((0 - (reg & 1)) & 0x8408)
  }

  /** The register after `n` shifts. */
  function ShiftBits(reg: bv16, n: nat): bv16 {
    if n == 0 then reg else ShiftBit(ShiftBits(reg, n - 1))
  }

  /** Adds one byte to the register and shifts it out, least significant bit first. */
  function UpdateByte(reg: bv16, b: byte): bv16 {
    ShiftBits(reg ^ (b as bv16), 8)
  }

  /** The register after the bytes of `s`, in order, starting from `init`. */
  function RegisterFrom(init: bv16, s: seq<byte>): bv16 {
    if s == [] then init else UpdateByte(RegisterFrom(init, s[..|s| - 1]), s[|s| - 1])
  }

  /** The CRC of `s`. */
  function Crc(s: seq<byte>): bv16 {
    !RegisterFrom(Preset, s)
  }

  /** The two trailer bytes carrying the CRC of `s`, low byte first. */
  function CrcBytes(s: seq<byte>): (r: seq<byte>)
    ensures |r| == CrcSize
  {
    var c := Crc(s);
    [(c & 0xFF) as byte, (c >> 8) as byte]
  }

  /** `s` followed by its CRC: what appending the CRC to a buffer produces. */
  function Append(s: seq<byte>): (r: seq<byte>)
    ensures |r| == |s| + CrcSize
    ensures r[..|s|] == s
  {
    s + CrcBytes(s)
  }

  /**
   * The frame ends with the CRC of everything before the last two bytes. A
   * frame of exactly two bytes is checked against the CRC of no bytes.
   */
  predicate CrcChecks(s: seq<byte>) {
    |s| >= CrcSize && s[|s| - CrcSize..] == CrcBytes(s[..|s| - CrcSize])
  }

  /** The frame without its CRC trailer. */
  function Trim(s: seq<byte>): (r: seq<byte>)
    requires |s| >= CrcSize
    ensures |r| == |s| - CrcSize
  {
    s[..|s| - CrcSize]
  }

  /** The trailer reassembles into the CRC, low byte first. */
  lemma CrcBytesLowFirst(s: seq<byte>)
    ensures ((CrcBytes(s)[1] as bv16) << 8) | (CrcBytes(s)[0] as bv16) == Crc(s)
  {
  }

  /** Appending the CRC and then checking and trimming it gives back the frame. */
  lemma AppendChecks(s: seq<byte>)
    ensures CrcChecks(Append(s))
    ensures Trim(Append(s)) == s
  {
    var f := Append(s);
    assert f[..|s|] == s;
    assert f[|s|..] == CrcBytes(s);
  }

  /** A frame passes the check exactly when it is some payload with its CRC appended. */
  lemma CheckedIsAppended(s: seq<byte>)
    ensures CrcChecks(s) <==> (|s| >= CrcSize && s == Append(Trim(s)))
  {
    if |s| >= CrcSize {
      assert s == s[..|s| - CrcSize] + s[|s| - CrcSize..];
    }
  }

  /** Two payloads with the same trailer have the same CRC. */
  lemma CrcBytesInjective(a: seq<byte>, b: seq<byte>)
    requires CrcBytes(a) == CrcBytes(b)
    ensures Crc(a) == Crc(b)
  {
    CrcBytesLowFirst(a);
    CrcBytesLowFirst(b);
  }

  /** The CRC of the empty payload is 0x0000, so `00 00` on its own passes the check. */
  lemma EmptyPayloadCrc()
    ensures Crc([]) == 0x0000
    ensures CrcChecks([0x00, 0x00])
  {
    assert [0x00, 0x00][..0] == [];
  }

  /** The register over `s` followed by `b` is the register over `s` with `b` shifted in. */
  lemma RegisterSnoc(init: bv16, s: seq<byte>, b: byte)
    ensures RegisterFrom(init, s + [b]) == UpdateByte(RegisterFrom(init, s), b)
  {
    assert (s + [b])[..|s|] == s;
  }

  /** The catalogued check value of this CRC: the ASCII digits "123456789" give 0x906E. */
  lemma CheckValue()
    ensures Crc([0x31, 0x32, 0x33, 0x34, 0x35, 0x36, 0x37, 0x38, 0x39]) == 0x906E
  {
    assert ShiftBits(0xFFCE, 8) == 0x2F8D;
    assert ShiftBits(0x2FBF, 8) == 0x4D53;
    assert ShiftBits(0x4D60, 8) == 0x634B;
    assert ShiftBits(0x637F, 8) == 0x8B13;
    assert ShiftBits(0x8B26, 8) == 0x44BF;
    assert ShiftBits(0x4489, 8) == 0x198D;
    assert ShiftBits(0x19BA, 8) == 0x1AC8;
    assert ShiftBits(0x1AF0, 8) == 0xF795;
    assert ShiftBits(0xF7AC, 8) == 0x6F91;
    RegisterSnoc(Preset, [], 0x31);
    assert [] + [0x31 as byte] == [0x31];
    assert UpdateByte(0xFFFF, 0x31) == 0x2F8D;
    RegisterSnoc(Preset, [0x31], 0x32);
    assert [0x31] + [0x32 as byte] == [0x31, 0x32];
    assert UpdateByte(0x2F8D, 0x32) == 0x4D53;
    RegisterSnoc(Preset, [0x31, 0x32], 0x33);
    assert [0x31, 0x32] + [0x33 as byte] == [0x31, 0x32, 0x33];
    assert UpdateByte(0x4D53, 0x33) == 0x634B;
    RegisterSnoc(Preset, [0x31, 0x32, 0x33], 0x34);
    assert [0x31, 0x32, 0x33] + [0x34 as byte] == [0x31, 0x32, 0x33, 0x34];
    assert UpdateByte(0x634B, 0x34) == 0x8B13;
    RegisterSnoc(Preset, [0x31, 0x32, 0x33, 0x34], 0x35);
    assert [0x31, 0x32, 0x33, 0x34] + [0x35 as byte] == [0x31, 0x32, 0x33, 0x34, 0x35];
    assert UpdateByte(0x8B13, 0x35) == 0x44BF;
    RegisterSnoc(Preset, [0x31, 0x32, 0x33, 0x34, 0x35], 0x36);
    assert [0x31, 0x32, 0x33, 0x34, 0x35] + [0x36 as byte] == [0x31, 0x32, 0x33, 0x34, 0x35, 0x36];
    assert UpdateByte(0x44BF, 0x36) == 0x198D;
    RegisterSnoc(Preset, [0x31, 0x32, 0x33, 0x34, 0x35, 0x36], 0x37);
    assert [0x31, 0x32, 0x33, 0x34, 0x35, 0x36] + [0x37 as byte] == [0x31, 0x32, 0x33, 0x34, 0x35, 0x36, 0x37];
    assert UpdateByte(0x198D, 0x37) == 0x1AC8;
    RegisterSnoc(Preset, [0x31, 0x32, 0x33, 0x34, 0x35, 0x36, 0x37], 0x38);
    assert [0x31, 0x32, 0x33, 0x34, 0x35, 0x36, 0x37] + [0x38 as byte] == [0x31, 0x32, 0x33, 0x34, 0x35, 0x36, 0x37, 0x38];
    assert UpdateByte(0x1AC8, 0x38) == 0xF795;
    RegisterSnoc(Preset, [0x31, 0x32, 0x33, 0x34, 0x35, 0x36, 0x37, 0x38], 0x39);
    assert [0x31, 0x32, 0x33, 0x34, 0x35, 0x36, 0x37, 0x38] + [0x39 as byte] == [0x31, 0x32, 0x33, 0x34, 0x35, 0x36, 0x37, 0x38, 0x39];
    assert UpdateByte(0xF795, 0x39) == 0x6F91;
  }

  // ---------------------------------------------------------------------------
  // Error detection: a corruption confined to one byte never passes the check.

  /** A shift loses no information: different registers stay different. */
  lemma ShiftBitInjective(x: bv16, y: bv16)
    ensures ShiftBit(x) == ShiftBit(y) ==> x == y
  {
  }

  /** Any number of shifts loses no information. */
  lemma {:induction false} ShiftBitsInjective(x: bv16, y: bv16, n: nat)
    ensures ShiftBits(x, n) == ShiftBits(y, n) ==> x == y
  {
    if n > 0 {
      ShiftBitInjective(ShiftBits(x, n - 1), ShiftBits(y, n - 1));
      ShiftBitsInjective(x, y, n - 1);
    }
  }

  /** From one register, two different bytes lead to two different registers. */
  lemma UpdateByteInjectiveInByte(reg: bv16, a: byte, b: byte)
    ensures UpdateByte(reg, a) == UpdateByte(reg, b) ==> a == b
  {
    ShiftBitsInjective(reg ^ (a as bv16), reg ^ (b as bv16), 8);
  }

  /** The same byte shifted into two different registers leaves them different. */
  lemma UpdateByteInjectiveInRegister(x: bv16, y: bv16, b: byte)
    ensures UpdateByte(x, b) == UpdateByte(y, b) ==> x == y
  {
    ShiftBitsInjective(x ^ (b as bv16), y ^ (b as bv16), 8);
  }

  /** The same bytes shifted into two different registers leave them different. */
  lemma {:induction false} RegisterFromInjective(x: bv16, y: bv16, s: seq<byte>)
    ensures RegisterFrom(x, s) == RegisterFrom(y, s) ==> x == y
  {
    if s != [] {
      var n := |s| - 1;
      UpdateByteInjectiveInRegister(RegisterFrom(x, s[..n]), RegisterFrom(y, s[..n]), s[n]);
      RegisterFromInjective(x, y, s[..n]);
    }
  }

  /** The register over a concatenation continues from the register over the first part. */
  lemma {:induction false} RegisterConcat(init: bv16, a: seq<byte>, b: seq<byte>)
    ensures RegisterFrom(init, a + b) == RegisterFrom(RegisterFrom(init, a), b)
    decreases |b|
  {
    if b == [] {
      assert a + b == a;
    } else {
      var n, ab := |b| - 1, a + b;
      assert ab[..|ab| - 1] == a + b[..n];
      assert ab[|ab| - 1] == b[n];
      RegisterConcat(init, a, b[..n]);
    }
  }

  /** Two payloads that differ in exactly one byte have different CRCs. */
  lemma OneByteChangesCrc(p: seq<byte>, q: seq<byte>, i: nat)
    requires |p| == |q| && i < |p|
    requires p[i] != q[i]
    requires p[..i] == q[..i] && p[i + 1..] == q[i + 1..]
    ensures Crc(p) != Crc(q)
  {
    var r := RegisterFrom(Preset, p[..i]);
    assert p == p[..i] + [p[i]] + p[i + 1..];
    assert q == q[..i] + [q[i]] + q[i + 1..];
    RegisterConcat(Preset, p[..i] + [p[i]], p[i + 1..]);
    RegisterConcat(Preset, q[..i] + [q[i]], q[i + 1..]);
    assert (p[..i] + [p[i]])[..i] == p[..i];
    assert (q[..i] + [q[i]])[..i] == q[..i];
    UpdateByteInjectiveInByte(r, p[i], q[i]);
    RegisterFromInjective(UpdateByte(r, p[i]), UpdateByte(r, q[i]), p[i + 1..]);
  }

  /** The frame `s` with byte `i` replaced by its exclusive or with `d`. */
  function Corrupt(s: seq<byte>, i: nat, d: byte): (r: seq<byte>)
    requires i < |s|
    ensures |r| == |s|
  {
    s[i := s[i] ^ d]
  }

  /**
   * Any corruption confined to one byte of a frame carrying its CRC (every
   * single-bit error in particular) makes the CRC check fail.
   */
  lemma SingleByteErrorDetected(p: seq<byte>, i: nat, d: byte)
    requires i < |p| + CrcSize && d != 0
    ensures !CrcChecks(Corrupt(Append(p), i, d))
  {
    var s := Append(p);
    var c := Corrupt(s, i, d);
    var n := |p|;
    assert c[i] != s[i];
    if i < n {
      var p' := c[..n];
      assert p'[..i] == p[..i] && p'[i + 1..] == p[i + 1..];
      assert p'[i] == c[i] && p[i] == s[i];
      OneByteChangesCrc(p', p, i);
      assert c[n..] == s[n..] == CrcBytes(p);
      if CrcBytes(p') == CrcBytes(p) {
        CrcBytesInjective(p', p);
      }
    } else {
      assert c[..n] == p;
      assert c[n..][i - n] == c[i] && s[n..][i - n] == s[i];
      assert s[n..] == CrcBytes(p);
    }
  }
}
