/** Little-endian fields of a byte string: how the boot information's
    `#[repr(C)]` structures are laid out in memory on x86_64. */
module Bytes {
  import opened Base

  function Pow256(n: nat): (r: nat)
    ensures r >= 1
  {
    if n == 0 then 1 else 256 * Pow256(n - 1)
  }

  lemma Pow256Table()
    ensures Pow256(2) == TWO_16 && Pow256(4) == TWO_32 && Pow256(8) == TWO_64
  {
    assert Pow256(4) == TWO_32;
    assert Pow256(8) == 256 * 256 * 256 * 256 * Pow256(4);
  }

  /** An `n`-byte field holds less than `256^n`. */
  lemma {:induction false} LittleEndianBelow(bs: seq<byte>)
    ensures LittleEndian(bs) < Pow256(|bs|)
  {
    if |bs| > 0 {
      LittleEndianBelow(bs[1..]);
    }
  }

  /** The `n` low bytes of `v`, least significant first. */
  function ToLittleEndian(v: nat, n: nat): (bs: seq<byte>)
    ensures |bs| == n
    ensures v < Pow256(n) ==> LittleEndian(bs) == v
  {
    if n == 0 then []
    else [v % 256] + ToLittleEndian(v / 256, n - 1)
  }

  /** Decoding a field and encoding it back gives the same bytes. */
  lemma {:induction false} LittleEndianRoundTrip(bs: seq<byte>)
    ensures ToLittleEndian(LittleEndian(bs), |bs|) == bs
  {
    if |bs| > 0 {
      var v := LittleEndian(bs);
      LittleEndianBelow(bs[1..]);
      DivModOf(LittleEndian(bs[1..]), 256, bs[0]);
      LittleEndianRoundTrip(bs[1..]);
      assert bs == [bs[0]] + bs[1..];
    }
  }

  /** The `u32` at offset `off`, least significant byte first. */
  function ReadU32(bytes: seq<byte>, off: nat): u32
    requires off + 4 <= |bytes|
  {
    (bytes[off] as nat) + 0x100 * (bytes[off + 1] as nat) + 0x1_0000 * (bytes[off + 2] as nat)
      + 0x100_0000 * (bytes[off + 3] as nat)
  }

  /** The `u64` at offset `off`: two `u32`, the low one first. */
  function ReadU64(bytes: seq<byte>, off: nat): u64
    requires off + 8 <= |bytes|
  {
    ReadU32(bytes, off) + TWO_32 * ReadU32(bytes, off + 4)
  }

  /** `ReadU32` is the little-endian value of the four bytes. */
  lemma ReadU32IsLittleEndian(bytes: seq<byte>, off: nat)
    requires off + 4 <= |bytes|
    ensures LittleEndian(bytes[off..off + 4]) == ReadU32(bytes, off)
  {
    var s := bytes[off..off + 4];
    assert s[1..][1..][1..][1..] == [];
    assert LittleEndian(s[1..][1..][1..]) == bytes[off + 3];
    var b1: nat, b2: nat, b3: nat := bytes[off + 1], bytes[off + 2], bytes[off + 3];
    assert LittleEndian(s[1..][1..]) == b2 + 256 * b3;
    assert LittleEndian(s[1..]) == b1 + 256 * b2 + 0x1_0000 * b3;
  }

  lemma ReadU64IsLittleEndian(bytes: seq<byte>, off: nat)
    requires off + 8 <= |bytes|
    ensures LittleEndian(bytes[off..off + 8]) == ReadU64(bytes, off)
  {
    var s := bytes[off..off + 8];
    ReadU32IsLittleEndian(bytes, off);
    ReadU32IsLittleEndian(bytes, off + 4);
    LittleEndianSplit(s, 4);
    assert s[..4] == bytes[off..off + 4];
    assert s[4..] == bytes[off + 4..off + 8];
    Pow256Table();
  }

  /** A field is its low `k` bytes plus `256^k` times the rest. */
  lemma {:induction false} LittleEndianSplit(bs: seq<byte>, k: nat)
    requires k <= |bs|
    ensures LittleEndian(bs) == LittleEndian(bs[..k]) + Pow256(k) * LittleEndian(bs[k..])
  {
    if k > 0 {
      LittleEndianSplit(bs[1..], k - 1);
      assert bs[1..][..k - 1] == bs[..k][1..];
      assert bs[1..][k - 1..] == bs[k..];
      var low, p, high := LittleEndian(bs[..k][1..]), Pow256(k - 1), LittleEndian(bs[k..]);
      assert LittleEndian(bs[1..]) == low + p * high;
      assert LittleEndian(bs[..k]) == bs[0] + 256 * low;
      ShiftByte(bs[0], low, p, high);
    }
  }

  lemma ShiftByte(b: nat, low: nat, p: nat, high: nat)
    ensures b + 256 * (low + p * high) == (b + 256 * low) + (256 * p) * high
  {
  }

  /** A field is the encoding of the value read from it. */
  lemma ReadU32Encodes(bytes: seq<byte>, off: nat)
    requires off + 4 <= |bytes|
    ensures ToLittleEndian(ReadU32(bytes, off), 4) == bytes[off..off + 4]
  {
    ReadU32IsLittleEndian(bytes, off);
    LittleEndianRoundTrip(bytes[off..off + 4]);
  }

  lemma ReadU64Encodes(bytes: seq<byte>, off: nat)
    requires off + 8 <= |bytes|
    ensures ToLittleEndian(ReadU64(bytes, off), 8) == bytes[off..off + 8]
  {
    ReadU64IsLittleEndian(bytes, off);
    LittleEndianRoundTrip(bytes[off..off + 8]);
  }

  lemma ReadU32OfEncoding(before: seq<byte>, v: u32, after: seq<byte>)
    ensures ReadU32(before + ToLittleEndian(v, 4) + after, |before|) == v
  {
    var bytes := before + ToLittleEndian(v, 4) + after;
    assert bytes[|before|..|before| + 4] == ToLittleEndian(v, 4);
    ReadU32At(bytes, |before|, v);
  }

  lemma ReadU64OfEncoding(before: seq<byte>, v: u64, after: seq<byte>)
    ensures ReadU64(before + ToLittleEndian(v, 8) + after, |before|) == v
  {
    Pow256Table();
    var bytes := before + ToLittleEndian(v, 8) + after;
    assert bytes[|before|..|before| + 8] == ToLittleEndian(v, 8);
    ReadU64IsLittleEndian(bytes, |before|);
  }

  /** A `u32` field is read as the value whose encoding it holds. */
  lemma ReadU32At(bytes: seq<byte>, off: nat, v: u32)
    requires off + 4 <= |bytes| && bytes[off..off + 4] == ToLittleEndian(v, 4)
    ensures ReadU32(bytes, off) == v
  {
    Pow256Table();
    ReadU32IsLittleEndian(bytes, off);
  }

  /** Four 4-byte pieces and what follows, located in their
      concatenation. */
  lemma Split4(p: seq<byte>, q: seq<byte>, r: seq<byte>, s: seq<byte>, rest: seq<byte>)
    requires |p| == |q| == |r| == |s| == 4
    ensures var b := p + q + r + s + rest;
            b[0..4] == p && b[4..8] == q && b[8..12] == r && b[12..16] == s && b[16..] == rest
  {
  }

  /** Four `u32` written one after the other read back as written. */
  lemma FourU32(a: u32, b: u32, c: u32, d: u32, rest: seq<byte>)
    ensures var bytes := ToLittleEndian(a, 4) + ToLittleEndian(b, 4) + ToLittleEndian(c, 4)
                         + ToLittleEndian(d, 4) + rest;
            ReadU32(bytes, 0) == a && ReadU32(bytes, 4) == b &&
            ReadU32(bytes, 8) == c && ReadU32(bytes, 12) == d &&
            bytes[16..] == rest
  {
    var ta := ToLittleEndian(a, 4);
    var tb := ToLittleEndian(b, 4);
    var tc := ToLittleEndian(c, 4);
    var td := ToLittleEndian(d, 4);
    Split4(ta, tb, tc, td, rest);
    FourReads(ta + tb + tc + td + rest, a, b, c, d);
  }

  lemma FourReads(bytes: seq<byte>, a: u32, b: u32, c: u32, d: u32)
    requires |bytes| >= 16
    requires bytes[0..4] == ToLittleEndian(a, 4) && bytes[4..8] == ToLittleEndian(b, 4)
    requires bytes[8..12] == ToLittleEndian(c, 4) && bytes[12..16] == ToLittleEndian(d, 4)
    ensures ReadU32(bytes, 0) == a && ReadU32(bytes, 4) == b
    ensures ReadU32(bytes, 8) == c && ReadU32(bytes, 12) == d
  {
    ReadU32At(bytes, 0, a);
    ReadU32At(bytes, 4, b);
    ReadU32At(bytes, 8, c);
    ReadU32At(bytes, 12, d);
  }

  /** Adjacent slices join. */
  lemma SliceJoin(bytes: seq<byte>, i: nat, j: nat, k: nat)
    requires i <= j <= k <= |bytes|
    ensures bytes[i..j] + bytes[j..k] == bytes[i..k]
  {
  }
}
