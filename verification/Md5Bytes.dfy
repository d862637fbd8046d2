/** The padding, the first chaining words and the output of Md5 in bytes: sections 3.1 to 3.3 and 3.5 of RFC 1321. */
module Md5Bytes {
  import opened Bytes
  import opened Md5
  import opened Numbers

  /** What `n` is in its k-th byte from the lowest. */
  function ByteOf(n: nat, k: nat): int {
    if k == 0 then n % 256 else ByteOf(n / 256, k - 1)
  }

  /** The low eight bytes of a number, the lowest first. */
  function LowEight(n: nat): seq<int> {
    [ByteOf(n, 0), ByteOf(n, 1), ByteOf(n, 2), ByteOf(n, 3), ByteOf(n, 4), ByteOf(n, 5), ByteOf(n, 6), ByteOf(n, 7)]
  }

  /** The byte 80 (hexadecimal), as few zeros as fill up to 56 bytes behind whole blocks of 64, and the
      number of bits in eight bytes, the lowest first. */
  lemma PaddedInBytes(m: seq<byte>) returns (zeros: nat)
    ensures zeros < 64 && (|m| + 1 + zeros) % 64 == 56
    ensures Padded(m) == m + [0x80] + seq(zeros, k => 0) + LowEight(8 * |m|)
  {
    zeros := |Padding(|m|)| - 1;
    assert Padding(|m|) == [0x80] + seq(zeros, k => 0);
    LengthInBytes(|m|);
    assert Padded(m) == m + ([0x80] + seq(zeros, k => 0) + LowEight(8 * |m|));
  }

  lemma LengthInBytes(n: nat)
    ensures LengthField(n) == LowEight(8 * n)
  {
    LengthBytes(n, 0);
    LengthBytes(n, 1);
    LengthBytes(n, 2);
    LengthBytes(n, 3);
    LengthBytes(n, 4);
    LengthBytes(n, 5);
    LengthBytes(n, 6);
    LengthBytes(n, 7);
  }

  lemma LengthBytes(n: nat, k: nat)
    requires k < 8
    ensures LengthField(n)[k] == ByteOf(8 * n, k)
  {
    var x := 8 * n;
    ModuloKeepsLow(x);
    FourBytesOf(BitLength(n) % 0x1_0000_0000, k % 4);
    FourBytesOf(BitLength(n) / 0x1_0000_0000, k % 4);
    if k < 4 {
      SameLow(x, BitLength(n) % 0x1_0000_0000, k);
    } else {
      HighBytes(x, k);
      SameLow(x / 0x1_0000_0000, BitLength(n) / 0x1_0000_0000, k - 4);
    }
  }

  lemma ModuloKeepsLow(x: nat)
    ensures var r := x % 0x1_0000_0000_0000_0000;
      r % 0x1_0000_0000 == x % 0x1_0000_0000 && r / 0x1_0000_0000 == x / 0x1_0000_0000 % 0x1_0000_0000
  {
    var hi, lo := x / 0x1_0000_0000, x % 0x1_0000_0000;
    var q, r := hi / 0x1_0000_0000, hi % 0x1_0000_0000;
    assert x == lo + r * 0x1_0000_0000 + q * 0x1_0000_0000_0000_0000;
    LowPart(q, r, lo);
  }

  lemma LowPart(q: nat, r: word, lo: word)
    ensures var y := lo + r * 0x1_0000_0000;
      (y + q * 0x1_0000_0000_0000_0000) % 0x1_0000_0000_0000_0000 == y && y % 0x1_0000_0000 == lo && y / 0x1_0000_0000 == r
  {
  }

  lemma FourBytesOf(x: nat, k: nat)
    requires k < 4
    ensures LittleEndian(x)[k] == ByteOf(x, k)
  {
    assert x / 0x100 / 0x100 == x / 0x1_0000 && x / 0x1_0000 / 0x100 == x / 0x100_0000;
    assert ByteOf(x, 1) == x / 0x100 % 256 && ByteOf(x, 2) == x / 0x100 / 0x100 % 256;
    assert ByteOf(x, 3) == ByteOf(x / 0x100, 2) == x / 0x100 / 0x100 / 0x100 % 256;
  }

  /** The low four bytes depend on the low 32 bits only. */
  lemma SameLow(x: nat, y: nat, k: nat)
    requires k < 4 && y == x % 0x1_0000_0000
    ensures ByteOf(x, k) == ByteOf(y, k)
  {
    FourBytesOf(x, k);
    FourBytesOf(y, k);
    var q := x / 0x1_0000_0000;
    AddedBytes(y, 0x100_0000 * q);
    if k == 1 {
      AddedBytes(y / 0x100, 0x1_0000 * q);
    } else if k == 2 {
      assert x / 0x1_0000 == y / 0x1_0000 + 256 * (0x100 * q);
      AddedBytes(y / 0x1_0000, 0x100 * q);
    } else if k == 3 {
      assert x / 0x100_0000 == y / 0x100_0000 + 256 * q;
      AddedBytes(y / 0x100_0000, q);
    }
  }

  lemma AddedBytes(y: nat, q: nat)
    ensures (y + 256 * q) % 256 == y % 256 && (y + 256 * q) / 256 == y / 256 + q
  {
  }

  lemma HighBytes(x: nat, k: nat)
    requires 4 <= k < 8
    ensures ByteOf(x, k) == ByteOf(x / 0x1_0000_0000, k - 4)
  {
    assert x / 256 / 256 / 256 / 256 == x / 0x1_0000_0000;
    assert ByteOf(x, k) == ByteOf(x / 256, k - 1) == ByteOf(x / 256 / 256, k - 2);
    assert ByteOf(x / 256 / 256, k - 2) == ByteOf(x / 256 / 256 / 256, k - 3) == ByteOf(x / 256 / 256 / 256 / 256, k - 4);
  }

  /** The chaining words start as the bytes 01 23 .. ef and back again, the lowest byte first. */
  lemma InitInBytes()
    ensures Output(INIT) == [0x01, 0x23, 0x45, 0x67, 0x89, 0xAB, 0xCD, 0xEF, 0xFE, 0xDC, 0xBA, 0x98, 0x76, 0x54, 0x32, 0x10]
  {
  }

  /** The digest is A, B, C and D, each with its lowest byte first. */
  lemma OutputInBytes(w: Words, k: nat)
    requires k < 4
    ensures var out := Output(w);
      |out| == 16 && out[k] == ByteOf(w.a, k) && out[4 + k] == ByteOf(w.b, k) && out[8 + k] == ByteOf(w.c, k) && out[12 + k] == ByteOf(w.d, k)
  {
    FourBytesOf(w.a, k);
    FourBytesOf(w.b, k);
    FourBytesOf(w.c, k);
    FourBytesOf(w.d, k);
  }
}
