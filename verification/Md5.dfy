/**
 The streaming MD5 of ikcc_service/src/src/xlinkgateway/src/XGmd5.c against the one-shot
 definition in sections 3.1 to 3.4 of RFC 1321. The compression of one block is a parameter:
 what is proved holds for any.
 */
module Md5 {
  import opened Bytes
  import opened Numbers

  /** The four chaining words A, B, C and D. */
  datatype Words = Words(a: word, b: word, c: word, d: word)

  const INIT: Words := Words(0x67452301, 0xefcdab89, 0x98badcfe, 0x10325476)

  type Compression = (Words, seq<byte>) -> Words

  // ---- the definition ----

  function Zeros(n: nat): (z: seq<byte>)
    ensures |z| == n && forall k :: 0 <= k < n ==> z[k] == 0
  {
    seq(n, _ => 0)
  }

  /** Least significant byte first. */
  function LittleEndian(x: int): (s: seq<byte>)
    ensures |s| == 4
  {
    [x % 256, x / 0x100 % 256, x / 0x1_0000 % 256, x / 0x100_0000 % 256]
  }

  /** The number of bits of a message of n bytes, as 64 bits. */
  function BitLength(n: nat): nat {
    n * 8 % 0x1_0000_0000_0000_0000
  }

  /** Section 3.1: a one bit and zeros up to eight bytes short of a block. */
  function Padding(n: nat): (p: seq<byte>)
    ensures (n + |p|) % 64 == 56 && 1 <= |p| <= 64
  {
    [0x80] + Zeros((119 - n % 64) % 64)
  }

  /** Section 3.2: the length in bits, low word first. */
  function LengthField(n: nat): (s: seq<byte>)
    ensures |s| == 8
  {
    LittleEndian(BitLength(n) % 0x1_0000_0000) + LittleEndian(BitLength(n) / 0x1_0000_0000)
  }

  /** Everything that is appended to a message of n bytes. */
  function Trailer(n: nat): (t: seq<byte>)
    ensures (n + |t|) % 64 == 0 && 9 <= |t| <= 72
  {
    BlockFull(n, |Padding(n)|);
    Padding(n) + LengthField(n)
  }

  lemma BlockFull(n: nat, k: nat)
    requires (n + k) % 64 == 56
    ensures (n + (k + 8)) % 64 == 0
  {
  }

  function Padded(m: seq<byte>): (p: seq<byte>)
    ensures |p| % 64 == 0
  {
    m + Trailer(|m|)
  }

  /** Section 3.4: the blocks of a padded message, one after the other. */
  function Fold(f: Compression, m: seq<byte>): Words
    requires |m| % 64 == 0
    decreases |m|
  {
    if m == [] then INIT else f(Fold(f, m[..|m| - 64]), m[|m| - 64..])
  }

  /** Section 3.5 */
  function Output(w: Words): seq<byte> {
    LittleEndian(w.a) + LittleEndian(w.b) + LittleEndian(w.c) + LittleEndian(w.d)
  }

  function Digest(f: Compression, m: seq<byte>): seq<byte> {
    Output(Fold(f, Padded(m)))
  }

  // ---- lemmas ----

  /** The whole blocks at the start of a message. */
  function Blocks(m: seq<byte>): (b: seq<byte>)
    ensures |b| % 64 == 0
  {
    WholeBlocks(|m|);
    m[..|m| - |m| % 64]
  }

  lemma WholeBlocks(n: nat)
    ensures (n - n % 64) % 64 == 0
  {
  }

  lemma Remainder(n: nat, r: nat)
    requires n % 64 == 0 && r < 64
    ensures (n + r) % 64 == r
  {
  }

  lemma FoldBlock(f: Compression, m: seq<byte>, block: seq<byte>)
    requires |m| % 64 == 0 && |block| == 64
    ensures Fold(f, m + block) == f(Fold(f, m), block)
  {
  }

  lemma LittleEndianInjective(x: word, y: word)
    requires LittleEndian(x) == LittleEndian(y)
    ensures x == y
  {
    FourBytes(x);
    FourBytes(y);
    assert forall k :: 0 <= k < 4 ==> LittleEndian(x)[k] == LittleEndian(y)[k];
  }

  lemma FourBytes(x: word)
    ensures BigEndian(LittleEndian(x)[3], LittleEndian(x)[2], LittleEndian(x)[1], LittleEndian(x)[0]) == x
  {
    var a := x / 0x100;
    var b := a / 0x100;
    assert x == 0x100 * a + x % 0x100 && a == 0x100 * b + a % 0x100 && b == 0x100 * (b / 0x100) + b % 0x100;
    assert x / 0x1_0000 == b && x / 0x100_0000 == b / 0x100;
  }

  /** No two messages of less than 2 to the 61 bytes are padded alike. */
  lemma PaddedIsInjective(m: seq<byte>, m': seq<byte>)
    requires |m| < 0x2000_0000_0000_0000 && |m'| < 0x2000_0000_0000_0000 && Padded(m) == Padded(m')
    ensures m == m'
  {
    var p, p' := Padded(m), Padded(m');
    LastEight(m);
    LastEight(m');
    SameLength(|m|, |m'|);
    assert m == p[..|m|] == p'[..|m|] == m';
  }

  lemma LastEight(m: seq<byte>)
    ensures Padded(m)[|Padded(m)| - 8..] == LengthField(|m|)
  {
  }

  lemma SameLength(n: nat, n': nat)
    requires n < 0x2000_0000_0000_0000 && n' < 0x2000_0000_0000_0000 && LengthField(n) == LengthField(n')
    ensures n == n'
  {
    assert BitLength(n) == n * 8 && BitLength(n') == n' * 8;
    SameWords(BitLength(n), BitLength(n'));
  }

  lemma SameWords(h: nat, h': nat)
    requires h < 0x1_0000_0000_0000_0000 && h' < 0x1_0000_0000_0000_0000
    requires LittleEndian(h % 0x1_0000_0000) + LittleEndian(h / 0x1_0000_0000) ==
             LittleEndian(h' % 0x1_0000_0000) + LittleEndian(h' / 0x1_0000_0000)
    ensures h == h'
  {
    var lo, hi, lo', hi' := h % 0x1_0000_0000, h / 0x1_0000_0000, h' % 0x1_0000_0000, h' / 0x1_0000_0000;
    Halves(lo, hi);
    Halves(lo', hi');
    LittleEndianInjective(lo, lo');
    LittleEndianInjective(hi, hi');
  }

  lemma Halves(x: int, y: int)
    ensures (LittleEndian(x) + LittleEndian(y))[..4] == LittleEndian(x)
    ensures (LittleEndian(x) + LittleEndian(y))[4..] == LittleEndian(y)
  {
  }

  /** The counter kept in two words, with a carry between them, counts the bits. */
  lemma CountBits(n: nat, lo: word, hi: word, len: nat)
    requires lo + hi * 0x1_0000_0000 == BitLength(n) && len < 0x1_0000_0000
    ensures var low := (lo + len * 8 % 0x1_0000_0000) % 0x1_0000_0000;
      var carry := if low < lo then 1 else 0;
      low + (hi + carry + len / 0x2000_0000) % 0x1_0000_0000 * 0x1_0000_0000 == BitLength(n + len)
  {
    var low := (lo + len * 8 % 0x1_0000_0000) % 0x1_0000_0000;
    var carry := if low < lo then 1 else 0;
    var high := len / 0x2000_0000;
    assert len * 8 == high * 0x1_0000_0000 + len * 8 % 0x1_0000_0000;
    assert lo + len * 8 % 0x1_0000_0000 == low + carry * 0x1_0000_0000;
    var total := lo + hi * 0x1_0000_0000 + len * 8;
    assert total == low + (hi + carry + high) * 0x1_0000_0000;
    var wrap := (hi + carry + high) / 0x1_0000_0000;
    assert total == low + (hi + carry + high) % 0x1_0000_0000 * 0x1_0000_0000 + wrap * 0x1_0000_0000_0000_0000;
    Modulo(n, len, low + (hi + carry + high) % 0x1_0000_0000 * 0x1_0000_0000, wrap);
  }

  lemma Modulo(n: nat, len: nat, r: nat, wrap: nat)
    requires r < 0x1_0000_0000_0000_0000 && BitLength(n) + len * 8 == r + wrap * 0x1_0000_0000_0000_0000
    ensures r == BitLength(n + len)
  {
  }

  lemma WrapTwice(hi: word, carry: nat, high: nat)
    ensures ((hi + carry) % 0x1_0000_0000 + high) % 0x1_0000_0000 == (hi + carry + high) % 0x1_0000_0000
    ensures (hi + 0) % 0x1_0000_0000 == hi
  {
  }

  /** The bytes waiting in the block are the length modulo 64. */
  lemma Waiting(n: nat, lo: word, hi: word)
    requires lo + hi * 0x1_0000_0000 == BitLength(n)
    ensures lo / 8 % 64 == n % 64
  {
    var q := n * 8 / 0x1_0000_0000_0000_0000;
    assert n * 8 == lo + hi * 0x1_0000_0000 + q * 0x1_0000_0000_0000_0000;
    assert n == lo / 8 + hi * 0x2000_0000 + q * 0x2000_0000_0000_0000;
  }

  // ---- the code ----

  class Context {
    const f: Compression
    var buf: Words
    var bits0: word
    var bits1: word
    const data: array<byte>
    ghost var message: seq<byte>

    /** Whole blocks are folded in, the rest waits in the block buffer, and the bits are counted. */
    ghost predicate Valid()
      reads this, data
    {
      data.Length == 64 && bits0 + bits1 * 0x1_0000_0000 == BitLength(|message|) && Absorbed(message)
    }

    ghost predicate Absorbed(m: seq<byte>)
      reads this, data
      requires data.Length == 64
    {
      var t := |m| % 64;
      buf == Fold(f, Blocks(m)) && data[..t] == m[|m| - t..]
    }

    /** `XlinkMD5Init` */
    constructor (compression: Compression)
      ensures Valid() && f == compression && message == [] && fresh(data)
    {
      f := compression;
      buf, bits0, bits1 := INIT, 0, 0;
      data := new byte[64](_ => 0);
      message := [];
    }

    /** `XlinkMD5Transform` on the block buffer. */
    method Transform(ghost m: seq<byte>)
      requires data.Length == 64 && |m| % 64 == 0 && buf == Fold(f, m)
      modifies this`buf
      ensures buf == Fold(f, m + data[..])
    {
      FoldBlock(f, m, data[..]);
      buf := f(buf, data[..]);
    }

    /** The bit count at the start of `XlinkMD5Update`. */
    method Count(ghost n: nat, len: nat)
      requires bits0 + bits1 * 0x1_0000_0000 == BitLength(n) && len < 0x1_0000_0000
      modifies this`bits0, this`bits1
      ensures bits0 + bits1 * 0x1_0000_0000 == BitLength(n + len)
    {
      CountBits(n, bits0, bits1, len);
      var t := bits0;
      bits0 := (t + len * 8 % 0x1_0000_0000) % 0x1_0000_0000;
      WrapTwice(bits1, if bits0 < t then 1 else 0, len / 0x2000_0000);
      if bits0 < t {
        bits1 := (bits1 + 1) % 0x1_0000_0000;
      }
      bits1 := (bits1 + len / 0x2000_0000) % 0x1_0000_0000;
    }

    /** `memcpy` into the block buffer. */
    method Put(at: nat, chunk: seq<byte>)
      requires at + |chunk| <= data.Length
      modifies data
      ensures data[..at + |chunk|] == old(data[..at]) + chunk && data[at + |chunk|..] == old(data[at + |chunk|..])
    {
      var i := 0;
      while i < |chunk|
        invariant 0 <= i <= |chunk|
        invariant data[..at + i] == old(data[..at]) + chunk[..i]
        invariant data[at + i..] == old(data[at + i..])
      {
        data[at + i] := chunk[i];
        i := i + 1;
      }
    }

    /** The leading part of an update that starts in the middle of a block; returns how much of `d`
        was used. */
    method Lead(t: nat, d: seq<byte>, ghost m: seq<byte>) returns (used: nat)
      requires data.Length == 64 && t == |m| % 64 && t > 0 && Absorbed(m)
      modifies this`buf, data
      ensures |d| < 64 - t ==> used == |d| && Absorbed(m + d)
      ensures |d| >= 64 - t ==> used == 64 - t && |m + d[..used]| % 64 == 0 && buf == Fold(f, m + d[..used])
    {
      if |d| < 64 - t {
        StaysInBlock(m, d);
        Put(t, d);
        used := |d|;
      } else {
        used := 64 - t;
        Fill(t, d[..used], m);
      }
    }

    method Fill(t: nat, lead: seq<byte>, ghost m: seq<byte>)
      requires data.Length == 64 && t == |m| % 64 && |lead| == 64 - t && Absorbed(m)
      modifies this`buf, data
      ensures |m + lead| % 64 == 0 && buf == Fold(f, m + lead)
    {
      FillsBlock(m, lead);
      Put(t, lead);
      assert data[..] == data[..64];
      Transform(Blocks(m));
    }

    /** `XlinkMD5Update` */
    method Update(d: seq<byte>)
      requires Valid() && |d| < 0x1_0000_0000
      modifies this`buf, this`bits0, this`bits1, this`message, data
      ensures Valid() && message == old(message) + d
    {
      var t := bits0 / 8 % 64;
      Waiting(|message|, bits0, bits1);
      Count(|message|, |d|);
      Absorb(t, d);
      message := message + d;
    }

    method Absorb(t: nat, d: seq<byte>)
      requires data.Length == 64 && t == |message| % 64 && Absorbed(message)
      modifies this`buf, data
      ensures Absorbed(message + d)
    {
      if t == 0 {
        assert Blocks(message) == message;
        Body(d, message);
      } else {
        var used := Lead(t, d, message);
        if |d| >= 64 - t {
          AppendAssociates(message, d[..used], d[used..]);
          assert d[..used] + d[used..] == d;
          Body(d[used..], message + d[..used]);
        }
      }
    }

    /** The 64-byte chunks of an update, and what remains. */
    method Body(d: seq<byte>, ghost m: seq<byte>)
      requires data.Length == 64 && |m| % 64 == 0 && buf == Fold(f, m)
      modifies this`buf, data
      ensures Absorbed(m + d)
    {
      ghost var done := m;
      var rest := d;
      while |rest| >= 64
        invariant |done| % 64 == 0 && buf == Fold(f, done) && done + rest == m + d
        decreases |rest|
      {
        OneBlock(done, rest[..64]);
        Advance(done, rest);
        done, rest := done + rest[..64], rest[64..];
      }
      Put(0, rest);
      Settle(done, rest);
    }

    static lemma Advance(done: seq<byte>, rest: seq<byte>)
      requires |done| % 64 == 0 && |rest| >= 64
      ensures |done + rest[..64]| % 64 == 0 && done + rest[..64] + rest[64..] == done + rest
    {
    }

    static lemma FillsBlock(m: seq<byte>, lead: seq<byte>)
      requires |lead| == 64 - |m| % 64
      ensures |m + lead| % 64 == 0 && m + lead == Blocks(m) + (m[|m| - |m| % 64..] + lead)
    {
    }

    static lemma StaysInBlock(m: seq<byte>, d: seq<byte>)
      requires |m| % 64 + |d| < 64
      ensures |m + d| % 64 == |m| % 64 + |d| && Blocks(m + d) == Blocks(m)
    {
    }

    method OneBlock(ghost m: seq<byte>, block: seq<byte>)
      requires data.Length == 64 && |block| == 64 && |m| % 64 == 0 && buf == Fold(f, m)
      modifies this`buf, data
      ensures buf == Fold(f, m + block)
    {
      Put(0, block);
      assert data[..] == block;
      Transform(m);
    }

    /** What is left over is the part that waits. */
    lemma Settle(done: seq<byte>, rest: seq<byte>)
      requires data.Length == 64 && |rest| < 64 && data[..|rest|] == rest
      requires |done| % 64 == 0 && buf == Fold(f, done)
      ensures Absorbed(done + rest)
    {
      SplitRest(done, rest);
    }

    static lemma SplitRest(done: seq<byte>, rest: seq<byte>)
      requires |done| % 64 == 0 && |rest| < 64
      ensures var m := done + rest;
        |m| % 64 == |rest| && Blocks(m) == done && m[|m| - |m| % 64..] == rest
    {
      Remainder(|done|, |rest|);
      assert (done + rest)[..|done|] == done;
    }

    /** `memset` to zero. */
    method Clear(at: nat, end: nat)
      requires at <= end <= data.Length
      modifies data
      ensures data[..end] == old(data[..at]) + Zeros(end - at) && data[end..] == old(data[end..])
    {
      Put(at, Zeros(end - at));
    }

    /** `XlinkMD5Final` */
    method Final() returns (digest: seq<byte>)
      requires Valid()
      modifies this`buf, this`bits0, this`bits1, data
      ensures digest == Digest(f, message)
      ensures buf == Words(0, 0, 0, 0) && bits0 == bits1 == 0 && data[..] == Zeros(64)
    {
      Pad();
      AppendLength();
      digest := Output(buf);
      buf, bits0, bits1 := Words(0, 0, 0, 0), 0, 0;
      Clear(0, 64);
    }

    /** The padding; what is left of it waits in the first 56 bytes of the block buffer. */
    method Pad()
      requires Valid()
      modifies this`buf, data
      ensures var p := message + Padding(|message|);
        |p| % 64 == 56 && buf == Fold(f, Blocks(p)) && data[..56] == p[|p| - 56..]
    {
      var count := bits0 / 8 % 64;
      Waiting(|message|, bits0, bits1);
      Put(count, [0x80]);
      if 63 - count < 8 {
        PadOver(count);
      } else {
        Clear(count + 1, 56);
        PadOneBlock(message, data[..56]);
      }
    }

    /** The padding runs over into a second block. */
    method PadOver(count: nat)
      requires data.Length == 64 && count == |message| % 64 && count >= 56
      requires buf == Fold(f, Blocks(message)) && data[..count + 1] == message[|message| - count..] + [0x80]
      modifies this`buf, data
      ensures var p := message + Padding(|message|);
        |p| % 64 == 56 && buf == Fold(f, Blocks(p)) && data[..56] == p[|p| - 56..]
    {
      Clear(count + 1, 64);
      assert data[..] == data[..64];
      PadTwoBlocks(message, data[..]);
      Transform(Blocks(message));
      Clear(0, 56);
    }

    static lemma PadTwoBlocks(m: seq<byte>, block: seq<byte>)
      requires |m| % 64 >= 56 && block == m[|m| - |m| % 64..] + [0x80] + Zeros(63 - |m| % 64)
      ensures var p := m + Padding(|m|); |p| % 64 == 56 && Blocks(p) == Blocks(m) + block && p[|p| - 56..] == Zeros(56)
    {
    }

    static lemma PadOneBlock(m: seq<byte>, block: seq<byte>)
      requires |m| % 64 < 56 && block == m[|m| - |m| % 64..] + [0x80] + Zeros(55 - |m| % 64)
      ensures var p := m + Padding(|m|); |p| % 64 == 56 && Blocks(p) == Blocks(m) && p[|p| - 56..] == block
    {
      var p := m + Padding(|m|);
      assert (119 - |m| % 64) % 64 == 55 - |m| % 64;
      assert p == Blocks(m) + block;
      Remainder(|Blocks(m)|, 56);
    }

    /** The two words of the length, low word first, and the last block. */
    method AppendLength()
      requires data.Length == 64 && bits0 + bits1 * 0x1_0000_0000 == BitLength(|message|)
      requires var p := message + Padding(|message|);
        |p| % 64 == 56 && buf == Fold(f, Blocks(p)) && data[..56] == p[|p| - 56..]
      modifies this`buf, data
      ensures buf == Fold(f, Padded(message))
    {
      LengthWords(|message|, bits0, bits1);
      PutLength(LittleEndian(bits0) + LittleEndian(bits1));
      LastBlock(message, data[..]);
      Transform(Blocks(message + Padding(|message|)));
    }

    method PutLength(length: seq<byte>)
      requires data.Length == 64 && |length| == 8
      modifies data
      ensures data[..] == old(data[..56]) + length
    {
      Put(56, length);
      assert data[..] == data[..64];
    }

    static lemma LengthWords(n: nat, lo: word, hi: word)
      requires lo + hi * 0x1_0000_0000 == BitLength(n)
      ensures LengthField(n) == LittleEndian(lo) + LittleEndian(hi)
    {
      SplitWords(lo, hi);
    }

    static lemma SplitWords(lo: word, hi: word)
      ensures (lo + hi * 0x1_0000_0000) % 0x1_0000_0000 == lo && (lo + hi * 0x1_0000_0000) / 0x1_0000_0000 == hi
    {
    }

    static lemma LastBlock(m: seq<byte>, block: seq<byte>)
      requires var p := m + Padding(|m|); |p| % 64 == 56 && block == p[|p| - 56..] + LengthField(|m|)
      ensures Padded(m) == Blocks(m + Padding(|m|)) + block
    {
    }
  }

  /** However a message is cut into updates, the digest is that of the whole message. */
  method DigestOf(f: Compression, chunks: seq<seq<byte>>) returns (digest: seq<byte>)
    requires forall k :: 0 <= k < |chunks| ==> |chunks[k]| < 0x1_0000_0000
    ensures digest == Digest(f, Flatten(chunks))
  {
    var ctx := new Context(f);
    var i := 0;
    while i < |chunks|
      invariant 0 <= i <= |chunks| && fresh(ctx) && fresh(ctx.data) && ctx.Valid() && ctx.f == f
      invariant ctx.message == Flatten(chunks[..i])
    {
      FlattenAppend(chunks[..i], chunks[i]);
      assert chunks[..i + 1] == chunks[..i] + [chunks[i]];
      ctx.Update(chunks[i]);
      i := i + 1;
    }
    assert chunks[..i] == chunks;
    digest := ctx.Final();
  }
}
