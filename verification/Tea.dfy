/**
 The block cipher of ikcc_service/src/src/xlinkgateway/xlink/tea.c: eight rounds of TEA with an
 arithmetic right shift, on words in network byte order (sdkDef.c).
 */

/** A network of rounds in which each half is changed by a mix of the other, on words of any kind. */
module Feistel {

  datatype Key<!T> = Key(a: T, b: T, c: T, d: T)

  datatype Block<!T> = Block(y: T, z: T)

  /** Addition of words and its inverse, what a round mixes of one half, the running sum and two
      words of the key, and the running sum in the n-th round. */
  datatype Cipher<!T> = Cipher(add: (T, T) -> T, sub: (T, T) -> T, mix: (T, T, T, T) -> T, sum: nat -> T)

  predicate Undone<T(==)>(w: Cipher<T>, x: T, f: T) {
    w.sub(w.add(x, f), f) == x && w.add(w.sub(x, f), f) == x
  }

  ghost predicate Inverse<T(!new)>(w: Cipher<T>) {
    forall x, f :: Undone(w, x, f)
  }

  function EncryptRound<T>(w: Cipher<T>, k: Key<T>, b: Block<T>, sum: T): Block<T> {
    var y := w.add(b.y, w.mix(b.z, sum, k.a, k.b));
    var z := w.add(b.z, w.mix(y, sum, k.c, k.d));
    Block(y, z)
  }

  function DecryptRound<T>(w: Cipher<T>, k: Key<T>, b: Block<T>, sum: T): Block<T> {
    var z := w.sub(b.z, w.mix(b.y, sum, k.c, k.d));
    var y := w.sub(b.y, w.mix(z, sum, k.a, k.b));
    Block(y, z)
  }

  lemma RoundUndone<T(!new)>(w: Cipher<T>, k: Key<T>, b: Block<T>, sum: T)
    requires Inverse(w)
    ensures DecryptRound(w, k, EncryptRound(w, k, b, sum), sum) == b
  {
    var e := EncryptRound(w, k, b, sum);
    assert Undone(w, b.z, w.mix(e.y, sum, k.c, k.d)) && Undone(w, b.y, w.mix(b.z, sum, k.a, k.b));
  }

  lemma RoundRedone<T(!new)>(w: Cipher<T>, k: Key<T>, b: Block<T>, sum: T)
    requires Inverse(w)
    ensures EncryptRound(w, k, DecryptRound(w, k, b, sum), sum) == b
  {
    var e := DecryptRound(w, k, b, sum);
    assert Undone(w, b.z, w.mix(b.y, sum, k.c, k.d)) && Undone(w, b.y, w.mix(e.z, sum, k.a, k.b));
  }

  /** The first n rounds. */
  function Encrypt<T>(w: Cipher<T>, k: Key<T>, b: Block<T>, n: nat): Block<T>
    decreases n, b
  {
    if n == 0 then b else EncryptRound(w, k, Encrypt(w, k, b, n - 1), w.sum(n))
  }

  /** The first n rounds taken back, the last one first. */
  function Decrypt<T>(w: Cipher<T>, k: Key<T>, b: Block<T>, n: nat): Block<T>
    decreases n, b
  {
    if n == 0 then b else Decrypt(w, k, DecryptRound(w, k, b, w.sum(n)), n - 1)
  }

  lemma {:induction false} DecryptEncrypt<T(!new)>(w: Cipher<T>, k: Key<T>, b: Block<T>, n: nat)
    requires Inverse(w)
    ensures Decrypt(w, k, Encrypt(w, k, b, n), n) == b
    decreases n
  {
    if n != 0 {
      RoundUndone(w, k, Encrypt(w, k, b, n - 1), w.sum(n));
      DecryptEncrypt(w, k, b, n - 1);
    }
  }

  lemma {:induction false} EncryptDecrypt<T(!new)>(w: Cipher<T>, k: Key<T>, b: Block<T>, n: nat)
    requires Inverse(w)
    ensures Encrypt(w, k, Decrypt(w, k, b, n), n) == b
    decreases n
  {
    if n != 0 {
      EncryptDecrypt(w, k, DecryptRound(w, k, b, w.sum(n)), n - 1);
      RoundRedone(w, k, b, w.sum(n));
    }
  }
}

module Tea {
  import opened Bits
  import opened Bytes
  import opened Feistel
  import opened Numbers

  // ---- words ----

  const DELTA: word := 0x0e37_79b9

  const ROUNDS: nat := 8

  function Add(x: word, y: word): word {
    Wrap(x + y)
  }

  function Sub(x: word, y: word): word {
    Wrap(x - y)
  }

  /** `>> 5` on a signed word copies the sign. */
  function ShiftRight5(v: word): word {
    if v >= 0x8000_0000 then v / 32 + 0xF800_0000 else v / 32
  }

  function XorWord(x: word, y: word): word {
    assert Pow2(8) == 256 && Pow2(16) == 0x1_0000 && Pow2(24) == 0x100_0000;
    XorBits(x, y, 32)
  }

  function Mix(v: word, sum: word, a: word, b: word): word {
    XorWord(XorWord(Add(Wrap(v * 16), a), Add(v, sum)), Add(ShiftRight5(v), b))
  }

  /** The running sum after n rounds. */
  function Sum(n: nat): word {
    Wrap(n * DELTA)
  }

  const TEA: Cipher<word> := Cipher(Add, Sub, Mix, Sum)

  lemma WordsInvert()
    ensures Inverse(TEA)
  {
    forall x: word, f: word
      ensures Undone(TEA, x, f)
    {
      AddSub(x, f);
    }
  }

  lemma AddSub(x: word, f: word)
    ensures Sub(Add(x, f), f) == x && Add(Sub(x, f), f) == x
  {
  }

  lemma WrapAdd(x: int, y: int)
    ensures Wrap(Wrap(x) + y) == Wrap(x + y) && Wrap(Wrap(x + y) - y) == Wrap(x)
  {
  }

  lemma NextSum(n: nat)
    ensures Add(Sum(n), DELTA) == Sum(n + 1) && Sub(Sum(n + 1), DELTA) == Sum(n)
  {
    assert (n + 1) * DELTA == n * DELTA + DELTA;
    WrapAdd(n * DELTA, DELTA);
  }

  // ---- words in memory ----

  /** Four bytes as the processor reads them. */
  function Load(littleEndian: bool, b: seq<byte>): word
    requires |b| == 4
  {
    if littleEndian then BigEndian(b[3], b[2], b[1], b[0]) else BigEndian(b[0], b[1], b[2], b[3])
  }

  /** A word as the processor writes it. */
  function Store(littleEndian: bool, x: word): (b: seq<byte>)
    ensures |b| == 4
  {
    if littleEndian then [Octet(x), Octet(x / 0x100), Octet(x / 0x1_0000), Octet(x / 0x100_0000)]
    else [Octet(x / 0x100_0000), Octet(x / 0x1_0000), Octet(x / 0x100), Octet(x)]
  }

  /** `NShtonlInt32`: swaps the bytes on a little-endian processor. */
  function Swap(littleEndian: bool, x: word): word {
    if littleEndian then BigEndian(Octet(x), Octet(x / 0x100), Octet(x / 0x1_0000), Octet(x / 0x100_0000)) else x
  }

  lemma SwapInvolution(e: bool, x: word)
    ensures Swap(e, Swap(e, x)) == x
  {
    OctetsFrom(Octet(x), Octet(x / 0x100), Octet(x / 0x1_0000), Octet(x / 0x100_0000));
    OctetsOf(x);
  }

  /** Whatever the processor, a word is read with its first byte highest, and written so. */
  lemma SwapLoad(e: bool, b: seq<byte>)
    requires |b| == 4
    ensures Swap(e, Load(e, b)) == BigEndian(b[0], b[1], b[2], b[3])
  {
    OctetsFrom(b[3], b[2], b[1], b[0]);
  }

  lemma StoreSwap(e: bool, x: word)
    ensures Store(e, Swap(e, x)) == [Octet(x / 0x100_0000), Octet(x / 0x1_0000), Octet(x / 0x100), Octet(x)]
  {
    OctetsFrom(Octet(x), Octet(x / 0x100), Octet(x / 0x1_0000), Octet(x / 0x100_0000));
  }

  // ---- blocks in a buffer ----

  function Word(b: seq<byte>): word
    requires |b| == 4
  {
    BigEndian(b[0], b[1], b[2], b[3])
  }

  function Octets(x: word): (b: seq<byte>)
    ensures |b| == 4
  {
    [Octet(x / 0x100_0000), Octet(x / 0x1_0000), Octet(x / 0x100), Octet(x)]
  }

  function FromBytes(b: seq<byte>): Block<word>
    requires |b| == 8
  {
    Block(Word(b[..4]), Word(b[4..]))
  }

  function ToBytes(b: Block<word>): (s: seq<byte>)
    ensures |s| == 8
  {
    Octets(b.y) + Octets(b.z)
  }

  lemma BytesOfBlock(b: Block<word>)
    ensures FromBytes(ToBytes(b)) == b
  {
    OctetsOf(b.y);
    OctetsOf(b.z);
    assert ToBytes(b)[..4] == Octets(b.y) && ToBytes(b)[4..] == Octets(b.z);
  }

  lemma BlockOfBytes(s: seq<byte>)
    requires |s| == 8
    ensures ToBytes(FromBytes(s)) == s
  {
    OctetsFrom(s[0], s[1], s[2], s[3]);
    OctetsFrom(s[4], s[5], s[6], s[7]);
    assert s[..4] + s[4..] == s;
  }

  function EncryptBytes(k: Key<word>, s: seq<byte>): (r: seq<byte>)
    requires |s| == 8
    ensures |r| == 8
  {
    ToBytes(Encrypt(TEA, k, FromBytes(s), ROUNDS))
  }

  function DecryptBytes(k: Key<word>, s: seq<byte>): (r: seq<byte>)
    requires |s| == 8
    ensures |r| == 8
  {
    ToBytes(Decrypt(TEA, k, FromBytes(s), ROUNDS))
  }

  lemma DecryptEncryptBytes(k: Key<word>, s: seq<byte>)
    requires |s| == 8
    ensures DecryptBytes(k, EncryptBytes(k, s)) == s && EncryptBytes(k, DecryptBytes(k, s)) == s
  {
    var b := FromBytes(s);
    WordsInvert();
    DecryptEncrypt(TEA, k, b, ROUNDS);
    EncryptDecrypt(TEA, k, b, ROUNDS);
    BytesOfBlock(Encrypt(TEA, k, b, ROUNDS));
    BytesOfBlock(Decrypt(TEA, k, b, ROUNDS));
    BlockOfBytes(s);
  }

  /** The first n blocks of a text, each mapped by itself. */
  function Blocks(f: seq<byte> -> seq<byte>, s: seq<byte>, n: nat): seq<byte>
    requires n * 8 <= |s|
    decreases n, s
  {
    if n == 0 then [] else Blocks(f, s, n - 1) + f(s[(n - 1) * 8..n * 8])
  }

  /** A buffer of which whole blocks are mapped; up to seven bytes at the end stay as they are. */
  function Mapped(f: seq<byte> -> seq<byte>, s: seq<byte>): seq<byte> {
    Blocks(f, s, |s| / 8) + s[|s| / 8 * 8..]
  }

  ghost predicate KeepsLength(f: seq<byte> -> seq<byte>) {
    forall b :: |b| == 8 ==> |f(b)| == 8
  }

  ghost predicate Undoes(g: seq<byte> -> seq<byte>, f: seq<byte> -> seq<byte>) {
    forall b :: |b| == 8 ==> g(f(b)) == b
  }

  lemma {:induction false} BlocksLength(f: seq<byte> -> seq<byte>, s: seq<byte>, n: nat)
    requires n * 8 <= |s| && KeepsLength(f)
    ensures |Blocks(f, s, n)| == n * 8
    decreases n
  {
    if n != 0 {
      BlocksLength(f, s, n - 1);
    }
  }

  /** The blocks of a text depend on its start only. */
  lemma {:induction false} BlocksStart(f: seq<byte> -> seq<byte>, s: seq<byte>, t: seq<byte>, n: nat)
    requires n * 8 <= |s| && n * 8 <= |t| && s[..n * 8] == t[..n * 8]
    ensures Blocks(f, s, n) == Blocks(f, t, n)
    decreases n
  {
    if n != 0 {
      var m := (n - 1) * 8;
      assert s[..m] == s[..n * 8][..m] == t[..n * 8][..m] == t[..m];
      assert s[m..n * 8] == s[..n * 8][m..] == t[..n * 8][m..] == t[m..n * 8];
      BlocksStart(f, s, t, n - 1);
    }
  }

  lemma BlocksAppend(g: seq<byte> -> seq<byte>, p: seq<byte>, last: seq<byte>, n: nat)
    requires n > 0 && |p| == (n - 1) * 8 && |last| == 8
    ensures Blocks(g, p + last, n) == Blocks(g, p, n - 1) + g(last)
  {
    var m := (n - 1) * 8;
    assert (p + last)[..m] == p == p[..m] && (p + last)[m..n * 8] == last;
    BlocksStart(g, p + last, p, n - 1);
  }

  lemma {:induction false} BlocksUndone(g: seq<byte> -> seq<byte>, f: seq<byte> -> seq<byte>, s: seq<byte>, n: nat)
    requires n * 8 <= |s| && KeepsLength(f) && Undoes(g, f)
    ensures |Blocks(f, s, n)| == n * 8 && Blocks(g, Blocks(f, s, n), n) == s[..n * 8]
    decreases n
  {
    BlocksLength(f, s, n);
    if n != 0 {
      BlocksUndone(g, f, s, n - 1);
      LastUndone(g, Blocks(f, s, n - 1), f(s[(n - 1) * 8..n * 8]), s, n);
    }
  }

  /** One block more is undone. */
  lemma LastUndone(g: seq<byte> -> seq<byte>, p: seq<byte>, last: seq<byte>, s: seq<byte>, n: nat)
    requires n > 0 && n * 8 <= |s| && |p| == (n - 1) * 8 && |last| == 8
    requires Blocks(g, p, n - 1) == s[..(n - 1) * 8] && g(last) == s[(n - 1) * 8..n * 8]
    ensures Blocks(g, p + last, n) == s[..n * 8]
  {
    BlocksAppend(g, p, last, n);
  }

  lemma MappedBack(g: seq<byte> -> seq<byte>, f: seq<byte> -> seq<byte>, s: seq<byte>)
    requires KeepsLength(f) && Undoes(g, f)
    ensures Mapped(g, Mapped(f, s)) == s
  {
    var n := |s| / 8;
    BlocksUndone(g, f, s, n);
    var e := Mapped(f, s);
    assert |e| == |s| && e[..n * 8] == Blocks(f, s, n) == Blocks(f, s, n)[..n * 8] && e[n * 8..] == s[n * 8..];
    BlocksStart(g, e, Blocks(f, s, n), n);
  }

  function Encryptor(key: word): seq<byte> -> seq<byte> {
    (b: seq<byte>) => if |b| == 8 then EncryptBytes(Key(key, key, key, key), b) else b
  }

  function Decryptor(key: word): seq<byte> -> seq<byte> {
    (b: seq<byte>) => if |b| == 8 then DecryptBytes(Key(key, key, key, key), b) else b
  }

  lemma Inverses(key: word)
    ensures KeepsLength(Encryptor(key)) && KeepsLength(Decryptor(key))
    ensures Undoes(Decryptor(key), Encryptor(key)) && Undoes(Encryptor(key), Decryptor(key))
  {
    forall b: seq<byte> | |b| == 8
      ensures Decryptor(key)(Encryptor(key)(b)) == b && Encryptor(key)(Decryptor(key)(b)) == b
    {
      DecryptEncryptBytes(Key(key, key, key, key), b);
    }
  }

  /** Decryption restores every buffer, for every key, with its tail of up to seven bytes; and so
      does encryption after decryption. */
  lemma TeaRestores(key: word, s: seq<byte>)
    ensures Mapped(Decryptor(key), Mapped(Encryptor(key), s)) == s
    ensures Mapped(Encryptor(key), Mapped(Decryptor(key), s)) == s
  {
    Inverses(key);
    MappedBack(Decryptor(key), Encryptor(key), s);
    MappedBack(Encryptor(key), Decryptor(key), s);
  }

  // ---- the code ----

  /** The loop of `tea_encrypt`. */
  method EncryptRounds(y0: word, z0: word, k: Key<word>) returns (y: word, z: word)
    ensures Block(y, z) == Encrypt(TEA, k, Block(y0, z0), ROUNDS)
  {
    y, z := y0, z0;
    var sum: word, i := 0, 0;
    while i < ROUNDS
      invariant 0 <= i <= ROUNDS && sum == Sum(i) && Block(y, z) == Encrypt(TEA, k, Block(y0, z0), i)
    {
      NextSum(i);
      sum := Add(sum, DELTA);
      y := Add(y, Mix(z, sum, k.a, k.b));
      z := Add(z, Mix(y, sum, k.c, k.d));
      i := i + 1;
    }
  }

  /** The loop of `tea_decrypt`. */
  method DecryptRounds(y0: word, z0: word, k: Key<word>) returns (y: word, z: word)
    ensures Block(y, z) == Decrypt(TEA, k, Block(y0, z0), ROUNDS)
  {
    y, z := y0, z0;
    var sum: word, i := Wrap(DELTA * 8), 0;
    while i < ROUNDS
      invariant 0 <= i <= ROUNDS && sum == Sum(ROUNDS - i)
      invariant Decrypt(TEA, k, Block(y, z), ROUNDS - i) == Decrypt(TEA, k, Block(y0, z0), ROUNDS)
    {
      NextSum(ROUNDS - i - 1);
      z := Sub(z, Mix(y, sum, k.c, k.d));
      y := Sub(y, Mix(z, sum, k.a, k.b));
      sum := Sub(sum, DELTA);
      i := i + 1;
    }
  }

  /** Reading a word of the buffer and bringing it to network order. */
  method ReadWord(e: bool, v: array<byte>, at: nat) returns (x: word)
    requires at + 4 <= v.Length
    ensures x == Word(v[at..at + 4])
  {
    SwapLoad(e, v[at..at + 4]);
    x := Swap(e, Load(e, v[at..at + 4]));
  }

  method WriteWord(e: bool, v: array<byte>, at: nat, x: word)
    requires at + 4 <= v.Length
    modifies v
    ensures v[..] == old(v[..at]) + Octets(x) + old(v[at + 4..])
  {
    StoreSwap(e, x);
    Put(v, at, Store(e, Swap(e, x)));
  }

  method Put(v: array<byte>, at: nat, b: seq<byte>)
    requires at + 4 <= v.Length && |b| == 4
    modifies v
    ensures v[..] == old(v[..at]) + b + old(v[at + 4..])
  {
    v[at], v[at + 1], v[at + 2], v[at + 3] := b[0], b[1], b[2], b[3];
  }

  method WriteBlock(e: bool, v: array<byte>, at: nat, y: word, z: word)
    requires at + 8 <= v.Length
    modifies v
    ensures v[..] == old(v[..at]) + ToBytes(Block(y, z)) + old(v[at + 8..])
  {
    WriteWord(e, v, at, y);
    WriteWord(e, v, at + 4, z);
  }

  predicate EncryptsTo(f: seq<byte> -> seq<byte>, k: Key<word>, b: seq<byte>) {
    |b| == 8 ==> f(b) == EncryptBytes(k, b)
  }

  ghost predicate IsEncryptor(f: seq<byte> -> seq<byte>, k: Key<word>) {
    KeepsLength(f) && forall b :: EncryptsTo(f, k, b)
  }

  lemma EncryptorIs(key: word)
    ensures IsEncryptor(Encryptor(key), Key(key, key, key, key))
  {
  }

  predicate DecryptsTo(f: seq<byte> -> seq<byte>, k: Key<word>, b: seq<byte>) {
    |b| == 8 ==> f(b) == DecryptBytes(k, b)
  }

  ghost predicate IsDecryptor(f: seq<byte> -> seq<byte>, k: Key<word>) {
    KeepsLength(f) && forall b :: DecryptsTo(f, k, b)
  }

  lemma DecryptorIs(key: word)
    ensures IsDecryptor(Decryptor(key), Key(key, key, key, key))
  {
  }

  /** `tea_encrypt` on the block at `at`; `e` says whether the processor is little-endian. */
  method EncryptBlock(e: bool, v: array<byte>, at: nat, k: Key<word>, ghost f: seq<byte> -> seq<byte>)
    requires at + 8 <= v.Length && IsEncryptor(f, k)
    modifies v
    ensures v[..] == Replaced(old(v[..]), at, f(old(v[..])[at..at + 8]))
  {
    assert EncryptsTo(f, k, v[..][at..at + 8]) && v[..][at..at + 8] == v[at..at + 8];
    assert v[at..at + 8][..4] == v[at..at + 4] && v[at..at + 8][4..] == v[at + 4..at + 8];
    var y := ReadWord(e, v, at);
    var z := ReadWord(e, v, at + 4);
    y, z := EncryptRounds(y, z, k);
    WriteBlock(e, v, at, y, z);
  }

  /** `tea_decrypt` */
  method DecryptBlock(e: bool, v: array<byte>, at: nat, k: Key<word>, ghost f: seq<byte> -> seq<byte>)
    requires at + 8 <= v.Length && IsDecryptor(f, k)
    modifies v
    ensures v[..] == Replaced(old(v[..]), at, f(old(v[..])[at..at + 8]))
  {
    assert DecryptsTo(f, k, v[..][at..at + 8]) && v[..][at..at + 8] == v[at..at + 8];
    assert v[at..at + 8][..4] == v[at..at + 4] && v[at..at + 8][4..] == v[at + 4..at + 8];
    var y := ReadWord(e, v, at);
    var z := ReadWord(e, v, at + 4);
    y, z := DecryptRounds(y, z, k);
    WriteBlock(e, v, at, y, z);
  }

  /** A buffer with new bytes from a position on. */
  function Replaced(s: seq<byte>, at: nat, b: seq<byte>): seq<byte>
    requires at + |b| <= |s|
  {
    s[..at] + b + s[at + |b|..]
  }

  lemma NextBlock(f: seq<byte> -> seq<byte>, s: seq<byte>, n: nat, now: seq<byte>)
    requires (n + 1) * 8 <= |s| && KeepsLength(f) && now == Blocks(f, s, n) + s[n * 8..]
    ensures |now| == |s| && now[n * 8..n * 8 + 8] == s[n * 8..(n + 1) * 8] && |f(s[n * 8..(n + 1) * 8])| == 8
    ensures Replaced(now, n * 8, f(s[n * 8..(n + 1) * 8])) == Blocks(f, s, n + 1) + s[(n + 1) * 8..]
  {
    BlocksLength(f, s, n);
    assert now[..n * 8] == Blocks(f, s, n) && now[n * 8 + 8..] == s[n * 8 + 8..];
  }

  method EncryptNth(e: bool, src: array<byte>, i: nat, k: Key<word>, ghost f: seq<byte> -> seq<byte>, ghost was: seq<byte>)
    requires (i + 1) * 8 <= |was| == src.Length && IsEncryptor(f, k) && src[..] == Blocks(f, was, i) + was[i * 8..]
    modifies src
    ensures src[..] == Blocks(f, was, i + 1) + was[(i + 1) * 8..]
  {
    NextBlock(f, was, i, src[..]);
    EncryptBlock(e, src, i * 8, k, f);
  }

  method DecryptNth(e: bool, src: array<byte>, i: nat, k: Key<word>, ghost f: seq<byte> -> seq<byte>, ghost was: seq<byte>)
    requires (i + 1) * 8 <= |was| == src.Length && IsDecryptor(f, k) && src[..] == Blocks(f, was, i) + was[i * 8..]
    modifies src
    ensures src[..] == Blocks(f, was, i + 1) + was[(i + 1) * 8..]
  {
    NextBlock(f, was, i, src[..]);
    DecryptBlock(e, src, i * 8, k, f);
  }

  lemma SplitTail(s: seq<byte>, n: nat, size: nat)
    requires n <= size <= |s|
    ensures s[..size][..n] == s[..n] && s[n..] == s[..size][n..] + s[size..]
  {
  }

  lemma WholeBlocks(f: seq<byte> -> seq<byte>, s: seq<byte>, size: nat)
    requires size <= |s|
    ensures Blocks(f, s, size / 8) + s[size / 8 * 8..] == Mapped(f, s[..size]) + s[size..]
  {
    SplitTail(s, size / 8 * 8, size);
    BlocksStart(f, s, s[..size], size / 8);
    AppendAssociates(Blocks(f, s, size / 8), s[..size][size / 8 * 8..], s[size..]);
  }

  /** `TeaEncrypt` on the first `size` bytes of a buffer. */
  method TeaEncrypt(e: bool, src: array<byte>, size: nat, key: word) returns (r: nat)
    requires size < 0x1_0000 && size <= src.Length
    modifies src
    ensures r == size && src[..] == MappedStart(Encryptor(key), old(src[..]), size)
  {
    var num, i := size / 8, 0;
    ghost var was := src[..];
    EncryptorIs(key);
    while i < num
      invariant 0 <= i <= num && src[..] == Blocks(Encryptor(key), was, i) + was[i * 8..]
    {
      EncryptNth(e, src, i, Key(key, key, key, key), Encryptor(key), was);
      i := i + 1;
    }
    WholeBlocks(Encryptor(key), was, size);
    r := size;
  }

  /** `TeaDecrypt` */
  method TeaDecrypt(e: bool, src: array<byte>, size: nat, key: word) returns (r: nat)
    requires size < 0x1_0000 && size <= src.Length
    modifies src
    ensures r == size && src[..] == MappedStart(Decryptor(key), old(src[..]), size)
  {
    var num, i := size / 8, 0;
    ghost var was := src[..];
    DecryptorIs(key);
    while i < num
      invariant 0 <= i <= num && src[..] == Blocks(Decryptor(key), was, i) + was[i * 8..]
    {
      DecryptNth(e, src, i, Key(key, key, key, key), Decryptor(key), was);
      i := i + 1;
    }
    WholeBlocks(Decryptor(key), was, size);
    r := size;
  }

  /** The first `size` bytes of a buffer mapped, the others kept. */
  function MappedStart(f: seq<byte> -> seq<byte>, s: seq<byte>, size: nat): seq<byte>
    requires size <= |s|
  {
    Mapped(f, s[..size]) + s[size..]
  }

  lemma Halves(m: seq<byte>, t: seq<byte>)
    ensures (m + t)[..|m|] == m && (m + t)[|m|..] == t
  {
  }

  lemma StartBack(g: seq<byte> -> seq<byte>, f: seq<byte> -> seq<byte>, s: seq<byte>, size: nat)
    requires size <= |s| && KeepsLength(f) && Undoes(g, f)
    ensures |MappedStart(f, s, size)| == |s| && MappedStart(g, MappedStart(f, s, size), size) == s
  {
    MappedBack(g, f, s[..size]);
    BlocksLength(f, s[..size], size / 8);
    Halves(Mapped(f, s[..size]), s[size..]);
  }

  /** Both calls in a row leave the buffer as it was. */
  method RoundTrip(e: bool, src: array<byte>, size: nat, key: word)
    requires size < 0x1_0000 && size <= src.Length
    modifies src
    ensures src[..] == old(src[..])
  {
    Inverses(key);
    StartBack(Decryptor(key), Encryptor(key), src[..], size);
    var n := TeaEncrypt(e, src, size, key);
    n := TeaDecrypt(e, src, n, key);
  }
}
