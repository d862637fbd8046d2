/** The rounds of Tea, bit by bit and byte by byte. */
module TeaBits {
  import opened BitColumns
  import opened Bits
  import opened Bytes
  import opened Feistel
  import opened Numbers
  import opened Tea

  /** Five places to the right, with copies of the sign. */
  function Fifth(v: word): word {
    v / 32 + if v < 0x8000_0000 then 0 else 0xF800_0000
  }

  /** What a round mixes of a half and the running sum with two words of the key: the half times 16 plus the
      first word, the half plus the sum, and the half shifted plus the second word, all to 32 bits; a bit is
      set if it is set in one of them or in all three. */
  predicate Mixed(m: word, v: word, sum: word, a: word, b: word) {
    forall k: nat :: k < 32 ==> MixedBit(m, v, sum, a, b, k)
  }

  predicate MixedBit(m: word, v: word, sum: word, a: word, b: word, k: nat) {
    BitOf(m, k)
    == (BitOf(Wrap(v * 16 + a), k) + BitOf(Wrap(v + sum), k) + BitOf(Wrap(Fifth(v) + b), k)) % 2
  }

  lemma ShiftedAdds(v: word, a: word)
    ensures Add(Wrap(v * 16), a) == Wrap(v * 16 + a)
  {
    WrapAdd(v * 16, a);
  }

  lemma XorWordBit(x: word, y: word, k: nat)
    requires k < 32
    ensures BitOf(XorWord(x, y), k) == (BitOf(x, k) + BitOf(y, k)) % 2
  {
    XorBit(x, y, 32, k);
  }

  lemma XorThree(x: word, y: word, z: word, k: nat)
    requires k < 32
    ensures BitOf(XorWord(XorWord(x, y), z), k) == (BitOf(x, k) + BitOf(y, k) + BitOf(z, k)) % 2
  {
    XorWordBit(x, y, k);
    XorWordBit(XorWord(x, y), z, k);
    ParityAdds(BitOf(x, k) + BitOf(y, k), BitOf(z, k));
  }

  lemma MixIsMixed(v: word, sum: word, a: word, b: word, k: nat)
    requires k < 32
    ensures MixedBit(Mix(v, sum, a, b), v, sum, a, b, k)
  {
    ShiftedAdds(v, a);
    MixIsXor(v, sum, a, b, Wrap(v * 16 + a), Wrap(v + sum), Wrap(Fifth(v) + b));
    XorThree(Wrap(v * 16 + a), Wrap(v + sum), Wrap(Fifth(v) + b), k);
  }

  lemma MixIsXor(v: word, sum: word, a: word, b: word, x: word, y: word, z: word)
    requires x == Add(Wrap(v * 16), a) && y == Wrap(v + sum) && z == Wrap(Fifth(v) + b)
    ensures Mix(v, sum, a, b) == XorWord(XorWord(x, y), z)
  {
    assert Fifth(v) == ShiftRight5(v);
  }

  /** There is exactly one such word, and the round uses it. */
  lemma MixExactly(m: word, v: word, sum: word, a: word, b: word)
    ensures Mixed(m, v, sum, a, b) <==> m == Mix(v, sum, a, b)
  {
    forall k: nat | k < 32 ensures MixedBit(Mix(v, sum, a, b), v, sum, a, b, k) {
      MixIsMixed(v, sum, a, b, k);
    }
    if Mixed(m, v, sum, a, b) {
      SameWord(m, v, sum, a, b);
    }
  }

  lemma SameWord(m: word, v: word, sum: word, a: word, b: word)
    requires Mixed(m, v, sum, a, b)
    ensures m == Mix(v, sum, a, b)
  {
    var n := Mix(v, sum, a, b);
    forall k: nat | k < 32 ensures BitOf(m, k) == BitOf(n, k) {
      MixIsMixed(v, sum, a, b, k);
      assert MixedBit(m, v, sum, a, b, k);
    }
    assert Pow2(8) == 256 && Pow2(16) == 0x1_0000 && Pow2(24) == 0x100_0000;
    SameBits(m, n, 32);
  }

  /** From `e` to `r`: each half gets what is mixed of the other added, the first with the first two words
      of the key, the second, from the new first, with the others. */
  predicate Round(e: Block<word>, r: Block<word>, k: Key<word>, sum: word, p: word, q: word) {
    && Mixed(p, e.z, sum, k.a, k.b) && r.y == (e.y + p) % 0x1_0000_0000
    && Mixed(q, r.y, sum, k.c, k.d) && r.z == (e.z + q) % 0x1_0000_0000
  }

  /** Every round is such a step, with the number of the round times 0E3779B9 for the running sum. */
  lemma RoundInBits(k: Key<word>, b: Block<word>, n: nat) returns (sum: word, p: word, q: word)
    ensures sum == (n + 1) * 0x0E37_79B9 % 0x1_0000_0000
    ensures Round(Encrypt<word>(TEA, k, b, n), Encrypt<word>(TEA, k, b, n + 1), k, sum, p, q)
  {
    var e: Block<word> := Encrypt(TEA, k, b, n);
    sum := Sum(n + 1);
    p := Mix(e.z, sum, k.a, k.b);
    q := Mix(Add(e.y, p), sum, k.c, k.d);
    OneRound(k, b, n);
    RoundStep(e, k, sum);
  }

  lemma RoundStep(e: Block<word>, k: Key<word>, sum: word)
    ensures var p := Mix(e.z, sum, k.a, k.b); var y := Add(e.y, p); var q := Mix(y, sum, k.c, k.d);
      Round(e, Block(y, Add(e.z, q)), k, sum, p, q)
  {
    var p := Mix(e.z, sum, k.a, k.b);
    MixExactly(p, e.z, sum, k.a, k.b);
    var y := Add(e.y, p);
    MixExactly(Mix(y, sum, k.c, k.d), y, sum, k.c, k.d);
  }

  lemma OneRound(k: Key<word>, b: Block<word>, n: nat)
    ensures var e: Block<word> := Encrypt(TEA, k, b, n);
      var sum := Sum(n + 1); var y := Add(e.y, Mix(e.z, sum, k.a, k.b));
      Encrypt<word>(TEA, k, b, n + 1) == Block(y, Add(e.z, Mix(y, sum, k.c, k.d)))
  {
  }

  /** A block of eight bytes is two words, their first byte highest; it goes through eight rounds. */
  lemma BytesInRounds(k: Key<word>, s: seq<byte>)
    requires |s| == 8
    ensures var y: word, z: word := BigEndian(s[0], s[1], s[2], s[3]), BigEndian(s[4], s[5], s[6], s[7]);
      var e: Block<word> := Encrypt(TEA, k, Block(y, z), 8); var r := EncryptBytes(k, s);
      BigEndian(r[0], r[1], r[2], r[3]) == e.y && BigEndian(r[4], r[5], r[6], r[7]) == e.z
  {
    var b := FromBytes(s);
    var e := Encrypt(TEA, k, b, 8);
    OctetsOf(e.y);
    OctetsOf(e.z);
  }

  /** The four words of the key are the same word. */
  lemma KeyIsOneWord(key: word, b: seq<byte>)
    requires |b| == 8
    ensures Encryptor(key)(b) == EncryptBytes(Key(key, key, key, key), b)
    ensures Decryptor(key)(b) == DecryptBytes(Key(key, key, key, key), b)
  {
  }

  /** A buffer is mapped block by block: every eight bytes by themselves, and up to seven bytes at the end not
      at all. */
  lemma BufferInBlocks(key: word, s: seq<byte>, n: nat)
    requires n < |s| / 8
    ensures var r := Mapped(Encryptor(key), s);
      && |r| == |s| && r[n * 8..n * 8 + 8] == Encryptor(key)(s[n * 8..n * 8 + 8])
      && r[|s| / 8 * 8..] == s[|s| / 8 * 8..]
  {
    Inverses(key);
    BlockOfBuffer(Encryptor(key), s, |s| / 8, n);
  }

  lemma BlockOfBuffer(f: seq<byte> -> seq<byte>, s: seq<byte>, m: nat, n: nat)
    requires KeepsLength(f) && m == |s| / 8 && n < m
    ensures var r := Mapped(f, s);
      |r| == |s| && r[n * 8..n * 8 + 8] == f(s[n * 8..n * 8 + 8]) && r[m * 8..] == s[m * 8..]
  {
    NthBlock(f, s, m, n);
    MappedParts(Blocks(f, s, m), s[m * 8..], n * 8);
  }

  lemma MappedParts(a: seq<byte>, b: seq<byte>, k: nat)
    requires k + 8 <= |a|
    ensures (a + b)[k..k + 8] == a[k..k + 8] && (a + b)[|a|..] == b
  {
  }

  lemma {:induction false} NthBlock(f: seq<byte> -> seq<byte>, s: seq<byte>, m: nat, n: nat)
    requires m * 8 <= |s| && KeepsLength(f) && n < m
    ensures |Blocks(f, s, m)| == m * 8 && Blocks(f, s, m)[n * 8..n * 8 + 8] == f(s[n * 8..n * 8 + 8])
    decreases m
  {
    BlocksLength(f, s, m);
    BlocksLength(f, s, m - 1);
    var a, b := Blocks(f, s, m - 1), f(s[(m - 1) * 8..m * 8]);
    if n == m - 1 {
      assert (a + b)[n * 8..n * 8 + 8] == b;
    } else {
      NthBlock(f, s, m - 1, n);
      MappedParts(a, b, n * 8);
    }
  }
}
