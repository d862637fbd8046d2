/** Base64 against the table and the groups of 24 bits of section 4 of RFC 4648. */
module Base64Table {
  import opened Base64
  import opened Bytes

  /** The code of the k-th letter: A to Z, a to z, 0 to 9, plus and slash. */
  function Letter(k: nat): int
    requires k < 64
  {
    if k < 26 then 'A' as int + k
    else if k < 52 then 'a' as int + (k - 26)
    else if k < 62 then '0' as int + (k - 52)
    else if k == 62 then '+' as int
    else '/' as int
  }

  lemma LetterIsChar(k: nat)
    requires k < 64
    ensures Letter(k) == Char(k)
  {
    assert 'A' as int == 65 && 'a' as int == 97 && '0' as int == 48 && '+' as int == 43 && '/' as int == 47;
  }

  /** Four digits to the base 64. */
  lemma FourDigits(s0: nat, s1: nat, s2: nat, s3: nat)
    requires s0 < 64 && s1 < 64 && s2 < 64 && s3 < 64
    ensures var x := s0 * 0x4_0000 + s1 * 0x1000 + s2 * 0x40 + s3;
      x / 0x4_0000 == s0 && x / 0x1000 % 0x40 == s1 && x / 0x40 % 0x40 == s2 && x % 0x40 == s3
  {
    var x := s0 * 0x4_0000 + s1 * 0x1000 + s2 * 0x40 + s3;
    assert x / 0x1000 == s0 * 0x40 + s1 && x / 0x40 == s0 * 0x1000 + s1 * 0x40 + s2;
  }

  /** Three bytes as one number of 24 bits. */
  function Number(a: byte, b: byte, c: byte): nat {
    a as int * 0x1_0000 + b as int * 0x100 + c
  }

  lemma NumberInSextets(a: byte, b: byte, c: byte)
    ensures Number(a, b, c)
         == Sextet(a, b, c, 0) * 0x4_0000 + Sextet(a, b, c, 1) * 0x1000 + Sextet(a, b, c, 2) * 0x40 + Sextet(a, b, c, 3)
  {
    assert a == a / 4 * 4 + a % 4 && b == b / 16 * 16 + b % 16 && c == c / 64 * 64 + c % 64;
  }

  /** Of which every six bits, from the highest on, give a letter. */
  function Letters(x: nat): seq<int>
    requires x < 0x100_0000
  {
    [Letter(x / 0x4_0000), Letter(x / 0x1000 % 0x40), Letter(x / 0x40 % 0x40), Letter(x % 0x40)]
  }

  lemma GroupInLetters(a: byte, b: byte, c: byte)
    ensures Number(a, b, c) < 0x100_0000 && Group(a, b, c) == Letters(Number(a, b, c))
  {
    var s0, s1, s2, s3 := Sextet(a, b, c, 0), Sextet(a, b, c, 1), Sextet(a, b, c, 2), Sextet(a, b, c, 3);
    NumberInSextets(a, b, c);
    FourDigits(s0, s1, s2, s3);
    LetterIsChar(s0);
    LetterIsChar(s1);
    LetterIsChar(s2);
    LetterIsChar(s3);
  }

  /** Every three bytes give four letters; one or two left over are filled up with zero bits, and the
      text with `=`. */
  lemma EncodedInLetters(a: byte, b: byte, c: byte, rest: seq<byte>)
    ensures Number(a, b, c) < 0x100_0000 && Number(a, b, 0) < 0x100_0000 && Number(a, 0, 0) < 0x100_0000
    ensures Encode([a, b, c] + rest) == Letters(Number(a, b, c)) + Encode(rest)
    ensures Encode([a, b]) == Letters(Number(a, b, 0))[..3] + ['=' as int]
    ensures Encode([a]) == Letters(Number(a, 0, 0))[..2] + ['=' as int, '=' as int]
    ensures Encode([]) == []
  {
    GroupInLetters(a, b, c);
    GroupInLetters(a, b, 0);
    GroupInLetters(a, 0, 0);
    assert ([a, b, c] + rest)[3..] == rest;
    assert '=' as int == 61;
  }

  /** The place of a letter in the alphabet; any other character counts as the last. */
  function Place(c: byte): nat {
    if c == '/' as int then 63 else if c == '+' as int then 62
    else if '0' as int <= c <= '9' as int then 52 + (c as int - '0' as int)
    else if 'a' as int <= c <= 'z' as int then 26 + (c as int - 'a' as int)
    else if 'A' as int <= c <= 'Z' as int then c as int - 'A' as int
    else 63
  }

  lemma PlaceIs(c: byte)
    ensures Place(c) < 64 && Place(c) == Index(c) % 64
  {
  }

  /** Four places as one number of 24 bits, of which the bytes are its three, from the highest on. */
  function Places(c0: byte, c1: byte, c2: byte, c3: byte): nat {
    Place(c0) * 0x4_0000 + Place(c1) * 0x1000 + Place(c2) * 0x40 + Place(c3)
  }

  lemma ThreeOctets(s0: nat, s1: nat, s2: nat, s3: nat)
    requires s0 < 64 && s1 < 64 && s2 < 64 && s3 < 64
    ensures var x := s0 * 0x4_0000 + s1 * 0x1000 + s2 * 0x40 + s3;
      x / 0x1_0000 == s0 * 4 + s1 / 16 && x / 0x100 % 0x100 == s1 % 16 * 16 + s2 / 4 && x % 0x100 == s2 % 4 * 64 + s3
  {
    var x := s0 * 0x4_0000 + s1 * 0x1000 + s2 * 0x40 + s3;
    assert s1 == s1 / 16 * 16 + s1 % 16 && s2 == s2 / 4 * 4 + s2 % 4;
    assert x / 0x100 == s0 * 0x400 + s1 * 0x10 + s2 / 4;
  }

  lemma HighTwo(t: byte)
    ensures t % 64 / 16 == t / 16 % 4
  {
  }

  lemma LowFour(t: byte)
    ensures t % 64 % 16 == t % 16
  {
  }

  lemma HighFour(t: byte)
    ensures t % 64 / 4 == t / 4 % 16
  {
  }

  lemma LowTwo(t: byte)
    ensures t % 64 % 4 == t % 4
  {
  }

  lemma OctetsOfPlaces(c0: byte, c1: byte, c2: byte, c3: byte)
    ensures var x := Places(c0, c1, c2, c3);
      && First(Index(c0), Index(c1)) == x / 0x1_0000 && Second(Index(c1), Index(c2)) == x / 0x100 % 0x100
      && Third(Index(c2), Index(c3)) == x % 0x100
  {
    PlaceIs(c0);
    PlaceIs(c1);
    PlaceIs(c2);
    PlaceIs(c3);
    HighTwo(Index(c1));
    LowFour(Index(c1));
    HighFour(Index(c2));
    LowTwo(Index(c2));
    ThreeOctets(Place(c0), Place(c1), Place(c2), Place(c3));
  }

  /** Any four characters are decoded so, whether or not they belong to the alphabet: to one byte with an `=`
      in the third place, to two with one in the fourth, else to three, and then what follows is decoded. */
  lemma DecodedInLetters(c0: byte, c1: byte, c2: byte, c3: byte, rest: seq<byte>)
    requires c0 != 0
    ensures var x := Places(c0, c1, c2, c3);
      var three := [x / 0x1_0000, x / 0x100 % 0x100, x % 0x100];
      Decode([c0, c1, c2, c3] + rest)
      == if c2 == '=' as int then three[..1] else if c3 == '=' as int then three[..2] else three + Decode(rest)
  {
    var s := [c0, c1, c2, c3] + rest;
    assert s[4..] == rest;
    OctetsOfPlaces(c0, c1, c2, c3);
  }
}
