/** The check value of Crc32, byte by byte from the first on, as section 8 of RFC 1952 computes it; and its
    value for the digits 1 to 9. */
module RunningDivision {
  import opened PolynomialDivision

  /** Each byte is added below, and eight bits are divided off. */
  function Running<T, B>(d: Field<T, B>, c: T, s: seq<B>): T
    decreases |s|
  {
    if s == [] then c else Running(d, Eight(d, d.add(c, d.read(s[0]))), s[1..])
  }

  lemma {:induction false} DivideIsRunning<T, B>(d: Field<T, B>, c: T, s: seq<B>)
    ensures Divide(d, c, s) == Running(d, c, s)
    decreases |s|
  {
    if s != [] {
      DivideFirst(d, c, s[0], s[1..]);
      assert [s[0]] + s[1..] == s;
      DivideIsRunning(d, Eight(d, d.add(c, d.read(s[0]))), s[1..]);
    }
  }

  lemma RunningFirst<T, B>(d: Field<T, B>, c: T, b: B, r: T, rest: seq<B>)
    requires Eight(d, d.add(c, d.read(b))) == r
    ensures Running(d, c, [b] + rest) == Running(d, r, rest)
  {
  }
}

module Crc32Check {
  import opened Crc32
  import opened PolynomialDivision
  import opened RunningDivision

  /** The register starts inverted and the value is inverted again. */
  lemma CrcIsRunning(c: bv32, s: seq<bv8>)
    ensures Crc(c, s) == Running(WORDS, c ^ 0xFFFF_FFFF, s) ^ 0xFFFF_FFFF
  {
    DivideIsRunning(WORDS, c ^ 0xFFFF_FFFF, s);
  }

  /** In every byte, eight times: the lowest bit falls out, and if it was set the polynomial EDB88320 is
      added. */
  lemma ByteIsDivided(c: bv32, b: bv8)
    ensures Eight(WORDS, WORDS.add(c, WORDS.read(b))) == WordEight(c ^ (b as bv32))
  {
    EightIsWordEight(c ^ (b as bv32));
  }

  lemma NextByte(c: bv32, b: bv8, r: bv32, rest: seq<bv8>)
    requires r == WordEight(c ^ (b as bv32))
    ensures Running(WORDS, c, [b] + rest) == Running(WORDS, r, rest)
  {
    ByteIsDivided(c, b);
    RunningFirst(WORDS, c, b, r, rest);
  }

  /** The digits 1 to 9 in ASCII have the check value CBF43926. */
  lemma CheckValue()
    ensures Crc(0, [0x31, 0x32, 0x33] + ([0x34, 0x35, 0x36] + [0x37, 0x38, 0x39])) == 0xCBF4_3926
  {
    CrcIsRunning(0, [0x31, 0x32, 0x33] + ([0x34, 0x35, 0x36] + [0x37, 0x38, 0x39]));
    FirstThree([0x34, 0x35, 0x36] + [0x37, 0x38, 0x39]);
    NextThree([0x37, 0x38, 0x39]);
    LastThree();
  }

  lemma ThreeBytes(a: bv8, b: bv8, c: bv8, rest: seq<bv8>)
    ensures [a, b, c] + rest == [a] + ([b] + ([c] + rest))
  {
  }

  lemma FirstThree(rest: seq<bv8>)
    ensures Running(WORDS, 0xFFFF_FFFF, [0x31, 0x32, 0x33] + rest) == Running(WORDS, 0x77B7_9C2D, rest)
  {
    ThreeBytes(0x31, 0x32, 0x33, rest);
    NextByte(0xFFFF_FFFF, 0x31, 0x7C23_1048, [0x32] + ([0x33] + rest));
    NextByte(0x7C23_1048, 0x32, 0xB0AC_BB32, [0x33] + rest);
    NextByte(0xB0AC_BB32, 0x33, 0x77B7_9C2D, rest);
  }

  lemma NextThree(rest: seq<bv8>)
    ensures Running(WORDS, 0x77B7_9C2D, [0x34, 0x35, 0x36] + rest) == Running(WORDS, 0xF68D_2C9E, rest)
  {
    ThreeBytes(0x34, 0x35, 0x36, rest);
    NextByte(0x77B7_9C2D, 0x34, 0x641C_1F5C, [0x35] + ([0x36] + rest));
    NextByte(0x641C_1F5C, 0x35, 0x340A_C5E3, [0x36] + rest);
    NextByte(0x340A_C5E3, 0x36, 0xF68D_2C9E, rest);
  }

  lemma LastThree()
    ensures Running(WORDS, 0xF68D_2C9E, [0x37, 0x38, 0x39]) == 0x340B_C6D9
  {
    ThreeBytes(0x37, 0x38, 0x39, []);
    assert [0x37, 0x38, 0x39] + [] == [0x37 as bv8, 0x38, 0x39];
    NextByte(0xF68D_2C9E, 0x37, 0xAFFC_9660, [0x38] + ([0x39] + []));
    NextByte(0xAFFC_9660, 0x38, 0x651F_2550, [0x39] + []);
    NextByte(0x651F_2550, 0x39, 0x340B_C6D9, []);
  }
}
