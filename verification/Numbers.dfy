/** The 32-bit words of C, and their bytes. */
module Numbers {
  import opened Bytes

  const TWO_TO_THE_32: nat := 0x1_0000_0000

  type word = x: int | 0 <= x < 0x1_0000_0000

  /** The value of an unsigned expression, cut to 32 bits. */
  function Wrap(x: int): word {
    x % 0x1_0000_0000
  }

  function Min(a: nat, b: nat): nat {
    if a < b then a else b
  }

  function Max(a: nat, b: nat): nat {
    if a < b then b else a
  }

  /** The lowest byte. */
  function Octet(x: int): byte {
    x % 256
  }

  lemma OctetsOf(x: word)
    ensures BigEndian(Octet(x / 0x100_0000), Octet(x / 0x1_0000), Octet(x / 0x100), Octet(x)) == x
    ensures x < 0x1_0000 ==> Octet(x / 0x100) == x / 256 && Octet(x) == x % 256
  {
    var a := x / 0x100;
    var b := a / 0x100;
    assert x == 0x100 * a + x % 0x100 && a == 0x100 * b + a % 0x100 && b == 0x100 * (b / 0x100) + b % 0x100;
    assert x / 0x1_0000 == b && x / 0x100_0000 == b / 0x100;
  }

  lemma OctetsFrom(a: byte, b: byte, c: byte, d: byte)
    ensures var x := BigEndian(a, b, c, d);
      Octet(x / 0x100_0000) == a && Octet(x / 0x1_0000) == b && Octet(x / 0x100) == c && Octet(x) == d
  {
    var x: nat := BigEndian(a, b, c, d);
    var y: nat := BigEndian(0, a, b, c);
    var z: nat := BigEndian(0, 0, a, b);
    Shifted(x, y, d);
    Shifted(y, z, c);
    Shifted(z, a, b);
    assert x / 0x1_0000 == x / 0x100 / 0x100 && x / 0x100_0000 == x / 0x1_0000 / 0x100;
  }

  lemma Shifted(x: nat, y: nat, d: byte)
    requires x == y * 0x100 + d
    ensures x / 0x100 == y && Octet(x) == d
  {
  }
}
