/** The hash of HashNvram as one number: a polynomial in 31 over the signed characters, to 32 bits. */
module HashPolynomial {
  import opened Bytes
  import opened HashNvram

  function PowerOf31(n: nat): nat {
    if n == 0 then 1 else 31 * PowerOf31(n - 1)
  }

  /** Each character, from -128 to 127, counts 31 times as much as the next one. */
  function Polynomial(s: str): int {
    if s == [] then 0
    else (if s[0] < 128 then s[0] as int else s[0] as int - 256) * PowerOf31(|s| - 1) + Polynomial(s[1..])
  }

  lemma {:induction false} PolynomialAppend(s: str, c: byte)
    ensures Polynomial(s + [c]) == 31 * Polynomial(s) + if c < 128 then c as int else c as int - 256
  {
    if s == [] {
      assert s + [c] == [c] && [c][1..] == [];
    } else {
      PolynomialAppend(s[1..], c);
      assert (s + [c])[1..] == s[1..] + [c];
      var d: int := if s[0] < 128 then s[0] as int else s[0] as int - 256;
      Factored(d, PowerOf31(|s| - 1));
    }
  }

  lemma Factored(d: int, p: nat)
    ensures d * (31 * p) == 31 * (d * p)
  {
  }

  lemma StepWraps(h: int, c: int)
    ensures (31 * (h % 0x1_0000_0000) + c) % 0x1_0000_0000 == (31 * h + c) % 0x1_0000_0000
  {
    var q := h / 0x1_0000_0000;
    assert 31 * h + c == 31 * (h % 0x1_0000_0000) + c + 31 * q * 0x1_0000_0000;
    WholeMultiples(31 * (h % 0x1_0000_0000) + c, 31 * q);
  }

  lemma WholeMultiples(x: int, q: int)
    ensures (x + q * 0x1_0000_0000) % 0x1_0000_0000 == x % 0x1_0000_0000
  {
  }

  lemma {:induction false} HashIsPolynomial(s: str)
    ensures Hash(s) == Polynomial(s) % 0x1_0000_0000 && Index(s) == Polynomial(s) % 0x1_0000_0000 % 65
  {
    if s != [] {
      var n := |s| - 1;
      HashIsPolynomial(s[..n]);
      PolynomialAppend(s[..n], s[n]);
      assert s == s[..n] + [s[n]];
      StepWraps(Polynomial(s[..n]), if s[n] < 128 then s[n] as int else s[n] as int - 256);
    }
  }
}
