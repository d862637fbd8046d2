/** Exclusive or on numbers, bit by bit. */
module Bits {
  import opened Bytes

  function Pow2(n: nat): (p: nat)
    ensures p > 0
  {
    if n == 0 then 1 else 2 * Pow2(n - 1)
  }

  /** Exclusive or of the lowest n bits. */
  function XorBits(a: nat, b: nat, n: nat): (r: nat)
    ensures r < Pow2(n)
  {
    if n == 0 then 0 else (a + b) % 2 + 2 * XorBits(a / 2, b / 2, n - 1)
  }

  function XorByte(a: byte, b: byte): byte {
    assert Pow2(4) == 16 && Pow2(8) == 256;
    XorBits(a, b, 8)
  }

  lemma {:induction false} XorBitsCancels(a: nat, b: nat, c: nat, n: nat)
    requires b < Pow2(n) && c < Pow2(n) && b != c
    ensures XorBits(a, b, n) != XorBits(a, c, n) && XorBits(b, a, n) != XorBits(c, a, n)
  {
    if n != 0 && b / 2 != c / 2 {
      XorBitsCancels(a / 2, b / 2, c / 2, n - 1);
    }
  }

  lemma {:induction false} XorBitsZero(a: nat, n: nat)
    requires a < Pow2(n)
    ensures XorBits(a, 0, n) == a == XorBits(0, a, n)
  {
    if n != 0 {
      XorBitsZero(a / 2, n - 1);
    }
  }

  lemma XorByteCancels(a: byte, b: byte, c: byte)
    requires b != c
    ensures XorByte(a, b) != XorByte(a, c) && XorByte(b, a) != XorByte(c, a)
  {
    assert Pow2(4) == 16 && Pow2(8) == 256;
    XorBitsCancels(a, b, c, 8);
  }

  lemma XorByteZero(a: byte)
    ensures XorByte(a, 0) == a == XorByte(0, a)
  {
    assert Pow2(4) == 16 && Pow2(8) == 256;
    XorBitsZero(a, 8);
  }

  /** And of the lowest n bits. */
  function AndBits(a: nat, b: nat, n: nat): (r: nat)
    ensures r < Pow2(n)
  {
    if n == 0 then 0 else a % 2 * (b % 2) + 2 * AndBits(a / 2, b / 2, n - 1)
  }

  function AndByte(a: byte, b: byte): byte {
    assert Pow2(4) == 16 && Pow2(8) == 256;
    AndBits(a, b, 8)
  }

  lemma {:induction false} AndOnes(b: nat, n: nat)
    requires b < Pow2(n)
    ensures AndBits(Pow2(n) - 1, b, n) == b
  {
    if n != 0 {
      AndOnes(b / 2, n - 1);
      assert (Pow2(n) - 1) / 2 == Pow2(n - 1) - 1 && (Pow2(n) - 1) % 2 == 1;
    }
  }

  lemma AndAllOnes(b: byte)
    ensures AndByte(0xFF, b) == b
  {
    assert Pow2(4) == 16 && Pow2(8) == 256;
    AndOnes(b, 8);
  }

  /** A mask that is odd keeps the lowest bit. */
  lemma AndStep(a: nat, q: nat, n: nat)
    requires n > 0
    ensures AndBits(a, 2 * q + 1, n) == a % 2 + 2 * AndBits(a / 2, q, n - 1)
  {
  }

  /** Masking with one less than a power of two is the remainder. */
  lemma {:induction false} MaskIsModulo(a: nat, m: nat, n: nat)
    requires m <= n
    ensures AndBits(a, Pow2(m) - 1, n) == a % Pow2(m)
  {
    if m == 0 {
      AndZero(a, n);
    } else {
      var p := Pow2(m - 1);
      MaskIsModulo(a / 2, m - 1, n - 1);
      AndStep(a, p - 1, n);
      HalveModulo(a, p);
    }
  }

  /** Or of the lowest n bits. */
  function OrBits(a: nat, b: nat, n: nat): (r: nat)
    ensures r < Pow2(n)
  {
    if n == 0 then 0 else (if a % 2 + b % 2 > 0 then 1 else 0) + 2 * OrBits(a / 2, b / 2, n - 1)
  }

  lemma {:induction false} OrZero(a: nat, n: nat)
    requires a < Pow2(n)
    ensures OrBits(0, a, n) == a
  {
    if n != 0 {
      OrZero(a / 2, n - 1);
    }
  }

  /** Or of numbers that share no bit is their sum. */
  lemma {:induction false} OrIsSum(a: nat, b: nat, k: nat, n: nat)
    requires k <= n && a < Pow2(k) && b * Pow2(k) < Pow2(n)
    ensures OrBits(a, b * Pow2(k), n) == a + b * Pow2(k)
  {
    if k == 0 {
      OrZero(b, n);
    } else {
      Halved(b, Pow2(k - 1));
      OrIsSum(a / 2, b, k - 1, n - 1);
    }
  }

  lemma Halved(b: nat, p: nat)
    ensures b * (2 * p) == 2 * (b * p) && b * (2 * p) / 2 == b * p && b * (2 * p) % 2 == 0
  {
    assert b * (2 * p) == 2 * (b * p);
  }

  /** Setting a bit above and masking with a mask that is odd: the lowest bit stays. */
  lemma MaskStep(a: nat, p: nat, q: nat, n: nat)
    requires n > 0
    ensures AndBits(OrBits(a, 2 * p, n), 2 * q + 1, n) == a % 2 + 2 * AndBits(OrBits(a / 2, p, n - 1), q, n - 1)
  {
  }

  /** Six bits below stay. */
  lemma MaskSix(a: nat, p: nat, q: nat, n: nat)
    requires n >= 6
    ensures AndBits(OrBits(a, 64 * p, n), 64 * q + 63, n) == a % 64 + 64 * AndBits(OrBits(a / 64, p, n - 6), q, n - 6)
  {
    MaskThree(a, 8 * p, 8 * q + 7, n);
    MaskThree(a / 8, p, q, n - 3);
    assert a / 8 / 8 == a / 64 && a % 64 == a % 8 + 8 * (a / 8 % 8);
  }

  lemma MaskThree(a: nat, p: nat, q: nat, n: nat)
    requires n >= 3
    ensures AndBits(OrBits(a, 8 * p, n), 8 * q + 7, n) == a % 8 + 8 * AndBits(OrBits(a / 8, p, n - 3), q, n - 3)
  {
    MaskStep(a, 4 * p, 4 * q + 3, n);
    MaskStep(a / 2, 2 * p, 2 * q + 1, n - 1);
    MaskStep(a / 2 / 2, p, q, n - 2);
    LowThree(a);
  }

  lemma LowThree(a: nat)
    ensures a / 2 / 2 / 2 == a / 8 && a % 8 == a % 2 + 2 * (a / 2 % 2) + 4 * (a / 2 / 2 % 2)
  {
  }

  lemma {:induction false} AndZero(a: nat, n: nat)
    ensures AndBits(a, 0, n) == 0
  {
    if n != 0 {
      AndZero(a / 2, n - 1);
    }
  }

  lemma HalveModulo(a: nat, p: nat)
    requires p > 0
    ensures a % (2 * p) == a % 2 + 2 * (a / 2 % p)
  {
    var h := a / 2;
    var q, r := h / p, h % p;
    assert h == q * p + r;
    assert a == 2 * h + a % 2;
    assert a == q * (2 * p) + (2 * r + a % 2);
    RemainderUnique(a, q, 2 * p, 2 * r + a % 2);
  }

  lemma RemainderUnique(a: nat, q: nat, d: nat, r: nat)
    requires r < d && a == q * d + r
    ensures a % d == r
  {
    var q', r' := a / d, a % d;
    assert q' * d + r' == q * d + r;
    if q < q' {
      Apart(q, q', d);
    } else if q' < q {
      Apart(q', q, d);
    }
  }

  lemma Apart(q: nat, q': nat, d: nat)
    requires q < q'
    ensures q' * d >= q * d + d
  {
    assert q' * d == q * d + (q' - q) * d;
    assert (q' - q) * d == d + (q' - q - 1) * d;
  }
}
