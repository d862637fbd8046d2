/** The exclusive or of Bits, one bit at a time. */
module BitColumns {
  import opened Bits
  import opened Bytes

  /** The k-th bit, counted from the lowest. */
  function BitOf(x: nat, k: nat): nat {
    if k == 0 then x % 2 else BitOf(x / 2, k - 1)
  }

  lemma {:induction false} XorBit(a: nat, b: nat, n: nat, k: nat)
    requires k < n
    ensures BitOf(XorBits(a, b, n), k) == (BitOf(a, k) + BitOf(b, k)) % 2
  {
    LowestBit(a, b, XorBits(a / 2, b / 2, n - 1));
    if k > 0 {
      XorBit(a / 2, b / 2, n - 1, k - 1);
    }
  }

  lemma LowestBit(a: nat, b: nat, high: nat)
    ensures ((a + b) % 2 + 2 * high) % 2 == (a % 2 + b % 2) % 2 && ((a + b) % 2 + 2 * high) / 2 == high
  {
  }

  lemma {:induction false} SameBits(a: nat, b: nat, n: nat)
    requires a < Pow2(n) && b < Pow2(n) && forall k: nat :: k < n ==> BitOf(a, k) == BitOf(b, k)
    ensures a == b
  {
    if n > 0 {
      assert BitOf(a, 0) == BitOf(b, 0);
      forall k: nat | k < n - 1 ensures BitOf(a / 2, k) == BitOf(b / 2, k) {
        assert BitOf(a, k + 1) == BitOf(b, k + 1);
      }
      SameBits(a / 2, b / 2, n - 1);
    }
  }

  lemma {:induction false} BitOfZero(k: nat)
    ensures BitOf(0, k) == 0
  {
    if k > 0 {
      BitOfZero(k - 1);
    }
  }

  lemma ParityAdds(x: nat, y: nat)
    ensures (x % 2 + y) % 2 == (x + y) % 2
  {
  }

  lemma XorByteBit(a: byte, b: byte, k: nat)
    requires k < 8
    ensures BitOf(XorByte(a, b), k) == (BitOf(a, k) + BitOf(b, k)) % 2
  {
    XorBit(a, b, 8, k);
  }
}
