/**
 The messages of the card reader and the vending machine in bytes: which replies confirm a deduction,
 and what goes out on the two lines.
 */
module PaymentReplies {
  import opened BitColumns
  import opened Bits
  import opened Bytes
  import opened Payment
  import opened PaymentTasks

  // ---- the checksum, bit by bit ----

  /** How many of the bytes have it. */
  function Ones(m: seq<byte>, k: nat): nat {
    if m == [] then 0 else Ones(m[..|m| - 1], k) + BitOf(m[|m| - 1], k)
  }

  /** With the checksum, every bit is set an even number of times. */
  predicate Checks(m: seq<byte>, x: byte) {
    forall k: nat :: k < 8 ==> BitOf(x, k) == Ones(m, k) % 2
  }

  lemma {:induction false} XorColumn(m: seq<byte>, k: nat)
    requires k < 8
    ensures BitOf(Xor(m), k) == Ones(m, k) % 2
  {
    if m == [] {
      BitOfZero(k);
    } else {
      var n := |m| - 1;
      XorColumn(m[..n], k);
      XorByteBit(Xor(m[..n]), m[n], k);
      ParityAdds(Ones(m[..n], k), BitOf(m[n], k));
    }
  }

  /** The checksum is the only byte that makes every bit even. */
  lemma ChecksumExactly(m: seq<byte>, x: byte)
    ensures Checks(m, x) <==> x == Xor(m)
  {
    forall k: nat | k < 8 ensures BitOf(Xor(m), k) == Ones(m, k) % 2 {
      XorColumn(m, k);
    }
    if Checks(m, x) {
      assert Pow2(4) == 16 && Pow2(8) == 256;
      SameBits(x, Xor(m), 8);
    }
  }

  // ---- replies of the reader ----

  /** A reply: a start byte, the number of the request in two bytes, two more bytes, the length of the
      payload in two bytes, the payload, and the checksum. What the receive interrupt hands over is as
      long as the payload makes it, which begins with the return code. */
  predicate HandedOver(r: Reply) {
    && |r.buffer| == 128 && r.buffer[0] == 0x5A
    && var pay, ret := r.buffer[5] as int * 256 + r.buffer[6], r.buffer[7];
       if pay >= 26 && ret == 0 then r.size == 34 && r.code == 0
       else if pay == 2 && ret == 6 then r.size == 10 && r.code == 6
       else if pay == 1 && 1 <= ret <= 0x43 then r.size == 9 && r.code == ret
       else r.size == 8 && r.code == 0xF0
  }

  /** The reply is sound and carries this number. */
  predicate Answering(r: Reply, n: nat)
    requires HandedOver(r)
  {
    r.buffer[1] as int * 256 + r.buffer[2] == n && Checks(r.buffer[1..r.size - 1], r.buffer[r.size - 1])
  }

  /** It confirms the deduction of this number: 26 bytes of payload and the return code 0. */
  predicate Confirms(r: Reply, n: nat)
    requires HandedOver(r)
  {
    r.buffer[5] as int * 256 + r.buffer[6] >= 26 && r.buffer[7] == 0 && Answering(r, n)
  }

  /** It says that there is no card: one byte of payload, the return code 4. */
  predicate Misses(r: Reply, n: nat)
    requires HandedOver(r)
  {
    r.buffer[5] == 0 && r.buffer[6] == 1 && r.buffer[7] == 4 && Answering(r, n)
  }

  lemma HandedOverExactly(r: Reply)
    ensures ReplyOk(r) <==> HandedOver(r)
  {
  }

  lemma AnsweringExactly(r: Reply, n: nat)
    requires ReplyOk(r)
    ensures HandedOver(r) && (Answering(r, n) <==> HasSeq(r.buffer, n) && ValidRet(r.buffer, r.size))
  {
    ChecksumExactly(r.buffer[1..r.size - 1], r.buffer[r.size - 1]);
  }

  // ---- what goes out on the lines ----

  /** A request to the reader: 12 bytes, a deduction (A2) or a cancellation (A3). */
  predicate RequestBytes(m: seq<byte>, kind: byte, n: nat, money: nat) {
    && |m| == 12 && m[0] == 0x5A && m[1] as int * 256 + m[2] == n && m[3..7] == [1, kind, 0, 4]
    && m[7] as int * 0x100_0000 + m[8] as int * 0x1_0000 + m[9] as int * 0x100 + m[10] == money
    && Checks(m[1..11], m[11])
  }

  lemma MessageInBytes(m: seq<byte>, kind: byte, n: nat, money: nat)
    ensures IsMessage(m, kind, n, money) <==> RequestBytes(m, kind, n, money)
  {
    if |m| == 12 {
      ChecksumExactly(m[1..11], m[11]);
      assert Sealed(m) <==> m[11] == Xor(m[1..11]);
      assert m[3..7] == [m[3], m[4], m[5], m[6]];
    }
  }

  /** The vending machine is sent "CW0" or "CW1" between the bytes 2 and 3, and the checksum of these
      four. */
  predicate ReportBytes(m: seq<byte>, ok: bool) {
    |m| == 6 && m[..5] == [2, 67, 87, if ok then 48 else 49, 3] && Checks(m[1..5], m[5])
  }

  lemma ReportInBytes(m: seq<byte>, ok: bool)
    ensures IsReport(m, ok) <==> ReportBytes(m, ok)
  {
    if |m| == 6 {
      ChecksumExactly(m[1..5], m[5]);
      assert Sealed(m) <==> m[5] == Xor(m[1..5]);
    }
  }

  /** The bytes of an act: requests to the reader, and reports to the vending machine, where a refusal and
      a timeout read alike. */
  predicate ActBytes(m: seq<byte>, a: Act) {
    match a
    case Deducted(n, money) => RequestBytes(m, 0xA2, n, money)
    case Repeated(n, money) => RequestBytes(m, 0xA2, n, money)
    case Cancelled(n, money) => RequestBytes(m, 0xA3, n, money)
    case CwOk => ReportBytes(m, true)
    case CwTimeout => ReportBytes(m, false)
    case Refused(_) => ReportBytes(m, false)
    case _ => false
  }

  lemma ShownInBytes(m: seq<byte>, a: Act)
    ensures PaymentTasks.Shows(m, a) <==> ActBytes(m, a)
  {
    match a {
      case Deducted(n, money) => MessageInBytes(m, 0xA2, n, money);
      case Repeated(n, money) => MessageInBytes(m, 0xA2, n, money);
      case Cancelled(n, money) => MessageInBytes(m, 0xA3, n, money);
      case _ =>
        ReportInBytes(m, true);
        ReportInBytes(m, false);
    }
  }
}
