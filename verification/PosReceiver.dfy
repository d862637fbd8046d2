/**
 The receive interrupt of the line to the card reader:
 pos-salemachine/user_app-forUcos-saleOK/stm32f2xx_it.c. It collects a reply byte by byte and tells
 its end by the payload length and the return code.
 */
module PosReceiver {
  import opened Bytes
  import opened Wrappers
  import opened Payment

  const POS_LEN_MAX := 127
  const POS_FIN_MASK := 128

  /** A reply is complete when it is as long as its header says. */
  predicate Complete(s: seq<byte>) {
    |s| >= POS_MIN_RET_LEN && |s| >= EndLen(PayLen(s), s[7])
  }

  /** One byte more: it is dropped behind a complete reply, and before a start byte. */
  function Taken(s: seq<byte>, b: byte): seq<byte> {
    if Complete(s) || (s == [] && b != PRO_START) then s else s + [b]
  }

  /** What has been collected of a stream. */
  function Collected(stream: seq<byte>): seq<byte> {
    if stream == [] then [] else Taken(Collected(stream[..|stream| - 1]), stream[|stream| - 1])
  }

  /** A reply as it stands in the buffer: begun with a start byte, and not longer than it should be. */
  predicate WellBegun(s: seq<byte>) {
    && (s == [] || s[0] == PRO_START)
    && (|s| > POS_MIN_RET_LEN ==> |s| <= EndLen(PayLen(s), s[7]))
  }

  lemma TakenIsWellBegun(s: seq<byte>, b: byte)
    requires WellBegun(s) && |s| <= POS_OK_RET_LEN
    ensures WellBegun(Taken(s, b)) && |Taken(s, b)| <= POS_OK_RET_LEN && (|s| == POS_OK_RET_LEN ==> Complete(s))
  {
  }

  /** Whatever comes over the line, what is collected starts with a start byte and never exceeds the
      length that its own header gives it; so the buffer of 127 bytes never fills up. */
  lemma {:induction false} CollectedIsWellBegun(stream: seq<byte>)
    ensures WellBegun(Collected(stream)) && |Collected(stream)| <= POS_OK_RET_LEN
  {
    if stream != [] {
      CollectedIsWellBegun(stream[..|stream| - 1]);
      TakenIsWellBegun(Collected(stream[..|stream| - 1]), stream[|stream| - 1]);
    }
  }

  lemma {:induction false} NoiseIsDropped(noise: seq<byte>)
    requires PRO_START !in noise
    ensures Collected(noise) == []
  {
    if noise != [] {
      NoiseIsDropped(noise[..|noise| - 1]);
    }
  }

  /** Without its last byte, what is not too long is not complete. */
  lemma NotYetComplete(m: seq<byte>)
    requires WellBegun(m) && m != []
    ensures WellBegun(m[..|m| - 1]) && !Complete(m[..|m| - 1])
  {
  }

  lemma {:induction false} PrefixIsCollected(noise: seq<byte>, m: seq<byte>)
    requires PRO_START !in noise && WellBegun(m)
    ensures Collected(noise + m) == m
  {
    if m == [] {
      NoiseIsDropped(noise);
      assert noise + m == noise;
    } else {
      var n := |m| - 1;
      NotYetComplete(m);
      PrefixIsCollected(noise, m[..n]);
      assert (noise + m)[..|noise + m| - 1] == noise + m[..n];
      assert m[..n] + [m[n]] == m;
    }
  }

  lemma {:induction false} CompleteStays(stream: seq<byte>, rest: seq<byte>)
    requires Complete(Collected(stream))
    ensures Collected(stream + rest) == Collected(stream)
  {
    if rest == [] {
      assert stream + rest == stream;
    } else {
      var n := |rest| - 1;
      CompleteStays(stream, rest[..n]);
      assert (stream + rest)[..|stream + rest| - 1] == stream + rest[..n];
    }
  }

  /** A reply that is as long as its header says comes through whole, whatever came before it without
      a start byte and whatever comes after it. */
  lemma ReplyComesThrough(noise: seq<byte>, m: seq<byte>, rest: seq<byte>)
    requires PRO_START !in noise && |m| >= POS_MIN_RET_LEN && m[0] == PRO_START && |m| == EndLen(PayLen(m), m[7])
    ensures Collected(noise + m + rest) == m && Complete(m)
  {
    PrefixIsCollected(noise, m);
    CompleteStays(noise + m, rest);
  }

  class Receiver {
    const buffer: array<byte>
    var sta: nat
    var code: byte
    ghost var stream: seq<byte>

    ghost predicate Valid()
      reads this, buffer
    {
      && buffer.Length == POS_LEN_MAX + 1
      && |Collected(stream)| <= POS_OK_RET_LEN && WellBegun(Collected(stream))
      && buffer[..|Collected(stream)|] == Collected(stream)
      && Flagged(Collected(stream))
    }

    /** The mask is set exactly behind a complete reply, and then the code is known. */
    ghost predicate Flagged(s: seq<byte>)
      reads this
    {
      if Complete(s) then sta == |s| + POS_FIN_MASK && code == CodeOf(PayLen(s), s[7]) else sta == |s|
    }

    constructor ()
      ensures Valid() && stream == [] && fresh(buffer)
    {
      buffer := new byte[POS_LEN_MAX + 1](_ => 0);
      sta, code, stream := 0, 0, [];
    }

    /** One receive interrupt. */
    method OnByte(res: byte)
      requires Valid()
      modifies this, buffer
      ensures Valid() && stream == old(stream) + [res]
    {
      ghost var s := Collected(stream);
      TakenIsWellBegun(s, res);
      Store(res, s);
      stream := stream + [res];
      assert stream[..|stream| - 1] == old(stream);
    }

    method Store(res: byte, ghost s: seq<byte>)
      requires buffer.Length == POS_LEN_MAX + 1 && |s| <= POS_OK_RET_LEN && (|s| == POS_OK_RET_LEN ==> Complete(s))
      requires buffer[..|s|] == s && Flagged(s)
      modifies this`sta, this`code, buffer
      ensures |Taken(s, res)| <= buffer.Length && buffer[..|Taken(s, res)|] == Taken(s, res) && Flagged(Taken(s, res))
    {
      if sta < POS_FIN_MASK {
        if sta < POS_LEN_MAX {
          if sta == 0 {
            if res == PRO_START {
              buffer[sta] := res;
              sta := sta + 1;
            }
          } else {
            buffer[sta] := res;
            sta := sta + 1;
            assert buffer[..|s| + 1] == s + [res];
            if sta >= POS_MIN_RET_LEN {
              Classify();
            }
          }
        } else {
          assert false;
        }
      }
    }

    /** The end of a reply, by its payload length and return code. */
    method Classify()
      requires buffer.Length == POS_LEN_MAX + 1 && POS_MIN_RET_LEN <= sta <= POS_OK_RET_LEN
      modifies this`sta, this`code
      ensures var s := buffer[..old(sta)];
        if Complete(s) then sta == |s| + POS_FIN_MASK && code == CodeOf(PayLen(s), s[7]) else sta == |s|
    {
      var paylen: nat := BigEndian(0, 0, buffer[5], buffer[6]);
      var retcode := buffer[7];
      if paylen >= 26 && retcode == POS_SUCCESS {
        if sta >= POS_OK_RET_LEN {
          sta, code := sta + POS_FIN_MASK, POS_SUCCESS;
        }
      } else if paylen == 2 && retcode == DEAL_WAIT {
        if sta >= POS_DEAL_WAIT_LEN {
          sta, code := sta + POS_FIN_MASK, DEAL_WAIT;
        }
      } else if paylen == 1 && CRC_FAIL <= retcode <= DEAL_TIMEOUT {
        if sta >= POS_NORMAL_LEN {
          sta, code := sta + POS_FIN_MASK, retcode;
        }
      } else {
        sta, code := sta + POS_FIN_MASK, UNSUPPORT;
      }
    }

    /** How `pos_recv_task` looks for a reply. */
    method Look() returns (reply: Option<Reply>)
      requires Valid()
      ensures reply.Some? <==> Complete(Collected(stream))
      ensures reply.Some? ==> ReplyOk(reply.value) && reply.value.buffer[..reply.value.size] == Collected(stream)
    {
      if sta >= POS_FIN_MASK {
        reply := Some(Reply(buffer[..], sta - POS_FIN_MASK, code));
      } else {
        reply := None;
      }
    }

    /** How it clears the buffer. */
    method Clear()
      requires Valid()
      modifies this, buffer
      ensures Valid() && stream == []
    {
      sta, code := 0, 0;
      forall k | 0 <= k < buffer.Length {
        buffer[k] := 0;
      }
      stream := [];
    }
  }
}
