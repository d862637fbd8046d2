/**
 Runs of Payment on which it goes wrong. Each refuses a request, so by PaymentPace the reader's loop
 makes no pass between two charges, which are over 100 ms apart: these are runs in which the reader
 task is held up, as by a blocked serial line or a task of higher priority. With a reader that keeps
 up there are none.
 */
module PaymentFailures {
  import opened Bytes
  import opened Wrappers
  import opened Payment
  import opened PaymentSafety

  /** One more event at the end of a run. */
  lemma Then(events: seq<Event>, e: Event) returns (more: seq<Event>)
    requires AllOk(events) && EventOk(e)
    ensures more == events + [e] && AllOk(more) && Run(START, more) == Step(Run(START, events), e)
  {
    more := events + [e];
    assert more[..|events|] == events;
  }

  /** A second request before the reader has taken the first is refused, and yet its amount is what
      is deducted: the mailbox holds a pointer. */
  lemma RefusedAmountIsDeducted(accepted: Amount, refused: Amount) returns (events: seq<Event>)
    requires refused != 0
    ensures AllOk(events) && LogOf(events) == [] + [Asked(accepted)] + [Refused(refused)] + [Deducted(0, Fen(refused))]
  {
    events := Then([], Vts(Pd));
    assert Run(START, events) == START.(pdEnd := true);
    events := Then(events, Vts(Cw(accepted)));
    events := Then(events, Vts(Cw(refused)));
    events := Then(events, Pos(None));
  }

  /** A deduction, and six seconds in vain. */
  lemma SixSeconds() returns (events: seq<Event>)
    ensures AllOk(events)
    ensures var s := Run(START, events);
      && s.flag && !s.noWait && !s.posMail && !s.vtsMail && s.pdEnd && s.timeout == 6 && s.nextSeq == 1
  {
    events := Then([], Vts(Pd));
    events := Then(events, Vts(Cw(5)));
    events := Then(events, Pos(None));
    for i := 0 to 6
      invariant AllOk(events)
      invariant var s := Run(START, events);
        s.flag && !s.noWait && !s.posMail && !s.vtsMail && s.pdEnd && s.timeout == i && s.nextSeq == 1
    {
      events := Then(events, Vts(Other));
    }
  }

  /** Eight seconds in vain, with a second request in the last but one and a third in the last. The
      third is refused, and deducted without anybody waiting for the result. */
  lemma NobodyWaits() returns (events: seq<Event>)
    ensures AllOk(events)
    ensures var s := Run(START, events); s.flag && s.noWait && !s.posMail && !s.vtsMail && s.pdEnd
    ensures var s := Run(START, events); s.curSeq == 1 && s.nextSeq == 2 && s.stRetCode == 0 && s.timeout == 0
  {
    events := SixSeconds();
    events := Then(events, Vts(Cw(5)));
    events := Then(events, Vts(Cw(6)));
    events := Then(events, Pos(None));
  }

  /** Start byte, number 1, type, code, 26 bytes of payload of which the first says success, and room
      for the checksum. */
  function Payload(): (m: seq<byte>)
    ensures |m| == 33
  {
    [PRO_START, 0, 1, 1, 0x52, 0, 26, POS_SUCCESS] + seq(25, _ => 0)
  }

  function SuccessReply(): Reply {
    Reply(Payload() + [Xor(Payload()[1..])] + seq(94, _ => 0), 34, POS_SUCCESS)
  }

  lemma SuccessReplyIsValid()
    ensures ReplyOk(SuccessReply()) && HasSeq(SuccessReply().buffer, 1) && ValidRet(SuccessReply().buffer, 34)
  {
    assert SuccessReply().buffer[1..33] == Payload()[1..];
  }

  /** The deduction nobody waits for is answered, and cancelled by a request for nothing, which leaves
      the reply behind. */
  lemma ReplyIsLeft() returns (events: seq<Event>)
    ensures AllOk(events)
    ensures var s := Run(START, events);
      && s.posMail && !s.flag && s.pdEnd && !s.vtsMail && !s.noWait && s.timeout == 0 && s.nextSeq == 2
      && s.stRetCode != NO_CARD && s.log != [] && s.log[|s.log| - 1].Cancelled?
  {
    events := NobodyWaits();
    SuccessReplyIsValid();
    events := Then(events, Pos(Some(SuccessReply())));
    events := Then(events, Vts(Cw(0)));
    events := Then(events, Pos(None));
  }

  /** The next charge is then reported paid with no reply of its own. */
  lemma StaleReplyIsReported(a: Amount) returns (events: seq<Event>, i: nat)
    requires a != 0
    ensures AllOk(events) && 3 <= i < |LogOf(events)| && LogOf(events)[i] == CwOk
    ensures LogOf(events)[i - 1] == Deducted(2, Fen(a)) && LogOf(events)[i - 2] == Asked(a)
    ensures forall k: nat, j: nat :: !Explains(LogOf(events), k, j, i)
  {
    events := ReplyIsLeft();
    var before := LogOf(events);
    events := Then(events, Vts(Cw(a)));
    events := Then(events, Pos(None));
    assert LogOf(events) == before + [Asked(a)] + [Deducted(2, Fen(a))];
    events := Then(events, Vts(Other));
    i := |before| + 2;
    assert LogOf(events) == before + [Asked(a)] + [Deducted(2, Fen(a))] + [CwOk];
    Unexplained(LogOf(events), i);
  }

  /** A deduction is not answered in the moment it is sent. */
  lemma Unexplained(log: seq<Act>, i: nat)
    requires 0 < i <= |log| && log[i - 1].Deducted?
    ensures forall k: nat, j: nat :: !Explains(log, k, j, i)
  {
    forall k: nat, j: nat
      ensures !Explains(log, k, j, i)
    {
      assert Explains(log, k, j, i) ==> Runs(log, k, i) && k < i - 1 < i;
    }
  }
}
