/**
 The two task loops of MFUN.C as code on shared variables, proved to take the steps of Payment, and
 to put on the lines to the card reader and to the vending machine the messages of what they do.
 */
module PaymentTasks {
  import opened Bits
  import opened Bytes
  import opened Numbers
  import opened Payment
  import opened Wrappers

  const POS_CMD_DED_LEN: nat := 12
  const CMD_DED: byte := 0xA2
  const CMD_CANCEL: byte := 0xA3
  const STX: byte := 2
  const ETX: byte := 3

  // ---- messages to the reader ----

  /** A message: start, number, type, command, payload length, the money, and the checksum. */
  predicate IsMessage(m: seq<byte>, command: byte, seqNo: nat, money: nat) {
    |m| == POS_CMD_DED_LEN && IsHeader(m, command, seqNo, money) && Sealed(m)
  }

  /** The last byte is the checksum of what lies between it and the start byte. */
  predicate Sealed(m: seq<byte>) {
    forall n {:trigger m[1..n]} :: 1 <= n == |m| - 1 ==> m[n] == Xor(m[1..n])
  }

  predicate IsHeader(m: seq<byte>, command: byte, seqNo: nat, money: nat)
    requires |m| == POS_CMD_DED_LEN
  {
    && m[0] == PRO_START && HasSeq(m, seqNo) && m[3] == 1 && m[4] == command && m[5] == 0 && m[6] == 4
    && BigEndian(m[7], m[8], m[9], m[10]) == money
  }

  /** The reader can tell from the bytes what is asked: no two requests look alike. */
  lemma MessageIsReadable(m: seq<byte>, command: byte, seqNo: nat, money: nat, command': byte, seqNo': nat, money': nat)
    requires IsMessage(m, command, seqNo, money) && IsMessage(m, command', seqNo', money')
    ensures command == command' && seqNo == seqNo' && money == money'
  {
  }

  // ---- messages to the vending machine ----

  /** RSP_CW_OK or RSP_CW_NOK: "CW0" or "CW1" between STX and ETX, with the checksum. */
  predicate IsReport(m: seq<byte>, ok: bool) {
    |m| == 6 && m[..5] == [STX, 67, 87, if ok then 48 else 49, ETX] && Sealed(m)
  }

  // ---- what the two lines carry ----

  datatype Side = Reader | Machine

  /** Is there a message of this act on the line to this side? */
  predicate Tells(side: Side, a: Act) {
    match side
    case Reader => a.Deducted? || a.Repeated? || a.Cancelled?
    case Machine => a.CwOk? || a.CwTimeout? || a.Refused?
  }

  predicate Shows(m: seq<byte>, a: Act) {
    if Tells(Reader, a) then IsMessage(m, if a.Cancelled? then CMD_CANCEL else CMD_DED, a.seqNo, a.money)
    else Tells(Machine, a) && IsReport(m, a.CwOk?)
  }

  predicate ShowsAll(line: seq<seq<byte>>, acts: seq<Act>) {
    |line| == |acts| && forall i :: 0 <= i < |line| ==> Shows(line[i], acts[i])
  }

  /** What one side is told of a log. */
  function Told(side: Side, log: seq<Act>): seq<Act> {
    if log == [] then []
    else
      var acts := Told(side, log[..|log| - 1]);
      if Tells(side, log[|log| - 1]) then acts + [log[|log| - 1]] else acts
  }

  lemma ToldAppend(side: Side, log: seq<Act>, a: Act)
    ensures Told(side, log + [a]) == if Tells(side, a) then Told(side, log) + [a] else Told(side, log)
  {
    assert (log + [a])[..|log|] == log;
  }

  // ---- the code ----

  /** `is_valid_posret_msg` */
  method IsValidPosRet(msg: seq<byte>, len: nat) returns (ok: bool)
    requires len <= |msg|
    ensures ok == ValidRet(msg, len)
  {
    if len < POS_MIN_RET_LEN || len > POS_MAX_RET_LEN {
      return false;
    }
    if msg[0] != PRO_START {
      return false;
    }
    var crc := msg[1];
    XorByteZero(crc);
    assert msg[1..2][..0] == [] && crc == Xor(msg[1..2]);
    var i := 2;
    while i < len - 1
      invariant 2 <= i <= len - 1 && crc == Xor(msg[1..i])
    {
      assert msg[1..i + 1][..i - 1] == msg[1..i];
      crc := XorByte(crc, msg[i]);
      i := i + 1;
    }
    return crc == msg[len - 1];
  }

  /** The checksum loop of `package_deduct_msg`, `package_cancel_msg` and the reports. */
  method Seal(outmsg: array<byte>, len: nat)
    requires 3 <= len <= outmsg.Length
    modifies outmsg
    ensures outmsg[..len - 1] == old(outmsg[..len - 1]) && Sealed(outmsg[..len])
  {
    var crc := outmsg[1];
    XorByteZero(crc);
    assert outmsg[1..2] == [outmsg[1]] && outmsg[1..2][..0] == [];
    var i := 2;
    while i < len - 1
      invariant 2 <= i <= len - 1 && crc == Xor(outmsg[1..i])
    {
      assert outmsg[1..i + 1][..i - 1] == outmsg[1..i];
      crc := XorByte(crc, outmsg[i]);
      i := i + 1;
    }
    outmsg[len - 1] := crc;
    assert outmsg[..len][1..len - 1] == outmsg[1..len - 1];
  }

  /** `package_deduct_msg` */
  method PackageDeduct(seqNo: nat, money4B: nat, outmsg: array<byte>)
    requires outmsg.Length > POS_CMD_DED_LEN && seqNo < 0x1_0000 && money4B < 0x1_0000_0000
    modifies outmsg
    ensures IsMessage(outmsg[..12], CMD_DED, seqNo, money4B)
  {
    FillDeduct(seqNo, money4B, outmsg);
    ghost var header := outmsg[..12];
    Seal(outmsg, POS_CMD_DED_LEN);
    SameHeader(header, outmsg[..12], CMD_DED, CMD_DED, seqNo, money4B);
  }

  method FillDeduct(seqNo: nat, money4B: nat, outmsg: array<byte>)
    requires outmsg.Length > POS_CMD_DED_LEN && seqNo < 0x1_0000 && money4B < 0x1_0000_0000
    modifies outmsg
    ensures IsHeader(outmsg[..12], CMD_DED, seqNo, money4B)
  {
    OctetsOf(seqNo);
    OctetsOf(money4B);
    outmsg[0] := PRO_START;
    outmsg[1], outmsg[2] := Octet(seqNo / 256), Octet(seqNo);
    outmsg[3], outmsg[4] := 1, CMD_DED;
    outmsg[5], outmsg[6] := 0, 4;
    outmsg[7], outmsg[8] := Octet(money4B / 0x100_0000), Octet(money4B / 0x1_0000);
    outmsg[9], outmsg[10] := Octet(money4B / 0x100), Octet(money4B);
  }

  lemma SameHeader(m: seq<byte>, n: seq<byte>, command: byte, command': byte, seqNo: nat, money: nat)
    requires |m| == |n| == POS_CMD_DED_LEN && IsHeader(m, command, seqNo, money)
    requires n[..11] == m[..11][4 := command']
    ensures IsHeader(n, command', seqNo, money)
  {
    assert forall k :: 0 <= k < 11 ==> n[..11][k] == n[k] && m[..11][k] == m[k];
  }

  /** `package_cancel_msg`: of a deduction it makes the cancellation; without a start byte, nothing. */
  method PackageCancel(inmsg: array<byte>, outmsg: array<byte>, ghost seqNo: nat, ghost money: nat) returns (len: nat)
    requires inmsg.Length > POS_CMD_DED_LEN && outmsg.Length > POS_CMD_DED_LEN && inmsg != outmsg
    modifies outmsg
    ensures len == if inmsg[0] == PRO_START then POS_CMD_DED_LEN else 0
    ensures len == 0 ==> outmsg[..] == old(outmsg[..])
    ensures IsMessage(inmsg[..12], CMD_DED, seqNo, money) ==> IsMessage(outmsg[..12], CMD_CANCEL, seqNo, money)
  {
    if inmsg[0] != PRO_START {
      return 0;
    }
    forall k | 0 <= k < 12 {
      outmsg[k] := inmsg[k];
    }
    outmsg[4] := CMD_CANCEL;
    ghost var header := outmsg[..11];
    Seal(outmsg, POS_CMD_DED_LEN);
    assert outmsg[..12][..11] == outmsg[..11] == header;
    if IsMessage(inmsg[..12], CMD_DED, seqNo, money) {
      SameHeader(inmsg[..12], outmsg[..12], CMD_DED, CMD_CANCEL, seqNo, money);
    }
    len := POS_CMD_DED_LEN;
  }

  /** The report on a request, as both tasks build it. */
  method MakeReport(ok: bool) returns (outresp: array<byte>)
    ensures fresh(outresp) && outresp.Length == 8 && IsReport(outresp[..6], ok)
  {
    outresp := new byte[8](_ => 0);
    outresp[0], outresp[1], outresp[2], outresp[3], outresp[4] := STX, 67, 87, if ok then 48 else 49, ETX;
    assert outresp[..5] == [STX, 67, 87, if ok then 48 else 49, ETX];
    Seal(outresp, 6);
    assert outresp[..6][..5] == outresp[..5];
  }

  class Tasks {
    var pdEnd: bool
    var VTS_MAIL_FLAG: bool
    var NO_WAIT: bool
    var VTS_BALANCE: nat
    var vtsMailbox: bool
    var posMailbox: bool
    var timeout: nat
    var nextSeq: nat
    var curSeq: nat
    var repeatCount: nat
    var stRetCode: byte
    const sendmsg: array<byte>
    const cancelmsg: array<byte>
    var len: nat
    var posLine: seq<seq<byte>>
    var vtsLine: seq<seq<byte>>
    ghost var money: nat
    ghost var log: seq<Act>

    ghost predicate Shape()
      reads this`nextSeq, this`VTS_BALANCE
    {
      && sendmsg != cancelmsg && sendmsg.Length == 13 && cancelmsg.Length == 13
      && nextSeq < 0x1_0000 && VTS_BALANCE < 0x1_0000_0000
    }

    /** The send buffer keeps the last deduction. */
    ghost predicate Keeps()
      reads this`len, this`curSeq, this`money, sendmsg
    {
      len == 12 && sendmsg.Length == 13 ==> IsMessage(sendmsg[..12], CMD_DED, curSeq, money)
    }

    ghost predicate Valid()
      reads this`nextSeq, this`VTS_BALANCE, this`VTS_MAIL_FLAG, this`len, this`curSeq, this`money, sendmsg
    {
      Shape() && (VTS_MAIL_FLAG ==> len == 12) && Keeps()
    }

    /** What went out on a line is the messages of the acts in the log, each once and in order. */
    ghost predicate Carries(side: Side)
      reads this`posLine, this`vtsLine, this`log
    {
      ShowsAll(if side.Reader? then posLine else vtsLine, Told(side, log))
    }

    ghost predicate Lines()
      reads this`posLine, this`vtsLine, this`log
    {
      forall side :: Carries(side)
    }

    ghost function Abs(): State
      reads this
    {
      State(pdEnd, VTS_MAIL_FLAG, NO_WAIT, VTS_BALANCE, vtsMailbox, posMailbox, timeout, nextSeq, curSeq, money,
            repeatCount, stRetCode, log)
    }

    constructor ()
      ensures Valid() && Lines() && Abs() == START && fresh(sendmsg) && fresh(cancelmsg)
    {
      pdEnd, VTS_MAIL_FLAG, NO_WAIT, VTS_BALANCE, vtsMailbox, posMailbox := false, false, false, 0, false, false;
      timeout, nextSeq, curSeq, repeatCount, stRetCode, len := 0, 0, 0, 1, 0, 0;
      sendmsg := new byte[13](_ => 0);
      cancelmsg := new byte[13](_ => 0);
      posLine, vtsLine := [], [];
      money, log := 0, [];
    }

    /** An act that sends nothing. */
    ghost method Note(a: Act)
      requires Lines() && !Tells(Reader, a) && !Tells(Machine, a)
      modifies this`log
      ensures Lines() && log == old(log) + [a]
    {
      assert Carries(Reader) && Carries(Machine);
      ToldAppend(Reader, log, a);
      ToldAppend(Machine, log, a);
      log := log + [a];
    }

    /** `pos_uart_send_string` */
    method SendToReader(msg: array<byte>, ghost a: Act)
      requires Lines() && msg.Length == 13 && Tells(Reader, a) && Shows(msg[..12], a)
      modifies this`posLine, this`log
      ensures Lines() && log == old(log) + [a] && posLine == old(posLine) + [msg[..12]]
    {
      assert Carries(Reader) && Carries(Machine);
      ToldAppend(Reader, log, a);
      ToldAppend(Machine, log, a);
      log := log + [a];
      posLine := posLine + [msg[..12]];
    }

    /** `vts_uart_send_string` */
    method SendToMachine(outresp: array<byte>, ghost a: Act)
      requires Lines() && outresp.Length == 8 && Tells(Machine, a) && Shows(outresp[..6], a)
      modifies this`vtsLine, this`log
      ensures Lines() && log == old(log) + [a] && vtsLine == old(vtsLine) + [outresp[..6]]
    {
      assert Carries(Reader) && Carries(Machine);
      ToldAppend(Reader, log, a);
      ToldAppend(Machine, log, a);
      log := log + [a];
      vtsLine := vtsLine + [outresp[..6]];
    }

    method Report(ok: bool, ghost a: Act)
      requires Lines() && Tells(Machine, a) && ok == a.CwOk?
      modifies this`vtsLine, this`log
      ensures Lines() && log == old(log) + [a] && |vtsLine| == |old(vtsLine)| + 1
      ensures old(vtsLine) <= vtsLine && IsReport(vtsLine[|vtsLine| - 1], ok)
    {
      var outresp := MakeReport(ok);
      SendToMachine(outresp, a);
    }

    /** First half of `vts_recv_task`. What it reports goes out on the line to the vending machine, and
        nothing on the other. */
    method WaitForPos()
      requires Valid() && Lines()
      modifies this`VTS_MAIL_FLAG, this`NO_WAIT, this`VTS_BALANCE, this`posMailbox, this`timeout, this`log, this`vtsLine
      ensures Valid() && Lines() && Abs() == Poll(old(Abs()))
    {
      if !NO_WAIT && VTS_MAIL_FLAG {
        var due := timeout < VTS_TT_COUNT;
        timeout := (timeout + 1) % 256;
        if due {
          if posMailbox {
            Succeed();
          } else if timeout >= VTS_TT_COUNT - 1 {
            GiveUp();
          } else {
            Note(Polled);
          }
        }
      }
    }

    method Succeed()
      requires Lines()
      modifies this`VTS_MAIL_FLAG, this`posMailbox, this`timeout, this`log, this`vtsLine
      ensures Lines() && log == old(log) + [CwOk] && !posMailbox && !VTS_MAIL_FLAG && timeout == 0
    {
      Report(true, CwOk);
      posMailbox, VTS_MAIL_FLAG, timeout := false, false, 0;
    }

    method GiveUp()
      requires Lines()
      modifies this`VTS_MAIL_FLAG, this`NO_WAIT, this`VTS_BALANCE, this`timeout, this`log, this`vtsLine
      ensures Lines() && log == old(log) + [CwTimeout] && !VTS_MAIL_FLAG && NO_WAIT && VTS_BALANCE == timeout == 0
    {
      Report(false, CwTimeout);
      VTS_MAIL_FLAG, VTS_BALANCE, NO_WAIT, timeout := false, 0, true, 0;
    }

    /** `handle_fj_pro`, as far as the payment goes. A refused request is reported at once, and nothing
        else goes out. */
    method HandleCommand(c: Command)
      requires Valid() && Lines()
      modifies this`pdEnd, this`VTS_BALANCE, this`vtsMailbox, this`NO_WAIT, this`log, this`vtsLine
      ensures Valid() && Lines() && Abs() == Handle(old(Abs()), c)
    {
      match c
      case Pd => pdEnd := true;
      case Other =>
      case Cw(amount) =>
        if pdEnd {
          VTS_BALANCE := amount;
          if vtsMailbox {
            Report(false, Refused(amount));
          } else {
            vtsMailbox := true;
            NO_WAIT := false;
            Note(Asked(amount));
          }
        }
    }

    /** First third of `pos_recv_task`. Deductions and cancellations go out on the line to the reader. */
    method TakeRequest()
      requires Valid() && Lines()
      modifies this, sendmsg, cancelmsg
      ensures Valid() && Lines() && Abs() == Request(old(Abs())) && vtsLine == old(vtsLine)
    {
      if vtsMailbox {
        if VTS_BALANCE == 0 {
          Cancel();
        } else if VTS_MAIL_FLAG {
          vtsMailbox := false;
          Note(Ignored);
        } else {
          Deduct();
        }
      } else {
        repeatCount := (repeatCount + 1) % 256;
      }
    }

    /** The branch for a request for nothing. */
    method Cancel()
      requires Valid() && Lines()
      modifies this`vtsMailbox, this`VTS_MAIL_FLAG, this`repeatCount, this`stRetCode, this`log, this`posLine, cancelmsg
      ensures Valid() && Lines() && !vtsMailbox && !VTS_MAIL_FLAG && repeatCount == 1 && stRetCode == 0
      ensures log == old(log) + [if old(VTS_MAIL_FLAG) then Cancelled(curSeq, money) else Ignored]
    {
      if VTS_MAIL_FLAG {
        SendCancel();
        VTS_MAIL_FLAG := false;
      } else {
        Note(Ignored);
      }
      vtsMailbox, repeatCount, stRetCode := false, 1, 0;
    }

    method SendCancel()
      requires Valid() && Lines() && VTS_MAIL_FLAG
      modifies this`log, this`posLine, cancelmsg
      ensures Lines() && log == old(log) + [Cancelled(curSeq, money)]
    {
      var clen := PackageCancel(sendmsg, cancelmsg, curSeq, money);
      if clen > 0 {
        SendToReader(cancelmsg, Cancelled(curSeq, money));
      }
    }

    /** The branch that starts a new deduction. */
    method Deduct()
      requires Shape() && Lines() && vtsMailbox && VTS_BALANCE != 0 && !VTS_MAIL_FLAG
      modifies this, sendmsg
      ensures Valid() && Lines() && Abs() == Request(old(Abs())) && vtsLine == old(vtsLine)
    {
      NewMessage();
      vtsMailbox, repeatCount, stRetCode := false, 1, 0;
    }

    method NewMessage()
      requires Shape() && Lines()
      modifies this`VTS_BALANCE, this`curSeq, this`nextSeq, this`money, this`len, this`VTS_MAIL_FLAG, this`log,
        this`posLine, sendmsg
      ensures Valid() && Lines() && VTS_MAIL_FLAG && VTS_BALANCE == Fen(old(VTS_BALANCE)) == money
      ensures curSeq == old(nextSeq) && nextSeq == (curSeq + 1) % 0x1_0000
      ensures log == old(log) + [Deducted(curSeq, money)]
    {
      VTS_BALANCE := Fen(VTS_BALANCE);
      curSeq, money := nextSeq, VTS_BALANCE;
      PackageDeduct(nextSeq, VTS_BALANCE, sendmsg);
      nextSeq := (nextSeq + 1) % 0x1_0000;
      len := POS_CMD_DED_LEN;
      SendToReader(sendmsg, Deducted(curSeq, money));
      VTS_MAIL_FLAG := true;
    }

    /** The sequence check, byte by byte, and the format check. */
    method IsForUs(buffer: seq<byte>, size: nat) returns (ok: bool)
      requires Shape() && |buffer| == 128 && size < 128
      ensures ok == (HasSeq(buffer, curSeq) && ValidRet(buffer, size))
    {
      if curSeq / 256 != buffer[1] || curSeq % 256 != buffer[2] {
        return false;
      }
      ok := IsValidPosRet(buffer, size);
    }

    /** Second third of `pos_recv_task`. */
    method TakeReply(reply: Option<Reply>)
      requires Valid() && Lines() && (reply.Some? ==> ReplyOk(reply.value))
      modifies this`stRetCode, this`posMailbox, this`log
      ensures Valid() && Lines() && Abs() == Receive(old(Abs()), reply)
    {
      if reply.Some? {
        var r := reply.value;
        var ok := IsForUs(reply.value.buffer, reply.value.size);
        if ok {
          AcceptCode(reply.value.code);
        }
      }
    }

    method AcceptCode(code: byte)
      requires Valid() && Lines()
      modifies this`stRetCode, this`posMailbox, this`log
      ensures Valid() && Lines() && Abs() == Accept(old(Abs()), code)
    {
      stRetCode := code;
      if code == POS_SUCCESS && VTS_MAIL_FLAG && !posMailbox {
        posMailbox := true;
        Note(Accepted(curSeq));
      }
    }

    /** Last third of `pos_recv_task`. A repetition sends the message of the deduction that runs, byte
        for byte. */
    method RepeatRequest()
      requires Valid() && Lines()
      modifies this`stRetCode, this`log, this`posLine
      ensures Valid() && Lines() && Abs() == Repeat(old(Abs()))
      ensures posLine == old(posLine) || (IsMessage(sendmsg[..12], CMD_DED, curSeq, money) && posLine == old(posLine) + [sendmsg[..12]])
    {
      if stRetCode == NO_CARD && VTS_MAIL_FLAG && repeatCount < 170 && repeatCount % 40 == 0 {
        SendToReader(sendmsg, Repeated(curSeq, money));
      }
      if repeatCount > 175 {
        stRetCode := 0;
      }
    }

    method Pass(e: Event)
      requires Valid() && Lines() && EventOk(e)
      modifies this, sendmsg, cancelmsg
      ensures Valid() && Lines() && Abs() == Step(old(Abs()), e)
    {
      match e
      case Vts(c) =>
        WaitForPos();
        HandleCommand(c);
      case Pos(r) =>
        TakeRequest();
        TakeReply(r);
        RepeatRequest();
    }
  }

  /** The scheduler lets the tasks pass in any order. Over any run they take the steps of Payment, with
      its invariant; the line to the reader carries exactly the deductions, their repetitions and the
      cancellations, and the line to the vending machine exactly the reports and refusals. */
  method RunTasks(events: seq<Event>) returns (t: Tasks)
    requires AllOk(events)
    ensures t.Valid() && t.Lines() && t.Abs() == Run(START, events) && Between(t.Abs())
  {
    t := new Tasks();
    var i := 0;
    assert events[..0] == [];
    while i < |events|
      invariant 0 <= i <= |events| && t.Valid() && t.Lines() && t.Abs() == Run(START, events[..i])
      invariant fresh(t) && fresh(t.sendmsg) && fresh(t.cancelmsg)
    {
      assert events[..i + 1][..i] == events[..i];
      t.Pass(events[i]);
      i := i + 1;
    }
    assert events[..i] == events;
    RunKeeps(events);
  }
}
