/**
 The payment of a vending machine (VTS) through a card reader (POS):
 pos-salemachine/user_app-forUcos-saleOK/app/MFUN.C. Two tasks share a flag, two one-slot
 mailboxes and a sequence number; one pass of a task's loop is one step here. What the serial
 lines bring is an event. This module says what the tasks do and proves the invariant of all runs;
 PaymentSafety says what it means, PaymentPace what it needs of the vending machine and the
 scheduler, PaymentFailures what happens without. PaymentTasks ties the C code to these steps.
 */
module Payment {
  import opened Bits
  import opened Bytes
  import opened Wrappers

  const NO_CARD: byte := 4
  const POS_SUCCESS: byte := 0
  const CRC_FAIL: byte := 1
  const DEAL_WAIT: byte := 6
  const DEAL_TIMEOUT: byte := 0x43
  const UNSUPPORT: byte := 0xF0
  const PRO_START: byte := 0x5A
  const POS_OK_RET_LEN := 34
  const POS_DEAL_WAIT_LEN := 10
  const POS_NORMAL_LEN := 9
  const POS_MIN_RET_LEN := 8
  const POS_MAX_RET_LEN := 34
  const VTS_TT_COUNT: nat := 9

  /** Three decimal digit pairs of which one digit each is read. */
  type Amount = x: nat | x <= 90909

  // ---- checksum of the POS protocol ----

  function Xor(m: seq<byte>): byte {
    if m == [] then 0 else XorByte(Xor(m[..|m| - 1]), m[|m| - 1])
  }

  /** `is_valid_posret_msg` on a receive buffer and the length received. */
  predicate ValidRet(msg: seq<byte>, len: nat)
    requires len <= |msg|
  {
    POS_MIN_RET_LEN <= len <= POS_MAX_RET_LEN && msg[0] == PRO_START && Xor(msg[1..len - 1]) == msg[len - 1]
  }

  lemma {:induction false} XorChanges(m: seq<byte>, k: nat, v: byte)
    requires k < |m| && v != m[k]
    ensures Xor(m[k := v]) != Xor(m)
  {
    var n := |m| - 1;
    if k == n {
      assert m[k := v][..n] == m[..n];
      XorByteCancels(Xor(m[..n]), v, m[k]);
    } else {
      XorChanges(m[..n], k, v);
      assert m[k := v][..n] == m[..n][k := v];
      XorByteCancels(m[n], Xor(m[..n][k := v]), Xor(m[..n]));
    }
  }

  /** One corrupted byte after the start byte is always noticed. */
  lemma OneCorruptedByteIsRejected(msg: seq<byte>, len: nat, k: nat, v: byte)
    requires len <= |msg| && ValidRet(msg, len) && 1 <= k < len && v != msg[k]
    ensures !ValidRet(msg[k := v], len)
  {
    var bad := msg[k := v];
    if k == len - 1 {
      assert bad[1..len - 1] == msg[1..len - 1];
    } else {
      XorChanges(msg[1..len - 1], k - 1, v);
      assert bad[1..len - 1] == msg[1..len - 1][k - 1 := v];
    }
  }

  /** Does a message carry this sequence number, high byte first? */
  predicate HasSeq(msg: seq<byte>, s: nat)
    requires |msg| >= 3
  {
    BigEndian(0, 0, msg[1], msg[2]) == s
  }

  // ---- the two tasks ----

  /** A finished receive buffer of the POS line, its length and the return code found in it. */
  datatype Reply = Reply(buffer: seq<byte>, size: nat, code: byte)

  /** How long a reply is whose payload has this length and which begins with this return code, by
      the receive interrupt. */
  function EndLen(payload: nat, ret: byte): nat {
    if payload >= 26 && ret == POS_SUCCESS then POS_OK_RET_LEN
    else if payload == 2 && ret == DEAL_WAIT then POS_DEAL_WAIT_LEN
    else if payload == 1 && CRC_FAIL <= ret <= DEAL_TIMEOUT then POS_NORMAL_LEN
    else POS_MIN_RET_LEN
  }

  /** The code it reports. */
  function CodeOf(payload: nat, ret: byte): byte {
    if payload >= 26 && ret == POS_SUCCESS then POS_SUCCESS
    else if payload == 2 && ret == DEAL_WAIT then DEAL_WAIT
    else if payload == 1 && CRC_FAIL <= ret <= DEAL_TIMEOUT then ret
    else UNSUPPORT
  }

  /** The payload length in a reply. */
  function PayLen(m: seq<byte>): nat
    requires |m| >= POS_MIN_RET_LEN
  {
    BigEndian(0, 0, m[5], m[6])
  }

  /** What the receive interrupt can hand over; PosReceiver proves that it hands over nothing else. */
  predicate ReplyOk(r: Reply) {
    && |r.buffer| == 128 && r.buffer[0] == PRO_START
    && r.size == EndLen(PayLen(r.buffer), r.buffer[7]) && r.code == CodeOf(PayLen(r.buffer), r.buffer[7])
  }

  /** A command of the vending machine: PD (initialise), CW (charge) with ten bytes, or any other,
      which leaves the state of the payment alone. */
  datatype Command = Pd | Cw(amount: Amount) | Other

  datatype Event = Vts(command: Command) | Pos(reply: Option<Reply>)

  /** What becomes of requests, what is sent to the reader, the replies accepted, and the polls and
      reports on the side of the vending machine. */
  datatype Act =
    | Asked(amount: Amount)     // a request is put in the mailbox
    | Refused(amount: Amount)   // a request finds the mailbox full
    | Ignored                   // a request is taken and leads to nothing
    | Deducted(seqNo: nat, money: nat)
    | Repeated(seqNo: nat, money: nat)
    | Cancelled(seqNo: nat, money: nat)
    | Accepted(seqNo: nat)
    | Polled
    | CwOk
    | CwTimeout

  datatype State = State(
    pdEnd: bool,
    flag: bool,
    noWait: bool,
    balance: nat,
    vtsMail: bool,
    posMail: bool,
    timeout: nat,
    nextSeq: nat,
    curSeq: nat,
    money: nat,
    repeatCount: nat,
    stRetCode: byte,
    log: seq<Act>)

  const START: State := State(false, false, false, 0, false, false, 0, 0, 0, 0, 1, 0, [])

  /** First half of `vts_recv_task`: one wait of a second for the result, while one is due. */
  function Poll(s: State): State {
    if !s.noWait && s.flag then
      if s.timeout >= VTS_TT_COUNT then
        s.(timeout := (s.timeout + 1) % 256)
      else if s.posMail then
        s.(posMail := false, flag := false, timeout := 0, log := s.log + [CwOk])
      else if s.timeout + 1 >= VTS_TT_COUNT - 1 then
        s.(flag := false, balance := 0, noWait := true, timeout := 0, log := s.log + [CwTimeout])
      else
        s.(timeout := s.timeout + 1, log := s.log + [Polled])
    else s
  }

  /** `handle_fj_pro`. The mailbox holds a pointer to the balance, not a copy. */
  function Handle(s: State, c: Command): State {
    match c
    case Pd => s.(pdEnd := true)
    case Cw(amount) =>
      if !s.pdEnd then s
      else if s.vtsMail then s.(balance := amount, log := s.log + [Refused(amount)])
      else s.(balance := amount, vtsMail := true, noWait := false, log := s.log + [Asked(amount)])
    case Other => s
  }

  function VtsStep(s: State, c: Command): State {
    Handle(Poll(s), c)
  }

  /** Tenths of a yuan to hundredths, in 32 bits. */
  function Fen(mao: nat): nat {
    mao * 10 % 0x1_0000_0000
  }

  /** First third of `pos_recv_task`: a request of the vending machine. */
  function Request(s: State): State {
    if !s.vtsMail then s.(repeatCount := (s.repeatCount + 1) % 256)
    else if s.balance == 0 then
      if s.flag then
        s.(vtsMail := false, repeatCount := 1, stRetCode := 0, flag := false,
           log := s.log + [Cancelled(s.curSeq, s.money)])
      else s.(vtsMail := false, repeatCount := 1, stRetCode := 0, log := s.log + [Ignored])
    else if s.flag then s.(vtsMail := false, log := s.log + [Ignored])
    else
      var money := Fen(s.balance);
      s.(vtsMail := false, balance := money, money := money, curSeq := s.nextSeq, nextSeq := (s.nextSeq + 1) % 0x1_0000,
         flag := true, repeatCount := 1, stRetCode := 0, log := s.log + [Deducted(s.nextSeq, money)])
  }

  /** The return code of a sound reply with the right number. */
  function Accept(s: State, code: byte): State {
    if code == POS_SUCCESS && s.flag && !s.posMail then
      s.(stRetCode := code, posMail := true, log := s.log + [Accepted(s.curSeq)])
    else s.(stRetCode := code)
  }

  /** Second third: a reply of the card reader. */
  function Receive(s: State, reply: Option<Reply>): State
    requires reply.Some? ==> ReplyOk(reply.value)
  {
    if reply.None? then s
    else
      var r := reply.value;
      if HasSeq(r.buffer, s.curSeq) && ValidRet(r.buffer, r.size) then Accept(s, r.code) else s
  }

  /** Last third: the request is repeated now and then while the reader misses the card. */
  function Repeat(s: State): State {
    var t :=
      if s.stRetCode == NO_CARD && s.flag && s.repeatCount < 170 && s.repeatCount % 40 == 0 then
        s.(log := s.log + [Repeated(s.curSeq, s.money)])
      else s;
    if s.repeatCount > 175 then t.(stRetCode := 0) else t
  }

  function PosStep(s: State, reply: Option<Reply>): State
    requires reply.Some? ==> ReplyOk(reply.value)
  {
    Repeat(Receive(Request(s), reply))
  }

  predicate EventOk(e: Event) {
    e.Pos? && e.reply.Some? ==> ReplyOk(e.reply.value)
  }

  predicate AllOk(events: seq<Event>) {
    forall k :: 0 <= k < |events| ==> EventOk(events[k])
  }

  function Step(s: State, e: Event): State
    requires EventOk(e)
  {
    match e
    case Vts(c) => VtsStep(s, c)
    case Pos(r) => PosStep(s, r)
  }

  /** The two tasks take turns in any order. */
  function Run(s: State, events: seq<Event>): State
    requires AllOk(events)
  {
    if events == [] then s else Step(Run(s, events[..|events| - 1]), events[|events| - 1])
  }

  // ---- what a log says ----

  /** How the payment stands. It is idle, a deduction waits for the reader, or its reply is stored;
      after a cancellation a stored reply may be left behind, and be there still when the next
      deduction runs. */
  datatype Phase =
    | Idle
    | Waiting(seqNo: nat, money: nat)
    | Paid(seqNo: nat, money: nat)
    | Left
    | Stale(seqNo: nat, money: nat)
  {
    predicate Running() {
      Waiting? || Paid? || Stale?
    }

    predicate Runs(s: nat, m: nat) {
      Running() && seqNo == s && money == m
    }

    predicate Stored() {
      Paid? || Left? || Stale?
    }
  }

  function Next(p: Phase, a: Act): Phase {
    match a
    case Deducted(s, m) => if p.Left? then Stale(s, m) else Waiting(s, m)
    case Accepted(_) => if p.Waiting? then Paid(p.seqNo, p.money) else p
    case Cancelled(_, _) => if p.Stored() then Left else Idle
    case CwOk => Idle
    case CwTimeout => Idle
    case _ => p
  }

  /** The number of the n-th deduction. */
  function SeqAt(n: nat): nat {
    n % 0x1_0000
  }

  /** What a log comes to: the phase; the polls since the last report; whether a request is in the
      mailbox and what the variable it points to holds; whether nobody waits, since the latest of
      reports of failure and accepted requests was a report; whether that was so when the latest
      reply was accepted; whether the latest accepted request has no report yet; and how often each
      thing happened. */
  datatype Summary = Summary(phase: Phase, polls: nat, mail: bool, due: nat, noWait: bool, alone: bool, asking: bool,
                             asked: nat, ignored: nat, deducted: nat, cancelled: nat, accepted: nat, oks: nat,
                             timeouts: nat)

  const NOTHING: Summary := Summary(Idle, 0, false, 0, false, false, false, 0, 0, 0, 0, 0, 0, 0)

  function Note(h: Summary, a: Act): Summary {
    var p := h.(phase := Next(h.phase, a));
    match a
    case Asked(amount) => p.(mail := true, due := amount, noWait := false, asking := true, asked := h.asked + 1)
    case Refused(amount) => p.(due := amount)
    case Ignored => p.(mail := false, ignored := h.ignored + 1)
    case Deducted(_, _) => p.(mail := false, deducted := h.deducted + 1)
    case Repeated(_, _) => p
    case Cancelled(_, _) => p.(mail := false, cancelled := h.cancelled + 1)
    case Accepted(_) => p.(alone := h.noWait, accepted := h.accepted + 1)
    case Polled => p.(polls := h.polls + 1)
    case CwOk => p.(polls := 0, asking := false, oks := h.oks + 1)
    case CwTimeout => p.(polls := 0, due := 0, noWait := true, asking := false, timeouts := h.timeouts + 1)
  }

  function Sum(log: seq<Act>): Summary {
    if log == [] then NOTHING else Note(Sum(log[..|log| - 1]), log[|log| - 1])
  }

  /** The acts that are right after what `h` says. A request is accepted by an empty mailbox and
      taken from a full one. What is deducted has the next number and ten times what is due. A reply
      is accepted once, for the number that runs. A report of success needs a stored reply, one of
      failure eight polls in vain, and both that somebody waits. A stored reply can be left behind
      only if nobody waited when it came. */
  predicate Right(h: Summary, a: Act) {
    match a
    case Asked(_) => !h.mail
    case Refused(_) => h.mail
    case Ignored => h.mail && (h.phase.Running() <==> h.due != 0)
    case Deducted(s, m) =>
      h.mail && h.due != 0 && !h.phase.Running() && s == SeqAt(h.deducted) && m == Fen(h.due)
    case Repeated(s, m) => h.phase.Runs(s, m)
    case Cancelled(s, m) => h.mail && h.due == 0 && h.phase.Runs(s, m) && (h.phase.Stored() ==> h.alone)
    case Accepted(s) => h.phase.Waiting? && h.phase.seqNo == s
    case Polled => h.phase.Waiting? && !h.noWait && h.polls < 7
    case CwOk => (h.phase.Paid? || h.phase.Stale?) && !h.noWait
    case CwTimeout => h.phase.Waiting? && !h.noWait && h.polls == 7
  }

  predicate Sound(log: seq<Act>) {
    log == [] || (Sound(log[..|log| - 1]) && Right(Sum(log[..|log| - 1]), log[|log| - 1]))
  }

  lemma Append(log: seq<Act>, a: Act)
    ensures Sum(log + [a]) == Note(Sum(log), a)
    ensures Sound(log + [a]) <==> Sound(log) && Right(Sum(log), a)
  {
    assert (log + [a])[..|log|] == log;
  }

  // ---- the invariant ----

  /** The variables say how the payment stands. */
  predicate Agrees(s: State, h: Summary) {
    && s.flag == h.phase.Running() && s.posMail == h.phase.Stored()
    && (s.flag ==> h.phase.Runs(s.curSeq, s.money))
    && s.timeout == h.polls < 8
    && s.vtsMail == h.mail && s.noWait == h.noWait
    && h.due <= 90909 && (s.vtsMail ==> s.balance == h.due)
    && s.nextSeq == SeqAt(h.deducted)
    && ((h.phase.Left? || h.phase.Stale?) ==> h.alone)
  }

  predicate Inv(s: State) {
    Sound(s.log) && Agrees(s, Sum(s.log))
  }

  /** A reply that nobody came for is there only if nobody waited when it was accepted. */
  predicate Fetched(s: State) {
    s.posMail ==> Sum(s.log).alone
  }

  /** Between two passes a reply may just have come. */
  predicate Between(s: State) {
    Inv(s) && (s.posMail && (s.vtsMail || s.noWait) ==> Sum(s.log).alone)
  }

  lemma PollKeeps(s: State)
    requires Between(s)
    ensures Inv(Poll(s)) && Fetched(Poll(s))
  {
    if !s.noWait && s.flag {
      Append(s.log, if s.posMail then CwOk else if s.timeout + 1 >= VTS_TT_COUNT - 1 then CwTimeout else Polled);
    }
  }

  lemma HandleKeeps(s: State, c: Command)
    requires Inv(s) && Fetched(s)
    ensures Inv(Handle(s, c)) && Fetched(Handle(s, c))
  {
    if c.Cw? && s.pdEnd {
      Append(s.log, if s.vtsMail then Refused(c.amount) else Asked(c.amount));
    }
  }

  /** The act of taking a request. */
  function Taking(s: State): Act {
    if s.flag == (s.balance != 0) then Ignored
    else if s.flag then Cancelled(s.curSeq, s.money)
    else Deducted(s.nextSeq, Fen(s.balance))
  }

  lemma TakingIsRight(s: State, h: Summary)
    requires Agrees(s, h) && s.vtsMail && (s.posMail ==> h.alone)
    ensures Right(h, Taking(s)) && Agrees(Request(s), Note(h, Taking(s)))
  {
  }

  lemma RequestKeeps(s: State)
    requires Between(s)
    ensures Between(Request(s)) && !Request(s).vtsMail
  {
    if s.vtsMail {
      TakingIsRight(s, Sum(s.log));
      Append(s.log, Taking(s));
      assert Request(s).log == s.log + [Taking(s)];
    }
  }

  lemma ReceiveKeeps(s: State, reply: Option<Reply>)
    requires Between(s) && !s.vtsMail && (reply.Some? ==> ReplyOk(reply.value))
    ensures Between(Receive(s, reply))
  {
    if s.flag && !s.posMail {
      Append(s.log, Accepted(s.curSeq));
    }
  }

  lemma RepeatKeeps(s: State)
    requires Between(s)
    ensures Between(Repeat(s))
  {
    if s.flag {
      Append(s.log, Repeated(s.curSeq, s.money));
    }
  }

  lemma StepKeeps(s: State, e: Event)
    requires Between(s) && EventOk(e)
    ensures Between(Step(s, e))
  {
    match e
    case Vts(c) =>
      PollKeeps(s);
      HandleKeeps(Poll(s), c);
    case Pos(r) =>
      RequestKeeps(s);
      ReceiveKeeps(Request(s), r);
      RepeatKeeps(Receive(Request(s), r));
  }

  /** One event less. */
  lemma Before(events: seq<Event>)
    requires AllOk(events) && events != []
    ensures AllOk(events[..|events| - 1]) && EventOk(events[|events| - 1])
    ensures Run(START, events) == Step(Run(START, events[..|events| - 1]), events[|events| - 1])
  {
    assert forall k :: 0 <= k < |events| - 1 ==> events[..|events| - 1][k] == events[k];
  }

  /** Every run of the two tasks, in any interleaving and with any commands and replies, does only
      what is right, and its variables say how things stand. */
  lemma {:induction false} RunKeeps(events: seq<Event>)
    requires AllOk(events)
    ensures Between(Run(START, events))
  {
    if events != [] {
      Before(events);
      RunKeeps(events[..|events| - 1]);
      StepKeeps(Run(START, events[..|events| - 1]), events[|events| - 1]);
    }
  }
}
