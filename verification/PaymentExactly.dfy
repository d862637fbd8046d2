/**
 What the two tasks of Payment do in every pass, said by the log so far, the commands and the bytes of
 the replies: each pass appends these acts, and no others.
 */
module PaymentExactly {
  import opened Bytes
  import opened Wrappers
  import opened Payment
  import opened PaymentPace
  import opened PaymentReplies
  import opened PaymentSafety

  lemma EventHandedOver(e: Event)
    ensures EventOk(e) <==> (e.Pos? && e.reply.Some? ==> HandedOver(e.reply.value))
  {
    if e.Pos? && e.reply.Some? {
      HandedOverExactly(e.reply.value);
    }
  }

  // ---- a pass of the loop of the vending machine ----

  /** Is a payment running, and if so, is its reply stored? */
  predicate IsRunning(p: Phase) {
    p.Waiting? || p.Paid? || p.Stale?
  }

  predicate IsStored(p: Phase) {
    p.Paid? || p.Left? || p.Stale?
  }

  /** While somebody waits for a running payment: success if a reply is stored, failure in the eighth
      pass without, else one poll more. */
  function Polls(h: Summary): seq<Act> {
    if h.noWait || !IsRunning(h.phase) then []
    else if IsStored(h.phase) then [CwOk]
    else if h.polls == 7 then [CwTimeout]
    else [Polled]
  }

  /** A charge of an initialised machine is accepted if the mailbox is empty. */
  function Handles(h: Summary, c: Command, ready: bool): seq<Act> {
    if !c.Cw? || !ready then [] else if h.mail then [Refused(c.amount)] else [Asked(c.amount)]
  }

  predicate Ready(events: seq<Event>) {
    exists k :: 0 <= k < |events| && events[k] == Vts(Pd)
  }

  // ---- a pass of the loop of the reader ----

  /** A request is taken from the mailbox. What it points to is deducted, in hundredths, unless a payment
      runs or it points to nothing; a request for nothing cancels the payment that runs. */
  function Taken(h: Summary): seq<Act> {
    if !h.mail then []
    else if IsRunning(h.phase) then
      if h.due == 0 then [Cancelled(h.phase.seqNo, h.phase.money)] else [Ignored]
    else if h.due == 0 then [Ignored]
    else [Deducted(h.deducted % 0x1_0000, h.due * 10)]
  }

  /** A reply is accepted if a payment waits for it and it confirms its number. */
  function Accepts(h: Summary, reply: Option<Reply>): seq<Act>
    requires reply.Some? ==> HandedOver(reply.value)
  {
    if reply.Some? && h.phase.Waiting? && Confirms(reply.value, h.phase.seqNo) then [Accepted(h.phase.seqNo)] else []
  }

  /** The passes of the reader's loop since the last request that was deducted, cancelled something or was
      for nothing; and whether the card has been missed since. */
  datatype Watch = Watch(passes: nat, missed: bool)

  /** The number of the latest deduction, or 0. */
  function LatestNumber(h: Summary): nat {
    if h.deducted == 0 then 0 else (h.deducted - 1) % 0x1_0000
  }

  function Begun(w: Watch, h: Summary): Watch {
    if !h.mail then w.(passes := w.passes + 1)
    else if h.due != 0 && IsRunning(h.phase) then w
    else Watch(1, false)
  }

  /** `h` is what the log comes to when the request has been taken. */
  function Heeds(w: Watch, h: Summary, reply: Option<Reply>): Watch
    requires reply.Some? ==> HandedOver(reply.value)
  {
    if reply.Some? && Answering(reply.value, LatestNumber(h)) then w.(missed := Misses(reply.value, LatestNumber(h))) else w
  }

  /** The watch of a pass, up to where the request may be repeated. */
  function InPass(events: seq<Event>, reply: Option<Reply>): Watch
    requires AllOk(events) && (reply.Some? ==> HandedOver(reply.value))
    decreases |events|, 1
  {
    var h := Sum(LogOf(events));
    Heeds(Begun(Watched(events), h), Sum(LogOf(events) + Taken(h)), reply)
  }

  /** The watch over a run. After 175 passes what the reader said is forgotten. */
  function Watched(events: seq<Event>): Watch
    requires AllOk(events)
    decreases |events|, 0
  {
    if events == [] then Watch(1, false)
    else
      var n := |events| - 1;
      Before(events);
      match events[n]
      case Vts(_) => Watched(events[..n])
      case Pos(reply) =>
        EventHandedOver(events[n]);
        var w := InPass(events[..n], reply);
        if w.passes % 256 > 175 then w.(missed := false) else w
  }

  /** The request is repeated after 40, 80, 120 and 160 passes, in eight bits, if the card was missed. */
  function Repeats(h: Summary, w: Watch): seq<Act> {
    if IsRunning(h.phase) && w.missed && w.passes % 256 in {0, 40, 80, 120, 160} then
      [Repeated(h.phase.seqNo, h.phase.money)]
    else []
  }

  // ---- that is what they do ----

  lemma Appends(log: seq<Act>, acts: seq<Act>)
    requires |acts| <= 1
    ensures Sum(log + acts) == if acts == [] then Sum(log) else Note(Sum(log), acts[0])
  {
    if acts == [] {
      assert log + acts == log;
    } else {
      assert acts == [acts[0]];
      Append(log, acts[0]);
    }
  }

  lemma PollsExactly(s: State)
    requires Between(s)
    ensures Poll(s).log == s.log + Polls(Sum(s.log))
  {
  }

  lemma HandlesExactly(s: State, c: Command)
    requires Inv(s)
    ensures Handle(s, c).log == s.log + Handles(Sum(s.log), c, s.pdEnd)
  {
  }

  lemma TakenExactly(s: State)
    requires Between(s)
    ensures Request(s).log == s.log + Taken(Sum(s.log))
  {
  }

  lemma AcceptsExactly(s: State, reply: Option<Reply>)
    requires Between(s) && (reply.Some? ==> ReplyOk(reply.value)) && s.curSeq == LatestNumber(Sum(s.log))
    ensures reply.Some? ==> HandedOver(reply.value)
    ensures Receive(s, reply).log == s.log + Accepts(Sum(s.log), reply)
  {
    if reply.Some? {
      AnsweringExactly(reply.value, s.curSeq);
    }
  }

  /** The number in use is that of the latest deduction. */
  predicate Numbered(s: State) {
    s.curSeq == LatestNumber(Sum(s.log))
  }

  lemma NumberStays(log: seq<Act>, acts: seq<Act>)
    requires |acts| <= 1 && (acts != [] ==> !acts[0].Deducted?)
    ensures LatestNumber(Sum(log + acts)) == LatestNumber(Sum(log))
  {
    Appends(log, acts);
    if acts != [] {
      NotDeducted(Sum(log), acts[0]);
    }
  }

  lemma NotDeducted(h: Summary, a: Act)
    requires !a.Deducted?
    ensures Note(h, a).deducted == h.deducted
  {
  }

  lemma PollNumbered(s: State)
    requires Between(s) && Numbered(s)
    ensures Numbered(Poll(s))
  {
    PollsExactly(s);
    NumberStays(s.log, Polls(Sum(s.log)));
  }

  lemma HandleNumbered(s: State, c: Command)
    requires Inv(s) && Numbered(s)
    ensures Numbered(Handle(s, c))
  {
    HandlesExactly(s, c);
    NumberStays(s.log, Handles(Sum(s.log), c, s.pdEnd));
  }

  lemma RequestNumbered(s: State)
    requires Between(s) && Numbered(s)
    ensures Numbered(Request(s))
  {
    var acts := Taken(Sum(s.log));
    TakenExactly(s);
    Appends(s.log, acts);
    if acts != [] && acts[0].Deducted? {
      assert Request(s).curSeq == s.nextSeq == SeqAt(Sum(s.log).deducted);
    } else {
      NumberStays(s.log, acts);
    }
  }

  lemma ReceiveNumbered(s: State, reply: Option<Reply>)
    requires Between(s) && Numbered(s) && (reply.Some? ==> ReplyOk(reply.value))
    ensures Numbered(Receive(s, reply))
  {
    AcceptsExactly(s, reply);
    NumberStays(s.log, Accepts(Sum(s.log), reply));
  }

  lemma RepeatNumbered(s: State)
    requires Numbered(s)
    ensures Numbered(Repeat(s))
  {
    NumberStays(s.log, [Repeated(s.curSeq, s.money)]);
  }

  /** The counter of passes, in eight bits, and the return code kept say what the watch says. */
  predicate Watches(s: State, w: Watch) {
    s.repeatCount == w.passes % 256 && (s.stRetCode == 4 <==> w.missed)
  }

  lemma RequestWatches(s: State, w: Watch)
    requires Between(s) && Watches(s, w)
    ensures Watches(Request(s), Begun(w, Sum(s.log)))
  {
  }

  lemma ReplyWatches(s: State, reply: Option<Reply>, w: Watch)
    requires Numbered(s) && Watches(s, w) && (reply.Some? ==> ReplyOk(reply.value))
    ensures reply.Some? ==> HandedOver(reply.value)
    ensures Watches(Receive(s, reply), Heeds(w, Sum(s.log), reply))
  {
    if reply.Some? {
      AnsweringExactly(reply.value, s.curSeq);
    }
  }

  lemma RepeatWatches(s: State, w: Watch)
    requires Between(s) && Watches(s, w)
    ensures Repeat(s).log == s.log + Repeats(Sum(s.log), w)
    ensures Watches(Repeat(s), if w.passes % 256 > 175 then w.(missed := false) else w)
  {
    Multiples(s.repeatCount);
  }

  lemma Multiples(n: nat)
    requires n < 256
    ensures n < 170 && n % 40 == 0 <==> n in {0, 40, 80, 120, 160}
  {
  }

  /** The variables over a run. */
  predicate Kept(s: State, w: Watch, ready: bool) {
    Between(s) && Numbered(s) && Watches(s, w) && s.pdEnd == ready
  }

  lemma MachineStep(s: State, c: Command, w: Watch, ready: bool)
    requires Kept(s, w, ready)
    ensures Kept(VtsStep(s, c), w, ready || c.Pd?)
    ensures var polls := Polls(Sum(s.log));
      VtsStep(s, c).log == s.log + polls + Handles(Sum(s.log + polls), c, ready)
  {
    var p := Poll(s);
    PollKeeps(s);
    HandleKeeps(p, c);
    PollNumbered(s);
    HandleNumbered(p, c);
    PollsExactly(s);
    HandlesExactly(p, c);
    CodesStay(s, c);
  }

  lemma CodesStay(s: State, c: Command)
    ensures var t := VtsStep(s, c);
      t.repeatCount == s.repeatCount && t.stRetCode == s.stRetCode && t.pdEnd == (s.pdEnd || c.Pd?) && Poll(s).pdEnd == s.pdEnd
  {
  }

  /** What a pass of the reader's loop appends, and its watch afterwards. */
  lemma ReaderStep(s: State, reply: Option<Reply>, w: Watch, ready: bool) returns (x: Watch)
    requires Kept(s, w, ready) && (reply.Some? ==> ReplyOk(reply.value))
    ensures reply.Some? ==> HandedOver(reply.value)
    ensures var h := Sum(s.log); var taken := s.log + Taken(h);
      && x == Heeds(Begun(w, h), Sum(taken), reply)
      && var accepted := taken + Accepts(Sum(taken), reply);
      PosStep(s, reply).log == accepted + Repeats(Sum(accepted), x)
    ensures Kept(PosStep(s, reply), if x.passes % 256 > 175 then x.(missed := false) else x, ready)
  {
    var h := Sum(s.log);
    var q := Request(s);
    RequestKeeps(s);
    RequestNumbered(s);
    RequestWatches(s, w);
    TakenExactly(s);
    var r := Receive(q, reply);
    ReceiveKeeps(q, reply);
    ReceiveNumbered(q, reply);
    ReplyWatches(q, reply, Begun(w, h));
    AcceptsExactly(q, reply);
    x := Heeds(Begun(w, h), Sum(q.log), reply);
    RepeatKeeps(r);
    RepeatNumbered(r);
    RepeatWatches(r, x);
    ReadyStays(s, reply);
  }

  lemma ReadyStays(s: State, reply: Option<Reply>)
    requires reply.Some? ==> ReplyOk(reply.value)
    ensures PosStep(s, reply).pdEnd == s.pdEnd
  {
  }

  lemma ReadyOn(events: seq<Event>)
    requires events != []
    ensures var n := |events| - 1; Ready(events) <==> Ready(events[..n]) || events[n] == Vts(Pd)
  {
    var n := |events| - 1;
    assert forall k :: 0 <= k < n ==> events[..n][k] == events[k];
  }

  lemma {:induction false} RunKept(events: seq<Event>)
    requires AllOk(events)
    ensures Kept(Run(START, events), Watched(events), Ready(events))
  {
    if events != [] {
      var n := |events| - 1;
      Before(events);
      RunKept(events[..n]);
      ReadyOn(events);
      var s, w := Run(START, events[..n]), Watched(events[..n]);
      match events[n] {
        case Vts(c) => MachineStep(s, c, w, Ready(events[..n]));
        case Pos(reply) =>
          var x := ReaderStep(s, reply, w, Ready(events[..n]));
      }
    }
  }

  lemma OneMoreEvent(events: seq<Event>, e: Event)
    requires AllOk(events) && EventOk(e)
    ensures AllOk(events + [e]) && Run(START, events + [e]) == Step(Run(START, events), e)
  {
    var all := events + [e];
    assert all[..|events|] == events;
    Before(all);
  }

  /** In every run a pass of the loop of the vending machine appends exactly this. */
  lemma MachinePass(events: seq<Event>, c: Command)
    requires AllOk(events)
    ensures AllOk(events + [Vts(c)])
    ensures var log := LogOf(events); var polls := Polls(Sum(log));
      LogOf(events + [Vts(c)]) == log + polls + Handles(Sum(log + polls), c, Ready(events))
  {
    RunKept(events);
    OneMoreEvent(events, Vts(c));
    MachineStep(Run(START, events), c, Watched(events), Ready(events));
  }

  /** In every run a pass of the reader's loop appends exactly this. */
  lemma ReaderPass(events: seq<Event>, reply: Option<Reply>)
    requires AllOk(events) && (reply.Some? ==> HandedOver(reply.value))
    ensures AllOk(events + [Pos(reply)])
    ensures var log := LogOf(events); var taken := log + Taken(Sum(log)); var accepted := taken + Accepts(Sum(taken), reply);
      LogOf(events + [Pos(reply)]) == accepted + Repeats(Sum(accepted), InPass(events, reply))
  {
    EventHandedOver(Pos(reply));
    RunKept(events);
    OneMoreEvent(events, Pos(reply));
    var x := ReaderStep(Run(START, events), reply, Watched(events), Ready(events));
  }
}
