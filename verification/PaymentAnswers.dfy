/**
 When a reply is accepted, when a payment is reported paid, and, with a vending machine that waits for
 its answers, which requests are: those whose confirmation comes before the eighth poll.
 */
module PaymentAnswers {
  import opened Bytes
  import opened Wrappers
  import opened Payment
  import opened PaymentExactly
  import opened PaymentPace
  import opened PaymentReplies
  import opened PaymentSafety

  /** A pass of the reader's loop accepts a reply for a number if and only if the deduction of that number
      runs when the request, if any, has been taken, no reply is stored, and the reply confirms it. */
  lemma AcceptedExactly(events: seq<Event>, reply: Option<Reply>, n: nat) returns (acts: seq<Act>)
    requires AllOk(events) && (reply.Some? ==> HandedOver(reply.value))
    ensures AllOk(events + [Pos(reply)]) && LogOf(events + [Pos(reply)]) == LogOf(events) + acts
    ensures var p := Sum(LogOf(events) + Taken(Sum(LogOf(events)))).phase;
      Accepted(n) in acts <==> reply.Some? && p.Waiting? && p.seqNo == n && Confirms(reply.value, n)
  {
    ReaderPass(events, reply);
    var log := LogOf(events);
    var taken := Taken(Sum(log));
    var accepts := Accepts(Sum(log + taken), reply);
    var repeats := Repeats(Sum(log + taken + accepts), InPass(events, reply));
    acts := taken + accepts + repeats;
    ThreeLists(log, taken, accepts, repeats);
    AcceptedAmong(Sum(log), Sum(log + taken), Sum(log + taken + accepts), reply, InPass(events, reply), n);
  }

  lemma AcceptedAmong(h: Summary, g: Summary, f: Summary, reply: Option<Reply>, w: Watch, n: nat)
    requires reply.Some? ==> HandedOver(reply.value)
    ensures Accepted(n) in Taken(h) + Accepts(g, reply) + Repeats(f, w)
       <==> reply.Some? && g.phase.Waiting? && g.phase.seqNo == n && Confirms(reply.value, n)
  {
    assert Accepted(n) !in Taken(h) && Accepted(n) !in Repeats(f, w);
    if Accepts(g, reply) != [] {
      assert Accepts(g, reply)[0] == Accepted(g.phase.seqNo);
    }
  }

  lemma ThreeLists(log: seq<Act>, a: seq<Act>, b: seq<Act>, c: seq<Act>)
    ensures log + a + b + c == log + (a + b + c)
  {
  }

  /** A pass of the loop of the vending machine reports success if and only if somebody waits for a payment
      that runs and whose reply is stored; and failure if and only if it is the eighth without a reply. */
  lemma ReportedExactly(events: seq<Event>, c: Command) returns (acts: seq<Act>)
    requires AllOk(events)
    ensures AllOk(events + [Vts(c)]) && LogOf(events + [Vts(c)]) == LogOf(events) + acts
    ensures var h := Sum(LogOf(events));
      && (CwOk in acts <==> !h.noWait && (h.phase.Paid? || h.phase.Stale?))
      && (CwTimeout in acts <==> !h.noWait && h.phase.Waiting? && h.polls == 7)
  {
    MachinePass(events, c);
    var log := LogOf(events);
    var polls := Polls(Sum(log));
    var handles := Handles(Sum(log + polls), c, Ready(events));
    acts := polls + handles;
    AppendAssociates(log, polls, handles);
    ReportedAmong(Sum(log), Sum(log + polls), c, Ready(events));
  }

  lemma ReportedAmong(h: Summary, g: Summary, c: Command, ready: bool)
    ensures var acts := Polls(h) + Handles(g, c, ready);
      && (CwOk in acts <==> !h.noWait && (h.phase.Paid? || h.phase.Stale?))
      && (CwTimeout in acts <==> !h.noWait && h.phase.Waiting? && h.polls == 7)
  {
    assert CwOk !in Handles(g, c, ready) && CwTimeout !in Handles(g, c, ready);
  }

  // ---- which requests are reported paid ----

  /** A confirmation of this number comes with less than eight passes of the vending machine's loop
      before it. */
  predicate Heard(n: nat, passes: seq<Event>) {
    exists k: nat :: k < |passes| && HeardAt(n, passes, k)
  }

  predicate HeardAt(n: nat, passes: seq<Event>, k: nat)
    requires k < |passes|
  {
    Brings(n, passes[k]) && VtsPasses(passes[..k]) < 8
  }

  predicate Brings(n: nat, e: Event) {
    e.Pos? && e.reply.Some? && HandedOver(e.reply.value) && Confirms(e.reply.value, n)
  }

  lemma HeardOn(n: nat, passes: seq<Event>, e: Event)
    ensures Heard(n, passes + [e]) <==> Heard(n, passes) || (Brings(n, e) && VtsPasses(passes) < 8)
    ensures VtsPasses(passes + [e]) == VtsPasses(passes) + if e.Vts? then 1 else 0
  {
    var all := passes + [e];
    assert all[..|passes|] == passes;
    forall k: nat | k < |passes| ensures HeardAt(n, all, k) == HeardAt(n, passes, k) {
      assert all[..k] == passes[..k] && all[k] == passes[k];
    }
    if Heard(n, all) {
      var k: nat :| k < |all| && HeardAt(n, all, k);
      assert k < |passes| ==> HeardAt(n, passes, k);
    }
    if Heard(n, passes) {
      var k: nat :| k < |passes| && HeardAt(n, passes, k);
      assert HeardAt(n, all, k);
    }
    if Brings(n, e) && VtsPasses(passes) < 8 {
      assert HeardAt(n, all, |passes|);
    }
  }

  /** The first answer from `from` on is this one. */
  predicate FirstIs(log: seq<Act>, from: nat, a: Act) {
    exists i: nat :: from <= i < |log| && log[i] == a && Quiet(log, from, i)
  }

  predicate Quiet(log: seq<Act>, from: nat, i: nat)
    requires i <= |log|
  {
    forall j :: from <= j < i ==> !Answers(log[j])
  }

  lemma FirstStays(log: seq<Act>, more: seq<Act>, from: nat, a: Act)
    requires Extends(log, more) && FirstIs(log, from, a)
    ensures FirstIs(more, from, a)
  {
    var i: nat :| from <= i < |log| && log[i] == a && Quiet(log, from, i);
    assert forall j :: 0 <= j < |log| ==> more[j] == more[..|log|][j];
    assert Quiet(more, from, i);
  }

  datatype Outcome = Open | Success | Failure

  /** How a request stands after some passes: it has no answer yet, and its deduction waits for the reply,
      or has it; or its first answer is there. */
  predicate Stand(log: seq<Act>, from: nat, n: nat, passes: seq<Event>, o: Outcome) {
    from <= |log| &&
    match o
    case Open => Quiet(log, from, |log|) && Awaited(Sum(log), n, VtsPasses(passes), Heard(n, passes))
    case Success => FirstIs(log, from, CwOk) && Heard(n, passes)
    case Failure => FirstIs(log, from, CwTimeout) && !Heard(n, passes) && VtsPasses(passes) >= 8
  }

  predicate Awaited(h: Summary, n: nat, polls: nat, heard: bool) {
    && !h.mail && !h.noWait && h.asking && h.polls == polls < 8
    && (h.phase.Waiting? || h.phase.Paid?) && h.phase.seqNo == n && (h.phase.Paid? <==> heard)
  }

  lemma QuietOn(log: seq<Act>, from: nat, a: Act)
    requires from <= |log| && Quiet(log, from, |log|)
    ensures if Answers(a) then FirstIs(log + [a], from, a) else Quiet(log + [a], from, |log| + 1)
  {
    var more := log + [a];
    assert forall j :: 0 <= j < |log| ==> more[j] == log[j];
    assert Quiet(more, from, |log|) && more[|log|] == a;
  }

  /** What a pass of the vending machine's loop does to a request that is not answered yet. */
  lemma PollGoesOn(log: seq<Act>, from: nat, n: nat, passes: seq<Event>, more: seq<Event>) returns (o: Outcome)
    requires Stand(log, from, n, passes, Open)
    requires VtsPasses(more) == VtsPasses(passes) + 1 && Heard(n, more) == Heard(n, passes)
    ensures Polls(Sum(log)) != [] && Stand(log + Polls(Sum(log)), from, n, more, o)
  {
    var a := Polls(Sum(log))[0];
    assert Polls(Sum(log)) == [a];
    Append(log, a);
    QuietOn(log, from, a);
    o := if a == CwOk then Success else if a == CwTimeout then Failure else Open;
  }

  /** A pass of the vending machine's loop, without a charge. */
  lemma MachineGoesOn(events: seq<Event>, from: nat, n: nat, passes: seq<Event>, c: Command) returns (o: Outcome)
    requires AllOk(events) && Stand(LogOf(events), from, n, passes, Open) && !c.Cw?
    ensures AllOk(events + [Vts(c)]) && Stand(LogOf(events + [Vts(c)]), from, n, passes + [Vts(c)], o)
  {
    var log := LogOf(events);
    MachinePass(events, c);
    HeardOn(n, passes, Vts(c));
    o := PollGoesOn(log, from, n, passes, passes + [Vts(c)]);
    assert LogOf(events + [Vts(c)]) == log + Polls(Sum(log)) + [] == log + Polls(Sum(log));
  }

  /** What the reader's loop does to a deduction that runs. */
  lemma ReplyGoesOn(log: seq<Act>, from: nat, n: nat, polls: nat, reply: Option<Reply>, w: Watch)
    requires from <= |log| && Quiet(log, from, |log|) && Sum(log).phase.Waiting? && Awaited(Sum(log), n, polls, false)
    requires reply.Some? ==> HandedOver(reply.value)
    ensures var accepted := log + Accepts(Sum(log), reply); var all := accepted + Repeats(Sum(accepted), w);
      from <= |all| && Quiet(all, from, |all|) && Awaited(Sum(all), n, polls, Brings(n, Pos(reply)))
  {
    var accepted := log + Accepts(Sum(log), reply);
    Appends(log, Accepts(Sum(log), reply));
    if Accepts(Sum(log), reply) != [] {
      QuietOn(log, from, Accepted(n));
    }
    RepetitionGoesOn(accepted, from, n, polls, Brings(n, Pos(reply)), w);
  }

  lemma RepetitionGoesOn(log: seq<Act>, from: nat, n: nat, polls: nat, heard: bool, w: Watch)
    requires from <= |log| && Quiet(log, from, |log|) && Awaited(Sum(log), n, polls, heard)
    ensures var all := log + Repeats(Sum(log), w); Quiet(all, from, |all|) && Awaited(Sum(all), n, polls, heard)
  {
    var acts := Repeats(Sum(log), w);
    Appends(log, acts);
    if acts != [] {
      assert acts == [acts[0]];
      QuietOn(log, from, acts[0]);
    } else {
      assert log + acts == log;
    }
  }

  lemma ReaderGoesOn(events: seq<Event>, from: nat, n: nat, passes: seq<Event>, reply: Option<Reply>)
    requires AllOk(events) && Stand(LogOf(events), from, n, passes, Open) && (reply.Some? ==> HandedOver(reply.value))
    ensures AllOk(events + [Pos(reply)]) && Stand(LogOf(events + [Pos(reply)]), from, n, passes + [Pos(reply)], Open)
  {
    var log := LogOf(events);
    ReaderPass(events, reply);
    HeardOn(n, passes, Pos(reply));
    assert log + Taken(Sum(log)) == log;
    if Sum(log).phase.Waiting? {
      ReplyGoesOn(log, from, n, VtsPasses(passes), reply, InPass(events, reply));
    } else {
      assert log + Accepts(Sum(log), reply) == log;
      RepetitionGoesOn(log, from, n, VtsPasses(passes), true, InPass(events, reply));
    }
  }

  /** Once answered, a request stays so, and its confirmation cannot come in time any more. */
  lemma AnsweredGoesOn(events: seq<Event>, from: nat, n: nat, passes: seq<Event>, e: Event, o: Outcome)
    requires AllOk(events) && EventOk(e) && Stand(LogOf(events), from, n, passes, o) && o != Open
    ensures AllOk(events + [e]) && Stand(LogOf(events + [e]), from, n, passes + [e], o)
  {
    OneMoreEvent(events, e);
    PassExtends(Run(START, events), e);
    HeardOn(n, passes, e);
    FirstStays(LogOf(events), LogOf(events + [e]), from, if o == Success then CwOk else CwTimeout);
  }

  /** Without a charge before the answer, every pass leads to a case. */
  lemma GoesOn(events: seq<Event>, from: nat, n: nat, passes: seq<Event>, e: Event, o: Outcome) returns (p: Outcome)
    requires AllOk(events) && EventOk(e) && Stand(LogOf(events), from, n, passes, o) && (o == Open ==> !Charges(e))
    ensures AllOk(events + [e]) && Stand(LogOf(events + [e]), from, n, passes + [e], p)
  {
    if o != Open {
      AnsweredGoesOn(events, from, n, passes, e, o);
      p := o;
    } else {
      match e
      case Vts(c) => p := MachineGoesOn(events, from, n, passes, c);
      case Pos(reply) =>
        EventHandedOver(e);
        ReaderGoesOn(events, from, n, passes, reply);
        p := Open;
    }
  }

  // ---- from the request on ----

  /** The last act is a request for something. */
  predicate Requested(log: seq<Act>) {
    log != [] && log[|log| - 1].Asked? && log[|log| - 1].amount != 0
  }

  /** In a polite run nothing else is on when a request is accepted. */
  lemma RequestedStands(events: seq<Event>)
    requires AllOk(events) && Polite(events) && Requested(LogOf(events))
    ensures var h := Sum(LogOf(events));
      h.mail && h.due != 0 && h.phase.Idle? && !h.noWait && h.asking && h.polls == 0
  {
    PoliteIsGood(events);
    var log := LogOf(events);
    var n := |log| - 1;
    assert log == log[..n] + [log[n]];
    Append(log[..n], log[n]);
    assert InOrder(log, n);
    if n > 0 {
      Append(log[..n - 1], log[n - 1]);
      assert log[..n] == log[..n - 1] + [log[n - 1]];
    }
  }

  /** The request is deducted, and may be confirmed at once. */
  lemma DeductionStarts(log: seq<Act>, n: nat, reply: Option<Reply>, w: Watch)
    requires var h := Sum(log);
      h.mail && h.due != 0 && h.phase.Idle? && !h.noWait && h.asking && h.polls == 0 && n == h.deducted % 0x1_0000
    requires reply.Some? ==> HandedOver(reply.value)
    ensures var taken := log + Taken(Sum(log)); var accepted := taken + Accepts(Sum(taken), reply);
      var all := accepted + Repeats(Sum(accepted), w);
      |log| <= |all| && Quiet(all, |log|, |all|) && Awaited(Sum(all), n, 0, Brings(n, Pos(reply)))
  {
    var a := Deducted(n, Sum(log).due * 10);
    assert Taken(Sum(log)) == [a];
    Append(log, a);
    QuietOn(log, |log|, a);
    ReplyGoesOn(log + [a], |log|, n, 0, reply, w);
  }

  lemma FirstPass(events: seq<Event>, reply: Option<Reply>)
    requires AllOk(events) && Polite(events) && Requested(LogOf(events)) && (reply.Some? ==> HandedOver(reply.value))
    ensures AllOk(events + [Pos(reply)])
    ensures Stand(LogOf(events + [Pos(reply)]), |LogOf(events)|, Sum(LogOf(events)).deducted % 0x1_0000, [Pos(reply)], Open)
  {
    var log := LogOf(events);
    var n := Sum(log).deducted % 0x1_0000;
    RequestedStands(events);
    ReaderPass(events, reply);
    HeardOn(n, [], Pos(reply));
    assert [] + [Pos(reply)] == [Pos(reply)];
    DeductionStarts(log, n, reply, InPass(events, reply));
  }

  lemma NoChargeYet(events: seq<Event>, more: seq<Event>, m: nat, from: nat, n: nat, passes: seq<Event>)
    requires AllOk(events + more) && Polite(events + more) && m < |more| && AllOk(events + more[..m])
    requires Stand(LogOf(events + more[..m]), from, n, passes, Open)
    ensures !Charges(more[m])
  {
    AskingIsUnanswered(LogOf(events + more[..m]));
    var all := events + more;
    assert all[|events| + m] == more[m] && all[..|events| + m] == events + more[..m];
    assert !Unasked(all, |events| + m);
  }

  lemma AllOkPrefix(events: seq<Event>, more: seq<Event>, m: nat)
    requires AllOk(events + more) && m <= |more|
    ensures AllOk(events) && AllOk(events + more[..m]) && (m < |more| ==> EventOk(more[m]))
  {
    var all := events + more;
    assert forall k :: 0 <= k < |events| + m ==> (events + more[..m])[k] == all[k];
    assert forall k :: 0 <= k < |events| ==> events[k] == all[k];
    assert m < |more| ==> more[m] == all[|events| + m];
  }

  lemma FirstOutcome(events: seq<Event>, passes: seq<Event>)
    requires AllOk(events + passes) && Polite(events + passes) && passes != [] && passes[0].Pos?
    requires AllOk(events) && Requested(LogOf(events))
    ensures AllOk(events + passes[..1])
    ensures Stand(LogOf(events + passes[..1]), |LogOf(events)|, Sum(LogOf(events)).deducted % 0x1_0000, passes[..1], Open)
  {
    AllOkPrefix(events, passes, 0);
    PolitePrefix(events, passes);
    EventHandedOver(passes[0]);
    FirstPass(events, passes[0].reply);
    assert passes[..1] == [Pos(passes[0].reply)];
  }

  lemma NextOutcome(events: seq<Event>, passes: seq<Event>, m: nat, from: nat, n: nat, before: Outcome) returns (o: Outcome)
    requires AllOk(events + passes) && Polite(events + passes) && m < |passes| && AllOk(events + passes[..m])
    requires Stand(LogOf(events + passes[..m]), from, n, passes[..m], before)
    ensures AllOk(events + passes[..m + 1]) && Stand(LogOf(events + passes[..m + 1]), from, n, passes[..m + 1], o)
  {
    AllOkPrefix(events, passes, m);
    if before == Open {
      NoChargeYet(events, passes, m, from, n, passes[..m]);
    }
    o := GoesOn(events + passes[..m], from, n, passes[..m], passes[m], before);
    assert passes[..m + 1] == passes[..m] + [passes[m]];
    AppendAssociates(events, passes[..m], [passes[m]]);
  }

  lemma {:induction false} Outcomes(events: seq<Event>, passes: seq<Event>, m: nat, from: nat, n: nat) returns (o: Outcome)
    requires AllOk(events + passes) && Polite(events + passes) && 1 <= m <= |passes| && AllOk(events + passes[..1])
    requires Stand(LogOf(events + passes[..1]), from, n, passes[..1], Open)
    ensures AllOk(events + passes[..m]) && Stand(LogOf(events + passes[..m]), from, n, passes[..m], o)
  {
    if m == 1 {
      o := Open;
    } else {
      o := Outcomes(events, passes, m - 1, from, n);
      o := NextOutcome(events, passes, m - 1, from, n, o);
    }
  }

  /** With a vending machine that waits for its answers: from the pass of the reader's loop that takes a
      request on, and over eight passes of the vending machine's loop, the first answer is success if and
      only if a confirmation of its deduction comes before the eighth, and else failure. */
  lemma PaidExactly(events: seq<Event>, passes: seq<Event>)
    requires AllOk(events + passes) && Polite(events + passes)
    requires AllOk(events) && Requested(LogOf(events)) && passes != [] && passes[0].Pos? && VtsPasses(passes) >= 8
    ensures var n := Sum(LogOf(events)).deducted % 0x1_0000;
      && (FirstIs(LogOf(events + passes), |LogOf(events)|, CwOk) <==> Heard(n, passes))
      && (FirstIs(LogOf(events + passes), |LogOf(events)|, CwTimeout) <==> !Heard(n, passes))
  {
    FirstOutcome(events, passes);
    var o := Outcomes(events, passes, |passes|, |LogOf(events)|, Sum(LogOf(events)).deducted % 0x1_0000);
    assert passes[..|passes|] == passes;
    OneFirst(LogOf(events + passes), |LogOf(events)|);
  }

  lemma SameFirst(log: seq<Act>, from: nat, i: nat, j: nat)
    requires from <= i < |log| && Answers(log[i]) && Quiet(log, from, i)
    requires from <= j < |log| && Answers(log[j]) && Quiet(log, from, j)
    ensures i == j
  {
  }

  lemma OneFirst(log: seq<Act>, from: nat)
    ensures !(FirstIs(log, from, CwOk) && FirstIs(log, from, CwTimeout))
  {
    if FirstIs(log, from, CwOk) {
      var i: nat :| from <= i < |log| && log[i] == CwOk && Quiet(log, from, i);
      forall j: nat | from <= j < |log| && Answers(log[j]) && Quiet(log, from, j)
        ensures log[j] == CwOk
      {
        SameFirst(log, from, i, j);
      }
    }
  }
}
