/**
 What keeps the payment right: a reader task that comes round between two commands of the vending
 machine, or a vending machine that waits for its answers. And how soon an answer comes.
 */
module PaymentPace {
  import opened Wrappers
  import opened Payment
  import opened PaymentSafety

  predicate Charges(e: Event) {
    e.Vts? && e.command.Cw?
  }

  // ---- a reader task that keeps up ----

  /** Between two charges the reader's loop makes a pass. The vending machine leaves 100 ms between
      two commands, and the reader's loop waits 10 ticks of 1/300 s for a request and 10 ms at its end;
      so all runs are like this in which the reader task is not held up. */
  predicate Prompt(events: seq<Event>) {
    forall i, j :: 0 <= i < j < |events| && Charges(events[i]) && Charges(events[j]) ==> Passes(events, i, j)
  }

  predicate Passes(events: seq<Event>, i: nat, j: nat)
    requires j <= |events|
  {
    exists k :: i < k < j && events[k].Pos?
  }

  /** The latest charge came at `i`, and no pass of the reader's loop since. */
  predicate Fresh(events: seq<Event>, i: nat) {
    i < |events| && Charges(events[i]) && !Passes(events, i, |events|)
  }

  lemma VtsPassRefuses(s: State, c: Command)
    requires NoneRefused(s.log) && !(c.Cw? && s.vtsMail)
    ensures NoneRefused(VtsStep(s, c).log)
    ensures VtsStep(s, c).vtsMail ==> s.vtsMail || c.Cw?
  {
    var p := Poll(s);
    assert NoneRefused(p.log) && p.vtsMail == s.vtsMail;
  }

  lemma RequestRefuses(s: State)
    requires NoneRefused(s.log)
    ensures NoneRefused(Request(s).log) && !Request(s).vtsMail
  {
  }

  lemma ReplyRefuses(s: State, reply: Option<Reply>)
    requires NoneRefused(s.log) && !s.vtsMail && (reply.Some? ==> ReplyOk(reply.value))
    ensures NoneRefused(Receive(s, reply).log) && !Receive(s, reply).vtsMail
    ensures NoneRefused(Repeat(s).log) && !Repeat(s).vtsMail
  {
  }

  lemma PosPassRefuses(s: State, reply: Option<Reply>)
    requires NoneRefused(s.log) && (reply.Some? ==> ReplyOk(reply.value))
    ensures NoneRefused(PosStep(s, reply).log) && !PosStep(s, reply).vtsMail
  {
    RequestRefuses(s);
    ReplyRefuses(Request(s), reply);
    ReplyRefuses(Receive(Request(s), reply), reply);
  }

  lemma PassRefuses(s: State, e: Event)
    requires EventOk(e) && NoneRefused(s.log) && !(Charges(e) && s.vtsMail)
    ensures NoneRefused(Step(s, e).log)
    ensures Step(s, e).vtsMail ==> e.Vts? && (s.vtsMail || Charges(e))
  {
    match e
    case Vts(c) => VtsPassRefuses(s, c);
    case Pos(r) => PosPassRefuses(s, r);
  }

  lemma {:induction false} MailIsFresh(events: seq<Event>)
    requires AllOk(events) && Prompt(events)
    ensures NoneRefused(LogOf(events))
    ensures Run(START, events).vtsMail ==> exists i: nat :: Fresh(events, i)
  {
    if events != [] {
      var n := |events| - 1;
      var before := events[..n];
      Before(events);
      assert forall k :: 0 <= k < n ==> events[k] == before[k];
      forall i, j | 0 <= i < j < n && Charges(before[i]) && Charges(before[j])
        ensures Passes(before, i, j)
      {
        assert Passes(events, i, j);
      }
      MailIsFresh(before);
      var s := Run(START, before);
      if s.vtsMail {
        var i: nat :| Fresh(before, i);
        StillFresh(events, i);
      }
      PassRefuses(s, events[n]);
      if Charges(events[n]) {
        assert Fresh(events, n);
      }
    }
  }

  lemma StillFresh(events: seq<Event>, i: nat)
    requires events != [] && Fresh(events[..|events| - 1], i)
    ensures !Passes(events, i, |events| - 1)
    ensures events[|events| - 1].Vts? ==> Fresh(events, i)
  {
    var n := |events| - 1;
    assert forall k :: i < k < n ==> events[k] == events[..n][k] && !events[k].Pos?;
  }

  /** If the reader's loop comes round between two charges, no request is ever refused. Then somebody
      waits for every deduction, no reply is left behind, every deduction takes the amount of its
      request, and every report of success has the reply to its own deduction, whatever is charged
      and whatever the reader replies. */
  lemma PromptIsRight(events: seq<Event>)
    requires AllOk(events) && Prompt(events)
    ensures NoneRefused(LogOf(events))
    ensures var s := Run(START, events); !(s.flag && s.noWait) && (s.posMail ==> s.flag)
    ensures forall i :: 0 <= i < |LogOf(events)| && LogOf(events)[i] == CwOk ==>
      exists k: nat, j: nat :: Explains(LogOf(events), k, j, i)
    ensures forall i :: 0 <= i < |LogOf(events)| && LogOf(events)[i].Deducted? ==> IsAsAsked(LogOf(events), i)
  {
    MailIsFresh(events);
    RightUnlessRefused(events);
    forall i | 0 <= i < |LogOf(events)| && LogOf(events)[i] == CwOk
      ensures exists k: nat, j: nat :: Explains(LogOf(events), k, j, i)
    {
      var k, j := OkIsPaidUnlessRefused(events, i);
    }
    forall i | 0 <= i < |LogOf(events)| && LogOf(events)[i].Deducted?
      ensures IsAsAsked(LogOf(events), i)
    {
      var a := DeductedAsAsked(events, i);
    }
  }

  /** The deduction at `i` takes the amount of the request it is of. */
  ghost predicate IsAsAsked(log: seq<Act>, i: nat)
    requires i < |log| && log[i].Deducted?
  {
    exists a: nat :: Pending(log, a, i) && log[i].money == log[a].amount * 10
  }

  // ---- how soon an answer comes ----

  function VtsPasses(events: seq<Event>): nat {
    if events == [] then 0
    else VtsPasses(events[..|events| - 1]) + if events[|events| - 1].Vts? then 1 else 0
  }

  predicate Ends(a: Act) {
    a.CwOk? || a.CwTimeout? || a.Cancelled?
  }

  /** Something has ended since the log had this length. */
  predicate EndedSince(log: seq<Act>, from: nat) {
    exists n :: from <= n < |log| && Ends(log[n])
  }

  lemma RunAppend(events: seq<Event>, more: seq<Event>)
    requires AllOk(events + more) && more != []
    ensures AllOk(events) && AllOk(events + more[..|more| - 1]) && EventOk(more[|more| - 1])
    ensures Run(START, events + more) == Step(Run(START, events + more[..|more| - 1]), more[|more| - 1])
  {
    var all := events + more;
    assert all[..|all| - 1] == events + more[..|more| - 1];
    Before(all);
    assert forall k :: 0 <= k < |events| ==> events[k] == all[k];
  }

  lemma VtsPassPolls(s: State, c: Command, from: nat)
    requires Between(s) && from <= |s.log| && s.flag && !s.noWait
    ensures var t := VtsStep(s, c);
      EndedSince(t.log, from) || (t.flag && !t.noWait && t.timeout == s.timeout + 1)
  {
    if s.posMail || s.timeout + 1 >= VTS_TT_COUNT - 1 {
      assert Ends(Poll(s).log[|s.log|]);
      assert Ends(Handle(Poll(s), c).log[|s.log|]);
    }
  }

  lemma PosPassPolls(s: State, reply: Option<Reply>, from: nat)
    requires (reply.Some? ==> ReplyOk(reply.value)) && from <= |s.log| && s.flag && !s.noWait
    ensures var t := PosStep(s, reply);
      EndedSince(t.log, from) || (t.flag && !t.noWait && t.timeout == s.timeout)
  {
    var q := Request(s);
    var r := Receive(q, reply);
    if s.vtsMail && s.balance == 0 {
      assert Ends(q.log[|s.log|]);
      assert Ends(r.log[|s.log|]);
      assert Ends(Repeat(r).log[|s.log|]);
    }
  }

  /** One pass either ends the deduction or polls once more. */
  lemma PassPolls(s: State, e: Event, from: nat)
    requires Between(s) && EventOk(e) && from <= |s.log| && s.flag && !s.noWait
    ensures var t := Step(s, e);
      EndedSince(t.log, from) || (t.flag && !t.noWait && t.timeout == s.timeout + if e.Vts? then 1 else 0)
  {
    match e
    case Vts(c) => VtsPassPolls(s, c, from);
    case Pos(r) => PosPassPolls(s, r, from);
  }

  predicate Extends(log: seq<Act>, more: seq<Act>) {
    |log| <= |more| && more[..|log|] == log
  }

  lemma ExtendsOn(a: seq<Act>, b: seq<Act>, c: seq<Act>)
    requires Extends(a, b) && Extends(b, c)
    ensures Extends(a, c)
  {
    assert c[..|a|] == c[..|b|][..|a|];
  }

  lemma VtsExtends(s: State, c: Command)
    ensures Extends(s.log, Poll(s).log) && Extends(s.log, Handle(s, c).log)
  {
  }

  lemma RequestExtends(s: State)
    ensures Extends(s.log, Request(s).log)
  {
  }

  lemma ReplyExtends(s: State, reply: Option<Reply>)
    requires reply.Some? ==> ReplyOk(reply.value)
    ensures Extends(s.log, Receive(s, reply).log) && Extends(s.log, Repeat(s).log)
  {
  }

  lemma PassExtends(s: State, e: Event)
    requires EventOk(e)
    ensures Extends(s.log, Step(s, e).log)
  {
    match e
    case Vts(c) =>
      var p := Poll(s);
      VtsExtends(s, c);
      VtsExtends(p, c);
      ExtendsOn(s.log, p.log, Handle(p, c).log);
    case Pos(r) =>
      var p := Request(s);
      var q := Receive(p, r);
      RequestExtends(s);
      ReplyExtends(p, r);
      ReplyExtends(q, r);
      ExtendsOn(s.log, p.log, q.log);
      ExtendsOn(s.log, q.log, Repeat(q).log);
  }

  lemma EndStays(log: seq<Act>, more: seq<Act>, from: nat)
    requires Extends(log, more) && EndedSince(log, from)
    ensures EndedSince(more, from)
  {
    var n :| from <= n < |log| && Ends(log[n]);
    assert more[..|log|][n] == more[n];
  }

  /** The deduction that ran when the log had length `from` and `k` polls had been made has ended or
      has been polled `n` times more. */
  predicate EndedOrPolled(s: State, from: nat, k: nat, n: nat) {
    from <= |s.log| && (EndedSince(s.log, from) || (s.flag && !s.noWait && s.timeout == k + n))
  }

  lemma EndedOrPolledOn(s: State, e: Event, from: nat, k: nat, n: nat)
    requires Between(s) && EventOk(e) && EndedOrPolled(s, from, k, n)
    ensures EndedOrPolled(Step(s, e), from, k, n + if e.Vts? then 1 else 0)
  {
    PassExtends(s, e);
    if EndedSince(s.log, from) {
      EndStays(s.log, Step(s, e).log, from);
    } else {
      PassPolls(s, e, from);
    }
  }

  lemma {:induction false} PollsOrEnds(events: seq<Event>, more: seq<Event>)
    requires AllOk(events) && AllOk(events + more)
    requires Run(START, events).flag && !Run(START, events).noWait
    ensures EndedOrPolled(Run(START, events + more), |LogOf(events)|, Run(START, events).timeout, VtsPasses(more))
  {
    if more == [] {
      assert events + more == events;
    } else {
      var n := |more| - 1;
      RunAppend(events, more);
      PollsOrEnds(events, more[..n]);
      RunKeeps(events + more[..n]);
      EndedOrPolledOn(Run(START, events + more[..n]), more[n], |LogOf(events)|, Run(START, events).timeout,
        VtsPasses(more[..n]));
    }
  }

  /** A deduction that somebody waits for is reported or cancelled within eight passes of the vending
      machine's loop, whatever else happens. */
  lemma EndsWithinEight(events: seq<Event>, more: seq<Event>)
    requires AllOk(events) && AllOk(events + more) && VtsPasses(more) >= 8
    requires Run(START, events).flag && !Run(START, events).noWait
    ensures EndedSince(LogOf(events + more), |LogOf(events)|)
  {
    PollsOrEnds(events, more);
    RunKeeps(events + more);
  }

  // ---- a vending machine that waits ----

  /** It charges only when its last accepted request has been answered. */
  predicate Polite(events: seq<Event>)
    requires AllOk(events)
  {
    forall k :: 0 <= k < |events| && Charges(events[k]) ==> Unasked(events, k)
  }

  predicate Unasked(events: seq<Event>, k: nat)
    requires AllOk(events) && k <= |events|
  {
    AllOk(events[..k]) && !Unanswered(LogOf(events[..k]))
  }

  predicate Answers(a: Act) {
    a.CwOk? || a.CwTimeout?
  }

  /** Some accepted request has no answer after it. */
  predicate Unanswered(log: seq<Act>) {
    exists a :: 0 <= a < |log| && Awaits(log, a)
  }

  predicate Awaits(log: seq<Act>, a: nat)
    requires a < |log|
  {
    log[a].Asked? && forall n :: a < n < |log| ==> !Answers(log[n])
  }

  lemma OneMore(log: seq<Act>)
    requires log != []
    ensures var n := |log| - 1;
      Unanswered(log) <==> log[n].Asked? || (Unanswered(log[..n]) && !Answers(log[n]))
  {
    var n := |log| - 1;
    var before := log[..n];
    assert forall a :: 0 <= a < n ==> log[a] == before[a];
    assert Awaits(log, n) <==> log[n].Asked?;
    if Unanswered(log) && !log[n].Asked? {
      var a :| 0 <= a < |log| && Awaits(log, a);
      assert Awaits(before, a);
    }
    if Unanswered(before) && !Answers(log[n]) {
      var a :| 0 <= a < n && Awaits(before, a);
      assert Awaits(log, a);
    }
  }

  lemma {:induction false} AskingIsUnanswered(log: seq<Act>)
    ensures Sum(log).asking <==> Unanswered(log)
  {
    if log != [] {
      AskingIsUnanswered(log[..|log| - 1]);
      OneMore(log);
    }
  }

  /** A request follows an answer, and is deducted next, once, with its own amount; one for nothing is
      ignored. */
  predicate InOrder(log: seq<Act>, i: nat)
    requires i < |log|
  {
    match log[i]
    case Asked(amount) =>
      && (i > 0 ==> Answers(log[i - 1]))
      && (i + 1 < |log| ==> if amount == 0 then log[i + 1] == Ignored else Serves(log[i + 1], amount))
    case Refused(_) => false
    case Cancelled(_, _) => false
    case Ignored => i > 0 && log[i - 1].Asked?
    case Deducted(_, _) => i > 0 && log[i - 1].Asked?
    case _ => true
  }

  predicate Serves(d: Act, amount: nat) {
    d.Deducted? && d.money == amount * 10
  }

  predicate Mannered(log: seq<Act>) {
    forall i :: 0 <= i < |log| ==> InOrder(log, i)
  }

  /** Where a polite run stands: it is free; or a request is in the mailbox; or its deduction runs and
      is waited for; or a request for nothing will never be answered. */
  predicate Stands(s: State, h: Summary, last: Option<Act>) {
    if !h.asking then !s.vtsMail && !s.flag && !s.posMail && (last.Some? ==> Answers(last.value))
    else if s.vtsMail then !s.flag && !s.posMail && !s.noWait && last.Some? && last.value.Asked? && last.value.amount == h.due
    else !s.noWait && (s.posMail ==> s.flag) && (last.Some? ==> !last.value.Asked?)
  }

  function Last(log: seq<Act>): Option<Act> {
    if log == [] then None else Some(log[|log| - 1])
  }

  predicate Good(s: State) {
    Between(s) && Mannered(s.log) && Stands(s, Sum(s.log), Last(s.log))
  }

  /** One more act. */
  lemma MannersAppend(log: seq<Act>, a: Act)
    requires Mannered(log) && InOrder(log + [a], |log|)
    requires log != [] && log[|log| - 1].Asked? ==> InOrder(log + [a], |log| - 1)
    ensures Mannered(log + [a])
  {
    forall i | 0 <= i < |log| + 1
      ensures InOrder(log + [a], i)
    {
      assert i < |log| ==> InOrder(log, i);
    }
  }

  lemma PollIsGood(s: State)
    requires Good(s)
    ensures Good(Poll(s)) && Fetched(Poll(s))
    ensures Sum(s.log).asking || Poll(s) == s
  {
    PollKeeps(s);
    if !s.noWait && s.flag {
      var a := if s.posMail then CwOk else if s.timeout + 1 >= VTS_TT_COUNT - 1 then CwTimeout else Polled;
      Append(s.log, a);
      MannersAppend(s.log, a);
    }
  }

  lemma ChargeIsGood(s: State, c: Command)
    requires Good(s) && Fetched(s) && (c.Cw? ==> !Sum(s.log).asking)
    ensures Good(Handle(s, c))
  {
    HandleKeeps(s, c);
    if c.Cw? && s.pdEnd {
      Append(s.log, Asked(c.amount));
      MannersAppend(s.log, Asked(c.amount));
    }
  }

  lemma RequestIsGood(s: State)
    requires Good(s)
    ensures Good(Request(s)) && !Request(s).vtsMail
    ensures s.vtsMail && s.balance != 0 ==> Request(s).flag
  {
    RequestKeeps(s);
    if s.vtsMail {
      Append(s.log, Taking(s));
      assert InOrder(s.log, |s.log| - 1);
      MannersAppend(s.log, Taking(s));
    }
  }

  lemma ReceiveIsGood(s: State, reply: Option<Reply>)
    requires Good(s) && !s.vtsMail && (reply.Some? ==> ReplyOk(reply.value))
    ensures Good(Receive(s, reply))
  {
    ReceiveKeeps(s, reply);
    if s.flag && !s.posMail {
      Append(s.log, Accepted(s.curSeq));
      MannersAppend(s.log, Accepted(s.curSeq));
    }
  }

  lemma RepeatIsGood(s: State)
    requires Good(s) && !s.vtsMail
    ensures Good(Repeat(s))
  {
    RepeatKeeps(s);
    if s.flag {
      Append(s.log, Repeated(s.curSeq, s.money));
      MannersAppend(s.log, Repeated(s.curSeq, s.money));
    }
  }

  lemma PosPassIsGood(s: State, reply: Option<Reply>)
    requires Good(s) && (reply.Some? ==> ReplyOk(reply.value))
    ensures Good(PosStep(s, reply))
    ensures s.vtsMail && s.balance != 0 ==> PosStep(s, reply).flag
  {
    RequestIsGood(s);
    ReceiveIsGood(Request(s), reply);
    RepeatIsGood(Receive(Request(s), reply));
  }

  lemma VtsPassIsGood(s: State, c: Command)
    requires Good(s) && (c.Cw? ==> !Sum(s.log).asking)
    ensures Good(VtsStep(s, c))
  {
    PollIsGood(s);
    ChargeIsGood(Poll(s), c);
  }

  lemma PassIsGood(s: State, e: Event)
    requires Good(s) && EventOk(e) && (Charges(e) ==> !Sum(s.log).asking)
    ensures Good(Step(s, e))
    ensures e.Pos? && s.vtsMail && s.balance != 0 ==> Step(s, e).flag
  {
    match e
    case Vts(c) => VtsPassIsGood(s, c);
    case Pos(r) => PosPassIsGood(s, r);
  }

  lemma {:induction false} PoliteIsGood(events: seq<Event>)
    requires AllOk(events) && Polite(events)
    ensures Good(Run(START, events))
  {
    if events != [] {
      var n := |events| - 1;
      Before(events);
      assert forall k :: 0 <= k <= n ==> events[..n][..k] == events[..k];
      assert forall k :: 0 <= k < n && Charges(events[..n][k]) ==> Unasked(events, k);
      PoliteIsGood(events[..n]);
      assert Charges(events[n]) ==> Unasked(events, n);
      AskingIsUnanswered(LogOf(events[..n]));
      PassIsGood(Run(START, events[..n]), events[n]);
    }
  }

  /** In a run where the vending machine waits for its answers, every accepted request is deducted,
      once, with its own amount, unless it is for nothing; none is refused or cancelled; and somebody
      waits for every deduction. */
  lemma PoliteIsServed(events: seq<Event>)
    requires AllOk(events) && Polite(events)
    ensures Mannered(LogOf(events))
    ensures var s := Run(START, events); (s.flag ==> !s.noWait) && (s.posMail ==> s.flag)
  {
    PoliteIsGood(events);
  }

  lemma PolitePrefix(events: seq<Event>, more: seq<Event>)
    requires AllOk(events + more) && Polite(events + more)
    ensures AllOk(events) && Polite(events)
  {
    var all := events + more;
    assert forall k :: 0 <= k < |events| ==> events[k] == all[k];
    forall k | 0 <= k < |events| && Charges(events[k])
      ensures Unasked(events, k)
    {
      assert Unasked(all, k) && events[..k] == all[..k];
    }
  }

  /** There, once the reader's loop comes round, an accepted request is answered within eight passes
      of the vending machine's loop. */
  lemma PoliteIsAnswered(events: seq<Event>, pass: Event, more: seq<Event>)
    requires AllOk(events) && AllOk(events + [pass] + more) && Polite(events + [pass] + more)
    requires pass.Pos? && VtsPasses(more) >= 8
    requires var last := Last(LogOf(events)); last.Some? && last.value.Asked? && last.value.amount != 0
    ensures var log := LogOf(events + [pass] + more);
      exists n :: |LogOf(events)| <= n < |log| && Answers(log[n])
  {
    var all := events + [pass] + more;
    PolitePrefix(events + [pass], more);
    PolitePrefix(events, [pass]);
    PoliteIsGood(events);
    RunAppend(events, [pass]);
    assert events + [pass][..0] == events;
    PassIsGood(Run(START, events), pass);
    PassExtends(Run(START, events), pass);
    EndsWithinEight(events + [pass], more);
    PoliteIsGood(all);
    var log := LogOf(all);
    var n :| |LogOf(events + [pass])| <= n < |log| && Ends(log[n]);
    assert InOrder(log, n);
  }
}
