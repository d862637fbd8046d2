/**
 What the invariant of Payment means, position by position in the log of any run: what is reported
 paid, what is deducted, and who waits for it. Where a property of the payment can fail, the exact
 condition is proved; that it does fail is shown in PaymentFailures.
 */
module PaymentSafety {
  import opened Payment
  import opened Wrappers

  function LogOf(events: seq<Event>): seq<Act>
    requires AllOk(events)
  {
    Run(START, events).log
  }

  // ---- a sound log with the summaries of all its prefixes ----

  predicate Moves(log: seq<Act>, hs: seq<Summary>, i: nat)
    requires i < |log| < |hs|
  {
    Right(hs[i], log[i]) && hs[i + 1] == Note(hs[i], log[i])
  }

  predicate History(log: seq<Act>, hs: seq<Summary>) {
    |hs| == |log| + 1 && hs[0] == NOTHING && forall i :: 0 <= i < |log| ==> Moves(log, hs, i)
  }

  /** Every act of a sound log is right after what comes before it. */
  lemma {:induction false} ActIsRight(log: seq<Act>, i: nat)
    requires i < |log| && Sound(log)
    ensures Right(Sum(log[..i]), log[i]) && Sum(log[..i + 1]) == Note(Sum(log[..i]), log[i])
    decreases |log|
  {
    var n := |log| - 1;
    if i == n {
      assert log[..i + 1] == log;
    } else {
      ActIsRight(log[..n], i);
      assert log[..n][..i] == log[..i] && log[..n][..i + 1] == log[..i + 1];
    }
  }

  lemma Trace(log: seq<Act>) returns (hs: seq<Summary>)
    requires Sound(log)
    ensures History(log, hs) && forall i :: 0 <= i <= |log| ==> hs[i] == Sum(log[..i])
  {
    hs := seq(|log| + 1, i requires 0 <= i <= |log| => Sum(log[..i]));
    forall i | 0 <= i < |log|
      ensures Moves(log, hs, i)
    {
      ActIsRight(log, i);
    }
  }

  /** The log of a run with its summaries, the last of which agrees with the variables. */
  lemma RunTrace(events: seq<Event>) returns (log: seq<Act>, hs: seq<Summary>)
    requires AllOk(events)
    ensures log == LogOf(events) && History(log, hs) && Agrees(Run(START, events), hs[|log|])
    ensures forall i :: 0 <= i <= |log| ==> hs[i] == Sum(log[..i])
  {
    RunKeeps(events);
    log := LogOf(events);
    hs := Trace(log);
    assert log[..|log|] == log;
  }

  // ---- nothing is lost ----

  /** Every accepted request is ignored, deducted, cancels something, or is still in the mailbox.
      Every deduction is reported paid, reported failed, cancelled, or is running. Every accepted
      reply is reported or is still there. */
  predicate Balanced(h: Summary) {
    && h.asked == h.ignored + h.deducted + h.cancelled + (if h.mail then 1 else 0)
    && h.deducted == h.oks + h.timeouts + h.cancelled + (if h.phase.Running() then 1 else 0)
    && h.accepted == h.oks + (if h.phase.Stored() then 1 else 0)
  }

  lemma StaysBalanced(h: Summary, a: Act)
    requires Balanced(h) && Right(h, a)
    ensures Balanced(Note(h, a))
  {
  }

  lemma {:induction false} AlwaysBalanced(log: seq<Act>, hs: seq<Summary>, i: nat)
    requires History(log, hs) && i <= |log|
    ensures Balanced(hs[i])
  {
    if i > 0 {
      AlwaysBalanced(log, hs, i - 1);
      assert Moves(log, hs, i - 1);
      StaysBalanced(hs[i - 1], log[i - 1]);
    }
  }

  /** In every reachable state the shared variables account for all requests and all deductions. */
  lemma Conservation(events: seq<Event>)
    requires AllOk(events)
    ensures var s := Run(START, events);
      var h := Sum(s.log);
      && h.asked == h.ignored + h.deducted + h.cancelled + (if s.vtsMail then 1 else 0)
      && h.deducted == h.oks + h.timeouts + h.cancelled + (if s.flag then 1 else 0)
      && h.accepted == h.oks + (if s.posMail then 1 else 0)
  {
    var log, hs := RunTrace(events);
    AlwaysBalanced(log, hs, |log|);
    assert log[..|log|] == log;
  }

  // ---- what is deducted ----

  predicate Takes(a: Act) {
    a.Ignored? || a.Deducted? || a.Cancelled?
  }

  /** Before `i`, the request accepted at `a` is the one in the mailbox. */
  predicate Pending(log: seq<Act>, a: nat, i: nat)
    requires i <= |log|
  {
    a < i && log[a].Asked? && forall n :: a < n < i ==> !log[n].Asked? && !Takes(log[n])
  }

  predicate Requests(a: Act) {
    a.Asked? || a.Refused?
  }

  /** Before `i`, the request at `r` is the latest one, refused or not, and no failure was reported
      since. */
  predicate Latest(log: seq<Act>, r: nat, i: nat)
    requires i <= |log|
  {
    r < i && Requests(log[r]) && forall n :: r < n < i ==> !Requests(log[n]) && !log[n].CwTimeout?
  }

  lemma {:induction false} MailIsPending(log: seq<Act>, hs: seq<Summary>, i: nat) returns (a: nat)
    requires History(log, hs) && i <= |log| && hs[i].mail
    ensures Pending(log, a, i)
  {
    assert Moves(log, hs, i - 1);
    if log[i - 1].Asked? {
      a := i - 1;
    } else {
      a := MailIsPending(log, hs, i - 1);
    }
  }

  lemma {:induction false} DueIsLatest(log: seq<Act>, hs: seq<Summary>, a: nat, i: nat) returns (r: nat)
    requires History(log, hs) && i <= |log| && hs[i].due != 0 && Pending(log, a, i)
    ensures a <= r && Latest(log, r, i) && log[r].amount == hs[i].due
  {
    assert Moves(log, hs, i - 1);
    if Requests(log[i - 1]) {
      r := i - 1;
    } else {
      r := DueIsLatest(log, hs, a, i - 1);
    }
  }

  /** The request at `n` was refused while the one at `a` was in the mailbox, and was the latest such
      before `i`. */
  predicate LastRefused(log: seq<Act>, a: nat, n: nat, i: nat)
    requires i <= |log|
  {
    a < n < i && log[n].Refused? && forall k :: n < k < i ==> !log[k].Refused?
  }

  lemma {:induction false} DueIsSmall(log: seq<Act>, hs: seq<Summary>, i: nat)
    requires History(log, hs) && i <= |log|
    ensures hs[i].due <= 90909
  {
    if i > 0 {
      assert Moves(log, hs, i - 1);
      DueIsSmall(log, hs, i - 1);
    }
  }

  lemma {:induction false} TakenOnce(log: seq<Act>, a: nat, i: nat, j: nat)
    requires j < i < |log| && log[j].Deducted? && Pending(log, a, i)
    ensures !Pending(log, a, j)
  {
    assert Takes(log[j]);
  }

  /** Every deduction is of one accepted request, the one in the mailbox, and no earlier deduction is
      of the same. Its number is its position, in 16 bits. It takes the amount of that request if and
      only if the latest request refused in between, if there is one, was for the same amount. */
  lemma DeductionServes(events: seq<Event>, i: nat) returns (a: nat)
    requires AllOk(events) && i < |LogOf(events)| && LogOf(events)[i].Deducted?
    ensures Pending(LogOf(events), a, i) && LogOf(events)[i].seqNo == SeqAt(Sum(LogOf(events)[..i]).deducted)
    ensures forall j :: 0 <= j < i && LogOf(events)[j].Deducted? ==> !Pending(LogOf(events), a, j)
    ensures LogOf(events)[i].money == LogOf(events)[a].amount * 10 <==>
      forall n: nat :: LastRefused(LogOf(events), a, n, i) ==> LogOf(events)[n].amount == LogOf(events)[a].amount
  {
    var log, hs := RunTrace(events);
    assert Moves(log, hs, i);
    a := MailIsPending(log, hs, i);
    forall j | 0 <= j < i && log[j].Deducted?
      ensures !Pending(log, a, j)
    {
      TakenOnce(log, a, i, j);
    }
    DueIsSmall(log, hs, i);
    AmountDeducted(log, hs, a, i);
  }

  lemma AmountDeducted(log: seq<Act>, hs: seq<Summary>, a: nat, i: nat)
    requires History(log, hs) && i < |log| && Pending(log, a, i)
    requires log[i].Deducted? && hs[i].due != 0 && hs[i].due <= 90909 && log[i].money == Fen(hs[i].due)
    ensures log[i].money == log[a].amount * 10 <==>
      forall n: nat :: LastRefused(log, a, n, i) ==> log[n].amount == log[a].amount
  {
    var r := DueIsLatest(log, hs, a, i);
    if r != a {
      assert LastRefused(log, a, r, i);
    }
  }

  // ---- who waits ----

  /** Before `i`, the report of failure at `t` is later than every accepted request. */
  predicate GaveUp(log: seq<Act>, t: nat, i: nat)
    requires i <= |log|
  {
    t < i && log[t].CwTimeout? && forall n :: t < n < i ==> !log[n].CwTimeout? && !log[n].Asked?
  }

  lemma {:induction false} NoWaitGaveUp(log: seq<Act>, hs: seq<Summary>, i: nat) returns (t: nat)
    requires History(log, hs) && i <= |log| && hs[i].noWait
    ensures GaveUp(log, t, i)
  {
    assert Moves(log, hs, i - 1);
    if log[i - 1].CwTimeout? {
      t := i - 1;
    } else {
      t := NoWaitGaveUp(log, hs, i - 1);
    }
  }

  lemma {:induction false} GaveUpNoWait(log: seq<Act>, hs: seq<Summary>, t: nat, i: nat)
    requires History(log, hs) && i <= |log| && GaveUp(log, t, i)
    ensures hs[i].noWait
  {
    assert Moves(log, hs, i - 1);
    if t < i - 1 {
      GaveUpNoWait(log, hs, t, i - 1);
    }
  }

  /** Nobody waits exactly if the latest of accepted requests and reports of failure is a report. */
  lemma NobodyWaitsExactly(events: seq<Event>)
    requires AllOk(events)
    ensures Run(START, events).noWait <==> exists t: nat :: GaveUp(LogOf(events), t, |LogOf(events)|)
  {
    var log, hs := RunTrace(events);
    if hs[|log|].noWait {
      var t := NoWaitGaveUp(log, hs, |log|);
    }
    if t: nat :| GaveUp(log, t, |log|) {
      GaveUpNoWait(log, hs, t, |log|);
    }
  }

  /** The request accepted at `a` was in the mailbox when failure was reported at `t`, none was
      accepted since, and one refused at `r` was deducted at `d`. */
  predicate Unattended(log: seq<Act>, a: nat, t: nat, r: nat, d: nat, i: nat)
    requires i <= |log|
  {
    && a < t < r < d < i && Pending(log, a, t) && GaveUp(log, t, i)
    && log[r].Refused? && log[d].Deducted? && log[d].money == Fen(log[r].amount)
  }

  lemma {:induction false} MailSince(log: seq<Act>, hs: seq<Summary>, t: nat, i: nat)
    requires History(log, hs) && i <= |log| && hs[i].mail && GaveUp(log, t, i)
    ensures hs[t].mail
  {
    assert Moves(log, hs, i - 1);
    if t < i - 1 {
      MailSince(log, hs, t, i - 1);
    }
  }

  lemma {:induction false} DueSince(log: seq<Act>, hs: seq<Summary>, t: nat, i: nat) returns (r: nat)
    requires History(log, hs) && i <= |log| && hs[i].due != 0 && GaveUp(log, t, i)
    ensures t < r < i && log[r].Refused? && log[r].amount == hs[i].due
  {
    assert Moves(log, hs, i - 1);
    if log[i - 1].Refused? {
      r := i - 1;
    } else {
      r := DueSince(log, hs, t, i - 1);
    }
  }

  lemma {:induction false} RunsAlone(log: seq<Act>, hs: seq<Summary>, i: nat)
    returns (a: nat, t: nat, r: nat, d: nat)
    requires History(log, hs) && i <= |log| && hs[i].noWait && hs[i].phase.Running()
    ensures Unattended(log, a, t, r, d, i)
  {
    assert Moves(log, hs, i - 1);
    if log[i - 1].Deducted? {
      d := i - 1;
      t := NoWaitGaveUp(log, hs, d);
      MailSince(log, hs, t, d);
      r := DueSince(log, hs, t, d);
      a := MailIsPending(log, hs, t);
    } else {
      a, t, r, d := RunsAlone(log, hs, i - 1);
    }
  }

  /** Once nobody waits for it, a deduction stays. */
  lemma {:induction false} StaysAlone(log: seq<Act>, hs: seq<Summary>, t: nat, d: nat, i: nat)
    requires History(log, hs) && i <= |log| && GaveUp(log, t, i) && t < d < i && log[d].Deducted?
    ensures hs[i].phase.Running() && !hs[i].mail
  {
    assert Moves(log, hs, i - 1);
    GaveUpNoWait(log, hs, t, i - 1);
    if d < i - 1 {
      StaysAlone(log, hs, t, d, i - 1);
    }
  }

  /** A deduction runs and nobody waits for its result, if and only if a request was in the mailbox
      when failure was last reported, none was accepted since, and one refused since was deducted. */
  lemma UnattendedExactly(events: seq<Event>)
    requires AllOk(events)
    ensures var s := Run(START, events);
      s.flag && s.noWait <==> exists a: nat, t: nat, r: nat, d: nat :: Unattended(s.log, a, t, r, d, |s.log|)
  {
    var log, hs := RunTrace(events);
    if hs[|log|].noWait && hs[|log|].phase.Running() {
      var a, t, r, d := RunsAlone(log, hs, |log|);
    }
    if a: nat, t: nat, r: nat, d: nat :| Unattended(log, a, t, r, d, |log|) {
      GaveUpNoWait(log, hs, t, |log|);
      StaysAlone(log, hs, t, d, |log|);
    }
  }

  // ---- what is reported paid ----

  /** Before `i`, the reply accepted at `j` is the one in the mailbox. */
  predicate Holds(log: seq<Act>, j: nat, i: nat)
    requires i <= |log|
  {
    j < i && log[j].Accepted? && forall n :: j < n < i ==> !log[n].Accepted? && !log[n].CwOk? && !log[n].CwTimeout?
  }

  /** The deduction at `k` is the one that runs before `i`. */
  predicate Runs(log: seq<Act>, k: nat, i: nat)
    requires i <= |log|
  {
    && k < i && log[k].Deducted?
    && forall n :: k < n < i ==> !log[n].Deducted? && !log[n].CwOk? && !log[n].CwTimeout? && !log[n].Cancelled?
  }

  /** A report at `i` answers the deduction at `k` with the reply at `j`. */
  predicate Explains(log: seq<Act>, k: nat, j: nat, i: nat)
    requires i <= |log|
  {
    k < j && Runs(log, k, i) && Holds(log, j, i) && log[j].seqNo == log[k].seqNo
  }

  predicate NoneCancelled(log: seq<Act>, j: nat, i: nat)
    requires i <= |log|
  {
    forall n :: j < n < i ==> !log[n].Cancelled?
  }

  lemma {:induction false} OpenDeduction(log: seq<Act>, hs: seq<Summary>, i: nat) returns (k: nat)
    requires History(log, hs) && i <= |log| && hs[i].phase.Waiting?
    ensures Runs(log, k, i) && log[k].seqNo == hs[i].phase.seqNo
  {
    assert Moves(log, hs, i - 1);
    if log[i - 1].Deducted? {
      k := i - 1;
    } else {
      k := OpenDeduction(log, hs, i - 1);
    }
  }

  lemma {:induction false} StoredIsHeld(log: seq<Act>, hs: seq<Summary>, i: nat) returns (j: nat)
    requires History(log, hs) && i <= |log| && hs[i].phase.Stored()
    ensures Holds(log, j, i) && (hs[i].phase.Paid? <==> NoneCancelled(log, j, i))
  {
    assert Moves(log, hs, i - 1);
    if log[i - 1].Accepted? {
      j := i - 1;
    } else {
      j := StoredIsHeld(log, hs, i - 1);
      assert NoneCancelled(log, j, i) <==> NoneCancelled(log, j, i - 1) && !log[i - 1].Cancelled?;
    }
  }

  lemma {:induction false} HeldIsStored(log: seq<Act>, hs: seq<Summary>, j: nat, i: nat)
    requires History(log, hs) && i <= |log| && Holds(log, j, i)
    ensures hs[i].phase.Stored()
  {
    assert Moves(log, hs, i - 1);
    if j < i - 1 {
      HeldIsStored(log, hs, j, i - 1);
    }
  }

  lemma {:induction false} PaidIsExplained(log: seq<Act>, hs: seq<Summary>, j: nat, i: nat) returns (k: nat)
    requires History(log, hs) && i <= |log| && hs[i].phase.Paid? && Holds(log, j, i)
    ensures Explains(log, k, j, i)
  {
    assert Moves(log, hs, i - 1);
    if log[i - 1].Accepted? {
      k := OpenDeduction(log, hs, i - 1);
    } else {
      k := PaidIsExplained(log, hs, j, i - 1);
    }
  }

  /** Every report of success uses up a reply accepted before it. It is the reply to the deduction
      that is reported, if and only if nothing was cancelled since it was accepted. */
  lemma OkIsPaidExactly(events: seq<Event>, i: nat) returns (j: nat)
    requires AllOk(events) && i < |LogOf(events)| && LogOf(events)[i] == CwOk
    ensures Holds(LogOf(events), j, i)
    ensures (exists k: nat :: Explains(LogOf(events), k, j, i)) <==> NoneCancelled(LogOf(events), j, i)
  {
    var log, hs := RunTrace(events);
    assert Moves(log, hs, i);
    j := StoredIsHeld(log, hs, i);
    if NoneCancelled(log, j, i) {
      var k := PaidIsExplained(log, hs, j, i);
    }
    if k: nat :| Explains(log, k, j, i) {
      assert Runs(log, k, i);
    }
  }

  lemma {:induction false} RunningDeduction(log: seq<Act>, hs: seq<Summary>, i: nat) returns (k: nat)
    requires History(log, hs) && i <= |log| && hs[i].phase.Running()
    ensures Runs(log, k, i)
  {
    assert Moves(log, hs, i - 1);
    if log[i - 1].Deducted? {
      k := i - 1;
    } else {
      k := RunningDeduction(log, hs, i - 1);
    }
  }

  /** Every report of success is of one deduction, the one that runs. */
  lemma OkIsOfDeduction(events: seq<Event>, i: nat) returns (k: nat)
    requires AllOk(events) && i < |LogOf(events)| && LogOf(events)[i] == CwOk
    ensures Runs(LogOf(events), k, i)
  {
    var log, hs := RunTrace(events);
    assert Moves(log, hs, i);
    k := RunningDeduction(log, hs, i);
  }

  /** Two reports of success are of two deductions, the later one sent after the earlier report, and
      have two replies behind them. */
  lemma OksAreDistinct(events: seq<Event>, i: nat, i': nat) returns (k: nat, j: nat, k': nat, j': nat)
    requires AllOk(events) && i < i' < |LogOf(events)|
    requires LogOf(events)[i] == CwOk && LogOf(events)[i'] == CwOk
    ensures k < i < k' < i' && Runs(LogOf(events), k, i) && Runs(LogOf(events), k', i')
    ensures j < i < j' < i' && Holds(LogOf(events), j, i) && Holds(LogOf(events), j', i')
  {
    j := OkIsPaidExactly(events, i);
    j' := OkIsPaidExactly(events, i');
    k := OkIsOfDeduction(events, i);
    k' := OkIsOfDeduction(events, i');
  }

  /** The cancellation at `c` left the reply at `j` behind, and no deduction was sent since. */
  predicate LeftBehind(log: seq<Act>, j: nat, c: nat, i: nat)
    requires i <= |log|
  {
    c < i && log[c].Cancelled? && Holds(log, j, c) && forall n :: c < n < i ==> !log[n].Deducted? && !log[n].Cancelled?
  }

  lemma {:induction false} LeftIsLeftBehind(log: seq<Act>, hs: seq<Summary>, i: nat) returns (j: nat, c: nat)
    requires History(log, hs) && i <= |log| && hs[i].phase.Left?
    ensures LeftBehind(log, j, c, i)
  {
    assert Moves(log, hs, i - 1);
    if log[i - 1].Cancelled? {
      c := i - 1;
      j := StoredIsHeld(log, hs, c);
    } else {
      j, c := LeftIsLeftBehind(log, hs, i - 1);
    }
  }

  lemma {:induction false} LeftStays(log: seq<Act>, hs: seq<Summary>, j: nat, c: nat, i: nat)
    requires History(log, hs) && i <= |log| && LeftBehind(log, j, c, i)
    ensures hs[i].phase.Left?
  {
    assert Moves(log, hs, i - 1);
    if c == i - 1 {
      HeldIsStored(log, hs, j, c);
    } else {
      LeftStays(log, hs, j, c, i - 1);
    }
  }

  /** A reply is in the mailbox and nothing runs, if and only if a deduction was cancelled while its
      reply was in the mailbox, and none was sent since. */
  lemma ReplyIsLeftExactly(events: seq<Event>)
    requires AllOk(events)
    ensures var s := Run(START, events);
      s.posMail && !s.flag <==> exists j: nat, c: nat :: LeftBehind(s.log, j, c, |s.log|)
  {
    var log, hs := RunTrace(events);
    if hs[|log|].phase.Left? {
      var j, c := LeftIsLeftBehind(log, hs, |log|);
    }
    if j: nat, c: nat :| LeftBehind(log, j, c, |log|) {
      LeftStays(log, hs, j, c, |log|);
    }
  }

  // ---- charges for something ----

  /** Nothing is charged for 0. */
  predicate AllPositive(events: seq<Event>) {
    forall k :: 0 <= k < |events| ==> Positive(events[k])
  }

  predicate Positive(e: Event) {
    e.Vts? && e.command.Cw? ==> e.command.amount != 0
  }

  /** No request in the log is for 0. */
  predicate Amounts(log: seq<Act>) {
    forall n :: 0 <= n < |log| && Requests(log[n]) ==> log[n].amount != 0
  }

  lemma VtsAmounts(s: State, c: Command)
    requires Amounts(s.log) && (c.Cw? ==> c.amount != 0)
    ensures Amounts(VtsStep(s, c).log)
  {
    assert Amounts(Poll(s).log);
  }

  lemma RequestAmounts(s: State)
    requires Amounts(s.log)
    ensures Amounts(Request(s).log)
  {
  }

  lemma ReplyAmounts(s: State, reply: Option<Reply>)
    requires Amounts(s.log) && (reply.Some? ==> ReplyOk(reply.value))
    ensures Amounts(Receive(s, reply).log) && Amounts(Repeat(s).log)
  {
  }

  lemma PassAmounts(s: State, e: Event)
    requires Amounts(s.log) && EventOk(e) && Positive(e)
    ensures Amounts(Step(s, e).log)
  {
    match e
    case Vts(c) => VtsAmounts(s, c);
    case Pos(r) =>
      RequestAmounts(s);
      ReplyAmounts(Request(s), r);
      ReplyAmounts(Receive(Request(s), r), r);
  }

  /** What is in the log was charged. */
  lemma {:induction false} RunAmounts(events: seq<Event>)
    requires AllOk(events) && AllPositive(events)
    ensures Amounts(LogOf(events))
  {
    if events != [] {
      var n := |events| - 1;
      Before(events);
      assert forall k :: 0 <= k < n ==> events[..n][k] == events[k];
      RunAmounts(events[..n]);
      assert Positive(events[n]);
      PassAmounts(Run(START, events[..n]), events[n]);
    }
  }

  /** A request that waits while a deduction runs is for something. */
  lemma {:induction false} NeverForNothing(log: seq<Act>, hs: seq<Summary>, i: nat)
    requires History(log, hs) && Amounts(log) && i <= |log|
    ensures hs[i].mail && hs[i].phase.Running() ==> hs[i].due != 0
  {
    if i > 0 {
      assert Moves(log, hs, i - 1);
      NeverForNothing(log, hs, i - 1);
    }
  }

  /** If nothing is charged for 0, whether requests are refused or not, no deduction is cancelled, and
      a reply in the mailbox means that a deduction runs. */
  lemma NothingIsCancelled(events: seq<Event>)
    requires AllOk(events) && AllPositive(events)
    ensures forall n :: 0 <= n < |LogOf(events)| ==> !LogOf(events)[n].Cancelled?
    ensures Run(START, events).posMail ==> Run(START, events).flag
  {
    var log, hs := RunTrace(events);
    RunAmounts(events);
    forall n | 0 <= n < |log|
      ensures !log[n].Cancelled?
    {
      assert Moves(log, hs, n);
      NeverForNothing(log, hs, n);
    }
    ReplyIsLeftExactly(events);
  }

  /** And every report of success has the reply to the deduction that was sent last. */
  lemma OkIsPaid(events: seq<Event>, i: nat) returns (k: nat, j: nat)
    requires AllOk(events) && AllPositive(events)
    requires i < |LogOf(events)| && LogOf(events)[i] == CwOk
    ensures Explains(LogOf(events), k, j, i)
  {
    NothingIsCancelled(events);
    j := OkIsPaidExactly(events, i);
    k :| Explains(LogOf(events), k, j, i);
  }

  // ---- all that goes wrong needs a refused request ----

  predicate NoneRefused(log: seq<Act>) {
    forall n :: 0 <= n < |log| ==> !log[n].Refused?
  }

  lemma {:induction false} NeverAlone(log: seq<Act>, hs: seq<Summary>, i: nat)
    requires History(log, hs) && NoneRefused(log) && i <= |log|
    ensures !hs[i].alone && !(hs[i].noWait && hs[i].phase.Running())
  {
    if hs[i].noWait && hs[i].phase.Running() {
      var a, t, r, d := RunsAlone(log, hs, i);
    }
    if i > 0 {
      assert Moves(log, hs, i - 1);
      NeverAlone(log, hs, i - 1);
    }
  }

  /** As long as no request is refused, somebody waits for every deduction and no reply is left
      behind. */
  lemma RightUnlessRefused(events: seq<Event>)
    requires AllOk(events) && NoneRefused(LogOf(events))
    ensures var s := Run(START, events); !(s.flag && s.noWait) && (s.posMail ==> s.flag)
  {
    var log, hs := RunTrace(events);
    NeverAlone(log, hs, |log|);
  }

  /** As long as no request is refused, every report of success has the reply to its own deduction. */
  lemma OkIsPaidUnlessRefused(events: seq<Event>, i: nat) returns (k: nat, j: nat)
    requires AllOk(events) && NoneRefused(LogOf(events))
    requires i < |LogOf(events)| && LogOf(events)[i] == CwOk
    ensures Explains(LogOf(events), k, j, i)
  {
    var log, hs := RunTrace(events);
    j := OkIsPaidExactly(events, i);
    forall n | j < n < i
      ensures !log[n].Cancelled?
    {
      assert Moves(log, hs, n);
      NeverAlone(log, hs, n);
      HeldIsStored(log, hs, j, n);
    }
    k :| Explains(log, k, j, i);
  }

  /** As long as no request is refused, every deduction takes the amount of the request it is of. */
  lemma DeductedAsAsked(events: seq<Event>, i: nat) returns (a: nat)
    requires AllOk(events) && NoneRefused(LogOf(events))
    requires i < |LogOf(events)| && LogOf(events)[i].Deducted?
    ensures Pending(LogOf(events), a, i) && LogOf(events)[i].money == LogOf(events)[a].amount * 10
  {
    a := DeductionServes(events, i);
  }
}
