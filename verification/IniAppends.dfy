/**
 What `write_profile_string` does to the other keys, of any section, when the section it writes to is
 not there: a new one is put at the end of the text.
 */
module IniAppends {
  import opened Bytes
  import opened IniFile
  import opened IniOthers
  import opened IniInserts

  /** `q` goes on behind `p` with a line feed and a bracket. */
  predicate Goes(p: seq<byte>, q: seq<byte>) {
    && Agree(p, q, |p|) && |p| + 1 < |q| && q[|p|] == LF && q[|p| + 1] == LBRACKET && NulFree(p) && NulFree(q)
  }

  /** A line of `p`, of which the last one may lack its line feed. */
  lemma LineStays(p: seq<byte>, q: seq<byte>, i: nat, key: seq<byte>)
    requires Goes(p, q) && i < |p|
    ensures LineEnd(q, i) == LineEnd(p, i) && HasKey(q, key, i) == HasKey(p, key, i)
    ensures EqualsAt(q, i, LineEnd(p, i)) == EqualsAt(p, i, LineEnd(p, i))
  {
    var e := LineEnd(p, i);
    NoNewlineBefore(p, i);
    assert forall k :: i <= k < e ==> q[k] == p[k];
    assert e < |p| ==> q[e] == p[e];
    LineEndIs(q, i, e);
    EqualsSame(p, q, |p|, i, e);
    MatchesAgrees(key, p, q, |p|, i, EqualsAt(p, i, e));
  }

  lemma FoundStays(p: seq<byte>, q: seq<byte>, away: seq<byte>, other: seq<byte>, i: nat, sec: Found, sec': Found)
    requires Goes(p, q) && 0 < i < |p| && sec.Section? && sec'.Section? && !SectionEnds(p, i) && HasKey(p, other, i)
    ensures Lines(p, away, other, i, sec).Key?
    ensures SameValue(p, Lines(p, away, other, i, sec), q, Lines(q, away, other, i, sec'))
  {
    LineStays(p, q, i, other);
    assert At(q, i) == At(p, i) && At(q, i - 1) == At(p, i - 1);
    StopsAt(p, away, other, i, sec);
    StopsAt(q, away, other, i, sec');
    SliceStays(p, q, EqualsAt(p, i, LineEnd(p, i)) + 1, LineEnd(p, i));
  }

  lemma SliceStays(p: seq<byte>, q: seq<byte>, s: nat, e: nat)
    requires Agree(p, q, |p|) && s <= e <= |p|
    ensures p[s..e] == q[s..e]
  {
  }

  lemma NextStays(p: seq<byte>, q: seq<byte>, away: seq<byte>, other: seq<byte>, i: nat, a: Mode, a': Mode)
    requires Goes(p, q) && 0 < i < |p| && a.Fits(i) && a'.Fits(i) && a.Outer? == a'.Outer? && !SectionEnds(p, i)
    requires a.Inner? ==> !HasKey(p, other, i)
    ensures var e := LineEnd(p, i);
      && Resume(p, away, other, i, a) == Resume(p, away, other, e + 1, a)
      && Resume(q, away, other, i, a') == Resume(q, away, other, e + 1, a')
  {
    LineStays(p, q, i, other);
    assert At(q, i) == At(p, i) && At(q, i - 1) == At(p, i - 1);
    NextLine(p, away, other, i, a);
    NextLine(q, away, other, i, a');
  }

  /** At the end of `p` the scan of `q` comes to the new header in the outer loop. */
  lemma AtTheEnd(p: seq<byte>, q: seq<byte>, away: seq<byte>, other: seq<byte>, i: nat, a: Mode, a': Mode) returns (last: Found)
    requires Goes(p, q) && |p| <= i <= |p| + 1 && a.Fits(i) && a'.Fits(i)
    ensures !Resume(p, away, other, i, a).Key? && !last.Key?
    ensures Resume(q, away, other, i, a') == Scan(q, away, other, |p| + 1, last)
  {
    var n := |p|;
    last := if a'.Outer? then a'.last else a'.sec;
    if i > 0 {
      GoesOut(p, away, other, i, a);
    }
    if i == n {
      if a'.Outer? {
        PassesByte(q, away, other, n, last);
      } else {
        assert LineEnd(q, n) == n;
        NextLine(q, away, other, n, a');
      }
    }
    if a'.Inner? {
      GoesOut(q, away, other, n + 1, a');
    }
  }

  /** A closed header of `p`. Trailing spaces run on into the new line feed. */
  lemma HeaderStays(p: seq<byte>, q: seq<byte>, away: seq<byte>, other: seq<byte>, i: nat, last: Found, last': Found)
    requires Goes(p, q) && i < |p| && IsHeader(p, i) && Bracket(p, i + 1) < |p| && !last.Key? && !last'.Key?
    ensures IsHeader(q, i) && Body(p, i) <= |p| && Body(q, i) == if Body(p, i) == |p| then |p| + 1 else Body(p, i)
    ensures Behind(p, away, i, last).Fits(Body(p, i)) && Behind(q, away, i, last').Fits(Body(q, i))
    ensures Behind(p, away, i, last).Outer? == Behind(q, away, i, last').Outer?
    ensures Scan(p, away, other, i, last) == Resume(p, away, other, Body(p, i), Behind(p, away, i, last))
    ensures Scan(q, away, other, i, last') == Resume(q, away, other, Body(q, i), Behind(q, away, i, last'))
  {
    HeaderShape(p, q, away, i);
    EntersHeader(p, away, other, i, last);
    EntersHeader(q, away, other, i, last');
  }

  lemma HeaderShape(p: seq<byte>, q: seq<byte>, away: seq<byte>, i: nat)
    requires Goes(p, q) && i < |p| && IsHeader(p, i) && Bracket(p, i + 1) < |p|
    ensures IsHeader(q, i) && Body(p, i) <= |p| && Body(q, i) == if Body(p, i) == |p| then |p| + 1 else Body(p, i)
    ensures Matches(away, q, i + 1, Bracket(q, i + 1)) == Matches(away, p, i + 1, Bracket(p, i + 1))
  {
    HeaderAgrees(p, q, |p|, i, away);
    BodyStays(p, q, Bracket(p, i + 1) + 1);
  }

  lemma {:induction false} BodyStays(p: seq<byte>, q: seq<byte>, i: nat)
    requires Goes(p, q) && i <= |p|
    ensures SpacesEnd(p, i) <= |p| && SpacesEnd(q, i) == if SpacesEnd(p, i) == |p| then |p| + 1 else SpacesEnd(p, i)
    decreases |p| - i
  {
    if i == |p| {
      assert SpacesEnd(q, i + 1) == i + 1;
    } else if IsSpace(p[i]) {
      BodyStays(p, q, i + 1);
    }
  }

  /** What is found in `p` is found in `q`; else the scan of `q` comes to the new header. */
  ghost predicate Stays(p: seq<byte>, g: Found, q: seq<byte>, g': Found, away: seq<byte>, other: seq<byte>, last: Found)
    requires NulFree(q)
  {
    if g.Key? then SameValue(p, g, q, g') else !last.Key? && g' == Scan(q, away, other, |p| + 1, last)
  }

  /** A closed text, and anything that starts with a line feed and a header behind it. */
  lemma {:induction false} ResumesClosed(p: seq<byte>, q: seq<byte>, away: seq<byte>, other: seq<byte>, i: nat, a: Mode, a': Mode)
    returns (last: Found)
    requires Goes(p, q) && Closed(p) && i <= |p| + 1 && a.Fits(i) && a'.Fits(i) && a.Outer? == a'.Outer?
    ensures Stays(p, Resume(p, away, other, i, a), q, Resume(q, away, other, i, a'), away, other, last)
    decreases |p| + 1 - i, if a.Outer? then 0 else 1
  {
    last := Nothing;
    if i >= |p| {
      last := AtTheEnd(p, q, away, other, i, a, a');
    } else if a.Outer? {
      last := OuterClosed(p, q, away, other, i, a.last, a'.last);
    } else if SectionEnds(p, i) {
      assert At(q, i) == At(p, i) && At(q, i - 1) == At(p, i - 1);
      GoesOut(p, away, other, i, a);
      GoesOut(q, away, other, i, a');
      last := ResumesClosed(p, q, away, other, i, Out(a), Out(a'));
    } else if HasKey(p, other, i) {
      FoundStays(p, q, away, other, i, a.sec, a'.sec);
    } else {
      NextStays(p, q, away, other, i, a, a');
      last := ResumesClosed(p, q, away, other, LineEnd(p, i) + 1, a, a');
    }
  }

  lemma {:induction false} OuterClosed(p: seq<byte>, q: seq<byte>, away: seq<byte>, other: seq<byte>, i: nat, b: Found, b': Found)
    returns (last: Found)
    requires Goes(p, q) && Closed(p) && i < |p| && !b.Key? && !b'.Key?
    ensures Stays(p, Scan(p, away, other, i, b), q, Scan(q, away, other, i, b'), away, other, last)
    decreases |p| + 1 - i, 0, 0
  {
    if !IsHeader(p, i) {
      assert !IsHeader(q, i);
      PassesByte(p, away, other, i, b);
      PassesByte(q, away, other, i, b');
      last := ResumesClosed(p, q, away, other, i + 1, Outer(b), Outer(b'));
    } else {
      HeaderStays(p, q, away, other, i, b, b');
      if Body(p, i) == |p| {
        last := BodyAtTheEnd(p, q, away, other, Behind(p, away, i, b), Behind(q, away, i, b'));
      } else {
        last := ResumesClosed(p, q, away, other, Body(p, i), Behind(p, away, i, b), Behind(q, away, i, b'));
      }
    }
  }

  lemma BodyAtTheEnd(p: seq<byte>, q: seq<byte>, away: seq<byte>, other: seq<byte>, a: Mode, a': Mode) returns (last: Found)
    requires Goes(p, q) && p != [] && a.Fits(|p|) && a'.Fits(|p| + 1)
    ensures !Resume(p, away, other, |p|, a).Key? && !last.Key?
    ensures Resume(q, away, other, |p| + 1, a') == Scan(q, away, other, |p| + 1, last)
  {
    GoesOut(p, away, other, |p|, a);
    GoesOut(q, away, other, |p| + 1, a');
    last := if a'.Outer? then a'.last else a'.sec;
  }

  // ---- a header is not closed ----

  /** The header at `h` runs on over the new one, and no header is behind it. */
  predicate Swallows(p: seq<byte>, q: seq<byte>, h: nat, close: nat) {
    && Goes(p, q) && h < |p| && IsHeader(p, h) && Bracket(p, h + 1) == |p| < close < |q| && q[close] == RBRACKET
    && (forall k :: |p| <= k < close ==> q[k] != RBRACKET) && forall k :: close <= k < |q| ==> !IsHeader(q, k)
  }

  lemma {:induction false} ResumesUnclosed(p: seq<byte>, q: seq<byte>, away: seq<byte>, other: seq<byte>, i: nat, h: nat, close: nat, a: Mode, a': Mode)
    requires Swallows(p, q, h, close) && i <= h && a.Fits(i) && a'.Fits(i) && a.Outer? == a'.Outer? && LF !in away
    ensures SameValue(p, Resume(p, away, other, i, a), q, Resume(q, away, other, i, a'))
    decreases |p| - i, if a.Outer? then 0 else 1
  {
    if a.Outer? {
      OuterUnclosed(p, q, away, other, i, h, close, a.last, a'.last);
    } else if SectionEnds(p, i) {
      assert At(q, i) == At(p, i) && At(q, i - 1) == At(p, i - 1);
      GoesOut(p, away, other, i, a);
      GoesOut(q, away, other, i, a');
      ResumesUnclosed(p, q, away, other, i, h, close, Out(a), Out(a'));
    } else if HasKey(p, other, i) {
      FoundStays(p, q, away, other, i, a.sec, a'.sec);
    } else {
      NextStays(p, q, away, other, i, a, a');
      NoNewlineBefore(p, i);
      ResumesUnclosed(p, q, away, other, LineEnd(p, i) + 1, h, close, a, a');
    }
  }

  lemma {:induction false} OuterUnclosed(p: seq<byte>, q: seq<byte>, away: seq<byte>, other: seq<byte>, i: nat, h: nat, close: nat, b: Found, b': Found)
    requires Swallows(p, q, h, close) && i <= h && !b.Key? && !b'.Key? && LF !in away
    ensures SameValue(p, Scan(p, away, other, i, b), q, Scan(q, away, other, i, b'))
    decreases |p| - i, 0, 0
  {
    if !IsHeader(p, i) {
      assert !IsHeader(q, i);
      PassesByte(p, away, other, i, b);
      PassesByte(q, away, other, i, b');
      ResumesUnclosed(p, q, away, other, i + 1, h, close, Outer(b), Outer(b'));
    } else if Bracket(p, i + 1) == |p| {
      SwallowedIsNoKey(p, q, away, other, i, close, b, b');
    } else {
      BracketBehind(p, i + 1, h + 1);
      BodyInFront(p, Bracket(p, i + 1) + 1, h);
      HeaderStays(p, q, away, other, i, b, b');
      ResumesUnclosed(p, q, away, other, Body(p, i), h, close, Behind(p, away, i, b), Behind(q, away, i, b'));
    }
  }

  lemma {:induction false} BodyInFront(p: seq<byte>, i: nat, h: nat)
    requires i <= h < |p| && p[h] == LBRACKET
    ensures SpacesEnd(p, i) <= h
    decreases h - i
  {
    if i < h && IsSpace(p[i]) {
      BodyInFront(p, i + 1, h);
    }
  }

  /** An unclosed header: in `p` nothing is behind it, and in `q` its name runs over a line feed. */
  lemma SwallowedIsNoKey(p: seq<byte>, q: seq<byte>, away: seq<byte>, other: seq<byte>, i: nat, close: nat, b: Found, b': Found)
    requires Swallows(p, q, i, close) && !b.Key? && !b'.Key? && LF !in away
    ensures !Scan(p, away, other, i, b).Key? && !Scan(q, away, other, i, b').Key?
  {
    EntersHeader(p, away, other, i, b);
    GoesOut(p, away, other, Body(p, i), Behind(p, away, i, b));
    UnclosedBracket(p, q, i + 1, close);
    LongName(away, q, i + 1, close, |p|);
    PassesHeader(q, away, other, i, close, b');
    PassesTo(q, away, other, close, |q|, b');
  }

  lemma LongName(away: seq<byte>, q: seq<byte>, s: nat, e: nat, n: nat)
    requires s <= n < e <= |q| && q[n] == LF && LF !in away
    ensures !Matches(away, q, s, e)
  {
    assert q[s..e][n - s] == LF;
    assert e - s <= |away| ==> away[..e - s][n - s] == away[n - s];
  }

  // ---- the new section ----

  lemma NoHeadersBehind(q: seq<byte>, at: nat, section: seq<byte>, key: seq<byte>, value: seq<byte>)
    requires HeaderAt(q, at, section) && IsKey(key) && IsValue(value) && EntryAt(q, at + |section| + 3, key, value)
    requires |q| == at + |section| + 3 + |key| + |value| + 2
    ensures forall k :: at + 1 + |section| <= k < |q| ==> !IsHeader(q, k)
  {
    var body, line := at + |section| + 3, Entry(key, value);
    forall k | body <= k < |q|
      ensures q[k] == line[k - body]
    {
      assert q[k] == q[body..body + |line|][k - body];
    }
  }

  /** The scan at the new section, at the end of the text. */
  lemma NewSectionOthers(q: seq<byte>, at: nat, section: seq<byte>, key: seq<byte>, away: seq<byte>, other: seq<byte>, last: Found, value: seq<byte>)
    requires NulFree(q) && IsSection(section) && IsKey(key) && IsValue(value) && !last.Key?
    requires HeaderAt(q, at, section) && EntryAt(q, at + |section| + 3, key, value)
    requires |q| == at + |section| + 3 + |key| + |value| + 2
    ensures var g := Scan(q, away, other, at, last);
      if StartsWith(away, section) && StartsWith(other, key) then g.Key? && g.valueS + |value| == g.valueE <= |q| && q[g.valueS..g.valueE] == value
      else !g.Key?
  {
    var body, close := at + |section| + 3, at + 1 + |section|;
    EntryHolds(q, body, key, value);
    NewSectionHeader(q, at, section);
    if StartsWith(away, section) {
      EntersNew(q, away, other, at, close, last);
      EntryAtEnd(q, away, key, other, body, Section(at + 1, body), value);
    } else {
      NoHeadersBehind(q, at, section, key, value);
      PassesHeader(q, away, other, at, close, last);
      PassesTo(q, away, other, close, |q|, last);
    }
  }

  lemma EntryAtEnd(q: seq<byte>, section: seq<byte>, key: seq<byte>, other: seq<byte>, at: nat, sec: Found, value: seq<byte>)
    requires NulFree(q) && IsKey(key) && IsValue(value) && at > 0 && sec.Section?
    requires EntryAt(q, at, key, value) && |q| == at + |key| + |value| + 2
    ensures var g := Lines(q, section, other, at, sec);
      if StartsWith(other, key) then g.Key? && g.valueS + |value| == g.valueE <= |q| && q[g.valueS..g.valueE] == value
      else g == sec
  {
    if StartsWith(other, key) {
      EntryFound(q, section, key, other, at, sec, value);
    } else {
      EntryPassed(q, section, key, other, at, Inner(sec), value);
      LeavesSection(q, section, other, |q|, sec);
    }
  }

  // ---- the write ----

  lemma GoesIs(t: seq<byte>, q: seq<byte>, section: seq<byte>, key: seq<byte>, value: seq<byte>)
    requires NulFree(t) && NulFree(q) && q == t + ([LF] + NewSection(section, key, value))
    ensures Goes(t, q) && HeaderAt(q, |t| + 1, section) && EntryAt(q, |t| + |section| + 4, key, value)
    ensures |q| == |t| + |section| + |key| + |value| + 6
  {
    assert q == t + [LF] + NewSection(section, key, value);
    NewSectionBytes(t + [LF], q, section, key, value);
  }

  /** What another key finds behind a write that puts a new section at the end. */
  predicate AfterAppend(t: seq<byte>, g: Found, q: seq<byte>, g': Found, taken: bool, value: seq<byte>) {
    if g.Key? then SameValue(t, g, q, g')
    else if taken then g'.Key? && g'.valueS + |value| == g'.valueE <= |q| && q[g'.valueS..g'.valueE] == value
    else !g'.Key?
  }

  lemma AppendClosed(t: seq<byte>, q: seq<byte>, section: seq<byte>, key: seq<byte>, value: seq<byte>, away: seq<byte>, other: seq<byte>)
    requires NulFree(t) && NulFree(q) && IsSection(section) && IsKey(key) && IsValue(value) && Closed(t)
    requires q == t + ([LF] + NewSection(section, key, value))
    ensures AfterAppend(t, ParseFileSpec(t, away, other), q, ParseFileSpec(q, away, other),
      StartsWith(away, section) && StartsWith(other, key), value)
  {
    GoesIs(t, q, section, key, value);
    var last := ResumesClosed(t, q, away, other, 0, Outer(Nothing), Outer(Nothing));
    if !last.Key? {
      NewSectionOthers(q, |t| + 1, section, key, away, other, last, value);
    }
  }

  lemma AppendToNothing(q: seq<byte>, section: seq<byte>, key: seq<byte>, value: seq<byte>, away: seq<byte>, other: seq<byte>)
    requires NulFree(q) && IsSection(section) && IsKey(key) && IsValue(value) && q == [] + NewSection(section, key, value)
    ensures AfterAppend([], ParseFileSpec([], away, other), q, ParseFileSpec(q, away, other),
      StartsWith(away, section) && StartsWith(other, key), value)
  {
    NewSectionBytes([], q, section, key, value);
    NewSectionOthers(q, 0, section, key, away, other, Nothing, value);
  }

  lemma AppendUnclosed(t: seq<byte>, q: seq<byte>, section: seq<byte>, key: seq<byte>, value: seq<byte>, away: seq<byte>, other: seq<byte>)
    requires NulFree(t) && NulFree(q) && IsSection(section) && IsKey(key) && IsValue(value) && !Closed(t) && LF !in away
    requires q == t + ([LF] + NewSection(section, key, value))
    ensures SameValue(t, ParseFileSpec(t, away, other), q, ParseFileSpec(q, away, other))
  {
    GoesIs(t, q, section, key, value);
    AppendedBytes(t, q, section, key, value);
    var h :| 0 <= h < |t| && IsHeader(t, h) && !(Bracket(t, h + 1) < |t|);
    ResumesUnclosed(t, q, away, other, 0, h, |t| + 2 + |section|, Outer(Nothing), Outer(Nothing));
  }

  lemma AppendOthers(t: seq<byte>, section: seq<byte>, key: seq<byte>, value: seq<byte>, away: seq<byte>, other: seq<byte>)
    requires NulFree(t) && IsSection(section) && IsKey(key) && IsValue(value) && (Closed(t) || LF !in away)
    requires ParseFileSpec(t, section, key) == Nothing
    ensures NulFree(WriteSpec(t, section, key, value))
    ensures var q := WriteSpec(t, section, key, value);
      AfterAppend(t, ParseFileSpec(t, away, other), q, ParseFileSpec(q, away, other),
        Closed(t) && StartsWith(away, section) && StartsWith(other, key), value)
  {
    var q := WriteSpec(t, section, key, value);
    WriteNulFree(t, section, key, value);
    AppendShape(t, if t == [] then [] else [LF], section, key, value);
    if t == [] {
      AppendToNothing(q, section, key, value, away, other);
    } else if Closed(t) {
      AppendClosed(t, q, section, key, value, away, other);
    } else {
      AppendUnclosed(t, q, section, key, value, away, other);
    }
  }

  /** Writing a key whose section is not there leaves every value that is found, in any section. Of the
      keys that are not found, those get the new value that the new name is a prefix of and whose
      section the new section is a prefix of, if every header of the file is closed; the others are
      still not found. */
  lemma AppendKeepsOthers(t: seq<byte>, section: seq<byte>, key: seq<byte>, value: seq<byte>, away: seq<byte>, other: seq<byte>, size: nat)
    requires NulFree(t) && IsSection(section) && IsKey(key) && IsValue(value) && size > 0 && (Closed(t) || LF !in away)
    requires ParseFileSpec(t, section, key) == Nothing
    ensures NulFree(WriteSpec(t, section, key, value))
    ensures ReadSpec(WriteSpec(t, section, key, value), away, other, size) ==
      if ParseFileSpec(t, away, other).Key? then ReadSpec(t, away, other, size)
      else if Closed(t) && StartsWith(away, section) && StartsWith(other, key) then Value(Cut(value, size))
      else Default
  {
    AppendOthers(t, section, key, value, away, other);
    ReadIsCut(t, away, other, size);
    ReadIsCut(WriteSpec(t, section, key, value), away, other, size);
  }
}
