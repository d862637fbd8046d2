/**
 What `write_profile_string` does to the other keys, of any section, when the key it writes is not
 there: the new line is put behind the last header of its section, or behind a new one.
 */
module IniInserts {
  import opened Bytes
  import opened IniFile
  import opened IniOthers

  // ---- the section is there ----

  /** The text in which a bracket at `at` that shares its line with another one is put on a line of its
      own, as the new line in front of it does. */
  function Loose(t: seq<byte>, at: nat): seq<byte>
    requires 0 < at <= |t|
  {
    if At(t, at) == LBRACKET && !IsNewline(At(t, at - 1)) then t[..at] + [LF] + t[at..] else t
  }

  lemma LooseAgrees(t: seq<byte>, q: seq<byte>, at: nat, key: seq<byte>, value: seq<byte>)
    requires 0 < at && Inserts(t, q, at, key, value) && NulFree(t)
    ensures Agree(t, Loose(t, at), at) && Agree(Loose(t, at), q, at) && NulFree(Loose(t, at))
  {
  }

  /** A line of `n` bytes was put in at `at`. */
  predicate Shifted(t: seq<byte>, q: seq<byte>, at: nat, n: nat)
    requires at <= |t|
  {
    |q| == |t| + n && n > 0 && q[at + n - 1] == LF && forall k :: at <= k < |t| ==> t[k] == q[k + n]
  }

  lemma InsertedTail(t: seq<byte>, q: seq<byte>, at: nat, key: seq<byte>, value: seq<byte>)
    requires 0 < at && Inserts(t, q, at, key, value)
    ensures Shifted(t, q, at, |key| + |value| + 2)
  {
    assert q[at + |key| + |value| + 1] == Entry(key, value)[|key| + |value| + 1];
    assert forall k :: at <= k < |t| ==> t[k] == t[at..][k - at];
  }

  lemma TailOfSame(t: seq<byte>, q: seq<byte>, at: nat, n: nat)
    requires 0 < at <= |t| && Shifted(t, q, at, n)
    requires At(t, at) == LBRACKET ==> IsNewline(At(t, at - 1))
    ensures SameTail(t, at, q, at + n)
  {
  }

  lemma TailOfLoose(t: seq<byte>, p: seq<byte>, q: seq<byte>, at: nat, n: nat)
    requires 0 < at < |t| && |p| == |t| + 1 && p[at] == LF && (forall k :: at <= k < |t| ==> p[k + 1] == t[k])
    requires Shifted(t, q, at, n)
    ensures SameTail(p, at + 1, q, at + n)
  {
    forall k | at + 1 <= k < |p|
      ensures p[k] == q[k + (n - 1)]
    {
      assert p[(k - 1) + 1] == t[k - 1] == q[(k - 1) + n];
    }
  }

  /** The two cases of `Loose`, byte by byte. */
  predicate IsLoose(t: seq<byte>, p: seq<byte>, at: nat)
    requires 0 < at <= |t|
  {
    || (p == t && (At(t, at) == LBRACKET ==> IsNewline(At(t, at - 1))))
    || (at < |t| && |p| == |t| + 1 && p[at] == LF && t[at] == LBRACKET && forall k :: at <= k < |t| ==> p[k + 1] == t[k])
  }

  lemma LooseIs(t: seq<byte>, at: nat)
    requires 0 < at <= |t|
    ensures IsLoose(t, Loose(t, at), at)
  {
    assert forall k :: at <= k < |t| ==> t[k] == t[at..][k - at];
  }

  lemma LooseBody(t: seq<byte>, p: seq<byte>, at: nat)
    requires 0 < at <= |t| && IsLoose(t, p, at) && !IsSpace(At(t, at))
    ensures SpacesEnd(p, at) == if p == t then at else at + 1
  {
    if p != t {
      assert p[at + 1] == t[at];
      assert SpacesEnd(p, at + 1) == at + 1;
    }
  }

  /** Behind the new line the text goes on as the loose one does. */
  lemma LooseTail(t: seq<byte>, p: seq<byte>, q: seq<byte>, at: nat, n: nat)
    requires 0 < at <= |t| && IsLoose(t, p, at) && !IsSpace(At(t, at))
    requires Shifted(t, q, at, n)
    ensures at <= SpacesEnd(p, at) && SameTail(p, SpacesEnd(p, at), q, at + n)
  {
    LooseBody(t, p, at);
    if p == t {
      TailOfSame(t, q, at, n);
    } else {
      TailOfLoose(t, p, q, at, n);
    }
  }

  /** What another key finds when a line is put in at `at`: what it found in front of it; else the new
      value, if its scan reaches the new line and the name there is a prefix of the key; else what it
      found behind. */
  predicate AfterInsert(p: seq<byte>, g: Found, q: seq<byte>, g': Found, at: nat, reached: bool, key: seq<byte>, other: seq<byte>, value: seq<byte>) {
    if !(g.Key? && g.keyS < at) && reached && StartsWith(other, key) then
      g'.Key? && g'.valueS + |value| == g'.valueE <= |q| && q[g'.valueS..g'.valueE] == value
    else SameValue(p, g, q, g')
  }

  /** The new line holds another key if and only if its name is a prefix of that key. */
  lemma EntryHoldsOther(q: seq<byte>, at: nat, key: seq<byte>, value: seq<byte>, other: seq<byte>)
    requires IsKey(key) && IsValue(value) && EntryAt(q, at, key, value) && at > 0 && NulFree(q)
    ensures !SectionEnds(q, at) && LineEnd(q, at) == at + |key| + 1 + |value| && at <= |q|
    ensures HasKey(q, other, at) == StartsWith(other, key) && EqualsAt(q, at, LineEnd(q, at)) == at + |key|
    ensures LineEnd(q, at) <= |q| && q[at + |key| + 1..LineEnd(q, at)] == value
  {
    EntryHolds(q, at, key, value);
    EntryValue(q, at, key, value);
    assert q[at..at + |key|] == q[at..at + |Entry(key, value)|][..|key|] == key;
  }

  /** A scan that comes to the new line stops there, or goes on behind it. */
  lemma EntryFound(q: seq<byte>, section: seq<byte>, key: seq<byte>, other: seq<byte>, at: nat, sec: Found, value: seq<byte>)
    requires NulFree(q) && IsKey(key) && IsValue(value) && EntryAt(q, at, key, value) && at > 0 && sec.Section?
    requires StartsWith(other, key)
    ensures var s := at + |key| + 1;
      && Lines(q, section, other, at, sec) == Key(sec.secS, sec.secE, at, s, s + |value|)
      && s + |value| <= |q| && q[s..s + |value|] == value
  {
    EntryHoldsOther(q, at, key, value, other);
    StopsAt(q, section, other, at, sec);
  }

  lemma EntryPassed(q: seq<byte>, section: seq<byte>, key: seq<byte>, other: seq<byte>, at: nat, m: Mode, value: seq<byte>)
    requires NulFree(q) && IsKey(key) && IsValue(value) && EntryAt(q, at, key, value) && at > 0 && m.Fits(at)
    requires m.Inner? ==> !StartsWith(other, key)
    ensures Resume(q, section, other, at, m) == Resume(q, section, other, at + |key| + |value| + 2, m)
  {
    EntryHoldsOther(q, at, key, value, other);
    NextLine(q, section, other, at, m);
  }

  /** Behind the last header of the section, where the new line is. */
  lemma EntryOthers(p: seq<byte>, j: nat, a: Mode, q: seq<byte>, at: nat, a': Mode, away: seq<byte>, key: seq<byte>, other: seq<byte>, value: seq<byte>)
    requires NulFree(p) && NulFree(q) && IsKey(key) && IsValue(value) && 0 < at <= j && EntryAt(q, at, key, value)
    requires a.Fits(j) && a'.Fits(at) && a.Outer? == a'.Outer? && SameTail(p, j, q, at + |key| + |value| + 2)
    ensures AfterInsert(p, Resume(p, away, other, j, a), q, Resume(q, away, other, at, a'), at, a.Inner?, key, other, value)
  {
    if a.Inner? && StartsWith(other, key) {
      ResumeBounds(p, away, other, j, a);
      EntryFound(q, away, key, other, at, a'.sec, value);
    } else {
      EntryPassed(q, away, key, other, at, a', value);
      var g, g' := TailResumes(p, j, a, q, at + |key| + |value| + 2, a', away, other);
    }
  }

  /** Does the scan for another section enter the one that starts at `s`? */
  predicate Reaches(t: seq<byte>, away: seq<byte>, s: nat)
    requires s <= |t|
  {
    Matches(away, t, s, Bracket(t, s))
  }

  /** The section in front of which a scan in mode `m` stands. */
  predicate Ahead(m: Mode, i: nat, f: Found) {
    f.Section? && i < f.secS < f.secE && if m.Inner? then m.sec.Section? && m.sec.secS <= i else m.last.Section? ==> m.last.secS <= i
  }

  lemma StillAhead(t: seq<byte>, section: seq<byte>, key: seq<byte>, i: nat, m: Mode, f: Found)
    requires NulFree(t) && m.Fits(i) && Resume(t, section, key, i, m) == f && f.Section?
    requires if m.Inner? then f != m.sec && m.sec.secS <= i else f != m.last && (m.last.Section? ==> m.last.secS <= i)
    ensures Ahead(m, i, f)
  {
    if m.Inner? {
      LinesBounds(t, section, key, i, m.sec);
    } else {
      ScanBounds(t, section, key, i, m.last);
    }
  }

  /** The new text has the line at `at`, and the loose text `p` all that was there. */
  predicate Inserted(t: seq<byte>, p: seq<byte>, q: seq<byte>, at: nat, key: seq<byte>, value: seq<byte>) {
    && 0 < at <= |t| && EntryAt(q, at, key, value) && Shifted(t, q, at, |key| + |value| + 2) && IsLoose(t, p, at)
    && NulFree(t) && NulFree(p) && NulFree(q) && Agree(t, p, at) && Agree(p, q, at) && IsKey(key) && IsValue(value)
  }

  lemma InsertedIs(t: seq<byte>, q: seq<byte>, at: nat, key: seq<byte>, value: seq<byte>)
    requires 0 < at && Inserts(t, q, at, key, value) && NulFree(t) && NulFree(q) && IsKey(key) && IsValue(value)
    ensures Inserted(t, Loose(t, at), q, at, key, value)
  {
    InsertedEntry(t, q, at, key, value);
    InsertedTail(t, q, at, key, value);
    LooseIs(t, at);
    LooseAgrees(t, q, at, key, value);
  }

  /** The scan for the written key in `t`, in mode `m`, and the scan for another one, in mode `a`, in
      the loose text and in the new one, meet at every line and every header up to the new line. */
  lemma {:induction false} ResumesBeside(t: seq<byte>, p: seq<byte>, q: seq<byte>, section: seq<byte>, key: seq<byte>, away: seq<byte>,
                                         other: seq<byte>, i: nat, m: Mode, a: Mode, f: Found, value: seq<byte>)
    requires m.Fits(i) && a.Fits(i) && Ahead(m, i, f) && Inserted(t, p, q, f.secE, key, value)
    requires Resume(t, section, key, i, m) == f
    ensures AfterInsert(p, Resume(p, away, other, i, a), q, Resume(q, away, other, i, a), f.secE, Reaches(t, away, f.secS), key, other, value)
    decreases |t| + 1 - i, if m.Outer? && a.Outer? then 0 else 1
  {
    if m.Outer? && a.Outer? {
      OuterBeside(t, p, q, section, key, away, other, i, m.last, a.last, f, value);
    } else if SectionEnds(t, i) {
      GoesOut(t, section, key, i, m);
      assert At(p, i) == At(t, i) && At(p, i - 1) == At(t, i - 1);
      GoesOutInBoth(p, q, away, other, f.secE, i, a);
      ResumesBeside(t, p, q, section, key, away, other, i, Out(m), Out(a), f, value);
    } else {
      HeldIsFound(t, section, key, i, m);
      NextLine(t, section, key, i, m);
      LineBeside(t, p, q, section, key, away, other, i, m, a, f, value);
    }
  }

  lemma HeldIsFound(t: seq<byte>, section: seq<byte>, key: seq<byte>, i: nat, m: Mode)
    requires NulFree(t) && 0 < i <= |t| && m.Fits(i) && !SectionEnds(t, i)
    ensures m.Inner? && HasKey(t, key, i) ==> Resume(t, section, key, i, m).Key?
  {
    if m.Inner? && HasKey(t, key, i) {
      StopsAt(t, section, key, i, m.sec);
    }
  }

  lemma SameLine(t: seq<byte>, p: seq<byte>, at: nat, i: nat, other: seq<byte>)
    requires Agree(t, p, at) && 0 < i <= |t| && LineEnd(t, i) < at && !SectionEnds(t, i)
    ensures i <= |p| && LineEnd(p, i) == LineEnd(t, i) && !SectionEnds(p, i)
  {
    LineAgrees(t, p, at, i, other);
    assert At(p, i) == At(t, i) && At(p, i - 1) == At(t, i - 1);
  }

  lemma FoundInFront(p: seq<byte>, q: seq<byte>, away: seq<byte>, other: seq<byte>, at: nat, i: nat, sec: Found, reached: bool,
                     key: seq<byte>, value: seq<byte>)
    requires NulFree(p) && NulFree(q) && Agree(p, q, at) && 0 < i <= |p| && LineEnd(p, i) < at && sec.Section?
    requires !SectionEnds(p, i) && HasKey(p, other, i)
    ensures AfterInsert(p, Lines(p, away, other, i, sec), q, Lines(q, away, other, i, sec), at, reached, key, other, value)
  {
    FoundBefore(p, q, away, other, at, i, sec);
  }

  lemma {:induction false} LineBeside(t: seq<byte>, p: seq<byte>, q: seq<byte>, section: seq<byte>, key: seq<byte>, away: seq<byte>,
                                      other: seq<byte>, i: nat, m: Mode, a: Mode, f: Found, value: seq<byte>)
    requires i > 0 && m.Fits(i) && a.Fits(i) && Ahead(m, i, f) && Inserted(t, p, q, f.secE, key, value) && !SectionEnds(t, i)
    requires Resume(t, section, key, LineEnd(t, i) + 1, m) == f
    ensures AfterInsert(p, Resume(p, away, other, i, a), q, Resume(q, away, other, i, a), f.secE, Reaches(t, away, f.secS), key, other, value)
    decreases |t| + 1 - i, 0, 1
  {
    var e := LineEnd(t, i);
    StillAhead(t, section, key, e + 1, m, f);
    SameLine(t, p, f.secE, i, other);
    if a.Inner? && HasKey(p, other, i) {
      FoundInFront(p, q, away, other, f.secE, i, a.sec, Reaches(t, away, f.secS), key, value);
    } else {
      NextLineInBoth(p, q, away, other, f.secE, i, a);
      ResumesBeside(t, p, q, section, key, away, other, e + 1, m, a, f, value);
    }
  }

  lemma {:induction false} OuterBeside(t: seq<byte>, p: seq<byte>, q: seq<byte>, section: seq<byte>, key: seq<byte>, away: seq<byte>,
                                       other: seq<byte>, i: nat, last: Found, last': Found, f: Found, value: seq<byte>)
    requires !last.Key? && !last'.Key? && Ahead(Outer(last), i, f) && Inserted(t, p, q, f.secE, key, value)
    requires Scan(t, section, key, i, last) == f
    ensures AfterInsert(p, Scan(p, away, other, i, last'), q, Scan(q, away, other, i, last'), f.secE, Reaches(t, away, f.secS), key, other, value)
    decreases |t| + 1 - i, 0, 0
  {
    if IsHeader(t, i) {
      HeaderBeside(t, p, q, section, key, away, other, i, last, last', f, value);
    } else {
      PassesByte(t, section, key, i, last);
      StillAhead(t, section, key, i + 1, Outer(last), f);
      ResumesBeside(t, p, q, section, key, away, other, i + 1, Outer(last), Outer(last'), f, value);
      ByteInBoth(t, p, q, away, other, f.secE, i, last');
    }
  }

  lemma ByteInBoth(t: seq<byte>, p: seq<byte>, q: seq<byte>, away: seq<byte>, other: seq<byte>, at: nat, i: nat, last: Found)
    requires NulFree(p) && NulFree(q) && Agree(t, p, at) && Agree(p, q, at) && i < at && !IsHeader(t, i)
    ensures Scan(p, away, other, i, last) == Scan(p, away, other, i + 1, last)
    ensures Scan(q, away, other, i, last) == Scan(q, away, other, i + 1, last)
  {
    assert !IsHeader(p, i) && !IsHeader(q, i);
    PassesByte(p, away, other, i, last);
    PassesByte(q, away, other, i, last);
  }

  lemma {:induction false} HeaderBeside(t: seq<byte>, p: seq<byte>, q: seq<byte>, section: seq<byte>, key: seq<byte>, away: seq<byte>,
                                        other: seq<byte>, i: nat, last: Found, last': Found, f: Found, value: seq<byte>)
    requires !last.Key? && !last'.Key? && Ahead(Outer(last), i, f) && Inserted(t, p, q, f.secE, key, value) && IsHeader(t, i)
    requires Scan(t, section, key, i, last) == f
    ensures AfterInsert(p, Scan(p, away, other, i, last'), q, Scan(q, away, other, i, last'), f.secE, Reaches(t, away, f.secS), key, other, value)
    decreases |t| - i, 4
  {
    EntersHeader(t, section, key, i, last);
    if f == Section(i + 1, Body(t, i)) {
      NewLineIs(t, p, q, f.secE, key, value);
      LastHeaderBeside(t, p, q, away, key, other, i, last', f.secE, value);
    } else {
      EarlierHeader(t, p, q, section, key, away, other, i, last, last', f, value);
    }
  }

  lemma HeaderInThree(t: seq<byte>, p: seq<byte>, q: seq<byte>, away: seq<byte>, other: seq<byte>, at: nat, i: nat, last: Found)
    requires NulFree(p) && NulFree(q) && Agree(t, p, at) && Agree(p, q, at) && !last.Key?
    requires i < at && IsHeader(t, i) && Body(t, i) < at
    ensures Behind(p, away, i, last).Fits(Body(t, i))
    ensures Scan(p, away, other, i, last) == Resume(p, away, other, Body(t, i), Behind(p, away, i, last))
    ensures Scan(q, away, other, i, last) == Resume(q, away, other, Body(t, i), Behind(p, away, i, last))
  {
    var body := Body(t, i);
    assert At(p, body) == At(t, body) && At(q, body) == At(t, body);
    HeaderAgrees(t, p, at, i, away);
    SpacesAgree(t, p, at, Bracket(t, i + 1) + 1);
    HeaderInBoth(p, q, away, other, at, i, last);
  }

  /** A header with another one of the section behind it. */
  lemma {:induction false} EarlierHeader(t: seq<byte>, p: seq<byte>, q: seq<byte>, section: seq<byte>, key: seq<byte>, away: seq<byte>,
                                         other: seq<byte>, i: nat, last: Found, last': Found, f: Found, value: seq<byte>)
    requires !last.Key? && !last'.Key? && Ahead(Outer(last), i, f) && Inserted(t, p, q, f.secE, key, value) && IsHeader(t, i)
    requires f != Section(i + 1, Body(t, i)) && Behind(t, section, i, last).Fits(Body(t, i))
    requires Resume(t, section, key, Body(t, i), Behind(t, section, i, last)) == f
    ensures AfterInsert(p, Scan(p, away, other, i, last'), q, Scan(q, away, other, i, last'), f.secE, Reaches(t, away, f.secS), key, other, value)
    decreases |t| - i, 3
  {
    var body := Body(t, i);
    StillAhead(t, section, key, body, Behind(t, section, i, last), f);
    HeaderInThree(t, p, q, away, other, f.secE, i, last');
    ResumesBeside(t, p, q, section, key, away, other, body, Behind(t, section, i, last), Behind(p, away, i, last'), f, value);
  }

  /** What is known at the new line: it stands in the new text, and behind it the loose text goes on. */
  predicate NewLineAt(t: seq<byte>, p: seq<byte>, q: seq<byte>, at: nat, key: seq<byte>, value: seq<byte>) {
    && 0 < at <= SpacesEnd(p, at) && EntryAt(q, at, key, value) && !IsSpace(At(q, at)) && IsKey(key) && IsValue(value)
    && SameTail(p, SpacesEnd(p, at), q, at + |key| + |value| + 2)
    && Agree(t, p, at) && Agree(t, q, at) && NulFree(p) && NulFree(q)
  }

  lemma NewLineIs(t: seq<byte>, p: seq<byte>, q: seq<byte>, at: nat, key: seq<byte>, value: seq<byte>)
    requires Inserted(t, p, q, at, key, value) && !IsSpace(At(t, at))
    ensures NewLineAt(t, p, q, at, key, value)
  {
    EntryHolds(q, at, key, value);
    LooseTail(t, p, q, at, |key| + |value| + 2);
  }

  /** The last header of the section. */
  lemma LastHeaderBeside(t: seq<byte>, p: seq<byte>, q: seq<byte>, away: seq<byte>, key: seq<byte>, other: seq<byte>,
                         i: nat, last: Found, at: nat, value: seq<byte>)
    requires !last.Key? && i < |t| && IsHeader(t, i) && at == Body(t, i) && NewLineAt(t, p, q, at, key, value)
    ensures AfterInsert(p, Scan(p, away, other, i, last), q, Scan(q, away, other, i, last), at, Reaches(t, away, i + 1), key, other, value)
  {
    LastInLoose(t, p, at, away, other, i, last);
    LastInNew(t, q, at, away, other, i, last);
    EntryOthers(p, Body(p, i), Behind(p, away, i, last), q, at, Behind(q, away, i, last), away, key, other, value);
  }

  lemma LastInLoose(t: seq<byte>, p: seq<byte>, at: nat, away: seq<byte>, other: seq<byte>, i: nat, last: Found)
    requires !last.Key? && i < |t| && IsHeader(t, i) && at == Body(t, i) && Agree(t, p, at) && NulFree(p)
    ensures i < |p| && Body(p, i) == SpacesEnd(p, at) && Behind(p, away, i, last).Fits(Body(p, i))
    ensures Behind(p, away, i, last).Inner? == Reaches(t, away, i + 1)
    ensures Scan(p, away, other, i, last) == Resume(p, away, other, Body(p, i), Behind(p, away, i, last))
  {
    HeaderAgrees(t, p, at, i, away);
    SpacesMeet(t, p, at, Bracket(t, i + 1) + 1);
    EntersHeader(p, away, other, i, last);
  }

  lemma LastInNew(t: seq<byte>, q: seq<byte>, at: nat, away: seq<byte>, other: seq<byte>, i: nat, last: Found)
    requires !last.Key? && i < |t| && IsHeader(t, i) && at == Body(t, i) && Agree(t, q, at) && NulFree(q) && !IsSpace(At(q, at))
    ensures i < |q| && Behind(q, away, i, last).Fits(at)
    ensures Behind(q, away, i, last).Inner? == Reaches(t, away, i + 1)
    ensures Scan(q, away, other, i, last) == Resume(q, away, other, at, Behind(q, away, i, last))
  {
    HeaderAgrees(t, q, at, i, away);
    SpacesAgree(t, q, at, Bracket(t, i + 1) + 1);
    EntersHeader(q, away, other, i, last);
  }

  /** Spaces that run up to `at` run on from there. */
  lemma {:induction false} SpacesMeet(t: seq<byte>, p: seq<byte>, at: nat, i: nat)
    requires Agree(t, p, at) && i <= SpacesEnd(t, i) == at
    ensures SpacesEnd(p, i) == SpacesEnd(p, at)
    decreases at - i
  {
    if i < at {
      SpacesMeet(t, p, at, i + 1);
    }
  }

  /** Writing a key that is not there into a section that is. If the last header of that name is not
      closed nothing is written. Otherwise another key, of any section, finds what it finds in the text
      with the header on a line of its own, unless its scan enters at that header, the new name is a
      prefix of it, and it is not found in front: then it gets the new value. */
  lemma InsertKeepsOthers(t: seq<byte>, section: seq<byte>, key: seq<byte>, value: seq<byte>, away: seq<byte>, other: seq<byte>, size: nat)
    requires NulFree(t) && NulFree(section) && IsKey(key) && IsValue(value) && size > 0
    requires ParseFileSpec(t, section, key).Section?
    ensures NulFree(WriteSpec(t, section, key, value))
    ensures var f := ParseFileSpec(t, section, key);
      if f.secE > |t| then WriteSpec(t, section, key, value) == t
      else
        && 0 < f.secS < f.secE && NulFree(Loose(t, f.secE))
        && var p := Loose(t, f.secE);
           var g := ParseFileSpec(p, away, other);
           ReadSpec(WriteSpec(t, section, key, value), away, other, size) ==
           if Reaches(t, away, f.secS) && StartsWith(other, key) && !(g.Key? && g.keyS < f.secE) then Value(Cut(value, size))
           else ReadSpec(p, away, other, size)
  {
    var f := ParseFileSpec(t, section, key);
    var q := WriteSpec(t, section, key, value);
    ScanBounds(t, section, key, 0, Nothing);
    WriteNulFree(t, section, key, value);
    if f.secE <= |t| {
      var p := Loose(t, f.secE);
      InsertedIs(t, q, f.secE, key, value);
      ResumesBeside(t, p, q, section, key, away, other, 0, Outer(Nothing), Outer(Nothing), f, value);
      ReadIsCut(p, away, other, size);
      ReadIsCut(q, away, other, size);
    }
  }

  /** "[s][t]" and the line "k=1" */
  const SHARED: seq<byte> := [LBRACKET, 115, RBRACKET, LBRACKET, 116, RBRACKET, LF, 107, EQUALS, 49]

  lemma SharedScan(key: seq<byte>)
    requires |key| == 1 && NulFree(key)
    ensures ParseFileSpec(SHARED, [115], key) == if key[0] == 107 then Key(1, 3, 7, 9, 10) else Section(1, 3)
  {
    BracketIs(SHARED, 1, 2);
    assert SHARED[1..2] == [115] && SpacesEnd(SHARED, 3) == 3;
    EntersNew(SHARED, [115], key, 0, 2, Nothing);
    LineEndIs(SHARED, 3, 6);
    NoEquals(SHARED, 3, 6);
    GoesOn(SHARED, [115], key, 3, Section(1, 3));
    LineEndIs(SHARED, 7, 10);
    EqualsIs(SHARED, 7, 8, 10);
    assert SHARED[7..8] == [107] && key[..1] == key;
    if key[0] == 107 {
      StopsAt(SHARED, [115], key, 7, Section(1, 3));
    } else {
      GoesOn(SHARED, [115], key, 7, Section(1, 3));
      LeavesSection(SHARED, [115], key, 11, Section(1, 3));
    }
  }

  lemma {:induction false} NoEquals(p: seq<byte>, i: nat, e: nat)
    requires i <= e <= |p| && forall k :: i <= k < e ==> p[k] != EQUALS
    ensures EqualsAt(p, i, e) == e
    decreases e - i
  {
    if i < e {
      NoEquals(p, i + 1, e);
    }
  }

  lemma LooseScan(key: seq<byte>)
    ensures NulFree(Loose(SHARED, 3)) && !ParseFileSpec(Loose(SHARED, 3), [115], key).Key?
  {
    var p: seq<byte> := [LBRACKET, 115, RBRACKET, LF, LBRACKET, 116, RBRACKET, LF, 107, EQUALS, 49];
    assert Loose(SHARED, 3) == p;
    BracketIs(p, 1, 2);
    assert p[1..2] == [115] && SpacesEnd(p, 4) == 4 && SpacesEnd(p, 3) == 4;
    EntersNew(p, [115], key, 0, 2, Nothing);
    LeavesSection(p, [115], key, 4, Section(1, 4));
    BracketIs(p, 5, 6);
    assert p[5..6] == [116] && [115 as byte][..1] == [115];
    PassesHeader(p, [115], key, 4, 6, Section(1, 4));
    PassesTo(p, [115], key, 6, |p|, Section(1, 4));
  }

  /** A bracket behind the header on its line becomes a header when a key is written, and takes the
      lines behind it to another section: writing "x" to "s" hides "k" there. */
  lemma SharedLineHidesKey()
    ensures ReadSpec(SHARED, [115], [107], 9) == Value([49])
    ensures var t := WriteSpec(SHARED, [115], [120], [50]);
      NulFree(t) && ReadSpec(t, [115], [107], 9) == Default
  {
    SharedScan([107]);
    SharedScan([120]);
    LooseScan([107]);
    InsertKeepsOthers(SHARED, [115], [120], [50], [115], [107], 9);
    ReadIsCut(SHARED, [115], [107], 9);
    assert SHARED[9..10] == [49];
  }
}
