/**
 What `write_profile_string` of ikcc_service/src/src/xlinkgateway/inifile.c does to the keys it was
 not asked to write. A line holds every key that its name is a prefix of.
 */
module IniOthers {
  import opened Bytes
  import opened IniFile

  // ---- texts with the same tail are scanned alike ----

  /** From `i` and from `j` on the two texts are the same, and a bracket there is a header in both or
      in neither. */
  predicate SameTail(p: seq<byte>, i: nat, q: seq<byte>, j: nat) {
    && 0 < i <= |p| + 1 && 0 < j && |p| - i == |q| - j
    && (forall k :: i <= k < |p| ==> p[k] == q[k + (j - i)])
    && (At(p, i) == LBRACKET ==> IsNewline(At(p, i - 1)) == IsNewline(At(q, j - 1)))
  }

  lemma {:induction false} BracketShifts(p: seq<byte>, i: nat, q: seq<byte>, j: nat)
    requires SameTail(p, i, q, j) && i <= |p|
    ensures Bracket(q, j) - j == Bracket(p, i) - i
    decreases |p| - i
  {
    if i < |p| && p[i] != RBRACKET {
      BracketShifts(p, i + 1, q, j + 1);
    }
  }

  lemma {:induction false} SpacesShift(p: seq<byte>, i: nat, q: seq<byte>, j: nat)
    requires SameTail(p, i, q, j)
    ensures SpacesEnd(q, j) - j == SpacesEnd(p, i) - i
    decreases |p| + 1 - i
  {
    if IsSpace(At(p, i)) {
      SpacesShift(p, i + 1, q, j + 1);
    }
  }

  lemma {:induction false} LineEndShifts(p: seq<byte>, i: nat, q: seq<byte>, j: nat)
    requires SameTail(p, i, q, j) && i <= |p|
    ensures LineEnd(q, j) - j == LineEnd(p, i) - i
    decreases |p| - i
  {
    if i < |p| && !IsNewline(p[i]) {
      LineEndShifts(p, i + 1, q, j + 1);
    }
  }

  lemma {:induction false} EqualsShifts(p: seq<byte>, i: nat, e: nat, q: seq<byte>, j: nat, e': nat)
    requires SameTail(p, i, q, j) && i <= e <= |p| && e' - j == e - i
    ensures EqualsAt(q, j, e') - j == EqualsAt(p, i, e) - i
    decreases e - i
  {
    if i < e && p[i] != EQUALS {
      EqualsShifts(p, i + 1, e, q, j + 1, e');
    }
  }

  lemma SliceShifts(p: seq<byte>, i: nat, q: seq<byte>, j: nat, s: nat, e: nat)
    requires SameTail(p, i, q, j) && i <= s <= e <= |p|
    ensures p[s..e] == q[s + j - i..e + j - i]
  {
    assert forall k :: 0 <= k < e - s ==> p[s..e][k] == p[s + k] == q[s + k + (j - i)];
  }

  lemma HasKeyShifts(p: seq<byte>, i: nat, q: seq<byte>, j: nat, key: seq<byte>)
    requires SameTail(p, i, q, j) && i <= |p|
    ensures HasKey(q, key, j) == HasKey(p, key, i)
    ensures var e := LineEnd(p, i); LineEnd(q, j) == e + (j - i) && EqualsAt(q, j, LineEnd(q, j)) == EqualsAt(p, i, e) + (j - i)
  {
    LineEndShifts(p, i, q, j);
    EqualsShifts(p, i, LineEnd(p, i), q, j, LineEnd(q, j));
    SliceShifts(p, i, q, j, i, EqualsAt(p, i, LineEnd(p, i)));
  }

  lemma HeaderShifts(p: seq<byte>, i: nat, q: seq<byte>, j: nat, section: seq<byte>)
    requires SameTail(p, i, q, j) && i < |p|
    ensures IsHeader(q, j) == IsHeader(p, i) && Bracket(q, j + 1) == Bracket(p, i + 1) + (j - i)
    ensures Matches(section, q, j + 1, Bracket(q, j + 1)) == Matches(section, p, i + 1, Bracket(p, i + 1))
  {
    BracketShifts(p, i + 1, q, j + 1);
    SliceShifts(p, i, q, j, i + 1, Bracket(p, i + 1));
  }

  /** A value is found in both texts, and is the same, or in neither. */
  predicate SameValue(p: seq<byte>, f: Found, q: seq<byte>, g: Found) {
    && f.Key? == g.Key?
    && (f.Key? ==> f.valueS <= f.valueE <= |p| && g.valueS <= g.valueE <= |q| && p[f.valueS..f.valueE] == q[g.valueS..g.valueE])
  }

  lemma PassesByte(p: seq<byte>, section: seq<byte>, key: seq<byte>, i: nat, last: Found)
    requires NulFree(p) && i < |p| && !IsHeader(p, i)
    ensures Scan(p, section, key, i, last) == Scan(p, section, key, i + 1, last)
  {
  }

  lemma PassesHeader(p: seq<byte>, section: seq<byte>, key: seq<byte>, i: nat, close: nat, last: Found)
    requires NulFree(p) && i < |p| && IsHeader(p, i) && Bracket(p, i + 1) == close && !Matches(section, p, i + 1, close)
    ensures Scan(p, section, key, i, last) == Scan(p, section, key, close, last)
  {
  }

  lemma {:induction false} ScanShifts(p: seq<byte>, i: nat, last: Found, q: seq<byte>, j: nat, last': Found,
                                      section: seq<byte>, key: seq<byte>)
    requires NulFree(p) && NulFree(q) && SameTail(p, i, q, j) && !last.Key? && !last'.Key?
    ensures SameValue(p, Scan(p, section, key, i, last), q, Scan(q, section, key, j, last'))
    decreases |p| + 1 - i, 0
  {
    if i < |p| {
      HeaderShifts(p, i, q, j, section);
      if !IsHeader(p, i) {
        PassesByte(p, section, key, i, last);
        PassesByte(q, section, key, j, last');
        ScanShifts(p, i + 1, last, q, j + 1, last', section, key);
      } else {
        HeaderShift(p, i, Bracket(p, i + 1), last, q, j, Bracket(q, j + 1), last', section, key);
      }
    }
  }

  lemma {:induction false} HeaderShift(p: seq<byte>, i: nat, close: nat, last: Found, q: seq<byte>, j: nat, close': nat, last': Found,
                                       section: seq<byte>, key: seq<byte>)
    requires NulFree(p) && NulFree(q) && SameTail(p, i, q, j) && i < |p| && IsHeader(p, i) && IsHeader(q, j)
    requires close == Bracket(p, i + 1) && close' == Bracket(q, j + 1) == close + (j - i)
    requires Matches(section, p, i + 1, close) == Matches(section, q, j + 1, close')
    requires !last.Key? && !last'.Key?
    ensures SameValue(p, Scan(p, section, key, i, last), q, Scan(q, section, key, j, last'))
    decreases |p| - i, 4
  {
    if Matches(section, p, i + 1, close) {
      HeaderEnters(p, i, close, last, q, j, close', last', section, key);
    } else {
      PassesHeader(p, section, key, i, close, last);
      PassesHeader(q, section, key, j, close', last');
      var g, g' := ScanFrom(p, close, last, q, close', last', section, key);
    }
  }

  lemma {:induction false} HeaderEnters(p: seq<byte>, i: nat, close: nat, last: Found, q: seq<byte>, j: nat, close': nat, last': Found,
                                        section: seq<byte>, key: seq<byte>)
    requires NulFree(p) && NulFree(q) && SameTail(p, close + 1, q, close' + 1) && i < close && i < |p| && j < |q|
    requires IsHeader(p, i) && Bracket(p, i + 1) == close && Matches(section, p, i + 1, close)
    requires IsHeader(q, j) && Bracket(q, j + 1) == close' && Matches(section, q, j + 1, close')
    ensures SameValue(p, Scan(p, section, key, i, last), q, Scan(q, section, key, j, last'))
    decreases |p| - i, 3
  {
    EntersNew(p, section, key, i, close, last);
    EntersNew(q, section, key, j, close', last');
    var g, g' := BodyShift(p, i + 1, close + 1, q, j + 1, close' + 1, section, key);
  }

  lemma {:induction false} BodyShift(p: seq<byte>, s: nat, i: nat, q: seq<byte>, s': nat, j: nat, section: seq<byte>, key: seq<byte>)
    returns (g: Found, g': Found)
    requires NulFree(p) && NulFree(q) && SameTail(p, i, q, j)
    ensures var body := SpacesEnd(p, i); g == Lines(p, section, key, body, Section(s, body))
    ensures var body := SpacesEnd(q, j); g' == Lines(q, section, key, body, Section(s', body))
    ensures SameValue(p, g, q, g')
    decreases |p| + 1 - i, 2
  {
    SpacesShift(p, i, q, j);
    var body, body' := SpacesEnd(p, i), SpacesEnd(q, j);
    LinesShift(p, body, Section(s, body), q, body', Section(s', body'), section, key);
    g, g' := Lines(p, section, key, body, Section(s, body)), Lines(q, section, key, body', Section(s', body'));
  }

  lemma {:induction false} ScanFrom(p: seq<byte>, i: nat, last: Found, q: seq<byte>, j: nat, last': Found, section: seq<byte>, key: seq<byte>)
    returns (g: Found, g': Found)
    requires NulFree(p) && NulFree(q) && SameTail(p, i, q, j) && !last.Key? && !last'.Key?
    ensures g == Scan(p, section, key, i, last) && g' == Scan(q, section, key, j, last') && SameValue(p, g, q, g')
    decreases |p| + 1 - i, 1
  {
    ScanShifts(p, i, last, q, j, last', section, key);
    g, g' := Scan(p, section, key, i, last), Scan(q, section, key, j, last');
  }

  lemma {:induction false} LinesShift(p: seq<byte>, i: nat, sec: Found, q: seq<byte>, j: nat, sec': Found,
                                      section: seq<byte>, key: seq<byte>)
    requires NulFree(p) && NulFree(q) && SameTail(p, i, q, j) && sec.Section? && sec'.Section?
    ensures SameValue(p, Lines(p, section, key, i, sec), q, Lines(q, section, key, j, sec'))
    decreases |p| + 1 - i, 1
  {
    if i > |p| || SectionEnds(p, i) {
      ScanShifts(p, i, sec, q, j, sec', section, key);
    } else {
      HasKeyShifts(p, i, q, j, key);
      var e := LineEnd(p, i);
      if HasKey(p, key, i) {
        SliceShifts(p, i, q, j, EqualsAt(p, i, e) + 1, e);
      } else {
        LinesShift(p, e + 1, sec, q, LineEnd(q, j) + 1, sec', section, key);
      }
    }
  }

  lemma StopsAt(p: seq<byte>, section: seq<byte>, key: seq<byte>, i: nat, sec: Found)
    requires NulFree(p) && 0 < i <= |p| && sec.Section? && !SectionEnds(p, i) && HasKey(p, key, i)
    ensures Lines(p, section, key, i, sec) ==
      Key(sec.secS, sec.secE, i, EqualsAt(p, i, LineEnd(p, i)) + 1, LineEnd(p, i))
  {
  }

  lemma GoesOn(p: seq<byte>, section: seq<byte>, key: seq<byte>, i: nat, sec: Found)
    requires NulFree(p) && 0 < i <= |p| && sec.Section? && !SectionEnds(p, i) && !HasKey(p, key, i)
    ensures Lines(p, section, key, i, sec) == Lines(p, section, key, LineEnd(p, i) + 1, sec)
  {
  }

  // ---- where a scan stands ----

  /** In the outer loop, with what it has found so far, or in the inner loop over a section. */
  datatype Mode = Outer(last: Found) | Inner(sec: Found) {
    predicate Fits(i: nat) {
      if Outer? then !last.Key? else sec.Section? && i > 0
    }
  }

  function Resume(p: seq<byte>, section: seq<byte>, key: seq<byte>, i: nat, m: Mode): Found
    requires NulFree(p) && m.Fits(i)
  {
    match m
    case Outer(last) => Scan(p, section, key, i, last)
    case Inner(sec) => Lines(p, section, key, i, sec)
  }

  lemma ResumeBounds(p: seq<byte>, section: seq<byte>, key: seq<byte>, i: nat, m: Mode)
    requires NulFree(p) && m.Fits(i)
    ensures var f := Resume(p, section, key, i, m);
      f.Key? ==> i <= f.keyS < f.valueS - 1 && f.valueS <= f.valueE <= |p|
  {
    if m.Outer? {
      ScanBounds(p, section, key, i, m.last);
    } else {
      LinesBounds(p, section, key, i, m.sec);
    }
  }

  /** Where there is no header the outer loop goes on. */
  lemma {:induction false} PassesTo(p: seq<byte>, section: seq<byte>, key: seq<byte>, i: nat, j: nat, last: Found)
    requires NulFree(p) && i <= j <= |p| && forall k :: i <= k < j ==> !IsHeader(p, k)
    ensures Scan(p, section, key, i, last) == Scan(p, section, key, j, last)
    decreases j - i
  {
    if i < j {
      PassesByte(p, section, key, i, last);
      PassesTo(p, section, key, i + 1, j, last);
    }
  }

  /** Where the scan goes on behind a header: at the first byte that is no space. */
  function Body(p: seq<byte>, i: nat): (body: nat)
    requires i < |p|
    ensures i < body
  {
    SpacesEnd(p, Bracket(p, i + 1) + 1)
  }

  function Behind(p: seq<byte>, section: seq<byte>, i: nat, last: Found): Mode
    requires i < |p|
  {
    if Matches(section, p, i + 1, Bracket(p, i + 1)) then Inner(Section(i + 1, Body(p, i))) else Outer(last)
  }

  lemma {:induction false} NoHeaderInSpaces(p: seq<byte>, i: nat)
    ensures forall k :: i <= k < SpacesEnd(p, i) ==> At(p, k) != LBRACKET
    decreases |p| - i
  {
    if IsSpace(At(p, i)) {
      NoHeaderInSpaces(p, i + 1);
    }
  }

  lemma PassesSpaces(p: seq<byte>, section: seq<byte>, key: seq<byte>, close: nat, last: Found)
    requires NulFree(p) && close <= |p| && (close < |p| ==> p[close] == RBRACKET)
    ensures Scan(p, section, key, close, last) == Scan(p, section, key, SpacesEnd(p, close + 1), last)
  {
    if close < |p| {
      NoHeaderInSpaces(p, close + 1);
      PassesTo(p, section, key, close, SpacesEnd(p, close + 1), last);
    }
  }

  lemma EntersHeader(p: seq<byte>, section: seq<byte>, key: seq<byte>, i: nat, last: Found)
    requires NulFree(p) && i < |p| && IsHeader(p, i) && !last.Key?
    ensures Behind(p, section, i, last).Fits(Body(p, i))
    ensures Scan(p, section, key, i, last) == Resume(p, section, key, Body(p, i), Behind(p, section, i, last))
  {
    var close := Bracket(p, i + 1);
    if Matches(section, p, i + 1, close) {
      EntersNew(p, section, key, i, close, last);
    } else {
      PassesHeader(p, section, key, i, close, last);
      PassesSpaces(p, section, key, close, last);
    }
  }

  lemma LeavesSection(p: seq<byte>, section: seq<byte>, key: seq<byte>, i: nat, sec: Found)
    requires NulFree(p) && i > 0 && sec.Section? && (i > |p| || SectionEnds(p, i))
    ensures Lines(p, section, key, i, sec) == Scan(p, section, key, i, sec)
  {
  }

  lemma PassesLine(p: seq<byte>, section: seq<byte>, key: seq<byte>, i: nat, last: Found)
    requires NulFree(p) && 0 < i <= |p| && !SectionEnds(p, i)
    ensures Scan(p, section, key, i, last) == Scan(p, section, key, LineEnd(p, i) + 1, last)
  {
    var e := LineEnd(p, i);
    NoNewlineBefore(p, i);
    if e < |p| {
      PassesTo(p, section, key, i, e + 1, last);
    } else {
      PassesTo(p, section, key, i, e, last);
    }
  }

  /** A line that the scan does not stop at. */
  lemma NextLine(p: seq<byte>, section: seq<byte>, key: seq<byte>, i: nat, m: Mode)
    requires NulFree(p) && 0 < i <= |p| && m.Fits(i) && !SectionEnds(p, i) && (m.Inner? ==> !HasKey(p, key, i))
    ensures Resume(p, section, key, i, m) == Resume(p, section, key, LineEnd(p, i) + 1, m)
  {
    if m.Outer? {
      PassesLine(p, section, key, i, m.last);
    } else {
      GoesOn(p, section, key, i, m.sec);
    }
  }

  /** At the end of a section both loops stand in the outer one. */
  function Out(m: Mode): Mode {
    if m.Inner? then Outer(m.sec) else m
  }

  lemma GoesOut(p: seq<byte>, section: seq<byte>, key: seq<byte>, i: nat, m: Mode)
    requires NulFree(p) && i > 0 && m.Fits(i) && (i > |p| || SectionEnds(p, i))
    ensures Out(m).Fits(i) && Resume(p, section, key, i, m) == Resume(p, section, key, i, Out(m))
  {
    if m.Inner? {
      LeavesSection(p, section, key, i, m.sec);
    }
  }

  /** Texts with the same tail, in either mode. */
  lemma TailResumes(p: seq<byte>, i: nat, m: Mode, q: seq<byte>, j: nat, m': Mode, section: seq<byte>, key: seq<byte>)
    returns (g: Found, g': Found)
    requires NulFree(p) && NulFree(q) && SameTail(p, i, q, j) && m.Fits(i) && m'.Fits(j) && m.Outer? == m'.Outer?
    ensures g == Resume(p, section, key, i, m) && g' == Resume(q, section, key, j, m')
    ensures SameValue(p, g, q, g') && (g.Key? ==> g.keyS >= i)
  {
    ResumeBounds(p, section, key, i, m);
    if m.Outer? {
      ScanShifts(p, i, m.last, q, j, m'.last, section, key);
    } else {
      LinesShift(p, i, m.sec, q, j, m'.sec, section, key);
    }
    g, g' := Resume(p, section, key, i, m), Resume(q, section, key, j, m');
  }

  // ---- a line in the common part of two texts ----

  lemma FoundBefore(p: seq<byte>, q: seq<byte>, section: seq<byte>, other: seq<byte>, n: nat, i: nat, sec: Found)
    requires NulFree(p) && NulFree(q) && Agree(p, q, n) && 0 < i <= |p| && LineEnd(p, i) < n && sec.Section?
    requires !SectionEnds(p, i) && HasKey(p, other, i)
    ensures Lines(q, section, other, i, sec) == Lines(p, section, other, i, sec) ==
      Key(sec.secS, sec.secE, i, EqualsAt(p, i, LineEnd(p, i)) + 1, LineEnd(p, i))
    ensures SameValue(p, Lines(p, section, other, i, sec), q, Lines(p, section, other, i, sec))
  {
    LineAgrees(p, q, n, i, other);
    EqualsSame(p, q, n, i, LineEnd(p, i));
    assert At(q, i) == At(p, i) && At(q, i - 1) == At(p, i - 1);
    StopsAt(p, section, other, i, sec);
    StopsAt(q, section, other, i, sec);
  }

  lemma NextLineInBoth(p: seq<byte>, q: seq<byte>, section: seq<byte>, key: seq<byte>, n: nat, i: nat, m: Mode)
    requires NulFree(p) && NulFree(q) && Agree(p, q, n) && 0 < i <= |p| && LineEnd(p, i) < n && m.Fits(i)
    requires !SectionEnds(p, i) && (m.Inner? ==> !HasKey(p, key, i))
    ensures var e := LineEnd(p, i);
      && Resume(p, section, key, i, m) == Resume(p, section, key, e + 1, m)
      && Resume(q, section, key, i, m) == Resume(q, section, key, e + 1, m)
  {
    LineAgrees(p, q, n, i, key);
    assert At(q, i) == At(p, i) && At(q, i - 1) == At(p, i - 1);
    NextLine(p, section, key, i, m);
    NextLine(q, section, key, i, m);
  }

  lemma GoesOutInBoth(p: seq<byte>, q: seq<byte>, section: seq<byte>, key: seq<byte>, n: nat, i: nat, m: Mode)
    requires NulFree(p) && NulFree(q) && Agree(p, q, n) && 0 < i < n && m.Fits(i) && SectionEnds(p, i)
    ensures Out(m).Fits(i)
    ensures Resume(p, section, key, i, m) == Resume(p, section, key, i, Out(m))
    ensures Resume(q, section, key, i, m) == Resume(q, section, key, i, Out(m))
  {
    assert At(q, i) == At(p, i) && At(q, i - 1) == At(p, i - 1);
    GoesOut(p, section, key, i, m);
    GoesOut(q, section, key, i, m);
  }

  /** A header of which the body starts in the common part. */
  lemma HeaderInBoth(p: seq<byte>, q: seq<byte>, section: seq<byte>, key: seq<byte>, n: nat, i: nat, last: Found)
    requires NulFree(p) && NulFree(q) && Agree(p, q, n) && i < n && IsHeader(p, i) && !last.Key?
    requires Body(p, i) <= n && !IsSpace(At(q, Body(p, i)))
    ensures Behind(q, section, i, last) == Behind(p, section, i, last) && Behind(p, section, i, last).Fits(Body(p, i))
    ensures Scan(p, section, key, i, last) == Resume(p, section, key, Body(p, i), Behind(p, section, i, last))
    ensures Scan(q, section, key, i, last) == Resume(q, section, key, Body(p, i), Behind(p, section, i, last))
  {
    HeaderAgrees(p, q, n, i, section);
    SpacesAgree(p, q, n, Bracket(p, i + 1) + 1);
    EntersHeader(p, section, key, i, last);
    EntersHeader(q, section, key, i, last);
  }

  // ---- a value is replaced ----

  /** What another key, of any section, finds when a value is replaced: the new value if its own scan
      stops at that line, and what it found before otherwise. */
  predicate Others(p: seq<byte>, g: Found, q: seq<byte>, g': Found, f: Found, value: seq<byte>)
    requires f.Key?
  {
    if g.Key? && g.keyS == f.keyS then g'.Key? && g'.valueS + |value| == g'.valueE <= |q| && q[g'.valueS..g'.valueE] == value
    else SameValue(p, g, q, g')
  }

  /** The scan for the written key in mode `m` and the scan for another one in mode `a` meet at every
      line and every header up to the written line. */
  lemma {:induction false} ResumesOthers(p: seq<byte>, q: seq<byte>, section: seq<byte>, key: seq<byte>, away: seq<byte>, other: seq<byte>,
                                         i: nat, m: Mode, a: Mode, f: Found, value: seq<byte>)
    requires NulFree(p) && NulFree(q) && m.Fits(i) && a.Fits(i) && IsValue(value)
    requires Resume(p, section, key, i, m) == f && f.Key? && Replaces(p, q, f, value)
    ensures Others(p, Resume(p, away, other, i, a), q, Resume(q, away, other, i, a), f, value)
    decreases |p| + 1 - i, if m.Outer? && a.Outer? then 0 else 1
  {
    ResumeBounds(p, section, key, i, m);
    if m.Outer? && a.Outer? {
      OuterOthers(p, q, section, key, away, other, i, m.last, a.last, f, value);
    } else if SectionEnds(p, i) {
      GoesOut(p, section, key, i, m);
      GoesOutInBoth(p, q, away, other, f.valueS, i, a);
      ResumesOthers(p, q, section, key, away, other, i, Out(m), Out(a), f, value);
    } else if m.Inner? && HasKey(p, key, i) {
      StopsAt(p, section, key, i, m.sec);
      LineOthers(p, q, key, away, other, a, f, value);
    } else {
      NextLine(p, section, key, i, m);
      FrontOthers(p, q, section, key, away, other, i, m, a, f, value);
    }
  }

  /** A line in front of the written one. */
  lemma {:induction false} FrontOthers(p: seq<byte>, q: seq<byte>, section: seq<byte>, key: seq<byte>, away: seq<byte>, other: seq<byte>,
                                       i: nat, m: Mode, a: Mode, f: Found, value: seq<byte>)
    requires NulFree(p) && NulFree(q) && 0 < i <= |p| && m.Fits(i) && a.Fits(i) && IsValue(value) && !SectionEnds(p, i)
    requires Resume(p, section, key, LineEnd(p, i) + 1, m) == f && f.Key? && Replaces(p, q, f, value)
    ensures Others(p, Resume(p, away, other, i, a), q, Resume(q, away, other, i, a), f, value)
    decreases |p| + 1 - i, 0, 1
  {
    ResumeBounds(p, section, key, LineEnd(p, i) + 1, m);
    if a.Inner? && HasKey(p, other, i) {
      FoundBefore(p, q, away, other, f.valueS, i, a.sec);
    } else {
      NextLineInBoth(p, q, away, other, f.valueS, i, a);
      ResumesOthers(p, q, section, key, away, other, LineEnd(p, i) + 1, m, a, f, value);
    }
  }

  lemma {:induction false} OuterOthers(p: seq<byte>, q: seq<byte>, section: seq<byte>, key: seq<byte>, away: seq<byte>, other: seq<byte>,
                                       i: nat, last: Found, last': Found, f: Found, value: seq<byte>)
    requires NulFree(p) && NulFree(q) && !last.Key? && !last'.Key? && IsValue(value)
    requires Scan(p, section, key, i, last) == f && f.Key? && Replaces(p, q, f, value) && i <= f.keyS
    ensures Others(p, Scan(p, away, other, i, last'), q, Scan(q, away, other, i, last'), f, value)
    decreases |p| + 1 - i, 0, 0
  {
    if !IsHeader(p, i) {
      PassesByte(p, section, key, i, last);
      PassesByte(p, away, other, i, last');
      PassesByte(q, away, other, i, last');
      ResumesOthers(p, q, section, key, away, other, i + 1, Outer(last), Outer(last'), f, value);
    } else {
      var body := Body(p, i);
      EntersHeader(p, section, key, i, last);
      ResumeBounds(p, section, key, body, Behind(p, section, i, last));
      assert At(q, body) == At(p, body);
      HeaderInBoth(p, q, away, other, f.valueS, i, last');
      ResumesOthers(p, q, section, key, away, other, body, Behind(p, section, i, last), Behind(p, away, i, last'), f, value);
    }
  }

  lemma ReplacedTail(p: seq<byte>, q: seq<byte>, f: Found, value: seq<byte>)
    requires f.Key? && Replaces(p, q, f, value)
    ensures SameTail(p, f.valueE + 1, q, f.valueS + |value| + 1)
    ensures q[f.valueS..f.valueS + |value|] == value
  {
    assert forall k :: f.valueE <= k < |p| ==> p[k] == p[f.valueE..][k - f.valueE];
  }

  /** The line that is written: it holds another key before if and only if it does after. */
  lemma SameHolder(p: seq<byte>, q: seq<byte>, key: seq<byte>, other: seq<byte>, f: Found, value: seq<byte>)
    requires f.Key? && IsValue(value) && Replaces(p, q, f, value) && NulFree(p) && HasKey(p, key, f.keyS)
    requires f.valueE == LineEnd(p, f.keyS) && f.valueS == EqualsAt(p, f.keyS, f.valueE) + 1
    ensures LineEnd(q, f.keyS) == f.valueS + |value| && EqualsAt(q, f.keyS, f.valueS + |value|) == f.valueS - 1
    ensures HasKey(q, other, f.keyS) == HasKey(p, other, f.keyS)
  {
    KeyLineReplaced(p, q, key, f, value);
    MatchesAgrees(other, p, q, f.valueS, f.keyS, f.valueS - 1);
  }

  /** A scan that stops at the written line finds the new value. */
  lemma LineHeld(q: seq<byte>, section: seq<byte>, other: seq<byte>, sec: Found, f: Found, value: seq<byte>)
    requires NulFree(q) && f.Key? && 0 < f.keyS <= |q| && sec.Section?
    requires !SectionEnds(q, f.keyS) && HasKey(q, other, f.keyS)
    requires LineEnd(q, f.keyS) == f.valueS + |value| && EqualsAt(q, f.keyS, f.valueS + |value|) == f.valueS - 1
    requires q[f.valueS..f.valueS + |value|] == value
    ensures Lines(q, section, other, f.keyS, sec) == Key(sec.secS, sec.secE, f.keyS, f.valueS, f.valueS + |value|)
  {
    StopsAt(q, section, other, f.keyS, sec);
  }

  /** At the written line the other scan, in whatever mode, stops or goes on in both texts. */
  lemma LineOthers(p: seq<byte>, q: seq<byte>, key: seq<byte>, away: seq<byte>, other: seq<byte>, a: Mode, f: Found, value: seq<byte>)
    requires NulFree(p) && NulFree(q) && f.Key? && f.keyS > 0 && a.Fits(f.keyS) && IsValue(value) && Replaces(p, q, f, value)
    requires !SectionEnds(p, f.keyS) && HasKey(p, key, f.keyS)
    requires f.valueE == LineEnd(p, f.keyS) && f.valueS == EqualsAt(p, f.keyS, f.valueE) + 1
    ensures Others(p, Resume(p, away, other, f.keyS, a), q, Resume(q, away, other, f.keyS, a), f, value)
  {
    SameHolder(p, q, key, other, f, value);
    assert At(q, f.keyS) == At(p, f.keyS) && At(q, f.keyS - 1) == At(p, f.keyS - 1);
    ReplacedTail(p, q, f, value);
    if a.Inner? && HasKey(p, other, f.keyS) {
      StopsAt(p, away, other, f.keyS, a.sec);
      LineHeld(q, away, other, a.sec, f, value);
    } else {
      LinePassed(p, q, away, other, a, f, value);
    }
  }

  lemma LinePassed(p: seq<byte>, q: seq<byte>, away: seq<byte>, other: seq<byte>, a: Mode, f: Found, value: seq<byte>)
    requires NulFree(p) && NulFree(q) && f.Key? && 0 < f.keyS <= |p| && f.keyS <= |q| && a.Fits(f.keyS)
    requires !SectionEnds(p, f.keyS) && !SectionEnds(q, f.keyS)
    requires a.Inner? ==> !HasKey(p, other, f.keyS) && !HasKey(q, other, f.keyS)
    requires f.valueE == LineEnd(p, f.keyS) && LineEnd(q, f.keyS) == f.valueS + |value|
    requires SameTail(p, f.valueE + 1, q, f.valueS + |value| + 1)
    ensures Others(p, Resume(p, away, other, f.keyS, a), q, Resume(q, away, other, f.keyS, a), f, value)
  {
    NextLine(p, away, other, f.keyS, a);
    NextLine(q, away, other, f.keyS, a);
    var g, g' := TailResumes(p, f.valueE + 1, a, q, f.valueS + |value| + 1, a, away, other);
  }

  /** What `read_profile_string` gives for a value. */
  function Cut(value: seq<byte>, size: nat): seq<byte>
    requires size > 0
  {
    value[..if size - 1 < |value| then size - 1 else |value|]
  }

  lemma ReadIsCut(t: seq<byte>, section: seq<byte>, key: seq<byte>, size: nat)
    requires NulFree(t) && size > 0
    ensures var f := ParseFileSpec(t, section, key);
      f.Key? ==> f.valueS <= f.valueE <= |t| && ReadSpec(t, section, key, size) == Value(Cut(t[f.valueS..f.valueE], size))
  {
    ScanBounds(t, section, key, 0, Nothing);
    var f := ParseFileSpec(t, section, key);
    if f.Key? {
      var count := f.valueE - f.valueS;
      var n := if size - 1 < count then size - 1 else count;
      assert t[f.valueS..f.valueE][..n] == t[f.valueS..f.valueS + n];
    }
  }

  /** Writing a key that is there changes another key, of the same or any other section, if and only if
      the scan for that key stops at the written line, and then to the new value. Since a line holds
      every key that its name is a prefix of, and a header every section, that can be. */
  lemma WriteKeepsOthers(t: seq<byte>, section: seq<byte>, key: seq<byte>, value: seq<byte>, away: seq<byte>, other: seq<byte>, size: nat)
    requires NulFree(t) && IsValue(value) && size > 0 && ParseFileSpec(t, section, key).Key?
    ensures NulFree(WriteSpec(t, section, key, value))
    ensures var f, g := ParseFileSpec(t, section, key), ParseFileSpec(t, away, other);
      ReadSpec(WriteSpec(t, section, key, value), away, other, size) ==
      if g.Key? && g.keyS == f.keyS then Value(Cut(value, size)) else ReadSpec(t, away, other, size)
  {
    var f := ParseFileSpec(t, section, key);
    var q := WriteSpec(t, section, key, value);
    ScanBounds(t, section, key, 0, Nothing);
    assert NulFree(q);
    ResumesOthers(t, q, section, key, away, other, 0, Outer(Nothing), Outer(Nothing), f, value);
    ReadIsCut(t, away, other, size);
    ReadIsCut(q, away, other, size);
  }

  /** "[s]" and the line "ke=1" */
  const SAMPLE: seq<byte> := [LBRACKET, 115, RBRACKET, LF, 107, 101, EQUALS, 49, LF]

  lemma SampleHolds(key: seq<byte>)
    requires |key| >= 2 && key[..2] == [107, 101]
    ensures ParseFileSpec(SAMPLE, [115], key) == Key(1, 4, 4, 7, 8)
  {
    BracketIs(SAMPLE, 1, 2);
    assert SAMPLE[1..2] == [115];
    EntersNew(SAMPLE, [115], key, 0, 2, Nothing);
    assert SpacesEnd(SAMPLE, 3) == SpacesEnd(SAMPLE, 4) == 4;
    LineEndIs(SAMPLE, 4, 8);
    EqualsIs(SAMPLE, 4, 6, 8);
    assert SAMPLE[4..6] == key[..2];
  }

  /** The line of "ke" also holds "key1": writing "key1" overwrites "ke". */
  lemma PrefixIsOverwritten()
    ensures ReadSpec(SAMPLE, [115], [107, 101], 9) == Value([49])
    ensures var t := WriteSpec(SAMPLE, [115], [107, 101, 121, 49], [50]);
      NulFree(t) && ReadSpec(t, [115], [107, 101], 9) == Value([50])
  {
    SampleHolds([107, 101]);
    SampleHolds([107, 101, 121, 49]);
    WriteKeepsOthers(SAMPLE, [115], [107, 101, 121, 49], [50], [115], [107, 101], 9);
    ReadIsCut(SAMPLE, [115], [107, 101], 9);
    assert SAMPLE[7..8] == [49];
  }
}
