/**
 What ikcc_service/src/src/xlinkgateway/inifile.c finds in a file, said of the lines of the file and in
 bytes: a line ends with LF (10), CR (13) or both. Every text is such a file, so this is what is read
 from any text, whoever wrote it.
 */
module IniReading {
  import opened Bytes
  import opened IniFile
  import opened Wrappers

  /** A line: what stands before its first `=`, what stands behind it if there is one, and its end. */
  datatype Line = Line(name: seq<byte>, value: Option<seq<byte>>, end: seq<byte>)

  /** A header, the white space behind it, and the lines up to the next line that starts with `[`. */
  datatype Part = Part(name: seq<byte>, gap: seq<byte>, lines: seq<Line>)

  /** The lines before the first header; the sections; and a `[` at the start of a line with no `]`
      behind it, if there is one. */
  datatype File = File(lines: seq<Line>, parts: seq<Part>, tail: seq<byte>)

  function LineText(l: Line): seq<byte> {
    l.name + if l.value.Some? then [61] + l.value.value else []
  }

  function LinesText(ls: seq<Line>): seq<byte> {
    if ls == [] then [] else LineText(ls[0]) + ls[0].end + LinesText(ls[1..])
  }

  function PartText(s: Part): seq<byte> {
    [91] + s.name + [93] + s.gap + LinesText(s.lines)
  }

  function PartsText(ss: seq<Part>): seq<byte> {
    if ss == [] then [] else PartText(ss[0]) + PartsText(ss[1..])
  }

  function Text(f: File): seq<byte> {
    LinesText(f.lines) + PartsText(f.parts) + f.tail
  }

  predicate OneLine(s: seq<byte>) {
    forall k :: 0 <= k < |s| ==> s[k] != 10 && s[k] != 13
  }

  predicate White(s: seq<byte>) {
    forall k :: 0 <= k < |s| ==> s[k] == 32 || 9 <= s[k] <= 13
  }

  predicate EndsLine(s: seq<byte>) {
    s != [] && (s[|s| - 1] == 10 || s[|s| - 1] == 13)
  }

  predicate LineOk(l: Line) {
    && 61 !in l.name && OneLine(LineText(l))
    && (l.end == [] || l.end == [10] || l.end == [13] || l.end == [13, 10])
  }

  /** Lines, of which the first is at the start of a line of the file or not, and behind which a header
      follows or the file ends. Only the last line of the file may lack an end. */
  predicate LinesOk(ls: seq<Line>, start: bool, more: bool) {
    if ls == [] then more ==> start
    else
      && LineOk(ls[0]) && (start && LineText(ls[0]) != [] ==> LineText(ls[0])[0] != 91)
      && (ls[0].end == [] ==> |ls| == 1 && !more)
      && LinesOk(ls[1..], true, more)
  }

  predicate PartOk(s: Part, more: bool) {
    && 93 !in s.name && White(s.gap) && LinesOk(s.lines, EndsLine(s.gap), more)
    && (s.lines != [] ==> LineText(s.lines[0]) != [] && !White(LineText(s.lines[0])[..1]))
  }

  predicate PartsOk(ss: seq<Part>, more: bool) {
    ss != [] ==> PartOk(ss[0], |ss| > 1 || more) && PartsOk(ss[1..], more)
  }

  predicate FileOk(f: File) {
    && LinesOk(f.lines, true, f.parts != [] || f.tail != []) && PartsOk(f.parts, f.tail != [])
    && (f.tail != [] ==> f.tail[0] == 91 && 93 !in f.tail)
  }

  // ---- what is read ----

  /** The line is no comment, and before its first `=` it has a prefix of the key, not the empty one. */
  predicate Holds(l: Line, key: seq<byte>) {
    l.value.Some? && l.name != [] && l.name[0] != 59 && l.name <= key
  }

  function FirstLine(ls: seq<Line>, key: seq<byte>): Option<seq<byte>> {
    if ls == [] then None
    else if Holds(ls[0], key) then ls[0].value
    else FirstLine(ls[1..], key)
  }

  /** The first such line behind a header whose name is a prefix of the section's. */
  function FirstIn(ss: seq<Part>, section: seq<byte>, key: seq<byte>): Option<seq<byte>> {
    if ss == [] then None
    else if ss[0].name <= section && FirstLine(ss[0].lines, key).Some? then FirstLine(ss[0].lines, key)
    else FirstIn(ss[1..], section, key)
  }

  // ---- where the scanner is ----

  predicate Has(p: seq<byte>, i: nat, s: seq<byte>) {
    i + |s| <= |p| && p[i..i + |s|] == s
  }

  lemma HasBoth(p: seq<byte>, i: nat, a: seq<byte>, b: seq<byte>)
    requires Has(p, i, a + b)
    ensures Has(p, i, a) && Has(p, i + |a|, b)
  {
    assert p[i..i + |a|] == p[i..i + |a + b|][..|a|];
    assert p[i + |a|..i + |a| + |b|] == p[i..i + |a + b|][|a|..];
  }

  lemma HasAt(p: seq<byte>, i: nat, s: seq<byte>, k: nat)
    requires Has(p, i, s) && k < |s|
    ensures p[i + k] == s[k]
  {
    assert p[i..i + |s|][k] == p[i + k];
  }

  /** At the start of a line? */
  predicate Starts(p: seq<byte>, i: nat)
    requires i <= |p|
  {
    i == 0 || p[i - 1] == 10 || p[i - 1] == 13
  }

  lemma {:induction false} LineEndIs(p: seq<byte>, i: nat, e: nat)
    requires i <= e <= |p| && OneLine(p[i..e]) && (e < |p| ==> p[e] == 10 || p[e] == 13)
    ensures LineEnd(p, i) == e
    decreases e - i
  {
    if i < e {
      assert p[i] == p[i..e][0];
      assert p[i + 1..e] == p[i..e][1..];
      LineEndIs(p, i + 1, e);
    }
  }

  lemma {:induction false} EqualsIs(p: seq<byte>, i: nat, j: nat, e: nat)
    requires i <= j <= e <= |p| && 61 !in p[i..j] && (j < e ==> p[j] == 61)
    ensures EqualsAt(p, i, e) == j
    decreases j - i
  {
    if i < j {
      assert p[i] == p[i..j][0];
      assert p[i + 1..j] == p[i..j][1..];
      EqualsIs(p, i + 1, j, e);
    }
  }

  lemma {:induction false} BracketIs(p: seq<byte>, i: nat, e: nat)
    requires i <= e <= |p| && 93 !in p[i..e] && (e < |p| ==> p[e] == 93)
    ensures Bracket(p, i) == e
    decreases e - i
  {
    if i < e {
      assert p[i] == p[i..e][0];
      assert p[i + 1..e] == p[i..e][1..];
      BracketIs(p, i + 1, e);
    }
  }

  lemma {:induction false} SpacesIs(p: seq<byte>, i: nat, e: nat)
    requires i <= e <= |p| && White(p[i..e]) && (e < |p| ==> !White([p[e]]))
    ensures SpacesEnd(p, i) == e
    decreases e - i
  {
    if i < e {
      assert p[i] == p[i..e][0];
      assert p[i + 1..e] == p[i..e][1..];
      SpacesIs(p, i + 1, e);
    } else if e < |p| {
      assert [p[e]][0] == p[e];
    }
  }

  /** Where no header starts, the scanner goes on. */
  lemma {:induction false} ScanPasses(p: seq<byte>, section: seq<byte>, key: seq<byte>, i: nat, j: nat, last: Found)
    requires NulFree(p) && i <= j <= |p| && forall k :: i <= k < j ==> !IsHeader(p, k)
    ensures Scan(p, section, key, i, last) == Scan(p, section, key, j, last)
    decreases j - i
  {
    if i < j {
      ScanPasses(p, section, key, i + 1, j, last);
    }
  }

  // ---- one line ----

  lemma LineReads(p: seq<byte>, key: seq<byte>, i: nat, l: Line, e: nat)
    requires LineOk(l) && Has(p, i, LineText(l)) && e == i + |LineText(l)| && (e < |p| ==> p[e] == 10 || p[e] == 13)
    ensures LineEnd(p, i) == e && (HasKey(p, key, i) <==> Holds(l, key))
    ensures Holds(l, key) ==> EqualsAt(p, i, e) == i + |l.name| < e && p[i + |l.name| + 1..e] == l.value.value
  {
    var j := i + |l.name|;
    LineEndIs(p, i, e);
    LineParts(p, i, l);
    EqualsIs(p, i, j, e);
    if l.name != [] {
      HasAt(p, i, l.name, 0);
      NamePrefix(p, key, i, l.name);
    }
  }

  lemma LineParts(p: seq<byte>, i: nat, l: Line)
    requires Has(p, i, LineText(l))
    ensures Has(p, i, l.name)
    ensures var j, e := i + |l.name|, i + |LineText(l)|;
      if l.value.Some? then j < e && p[j] == 61 && p[j + 1..e] == l.value.value else j == e
  {
    if l.value.Some? {
      HasBoth(p, i, l.name, [61] + l.value.value);
      HasBoth(p, i + |l.name|, [61], l.value.value);
      HasAt(p, i + |l.name|, [61], 0);
    } else {
      assert LineText(l) == l.name;
    }
  }

  lemma NamePrefix(p: seq<byte>, key: seq<byte>, i: nat, name: seq<byte>)
    requires Has(p, i, name)
    ensures Matches(key, p, i, i + |name|) <==> name <= key
  {
  }

  /** The bytes around the end of a line. */
  lemma LineStops(p: seq<byte>, i: nat, l: Line)
    requires LineOk(l) && l.end != [] && Has(p, i, LineText(l) + l.end)
    ensures var e := i + |LineText(l)|;
      && Has(p, i, LineText(l)) && e < |p| && (p[e] == 10 || p[e] == 13) && (LineText(l) != [] ==> p[i] == LineText(l)[0])
      && (|l.end| == 2 ==> e + 1 < |p| && p[e + 1] == 10) && |LineText(l) + l.end| == |LineText(l)| + |l.end| && |l.end| <= 2
  {
    var e := i + |LineText(l)|;
    HasBoth(p, i, LineText(l), l.end);
    HasAt(p, e, l.end, 0);
    if LineText(l) != [] {
      HasAt(p, i, LineText(l), 0);
    }
    if |l.end| == 2 {
      HasAt(p, e, l.end, 1);
    }
  }

  /** A whole line that does not hold the key is passed, with its end. */
  lemma LinePasses(p: seq<byte>, section: seq<byte>, key: seq<byte>, i: nat, l: Line, sec: Found)
    requires NulFree(p) && i > 0 && sec.Section? && LineOk(l) && l.end != [] && Has(p, i, LineText(l) + l.end)
    requires !Holds(l, key) && (Starts(p, i) && LineText(l) != [] ==> LineText(l)[0] != 91)
    ensures Lines(p, section, key, i, sec) == Lines(p, section, key, i + |LineText(l) + l.end|, sec)
  {
    var e := i + |LineText(l)|;
    LineStops(p, i, l);
    LineReads(p, key, i, l, e);
    NextLine(p, section, key, i, e, sec);
    if |l.end| == 2 {
      EmptyLinePasses(p, section, key, e + 1, sec);
    }
  }

  lemma NextLine(p: seq<byte>, section: seq<byte>, key: seq<byte>, i: nat, e: nat, sec: Found)
    requires NulFree(p) && 0 < i < |p| && sec.Section? && LineEnd(p, i) == e && !HasKey(p, key, i)
    requires Starts(p, i) ==> p[i] != 91
    ensures Lines(p, section, key, i, sec) == Lines(p, section, key, e + 1, sec)
  {
  }

  lemma EmptyLinePasses(p: seq<byte>, section: seq<byte>, key: seq<byte>, i: nat, sec: Found)
    requires NulFree(p) && 0 < i < |p| && sec.Section? && p[i] == 10
    ensures Lines(p, section, key, i, sec) == Lines(p, section, key, i + 1, sec)
  {
    LineEndIs(p, i, i);
  }

  /** The value of a line that holds the key is found. */
  lemma LineIsFound(p: seq<byte>, section: seq<byte>, key: seq<byte>, i: nat, l: Line, sec: Found)
    requires NulFree(p) && i > 0 && sec.Section? && LineOk(l) && Has(p, i, LineText(l) + l.end)
    requires i + |LineText(l)| < |p| ==> l.end != []
    requires Holds(l, key) && (IsNewline(p[i - 1]) ==> LineText(l)[0] != 91)
    ensures Gives(p, Lines(p, section, key, i, sec), Some(Hit(i + |l.name| + 1, l.value.value)), sec)
  {
    var e := i + |LineText(l)|;
    HasBoth(p, i, LineText(l), l.end);
    if l.end != [] {
      HasAt(p, e, l.end, 0);
    }
    HasAt(p, i, LineText(l), 0);
    LineReads(p, key, i, l, e);
  }

  /** A value, and where it is in the file. */
  datatype Hit = Hit(at: nat, text: seq<byte>)

  /** What is found is this value, or, without one, `none`. */
  predicate Gives(p: seq<byte>, f: Found, v: Option<Hit>, none: Found) {
    if v.None? then f == none
    else f.Key? && f.valueS == v.value.at <= f.valueE <= |p| && p[f.valueS..f.valueE] == v.value.text
  }

  /** The value that lines from `i` on give. */
  function FirstHit(ls: seq<Line>, key: seq<byte>, i: nat): Option<Hit> {
    if ls == [] then None
    else if Holds(ls[0], key) then Some(Hit(i + |ls[0].name| + 1, ls[0].value.value))
    else FirstHit(ls[1..], key, i + |LineText(ls[0]) + ls[0].end|)
  }

  // ---- the lines of a section ----

  /** A header follows at `j`, or the file ends there. */
  predicate Stops(p: seq<byte>, j: nat, more: bool) {
    if more then j < |p| && p[j] == 91 else j == |p|
  }

  /** From `i` on the lines of the section give this value, or are read up to `j`. */
  predicate Reads(p: seq<byte>, section: seq<byte>, key: seq<byte>, i: nat, j: nat, v: Option<Hit>, sec: Found)
    requires NulFree(p) && i > 0 && sec.Section?
  {
    if v.Some? then Gives(p, Lines(p, section, key, i, sec), v, sec)
    else Lines(p, section, key, i, sec) == Scan(p, section, key, j, sec)
  }

  /** From `i` to `j` there are these lines. */
  predicate LinesAt(p: seq<byte>, i: nat, ls: seq<Line>, j: nat, more: bool) {
    && i <= |p| && Has(p, i, LinesText(ls)) && LinesOk(ls, Starts(p, i), more)
    && j == i + |LinesText(ls)| && Stops(p, j, more)
  }

  predicate LineAt(p: seq<byte>, i: nat, l: Line) {
    LineOk(l) && Has(p, i, LineText(l) + l.end) && (Starts(p, i) && LineText(l) != [] ==> LineText(l)[0] != 91)
  }

  /** The value of this line, or else of those behind. */
  function LineHit(l: Line, key: seq<byte>, i: nat, others: Option<Hit>): Option<Hit> {
    if Holds(l, key) then Some(Hit(i + |l.name| + 1, l.value.value)) else others
  }

  lemma FirstLineAt(p: seq<byte>, key: seq<byte>, i: nat, ls: seq<Line>, j: nat, more: bool)
    requires ls != [] && LinesAt(p, i, ls, j, more)
    ensures var n := i + |LineText(ls[0]) + ls[0].end|;
      && LineAt(p, i, ls[0]) && FirstHit(ls, key, i) == LineHit(ls[0], key, i, FirstHit(ls[1..], key, n))
      && if ls[0].end == [] then FirstHit(ls[1..], key, n) == None && j == |p| == i + |LineText(ls[0])|
         else LinesAt(p, n, ls[1..], j, more)
  {
    FirstOf(p, i, ls, Starts(p, i), more);
    FirstHitOf(ls, key, i);
    if ls[0].end != [] {
      LineStarts(p, i, ls[0]);
    }
  }

  lemma {:induction false} LinesRead(p: seq<byte>, section: seq<byte>, key: seq<byte>, i: nat, ls: seq<Line>, j: nat, more: bool, sec: Found)
    requires NulFree(p) && i > 0 && sec.Section? && LinesAt(p, i, ls, j, more)
    ensures Reads(p, section, key, i, j, FirstHit(ls, key, i), sec)
    decreases |ls|
  {
    if ls == [] {
      NoLinesRead(p, section, key, i, more, sec);
    } else {
      var l := ls[0];
      var n := i + |LineText(l) + l.end|;
      FirstLineAt(p, key, i, ls, j, more);
      if l.end != [] {
        LinesRead(p, section, key, n, ls[1..], j, more, sec);
      }
      LineGoesOn(p, section, key, i, l, j, FirstHit(ls[1..], key, n), sec);
    }
  }

  /** A line in front of what is read already. */
  lemma LineGoesOn(p: seq<byte>, section: seq<byte>, key: seq<byte>, i: nat, l: Line, j: nat, v: Option<Hit>, sec: Found)
    requires NulFree(p) && i > 0 && sec.Section? && LineAt(p, i, l)
    requires if l.end == [] then v == None && j == |p| == i + |LineText(l)|
             else Reads(p, section, key, i + |LineText(l) + l.end|, j, v, sec)
    ensures Reads(p, section, key, i, j, LineHit(l, key, i, v), sec)
  {
    if Holds(l, key) {
      FoundLineReads(p, section, key, i, l, j, sec);
    } else if l.end == [] {
      LastLineReads(p, section, key, i, l, sec);
    } else {
      LinePassesOn(p, section, key, i, l, j, v, sec);
    }
  }

  lemma FirstOf(p: seq<byte>, i: nat, ls: seq<Line>, start: bool, more: bool)
    requires ls != [] && Has(p, i, LinesText(ls)) && LinesOk(ls, start, more)
    ensures var l := ls[0]; var n := |LineText(l) + l.end|;
      && LineOk(l) && (start && LineText(l) != [] ==> LineText(l)[0] != 91) && LinesOk(ls[1..], true, more)
      && Has(p, i, LineText(l) + l.end) && Has(p, i + n, LinesText(ls[1..])) && |LinesText(ls)| == n + |LinesText(ls[1..])|
      && (l.end == [] ==> ls[1..] == [] && LinesText(ls[1..]) == [] && !more)
  {
    FirstText(p, i, ls);
    if ls[0].end == [] {
      OnlyLine(ls, start, more);
    }
  }

  lemma FirstText(p: seq<byte>, i: nat, ls: seq<Line>)
    requires ls != [] && Has(p, i, LinesText(ls))
    ensures var first, rest := LineText(ls[0]) + ls[0].end, LinesText(ls[1..]);
      Has(p, i, first) && Has(p, i + |first|, rest) && |LinesText(ls)| == |first| + |rest|
  {
    HasBoth(p, i, LineText(ls[0]) + ls[0].end, LinesText(ls[1..]));
  }

  lemma OnlyLine(ls: seq<Line>, start: bool, more: bool)
    requires ls != [] && LinesOk(ls, start, more) && ls[0].end == []
    ensures ls[1..] == [] && LinesText(ls[1..]) == [] && !more
  {
  }

  lemma FirstHitOf(ls: seq<Line>, key: seq<byte>, i: nat)
    requires ls != []
    ensures var n := i + |LineText(ls[0]) + ls[0].end|;
      FirstHit(ls, key, i) == LineHit(ls[0], key, i, FirstHit(ls[1..], key, n)) && (ls[1..] == [] ==> FirstHit(ls[1..], key, n) == None)
  {
  }

  lemma FoundLineReads(p: seq<byte>, section: seq<byte>, key: seq<byte>, i: nat, l: Line, j: nat, sec: Found)
    requires NulFree(p) && i > 0 && sec.Section? && LineOk(l) && Has(p, i, LineText(l) + l.end)
    requires i + |LineText(l)| < |p| ==> l.end != []
    requires Holds(l, key) && (Starts(p, i) && LineText(l) != [] ==> LineText(l)[0] != 91)
    ensures Reads(p, section, key, i, j, Some(Hit(i + |l.name| + 1, l.value.value)), sec)
  {
    LineIsFound(p, section, key, i, l, sec);
  }

  lemma LastLineReads(p: seq<byte>, section: seq<byte>, key: seq<byte>, i: nat, l: Line, sec: Found)
    requires NulFree(p) && i > 0 && sec.Section? && LineOk(l) && Has(p, i, LineText(l) + l.end) && l.end == []
    requires i + |LineText(l)| == |p|
    requires !Holds(l, key) && (Starts(p, i) && LineText(l) != [] ==> LineText(l)[0] != 91)
    ensures Reads(p, section, key, i, |p|, None, sec)
  {
    HasBoth(p, i, LineText(l), l.end);
    LastLinePasses(p, section, key, i, l, sec);
  }

  lemma NoLinesRead(p: seq<byte>, section: seq<byte>, key: seq<byte>, i: nat, more: bool, sec: Found)
    requires NulFree(p) && 0 < i <= |p| && sec.Section? && (more ==> Starts(p, i)) && Stops(p, i, more)
    ensures Reads(p, section, key, i, i, None, sec)
  {
  }

  lemma LinePassesOn(p: seq<byte>, section: seq<byte>, key: seq<byte>, i: nat, l: Line, j: nat, v: Option<Hit>, sec: Found)
    requires NulFree(p) && i > 0 && sec.Section? && LineOk(l) && l.end != [] && Has(p, i, LineText(l) + l.end)
    requires !Holds(l, key) && (Starts(p, i) && LineText(l) != [] ==> LineText(l)[0] != 91)
    requires Reads(p, section, key, i + |LineText(l) + l.end|, j, v, sec)
    ensures Reads(p, section, key, i, j, v, sec)
  {
    LinePasses(p, section, key, i, l, sec);
  }

  /** Behind the end of a line a line starts. */
  lemma LineStarts(p: seq<byte>, i: nat, l: Line)
    requires LineOk(l) && l.end != [] && Has(p, i, LineText(l) + l.end)
    ensures Starts(p, i + |LineText(l) + l.end|)
  {
    HasBoth(p, i, LineText(l), l.end);
    HasAt(p, i + |LineText(l)|, l.end, |l.end| - 1);
  }

  lemma AtTheEnd(p: seq<byte>, section: seq<byte>, key: seq<byte>, sec: Found)
    requires NulFree(p) && sec.Section?
    ensures Scan(p, section, key, |p|, sec) == sec && Lines(p, section, key, |p| + 1, sec) == sec
    ensures p != [] ==> Lines(p, section, key, |p|, sec) == sec
  {
  }

  lemma LastLinePasses(p: seq<byte>, section: seq<byte>, key: seq<byte>, i: nat, l: Line, sec: Found)
    requires NulFree(p) && i > 0 && sec.Section? && LineOk(l) && Has(p, i, LineText(l)) && i + |LineText(l)| == |p|
    requires !Holds(l, key) && (Starts(p, i) && LineText(l) != [] ==> LineText(l)[0] != 91)
    ensures Lines(p, section, key, i, sec) == sec == Scan(p, section, key, |p|, sec)
  {
    if LineText(l) != [] {
      HasAt(p, i, LineText(l), 0);
      LineReads(p, key, i, l, |p|);
      NextLine(p, section, key, i, |p|, sec);
    }
    AtTheEnd(p, section, key, sec);
  }

  // ---- between the headers ----

  /** No header starts from `i` on and before `j`. */
  predicate NoHeaders(p: seq<byte>, i: nat, j: nat) {
    forall k :: i <= k < j ==> !IsHeader(p, k)
  }

  lemma NoHeadersInLine(p: seq<byte>, i: nat, l: Line)
    requires LineOk(l) && Has(p, i, LineText(l) + l.end) && (Starts(p, i) && LineText(l) != [] ==> LineText(l)[0] != 91)
    ensures NoHeaders(p, i, i + |LineText(l) + l.end|)
  {
    var all := LineText(l) + l.end;
    forall k | i <= k < i + |all| ensures !IsHeader(p, k) {
      HasAt(p, i, all, k - i);
      if k > i {
        HasAt(p, i, all, k - i - 1);
      }
    }
  }

  /** Where lines are, no header starts, and where another header follows a line starts. */
  predicate Plain(p: seq<byte>, i: nat, j: nat, more: bool) {
    i <= j <= |p| && NoHeaders(p, i, j) && (more ==> Starts(p, j))
  }

  lemma PlainOn(p: seq<byte>, i: nat, n: nat, j: nat, more: bool)
    requires i <= n && NoHeaders(p, i, n) && Plain(p, n, j, more)
    ensures Plain(p, i, j, more)
  {
  }

  lemma {:induction false} LinesArePlain(p: seq<byte>, i: nat, ls: seq<Line>, j: nat, more: bool)
    requires i <= |p| && Has(p, i, LinesText(ls)) && LinesOk(ls, Starts(p, i), more) && j == i + |LinesText(ls)|
    ensures Plain(p, i, j, more)
    decreases |ls|
  {
    if ls != [] {
      FirstOf(p, i, ls, Starts(p, i), more);
      var l, n := ls[0], i + |LineText(ls[0]) + ls[0].end|;
      NoHeadersInLine(p, i, l);
      if l.end != [] {
        LineStarts(p, i, l);
        LinesArePlain(p, n, ls[1..], j, more);
      }
      PlainOn(p, i, n, j, more);
    }
  }

  /** The pieces of a section. */
  lemma PartPieces(p: seq<byte>, i: nat, s: Part)
    requires Has(p, i, PartText(s))
    ensures var close, body := i + 1 + |s.name|, i + 2 + |s.name| + |s.gap|;
      && p[i] == 91 && Has(p, i + 1, s.name) && close < |p| && p[close] == 93 && Has(p, close + 1, s.gap)
      && Has(p, body, LinesText(s.lines)) && i + |PartText(s)| == body + |LinesText(s.lines)|
  {
    HasBoth(p, i, [91] + s.name + [93] + s.gap, LinesText(s.lines));
    HasBoth(p, i, [91] + s.name + [93], s.gap);
    HasBoth(p, i, [91] + s.name, [93]);
    HasBoth(p, i, [91], s.name);
    HasAt(p, i, [91], 0);
    HasAt(p, i + 1 + |s.name|, [93], 0);
  }

  lemma GapEnds(p: seq<byte>, at: nat, gap: seq<byte>)
    requires at > 0 && Has(p, at, gap) && p[at - 1] == 93
    ensures Starts(p, at + |gap|) <==> EndsLine(gap)
  {
    if gap != [] {
      HasAt(p, at, gap, |gap| - 1);
    }
  }

  /** The white space behind a header ends where its lines start. */
  lemma GapIs(p: seq<byte>, at: nat, s: Part, body: nat, j: nat, more: bool)
    requires body == at + |s.gap| && j == body + |LinesText(s.lines)| && Stops(p, j, more)
    requires Has(p, at, s.gap) && Has(p, body, LinesText(s.lines)) && PartOk(s, more)
    ensures SpacesEnd(p, at) == body
  {
    if s.lines != [] {
      FirstOf(p, body, s.lines, EndsLine(s.gap), more);
      HasBoth(p, body, LineText(s.lines[0]), s.lines[0].end);
      HasAt(p, body, LineText(s.lines[0]), 0);
      assert LineText(s.lines[0])[..1] == [p[body]];
    } else if body < |p| {
      assert [p[body]][0] == 91;
    }
    SpacesIs(p, at, body);
  }

  lemma PartIsPlain(p: seq<byte>, i: nat, s: Part, more: bool)
    requires Has(p, i, PartText(s)) && PartOk(s, more)
    ensures Plain(p, i + 1 + |s.name|, i + |PartText(s)|, more)
  {
    PartPieces(p, i, s);
    var at := i + 2 + |s.name|;
    GapEnds(p, at, s.gap);
    BehindHeader(p, at, s.gap, s.lines, i + |PartText(s)|, more);
  }

  lemma BehindHeader(p: seq<byte>, at: nat, gap: seq<byte>, ls: seq<Line>, j: nat, more: bool)
    requires 0 < at && Has(p, at, gap) && White(gap) && p[at - 1] == 93 && Has(p, at + |gap|, LinesText(ls))
    requires LinesOk(ls, Starts(p, at + |gap|), more) && j == at + |gap| + |LinesText(ls)|
    ensures Plain(p, at - 1, j, more)
  {
    LinesArePlain(p, at + |gap|, ls, j, more);
    GapIsPlain(p, at, gap);
    PlainOn(p, at, at + |gap|, j, more);
    PlainOn(p, at - 1, at, j, more);
  }

  lemma GapIsPlain(p: seq<byte>, at: nat, gap: seq<byte>)
    requires Has(p, at, gap) && White(gap)
    ensures NoHeaders(p, at, at + |gap|)
  {
    forall k | at <= k < at + |gap| ensures !IsHeader(p, k) {
      HasAt(p, at, gap, k - at);
    }
  }

  /** A header is read: its name is compared, and its lines are read if it names the section. */
  lemma HeaderReads(p: seq<byte>, section: seq<byte>, key: seq<byte>, i: nat, s: Part, last: Found)
    requires NulFree(p) && Has(p, i, PartText(s)) && 93 !in s.name && Starts(p, i)
    ensures var close := i + 1 + |s.name|; var body := SpacesEnd(p, close + 1);
      Scan(p, section, key, i, last)
      == (if s.name <= section then Lines(p, section, key, body, Section(i + 1, body)) else Scan(p, section, key, close, last))
  {
    PartPieces(p, i, s);
    BracketIs(p, i + 1, i + 1 + |s.name|);
    NamePrefix(p, section, i + 1, s.name);
    HeaderStep(p, section, key, i, i + 1 + |s.name|, last);
  }

  lemma HeaderStep(p: seq<byte>, section: seq<byte>, key: seq<byte>, i: nat, close: nat, last: Found)
    requires NulFree(p) && i < |p| && p[i] == 91 && Starts(p, i) && close == Bracket(p, i + 1)
    ensures var body := SpacesEnd(p, close + 1);
      Scan(p, section, key, i, last)
      == (if Matches(section, p, i + 1, close) then Lines(p, section, key, body, Section(i + 1, body))
          else Scan(p, section, key, close, last))
  {
  }

  /** Where the lines of a section start. */
  function Body(s: Part, i: nat): nat {
    i + 2 + |s.name| + |s.gap|
  }

  /** The value that a section at `i` gives. */
  function PartHit(s: Part, section: seq<byte>, key: seq<byte>, i: nat): Option<Hit> {
    if s.name <= section then FirstHit(s.lines, key, Body(s, i)) else None
  }

  /** The latest header that names the section, when the section at `i` has been passed. */
  function Latest(s: Part, section: seq<byte>, i: nat, last: Found): Found {
    if s.name <= section then Section(i + 1, Body(s, i)) else last
  }

  predicate PartGives(p: seq<byte>, section: seq<byte>, key: seq<byte>, i: nat, j: nat, v: Option<Hit>, last: Found, next: Found)
    requires NulFree(p)
  {
    if v.Some? then Gives(p, Scan(p, section, key, i, last), v, next)
    else Scan(p, section, key, i, last) == Scan(p, section, key, j, next)
  }

  /** A section gives its value, or is passed. */
  lemma PartReads(p: seq<byte>, section: seq<byte>, key: seq<byte>, i: nat, s: Part, j: nat, more: bool, last: Found)
    requires NulFree(p) && Splits(p, i, s, j, more)
    ensures PartGives(p, section, key, i, j, PartHit(s, section, key, i), last, Latest(s, section, i, last))
  {
    HeaderReads(p, section, key, i, s, last);
    var close := i + 1 + |s.name|;
    if s.name <= section {
      PartLinesRead(p, section, key, i, s, j, more);
    } else {
      PartIsPlain(p, i, s, more);
      ScanPasses(p, section, key, close, j, last);
    }
  }

  /** Where the lines of a section are. */
  lemma PartFits(p: seq<byte>, at: nat, s: Part, body: nat, j: nat, more: bool)
    requires at > 0 && body == at + |s.gap| && j == body + |LinesText(s.lines)| && Stops(p, j, more) && p[at - 1] == 93
    requires Has(p, at, s.gap) && Has(p, body, LinesText(s.lines)) && PartOk(s, more)
    ensures SpacesEnd(p, at) == body <= |p| && LinesOk(s.lines, Starts(p, body), more)
  {
    GapIs(p, at, s, body, j, more);
    GapEnds(p, at, s.gap);
  }

  lemma PartAt(p: seq<byte>, i: nat, s: Part, body: nat, j: nat, more: bool)
    requires Has(p, i, PartText(s)) && PartOk(s, more) && j == i + |PartText(s)| && Stops(p, j, more)
    requires body == i + 2 + |s.name| + |s.gap|
    ensures SpacesEnd(p, i + 2 + |s.name|) == body <= |p| && LinesOk(s.lines, Starts(p, body), more)
    ensures Has(p, body, LinesText(s.lines)) && j == body + |LinesText(s.lines)|
  {
    PartPieces(p, i, s);
    PartFits(p, i + 2 + |s.name|, s, body, j, more);
  }

  lemma PartLinesRead(p: seq<byte>, section: seq<byte>, key: seq<byte>, i: nat, s: Part, j: nat, more: bool)
    requires NulFree(p) && Has(p, i, PartText(s)) && PartOk(s, more) && j == i + |PartText(s)| && Stops(p, j, more)
    ensures var body := Body(s, i);
      SpacesEnd(p, i + 2 + |s.name|) == body && Reads(p, section, key, body, j, FirstHit(s.lines, key, body), Section(i + 1, body))
  {
    PartAt(p, i, s, Body(s, i), j, more);
    LinesRead(p, section, key, Body(s, i), s.lines, j, more, Section(i + 1, Body(s, i)));
  }

  // ---- the whole file ----

  /** A header that is never closed gives nothing; it may name the section. */
  function TailFound(tail: seq<byte>, section: seq<byte>, i: nat, last: Found): Found {
    if tail != [] && tail[1..] <= section then Section(i + 1, i + |tail| + 1) else last
  }

  lemma TailReads(p: seq<byte>, section: seq<byte>, key: seq<byte>, i: nat, tail: seq<byte>, last: Found)
    requires NulFree(p) && Has(p, i, tail) && i + |tail| == |p|
    requires tail != [] ==> tail[0] == 91 && 93 !in tail && Starts(p, i)
    ensures Scan(p, section, key, i, last) == TailFound(tail, section, i, last)
  {
    if tail != [] {
      HasBoth(p, i, [91], tail[1..]);
      HasAt(p, i, tail, 0);
      BracketIs(p, i + 1, |p|);
      NamePrefix(p, section, i + 1, tail[1..]);
      HeaderStep(p, section, key, i, |p|, last);
      BehindTheEnd(p, section, key, i, last);
    }
  }

  lemma BehindTheEnd(p: seq<byte>, section: seq<byte>, key: seq<byte>, i: nat, last: Found)
    requires NulFree(p)
    ensures SpacesEnd(p, |p| + 1) == |p| + 1 && Scan(p, section, key, |p|, last) == last
    ensures Lines(p, section, key, |p| + 1, Section(i + 1, |p| + 1)) == Section(i + 1, |p| + 1)
  {
    AtTheEnd(p, section, key, Section(i + 1, |p| + 1));
  }

  /** The text behind a section starts with a header, or is empty. */
  lemma RestStarts(ss: seq<Part>, tail: seq<byte>)
    requires tail != [] ==> tail[0] == 91
    ensures var rest := PartsText(ss) + tail; if ss != [] || tail != [] then rest != [] && rest[0] == 91 else rest == []
  {
    if ss != [] {
      assert PartText(ss[0])[0] == 91;
    }
  }

  /** From `i` on, these sections and this tail are the rest of the file. */
  predicate Remains(p: seq<byte>, i: nat, ss: seq<Part>, tail: seq<byte>) {
    && Has(p, i, PartsText(ss) + tail) && i + |PartsText(ss) + tail| == |p|
    && PartsOk(ss, tail != []) && (tail != [] ==> tail[0] == 91 && 93 !in tail)
    && (ss != [] || tail != [] ==> Starts(p, i))
  }

  /** The first section, and what remains. */
  predicate Splits(p: seq<byte>, i: nat, s: Part, j: nat, more: bool) {
    j == i + |PartText(s)| && Has(p, i, PartText(s)) && PartOk(s, more) && Stops(p, j, more) && Starts(p, i)
  }

  lemma FirstPart(p: seq<byte>, i: nat, ss: seq<Part>, tail: seq<byte>)
    requires ss != [] && Remains(p, i, ss, tail)
    ensures var j := i + |PartText(ss[0])|;
      Splits(p, i, ss[0], j, |ss| > 1 || tail != []) && Remains(p, j, ss[1..], tail)
  {
    var j, rest := i + |PartText(ss[0])|, PartsText(ss[1..]) + tail;
    AppendAssociates(PartText(ss[0]), PartsText(ss[1..]), tail);
    HasBoth(p, i, PartText(ss[0]), rest);
    RestStarts(ss[1..], tail);
    if rest != [] {
      HasAt(p, j, rest, 0);
    }
    PartIsPlain(p, i, ss[0], |ss| > 1 || tail != []);
  }

  /** The value that sections from `i` on give, and the latest header if they give none. */
  function HitIn(ss: seq<Part>, section: seq<byte>, key: seq<byte>, i: nat): Option<Hit> {
    if ss == [] then None
    else if PartHit(ss[0], section, key, i).Some? then PartHit(ss[0], section, key, i)
    else HitIn(ss[1..], section, key, i + |PartText(ss[0])|)
  }

  function HeaderIn(ss: seq<Part>, tail: seq<byte>, section: seq<byte>, i: nat, last: Found): Found {
    if ss == [] then TailFound(tail, section, i, last)
    else HeaderIn(ss[1..], tail, section, i + |PartText(ss[0])|, Latest(ss[0], section, i, last))
  }

  lemma {:induction false} PartsRead(p: seq<byte>, section: seq<byte>, key: seq<byte>, i: nat, ss: seq<Part>, tail: seq<byte>, last: Found)
    requires NulFree(p) && Remains(p, i, ss, tail)
    ensures Gives(p, Scan(p, section, key, i, last), HitIn(ss, section, key, i), HeaderIn(ss, tail, section, i, last))
    decreases |ss|
  {
    if ss == [] {
      assert PartsText(ss) + tail == tail;
      TailReads(p, section, key, i, tail, last);
    } else {
      var j := i + |PartText(ss[0])|;
      var next := Latest(ss[0], section, i, last);
      FirstPart(p, i, ss, tail);
      PartReads(p, section, key, i, ss[0], j, |ss| > 1 || tail != [], last);
      PartsRead(p, section, key, j, ss[1..], tail, next);
      GivesOn(p, section, key, i, j, PartHit(ss[0], section, key, i), HitIn(ss[1..], section, key, j), last, next,
              HeaderIn(ss[1..], tail, section, j, next));
    }
  }

  lemma GivesOn(p: seq<byte>, section: seq<byte>, key: seq<byte>, i: nat, j: nat, v: Option<Hit>, w: Option<Hit>, last: Found, next: Found, none: Found)
    requires NulFree(p) && PartGives(p, section, key, i, j, v, last, next)
    requires Gives(p, Scan(p, section, key, j, next), w, none)
    ensures Gives(p, Scan(p, section, key, i, last), if v.Some? then v else w, none)
  {
  }

  /** Where in the file the value is found, and else which header. */
  lemma FileReads(f: File, section: seq<byte>, key: seq<byte>)
    requires FileOk(f) && NulFree(Text(f))
    ensures var n := |LinesText(f.lines)|;
      Gives(Text(f), ParseFileSpec(Text(f), section, key), HitIn(f.parts, section, key, n),
            HeaderIn(f.parts, f.tail, section, n, Nothing))
  {
    var p, n := Text(f), |LinesText(f.lines)|;
    FilePieces(f);
    LinesArePlain(p, 0, f.lines, n, f.parts != [] || f.tail != []);
    ScanPasses(p, section, key, 0, n, Nothing);
    PartsRead(p, section, key, n, f.parts, f.tail, Nothing);
  }

  lemma {:induction false} HitIsFirstLine(ls: seq<Line>, key: seq<byte>, i: nat)
    ensures var h := FirstHit(ls, key, i); FirstLine(ls, key) == if h.Some? then Some(h.value.text) else None
  {
    if ls != [] {
      HitIsFirstLine(ls[1..], key, i + |LineText(ls[0]) + ls[0].end|);
    }
  }

  lemma {:induction false} HitIsFirst(ss: seq<Part>, section: seq<byte>, key: seq<byte>, i: nat)
    ensures var h := HitIn(ss, section, key, i); FirstIn(ss, section, key) == if h.Some? then Some(h.value.text) else None
  {
    if ss != [] {
      HitIsFirstLine(ss[0].lines, key, Body(ss[0], i));
      HitIsFirst(ss[1..], section, key, i + |PartText(ss[0])|);
    }
  }

  lemma {:induction false} HeaderIsNoKey(ss: seq<Part>, tail: seq<byte>, section: seq<byte>, i: nat, last: Found)
    requires !last.Key?
    ensures !HeaderIn(ss, tail, section, i, last).Key?
  {
    if ss != [] {
      HeaderIsNoKey(ss[1..], tail, section, i + |PartText(ss[0])|, Latest(ss[0], section, i, last));
    }
  }

  lemma FilePieces(f: File)
    ensures var p, n := Text(f), |LinesText(f.lines)|;
      Has(p, 0, LinesText(f.lines)) && Has(p, n, PartsText(f.parts) + f.tail) && n + |PartsText(f.parts) + f.tail| == |p|
  {
    var p := Text(f);
    assert p == LinesText(f.lines) + (PartsText(f.parts) + f.tail);
    assert p[0..|p|] == p;
    HasBoth(p, 0, LinesText(f.lines), PartsText(f.parts) + f.tail);
  }

  /** What `read_profile_string` reads from a file: what stands behind the first `=` of the first line,
      behind a header that names the section, that holds the key, cut to fit; the default if and only if
      there is no such line. */
  lemma ReadsFirst(f: File, section: seq<byte>, key: seq<byte>, size: nat)
    requires FileOk(f) && NulFree(Text(f)) && size > 0
    ensures ReadSpec(Text(f), section, key, size)
         == match FirstIn(f.parts, section, key)
            case Some(v) => Value(if |v| < size then v else v[..size - 1])
            case None => Default
  {
    FileReads(f, section, key);
    HitIsFirst(f.parts, section, key, |LinesText(f.lines)|);
    HeaderIsNoKey(f.parts, f.tail, section, |LinesText(f.lines)|, Nothing);
    var found := ParseFileSpec(Text(f), section, key);
    ScanBounds(Text(f), section, key, 0, Nothing);
    if found.Key? {
      Cut(Text(f), found.valueS, found.valueE, size - 1);
    }
  }

  lemma Cut(t: seq<byte>, a: nat, b: nat, most: nat)
    requires a <= b <= |t|
    ensures t[a..a + if most < b - a then most else b - a] == if b - a <= most then t[a..b] else t[a..b][..most]
  {
  }
}
