/** Every text is a file of lines, sections and perhaps an unclosed header, as IniReading says. */
module IniLines {
  import opened Bytes
  import opened IniFile
  import opened IniReading
  import opened Wrappers

  /** The length of a text up to the first byte that `stop` names. */
  lemma {:induction false} UpTo(t: seq<byte>, stop: set<byte>) returns (e: nat)
    ensures e <= |t| && (forall k :: 0 <= k < e ==> t[k] !in stop) && (e < |t| ==> t[e] in stop)
  {
    e := 0;
    if t != [] && t[0] !in stop {
      var n := UpTo(t[1..], stop);
      assert forall k :: 0 < k < |t| ==> t[k] == t[1..][k - 1];
      e := n + 1;
    }
  }

  lemma LineOf(t: seq<byte>) returns (l: Line)
    requires OneLine(t)
    ensures 61 !in l.name && LineText(l) == t && l.end == []
  {
    var j := UpTo(t, {61});
    l := if j < |t| then Line(t[..j], Some(t[j + 1..]), []) else Line(t, None, []);
  }

  /** The first line of a text. */
  lemma FirstLineOf(t: seq<byte>) returns (l: Line, rest: seq<byte>)
    requires t != []
    ensures LineOk(l) && t == LineText(l) + l.end + rest && |rest| < |t| && (l.end == [] ==> rest == [])
    ensures t[0] != 10 && t[0] != 13 ==> LineText(l) != []
  {
    var e := UpTo(t, {10, 13});
    l := LineOf(t[..e]);
    rest := [];
    if e < |t| {
      l, rest := l.(end := [t[e]]), t[e + 1..];
    }
  }

  /** Lines up to the next header. */
  lemma {:induction false} LinesOf(t: seq<byte>, start: bool) returns (ls: seq<Line>, rest: seq<byte>)
    ensures t == LinesText(ls) + rest && (rest != [] ==> rest[0] == 91) && LinesOk(ls, start, rest != []) && |rest| <= |t|
    ensures ls != [] ==> t != [] && (t[0] != 10 && t[0] != 13 ==> LineText(ls[0]) != [] && LineText(ls[0])[0] == t[0])
    decreases |t|
  {
    ls, rest := [], t;
    if t != [] && !(start && t[0] == 91) {
      var l, r := FirstLineOf(t);
      var ms;
      ms, rest := LinesOf(r, true);
      ls := [l] + ms;
      OneMoreLine(t, l, ms, rest, start);
    }
  }

  lemma OneMoreLine(t: seq<byte>, l: Line, ms: seq<Line>, rest: seq<byte>, start: bool)
    requires LineOk(l) && t != [] && t == LineText(l) + l.end + (LinesText(ms) + rest) && (start ==> t[0] != 91)
    requires LinesOk(ms, true, rest != []) && (l.end == [] ==> ms == [] && rest == [])
    ensures t == LinesText([l] + ms) + rest && LinesOk([l] + ms, start, rest != [])
  {
    assert ([l] + ms)[1..] == ms;
    AppendAssociates(LineText(l) + l.end, LinesText(ms), rest);
    if LineText(l) != [] {
      assert t[0] == LineText(l)[0];
    }
  }

  /** The first section of a text that starts with a closed header. */
  lemma PartOf(t: seq<byte>) returns (s: Part, rest: seq<byte>)
    requires t != [] && t[0] == 91 && 93 in t
    ensures PartOk(s, rest != []) && t == PartText(s) + rest && (rest != [] ==> rest[0] == 91) && |rest| < |t|
  {
    var e := UpTo(t[1..], {93});
    var name, u := t[1..][..e], t[1..][e + 1..];
    var gap, w := GapOf(u);
    var ls;
    ls, rest := LinesOf(w, EndsLine(gap));
    s := Part(name, gap, ls);
    if ls != [] {
      assert LineText(ls[0])[..1] == [w[0]];
    }
    assert t == [91] + name + [93] + u;
    PartShape([91] + name + [93], gap, LinesText(ls), rest);
  }

  lemma PartShape(head: seq<byte>, gap: seq<byte>, lines: seq<byte>, rest: seq<byte>)
    ensures head + (gap + (lines + rest)) == head + gap + lines + rest
  {
  }

  lemma GapOf(u: seq<byte>) returns (gap: seq<byte>, w: seq<byte>)
    ensures u == gap + w && White(gap) && (w != [] ==> !White([w[0]]))
  {
    var n := GapLength(u);
    gap, w := u[..n], u[n..];
    if w != [] {
      assert [w[0]][0] == u[n];
    }
  }

  lemma {:induction false} GapLength(u: seq<byte>) returns (n: nat)
    ensures n <= |u| && White(u[..n]) && (n < |u| ==> !(u[n] == 32 || 9 <= u[n] <= 13))
  {
    n := 0;
    if u != [] && (u[0] == 32 || 9 <= u[0] <= 13) {
      var m := GapLength(u[1..]);
      assert u[..m + 1] == [u[0]] + u[1..][..m];
      n := m + 1;
    }
  }

  lemma {:induction false} PartsOf(t: seq<byte>) returns (ss: seq<Part>, tail: seq<byte>)
    requires t != [] ==> t[0] == 91
    ensures t == PartsText(ss) + tail && PartsOk(ss, tail != []) && (tail != [] ==> tail[0] == 91 && 93 !in tail)
    ensures t != [] <==> ss != [] || tail != []
    decreases |t|
  {
    ss, tail := [], t;
    if 93 in t {
      var s, rest := PartOf(t);
      var more;
      more, tail := PartsOf(rest);
      ss := [s] + more;
      assert ss[1..] == more;
      AppendAssociates(PartText(s), PartsText(more), tail);
    }
  }

  lemma IsFile(t: seq<byte>) returns (f: File)
    ensures FileOk(f) && Text(f) == t
  {
    var ls, rest := LinesOf(t, true);
    var ss, tail := PartsOf(rest);
    f := File(ls, ss, tail);
    AppendAssociates(LinesText(ls), PartsText(ss), tail);
  }

  /** What is read from any text: the text is such a file, and what is read is what its first line that
      holds the key, behind a header that names the section, has behind its first `=`. */
  lemma ReadsAny(t: seq<byte>, section: seq<byte>, key: seq<byte>, size: nat) returns (f: File)
    requires NulFree(t) && size > 0
    ensures FileOk(f) && Text(f) == t
    ensures ReadSpec(t, section, key, size)
         == match FirstIn(f.parts, section, key)
            case Some(v) => Value(if |v| < size then v else v[..size - 1])
            case None => Default
  {
    f := IsFile(t);
    ReadsFirst(f, section, key, size);
  }
}
