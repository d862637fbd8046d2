/**
 What ikcc_service/src/src/xlinkgateway/inifile.c makes of a file, said of its lines: one value is
 replaced, or one line is put behind a header, or a section is appended, and every other byte stays.
 */
module IniWriting {
  import opened Bytes
  import opened IniFile
  import IniLines
  import opened IniReading
  import opened Wrappers

  // ---- the edited file ----

  /** The first line that holds the key gets the value. */
  function EditedLines(ls: seq<Line>, key: seq<byte>, value: seq<byte>): seq<Line> {
    if ls == [] then []
    else if Holds(ls[0], key) then [ls[0].(value := Some(value))] + ls[1..]
    else [ls[0]] + EditedLines(ls[1..], key, value)
  }

  /** In the first section that names the given one and has such a line. */
  function EditedParts(ss: seq<Part>, section: seq<byte>, key: seq<byte>, value: seq<byte>): seq<Part> {
    if ss == [] then []
    else if ss[0].name <= section && FirstLine(ss[0].lines, key).Some? then
      [ss[0].(lines := EditedLines(ss[0].lines, key, value))] + ss[1..]
    else [ss[0]] + EditedParts(ss[1..], section, key, value)
  }

  predicate Named(ss: seq<Part>, section: seq<byte>) {
    ss != [] && (ss[0].name <= section || Named(ss[1..], section))
  }

  /** The last section whose header names the given one gets a first line. */
  function ExtendedParts(ss: seq<Part>, section: seq<byte>, line: Line): seq<Part> {
    if ss == [] then []
    else if ss[0].name <= section && !Named(ss[1..], section) then [ss[0].(lines := [line] + ss[0].lines)] + ss[1..]
    else [ss[0]] + ExtendedParts(ss[1..], section, line)
  }

  /** What is written. A last header without `]` that names the section takes nothing. */
  function Written(f: File, section: seq<byte>, key: seq<byte>, value: seq<byte>): seq<byte> {
    if FirstIn(f.parts, section, key).Some? then Text(f.(parts := EditedParts(f.parts, section, key, value)))
    else if f.tail != [] && f.tail[1..] <= section then Text(f)
    else if Named(f.parts, section) then
      Text(f.(parts := ExtendedParts(f.parts, section, Line(key, Some(value), [10]))))
    else
      Text(f) + (if Text(f) == [] then [] else [10]) + [91] + section + [93, 10] + key + [61] + value + [10]
  }

  // ---- replacing a piece of a text ----

  function Replaced(s: seq<byte>, a: nat, b: nat, v: seq<byte>): seq<byte>
    requires a <= b <= |s|
  {
    s[..a] + v + s[b..]
  }

  lemma ReplacedBehind(x: seq<byte>, s: seq<byte>, a: nat, b: nat, v: seq<byte>)
    requires a <= b <= |s|
    ensures Replaced(x + s, |x| + a, |x| + b, v) == x + Replaced(s, a, b, v)
  {
  }

  lemma ReplacedBefore(s: seq<byte>, y: seq<byte>, a: nat, b: nat, v: seq<byte>)
    requires a <= b <= |s|
    ensures Replaced(s + y, a, b, v) == Replaced(s, a, b, v) + y
  {
  }

  /** From `i` on, `after` is `s` with the value at `h` replaced. */
  predicate Puts(s: seq<byte>, after: seq<byte>, i: nat, h: Hit, v: seq<byte>) {
    i <= h.at <= h.at + |h.text| <= i + |s| && after == Replaced(s, h.at - i, h.at - i + |h.text|, v)
  }

  lemma PutsBehind(x: seq<byte>, s: seq<byte>, after: seq<byte>, i: nat, h: Hit, v: seq<byte>)
    requires Puts(s, after, i + |x|, h, v)
    ensures Puts(x + s, x + after, i, h, v)
  {
    ReplacedBehind(x, s, h.at - i - |x|, h.at - i - |x| + |h.text|, v);
  }

  lemma PutsBefore(s: seq<byte>, after: seq<byte>, y: seq<byte>, i: nat, h: Hit, v: seq<byte>)
    requires Puts(s, after, i, h, v)
    ensures Puts(s + y, after + y, i, h, v)
  {
    ReplacedBefore(s, y, h.at - i, h.at - i + |h.text|, v);
  }

  // ---- a value is replaced ----

  lemma LineEdited(l: Line, i: nat, v: seq<byte>)
    requires l.value.Some?
    ensures Puts(LineText(l), LineText(l.(value := Some(v))), i, Hit(i + |l.name| + 1, l.value.value), v)
  {
  }

  lemma {:induction false} LinesEdited(ls: seq<Line>, key: seq<byte>, i: nat, v: seq<byte>)
    requires FirstHit(ls, key, i).Some?
    ensures Puts(LinesText(ls), LinesText(EditedLines(ls, key, v)), i, FirstHit(ls, key, i).value, v)
    decreases |ls|
  {
    var l, rest := ls[0], LinesText(ls[1..]);
    if Holds(l, key) {
      var after := l.(value := Some(v));
      LineEdited(l, i, v);
      PutsBefore(LineText(l), LineText(after), l.end, i, FirstHit(ls, key, i).value, v);
      PutsBefore(LineText(l) + l.end, LineText(after) + l.end, rest, i, FirstHit(ls, key, i).value, v);
      assert ([after] + ls[1..])[1..] == ls[1..];
    } else {
      var more := EditedLines(ls[1..], key, v);
      LinesEdited(ls[1..], key, i + |LineText(l) + l.end|, v);
      PutsBehind(LineText(l) + l.end, rest, LinesText(more), i, FirstHit(ls, key, i).value, v);
      assert ([l] + more)[1..] == more;
    }
  }

  lemma PartEdited(s: Part, section: seq<byte>, key: seq<byte>, i: nat, v: seq<byte>)
    requires PartHit(s, section, key, i).Some?
    ensures Puts(PartText(s), PartText(s.(lines := EditedLines(s.lines, key, v))), i, PartHit(s, section, key, i).value, v)
  {
    var head := [91] + s.name + [93] + s.gap;
    LinesEdited(s.lines, key, Body(s, i), v);
    assert |head| == 2 + |s.name| + |s.gap|;
    PutsBehind(head, LinesText(s.lines), LinesText(EditedLines(s.lines, key, v)), i, PartHit(s, section, key, i).value, v);
  }

  lemma {:induction false} PartsEdited(ss: seq<Part>, section: seq<byte>, key: seq<byte>, i: nat, v: seq<byte>)
    requires HitIn(ss, section, key, i).Some?
    ensures Puts(PartsText(ss), PartsText(EditedParts(ss, section, key, v)), i, HitIn(ss, section, key, i).value, v)
    decreases |ss|
  {
    var s, rest, h := ss[0], PartsText(ss[1..]), HitIn(ss, section, key, i).value;
    HitIsFirstLine(s.lines, key, Body(s, i));
    if PartHit(s, section, key, i).Some? {
      var after := s.(lines := EditedLines(s.lines, key, v));
      PartEdited(s, section, key, i, v);
      PutsBefore(PartText(s), PartText(after), rest, i, h, v);
      assert ([after] + ss[1..])[1..] == ss[1..];
    } else {
      var more := EditedParts(ss[1..], section, key, v);
      PartsEdited(ss[1..], section, key, i + |PartText(s)|, v);
      PutsBehind(PartText(s), rest, PartsText(more), i, h, v);
      assert ([s] + more)[1..] == more;
    }
  }

  // ---- a line is put behind a header ----

  /** The place behind the last header that names the section. */
  lemma {:induction false} HeaderUnnamed(ss: seq<Part>, tail: seq<byte>, section: seq<byte>, i: nat, last: Found)
    requires !Named(ss, section) && (tail != [] ==> !(tail[1..] <= section))
    ensures HeaderIn(ss, tail, section, i, last) == last
    decreases |ss|
  {
    if ss != [] {
      HeaderUnnamed(ss[1..], tail, section, i + |PartText(ss[0])|, last);
    }
  }

  predicate Inserted(s: seq<byte>, after: seq<byte>, i: nat, f: Found, entry: seq<byte>) {
    f.Section? && i <= f.secE <= i + |s| && after == Replaced(s, f.secE - i, f.secE - i, entry)
  }

  lemma PartExtended(s: Part, i: nat, line: Line, rest: seq<byte>)
    ensures Inserted(PartText(s) + rest, PartText(s.(lines := [line] + s.lines)) + rest, i, Section(i + 1, Body(s, i)), LineText(line) + line.end)
  {
    var head, entry := [91] + s.name + [93] + s.gap, LineText(line) + line.end;
    var after := s.(lines := [line] + s.lines);
    assert LinesText(after.lines) == entry + LinesText(s.lines) by {
      assert ([line] + s.lines)[1..] == s.lines;
    }
    assert PartText(after) + rest == head + entry + (LinesText(s.lines) + rest);
    assert PartText(s) + rest == head + (LinesText(s.lines) + rest);
    CutBehind(head, LinesText(s.lines) + rest, entry);
  }

  lemma CutBehind(head: seq<byte>, rest: seq<byte>, entry: seq<byte>)
    ensures Replaced(head + rest, |head|, |head|, entry) == head + entry + rest
  {
  }

  lemma InsertedBehind(x: seq<byte>, s: seq<byte>, after: seq<byte>, i: nat, j: nat, f: Found, entry: seq<byte>)
    requires j == i + |x| && Inserted(s, after, j, f, entry)
    ensures Inserted(x + s, x + after, i, f, entry)
  {
    ReplacedBehind(x, s, f.secE - i - |x|, f.secE - i - |x|, entry);
  }

  lemma {:induction false} PartsExtended(ss: seq<Part>, tail: seq<byte>, section: seq<byte>, i: nat, last: Found, line: Line, entry: seq<byte>)
    requires Named(ss, section) && (tail != [] ==> !(tail[1..] <= section)) && entry == LineText(line) + line.end
    ensures Inserted(PartsText(ss), PartsText(ExtendedParts(ss, section, line)), i, HeaderIn(ss, tail, section, i, last), entry)
    decreases |ss|
  {
    var j, next := i + |PartText(ss[0])|, Latest(ss[0], section, i, last);
    var f := HeaderIn(ss[1..], tail, section, j, next);
    assert HeaderIn(ss, tail, section, i, last) == f;
    if Named(ss[1..], section) {
      PartsExtended(ss[1..], tail, section, j, next, line, entry);
      LaterExtended(ss, section, i, j, f, line, entry);
    } else {
      HeaderUnnamed(ss[1..], tail, section, j, next);
      FirstExtended(ss, section, i, line);
    }
  }

  lemma LaterExtended(ss: seq<Part>, section: seq<byte>, i: nat, j: nat, f: Found, line: Line, entry: seq<byte>)
    requires ss != [] && Named(ss[1..], section) && j == i + |PartText(ss[0])|
    requires Inserted(PartsText(ss[1..]), PartsText(ExtendedParts(ss[1..], section, line)), j, f, entry)
    ensures Inserted(PartsText(ss), PartsText(ExtendedParts(ss, section, line)), i, f, entry)
  {
    ExtendedFirst(ss, section, line);
    InsertedBehind(PartText(ss[0]), PartsText(ss[1..]), PartsText(ExtendedParts(ss[1..], section, line)), i, j, f, entry);
  }

  lemma FirstExtended(ss: seq<Part>, section: seq<byte>, i: nat, line: Line)
    requires ss != [] && ss[0].name <= section && !Named(ss[1..], section)
    ensures Inserted(PartsText(ss), PartsText(ExtendedParts(ss, section, line)), i, Section(i + 1, Body(ss[0], i)), LineText(line) + line.end)
  {
    ExtendedFirst(ss, section, line);
    PartExtended(ss[0], i, line, PartsText(ss[1..]));
  }

  lemma ExtendedFirst(ss: seq<Part>, section: seq<byte>, line: Line)
    requires Named(ss, section)
    ensures PartsText(ExtendedParts(ss, section, line))
         == if Named(ss[1..], section) then PartText(ss[0]) + PartsText(ExtendedParts(ss[1..], section, line))
            else PartText(ss[0].(lines := [line] + ss[0].lines)) + PartsText(ss[1..])
  {
    var first, more := ss[0].(lines := [line] + ss[0].lines), ExtendedParts(ss[1..], section, line);
    assert ([first] + ss[1..])[1..] == ss[1..] && ([ss[0]] + more)[1..] == more;
  }

  /** An unclosed header that names the section is the last one, and ends behind the text. */
  lemma {:induction false} TailIsLast(ss: seq<Part>, tail: seq<byte>, section: seq<byte>, i: nat, last: Found)
    requires tail != [] && tail[1..] <= section
    ensures var f := HeaderIn(ss, tail, section, i, last); f.Section? && f.secE == i + |PartsText(ss)| + |tail| + 1
    decreases |ss|
  {
    if ss != [] {
      TailIsLast(ss[1..], tail, section, i + |PartText(ss[0])|, Latest(ss[0], section, i, last));
    }
  }

  lemma InsertedAround(x: seq<byte>, s: seq<byte>, y: seq<byte>, after: seq<byte>, f: Found, entry: seq<byte>)
    requires Inserted(s, after, |x|, f, entry)
    ensures Inserted(x + (s + y), x + (after + y), 0, f, entry)
  {
    ReplacedBefore(s, y, f.secE - |x|, f.secE - |x|, entry);
    ReplacedBehind(x, s + y, f.secE - |x|, f.secE - |x|, entry);
  }

  // ---- what is written for what is found ----

  lemma KeyWrites(t: seq<byte>, section: seq<byte>, key: seq<byte>, value: seq<byte>, h: Hit)
    requires NulFree(t) && h.at + |h.text| <= |t|
    requires var f := ParseFileSpec(t, section, key); f.Key? && f.valueS == h.at <= f.valueE <= |t| && t[f.valueS..f.valueE] == h.text
    ensures WriteSpec(t, section, key, value) == Replaced(t, h.at, h.at + |h.text|, value)
  {
  }

  lemma HeaderWrites(t: seq<byte>, section: seq<byte>, key: seq<byte>, value: seq<byte>)
    requires NulFree(t) && ParseFileSpec(t, section, key).Section?
    ensures var e := ParseFileSpec(t, section, key).secE;
      WriteSpec(t, section, key, value) == if e <= |t| then Replaced(t, e, e, Entry(key, value)) else t
  {
  }

  lemma NothingWrites(t: seq<byte>, section: seq<byte>, key: seq<byte>, value: seq<byte>)
    requires NulFree(t) && ParseFileSpec(t, section, key) == Nothing
    ensures WriteSpec(t, section, key, value)
         == t + (if t == [] then [] else [10]) + [91] + section + [93, 10] + key + [61] + value + [10]
  {
    var front := t + (if t == [] then [] else [10]) + [91] + section + [93, 10];
    assert front + (key + [61] + value + [10]) == front + key + [61] + value + [10];
  }

  // ---- the whole file ----

  lemma AroundParts(f: File, parts: seq<Part>)
    ensures Text(f.(parts := parts)) == LinesText(f.lines) + (PartsText(parts) + f.tail)
  {
  }

  lemma FindsValue(f: File, section: seq<byte>, key: seq<byte>) returns (h: Hit)
    requires FileOk(f) && NulFree(Text(f)) && FirstIn(f.parts, section, key).Some?
    ensures HitIn(f.parts, section, key, |LinesText(f.lines)|) == Some(h)
    ensures var found := ParseFileSpec(Text(f), section, key);
      found.Key? && found.valueS == h.at <= found.valueE <= |Text(f)| && Text(f)[found.valueS..found.valueE] == h.text
  {
    FileReads(f, section, key);
    HitIsFirst(f.parts, section, key, |LinesText(f.lines)|);
    h := HitIn(f.parts, section, key, |LinesText(f.lines)|).value;
  }

  lemma FindsHeader(f: File, section: seq<byte>, key: seq<byte>)
    requires FileOk(f) && NulFree(Text(f)) && FirstIn(f.parts, section, key).None?
    ensures ParseFileSpec(Text(f), section, key) == HeaderIn(f.parts, f.tail, section, |LinesText(f.lines)|, Nothing)
  {
    FileReads(f, section, key);
    HitIsFirst(f.parts, section, key, |LinesText(f.lines)|);
  }

  lemma EditedText(f: File, section: seq<byte>, key: seq<byte>, value: seq<byte>, h: Hit)
    requires HitIn(f.parts, section, key, |LinesText(f.lines)|) == Some(h)
    ensures Puts(Text(f), Text(f.(parts := EditedParts(f.parts, section, key, value))), 0, h, value)
  {
    var lines, n := LinesText(f.lines), |LinesText(f.lines)|;
    var after := EditedParts(f.parts, section, key, value);
    PartsEdited(f.parts, section, key, n, value);
    PutsBefore(PartsText(f.parts), PartsText(after), f.tail, n, h, value);
    PutsBehind(lines, PartsText(f.parts) + f.tail, PartsText(after) + f.tail, 0, h, value);
    AroundParts(f, f.parts);
    AroundParts(f, after);
  }

  /** The key is there: its value is replaced. */
  lemma ValueIsReplaced(f: File, section: seq<byte>, key: seq<byte>, value: seq<byte>)
    requires FileOk(f) && NulFree(Text(f)) && FirstIn(f.parts, section, key).Some?
    ensures WriteSpec(Text(f), section, key, value) == Text(f.(parts := EditedParts(f.parts, section, key, value)))
  {
    var h := FindsValue(f, section, key);
    EditedText(f, section, key, value, h);
    KeyWrites(Text(f), section, key, value, h);
  }

  lemma EntryIsLine(key: seq<byte>, value: seq<byte>)
    ensures var line := Line(key, Some(value), [10]); LineText(line) + line.end == Entry(key, value)
  {
  }

  lemma ExtendedText(f: File, section: seq<byte>, key: seq<byte>, value: seq<byte>)
    requires Named(f.parts, section) && (f.tail != [] ==> !(f.tail[1..] <= section))
    ensures var line := Line(key, Some(value), [10]);
      Inserted(Text(f), Text(f.(parts := ExtendedParts(f.parts, section, line))), 0,
               HeaderIn(f.parts, f.tail, section, |LinesText(f.lines)|, Nothing), Entry(key, value))
  {
    var lines, n, line := LinesText(f.lines), |LinesText(f.lines)|, Line(key, Some(value), [10]);
    var after := ExtendedParts(f.parts, section, line);
    EntryIsLine(key, value);
    PartsExtended(f.parts, f.tail, section, n, Nothing, line, Entry(key, value));
    InsertedAround(lines, PartsText(f.parts), f.tail, PartsText(after), HeaderIn(f.parts, f.tail, section, n, Nothing), Entry(key, value));
    AroundParts(f, f.parts);
    AroundParts(f, after);
  }

  /** Its section is there: a line is put behind the last header of that name. */
  lemma LineIsInserted(f: File, section: seq<byte>, key: seq<byte>, value: seq<byte>)
    requires FileOk(f) && NulFree(Text(f)) && FirstIn(f.parts, section, key).None?
    requires Named(f.parts, section) && (f.tail != [] ==> !(f.tail[1..] <= section))
    ensures WriteSpec(Text(f), section, key, value)
         == Text(f.(parts := ExtendedParts(f.parts, section, Line(key, Some(value), [10]))))
  {
    FindsHeader(f, section, key);
    ExtendedText(f, section, key, value);
    HeaderWrites(Text(f), section, key, value);
  }

  /** Unless the last header of that name is not closed. */
  lemma NothingIsWritten(f: File, section: seq<byte>, key: seq<byte>, value: seq<byte>)
    requires FileOk(f) && NulFree(Text(f)) && FirstIn(f.parts, section, key).None? && f.tail != [] && f.tail[1..] <= section
    ensures WriteSpec(Text(f), section, key, value) == Text(f)
  {
    FindsHeader(f, section, key);
    TailIsLast(f.parts, f.tail, section, |LinesText(f.lines)|, Nothing);
    HeaderWrites(Text(f), section, key, value);
  }

  lemma SectionIsAppended(f: File, section: seq<byte>, key: seq<byte>, value: seq<byte>)
    requires FileOk(f) && NulFree(Text(f)) && FirstIn(f.parts, section, key).None?
    requires !Named(f.parts, section) && (f.tail != [] ==> !(f.tail[1..] <= section))
    ensures WriteSpec(Text(f), section, key, value)
         == Text(f) + (if Text(f) == [] then [] else [10]) + [91] + section + [93, 10] + key + [61] + value + [10]
  {
    FindsHeader(f, section, key);
    HeaderUnnamed(f.parts, f.tail, section, |LinesText(f.lines)|, Nothing);
    NothingWrites(Text(f), section, key, value);
  }

  /** What `write_profile_string` makes of any file. */
  lemma WriteIsEdit(f: File, section: seq<byte>, key: seq<byte>, value: seq<byte>)
    requires FileOk(f) && NulFree(Text(f))
    ensures WriteSpec(Text(f), section, key, value) == Written(f, section, key, value)
  {
    if FirstIn(f.parts, section, key).Some? {
      ValueIsReplaced(f, section, key, value);
    } else if f.tail != [] && f.tail[1..] <= section {
      NothingIsWritten(f, section, key, value);
    } else if Named(f.parts, section) {
      LineIsInserted(f, section, key, value);
    } else {
      SectionIsAppended(f, section, key, value);
    }
  }

  lemma WritesAny(t: seq<byte>, section: seq<byte>, key: seq<byte>, value: seq<byte>) returns (f: File)
    requires NulFree(t)
    ensures FileOk(f) && Text(f) == t && WriteSpec(t, section, key, value) == Written(f, section, key, value)
  {
    f := IniLines.IsFile(t);
    WriteIsEdit(f, section, key, value);
  }
}
