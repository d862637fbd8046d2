/**
 The key-value file of ikcc_service/src/src/xlinkgateway/inifile.c: a scanner that
 returns the spans of a section, a key and a value, and an editor that splices the
 text at those spans. The file is a byte string; a missing file is an empty one.
 */
module IniFile {
  import opened Bytes

  const SEMICOLON: byte := 59
  const EQUALS: byte := 61
  const PERCENT: byte := 37
  const MAX_FILE_SIZE: nat := 8192

  predicate IsNewline(b: byte) {
    b == LF || b == CR
  }

  /** `isspace` in the C locale. */
  predicate IsSpace(b: byte) {
    b == SPACE || 9 <= b <= 13
  }

  /** What `load_ini_file` can hold: no terminator, no end-of-file byte, and room for two more bytes. */
  predicate IsFileText(t: seq<byte>) {
    |t| + 2 <= MAX_FILE_SIZE && forall k :: 0 <= k < |t| ==> t[k] != NUL && t[k] != 255
  }

  // ---- specification of the scanner ----

  /** The spans `parse_file` reports; a section span runs from its name to its first line. */
  datatype Found =
    | Key(secS: nat, secE: nat, keyS: nat, valueS: nat, valueE: nat)
    | Section(secS: nat, secE: nat)
    | Nothing

  predicate IsHeader(p: seq<byte>, i: nat) {
    At(p, i) == LBRACKET && (i == 0 || IsNewline(At(p, i - 1)))
  }

  /** The first `]` from `i` on, or the end of the text. */
  function Bracket(p: seq<byte>, i: nat): (e: nat)
    requires i <= |p|
    ensures i <= e <= |p| && (e < |p| ==> p[e] == RBRACKET)
    decreases |p| - i
  {
    if i == |p| || p[i] == RBRACKET then i else Bracket(p, i + 1)
  }

  function SpacesEnd(p: seq<byte>, i: nat): (e: nat)
    ensures i <= e && (i <= |p| ==> e <= |p|) && (i > |p| ==> e == i) && !IsSpace(At(p, e))
    decreases |p| - i
  {
    if IsSpace(At(p, i)) then SpacesEnd(p, i + 1) else i
  }

  function LineEnd(p: seq<byte>, i: nat): (e: nat)
    requires i <= |p|
    ensures i <= e <= |p| && (e < |p| ==> IsNewline(p[e]))
    decreases |p| - i
  {
    if i == |p| || IsNewline(p[i]) then i else LineEnd(p, i + 1)
  }

  /** The first `=` from `i` on and before `e`, or `e`. */
  function EqualsAt(p: seq<byte>, i: nat, e: nat): (j: nat)
    requires i <= e <= |p|
    ensures i <= j <= e && (j < e ==> p[j] == EQUALS)
    decreases e - i
  {
    if i == e || p[i] == EQUALS then i else EqualsAt(p, i + 1, e)
  }

  /** `strncmp(name, p + s, e - s) == 0`: the text in the file is a prefix of the name. */
  predicate Matches(name: seq<byte>, p: seq<byte>, s: nat, e: nat)
    requires s <= e <= |p|
  {
    e - s <= |name| && p[s..e] == name[..e - s]
  }

  /** Does the line at `i` hold the key? A comment or a line that starts with `=` does not. */
  predicate HasKey(p: seq<byte>, key: seq<byte>, i: nat)
    requires i <= |p|
  {
    var e := LineEnd(p, i);
    var j := EqualsAt(p, i, e);
    At(p, i) != SEMICOLON && i < j < e && Matches(key, p, i, j)
  }

  predicate SectionEnds(p: seq<byte>, i: nat)
    requires i > 0
  {
    At(p, i) == NUL || (IsNewline(At(p, i - 1)) && At(p, i) == LBRACKET)
  }

  /** The outer loop of `parse_file` from `i` on; `last` is what it has found so far. */
  function Scan(p: seq<byte>, section: seq<byte>, key: seq<byte>, i: nat, last: Found): Found
    requires NulFree(p)
    decreases |p| + 1 - i, 0
  {
    if i >= |p| then last
    else if !IsHeader(p, i) then Scan(p, section, key, i + 1, last)
    else
      var close := Bracket(p, i + 1);
      if Matches(section, p, i + 1, close) then
        var body := SpacesEnd(p, close + 1);
        Lines(p, section, key, body, Section(i + 1, body))
      else Scan(p, section, key, close, last)
  }

  /** The inner loop of `parse_file`, over the lines of the section `sec`. */
  function Lines(p: seq<byte>, section: seq<byte>, key: seq<byte>, i: nat, sec: Found): Found
    requires NulFree(p) && i > 0 && sec.Section?
    decreases |p| + 1 - i, 1
  {
    if i > |p| || SectionEnds(p, i) then Scan(p, section, key, i, sec)
    else
      var e := LineEnd(p, i);
      if HasKey(p, key, i) then Key(sec.secS, sec.secE, i, EqualsAt(p, i, e) + 1, e)
      else Lines(p, section, key, e + 1, sec)
  }

  function ParseFileSpec(p: seq<byte>, section: seq<byte>, key: seq<byte>): Found
    requires NulFree(p)
  {
    Scan(p, section, key, 0, Nothing)
  }

  /** What is found behind `i` lies behind `i` and inside the text. */
  lemma {:induction false} ScanBounds(p: seq<byte>, section: seq<byte>, key: seq<byte>, i: nat, last: Found)
    requires NulFree(p) && !last.Key?
    ensures var f := Scan(p, section, key, i, last);
      && (f.Key? ==> i <= f.keyS < f.valueS - 1 && f.valueS <= f.valueE <= |p|)
      && (f.Section? && f != last ==> i < f.secS < f.secE <= |p| + 1)
      && (f.Nothing? ==> last.Nothing?)
    decreases |p| + 1 - i, 0
  {
    if i < |p| {
      if !IsHeader(p, i) {
        ScanBounds(p, section, key, i + 1, last);
      } else {
        var close := Bracket(p, i + 1);
        if Matches(section, p, i + 1, close) {
          var body := SpacesEnd(p, close + 1);
          LinesBounds(p, section, key, body, Section(i + 1, body));
        } else {
          ScanBounds(p, section, key, close, last);
        }
      }
    }
  }

  lemma {:induction false} LinesBounds(p: seq<byte>, section: seq<byte>, key: seq<byte>, i: nat, sec: Found)
    requires NulFree(p) && i > 0 && sec.Section?
    ensures var f := Lines(p, section, key, i, sec);
      && !f.Nothing?
      && (f.Key? ==> i <= f.keyS < f.valueS - 1 && f.valueS <= f.valueE <= |p|)
      && (f.Section? && f != sec ==> i < f.secS < f.secE <= |p| + 1)
    decreases |p| + 1 - i, 1
  {
    if i > |p| || SectionEnds(p, i) {
      ScanBounds(p, section, key, i, sec);
    } else if !HasKey(p, key, i) {
      LinesBounds(p, section, key, LineEnd(p, i) + 1, sec);
    }
  }

  // ---- specification of reading and writing ----

  datatype Read = Value(text: seq<byte>) | Default

  /** `read_profile_string` into a buffer of `size` bytes: the value, cut to fit with its terminator. */
  function ReadSpec(t: seq<byte>, section: seq<byte>, key: seq<byte>, size: nat): Read
    requires NulFree(t) && size > 0
  {
    var f := ParseFileSpec(t, section, key);
    ScanBounds(t, section, key, 0, Nothing);
    if f.Key? then
      var count := f.valueE - f.valueS;
      Value(t[f.valueS..f.valueS + if size - 1 < count then size - 1 else count])
    else Default
  }

  function Entry(key: seq<byte>, value: seq<byte>): seq<byte> {
    key + [EQUALS] + value + [LF]
  }

  /** The file `write_profile_string` leaves. A section span behind the end of the text puts
      the new line behind the terminator, where `fputs` does not see it. */
  function WriteSpec(t: seq<byte>, section: seq<byte>, key: seq<byte>, value: seq<byte>): seq<byte>
    requires NulFree(t)
  {
    ScanBounds(t, section, key, 0, Nothing);
    match ParseFileSpec(t, section, key)
    case Key(_, _, _, valueS, valueE) => t[..valueS] + value + t[valueE..]
    case Section(_, secE) => if secE <= |t| then t[..secE] + Entry(key, value) + t[secE..] else t
    case Nothing => t + (if t == [] then [] else [LF]) + [LBRACKET] + section + [RBRACKET, LF] + Entry(key, value)
  }

  // ---- what names and values may be ----

  /** A key that its own line gives back: the file format has no way to quote. */
  predicate IsKey(key: seq<byte>) {
    && key != [] && NulFree(key)
    && !IsSpace(key[0]) && key[0] != SEMICOLON && key[0] != LBRACKET
    && forall k :: 0 <= k < |key| ==> key[k] != EQUALS && !IsNewline(key[k])
  }

  predicate IsSection(section: seq<byte>) {
    section != [] && NulFree(section) && RBRACKET !in section
  }

  predicate IsValue(value: seq<byte>) {
    NulFree(value) && forall k :: 0 <= k < |value| ==> !IsNewline(value[k])
  }

  /** Every `[` at the start of a line has a `]` behind it. */
  predicate Closed(t: seq<byte>) {
    forall i :: 0 <= i < |t| && IsHeader(t, i) ==> Bracket(t, i + 1) < |t|
  }

  // ---- texts that agree up to `n` are scanned alike up to `n` ----

  predicate Agree(p: seq<byte>, q: seq<byte>, n: nat) {
    n <= |p| && n <= |q| && forall k :: 0 <= k < n ==> p[k] == q[k]
  }

  lemma {:induction false} BracketAgrees(p: seq<byte>, q: seq<byte>, n: nat, i: nat)
    requires Agree(p, q, n) && i <= |p| && Bracket(p, i) < n
    ensures i <= |q| && Bracket(q, i) == Bracket(p, i)
    decreases |p| - i
  {
    if p[i] != RBRACKET {
      BracketAgrees(p, q, n, i + 1);
    }
  }

  lemma {:induction false} SpacesAgree(p: seq<byte>, q: seq<byte>, n: nat, i: nat)
    requires Agree(p, q, n) && i <= SpacesEnd(p, i) <= n && !IsSpace(At(q, SpacesEnd(p, i)))
    ensures SpacesEnd(q, i) == SpacesEnd(p, i)
    decreases |p| - i
  {
    if IsSpace(At(p, i)) {
      SpacesAgree(p, q, n, i + 1);
    }
  }

  lemma {:induction false} LineEndAgrees(p: seq<byte>, q: seq<byte>, n: nat, i: nat)
    requires Agree(p, q, n) && i <= |p| && LineEnd(p, i) < n
    ensures i <= |q| && LineEnd(q, i) == LineEnd(p, i)
    decreases |p| - i
  {
    if !IsNewline(p[i]) {
      LineEndAgrees(p, q, n, i + 1);
    }
  }

  lemma {:induction false} EqualsAgrees(p: seq<byte>, q: seq<byte>, n: nat, i: nat, e: nat, e': nat)
    requires Agree(p, q, n) && i <= e <= |p| && i <= e' <= |q|
    requires EqualsAt(p, i, e) < n && EqualsAt(p, i, e) < e && EqualsAt(p, i, e) < e'
    ensures EqualsAt(q, i, e') == EqualsAt(p, i, e)
    decreases e - i
  {
    if p[i] != EQUALS {
      EqualsAgrees(p, q, n, i + 1, e, e');
    }
  }

  lemma {:induction false} EqualsSame(p: seq<byte>, q: seq<byte>, n: nat, i: nat, e: nat)
    requires Agree(p, q, n) && i <= e <= n
    ensures EqualsAt(q, i, e) == EqualsAt(p, i, e)
    decreases e - i
  {
    if i < e && p[i] != EQUALS {
      EqualsSame(p, q, n, i + 1, e);
    }
  }

  lemma MatchesAgrees(name: seq<byte>, p: seq<byte>, q: seq<byte>, n: nat, s: nat, e: nat)
    requires Agree(p, q, n) && s <= e <= n
    ensures Matches(name, q, s, e) == Matches(name, p, s, e)
  {
  }

  /** A whole line inside the common part holds the key in both texts or in neither. */
  lemma LineAgrees(p: seq<byte>, q: seq<byte>, n: nat, i: nat, key: seq<byte>)
    requires Agree(p, q, n) && i <= |p| && LineEnd(p, i) < n
    ensures i <= |q| && LineEnd(q, i) == LineEnd(p, i) && HasKey(q, key, i) == HasKey(p, key, i)
  {
    var e := LineEnd(p, i);
    LineEndAgrees(p, q, n, i);
    EqualsSame(p, q, n, i, e);
    MatchesAgrees(key, p, q, n, i, EqualsAt(p, i, e));
  }

  /** A whole header inside the common part is read alike. */
  lemma HeaderAgrees(p: seq<byte>, q: seq<byte>, n: nat, i: nat, section: seq<byte>)
    requires Agree(p, q, n) && i < n && IsHeader(p, i) && Bracket(p, i + 1) < n
    ensures IsHeader(q, i) && Bracket(q, i + 1) == Bracket(p, i + 1)
    ensures Matches(section, q, i + 1, Bracket(p, i + 1)) == Matches(section, p, i + 1, Bracket(p, i + 1))
  {
    BracketAgrees(p, q, n, i + 1);
    MatchesAgrees(section, p, q, n, i + 1, Bracket(p, i + 1));
  }

  /** The outer loop takes the same step in both texts, as long as it stays in the common part. */
  lemma ScanSteps(p: seq<byte>, q: seq<byte>, n: nat, section: seq<byte>, key: seq<byte>, i: nat, last: Found)
    requires NulFree(p) && NulFree(q) && Agree(p, q, n) && i < n
    ensures !IsHeader(p, i) ==>
      Scan(p, section, key, i, last) == Scan(p, section, key, i + 1, last)
      && Scan(q, section, key, i, last) == Scan(q, section, key, i + 1, last)
    ensures IsHeader(p, i) && Bracket(p, i + 1) < n && !Matches(section, p, i + 1, Bracket(p, i + 1)) ==>
      var close := Bracket(p, i + 1);
      Scan(p, section, key, i, last) == Scan(p, section, key, close, last)
      && Scan(q, section, key, i, last) == Scan(q, section, key, close, last)
  {
    if !IsHeader(p, i) {
      assert !IsHeader(q, i);
    } else if Bracket(p, i + 1) < n {
      HeaderAgrees(p, q, n, i, section);
    }
  }

  lemma EntersSection(p: seq<byte>, q: seq<byte>, n: nat, section: seq<byte>, key: seq<byte>, i: nat, last: Found)
    requires NulFree(p) && NulFree(q) && Agree(p, q, n) && i < n && IsHeader(p, i)
    requires Matches(section, p, i + 1, Bracket(p, i + 1))
    requires var body := SpacesEnd(p, Bracket(p, i + 1) + 1); body <= n && !IsSpace(At(q, body))
    ensures var body := SpacesEnd(p, Bracket(p, i + 1) + 1);
      Scan(p, section, key, i, last) == Lines(p, section, key, body, Section(i + 1, body))
      && Scan(q, section, key, i, last) == Lines(q, section, key, body, Section(i + 1, body))
  {
    HeaderAgrees(p, q, n, i, section);
    SpacesAgree(p, q, n, Bracket(p, i + 1) + 1);
  }

  // ---- the key is there: its value is replaced ----

  ghost predicate Replaces(p: seq<byte>, q: seq<byte>, f: Found, value: seq<byte>)
    requires f.Key?
  {
    && f.keyS < f.valueS - 1 && f.valueS <= f.valueE <= |p| && q == p[..f.valueS] + value + p[f.valueE..]
    && Agree(p, q, f.valueS)
  }

  lemma {:induction false} ScanReplaced(p: seq<byte>, q: seq<byte>, section: seq<byte>, key: seq<byte>, i: nat, last: Found, f: Found, value: seq<byte>)
    requires NulFree(p) && NulFree(q) && !last.Key? && IsValue(value)
    requires Scan(p, section, key, i, last) == f && f.Key? && Replaces(p, q, f, value)
    ensures Scan(q, section, key, i, last) == f.(valueE := f.valueS + |value|)
    decreases |p| + 1 - i, 0
  {
    var n := f.valueS;
    ScanBounds(p, section, key, i, last);
    ScanSteps(p, q, n, section, key, i, last);
    if !IsHeader(p, i) {
      ScanReplaced(p, q, section, key, i + 1, last, f, value);
    } else if Matches(section, p, i + 1, Bracket(p, i + 1)) {
      var body := SpacesEnd(p, Bracket(p, i + 1) + 1);
      LinesBounds(p, section, key, body, Section(i + 1, body));
      EntersSection(p, q, n, section, key, i, last);
      LinesReplaced(p, q, section, key, body, Section(i + 1, body), f, value);
    } else {
      ScanBounds(p, section, key, Bracket(p, i + 1), last);
      ScanReplaced(p, q, section, key, Bracket(p, i + 1), last, f, value);
    }
  }

  lemma {:induction false} LinesReplaced(p: seq<byte>, q: seq<byte>, section: seq<byte>, key: seq<byte>, i: nat, sec: Found, f: Found, value: seq<byte>)
    requires NulFree(p) && NulFree(q) && i > 0 && sec.Section? && IsValue(value)
    requires Lines(p, section, key, i, sec) == f && f.Key? && Replaces(p, q, f, value)
    ensures Lines(q, section, key, i, sec) == f.(valueE := f.valueS + |value|)
    decreases |p| + 1 - i, 1
  {
    LinesBounds(p, section, key, i, sec);
    if SectionEnds(p, i) {
      ScanReplaced(p, q, section, key, i, sec, f, value);
    } else if HasKey(p, key, i) {
      KeyLineReplaced(p, q, key, f, value);
    } else {
      LinesBounds(p, section, key, LineEnd(p, i) + 1, sec);
      LineAgrees(p, q, f.valueS, i, key);
      LinesReplaced(p, q, section, key, LineEnd(p, i) + 1, sec, f, value);
    }
  }

  /** The line of the key, with another value. */
  lemma KeyLineReplaced(p: seq<byte>, q: seq<byte>, key: seq<byte>, f: Found, value: seq<byte>)
    requires f.Key? && Replaces(p, q, f, value) && IsValue(value) && NulFree(p)
    requires HasKey(p, key, f.keyS) && f.valueE == LineEnd(p, f.keyS) && f.valueS == EqualsAt(p, f.keyS, f.valueE) + 1
    ensures HasKey(q, key, f.keyS) && LineEnd(q, f.keyS) == f.valueS + |value|
    ensures EqualsAt(q, f.keyS, f.valueS + |value|) == f.valueS - 1
  {
    var e := f.valueS + |value|;
    NoNewlineBefore(p, f.keyS);
    ReplacedLine(p, q, f, value);
    LineEndIs(q, f.keyS, e);
    EqualsAgrees(p, q, f.valueS, f.keyS, f.valueE, e);
    MatchesAgrees(key, p, q, f.valueS, f.keyS, f.valueS - 1);
  }

  lemma ReplacedLine(p: seq<byte>, q: seq<byte>, f: Found, value: seq<byte>)
    requires f.Key? && Replaces(p, q, f, value) && IsValue(value)
    requires forall k :: f.keyS <= k < f.valueE ==> !IsNewline(p[k])
    requires f.valueE < |p| ==> IsNewline(p[f.valueE])
    ensures var e := f.valueS + |value|;
      && e <= |q| && (forall k :: f.keyS <= k < e ==> !IsNewline(q[k])) && (e < |q| ==> IsNewline(q[e]))
  {
  }

  lemma {:induction false} NoNewlineBefore(p: seq<byte>, i: nat)
    requires i <= |p|
    ensures forall k :: i <= k < LineEnd(p, i) ==> !IsNewline(p[k])
    decreases |p| - i
  {
    if i < |p| && !IsNewline(p[i]) {
      NoNewlineBefore(p, i + 1);
    }
  }

  lemma {:induction false} LineEndIs(p: seq<byte>, i: nat, e: nat)
    requires i <= e <= |p| && (forall k :: i <= k < e ==> !IsNewline(p[k])) && (e < |p| ==> IsNewline(p[e]))
    ensures LineEnd(p, i) == e
    decreases e - i
  {
    if i < e {
      LineEndIs(p, i + 1, e);
    }
  }

  // ---- only the section is there: a line is put in front of its first line ----

  ghost predicate Inserts(p: seq<byte>, q: seq<byte>, at: nat, key: seq<byte>, value: seq<byte>) {
    at <= |p| && q == p[..at] + Entry(key, value) + p[at..] && Agree(p, q, at)
  }

  /** The key line stands at `at`. */
  predicate EntryAt(q: seq<byte>, at: nat, key: seq<byte>, value: seq<byte>) {
    at + |Entry(key, value)| <= |q| && q[at..at + |Entry(key, value)|] == Entry(key, value)
  }

  lemma EntryValue(q: seq<byte>, at: nat, key: seq<byte>, value: seq<byte>)
    requires EntryAt(q, at, key, value)
    ensures at + |key| + 1 + |value| <= |q| && q[at + |key| + 1..at + |key| + 1 + |value|] == value
    ensures key != [] ==> At(q, at) == key[0]
  {
    var line := Entry(key, value);
    forall k | at <= k < at + |line| ensures q[k] == line[k - at] {
      assert q[k] == q[at..at + |line|][k - at];
    }
    var s := at + |key| + 1;
    forall k | 0 <= k < |value| ensures q[s + k] == value[k] {
      assert line[|key| + 1 + k] == value[k];
    }
    assert q[s..s + |value|] == value;
  }

  /** The key line at `at`, in a text that goes on behind it in any way. */
  lemma EntryHolds(q: seq<byte>, at: nat, key: seq<byte>, value: seq<byte>)
    requires IsKey(key) && IsValue(value) && EntryAt(q, at, key, value)
    ensures !IsSpace(At(q, at)) && At(q, at) != LBRACKET && At(q, at) != NUL
    ensures HasKey(q, key, at) && LineEnd(q, at) == at + |key| + 1 + |value|
    ensures EqualsAt(q, at, LineEnd(q, at)) == at + |key|
  {
    var line := Entry(key, value);
    forall k | at <= k < at + |line| ensures q[k] == line[k - at] {
      assert q[k] == q[at..at + |line|][k - at];
    }
    LineEndIs(q, at, at + |key| + 1 + |value|);
    EqualsIs(q, at, at + |key|, LineEnd(q, at));
    assert q[at..at + |key|] == key;
  }

  lemma {:induction false} EqualsIs(p: seq<byte>, i: nat, j: nat, e: nat)
    requires i <= j < e <= |p| && (forall k :: i <= k < j ==> p[k] != EQUALS) && p[j] == EQUALS
    ensures EqualsAt(p, i, e) == j
    decreases j - i
  {
    if i < j {
      EqualsIs(p, i + 1, j, e);
    }
  }

  function EntryKey(secS: nat, at: nat, key: seq<byte>, value: seq<byte>): Found {
    Key(secS, at, at, at + |key| + 1, at + |key| + 1 + |value|)
  }

  /** A section whose first line is the entry. */
  lemma FirstLineIsEntry(q: seq<byte>, section: seq<byte>, key: seq<byte>, secS: nat, at: nat, value: seq<byte>)
    requires NulFree(q) && IsKey(key) && IsValue(value) && at > 0 && EntryAt(q, at, key, value)
    ensures Lines(q, section, key, at, Section(secS, at)) == EntryKey(secS, at, key, value)
    ensures !IsSpace(At(q, at))
  {
    EntryHolds(q, at, key, value);
  }

  lemma {:induction false} ScanInserted(p: seq<byte>, q: seq<byte>, section: seq<byte>, key: seq<byte>, i: nat, last: Found, f: Found, value: seq<byte>)
    requires NulFree(p) && NulFree(q) && !last.Key? && IsKey(key) && IsValue(value)
    requires Scan(p, section, key, i, last) == f && f.Section? && i < f.secS && Inserts(p, q, f.secE, key, value)
    requires last.Section? ==> last.secS <= i
    ensures Scan(q, section, key, i, last) == EntryKey(f.secS, f.secE, key, value)
    decreases |p| + 1 - i, 0
  {
    var n := f.secE;
    ScanBounds(p, section, key, i, last);
    ScanSteps(p, q, n, section, key, i, last);
    if !IsHeader(p, i) {
      ScanBounds(p, section, key, i + 1, last);
      ScanInserted(p, q, section, key, i + 1, last, f, value);
    } else if Matches(section, p, i + 1, Bracket(p, i + 1)) {
      var body := SpacesEnd(p, Bracket(p, i + 1) + 1);
      LinesBounds(p, section, key, body, Section(i + 1, body));
      if f == Section(i + 1, body) {
        LastHeader(p, q, section, key, i, body, last, value);
      } else {
        EntersSection(p, q, n, section, key, i, last);
        LinesInserted(p, q, section, key, body, Section(i + 1, body), f, value);
      }
    } else {
      ScanBounds(p, section, key, Bracket(p, i + 1), last);
      ScanInserted(p, q, section, key, Bracket(p, i + 1), last, f, value);
    }
  }

  /** The header of the section into which the line was put. */
  lemma LastHeader(p: seq<byte>, q: seq<byte>, section: seq<byte>, key: seq<byte>, i: nat, body: nat, last: Found, value: seq<byte>)
    requires NulFree(p) && NulFree(q) && IsKey(key) && IsValue(value) && IsHeader(p, i)
    requires i < |p| && body == SpacesEnd(p, Bracket(p, i + 1) + 1) && Inserts(p, q, body, key, value)
    requires Matches(section, p, i + 1, Bracket(p, i + 1))
    ensures Scan(q, section, key, i, last) == EntryKey(i + 1, body, key, value)
  {
    InsertedEntry(p, q, body, key, value);
    EntryBehindHeader(p, q, section, key, i, body, last, value);
  }

  lemma EntryBehindHeader(p: seq<byte>, q: seq<byte>, section: seq<byte>, key: seq<byte>, i: nat, body: nat, last: Found, value: seq<byte>)
    requires NulFree(p) && NulFree(q) && IsKey(key) && IsValue(value) && IsHeader(p, i) && Agree(p, q, body)
    requires i < |p| && body == SpacesEnd(p, Bracket(p, i + 1) + 1) && Matches(section, p, i + 1, Bracket(p, i + 1))
    requires EntryAt(q, body, key, value)
    ensures Scan(q, section, key, i, last) == EntryKey(i + 1, body, key, value)
  {
    var close := Bracket(p, i + 1);
    FirstLineIsEntry(q, section, key, i + 1, body, value);
    HeaderAgrees(p, q, body, i, section);
    SpacesAgree(p, q, body, close + 1);
    EntersNew(q, section, key, i, close, last);
  }

  lemma {:induction false} LinesInserted(p: seq<byte>, q: seq<byte>, section: seq<byte>, key: seq<byte>, i: nat, sec: Found, f: Found, value: seq<byte>)
    requires NulFree(p) && NulFree(q) && i > 0 && sec.Section? && IsKey(key) && IsValue(value) && sec.secS <= i
    requires Lines(p, section, key, i, sec) == f && f.Section? && f != sec && Inserts(p, q, f.secE, key, value)
    ensures Lines(q, section, key, i, sec) == EntryKey(f.secS, f.secE, key, value)
    decreases |p| + 1 - i, 1
  {
    LinesBounds(p, section, key, i, sec);
    if SectionEnds(p, i) {
      ScanInserted(p, q, section, key, i, sec, f, value);
    } else {
      LinesBounds(p, section, key, LineEnd(p, i) + 1, sec);
      LineAgrees(p, q, f.secE, i, key);
      LinesInserted(p, q, section, key, LineEnd(p, i) + 1, sec, f, value);
    }
  }

  // ---- neither is there: a section is appended ----

  function NewSection(section: seq<byte>, key: seq<byte>, value: seq<byte>): seq<byte> {
    [LBRACKET] + section + [RBRACKET, LF] + Entry(key, value)
  }

  /** `[section]` and a line break stand at `at`. */
  predicate HeaderAt(q: seq<byte>, at: nat, section: seq<byte>) {
    var close := at + 1 + |section|;
    && close + 1 < |q| && q[at] == LBRACKET && q[at + 1..close] == section && q[close] == RBRACKET && q[close + 1] == LF
    && (at == 0 || IsNewline(q[at - 1]))
  }

  lemma NewSectionBytes(pre: seq<byte>, q: seq<byte>, section: seq<byte>, key: seq<byte>, value: seq<byte>)
    requires q == pre + NewSection(section, key, value) && (pre == [] || IsNewline(pre[|pre| - 1]))
    ensures HeaderAt(q, |pre|, section) && EntryAt(q, |pre| + |section| + 3, key, value)
  {
  }

  lemma SectionFoundAt(q: seq<byte>, at: nat, section: seq<byte>, key: seq<byte>, value: seq<byte>)
    requires NulFree(q) && IsSection(section) && IsKey(key) && IsValue(value)
    requires HeaderAt(q, at, section) && EntryAt(q, at + |section| + 3, key, value)
    ensures Scan(q, section, key, at, Nothing) == EntryKey(at + 1, at + |section| + 3, key, value)
  {
    var close := at + 1 + |section|;
    FirstLineIsEntry(q, section, key, at + 1, close + 2, value);
    EntryValue(q, close + 2, key, value);
    NewSectionHeader(q, at, section);
    EntersNew(q, section, key, at, close, Nothing);
  }

  lemma EntersNew(q: seq<byte>, section: seq<byte>, key: seq<byte>, i: nat, close: nat, last: Found)
    requires NulFree(q) && i < |q| && IsHeader(q, i) && Bracket(q, i + 1) == close && Matches(section, q, i + 1, close)
    ensures var body := SpacesEnd(q, close + 1);
      Scan(q, section, key, i, last) == Lines(q, section, key, body, Section(i + 1, body))
  {
  }

  lemma NewSectionHeader(q: seq<byte>, at: nat, section: seq<byte>)
    requires IsSection(section) && HeaderAt(q, at, section) && !IsSpace(At(q, at + |section| + 3))
    ensures var close := at + 1 + |section|;
      && IsHeader(q, at) && Bracket(q, at + 1) == close && Matches(section, q, at + 1, close)
      && SpacesEnd(q, close + 1) == close + 2
  {
    var close := at + 1 + |section|;
    assert forall k :: at + 1 <= k < close ==> q[k] == q[at + 1..close][k - at - 1] && q[k] in section;
    BracketIs(q, at + 1, close);
    assert SpacesEnd(q, close + 2) == close + 2;
  }

  lemma {:induction false} BracketIs(p: seq<byte>, i: nat, e: nat)
    requires i <= e < |p| && (forall k :: i <= k < e ==> p[k] != RBRACKET) && p[e] == RBRACKET
    ensures Bracket(p, i) == e
    decreases e - i
  {
    if i < e {
      BracketIs(p, i + 1, e);
    }
  }

  lemma {:induction false} NoBracket(p: seq<byte>, i: nat)
    requires i <= |p| && forall k :: i <= k < |p| ==> p[k] != RBRACKET
    ensures Bracket(p, i) == |p|
    decreases |p| - i
  {
  }

  /** A closed text without the section is scanned through to whatever is appended. */
  lemma {:induction false} ScanAppended(p: seq<byte>, q: seq<byte>, section: seq<byte>, key: seq<byte>, i: nat)
    requires NulFree(p) && NulFree(q) && Agree(p, q, |p|) && i <= |p| && Closed(p)
    requires Scan(p, section, key, i, Nothing) == Nothing
    ensures Scan(q, section, key, i, Nothing) == Scan(q, section, key, |p|, Nothing)
    decreases |p| - i
  {
    if i < |p| {
      if !IsHeader(p, i) {
        ScanAppended(p, q, section, key, i + 1);
      } else {
        var close := Bracket(p, i + 1);
        if Matches(section, p, i + 1, close) {
          LinesBounds(p, section, key, SpacesEnd(p, close + 1), Section(i + 1, SpacesEnd(p, close + 1)));
        } else {
          HeaderAgrees(p, q, |p|, i, section);
          ScanAppended(p, q, section, key, close);
        }
      }
    }
  }

  /** No section starts from `i` on. */
  lemma {:induction false} NoMoreHeaders(p: seq<byte>, section: seq<byte>, key: seq<byte>, i: nat)
    requires NulFree(p) && forall k :: i <= k < |p| ==> !IsHeader(p, k)
    ensures Scan(p, section, key, i, Nothing) == Nothing
    decreases |p| - i
  {
    if i < |p| {
      NoMoreHeaders(p, section, key, i + 1);
    }
  }

  lemma {:induction false} BracketBehind(p: seq<byte>, i: nat, h: nat)
    requires i <= h <= |p| && Bracket(p, h) == |p|
    ensures Bracket(p, i) == |p| || Bracket(p, i) < h
    decreases h - i
  {
    if i < h && p[i] != RBRACKET {
      BracketBehind(p, i + 1, h);
    }
  }

  lemma {:induction false} UnclosedBracket(p: seq<byte>, q: seq<byte>, i: nat, e: nat)
    requires i <= |p| && Agree(p, q, |p|) && Bracket(p, i) == |p| <= e < |q|
    requires q[e] == RBRACKET && forall k :: |p| <= k < e ==> q[k] != RBRACKET
    ensures Bracket(q, i) == e
    decreases |p| - i
  {
    if i < |p| {
      UnclosedBracket(p, q, i + 1, e);
    } else {
      BracketIs(q, i, e);
    }
  }

  /** An unclosed header swallows the section appended behind it. */
  lemma UnclosedHeader(p: seq<byte>, q: seq<byte>, section: seq<byte>, key: seq<byte>, i: nat, value: seq<byte>)
    requires NulFree(p) && NulFree(q) && IsSection(section) && IsKey(key) && IsValue(value)
    requires q == p + ([LF] + NewSection(section, key, value))
    requires i < |p| && IsHeader(p, i) && Bracket(p, i + 1) == |p|
    ensures Scan(q, section, key, i, Nothing) == Nothing
  {
    var close := |p| + 2 + |section|;
    AppendedBytes(p, q, section, key, value);
    UnclosedBracket(p, q, i + 1, close);
    NoMoreHeaders(q, section, key, close);
  }

  lemma AppendedBytes(p: seq<byte>, q: seq<byte>, section: seq<byte>, key: seq<byte>, value: seq<byte>)
    requires IsSection(section) && IsKey(key) && IsValue(value)
    requires q == p + ([LF] + NewSection(section, key, value))
    ensures var close := |p| + 2 + |section|;
      && Agree(p, q, |p|) && close < |q| && q[close] == RBRACKET
      && (forall k :: |p| <= k < close ==> q[k] != RBRACKET)
      && (forall k :: close <= k < |q| ==> !IsHeader(q, k))
  {
  }

  lemma {:induction false} UnclosedHides(p: seq<byte>, q: seq<byte>, section: seq<byte>, key: seq<byte>, i: nat, h: nat, value: seq<byte>)
    requires NulFree(p) && NulFree(q) && IsSection(section) && IsKey(key) && IsValue(value)
    requires q == p + ([LF] + NewSection(section, key, value))
    requires i <= h < |p| && IsHeader(p, h) && Bracket(p, h + 1) == |p|
    requires Scan(p, section, key, i, Nothing) == Nothing
    ensures Scan(q, section, key, i, Nothing) == Nothing
    decreases |p| - i
  {
    if !IsHeader(p, i) {
      assert !IsHeader(q, i);
      UnclosedHides(p, q, section, key, i + 1, h, value);
    } else {
      var close := Bracket(p, i + 1);
      if close == |p| {
        UnclosedHeader(p, q, section, key, i, value);
      } else {
        BracketBehind(p, i + 1, h + 1);
        assert p[h] == LBRACKET && p[close] == RBRACKET;
        if Matches(section, p, i + 1, close) {
          LinesBounds(p, section, key, SpacesEnd(p, close + 1), Section(i + 1, SpacesEnd(p, close + 1)));
        } else {
          HeaderAgrees(p, q, |p|, i, section);
          UnclosedHides(p, q, section, key, close, h, value);
        }
      }
    }
  }

  // ---- what is written is read back ----

  /** When a file takes a new value: the key is there, or its section is there with its header
      closed, or every header of the file is closed. */
  predicate TakesValue(t: seq<byte>, section: seq<byte>, key: seq<byte>)
    requires NulFree(t)
  {
    match ParseFileSpec(t, section, key)
    case Key(_, _, _, _, _) => true
    case Section(_, secE) => secE <= |t|
    case Nothing => Closed(t)
  }

  /** Writing and reading again gives back the value exactly on the files `TakesValue` describes;
      on the others the value cannot be found. */
  lemma WriteThenRead(t: seq<byte>, section: seq<byte>, key: seq<byte>, value: seq<byte>, size: nat)
    requires NulFree(t) && IsSection(section) && IsKey(key) && IsValue(value) && |value| < size
    ensures NulFree(WriteSpec(t, section, key, value))
    ensures ReadSpec(WriteSpec(t, section, key, value), section, key, size)
         == if TakesValue(t, section, key) then Value(value) else Default
  {
    var f := ParseFileSpec(t, section, key);
    var q := WriteSpec(t, section, key, value);
    WriteNulFree(t, section, key, value);
    ScanBounds(t, section, key, 0, Nothing);
    match f {
      case Key(_, _, _, valueS, valueE) =>
        ScanReplaced(t, q, section, key, 0, Nothing, f, value);
        assert q[valueS..valueS + |value|] == value;
        ReadsFound(q, section, key, size, value);
      case Section(secS, secE) =>
        if secE <= |t| {
          ScanInserted(t, q, section, key, 0, Nothing, f, value);
          InsertedEntry(t, q, secE, key, value);
          EntryValue(q, secE, key, value);
          ReadsFound(q, section, key, size, value);
        }
      case Nothing =>
        AppendThenRead(t, section, key, value, size);
    }
  }

  lemma InsertedEntry(p: seq<byte>, q: seq<byte>, at: nat, key: seq<byte>, value: seq<byte>)
    requires Inserts(p, q, at, key, value)
    ensures EntryAt(q, at, key, value)
  {
  }

  lemma AppendThenRead(t: seq<byte>, section: seq<byte>, key: seq<byte>, value: seq<byte>, size: nat)
    requires NulFree(t) && IsSection(section) && IsKey(key) && IsValue(value) && |value| < size
    requires ParseFileSpec(t, section, key) == Nothing
    ensures NulFree(WriteSpec(t, section, key, value))
    ensures ReadSpec(WriteSpec(t, section, key, value), section, key, size) == if Closed(t) then Value(value) else Default
  {
    var q := WriteSpec(t, section, key, value);
    WriteNulFree(t, section, key, value);
    if Closed(t) {
      var gap := if t == [] then [] else [LF];
      AppendShape(t, gap, section, key, value);
      NewSectionBytes(t + gap, q, section, key, value);
      AppendedReads(t, q, |t + gap|, section, key, value, size);
    } else {
      AppendShape(t, [LF], section, key, value);
      AppendedHidden(t, q, section, key, value);
    }
  }

  lemma AppendedHidden(t: seq<byte>, q: seq<byte>, section: seq<byte>, key: seq<byte>, value: seq<byte>)
    requires NulFree(t) && NulFree(q) && IsSection(section) && IsKey(key) && IsValue(value)
    requires ParseFileSpec(t, section, key) == Nothing && !Closed(t)
    requires q == t + ([LF] + NewSection(section, key, value))
    ensures ParseFileSpec(q, section, key) == Nothing
  {
    var h :| 0 <= h < |t| && IsHeader(t, h) && !(Bracket(t, h + 1) < |t|);
    UnclosedHides(t, q, section, key, 0, h, value);
  }

  lemma ReadsFound(q: seq<byte>, section: seq<byte>, key: seq<byte>, size: nat, value: seq<byte>)
    requires NulFree(q) && |value| < size
    requires var f := ParseFileSpec(q, section, key);
      f.Key? && f.valueE == f.valueS + |value| && f.valueE <= |q| && q[f.valueS..f.valueE] == value
    ensures ReadSpec(q, section, key, size) == Value(value)
  {
  }

  lemma AppendShape(t: seq<byte>, gap: seq<byte>, section: seq<byte>, key: seq<byte>, value: seq<byte>)
    ensures t + gap + [LBRACKET] + section + [RBRACKET, LF] + Entry(key, value) == t + gap + NewSection(section, key, value)
    ensures t + gap + NewSection(section, key, value) == t + (gap + NewSection(section, key, value))
  {
  }

  lemma AppendedReads(t: seq<byte>, q: seq<byte>, at: nat, section: seq<byte>, key: seq<byte>, value: seq<byte>, size: nat)
    requires NulFree(t) && NulFree(q) && IsSection(section) && IsKey(key) && IsValue(value) && Closed(t) && |value| < size
    requires Agree(t, q, |t|) && HeaderAt(q, at, section) && EntryAt(q, at + |section| + 3, key, value)
    requires at == |t| || (at == |t| + 1 && IsNewline(q[|t|]))
    requires ParseFileSpec(t, section, key) == Nothing
    ensures ReadSpec(q, section, key, size) == Value(value)
  {
    ScanAppended(t, q, section, key, 0);
    SectionFoundAt(q, at, section, key, value);
    assert at != |t| ==> !IsHeader(q, |t|);
    EntryValue(q, at + |section| + 3, key, value);
    ReadsFound(q, section, key, size, value);
  }

  /** A file whose headers are all closed takes every value. */
  lemma {:induction false} ClosedTakesValue(t: seq<byte>, section: seq<byte>, key: seq<byte>)
    requires NulFree(t) && Closed(t)
    ensures TakesValue(t, section, key)
  {
    ClosedScan(t, section, key, 0, Nothing);
  }

  lemma {:induction false} ClosedScan(p: seq<byte>, section: seq<byte>, key: seq<byte>, i: nat, last: Found)
    requires NulFree(p) && Closed(p) && !last.Key? && (last.Section? ==> last.secE <= |p|)
    ensures var f := Scan(p, section, key, i, last); f.Section? ==> f.secE <= |p|
    decreases |p| + 1 - i, 0
  {
    if i < |p| {
      if !IsHeader(p, i) {
        ClosedScan(p, section, key, i + 1, last);
      } else {
        var close := Bracket(p, i + 1);
        if Matches(section, p, i + 1, close) {
          var body := SpacesEnd(p, close + 1);
          ClosedLines(p, section, key, body, Section(i + 1, body));
        } else {
          ClosedScan(p, section, key, close, last);
        }
      }
    }
  }

  lemma {:induction false} ClosedLines(p: seq<byte>, section: seq<byte>, key: seq<byte>, i: nat, sec: Found)
    requires NulFree(p) && Closed(p) && i > 0 && sec.Section? && sec.secE <= |p|
    ensures var f := Lines(p, section, key, i, sec); f.Section? ==> f.secE <= |p|
    decreases |p| + 1 - i, 1
  {
    if i > |p| || SectionEnds(p, i) {
      ClosedScan(p, section, key, i, sec);
    } else if !HasKey(p, key, i) {
      ClosedLines(p, section, key, LineEnd(p, i) + 1, sec);
    }
  }

  // ---- the C code ----

  /** `parse_file`. */
  method ParseFile(p: seq<byte>, section: seq<byte>, key: seq<byte>) returns (f: Found)
    requires NulFree(p)
    ensures f == ParseFileSpec(p, section, key)
  {
    f := Nothing;
    var i := 0;
    while At(p, i) != NUL
      invariant !f.Key? && Scan(p, section, key, i, f) == ParseFileSpec(p, section, key)
      decreases |p| + 1 - i
    {
      if (i == 0 || IsNewline(At(p, i - 1))) && At(p, i) == LBRACKET {
        var sectionStart := i + 1;
        i := FindBracket(p, i);
        if Matches(section, p, sectionStart, i) {
          i := SkipSpaces(p, i + 1);
          f, i := ParseLines(p, section, key, i, Section(sectionStart, i));
          if f.Key? {
            return;
          }
        }
      } else {
        i := i + 1;
      }
    }
  }

  /** `do { i++; } while (p[i] is neither ']' nor the end)` */
  method FindBracket(p: seq<byte>, start: nat) returns (i: nat)
    requires start < |p| && NulFree(p)
    ensures i == Bracket(p, start + 1) && start < i
  {
    i := start + 1;
    while At(p, i) != RBRACKET && At(p, i) != NUL
      invariant start < i <= |p| && Bracket(p, i) == Bracket(p, start + 1)
      decreases |p| - i
    {
      i := i + 1;
    }
  }

  method SkipSpaces(p: seq<byte>, start: nat) returns (i: nat)
    ensures i == SpacesEnd(p, start)
  {
    i := start;
    while IsSpace(At(p, i))
      invariant start <= i && SpacesEnd(p, i) == SpacesEnd(p, start)
      decreases |p| - i
    {
      i := i + 1;
    }
  }

  /** The loop over the lines of a section; it stops at the key, at the next header, or at the end. */
  method ParseLines(p: seq<byte>, section: seq<byte>, key: seq<byte>, start: nat, sec: Found) returns (f: Found, i: nat)
    requires NulFree(p) && start > 0 && sec.Section?
    ensures f.Key? ==> f == Lines(p, section, key, start, sec)
    ensures !f.Key? ==> f == sec && start <= i && Lines(p, section, key, start, sec) == Scan(p, section, key, i, sec)
  {
    i := start;
    f := sec;
    while !(IsNewline(At(p, i - 1)) && At(p, i) == LBRACKET) && At(p, i) != NUL
      invariant start <= i && Lines(p, section, key, i, sec) == Lines(p, section, key, start, sec)
      decreases |p| + 1 - i
    {
      var newlineStart := i;
      while At(p, i) != NUL && !IsNewline(At(p, i))
        invariant newlineStart <= i <= |p| && LineEnd(p, i) == LineEnd(p, newlineStart)
        decreases |p| - i
      {
        i := i + 1;
      }
      if At(p, newlineStart) != SEMICOLON {
        var j := FindEquals(p, newlineStart, i);
        if newlineStart < j < i && Matches(key, p, newlineStart, j) {
          return Key(sec.secS, sec.secE, newlineStart, j + 1, i), i;
        }
      }
      i := i + 1;
    }
  }

  method FindEquals(p: seq<byte>, start: nat, end: nat) returns (j: nat)
    requires start <= end <= |p|
    ensures j == EqualsAt(p, start, end)
  {
    j := start;
    while j < end && p[j] != EQUALS
      invariant start <= j <= end && EqualsAt(p, j, end) == EqualsAt(p, start, end)
    {
      j := j + 1;
    }
  }

  /** `read_profile_string`: the buffer is cleared and holds the value with its terminator. */
  method ReadProfileString(t: seq<byte>, section: seq<byte>, key: seq<byte>, value: array<byte>, defaultValue: seq<byte>)
    returns (found: bool)
    requires IsFileText(t) && section != [] && key != [] && value.Length > 0 && |defaultValue| < value.Length
    modifies value
    ensures var r := ReadSpec(t, section, key, value.Length);
      var text := if r.Value? then r.text else defaultValue;
      found == r.Value? && |text| < value.Length && value[..|text|] == text
      && forall k :: |text| <= k < value.Length ==> value[k] == NUL
  {
    var f := ParseFile(t, section, key);
    ScanBounds(t, section, key, 0, Nothing);
    var text := defaultValue;
    if f.Key? {
      var count := f.valueE - f.valueS;
      if value.Length - 1 < count { count := value.Length - 1; }
      text := t[f.valueS..f.valueS + count];
    }
    forall k | 0 <= k < value.Length {
      value[k] := if k < |text| then text[k] else NUL;
    }
    assert value[..|text|] == text;
    found := f.Key?;
  }

  /** `memcpy(w_buf + at, s, |s|)` */
  method CopyTo(buf: array<byte>, at: nat, s: seq<byte>) returns (end: nat)
    requires at + |s| <= buf.Length
    modifies buf
    ensures end == at + |s| && buf[..end] == old(buf[..at]) + s
    ensures forall k :: end <= k < buf.Length ==> buf[k] == old(buf[k])
  {
    forall k | 0 <= k < |s| {
      buf[at + k] := s[k];
    }
    end := at + |s|;
  }

  /** The buffer holds `text` and is zero behind it. */
  ghost predicate Filled(buf: array<byte>, text: seq<byte>)
    reads buf
  {
    |text| < buf.Length && buf[..|text|] == text && forall k :: |text| <= k < buf.Length ==> buf[k] == NUL
  }

  /** No section: `[section]` and the key line go to the end, on a line of their own. */
  method AppendSection(buf: array<byte>, t: seq<byte>, section: seq<byte>, key: seq<byte>, value: seq<byte>)
    requires Filled(buf, []) && |t| + |section| + |key| + |value| + 6 < buf.Length
    modifies buf
    ensures Filled(buf, t + (if t == [] then [] else [LF]) + [LBRACKET] + section + [RBRACKET, LF] + Entry(key, value))
  {
    var end := CopyTo(buf, 0, t);
    end := CopyTo(buf, end, if t == [] then [] else [LF]);
    end := CopyTo(buf, end, [LBRACKET] + section + [RBRACKET, LF]);
    end := CopyTo(buf, end, Entry(key, value));
    assert buf[..end] == t + (if t == [] then [] else [LF]) + [LBRACKET] + section + [RBRACKET, LF] + Entry(key, value);
  }

  /** A section: the key line goes in front of its first line. `sec_e` may lie behind the terminator. */
  method InsertLine(buf: array<byte>, t: seq<byte>, secE: nat, key: seq<byte>, value: seq<byte>)
    requires Filled(buf, []) && |t| + |key| + |value| + 6 < buf.Length && secE <= |t| + 1
    modifies buf
    ensures secE <= |t| ==> Filled(buf, t[..secE] + Entry(key, value) + t[secE..])
    ensures secE == |t| + 1 ==> buf[..|t|] == t && buf[|t|] == NUL
  {
    if secE <= |t| {
      var end := CopyTo(buf, 0, t[..secE]);
      end := CopyTo(buf, end, Entry(key, value));
      end := CopyTo(buf, end, t[secE..]);
      assert buf[..end] == t[..secE] + Entry(key, value) + t[secE..];
    } else {
      var end := CopyTo(buf, 0, t + [NUL]);
      end := CopyTo(buf, end, Entry(key, value));
      assert buf[|t|] == buf[..end][|t|] && buf[..|t|] == buf[..end][..|t|];
    }
  }

  /** A key: its value is replaced. */
  method ReplaceValue(buf: array<byte>, t: seq<byte>, valueS: nat, valueE: nat, value: seq<byte>)
    requires Filled(buf, []) && |t| + |value| < buf.Length && valueS <= valueE <= |t|
    modifies buf
    ensures Filled(buf, t[..valueS] + value + t[valueE..])
  {
    var end := CopyTo(buf, 0, t[..valueS]);
    end := CopyTo(buf, end, value);
    end := CopyTo(buf, end, t[valueE..]);
    assert buf[..end] == t[..valueS] + value + t[valueE..];
  }

  /** `write_profile_string`: the new text is put together in the zeroed `w_buf`; the file
      gets what stands in it before the first terminator. */
  method WriteProfileString(t: seq<byte>, section: seq<byte>, key: seq<byte>, value: seq<byte>) returns (file: seq<byte>)
    requires IsFileText(t) && section != [] && key != [] && NulFree(section) && NulFree(key) && NulFree(value)
    requires PERCENT !in t && |t| + |section| + |key| + |value| + 6 < MAX_FILE_SIZE
    ensures file == WriteSpec(t, section, key, value)
  {
    var buf := new byte[MAX_FILE_SIZE](_ => NUL);
    assert buf[..0] == [];
    var f := ParseFile(t, section, key);
    ScanBounds(t, section, key, 0, Nothing);
    match f {
      case Nothing => AppendSection(buf, t, section, key, value);
      case Section(_, secE) => InsertLine(buf, t, secE, key, value);
      case Key(_, _, _, valueS, valueE) => ReplaceValue(buf, t, valueS, valueE, value);
    }
    WriteNulFree(t, section, key, value);
    file := FPuts(buf, WriteSpec(t, section, key, value));
  }

  lemma WriteNulFree(t: seq<byte>, section: seq<byte>, key: seq<byte>, value: seq<byte>)
    requires NulFree(t) && NulFree(section) && NulFree(key) && NulFree(value)
    ensures NulFree(WriteSpec(t, section, key, value))
  {
    ScanBounds(t, section, key, 0, Nothing);
  }

  /** `fputs`: everything before the first terminator. */
  method FPuts(buf: array<byte>, ghost text: seq<byte>) returns (file: seq<byte>)
    requires |text| < buf.Length && buf[..|text|] == text && buf[|text|] == NUL && NulFree(text)
    ensures file == text
  {
    assert forall k :: 0 <= k < |text| ==> buf[k] == buf[..|text|][k] != NUL;
    var n := 0;
    while buf[n] != NUL
      invariant 0 <= n <= |text|
      decreases |text| - n
    {
      n := n + 1;
    }
    file := buf[..n];
  }
}
