/**
 The string literals of net4g/src/cjson.c: the two passes of `parse_string` and
 the two passes of `print_string_ptr`.

 A text is a C string given as the sequence of its bytes before the terminator.
 The specification functions take the text that is still unread; the methods
 move an index through the whole text, as the C pointers do.
 */
module CJsonString {
  import opened Bits
  import opened Bytes
  import Utf8

  /** Outcome of a parse: a value and the unread text, a NULL return, or a read or
      escape this model does not cover (text that ends inside an escape, or a `\u`
      without four hexadecimal digits). */
  datatype Parsed<+T> = Ok(value: T, rest: seq<byte>) | Fail | Undefined

  /** The same outcome as a parse method reports it, with an index instead of a text. */
  datatype Cursor<+T> = Next(value: T, pos: nat) | Failed | Wild

  predicate Within<T>(text: seq<byte>, c: Cursor<T>) {
    c.Next? ==> c.pos <= |text|
  }

  function Unread<T>(text: seq<byte>, c: Cursor<T>): Parsed<T>
    requires Within(text, c)
  {
    match c
    case Next(value, pos) => Ok(value, text[pos..])
    case Failed => Fail
    case Wild => Undefined
  }

  // ---- hexadecimal digits ----

  predicate IsHex(b: byte) {
    IsDigit(b) || 65 <= b <= 70 || 97 <= b <= 102
  }

  function HexValue(b: byte): (v: nat)
    requires IsHex(b)
    ensures v < 16
  {
    var c: int := b;
    if b <= NINE then c - 48 else if b <= 70 then c - 55 else c - 87
  }

  predicate HasHex4(s: seq<byte>) {
    |s| >= 4 && forall k :: 0 <= k < 4 ==> IsHex(s[k])
  }

  function Hex4(s: seq<byte>): (v: nat)
    requires HasHex4(s)
    ensures v < 0x10000
  {
    ((HexValue(s[0]) * 16 + HexValue(s[1])) * 16 + HexValue(s[2])) * 16 + HexValue(s[3])
  }

  // ---- reading a literal ----

  datatype Escaped = Escaped(out: seq<byte>, used: nat) | Incomplete

  predicate IsHighSurrogate(uc: int) { 0xD800 <= uc <= 0xDBFF }

  predicate IsLowSurrogate(uc: int) { 0xDC00 <= uc <= 0xDFFF }

  function Combine(high: nat, low: nat): (uc: nat)
    ensures 0x10000 <= uc <= 0x10FFFF
  {
    0x10000 + high % 0x400 * 0x400 + low % 0x400
  }

  /** What the escape at the start of `s` contributes, and how many bytes it takes. */
  function Escape(s: seq<byte>): (e: Escaped)
    requires |s| >= 2 && s[0] == BACKSLASH
    ensures e.Escaped? ==> 2 <= e.used <= |s|
  {
    match s[1]
    case 98 => Escaped([8], 2)
    case 102 => Escaped([12], 2)
    case 110 => Escaped([10], 2)
    case 114 => Escaped([13], 2)
    case 116 => Escaped([9], 2)
    case 117 =>
      if !HasHex4(s[2..]) then Incomplete
      else
        var uc := Hex4(s[2..]);
        if IsLowSurrogate(uc) || uc == 0 then Escaped([], 6)
        else if !IsHighSurrogate(uc) then Escaped(Utf8.Encode(uc), 6)
        else if At(s, 6) != BACKSLASH || At(s, 7) != 117 then Escaped([], 6)
        else if !HasHex4(s[8..]) then Incomplete
        else
          var uc2 := Hex4(s[8..]);
          if !IsLowSurrogate(uc2) then Escaped([], 12)
          else Escaped(Utf8.Encode(Combine(uc, uc2)), 12)
    case c => Escaped([c], 2)
  }

  function Prepend(out: seq<byte>, p: Parsed<str>): Parsed<str> {
    if p.Ok? then Ok(out + p.value, p.rest) else p
  }

  lemma PrependTwice(a: seq<byte>, b: seq<byte>, p: Parsed<str>)
    ensures Prepend([], p) == p
    ensures Prepend(a, Prepend(b, p)) == Prepend(a + b, p)
  {
    if p.Ok? {
      assert [] + p.value == p.value;
      assert a + (b + p.value) == a + b + p.value;
    }
  }

  /** The second pass of `parse_string`, after the opening quote. */
  function StringBody(s: seq<byte>): (p: Parsed<str>)
    ensures p.Ok? ==> |p.rest| <= |s|
  {
    if s == [] then Ok([], [])
    else if s[0] == QUOTE then Ok([], s[1..])
    else if s[0] != BACKSLASH then Prepend([s[0]], StringBody(s[1..]))
    else if |s| == 1 then Undefined
    else
      var e := Escape(s);
      if e.Incomplete? then Undefined else Prepend(e.out, StringBody(s[e.used..]))
  }

  /** The whole of `parse_string`. */
  function ParseStringSpec(s: seq<byte>): Parsed<str> {
    if At(s, 0) != QUOTE then Fail else StringBody(s[1..])
  }

  /** The first pass: the size `parse_string` allocates, less the terminator. */
  function Measured(s: seq<byte>): nat {
    if s == [] || s[0] == QUOTE then 0
    else if s[0] != BACKSLASH then 1 + Measured(s[1..])
    else if |s| == 1 then 1
    else 1 + Measured(s[2..])
  }

  lemma {:induction false} MeasuredPlain(s: seq<byte>, n: nat)
    requires n <= |s|
    requires forall k :: 0 <= k < n ==> s[k] != QUOTE && s[k] != BACKSLASH
    ensures Measured(s) == n + Measured(s[n..])
  {
    if n > 0 {
      MeasuredPlain(s[1..], n - 1);
      assert s[1..][n - 1..] == s[n..];
    }
  }

  /** An escape never emits more than the first pass has counted for it. */
  lemma EscapeFits(s: seq<byte>)
    requires |s| >= 2 && s[0] == BACKSLASH && Escape(s).Escaped?
    ensures |Escape(s).out| + Measured(s[Escape(s).used..]) <= Measured(s)
  {
    if s[1] == 117 {
      MeasuredPlain(s[2..], 4);
      assert s[2..][4..] == s[6..];
      if Escape(s).used == 12 {
        MeasuredPlain(s[8..], 4);
        assert s[6..][2..] == s[8..] && s[8..][4..] == s[12..];
      }
    }
  }

  /** The first pass of `parse_string` bounds what the second one writes. */
  lemma {:induction false} BodyFits(s: seq<byte>)
    requires StringBody(s).Ok?
    ensures |StringBody(s).value| <= Measured(s)
  {
    if s != [] && s[0] != QUOTE {
      if s[0] != BACKSLASH {
        BodyFits(s[1..]);
      } else {
        EscapeFits(s);
        BodyFits(s[Escape(s).used..]);
      }
    }
  }

  /** A literal read from a C string is a C string: it holds no terminator. */
  lemma {:induction false} BodyNulFree(s: seq<byte>)
    requires NulFree(s) && StringBody(s).Ok?
    ensures NulFree(StringBody(s).value) && NulFree(StringBody(s).rest)
  {
    if s != [] && s[0] != QUOTE {
      if s[0] != BACKSLASH {
        BodyNulFree(s[1..]);
      } else {
        BodyNulFree(s[Escape(s).used..]);
      }
    }
  }

  /** What is left unread is a proper suffix of the text. */
  lemma {:induction false} BodySuffix(s: seq<byte>)
    requires StringBody(s).Ok?
    ensures var r := StringBody(s).rest;
      |r| <= |s| && r == s[|s| - |r|..] && (s != [] ==> |r| < |s|)
  {
    if s != [] && s[0] != QUOTE {
      var n := if s[0] != BACKSLASH then 1 else Escape(s).used;
      BodySuffix(s[n..]);
      var r := StringBody(s[n..]).rest;
      assert s[n..][|s| - n - |r|..] == s[|s| - |r|..];
    }
  }

  /** Does the first pass run past the end of the text? */
  predicate Overruns(s: seq<byte>) {
    if s == [] || s[0] == QUOTE then false
    else if s[0] != BACKSLASH then Overruns(s[1..])
    else |s| == 1 || Overruns(s[2..])
  }

  lemma {:induction false} OverrunsPlain(s: seq<byte>, n: nat)
    requires n <= |s|
    requires forall k :: 0 <= k < n ==> s[k] != QUOTE && s[k] != BACKSLASH
    ensures Overruns(s) == Overruns(s[n..])
  {
    if n > 0 {
      OverrunsPlain(s[1..], n - 1);
      assert s[1..][n - 1..] == s[n..];
    }
  }

  lemma {:induction false} OverrunIsUndefined(s: seq<byte>)
    requires Overruns(s)
    ensures StringBody(s) == Undefined
  {
    if s[0] != BACKSLASH {
      OverrunIsUndefined(s[1..]);
    } else if |s| > 1 && Escape(s).Escaped? {
      if s[1] == 117 {
        OverrunsPlain(s[2..], 4);
        assert s[2..][4..] == s[6..];
        if Escape(s).used == 12 {
          OverrunsPlain(s[8..], 4);
          assert s[6..][2..] == s[8..] && s[8..][4..] == s[12..];
        }
      }
      OverrunIsUndefined(s[Escape(s).used..]);
    }
  }

  // ---- \u escapes ----

  /** `e` writes the scalar value `cp` as section 7 of RFC 8259 allows: one `\uXXXX`
      in the basic plane, a surrogate pair of them above it. */
  predicate IsUnicodeEscape(e: seq<byte>, cp: nat) {
    && |e| >= 6 && e[0] == BACKSLASH && e[1] == 117 && HasHex4(e[2..])
    && if |e| == 6 then
         Hex4(e[2..]) == cp
       else
         && |e| == 12 && e[6] == BACKSLASH && e[7] == 117 && HasHex4(e[8..])
         && var high, low := Hex4(e[2..]), Hex4(e[8..]);
            IsHighSurrogate(high) && IsLowSurrogate(low)
            && cp == 0x10000 + (high - 0xD800) * 0x400 + (low - 0xDC00)
  }

  /** Every nonzero scalar value written as an escape contributes its UTF-8 encoding,
      no other octets decode to it, and reading goes on right behind the escape. */
  lemma UnicodeEscapeIsUtf8(e: seq<byte>, cp: nat, rest: seq<byte>)
    requires IsUnicodeEscape(e, cp) && Utf8.IsScalar(cp) && cp != 0
    ensures StringBody(e + rest) == Prepend(Utf8.Encode(cp), StringBody(rest))
    ensures forall bs :: Utf8.Decode(bs) == Utf8.CodePoint(cp) <==> bs == Utf8.Encode(cp)
  {
    UnicodeEscapeStep(e, cp, e + rest);
    assert (e + rest)[|e|..] == rest;
    forall bs ensures Utf8.Decode(bs) == Utf8.CodePoint(cp) <==> bs == Utf8.Encode(cp) {
      Utf8.DecodeEncode(bs, cp);
    }
  }

  lemma CombinedPair(high: nat, low: nat)
    requires IsHighSurrogate(high) && IsLowSurrogate(low)
    ensures Combine(high, low) == 0x10000 + (high - 0xD800) * 0x400 + (low - 0xDC00)
  {
  }

  lemma SameHex(s: seq<byte>, t: seq<byte>)
    requires HasHex4(t) && StartsWith(s, t)
    ensures HasHex4(s) && Hex4(s) == Hex4(t)
  {
  }

  lemma UnicodeEscapeStep(e: seq<byte>, cp: nat, s: seq<byte>)
    requires IsUnicodeEscape(e, cp) && Utf8.IsScalar(cp) && cp != 0 && StartsWith(s, e)
    ensures Escape(s) == Escaped(Utf8.Encode(cp), |e|)
  {
    assert forall k :: 0 <= k < |e| ==> s[k] == s[..|e|][k] == e[k];
    assert s[2..][..|e| - 2] == s[..|e|][2..] == e[2..];
    SameHex(s[2..], e[2..]);
    if |e| == 12 {
      assert s[8..][..4] == s[..12][8..] == e[8..];
      SameHex(s[8..], e[8..]);
      CombinedPair(Hex4(e[2..]), Hex4(e[8..]));
    }
  }

  // ---- writing a literal ----

  function HexDigit(d: nat): byte
    requires d < 16
  {
    if d < 10 then 48 + d else 87 + d
  }

  /** What the second pass of `print_string_ptr` writes for one byte. */
  function EscapedByte(c: byte): seq<byte> {
    if c > 31 && c != QUOTE && c != BACKSLASH then [c]
    else match c
      case 92 => [BACKSLASH, BACKSLASH]
      case 34 => [BACKSLASH, QUOTE]
      case 8 => [BACKSLASH, 98]
      case 12 => [BACKSLASH, 102]
      case 10 => [BACKSLASH, 110]
      case 13 => [BACKSLASH, 114]
      case 9 => [BACKSLASH, 116]
      case _ => [BACKSLASH, 117, 48, 48, HexDigit(c / 16), HexDigit(c % 16)]
  }

  function EscapedText(x: seq<byte>): seq<byte> {
    if x == [] then [] else EscapedByte(x[0]) + EscapedText(x[1..])
  }

  function Quoted(x: seq<byte>): seq<byte> {
    [QUOTE] + EscapedText(x) + [QUOTE]
  }

  /** What the first pass of `print_string_ptr` counts for one byte. */
  function CountedByte(c: byte): nat {
    if c in [QUOTE, BACKSLASH, 8, 12, 10, 13, 9] then 2 else if c < 32 then 6 else 1
  }

  function Counted(x: seq<byte>): nat {
    if x == [] then 0 else CountedByte(x[0]) + Counted(x[1..])
  }

  /** The size pass of `print_string_ptr` is exact. */
  lemma {:induction false} CountedIsExact(x: seq<byte>)
    ensures Counted(x) == |EscapedText(x)|
  {
    if x != [] {
      CountedIsExact(x[1..]);
    }
  }

  /** One printed byte is read back as that byte. */
  lemma EscapedByteReads(c: byte, t: seq<byte>)
    requires c != NUL
    ensures StringBody(EscapedByte(c) + t) == Prepend([c], StringBody(t))
  {
    var e := EscapedByte(c);
    if |e| == 1 {
      PlainReads(c, t);
    } else if |e| == 6 {
      ControlEscapeReads(c, e, e + t);
      EscapeStep(c, e, t);
    } else {
      ShortEscapeReads(c, e, e + t);
      EscapeStep(c, e, t);
    }
  }

  lemma PlainReads(c: byte, t: seq<byte>)
    requires c != NUL && c != QUOTE && c != BACKSLASH
    ensures StringBody([c] + t) == Prepend([c], StringBody(t))
  {
  }

  lemma EscapeStep(c: byte, e: seq<byte>, t: seq<byte>)
    requires |e| >= 2 && e[0] == BACKSLASH && Escape(e + t) == Escaped([c], |e|)
    ensures StringBody(e + t) == Prepend([c], StringBody(t))
  {
  }

  lemma ShortEscapeReads(c: byte, e: seq<byte>, s: seq<byte>)
    requires e == EscapedByte(c) && |e| == 2 && StartsWith(s, e)
    ensures Escape(s) == Escaped([c], 2)
  {
  }

  lemma ControlEscapeReads(c: byte, e: seq<byte>, s: seq<byte>)
    requires 0 < c < 32 && StartsWith(s, e)
    requires e == [BACKSLASH, 117, 48, 48, HexDigit(c / 16), HexDigit(c % 16)]
    ensures Escape(s) == Escaped([c], 6)
  {
  }

  /** Parsing a printed literal gives back the string and stops behind it. */
  lemma {:induction false} QuotedReads(x: seq<byte>, rest: seq<byte>)
    requires NulFree(x)
    ensures ParseStringSpec(Quoted(x) + rest) == Ok(x, rest)
  {
    BodyReads(x, rest);
    assert (Quoted(x) + rest)[1..] == EscapedText(x) + ([QUOTE] + rest);
  }

  lemma {:induction false} BodyReads(x: seq<byte>, rest: seq<byte>)
    requires NulFree(x)
    ensures StringBody(EscapedText(x) + ([QUOTE] + rest)) == Ok(x, rest)
  {
    var t := [QUOTE] + rest;
    if x == [] {
      assert EscapedText(x) + t == t;
    } else {
      BodyReads(x[1..], rest);
      EscapedByteReads(x[0], EscapedText(x[1..]) + t);
      AppendAssociates(EscapedByte(x[0]), EscapedText(x[1..]), t);
      assert x == [x[0]] + x[1..];
    }
  }

  // ---- the C code ----

  /** `(uc | 0x80) & 0xBF` */
  method TailOctet(uc: nat) returns (b: byte)
    ensures b == Utf8.Tail(uc)
  {
    TailMask(uc);
    b := AndBits(OrBits(uc, 0x80, 32), 0xBF, 32);
  }

  lemma TailMask(uc: nat)
    ensures AndBits(OrBits(uc, 0x80, 32), 0xBF, 32) == Utf8.Tail(uc)
  {
    MaskSix(uc, 2, 2, 32);
    HighestBit(uc / 64, 26);
  }

  lemma HighestBit(a: nat, n: nat)
    requires n >= 2
    ensures AndBits(OrBits(a, 2, n), 2, n) == 2
  {
    AndZero(OrBits(a / 2 / 2, 0, n - 2), n - 2);
  }

  /** `firstByteMark` */
  function FirstByteMark(len: nat): byte
    requires 1 <= len <= 4
  {
    if len == 1 then 0 else if len == 2 then 0xC0 else if len == 3 then 0xE0 else 0xF0
  }

  /** `uc | firstByteMark[len]` for the bits that are left, for a sequence of `len` octets. */
  method LeadOctet(uc: nat, len: nat) returns (b: byte)
    requires (len == 1 && uc < 0x80) || (len == 2 && uc < 0x20) || (len == 3 && uc < 0x10) || (len == 4 && uc < 0x08)
    ensures b == uc + FirstByteMark(len)
  {
    LeadMask(uc, len);
    b := OrBits(uc, FirstByteMark(len), 8);
  }

  lemma LeadMask(uc: nat, len: nat)
    requires (len == 1 && uc < 0x80) || (len == 2 && uc < 0x20) || (len == 3 && uc < 0x10) || (len == 4 && uc < 0x08)
    ensures OrBits(uc, FirstByteMark(len), 8) == uc + FirstByteMark(len)
  {
    assert Pow2(3) == 8 && Pow2(4) == 16 && Pow2(5) == 32 && Pow2(7) == 128 && Pow2(8) == 256;
    if len == 1 {
      OrIsSum(uc, 0, 7, 8);
    } else if len == 2 {
      OrIsSum(uc, 6, 5, 8);
    } else if len == 3 {
      OrIsSum(uc, 14, 4, 8);
    } else {
      OrIsSum(uc, 30, 3, 8);
    }
  }

  /** Writes `uc` backwards from the end of its octets, as the falling-through switch does. */
  method WriteUtf8(out: array<byte>, start: nat, code: nat) returns (ptr2: nat)
    requires code <= 0x10FFFF && start + |Utf8.Encode(code)| <= out.Length
    modifies out
    ensures ptr2 == start + |Utf8.Encode(code)|
    ensures out[..start] == old(out[..start]) && out[start..ptr2] == Utf8.Encode(code)
  {
    var uc := code;
    var len := 4;
    if uc < 0x80 { len := 1; } else if uc < 0x800 { len := 2; } else if uc < 0x10000 { len := 3; }
    ptr2 := start + len;
    var octet;
    if len >= 4 { ptr2 := ptr2 - 1; octet := TailOctet(uc); out[ptr2] := octet; uc := uc / 64; }
    if len >= 3 { ptr2 := ptr2 - 1; octet := TailOctet(uc); out[ptr2] := octet; uc := uc / 64; }
    if len >= 2 { ptr2 := ptr2 - 1; octet := TailOctet(uc); out[ptr2] := octet; uc := uc / 64; }
    ptr2 := ptr2 - 1;
    octet := LeadOctet(uc, len);
    out[ptr2] := octet;
    ptr2 := ptr2 + len;
  }

  /** One round of the second pass at a backslash: what it writes and where it goes on. */
  method TranscodeEscape(text: seq<byte>, at: nat, out: array<byte>, start: nat)
    returns (ok: bool, ptr: nat, ptr2: nat)
    requires at + 2 <= |text| && text[at] == BACKSLASH
    requires start + Measured(text[at..]) <= out.Length
    modifies out
    ensures ok == Escape(text[at..]).Escaped?
    ensures ok ==>
      var e := Escape(text[at..]);
      ptr == at + e.used && ptr2 == start + |e.out| <= out.Length
      && out[..start] == old(out[..start]) && out[start..ptr2] == e.out
  {
    EscapeRoom(text[at..]);
    ptr := at + 1;
    ptr2 := start;
    var c := text[ptr];
    if c == 117 {
      if !HasHex4(text[ptr + 1..]) {
        assert text[at..][2..] == text[ptr + 1..];
        return false, ptr, ptr2;
      }
      assert text[at..][2..] == text[ptr + 1..];
      var uc := Hex4(text[ptr + 1..]);
      ptr := ptr + 4;
      if !(IsLowSurrogate(uc) || uc == 0) {
        if IsHighSurrogate(uc) {
          if !(At(text, ptr + 1) != BACKSLASH || At(text, ptr + 2) != 117) {
            assert text[at..][8..] == text[ptr + 3..];
            if !HasHex4(text[ptr + 3..]) {
              return false, ptr, ptr2;
            }
            var uc2 := Hex4(text[ptr + 3..]);
            ptr := ptr + 6;
            if IsLowSurrogate(uc2) {
              ptr2 := WriteUtf8(out, ptr2, Combine(uc, uc2));
            }
          }
        } else {
          ptr2 := WriteUtf8(out, ptr2, uc);
        }
      }
    } else {
      out[ptr2] := match c case 98 => 8 case 102 => 12 case 110 => 10 case 114 => 13 case 116 => 9 case _ => c;
      ptr2 := ptr2 + 1;
    }
    ptr := ptr + 1;
    ok := true;
  }

  lemma EscapeRoom(s: seq<byte>)
    requires |s| >= 2 && s[0] == BACKSLASH
    ensures Measured(s) >= 1
    ensures Escape(s).Escaped? ==> |Escape(s).out| + Measured(s[Escape(s).used..]) <= Measured(s)
  {
    if Escape(s).Escaped? {
      EscapeFits(s);
    }
  }

  /** The first pass of `parse_string`: how much to allocate. */
  method MeasureLiteral(text: seq<byte>, start: nat) returns (ok: bool, len: nat)
    requires start <= |text| && NulFree(text)
    ensures ok == !Overruns(text[start..])
    ensures ok ==> len == Measured(text[start..])
  {
    var ptr := start;
    len := 0;
    while At(text, ptr) != QUOTE && At(text, ptr) != NUL
      invariant start <= ptr <= |text|
      invariant len + Measured(text[ptr..]) == Measured(text[start..])
      invariant Overruns(text[ptr..]) == Overruns(text[start..])
      decreases |text| - ptr
    {
      len := len + 1;
      if text[ptr] == BACKSLASH {
        if ptr + 1 == |text| {
          return false, len;
        }
        assert text[ptr..][2..] == text[ptr + 2..];
        ptr := ptr + 1;
      } else {
        assert text[ptr..][1..] == text[ptr + 1..];
      }
      ptr := ptr + 1;
    }
    ok := true;
  }

  /** One round of the second pass, at a plain byte or at an escape. */
  method DecodeOne(text: seq<byte>, at: nat, out: array<byte>, start: nat)
    returns (ok: bool, ptr: nat, ptr2: nat)
    requires at < |text| && text[at] != QUOTE && start + Measured(text[at..]) < out.Length
    modifies out
    ensures !ok ==> StringBody(text[at..]) == Undefined
    ensures ok ==> at < ptr <= |text| && start <= ptr2 && ptr2 + Measured(text[ptr..]) < out.Length
    ensures ok ==> out[..start] == old(out[..start])
                   && StringBody(text[at..]) == Prepend(out[start..ptr2], StringBody(text[ptr..]))
  {
    ptr, ptr2, ok := at, start, true;
    if text[at] != BACKSLASH {
      out[ptr2] := text[ptr];
      ptr2 := ptr2 + 1;
      ptr := ptr + 1;
      assert text[at..][1..] == text[ptr..] && out[start..ptr2] == [text[at]];
    } else if at + 1 == |text| {
      ok := false;
    } else {
      EscapeRoom(text[at..]);
      ok, ptr, ptr2 := TranscodeEscape(text, at, out, start);
      if ok {
        assert text[at..][ptr - at..] == text[ptr..];
      }
    }
  }

  /** The second pass of `parse_string`: it never leaves the buffer the first pass asked for. */
  method DecodeLiteral(text: seq<byte>, start: nat, out: array<byte>) returns (c: Cursor<nat>)
    requires start <= |text| && NulFree(text) && out.Length == Measured(text[start..]) + 1
    modifies out
    ensures Within(text, c) && !c.Failed?
    ensures c.Wild? ==> StringBody(text[start..]) == Undefined
    ensures c.Next? ==> c.value < out.Length && out[c.value] == NUL
                        && StringBody(text[start..]) == Ok(out[..c.value], text[c.pos..])
  {
    var ptr, ptr2 := start, 0;
    ghost var whole := StringBody(text[start..]);
    PrependTwice([], [], whole);
    while At(text, ptr) != QUOTE && At(text, ptr) != NUL
      invariant start <= ptr <= |text| && 0 <= ptr2
      invariant ptr2 + Measured(text[ptr..]) < out.Length
      invariant whole == Prepend(out[..ptr2], StringBody(text[ptr..]))
      decreases |text| - ptr
    {
      ghost var before, from := out[..ptr2], ptr2;
      var ok;
      ok, ptr, ptr2 := DecodeOne(text, ptr, out, ptr2);
      if !ok {
        return Wild;
      }
      PrependTwice(before, out[from..ptr2], StringBody(text[ptr..]));
      assert out[..ptr2] == before + out[from..ptr2];
    }
    ghost var decoded := out[..ptr2];
    out[ptr2] := NUL;
    assert out[..ptr2] == decoded == decoded + [];
    if At(text, ptr) == QUOTE {
      assert text[ptr..][1..] == text[ptr + 1..];
      ptr := ptr + 1;
    }
    return Next(ptr2, ptr);
  }

  /** `parse_string`: the first pass sizes the buffer, the second one fills it. */
  method ParseString(text: seq<byte>, start: nat) returns (c: Cursor<str>)
    requires start <= |text| && NulFree(text)
    ensures Within(text, c) && Unread(text, c) == ParseStringSpec(text[start..])
  {
    if At(text, start) != QUOTE {
      return Failed;
    }
    assert text[start..][1..] == text[start + 1..];
    var ok, len := MeasureLiteral(text, start + 1);
    if !ok {
      OverrunIsUndefined(text[start + 1..]);
      return Wild;
    }
    var out := new byte[len + 1];
    var end := DecodeLiteral(text, start + 1, out);
    if end.Wild? {
      return Wild;
    }
    return Next(out[..end.value], end.pos);
  }

  /** The body of the writing loop of `print_string_ptr`. */
  method WriteEscaped(out: array<byte>, at: nat, token: byte) returns (ptr2: nat)
    requires at + |EscapedByte(token)| <= out.Length
    modifies out
    ensures ptr2 == at + |EscapedByte(token)|
    ensures out[..ptr2] == old(out[..at]) + EscapedByte(token)
  {
    ptr2 := at;
    if token > 31 && token != QUOTE && token != BACKSLASH {
      out[ptr2] := token;
      ptr2 := ptr2 + 1;
    } else {
      out[ptr2] := BACKSLASH;
      ptr2 := ptr2 + 1;
      match token {
        case 92 => out[ptr2] := BACKSLASH; ptr2 := ptr2 + 1;
        case 34 => out[ptr2] := QUOTE; ptr2 := ptr2 + 1;
        case 8 => out[ptr2] := 98; ptr2 := ptr2 + 1;
        case 12 => out[ptr2] := 102; ptr2 := ptr2 + 1;
        case 10 => out[ptr2] := 110; ptr2 := ptr2 + 1;
        case 13 => out[ptr2] := 114; ptr2 := ptr2 + 1;
        case 9 => out[ptr2] := 116; ptr2 := ptr2 + 1;
        case _ =>
          out[ptr2], out[ptr2 + 1], out[ptr2 + 2] := 117, 48, 48;
          out[ptr2 + 3], out[ptr2 + 4] := HexDigit(token / 16), HexDigit(token % 16);
          ptr2 := ptr2 + 5;
      }
    }
  }

  /** The size pass of `print_string_ptr`. */
  method MeasurePrinted(x: str) returns (len: nat)
    ensures len == |EscapedText(x)|
  {
    len := 0;
    var ptr := 0;
    while ptr < |x|
      invariant 0 <= ptr <= |x|
      invariant len + Counted(x[ptr..]) == Counted(x)
    {
      assert x[ptr..][1..] == x[ptr + 1..];
      len := len + 1;
      if x[ptr] in [QUOTE, BACKSLASH, 8, 12, 10, 13, 9] { len := len + 1; } else if x[ptr] < 32 { len := len + 5; }
      ptr := ptr + 1;
    }
    CountedIsExact(x);
  }

  /** `print_string_ptr`: the size pass, then the writing pass into a buffer of exactly that size. */
  method PrintStringPtr(x: str) returns (out: array<byte>)
    requires NulFree(x)
    ensures fresh(out) && out.Length == |Quoted(x)| + 1
    ensures out[..] == Quoted(x) + [NUL]
  {
    var len := MeasurePrinted(x);
    out := new byte[len + 3];
    out[0] := QUOTE;
    var ptr2 := 1;
    var ptr := 0;
    while ptr < |x|
      invariant 0 <= ptr <= |x| && 1 <= ptr2
      invariant ptr2 + |EscapedText(x[ptr..])| == 1 + len
      invariant out[..ptr2] + EscapedText(x[ptr..]) == [QUOTE] + EscapedText(x)
    {
      assert x[ptr..][1..] == x[ptr + 1..];
      AppendAssociates(out[..ptr2], EscapedByte(x[ptr]), EscapedText(x[ptr + 1..]));
      ptr2 := WriteEscaped(out, ptr2, x[ptr]);
      ptr := ptr + 1;
    }
    out[ptr2] := QUOTE;
    ptr2 := ptr2 + 1;
    out[ptr2] := NUL;
    assert out[..ptr2] == Quoted(x);
  }
}
