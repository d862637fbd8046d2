/**
 ikcc_service/src/src/xlinkgateway/base64.c: section 4 of RFC 4648. Shifts and masks
 of a byte are written as divisions and remainders.
 */
module Base64 {
  import opened Bytes

  const PAD: byte := 61

  /** `base64char[k]`: A-Z, a-z, 0-9, `+`, `/`. */
  function Char(k: nat): (c: byte)
    requires k < 64
    ensures c != PAD && c != NUL && c > SPACE
  {
    if k < 26 then 65 + k else if k < 52 then 71 + k else if k < 62 then k - 4 else if k == 62 then 43 else 47
  }

  /** The alphabet has no letter twice. */
  lemma CharInjective(j: nat, k: nat)
    requires j < 64 && k < 64 && Char(j) == Char(k)
    ensures j == k
  {
  }

  // ---- specification ----

  /** The six-bit groups of three octets. */
  function Sextet(a: byte, b: byte, c: byte, n: nat): (k: nat)
    requires n < 4
    ensures k < 64
  {
    match n
    case 0 => a / 4
    case 1 => a % 4 * 16 + b / 16
    case 2 => b % 16 * 4 + c / 64
    case _ => c % 64
  }

  function Group(a: byte, b: byte, c: byte): (text: seq<byte>)
    ensures |text| == 4
  {
    [Char(Sextet(a, b, c, 0)), Char(Sextet(a, b, c, 1)), Char(Sextet(a, b, c, 2)), Char(Sextet(a, b, c, 3))]
  }

  /** RFC 4648: groups of three octets give four characters; a rest of one or two octets is
      filled up with zero bits and padded. */
  function Encode(bin: seq<byte>): (text: seq<byte>)
    ensures |text| == (|bin| + 2) / 3 * 4
  {
    if bin == [] then []
    else if |bin| == 1 then Group(bin[0], 0, 0)[..2] + [PAD, PAD]
    else if |bin| == 2 then Group(bin[0], bin[1], 0)[..3] + [PAD]
    else Group(bin[0], bin[1], bin[2]) + Encode(bin[3..])
  }

  /** The position of a character in the alphabet, or 0xFF. */
  function Index(c: byte): (k: byte)
    ensures k < 64 ==> Char(k) == c
    ensures k < 64 || (k == 255 && forall j :: 0 <= j < 64 ==> Char(j) != c)
  {
    var d: int := c;
    if 65 <= d <= 90 then d - 65 else if 97 <= d <= 122 then d - 71 else if 48 <= d <= 57 then d + 4
    else if d == 43 then 62 else if d == 47 then 63 else 255
  }

  function First(t0: byte, t1: byte): byte { t0 % 64 * 4 + t1 / 16 % 4 }

  function Second(t1: byte, t2: byte): byte { t1 % 16 * 16 + t2 / 4 % 16 }

  function Third(t2: byte, t3: byte): byte { t2 % 4 * 64 + t3 % 64 }

  /** What `base64_decode` writes; it looks at four characters at a time and stops at padding. */
  function Decode(s: seq<byte>): seq<byte> {
    if At(s, 0) == NUL then []
    else
      var t0, t1, t2, t3 := Index(At(s, 0)), Index(At(s, 1)), Index(At(s, 2)), Index(At(s, 3));
      if At(s, 2) == PAD then [First(t0, t1)]
      else if At(s, 3) == PAD then [First(t0, t1), Second(t1, t2)]
      else [First(t0, t1), Second(t1, t2), Third(t2, t3)] + if |s| > 4 then Decode(s[4..]) else []
  }

  // ---- decoding undoes encoding ----

  lemma IndexOfChar(k: nat)
    requires k < 64
    ensures Index(Char(k)) == k
  {
  }

  lemma SextetsDecode(a: byte, b: byte, c: byte)
    ensures First(Sextet(a, b, c, 0), Sextet(a, b, c, 1)) == a
    ensures Second(Sextet(a, b, c, 1), Sextet(a, b, c, 2)) == b
    ensures Third(Sextet(a, b, c, 2), Sextet(a, b, c, 3)) == c
  {
    assert Sextet(a, b, c, 1) / 16 == a % 4 && Sextet(a, b, c, 1) % 16 == b / 16;
    assert Sextet(a, b, c, 2) / 4 == b % 16 && Sextet(a, b, c, 2) % 4 == c / 64;
  }

  /** Reading a whole group. */
  lemma GroupDecodes(a: byte, b: byte, c: byte, rest: seq<byte>)
    ensures Decode(Group(a, b, c) + rest) == [a, b, c] + Decode(rest)
  {
    var s := Group(a, b, c) + rest;
    SextetsDecode(a, b, c);
    assert Index(s[0]) == Sextet(a, b, c, 0) && Index(s[1]) == Sextet(a, b, c, 1);
    assert Index(s[2]) == Sextet(a, b, c, 2) && Index(s[3]) == Sextet(a, b, c, 3);
    assert rest != [] ==> s[4..] == rest;
  }

  /** Reading one octet from a padded group. */
  lemma OneOctetDecodes(a: byte)
    ensures Decode(Group(a, 0, 0)[..2] + [PAD, PAD]) == [a]
  {
    var k0, k1 := Sextet(a, 0, 0, 0), Sextet(a, 0, 0, 1);
    SextetsDecode(a, 0, 0);
    IndexOfChar(k0);
    IndexOfChar(k1);
    assert Group(a, 0, 0)[..2] + [PAD, PAD] == [Char(k0), Char(k1), PAD, PAD];
  }

  /** Reading two octets from a padded group. */
  lemma TwoOctetsDecode(a: byte, b: byte)
    ensures Decode(Group(a, b, 0)[..3] + [PAD]) == [a, b]
  {
    var k0, k1, k2 := Sextet(a, b, 0, 0), Sextet(a, b, 0, 1), Sextet(a, b, 0, 2);
    SextetsDecode(a, b, 0);
    IndexOfChar(k0);
    IndexOfChar(k1);
    IndexOfChar(k2);
    assert Group(a, b, 0)[..3] + [PAD] == [Char(k0), Char(k1), Char(k2), PAD];
  }

  /** Decoding gives back every byte string, of the same length. */
  lemma {:induction false} DecodeEncode(bin: seq<byte>)
    ensures Decode(Encode(bin)) == bin
  {
    if |bin| == 1 {
      OneOctetDecodes(bin[0]);
    } else if |bin| == 2 {
      TwoOctetsDecode(bin[0], bin[1]);
    } else if |bin| >= 3 {
      DecodeEncode(bin[3..]);
      GroupDecodes(bin[0], bin[1], bin[2], Encode(bin[3..]));
      assert bin == [bin[0], bin[1], bin[2]] + bin[3..];
    }
  }

  /** An encoded text is one word of the alphabet and padding. */
  lemma {:induction false} EncodedIsPlain(bin: seq<byte>)
    ensures forall k :: 0 <= k < |Encode(bin)| ==> Encode(bin)[k] > SPACE && Encode(bin)[k] < 128
  {
    if |bin| >= 3 {
      EncodedIsPlain(bin[3..]);
    }
  }

  // ---- the C code ----

  /** One round of `base64_encode`: up to three octets from `i` on, padded at the end of the data. */
  method EncodeRound(bindata: seq<byte>, i: nat, base64: array<byte>, at: nat) returns (j: nat, last: bool)
    requires i < |bindata| && at + 4 <= base64.Length
    modifies base64
    ensures j == at + 4 && base64[..at] == old(base64[..at])
    ensures forall k :: j <= k < base64.Length ==> base64[k] == old(base64[k])
    ensures last == (i + 2 >= |bindata|)
    ensures base64[at..j] == if last then Encode(bindata[i..]) else Group(bindata[i], bindata[i + 1], bindata[i + 2])
  {
    j := at;
    last := true;
    base64[j] := Char(bindata[i] / 4);
    j := j + 1;
    if i + 1 >= |bindata| {
      base64[j] := Char(bindata[i] % 4 * 16);
      base64[j + 1], base64[j + 2] := PAD, PAD;
      j := j + 3;
      return;
    }
    base64[j] := Char(bindata[i] % 4 * 16 + bindata[i + 1] / 16);
    j := j + 1;
    if i + 2 >= |bindata| {
      base64[j] := Char(bindata[i + 1] % 16 * 4);
      base64[j + 1] := PAD;
      j := j + 2;
      return;
    }
    base64[j] := Char(bindata[i + 1] % 16 * 4 + bindata[i + 2] / 64);
    base64[j + 1] := Char(bindata[i + 2] % 64);
    j := j + 2;
    last := false;
  }

  /** `base64_encode` into a caller's buffer. */
  method Base64Encode(bindata: seq<byte>, base64: array<byte>)
    requires |Encode(bindata)| < base64.Length
    modifies base64
    ensures base64[..|Encode(bindata)|] == Encode(bindata) && base64[|Encode(bindata)|] == NUL
    ensures forall k :: |Encode(bindata)| < k < base64.Length ==> base64[k] == old(base64[k])
  {
    var i, j := 0, 0;
    ghost var whole := Encode(bindata);
    assert bindata[0..] == bindata;
    while i < |bindata|
      invariant 0 <= i <= |bindata| && 0 <= j && j + |Encode(bindata[i..])| == |whole|
      invariant base64[..j] + Encode(bindata[i..]) == whole
      invariant forall k :: |whole| < k < base64.Length ==> base64[k] == old(base64[k])
    {
      ghost var before, at := base64[..j], j;
      var last;
      EncodeStep(before, bindata, i);
      j, last := EncodeRound(bindata, i, base64, j);
      assert base64[..j] == before + base64[at..j];
      i := if last then |bindata| else i + 3;
      assert last ==> base64[..j] + [] == base64[..j];
    }
    ghost var done := base64[..j];
    base64[j] := NUL;
    assert base64[..j] == done == whole;
  }

  lemma EncodeStep(before: seq<byte>, bindata: seq<byte>, i: nat)
    requires i < |bindata|
    ensures |Encode(bindata[i..])| >= 4 && Encode(bindata[|bindata|..]) == []
    ensures i + 2 >= |bindata| ==> |Encode(bindata[i..])| == 4
    ensures i + 2 < |bindata| ==>
      var g := Group(bindata[i], bindata[i + 1], bindata[i + 2]);
      && |Encode(bindata[i..])| == 4 + |Encode(bindata[i + 3..])|
      && before + Encode(bindata[i..]) == before + g + Encode(bindata[i + 3..])
  {
  }

  /** The search for one character in the alphabet. */
  method Search(c: byte) returns (temp: byte)
    ensures temp == Index(c)
  {
    temp := 255;
    var k := 0;
    while k < 64
      invariant 0 <= k <= 64
      invariant (temp == 255 && forall j :: 0 <= j < k ==> Char(j) != c) || (temp < k && Char(temp) == c)
    {
      if Char(k) == c { temp := k; }
      k := k + 1;
    }
    if temp < 64 { IndexOfChar(temp); }
  }

  /** What is still to be decoded from position `i` on. */
  function Remaining(base64: seq<byte>, i: nat): seq<byte> {
    if i < |base64| then Decode(base64[i..]) else []
  }

  /** One round of `base64_decode`: it writes up to three octets and says whether to go on. */
  method DecodeRound(base64: seq<byte>, i: nat, bindata: array<byte>, at: nat) returns (j: nat, more: bool)
    requires NulFree(base64) && i < |base64| && at + |Decode(base64[i..])| <= bindata.Length
    modifies bindata
    ensures at <= j <= bindata.Length && bindata[..at] == old(bindata[..at])
    ensures Decode(base64[i..]) == bindata[at..j] + if more then Remaining(base64, i + 4) else []
  {
    ghost var s := base64[i..];
    assert At(s, 0) == At(base64, i) && At(s, 1) == At(base64, i + 1);
    assert At(s, 2) == At(base64, i + 2) && At(s, 3) == At(base64, i + 3);
    assert |s| > 4 ==> s[4..] == base64[i + 4..];
    j, more := at, false;
    var t0 := Search(At(base64, i));
    var t1 := Search(At(base64, i + 1));
    var t2 := Search(At(base64, i + 2));
    var t3 := Search(At(base64, i + 3));
    bindata[j] := First(t0, t1);
    j := j + 1;
    if At(base64, i + 2) == PAD {
      return;
    }
    bindata[j] := Second(t1, t2);
    j := j + 1;
    if At(base64, i + 3) == PAD {
      return;
    }
    bindata[j] := Third(t2, t3);
    j := j + 1;
    more := true;
  }

  /** `base64_decode`; the text is followed by zeros in its buffer. */
  method Base64Decode(base64: seq<byte>, bindata: array<byte>) returns (j: nat)
    requires NulFree(base64) && |Decode(base64)| <= bindata.Length
    modifies bindata
    ensures j == |Decode(base64)| && bindata[..j] == Decode(base64)
  {
    var i: nat := 0;
    j := 0;
    ghost var whole := Decode(base64);
    assert base64[0..] == base64;
    var more := true;
    while more && At(base64, i) != NUL
      invariant j + |Remaining(base64, i)| <= bindata.Length || !more
      invariant j <= bindata.Length && bindata[..j] + (if more then Remaining(base64, i) else []) == whole
      decreases more, |base64| - i
    {
      ghost var before, at := bindata[..j], j;
      j, more := DecodeRound(base64, i, bindata, j);
      AppendAssociates(before, bindata[at..j], if more then Remaining(base64, i + 4) else []);
      assert bindata[..j] == before + bindata[at..j];
      i := i + 4;
    }
  }
}
