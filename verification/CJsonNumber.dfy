/**
 The numbers of net4g/src/cjson.c: `parse_number`, and `print_number` on values a
 C `int` holds. Doubles are modelled as exact reals; rounding is not modelled.
 As in C, the argument of the parser is the text from the pointer on.
 */
module CJsonNumber {
  import opened Bytes

  const INT_MIN: int := -0x8000_0000
  const INT_MAX: int := 0x7FFF_FFFF

  function Digit(b: byte): (d: nat)
    requires IsDigit(b)
    ensures d < 10
  {
    var c: int := b;
    c - 48
  }

  /** The end of the run of digits at `i`. */
  function RunEnd(s: seq<byte>, i: nat): (e: nat)
    requires i <= |s|
    ensures i <= e <= |s| && AllDigits(s[i..e]) && !IsDigit(At(s, e))
    decreases |s| - i
  {
    if IsDigit(At(s, i)) then RunEnd(s, i + 1) else i
  }

  predicate AllDigits(ds: seq<byte>) {
    forall k :: 0 <= k < |ds| ==> IsDigit(ds[k])
  }

  /** Reading more decimal digits behind the value `n`. */
  function Accum(n: real, ds: seq<byte>): real
    requires AllDigits(ds)
    decreases ds
  {
    if ds == [] then n else Accum(n * 10.0 + Digit(ds[0]) as real, ds[1..])
  }

  function AccumInt(n: int, ds: seq<byte>): int
    requires AllDigits(ds)
    decreases ds
  {
    if ds == [] then n else AccumInt(n * 10 + Digit(ds[0]), ds[1..])
  }

  function Pow10(k: int): real
    decreases if k < 0 then -k else k
  {
    if k == 0 then 1.0 else if k > 0 then 10.0 * Pow10(k - 1) else Pow10(k + 1) / 10.0
  }

  // The parts of a number token, as indices: sign and leading zero up to Whole, integer
  // digits up to Point, fraction digits in [Fraction, Exponent), exponent digits in [Power, End).

  function Whole(s: seq<byte>): (i: nat)
    ensures i <= |s|
  {
    var a := if At(s, 0) == MINUS then 1 else 0;
    if At(s, a) == ZERO then a + 1 else a
  }

  function Point(s: seq<byte>): (i: nat)
    ensures Whole(s) <= i <= |s| && AllDigits(s[Whole(s)..i])
  {
    if ZERO < At(s, Whole(s)) <= NINE then RunEnd(s, Whole(s)) else Whole(s)
  }

  function Fraction(s: seq<byte>): (i: nat)
    ensures Point(s) <= i <= |s|
  {
    if At(s, Point(s)) == DOT && IsDigit(At(s, Point(s) + 1)) then Point(s) + 1 else Point(s)
  }

  function Exponent(s: seq<byte>): (i: nat)
    ensures Fraction(s) <= i <= |s| && AllDigits(s[Fraction(s)..i])
  {
    if Fraction(s) > Point(s) then RunEnd(s, Fraction(s)) else Fraction(s)
  }

  predicate HasExponent(s: seq<byte>) {
    At(s, Exponent(s)) == 101 || At(s, Exponent(s)) == 69
  }

  predicate HasMinus(s: seq<byte>) {
    HasExponent(s) && At(s, Exponent(s) + 1) == MINUS
  }

  function Power(s: seq<byte>): (i: nat)
    ensures Exponent(s) <= i <= |s|
  {
    if !HasExponent(s) then Exponent(s)
    else if At(s, Exponent(s) + 1) == 43 || HasMinus(s) then Exponent(s) + 2
    else Exponent(s) + 1
  }

  /** Where the number token at the start of `s` ends. */
  function NumberEnd(s: seq<byte>): (i: nat)
    ensures Power(s) <= i <= |s| && AllDigits(s[Power(s)..i])
  {
    if HasExponent(s) then RunEnd(s, Power(s)) else Power(s)
  }

  /** All its digits, before and after the point. */
  function Mantissa(s: seq<byte>): real {
    Accum(Accum(0.0, s[Whole(s)..Point(s)]), s[Fraction(s)..Exponent(s)])
  }

  /** Its value: sign, digits, and a power of ten from the point and the exponent. */
  function NumberValue(s: seq<byte>): real {
    var power := AccumInt(0, s[Power(s)..NumberEnd(s)]);
    Scaled(if At(s, 0) == MINUS then -1.0 else 1.0, Mantissa(s),
           Fraction(s) - Exponent(s) + if HasMinus(s) then -power else power)
  }

  function Scaled(sign: real, n: real, power: int): real {
    sign * n * Pow10(power)
  }

  // ---- appending and reading digits ----

  lemma {:induction false} AccumAppend(n: real, ds: seq<byte>, d: byte)
    requires AllDigits(ds) && IsDigit(d)
    ensures AllDigits(ds + [d])
    ensures Accum(n, ds + [d]) == Accum(n, ds) * 10.0 + Digit(d) as real
    decreases ds
  {
    if ds == [] {
      assert [] + [d] == [d];
    } else {
      AccumAppend(n * 10.0 + Digit(ds[0]) as real, ds[1..], d);
      assert (ds + [d])[1..] == ds[1..] + [d];
    }
  }

  lemma {:induction false} AccumIntAppend(n: int, ds: seq<byte>, d: byte)
    requires AllDigits(ds) && IsDigit(d)
    ensures AllDigits(ds + [d])
    ensures AccumInt(n, ds + [d]) == AccumInt(n, ds) * 10 + Digit(d)
    decreases ds
  {
    if ds == [] {
      assert [] + [d] == [d];
    } else {
      AccumIntAppend(n * 10 + Digit(ds[0]), ds[1..], d);
      assert (ds + [d])[1..] == ds[1..] + [d];
    }
  }

  /** A run of digits followed by something else is exactly as long as it looks. */
  lemma {:induction false} RunOf(s: seq<byte>, i: nat, e: nat)
    requires i <= e <= |s| && AllDigits(s[i..e]) && !IsDigit(At(s, e))
    ensures RunEnd(s, i) == e
    decreases e - i
  {
  }

  // ---- integers: what `%d` writes, and reading it back ----

  function Decimal(n: nat): (ds: seq<byte>)
    ensures |ds| >= 1 && AllDigits(ds)
    ensures ds[0] == ZERO <==> n == 0
  {
    if n < 10 then [48 + n] else Decimal(n / 10) + [48 + n % 10]
  }

  function IntText(n: int): seq<byte> {
    if n < 0 then [MINUS] + Decimal(-n) else Decimal(n)
  }

  lemma {:induction false} DecimalValue(n: nat)
    ensures Accum(0.0, Decimal(n)) == n as real
  {
    if n < 10 {
      assert Decimal(n)[1..] == [];
    } else {
      DecimalValue(n / 10);
      AccumAppend(0.0, Decimal(n / 10), 48 + n % 10);
      assert n == n / 10 * 10 + n % 10;
    }
  }

  lemma {:induction false} DecimalLength(n: nat, k: nat, bound: nat)
    requires k >= 1 && n < bound && bound == TenTo(k)
    ensures |Decimal(n)| <= k
  {
    if n >= 10 && k >= 2 {
      DecimalLength(n / 10, k - 1, TenTo(k - 1));
    }
  }

  function TenTo(k: nat): nat {
    if k == 0 then 1 else 10 * TenTo(k - 1)
  }

  /** What may follow a number without becoming part of it. */
  predicate EndsNumber(rest: seq<byte>) {
    var b := At(rest, 0);
    !IsDigit(b) && b != DOT && b != 101 && b != 69
  }

  /** Reading what `%d` wrote gives the integer and stops behind it. */
  lemma IntTextReads(n: int, rest: seq<byte>)
    requires EndsNumber(rest)
    ensures NumberValue(IntText(n) + rest) == n as real
    ensures NumberEnd(IntText(n) + rest) == |IntText(n)|
  {
    var m := if n < 0 then -n else n;
    var s := IntText(n) + rest;
    var a := if n < 0 then 1 else 0;
    var e := |IntText(n)|;
    assert s[a..e] == Decimal(m) && At(s, e) == At(rest, 0);
    assert s[a] == Decimal(m)[0];
    DecimalValue(m);
    if m == 0 {
      assert Whole(s) == Point(s) == e;
    } else {
      RunOf(s, a, e);
      assert Whole(s) == a && Point(s) == e;
    }
    assert Fraction(s) == Exponent(s) == Power(s) == NumberEnd(s) == e;
    assert s[e..e] == [];
  }

  // ---- the C code ----

  /** `parse_number` up to the exponent. */
  method ReadMantissa(num: seq<byte>) returns (n: real, sign: real, scale: int, i: nat)
    ensures n == Mantissa(num) && sign == if At(num, 0) == MINUS then -1.0 else 1.0
    ensures scale == Fraction(num) - Exponent(num) && i == Exponent(num)
  {
    n, sign, scale, i := 0.0, 1.0, 0, 0;
    if At(num, i) == MINUS { sign, i := -1.0, i + 1; }
    if At(num, i) == ZERO { i := i + 1; }
    assert i == Whole(num);
    if ZERO < At(num, i) <= NINE {
      n, i := ReadDigits(num, i, n);
    } else {
      assert num[Whole(num)..Point(num)] == [];
    }
    assert i == Point(num);
    if At(num, i) == DOT && IsDigit(At(num, i + 1)) {
      i := i + 1;
      var from := i;
      n, i := ReadDigits(num, i, n);
      scale := -(i - from);
    } else {
      assert num[Fraction(num)..Exponent(num)] == [];
    }
  }

  /** The exponent part of `parse_number`. */
  method ReadExponent(num: seq<byte>, from: nat) returns (subscale: int, signsubscale: int, i: nat)
    requires from == Exponent(num)
    ensures i == NumberEnd(num) && subscale == AccumInt(0, num[Power(num)..NumberEnd(num)])
    ensures signsubscale == if HasMinus(num) then -1 else 1
  {
    subscale, signsubscale, i := 0, 1, from;
    if At(num, i) == 101 || At(num, i) == 69 {
      i := i + 1;
      if At(num, i) == 43 { i := i + 1; } else if At(num, i) == MINUS { signsubscale, i := -1, i + 1; }
      assert i == Power(num);
      while IsDigit(At(num, i))
        invariant Power(num) <= i <= NumberEnd(num) && RunEnd(num, i) == NumberEnd(num)
        invariant AllDigits(num[Power(num)..i]) && subscale == AccumInt(0, num[Power(num)..i])
        decreases |num| - i
      {
        AccumIntAppend(0, num[Power(num)..i], num[i]);
        assert num[Power(num)..i + 1] == num[Power(num)..i] + [num[i]];
        subscale := subscale * 10 + Digit(num[i]);
        i := i + 1;
      }
    } else {
      assert num[Power(num)..NumberEnd(num)] == [];
    }
  }

  /** `parse_number`. */
  method ParseNumber(num: seq<byte>) returns (value: real, end: nat)
    ensures value == NumberValue(num) && end == NumberEnd(num)
  {
    var n, sign, scale, i := ReadMantissa(num);
    var subscale, signsubscale;
    subscale, signsubscale, end := ReadExponent(num, i);
    value := Scaled(sign, n, scale + subscale * signsubscale);
  }

  /** The digit loops of `parse_number`. */
  method ReadDigits(num: seq<byte>, start: nat, before: real) returns (n: real, i: nat)
    requires start < |num| && IsDigit(num[start])
    ensures i == RunEnd(num, start) && n == Accum(before, num[start..i])
  {
    n, i := before, start;
    while i < |num| && IsDigit(num[i])
      invariant start <= i <= |num| && RunEnd(num, i) == RunEnd(num, start)
      invariant AllDigits(num[start..i]) && n == Accum(before, num[start..i])
    {
      AccumAppend(before, num[start..i], num[i]);
      assert num[start..i + 1] == num[start..i] + [num[i]];
      n := n * 10.0 + Digit(num[i]) as real;
      i := i + 1;
    }
  }

  predicate IsInt(value: real) {
    value.Floor as real == value && INT_MIN <= value.Floor <= INT_MAX
  }

  /** `print_number` on a value that is a C `int`: the text fits its 21 bytes. */
  method PrintNumber(value: real) returns (out: array<byte>)
    requires IsInt(value)
    ensures fresh(out) && out.Length == 21
    ensures var text := IntText(value.Floor); |text| < 21 && out[..|text| + 1] == text + [NUL]
  {
    var text := IntText(value.Floor);
    var m := if value.Floor < 0 then -value.Floor else value.Floor;
    assert TenTo(8) == 100_000_000 && TenTo(10) == 100 * TenTo(8);
    DecimalLength(m, 10, TenTo(10));
    out := new byte[21];
    var i := 0;
    while i < |text|
      invariant 0 <= i <= |text| && out[..i] == text[..i]
    {
      out[i] := text[i];
      i := i + 1;
    }
    out[i] := NUL;
  }
}
