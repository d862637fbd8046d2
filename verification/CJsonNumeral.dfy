/**
 How the numbers of JSON are spelled, in bytes: section 6 of RFC 8259, and what net4g/src/cjson.c takes
 beside it.
 */
module CJsonNumeral {
  import opened Bytes
  import opened CJsonNumber

  datatype Scale = Absent | Present(letter: byte, sign: seq<byte>, digits: seq<byte>)

  /** The parts of a number: a minus, a leading zero, the digits before and behind the point, and the
      exponent. RFC 8259 has either the zero or digits before the point, and digits in the exponent. */
  datatype Numeral = Numeral(minus: bool, zero: bool, whole: seq<byte>, fraction: seq<byte>, power: Scale)

  predicate Digits(ds: seq<byte>) {
    forall k :: 0 <= k < |ds| ==> 48 <= ds[k] <= 57
  }

  predicate PowerOk(e: Scale) {
    e.Present? ==>
      && (e.letter == 69 || e.letter == 101)
      && (e.sign == [] || e.sign == [43] || e.sign == [45])
      && Digits(e.digits)
  }

  predicate NumeralOk(n: Numeral) {
    && Digits(n.whole) && (n.whole != [] ==> n.whole[0] != 48) && Digits(n.fraction) && PowerOk(n.power)
    && (n.minus || n.zero || n.whole != [])
  }

  function Lead(n: Numeral): seq<byte> {
    (if n.minus then [45] else []) + if n.zero then [48] else []
  }

  function PointText(fraction: seq<byte>): seq<byte> {
    if fraction == [] then [] else [46] + fraction
  }

  function PowerText(e: Scale): seq<byte> {
    if e.Absent? then [] else [e.letter] + e.sign + e.digits
  }

  function NumeralText(n: Numeral): seq<byte> {
    Lead(n) + n.whole + PointText(n.fraction) + PowerText(n.power)
  }

  /** The value of decimal digits, the highest one first. */
  function DecimalOf(ds: seq<byte>): int {
    if ds == [] then 0 else DecimalOf(ds[..|ds| - 1]) * 10 + ds[|ds| - 1] as int - 48
  }

  function Tens(k: nat): (t: real)
    ensures t >= 1.0
  {
    if k == 0 then 1.0 else 10.0 * Tens(k - 1)
  }

  function PowerOfTen(k: int): real {
    if k >= 0 then Tens(k) else 1.0 / Tens(-k)
  }

  function PowerValue(e: Scale): int {
    if e.Absent? then 0 else if e.sign == [45] then -DecimalOf(e.digits) else DecimalOf(e.digits)
  }

  /** All digits as one number, moved by the exponent less the digits behind the point. */
  function NumeralValue(n: Numeral): real {
    var digits := DecimalOf(n.whole + n.fraction);
    Moved(if n.minus then -digits else digits, PowerValue(n.power) - |n.fraction|)
  }

  /** With the point moved `k` places to the right. */
  function Moved(m: int, k: int): real {
    m as real * PowerOfTen(k)
  }

  /** Nothing that could belong to a number follows. */
  predicate Ends(rest: seq<byte>) {
    rest != [] ==> !(48 <= rest[0] <= 57) && rest[0] !in [43, 45, 46, 69, 101]
  }

  // ---- values ----

  lemma {:induction false} AccumIsDecimal(ds: seq<byte>)
    requires Digits(ds)
    ensures AllDigits(ds) && Accum(0.0, ds) == DecimalOf(ds) as real && AccumInt(0, ds) == DecimalOf(ds)
  {
    if ds != [] {
      var n := |ds| - 1;
      AccumIsDecimal(ds[..n]);
      AccumAppend(0.0, ds[..n], ds[n]);
      AccumIntAppend(0, ds[..n], ds[n]);
      assert ds == ds[..n] + [ds[n]];
    }
  }

  lemma {:induction false} AccumSplit(x: real, a: seq<byte>, b: seq<byte>)
    requires AllDigits(a) && AllDigits(b)
    ensures AllDigits(a + b) && Accum(Accum(x, a), b) == Accum(x, a + b)
    decreases a
  {
    if a == [] {
      assert a + b == b;
    } else {
      AccumSplit(x * 10.0 + Digit(a[0]) as real, a[1..], b);
      assert (a + b)[1..] == a[1..] + b;
    }
  }

  lemma {:induction false} PowersAgree(k: int)
    ensures Pow10(k) == PowerOfTen(k)
    decreases if k < 0 then -k else k
  {
    if k > 0 {
      PowersAgree(k - 1);
    } else if k < 0 {
      PowersAgree(k + 1);
      OneMoreTenth(Tens(-k - 1));
    }
  }

  lemma OneMoreTenth(t: real)
    requires t >= 1.0
    ensures 1.0 / t / 10.0 == 1.0 / (10.0 * t)
  {
  }

  /** What the text `s` starts with, by the indices of the parser, are the parts of the numeral. */
  predicate Parts(s: seq<byte>, n: Numeral) {
    && (At(s, 0) == 45 <==> n.minus)
    && s[Whole(s)..Point(s)] == n.whole && s[Fraction(s)..Exponent(s)] == n.fraction
    && (HasExponent(s) <==> n.power.Present?)
    && (n.power.Present? ==> (HasMinus(s) <==> n.power.sign == [45]) && s[Power(s)..NumberEnd(s)] == n.power.digits)
  }

  lemma MantissaIs(s: seq<byte>, whole: seq<byte>, fraction: seq<byte>)
    requires Digits(whole) && Digits(fraction)
    requires s[Whole(s)..Point(s)] == whole && s[Fraction(s)..Exponent(s)] == fraction
    ensures Mantissa(s) == DecimalOf(whole + fraction) as real
  {
    AccumIsDecimal(whole);
    AccumIsDecimal(fraction);
    AccumSplit(0.0, whole, fraction);
    AccumIsDecimal(whole + fraction);
  }

  /** The exponent as the parser adds it up. */
  function PowerRead(s: seq<byte>): int {
    var power := AccumInt(0, s[Power(s)..NumberEnd(s)]);
    if HasMinus(s) then -power else power
  }

  lemma PowerIs(s: seq<byte>, e: Scale)
    requires PowerOk(e) && (HasExponent(s) <==> e.Present?)
    requires e.Present? ==> (HasMinus(s) <==> e.sign == [45]) && s[Power(s)..NumberEnd(s)] == e.digits
    ensures PowerRead(s) == PowerValue(e)
  {
    if e.Present? {
      AccumIsDecimal(e.digits);
    } else {
      assert s[Power(s)..NumberEnd(s)] == [];
    }
  }

  lemma ScaledIs(m: int, power: int)
    ensures Scaled(1.0, m as real, power) == Moved(m, power) && Scaled(-1.0, m as real, power) == Moved(-m, power)
  {
    PowersAgree(power);
  }

  lemma ValueRead(s: seq<byte>, m: int, power: int)
    requires Mantissa(s) == m as real && power == Fraction(s) - Exponent(s) + PowerRead(s)
    ensures NumberValue(s) == Moved(if At(s, 0) == MINUS then -m else m, power)
  {
    ScaledIs(m, power);
  }

  lemma PartsGiveValue(s: seq<byte>, n: Numeral)
    requires NumeralOk(n) && Parts(s, n)
    ensures NumberValue(s) == NumeralValue(n)
  {
    MantissaIs(s, n.whole, n.fraction);
    PowerIs(s, n.power);
    assert |s[Fraction(s)..Exponent(s)]| == |n.fraction|;
    ValueRead(s, DecimalOf(n.whole + n.fraction), PowerValue(n.power) - |n.fraction|);
  }

  /** A C `int` is printed with a minus, if need be, and its decimal digits without leading zeros. */
  lemma IntIsSpelled(n: int)
    ensures var m := if n < 0 then -n else n; var ds := Decimal(m);
      && Digits(ds) && DecimalOf(ds) == m && (ds[0] == 48 ==> ds == [48])
      && IntText(n) == (if n < 0 then [45] else []) + ds
  {
    DecimalDigits(if n < 0 then -n else n);
  }

  lemma {:induction false} DecimalDigits(m: nat)
    ensures Digits(Decimal(m)) && DecimalOf(Decimal(m)) == m
  {
    var ds := Decimal(m);
    if m >= 10 {
      DecimalDigits(m / 10);
      assert ds[..|ds| - 1] == Decimal(m / 10);
    } else {
      assert ds[..0] == [];
    }
  }

  // ---- a numeral is read ----

  lemma FrontReads(n: Numeral, s: seq<byte>, tail: seq<byte>)
    requires NumeralOk(n) && s == Lead(n) + n.whole + tail && !IsDigit(At(tail, 0))
    ensures Whole(s) == |Lead(n)| && Point(s) == |Lead(n) + n.whole| && s[Whole(s)..Point(s)] == n.whole
    ensures At(s, 0) == 45 <==> n.minus
  {
    var a, b := |Lead(n)|, |Lead(n) + n.whole|;
    assert s[a..b] == n.whole && At(s, b) == At(tail, 0);
    assert At(s, a) == if n.whole == [] then At(tail, 0) else n.whole[0];
    if n.whole != [] {
      RunOf(s, a, b);
    }
  }

  lemma PointBytes(fraction: seq<byte>, t: seq<byte>, tail: seq<byte>)
    requires fraction != [] && t == PointText(fraction) + tail
    ensures t[0] == 46 && t[1] == fraction[0] && t[1..1 + |fraction|] == fraction && At(t, 1 + |fraction|) == At(tail, 0)
  {
  }

  lemma PointReads(fraction: seq<byte>, s: seq<byte>, b: nat, tail: seq<byte>)
    requires b == Point(s) && Digits(fraction) && s[b..] == PointText(fraction) + tail
    requires !IsDigit(At(tail, 0)) && At(tail, 0) != 46
    ensures Exponent(s) == b + |PointText(fraction)| && s[Fraction(s)..Exponent(s)] == fraction
  {
    assert At(s, b) == At(s[b..], 0) && At(s, b + 1) == At(s[b..], 1);
    if fraction != [] {
      var c := b + 1 + |fraction|;
      PointBytes(fraction, s[b..], tail);
      assert s[b + 1..c] == s[b..][1..1 + |fraction|];
      assert At(s, c) == At(s[b..], 1 + |fraction|);
      RunOf(s, b + 1, c);
    } else {
      assert s[b..] == tail;
    }
  }

  lemma PowerBytes(e: Scale, t: seq<byte>, tail: seq<byte>)
    requires e.Present? && PowerOk(e) && t == PowerText(e) + tail
    ensures var d, f := 1 + |e.sign|, 1 + |e.sign| + |e.digits|;
      f <= |t| && t[0] == e.letter && t[d..f] == e.digits && At(t, f) == At(tail, 0)
      && At(t, 1) == if e.sign != [] then e.sign[0] else if e.digits != [] then e.digits[0] else At(tail, 0)
  {
  }

  lemma PowerReads(e: Scale, s: seq<byte>, c: nat, tail: seq<byte>)
    requires PowerOk(e) && c == Exponent(s) && s[c..] == PowerText(e) + tail && Ends(tail)
    ensures NumberEnd(s) == c + |PowerText(e)| && (HasExponent(s) <==> e.Present?)
    ensures e.Present? ==> (HasMinus(s) <==> e.sign == [45]) && s[Power(s)..NumberEnd(s)] == e.digits
  {
    assert At(s, c) == At(s[c..], 0) && At(s, c + 1) == At(s[c..], 1);
    if e.Present? {
      PowerBytes(e, s[c..], tail);
      PresentReads(e, s, c, tail);
    } else {
      assert s[c..] == tail;
    }
  }

  lemma PresentReads(e: Scale, s: seq<byte>, c: nat, tail: seq<byte>)
    requires e.Present? && PowerOk(e) && c == Exponent(s) && Ends(tail)
    requires var d, f := c + 1 + |e.sign|, c + 1 + |e.sign| + |e.digits|;
      f <= |s| && s[c] == e.letter && s[c..][1 + |e.sign|..1 + |e.sign| + |e.digits|] == e.digits
      && At(s[c..], 1 + |e.sign| + |e.digits|) == At(tail, 0)
      && At(s, c + 1) == if e.sign != [] then e.sign[0] else if e.digits != [] then e.digits[0] else At(tail, 0)
    ensures NumberEnd(s) == c + 1 + |e.sign| + |e.digits| && HasExponent(s) && (HasMinus(s) <==> e.sign == [45])
    ensures s[Power(s)..NumberEnd(s)] == e.digits
  {
    var d, f := c + 1 + |e.sign|, c + 1 + |e.sign| + |e.digits|;
    assert s[d..f] == s[c..][1 + |e.sign|..1 + |e.sign| + |e.digits|];
    assert At(s, f) == At(s[c..], 1 + |e.sign| + |e.digits|);
    assert Power(s) == d;
    RunOf(s, d, f);
  }

  /** A numeral is read for its value, and up to its end. */
  lemma NumeralReads(n: Numeral, rest: seq<byte>)
    requires NumeralOk(n) && Ends(rest)
    ensures NumberEnd(NumeralText(n) + rest) == |NumeralText(n)|
    ensures NumberValue(NumeralText(n) + rest) == NumeralValue(n)
  {
    var s := NumeralText(n) + rest;
    var front := Lead(n) + n.whole;
    NumeralShape(front, PointText(n.fraction), PowerText(n.power), rest);
    TailStarts(n.fraction, n.power, rest);
    FrontReads(n, s, PointText(n.fraction) + (PowerText(n.power) + rest));
    PointReads(n.fraction, s, |front|, PowerText(n.power) + rest);
    PowerReads(n.power, s, |front| + |PointText(n.fraction)|, rest);
    PartsGiveValue(s, n);
  }

  lemma NumeralShape(a: seq<byte>, b: seq<byte>, c: seq<byte>, rest: seq<byte>)
    ensures a + b + c + rest == a + (b + (c + rest))
    ensures (a + b + c + rest)[|a|..] == b + (c + rest) && (a + b + c + rest)[|a| + |b|..] == c + rest
  {
  }

  lemma TailStarts(fraction: seq<byte>, e: Scale, rest: seq<byte>)
    requires PowerOk(e) && Ends(rest)
    ensures var t := PowerText(e) + rest;
      !IsDigit(At(t, 0)) && At(t, 0) != 46 && !IsDigit(At(PointText(fraction) + t, 0))
  {
    var t := PowerText(e) + rest;
    assert At(t, 0) == if e.Present? then e.letter else At(rest, 0);
    assert At(PointText(fraction) + t, 0) == if fraction != [] then 46 else At(t, 0);
  }

  // ---- and nothing else is ----

  function NumeralOf(s: seq<byte>): Numeral {
    var a := if At(s, 0) == 45 then 1 else 0;
    Numeral(a == 1, At(s, a) == 48, s[Whole(s)..Point(s)], s[Fraction(s)..Exponent(s)],
            if HasExponent(s) then Present(At(s, Exponent(s)), s[Exponent(s) + 1..Power(s)], s[Power(s)..NumberEnd(s)]) else Absent)
  }

  lemma NumeralOfIs(s: seq<byte>)
    requires At(s, 0) == 45 || IsDigit(At(s, 0))
    ensures var n := NumeralOf(s);
      NumeralOk(n) && s == NumeralText(n) + s[NumberEnd(s)..] && NumberValue(s) == NumeralValue(n)
  {
    PartsAre(s);
    PartsGiveValue(s, NumeralOf(s));
    CutInFive(s, Whole(s), Point(s), Exponent(s), NumberEnd(s));
  }

  lemma PartsAre(s: seq<byte>)
    requires At(s, 0) == 45 || IsDigit(At(s, 0))
    ensures var n := NumeralOf(s);
      && NumeralOk(n) && Parts(s, n) && s[..Whole(s)] == Lead(n) && s[Point(s)..Exponent(s)] == PointText(n.fraction)
      && s[Exponent(s)..NumberEnd(s)] == PowerText(n.power)
  {
    LeadIs(s);
    PointIs(s);
    PowerTextIs(s);
  }

  lemma LeadIs(s: seq<byte>)
    requires At(s, 0) == 45 || IsDigit(At(s, 0))
    ensures s[..Whole(s)] == Lead(NumeralOf(s))
    ensures var n := NumeralOf(s); (n.whole != [] ==> n.whole[0] != 48) && (n.minus || n.zero || n.whole != [])
  {
  }

  lemma PointIs(s: seq<byte>)
    ensures s[Point(s)..Exponent(s)] == PointText(NumeralOf(s).fraction)
  {
  }

  lemma PowerTextIs(s: seq<byte>)
    ensures PowerOk(NumeralOf(s).power) && s[Exponent(s)..NumberEnd(s)] == PowerText(NumeralOf(s).power)
  {
  }

  lemma CutInFive(s: seq<byte>, a: nat, b: nat, c: nat, d: nat)
    requires a <= b <= c <= d <= |s|
    ensures s == s[..a] + s[a..b] + s[b..c] + s[c..d] + s[d..]
  {
  }
}
