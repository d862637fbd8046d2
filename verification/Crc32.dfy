/**
 The CRC-32 of net4g/src/crc32.c: a table of 256 entries and a loop unrolled eight times, against
 the bit-by-bit division by the reflected polynomial (section 8 of RFC 1952).
 */

/** Division of texts by a polynomial over the field of two elements, for any representation of the
    remainders. */
module PolynomialDivision {

  /** Remainders T and bytes B: addition, division by x with the bit that falls out, the polynomial,
      bytes of `width` bits as remainders, multiplication by x to that power, which remainders fit
      k bytes, and the lowest byte of a remainder and the rest. */
  datatype Field<!T, !B> = Field(
    add: (T, T) -> T,
    zero: T,
    half: T -> T,
    odd: T -> bool,
    poly: T,
    width: nat,
    read: B -> T,
    shift: T -> T,
    fits: (nat, T) -> bool,
    low: T -> B,
    rest: T -> T)

  function Bit<T, B>(d: Field<T, B>, c: T): T {
    if d.odd(c) then d.add(d.half(c), d.poly) else d.half(c)
  }

  function Bits<T, B>(d: Field<T, B>, c: T, n: nat): T
    decreases n, c
  {
    if n == 0 then c else Bits(d, Bit(d, c), n - 1)
  }

  function Eight<T, B>(d: Field<T, B>, c: T): T {
    Bits(d, c, d.width)
  }

  /** The remainder after a text, bit by bit. */
  function Divide<T, B>(d: Field<T, B>, c: T, s: seq<B>): T {
    if s == [] then c else Eight(d, d.add(Divide(d, c, s[..|s| - 1]), d.read(s[|s| - 1])))
  }

  predicate Assoc<T(==), B>(d: Field<T, B>, x: T, y: T, z: T) {
    d.add(d.add(x, y), z) == d.add(x, d.add(y, z))
  }

  predicate Comm<T(==), B>(d: Field<T, B>, x: T, y: T) {
    d.add(x, y) == d.add(y, x)
  }

  ghost predicate Associative<T(!new), B(!new)>(d: Field<T, B>) {
    forall x, y, z :: Assoc(d, x, y, z)
  }

  ghost predicate Commutative<T(!new), B(!new)>(d: Field<T, B>) {
    forall x, y :: Comm(d, x, y)
  }

  ghost predicate SelfInverse<T(!new), B(!new)>(d: Field<T, B>) {
    forall x :: d.add(x, d.zero) == x && d.add(x, x) == d.zero
  }

  ghost predicate Group<T(!new), B(!new)>(d: Field<T, B>) {
    Associative(d) && Commutative(d) && SelfInverse(d)
  }

  ghost predicate HalfLinear<T(!new), B(!new)>(d: Field<T, B>) {
    forall x, y :: d.half(d.add(x, y)) == d.add(d.half(x), d.half(y))
  }

  ghost predicate OddLinear<T(!new), B(!new)>(d: Field<T, B>) {
    forall x, y :: d.odd(d.add(x, y)) == (d.odd(x) != d.odd(y))
  }

  ghost predicate Halves<T(!new), B(!new)>(d: Field<T, B>) {
    HalfLinear(d) && OddLinear(d)
  }

  /** The polynomial has the highest coefficient, so that a step can be undone. */
  ghost predicate Undoable<T(!new), B(!new)>(d: Field<T, B>) {
    forall x, y :: Bit(d, x) == Bit(d, y) ==> x == y
  }

  // ---- linearity ----

  lemma AddCancels<T(!new), B(!new)>(d: Field<T, B>, x: T, y: T, z: T)
    requires Group(d) && d.add(x, z) == d.add(y, z)
    ensures x == y
  {
    assert Assoc(d, x, z, z) && Assoc(d, y, z, z);
  }

  lemma AddOne<T(!new), B(!new)>(d: Field<T, B>, a: T, b: T, p: T)
    requires Group(d)
    ensures d.add(d.add(a, p), b) == d.add(d.add(a, b), p) == d.add(a, d.add(b, p))
  {
    assert Assoc(d, a, p, b) && Comm(d, p, b) && Assoc(d, a, b, p);
  }

  lemma AddTwo<T(!new), B(!new)>(d: Field<T, B>, a: T, b: T, p: T)
    requires Group(d)
    ensures d.add(d.add(a, p), d.add(b, p)) == d.add(a, b)
  {
    AddOne(d, a, d.add(b, p), p);
    AddOne(d, a, b, p);
    assert Assoc(d, d.add(a, b), p, p);
  }

  lemma BitLinear<T(!new), B(!new)>(d: Field<T, B>, x: T, y: T)
    requires Group(d) && Halves(d)
    ensures Bit(d, d.add(x, y)) == d.add(Bit(d, x), Bit(d, y))
  {
    AddOne(d, d.half(x), d.half(y), d.poly);
    AddTwo(d, d.half(x), d.half(y), d.poly);
  }

  lemma {:induction false} BitsLinear<T(!new), B(!new)>(d: Field<T, B>, x: T, y: T, n: nat)
    requires Group(d) && Halves(d)
    ensures Bits(d, d.add(x, y), n) == d.add(Bits(d, x, n), Bits(d, y, n))
    decreases n
  {
    if n != 0 {
      BitLinear(d, x, y);
      BitsLinear(d, Bit(d, x), Bit(d, y), n - 1);
    }
  }

  lemma {:induction false} BitsInjective<T(!new), B(!new)>(d: Field<T, B>, x: T, y: T, n: nat)
    requires Undoable(d) && Bits(d, x, n) == Bits(d, y, n)
    ensures x == y
    decreases n
  {
    if n != 0 {
      BitsInjective(d, Bit(d, x), Bit(d, y), n - 1);
    }
  }

  ghost predicate Cancels<T(!new), B(!new)>(d: Field<T, B>) {
    && (forall x, y, z :: d.add(x, z) == d.add(y, z) ==> x == y)
    && (forall x, y, z :: d.add(z, x) == d.add(z, y) ==> x == y)
  }

  lemma GroupCancels<T(!new), B(!new)>(d: Field<T, B>)
    requires Group(d)
    ensures Cancels(d)
  {
    forall x, y, z | d.add(x, z) == d.add(y, z)
      ensures x == y
    {
      AddCancels(d, x, y, z);
    }
    forall x, y, z | d.add(z, x) == d.add(z, y)
      ensures x == y
    {
      assert Comm(d, x, z) && Comm(d, y, z);
      AddCancels(d, x, y, z);
    }
  }

  predicate Grows<T, B>(d: Field<T, B>, k: nat, b: B, w: T) {
    k < 3 && d.fits(k, w) ==> d.fits(k + 1, d.add(d.read(b), d.shift(w)))
  }

  predicate Splits<T(==), B(==)>(d: Field<T, B>, k: nat, b: B, w: T, b': B, w': T) {
    k <= 3 && d.fits(k, w) && d.fits(k, w') && d.add(d.read(b), d.shift(w)) == d.add(d.read(b'), d.shift(w')) ==>
      b == b' && w == w'
  }

  /** Four bytes fit a remainder. */
  ghost predicate Words<T(!new), B(!new)>(d: Field<T, B>) {
    && d.fits(0, d.zero)
    && (forall k: nat, b, w :: Grows(d, k, b, w))
    && (forall k: nat, b, w, b', w' :: Splits(d, k, b, w, b', w'))
  }

  predicate EntersAt<T(==), B>(d: Field<T, B>, k: nat, c: T, b: B, w: T) {
    k <= 3 && d.fits(k, w) ==>
      d.add(Eight(d, d.add(c, d.read(b))), w) == Eight(d, d.add(c, d.add(d.read(b), d.shift(w))))
  }

  /** A byte enters together with what follows it. */
  ghost predicate Enters<T(!new), B(!new)>(d: Field<T, B>) {
    (forall x :: d.add(x, d.zero) == x) && forall k: nat, c, b, w :: EntersAt(d, k, c, b, w)
  }

  /** A word moved up by one byte comes back. */
  ghost predicate Returns<T(!new), B(!new)>(d: Field<T, B>) {
    forall k: nat, w :: k <= 3 && d.fits(k, w) ==> Eight(d, d.shift(w)) == w
  }

  lemma WordStep<T(!new), B(!new)>(d: Field<T, B>, c: T, b: B, w: T)
    requires Group(d) && Halves(d) && Eight(d, d.shift(w)) == w
    ensures d.add(Eight(d, d.add(c, d.read(b))), w) == Eight(d, d.add(c, d.add(d.read(b), d.shift(w))))
  {
    BitsLinear(d, d.add(c, d.read(b)), d.shift(w), d.width);
    assert Assoc(d, c, d.read(b), d.shift(w));
  }

  lemma WordsEnter<T(!new), B(!new)>(d: Field<T, B>)
    requires Group(d) && Halves(d) && Returns(d)
    ensures Enters(d)
  {
    forall k: nat, c, b, w
      ensures EntersAt(d, k, c, b, w)
    {
      if k <= 3 && d.fits(k, w) {
        WordStep(d, c, b, w);
      }
    }
  }

  // ---- texts ----

  lemma {:induction false} DivideAppend<T, B>(d: Field<T, B>, c: T, a: seq<B>, b: seq<B>)
    ensures Divide(d, c, a + b) == Divide(d, Divide(d, c, a), b)
    decreases |b|
  {
    if b == [] {
      assert a + b == a;
    } else {
      var n := |b| - 1;
      assert (a + b)[..|a| + n] == a + b[..n];
      DivideAppend(d, c, a, b[..n]);
    }
  }

  lemma {:induction false} DivideFirst<T, B>(d: Field<T, B>, c: T, b: B, s: seq<B>)
    ensures Divide(d, c, [b] + s) == Divide(d, Eight(d, d.add(c, d.read(b))), s)
  {
    DivideAppend(d, c, [b], s);
    assert [b][..0] == [];
  }

  /** The rest of a text keeps two different remainders apart. */
  lemma {:induction false} DivideInjective<T(!new), B(!new)>(d: Field<T, B>, x: T, y: T, s: seq<B>)
    requires Cancels(d) && Undoable(d) && Divide(d, x, s) == Divide(d, y, s)
    ensures x == y
    decreases |s|
  {
    if s != [] {
      var n := |s| - 1;
      var b := d.read(s[n]);
      BitsInjective(d, d.add(Divide(d, x, s[..n]), b), d.add(Divide(d, y, s[..n]), b), d.width);
      DivideInjective(d, x, y, s[..n]);
    }
  }

  /** Up to four bytes as one word, the first one lowest. */
  function Pack<T, B>(d: Field<T, B>, s: seq<B>): T {
    if s == [] then d.zero else d.add(d.read(s[0]), d.shift(Pack(d, s[1..])))
  }

  lemma {:induction false} PackFits<T(!new), B(!new)>(d: Field<T, B>, s: seq<B>)
    requires Words(d) && |s| <= 3
    ensures d.fits(|s|, Pack(d, s))
    decreases |s|
  {
    if s != [] {
      PackFits(d, s[1..]);
      assert Grows(d, |s| - 1, s[0], Pack(d, s[1..]));
    }
  }

  lemma {:induction false} PackInjective<T(!new), B(!new)>(d: Field<T, B>, s: seq<B>, t: seq<B>)
    requires Words(d) && |s| == |t| <= 4 && Pack(d, s) == Pack(d, t)
    ensures s == t
    decreases |s|
  {
    if s != [] {
      PackFits(d, s[1..]);
      PackFits(d, t[1..]);
      assert Splits(d, |s| - 1, s[0], Pack(d, s[1..]), t[0], Pack(d, t[1..]));
      PackInjective(d, s[1..], t[1..]);
      assert s == [s[0]] + s[1..] && t == [t[0]] + t[1..];
    }
  }

  function Bytes<T, B>(d: Field<T, B>, c: T, n: nat): T
    decreases n, c
  {
    if n == 0 then c else Bytes(d, Eight(d, c), n - 1)
  }

  lemma {:induction false} BytesInjective<T(!new), B(!new)>(d: Field<T, B>, x: T, y: T, n: nat)
    requires Undoable(d) && Bytes(d, x, n) == Bytes(d, y, n)
    ensures x == y
    decreases n
  {
    if n != 0 {
      BytesInjective(d, Eight(d, x), Eight(d, y), n - 1);
      BitsInjective(d, x, y, d.width);
    }
  }

  lemma FirstEnters<T(!new), B(!new)>(d: Field<T, B>, c: T, s: seq<B>)
    requires Enters(d) && Words(d) && 0 < |s| <= 4
    ensures d.add(Eight(d, d.add(c, d.read(s[0]))), Pack(d, s[1..])) == Eight(d, d.add(c, Pack(d, s)))
  {
    PackFits(d, s[1..]);
    assert EntersAt(d, |s| - 1, c, s[0], Pack(d, s[1..]));
  }

  /** Up to four bytes enter the remainder as one word. */
  lemma {:induction false} DivideWord<T(!new), B(!new)>(d: Field<T, B>, c: T, s: seq<B>)
    requires Enters(d) && Words(d) && |s| <= 4
    ensures Divide(d, c, s) == Bytes(d, d.add(c, Pack(d, s)), |s|)
    decreases |s|
  {
    if s != [] {
      var rest := s[1..];
      assert s == [s[0]] + rest;
      DivideFirst(d, c, s[0], rest);
      DivideWord(d, Eight(d, d.add(c, d.read(s[0]))), rest);
      FirstEnters(d, c, s);
    }
  }

  /** Two texts that differ only inside four bytes in a row never leave the same remainder. */
  lemma BurstRemains<T(!new), B(!new)>(d: Field<T, B>, c: T, before: seq<B>, s: seq<B>, t: seq<B>, after: seq<B>)
    requires Cancels(d) && Undoable(d) && Enters(d) && Words(d) && |s| == |t| <= 4
    requires Divide(d, c, before + s + after) == Divide(d, c, before + t + after)
    ensures s == t
  {
    var r := Divide(d, c, before);
    Around(d, c, before, s, after);
    Around(d, c, before, t, after);
    DivideInjective(d, Divide(d, r, s), Divide(d, r, t), after);
    WordRemains(d, r, s, t);
  }

  lemma Around<T, B>(d: Field<T, B>, c: T, before: seq<B>, s: seq<B>, after: seq<B>)
    ensures Divide(d, c, before + s + after) == Divide(d, Divide(d, Divide(d, c, before), s), after)
  {
    DivideAppend(d, c, before, s);
    DivideAppend(d, c, before + s, after);
  }

  lemma WordsMeet<T(!new), B(!new)>(d: Field<T, B>, r: T, s: seq<B>, t: seq<B>)
    requires Undoable(d) && Enters(d) && Words(d) && |s| == |t| <= 4
    requires Divide(d, r, s) == Divide(d, r, t)
    ensures d.add(r, Pack(d, s)) == d.add(r, Pack(d, t))
  {
    DivideWord(d, r, s);
    DivideWord(d, r, t);
    BytesInjective(d, d.add(r, Pack(d, s)), d.add(r, Pack(d, t)), |s|);
  }

  lemma WordRemains<T(!new), B(!new)>(d: Field<T, B>, r: T, s: seq<B>, t: seq<B>)
    requires Cancels(d) && Undoable(d) && Enters(d) && Words(d) && |s| == |t| <= 4
    requires Divide(d, r, s) == Divide(d, r, t)
    ensures s == t
  {
    WordsMeet(d, r, s, t);
    PackInjective(d, s, t);
  }

  // ---- a byte at a time ----

  /** One step by table. */
  function TableStep<T, B>(d: Field<T, B>, table: B -> T, c: T, b: B): T {
    d.add(table(d.low(d.add(c, d.read(b)))), d.rest(c))
  }

  /** What a loop over a text computes by table. */
  function ByTable<T, B>(d: Field<T, B>, table: B -> T, c: T, s: seq<B>): T {
    if s == [] then c else TableStep(d, table, ByTable(d, table, c, s[..|s| - 1]), s[|s| - 1])
  }

  /** The lowest byte is divided, the rest moves down; and a new byte leaves the rest alone. */
  ghost predicate Parts<T(!new), B(!new)>(d: Field<T, B>) {
    && (forall x :: Eight(d, x) == d.add(Eight(d, d.read(d.low(x))), d.rest(x)))
    && (forall c, b :: d.rest(d.add(c, d.read(b))) == d.rest(c))
  }

  ghost predicate IsTable<T(!new), B(!new)>(d: Field<T, B>, table: B -> T) {
    forall b :: table(b) == Eight(d, d.read(b))
  }

  /** A look-up in the table does a whole byte of the division at once. */
  lemma {:induction false} TableDivides<T(!new), B(!new)>(d: Field<T, B>, table: B -> T, c: T, s: seq<B>)
    requires Parts(d) && IsTable(d, table)
    ensures ByTable(d, table, c, s) == Divide(d, c, s)
    decreases |s|
  {
    if s != [] {
      TableDivides(d, table, c, s[..|s| - 1]);
    }
  }

  lemma OneMore<T, B>(d: Field<T, B>, table: B -> T, c: T, s: seq<B>, i: nat)
    requires i < |s|
    ensures ByTable(d, table, c, s[..i + 1]) == TableStep(d, table, ByTable(d, table, c, s[..i]), s[i])
  {
    assert s[..i + 1][..i] == s[..i];
  }
}

module Crc32 {
  import opened PolynomialDivision

  const POLY: bv32 := 0xEDB88320

  function Low(c: bv32): bv8 {
    (c & 0xFF) as bv8
  }

  predicate Fits(k: nat, w: bv32) {
    if k == 0 then w == 0 else if k == 1 then w <= 0xFF else if k == 2 then w <= 0xFFFF else w <= 0xFF_FFFF
  }

  function Add(x: bv32, y: bv32): bv32 {
    x ^ y
  }

  function Half(x: bv32): bv32 {
    x >> 1
  }

  predicate Odd(x: bv32) {
    x & 1 == 1
  }

  function Read(b: bv8): bv32 {
    b as bv32
  }

  function Shift(x: bv32): bv32 {
    x << 8
  }

  function Rest(x: bv32): bv32 {
    x >> 8
  }

  /** Remainders as 32-bit words, the lowest bit for the highest coefficient. */
  const WORDS: Field<bv32, bv8> := Field(Add, 0, Half, Odd, POLY, 8, Read, Shift, Fits, Low, Rest)

  /** The check value of a text, continued from that of an earlier part. */
  function Crc(crc: bv32, s: seq<bv8>): bv32 {
    Divide(WORDS, crc ^ 0xFFFF_FFFF, s) ^ 0xFFFF_FFFF
  }

  /** `crc_table`, laid out as a search by index. */
  function CrcTable(i: bv8): bv32 {
    if i < 128 then
      if i < 64 then
        if i < 32 then
          if i < 16 then
            if i < 8 then
              if i < 4 then
                if i < 2 then if i < 1 then 0x00000000 else 0x77073096 else if i < 3 then 0xee0e612c else 0x990951ba
              else
                if i < 6 then if i < 5 then 0x076dc419 else 0x706af48f else if i < 7 then 0xe963a535 else 0x9e6495a3
            else
              if i < 12 then
                if i < 10 then if i < 9 then 0x0edb8832 else 0x79dcb8a4 else if i < 11 then 0xe0d5e91e else 0x97d2d988
              else
                if i < 14 then if i < 13 then 0x09b64c2b else 0x7eb17cbd else if i < 15 then 0xe7b82d07 else 0x90bf1d91
          else
            if i < 24 then
              if i < 20 then
                if i < 18 then if i < 17 then 0x1db71064 else 0x6ab020f2 else if i < 19 then 0xf3b97148 else 0x84be41de
              else
                if i < 22 then if i < 21 then 0x1adad47d else 0x6ddde4eb else if i < 23 then 0xf4d4b551 else 0x83d385c7
            else
              if i < 28 then
                if i < 26 then if i < 25 then 0x136c9856 else 0x646ba8c0 else if i < 27 then 0xfd62f97a else 0x8a65c9ec
              else
                if i < 30 then if i < 29 then 0x14015c4f else 0x63066cd9 else if i < 31 then 0xfa0f3d63 else 0x8d080df5
        else
          if i < 48 then
            if i < 40 then
              if i < 36 then
                if i < 34 then if i < 33 then 0x3b6e20c8 else 0x4c69105e else if i < 35 then 0xd56041e4 else 0xa2677172
              else
                if i < 38 then if i < 37 then 0x3c03e4d1 else 0x4b04d447 else if i < 39 then 0xd20d85fd else 0xa50ab56b
            else
              if i < 44 then
                if i < 42 then if i < 41 then 0x35b5a8fa else 0x42b2986c else if i < 43 then 0xdbbbc9d6 else 0xacbcf940
              else
                if i < 46 then if i < 45 then 0x32d86ce3 else 0x45df5c75 else if i < 47 then 0xdcd60dcf else 0xabd13d59
          else
            if i < 56 then
              if i < 52 then
                if i < 50 then if i < 49 then 0x26d930ac else 0x51de003a else if i < 51 then 0xc8d75180 else 0xbfd06116
              else
                if i < 54 then if i < 53 then 0x21b4f4b5 else 0x56b3c423 else if i < 55 then 0xcfba9599 else 0xb8bda50f
            else
              if i < 60 then
                if i < 58 then if i < 57 then 0x2802b89e else 0x5f058808 else if i < 59 then 0xc60cd9b2 else 0xb10be924
              else
                if i < 62 then if i < 61 then 0x2f6f7c87 else 0x58684c11 else if i < 63 then 0xc1611dab else 0xb6662d3d
      else
        if i < 96 then
          if i < 80 then
            if i < 72 then
              if i < 68 then
                if i < 66 then if i < 65 then 0x76dc4190 else 0x01db7106 else if i < 67 then 0x98d220bc else 0xefd5102a
              else
                if i < 70 then if i < 69 then 0x71b18589 else 0x06b6b51f else if i < 71 then 0x9fbfe4a5 else 0xe8b8d433
            else
              if i < 76 then
                if i < 74 then if i < 73 then 0x7807c9a2 else 0x0f00f934 else if i < 75 then 0x9609a88e else 0xe10e9818
              else
                if i < 78 then if i < 77 then 0x7f6a0dbb else 0x086d3d2d else if i < 79 then 0x91646c97 else 0xe6635c01
          else
            if i < 88 then
              if i < 84 then
                if i < 82 then if i < 81 then 0x6b6b51f4 else 0x1c6c6162 else if i < 83 then 0x856530d8 else 0xf262004e
              else
                if i < 86 then if i < 85 then 0x6c0695ed else 0x1b01a57b else if i < 87 then 0x8208f4c1 else 0xf50fc457
            else
              if i < 92 then
                if i < 90 then if i < 89 then 0x65b0d9c6 else 0x12b7e950 else if i < 91 then 0x8bbeb8ea else 0xfcb9887c
              else
                if i < 94 then if i < 93 then 0x62dd1ddf else 0x15da2d49 else if i < 95 then 0x8cd37cf3 else 0xfbd44c65
        else
          if i < 112 then
            if i < 104 then
              if i < 100 then
                if i < 98 then if i < 97 then 0x4db26158 else 0x3ab551ce else if i < 99 then 0xa3bc0074 else 0xd4bb30e2
              else
                if i < 102 then if i < 101 then 0x4adfa541 else 0x3dd895d7 else if i < 103 then 0xa4d1c46d else 0xd3d6f4fb
            else
              if i < 108 then
                if i < 106 then if i < 105 then 0x4369e96a else 0x346ed9fc else if i < 107 then 0xad678846 else 0xda60b8d0
              else
                if i < 110 then if i < 109 then 0x44042d73 else 0x33031de5 else if i < 111 then 0xaa0a4c5f else 0xdd0d7cc9
          else
            if i < 120 then
              if i < 116 then
                if i < 114 then if i < 113 then 0x5005713c else 0x270241aa else if i < 115 then 0xbe0b1010 else 0xc90c2086
              else
                if i < 118 then if i < 117 then 0x5768b525 else 0x206f85b3 else if i < 119 then 0xb966d409 else 0xce61e49f
            else
              if i < 124 then
                if i < 122 then if i < 121 then 0x5edef90e else 0x29d9c998 else if i < 123 then 0xb0d09822 else 0xc7d7a8b4
              else
                if i < 126 then if i < 125 then 0x59b33d17 else 0x2eb40d81 else if i < 127 then 0xb7bd5c3b else 0xc0ba6cad
    else
      if i < 192 then
        if i < 160 then
          if i < 144 then
            if i < 136 then
              if i < 132 then
                if i < 130 then if i < 129 then 0xedb88320 else 0x9abfb3b6 else if i < 131 then 0x03b6e20c else 0x74b1d29a
              else
                if i < 134 then if i < 133 then 0xead54739 else 0x9dd277af else if i < 135 then 0x04db2615 else 0x73dc1683
            else
              if i < 140 then
                if i < 138 then if i < 137 then 0xe3630b12 else 0x94643b84 else if i < 139 then 0x0d6d6a3e else 0x7a6a5aa8
              else
                if i < 142 then if i < 141 then 0xe40ecf0b else 0x9309ff9d else if i < 143 then 0x0a00ae27 else 0x7d079eb1
          else
            if i < 152 then
              if i < 148 then
                if i < 146 then if i < 145 then 0xf00f9344 else 0x8708a3d2 else if i < 147 then 0x1e01f268 else 0x6906c2fe
              else
                if i < 150 then if i < 149 then 0xf762575d else 0x806567cb else if i < 151 then 0x196c3671 else 0x6e6b06e7
            else
              if i < 156 then
                if i < 154 then if i < 153 then 0xfed41b76 else 0x89d32be0 else if i < 155 then 0x10da7a5a else 0x67dd4acc
              else
                if i < 158 then if i < 157 then 0xf9b9df6f else 0x8ebeeff9 else if i < 159 then 0x17b7be43 else 0x60b08ed5
        else
          if i < 176 then
            if i < 168 then
              if i < 164 then
                if i < 162 then if i < 161 then 0xd6d6a3e8 else 0xa1d1937e else if i < 163 then 0x38d8c2c4 else 0x4fdff252
              else
                if i < 166 then if i < 165 then 0xd1bb67f1 else 0xa6bc5767 else if i < 167 then 0x3fb506dd else 0x48b2364b
            else
              if i < 172 then
                if i < 170 then if i < 169 then 0xd80d2bda else 0xaf0a1b4c else if i < 171 then 0x36034af6 else 0x41047a60
              else
                if i < 174 then if i < 173 then 0xdf60efc3 else 0xa867df55 else if i < 175 then 0x316e8eef else 0x4669be79
          else
            if i < 184 then
              if i < 180 then
                if i < 178 then if i < 177 then 0xcb61b38c else 0xbc66831a else if i < 179 then 0x256fd2a0 else 0x5268e236
              else
                if i < 182 then if i < 181 then 0xcc0c7795 else 0xbb0b4703 else if i < 183 then 0x220216b9 else 0x5505262f
            else
              if i < 188 then
                if i < 186 then if i < 185 then 0xc5ba3bbe else 0xb2bd0b28 else if i < 187 then 0x2bb45a92 else 0x5cb36a04
              else
                if i < 190 then if i < 189 then 0xc2d7ffa7 else 0xb5d0cf31 else if i < 191 then 0x2cd99e8b else 0x5bdeae1d
      else
        if i < 224 then
          if i < 208 then
            if i < 200 then
              if i < 196 then
                if i < 194 then if i < 193 then 0x9b64c2b0 else 0xec63f226 else if i < 195 then 0x756aa39c else 0x026d930a
              else
                if i < 198 then if i < 197 then 0x9c0906a9 else 0xeb0e363f else if i < 199 then 0x72076785 else 0x05005713
            else
              if i < 204 then
                if i < 202 then if i < 201 then 0x95bf4a82 else 0xe2b87a14 else if i < 203 then 0x7bb12bae else 0x0cb61b38
              else
                if i < 206 then if i < 205 then 0x92d28e9b else 0xe5d5be0d else if i < 207 then 0x7cdcefb7 else 0x0bdbdf21
          else
            if i < 216 then
              if i < 212 then
                if i < 210 then if i < 209 then 0x86d3d2d4 else 0xf1d4e242 else if i < 211 then 0x68ddb3f8 else 0x1fda836e
              else
                if i < 214 then if i < 213 then 0x81be16cd else 0xf6b9265b else if i < 215 then 0x6fb077e1 else 0x18b74777
            else
              if i < 220 then
                if i < 218 then if i < 217 then 0x88085ae6 else 0xff0f6a70 else if i < 219 then 0x66063bca else 0x11010b5c
              else
                if i < 222 then if i < 221 then 0x8f659eff else 0xf862ae69 else if i < 223 then 0x616bffd3 else 0x166ccf45
        else
          if i < 240 then
            if i < 232 then
              if i < 228 then
                if i < 226 then if i < 225 then 0xa00ae278 else 0xd70dd2ee else if i < 227 then 0x4e048354 else 0x3903b3c2
              else
                if i < 230 then if i < 229 then 0xa7672661 else 0xd06016f7 else if i < 231 then 0x4969474d else 0x3e6e77db
            else
              if i < 236 then
                if i < 234 then if i < 233 then 0xaed16a4a else 0xd9d65adc else if i < 235 then 0x40df0b66 else 0x37d83bf0
              else
                if i < 238 then if i < 237 then 0xa9bcae53 else 0xdebb9ec5 else if i < 239 then 0x47b2cf7f else 0x30b5ffe9
          else
            if i < 248 then
              if i < 244 then
                if i < 242 then if i < 241 then 0xbdbdf21c else 0xcabac28a else if i < 243 then 0x53b39330 else 0x24b4a3a6
              else
                if i < 246 then if i < 245 then 0xbad03605 else 0xcdd70693 else if i < 247 then 0x54de5729 else 0x23d967bf
            else
              if i < 252 then
                if i < 250 then if i < 249 then 0xb3667a2e else 0xc4614ab8 else if i < 251 then 0x5d681b02 else 0x2a6f2b94
              else
                if i < 254 then if i < 253 then 0xb40bbe37 else 0xc30c8ea1 else if i < 255 then 0x5a05df1b else 0x2d02ef8d
  }

  /** One bit, and eight bits, of the division on words. */
  function WordBit(c: bv32): bv32 {
    if c & 1 == 1 then (c >> 1) ^ 0xEDB8_8320 else c >> 1
  }

  function WordEight(c: bv32): bv32 {
    WordBit(WordBit(WordBit(WordBit(WordBit(WordBit(WordBit(WordBit(c))))))))
  }

  /** Every entry of the table is what eight bits of the division make of its index. */
  lemma TableIsDivision(i: bv8)
    ensures CrcTable(i) == WordEight(i as bv32)
  {
  }

  lemma BitIsWordBit(c: bv32)
    ensures Bit(WORDS, c) == WordBit(c)
  {
  }

  lemma EightIsWordEight(c: bv32)
    ensures Eight(WORDS, c) == WordEight(c)
  {
    var c1 := WordBit(c);
    var c2 := WordBit(c1);
    var c3 := WordBit(c2);
    var c4 := WordBit(c3);
    var c5 := WordBit(c4);
    var c6 := WordBit(c5);
    var c7 := WordBit(c6);
    BitIsWordBit(c);
    BitIsWordBit(c1);
    BitIsWordBit(c2);
    BitIsWordBit(c3);
    BitIsWordBit(c4);
    BitIsWordBit(c5);
    BitIsWordBit(c6);
    BitIsWordBit(c7);
    assert Bits(WORDS, c, 8) == Bits(WORDS, c1, 7) == Bits(WORDS, c2, 6) == Bits(WORDS, c3, 5) == Bits(WORDS, c4, 4);
    assert Bits(WORDS, c4, 4) == Bits(WORDS, c5, 3) == Bits(WORDS, c6, 2) == Bits(WORDS, c7, 1) == WordBit(c7);
  }

  // ---- the words obey the laws ----

  lemma XorAssociates(x: bv32, y: bv32, z: bv32)
    ensures (x ^ y) ^ z == x ^ (y ^ z)
  {
  }

  lemma AddAssociates(x: bv32, y: bv32, z: bv32)
    ensures Add(Add(x, y), z) == Add(x, Add(y, z))
  {
    XorAssociates(x, y, z);
  }

  lemma WordsAssociate()
    ensures Associative(WORDS)
  {
    forall x: bv32, y: bv32, z: bv32
      ensures Assoc(WORDS, x, y, z)
    {
      AddAssociates(x, y, z);
    }
  }

  lemma WordsCommute()
    ensures Commutative(WORDS)
  {
  }

  lemma WordsAreSelfInverse()
    ensures SelfInverse(WORDS)
  {
  }

  lemma WordsHalve()
    ensures HalfLinear(WORDS)
  {
  }

  lemma WordsAddParity()
    ensures OddLinear(WORDS)
  {
  }

  /** The highest bit of the result tells the bit that fell out. */
  function UnBit(d: bv32): bv32 {
    if d & 0x8000_0000 != 0 then ((d ^ POLY) << 1) | 1 else d << 1
  }

  lemma BitUndone(c: bv32)
    ensures UnBit(WordBit(c)) == c
  {
  }

  lemma WordsAreUndoable()
    ensures Undoable(WORDS)
  {
    forall x: bv32, y: bv32 | Bit(WORDS, x) == Bit(WORDS, y)
      ensures x == y
    {
      BitIsWordBit(x);
      BitIsWordBit(y);
      BitUndone(x);
      BitUndone(y);
    }
  }

  lemma ShiftFits(k: nat, b: bv8, w: bv32)
    requires k < 3 && Fits(k, w)
    ensures Fits(k + 1, (b as bv32) ^ (w << 8))
  {
  }

  lemma PartLow(b: bv8, w: bv32)
    ensures Low(Add(Read(b), Shift(w))) == b
  {
  }

  lemma PartHigh(b: bv8, w: bv32)
    requires w <= 0xFF_FFFF
    ensures Add(Read(b), Shift(w)) >> 8 == w
  {
  }

  lemma FitsThree(k: nat, w: bv32)
    requires k <= 3 && Fits(k, w)
    ensures w <= 0xFF_FFFF
  {
  }

  lemma WordsHold()
    ensures Words(WORDS)
  {
    forall k: nat, b: bv8, w: bv32
      ensures Grows(WORDS, k, b, w)
    {
      if k < 3 && Fits(k, w) {
        ShiftFits(k, b, w);
      }
    }
    forall k: nat, b: bv8, w: bv32, b': bv8, w': bv32
      ensures Splits(WORDS, k, b, w, b', w')
    {
      WordsSplit(k, b, w, b', w');
    }
  }

  lemma WordsSplit(k: nat, b: bv8, w: bv32, b': bv8, w': bv32)
    ensures Splits(WORDS, k, b, w, b', w')
  {
    if k <= 3 && Fits(k, w) && Fits(k, w') {
      FitsThree(k, w);
      FitsThree(k, w');
      PartLow(b, w);
      PartLow(b', w');
      PartHigh(b, w);
      PartHigh(b', w');
    }
  }

  lemma EightShifts(w: bv32)
    requires w & 0xFF == 0
    ensures WordEight(w) == w >> 8
  {
  }

  lemma UpAndDown(w: bv32)
    requires w <= 0xFF_FFFF
    ensures (w << 8) & 0xFF == 0 && (w << 8) >> 8 == w
  {
  }

  lemma WordsReturn()
    ensures Returns(WORDS)
  {
    forall k: nat, w: bv32 | k <= 3 && WORDS.fits(k, w)
      ensures Eight(WORDS, WORDS.shift(w)) == w
    {
      FitsThree(k, w);
      UpAndDown(w);
      EightShifts(w << 8);
      EightIsWordEight(w << 8);
    }
  }

  // ---- the table step ----

  lemma SplitLow(x: bv32)
    ensures x == (Low(x) as bv32) ^ (x & 0xFFFF_FF00)
  {
  }

  lemma ShiftedLow(x: bv32)
    ensures (x & 0xFFFF_FF00) & 0xFF == 0 && (x & 0xFFFF_FF00) >> 8 == x >> 8
  {
  }

  lemma ByteShiftedOut(c: bv32, b: bv8)
    ensures Add(c, Read(b)) >> 8 == c >> 8
  {
  }

  lemma EightAdds(x: bv32, y: bv32)
    ensures Eight(WORDS, Add(x, y)) == Add(Eight(WORDS, x), Eight(WORDS, y))
  {
    WordsAssociate();
    WordsCommute();
    WordsAreSelfInverse();
    WordsHalve();
    WordsAddParity();
    BitsLinear(WORDS, x, y, 8);
  }

  lemma HighPart(h: bv32)
    requires h & 0xFF == 0
    ensures Eight(WORDS, h) == h >> 8
  {
    EightShifts(h);
    EightIsWordEight(h);
  }

  lemma EightParts(x: bv32)
    ensures Eight(WORDS, x) == Add(Eight(WORDS, Read(Low(x))), x >> 8)
  {
    var h := x & 0xFFFF_FF00;
    SplitLow(x);
    ShiftedLow(x);
    EightOf(x, Read(Low(x)), h);
  }

  lemma EightOf(x: bv32, l: bv32, h: bv32)
    requires x == Add(l, h) && h & 0xFF == 0
    ensures Eight(WORDS, x) == Add(Eight(WORDS, l), h >> 8)
  {
    EightAdds(l, h);
    HighPart(h);
  }

  lemma TableEntry(i: bv8)
    ensures CrcTable(i) == Eight(WORDS, Read(i))
  {
    TableIsDivision(i);
    EightIsWordEight(Read(i));
  }

  lemma WordsHaveParts()
    ensures Parts(WORDS)
  {
    forall x
      ensures Eight(WORDS, x) == WORDS.add(Eight(WORDS, WORDS.read(WORDS.low(x))), WORDS.rest(x))
    {
      EightParts(x);
    }
    forall c, b
      ensures WORDS.rest(WORDS.add(c, WORDS.read(b))) == WORDS.rest(c)
    {
      ByteShiftedOut(c, b);
    }
  }

  lemma TableIsRight()
    ensures IsTable(WORDS, CrcTable)
  {
    forall b
      ensures CrcTable(b) == Eight(WORDS, WORDS.read(b))
    {
      TableEntry(b);
    }
  }

  // ---- what is promised ----

  lemma TwiceInverted(c: bv32)
    ensures (c ^ 0xFFFF_FFFF) ^ 0xFFFF_FFFF == c
  {
  }

  lemma Resumes(c: bv32, a: seq<bv8>)
    ensures Crc(c, a) ^ 0xFFFF_FFFF == Divide(WORDS, c ^ 0xFFFF_FFFF, a)
  {
    TwiceInverted(Divide(WORDS, c ^ 0xFFFF_FFFF, a));
  }

  /** The check value of a text can be computed piece by piece. */
  lemma CrcComposes(c: bv32, a: seq<bv8>, b: seq<bv8>)
    ensures Crc(Crc(c, a), b) == Crc(c, a + b)
  {
    DivideAppend(WORDS, c ^ 0xFFFF_FFFF, a, b);
    Resumes(c, a);
  }

  /** Two texts of the same length that differ only inside four bytes in a row never get the same
      check value. */
  lemma BurstIsDetected(c: bv32, before: seq<bv8>, s: seq<bv8>, t: seq<bv8>, after: seq<bv8>)
    requires |s| == |t| <= 4 && Crc(c, before + s + after) == Crc(c, before + t + after)
    ensures s == t
  {
    TwiceInverted(Divide(WORDS, c ^ 0xFFFF_FFFF, before + s + after));
    TwiceInverted(Divide(WORDS, c ^ 0xFFFF_FFFF, before + t + after));
    LawsHold();
    BurstRemains(WORDS, c ^ 0xFFFF_FFFF, before, s, t, after);
  }

  lemma LawsHold()
    ensures Cancels(WORDS) && Undoable(WORDS) && Enters(WORDS) && Words(WORDS)
  {
    WordsAssociate();
    WordsCommute();
    WordsAreSelfInverse();
    WordsHalve();
    WordsAddParity();
    WordsReturn();
    GroupCancels(WORDS);
    WordsEnter(WORDS);
    WordsAreUndoable();
    WordsHold();
  }

  // ---- the code ----

  /** `DO1` */
  method Do1(table: bv8 -> bv32, crc: bv32, b: bv8) returns (r: bv32)
    ensures r == TableStep(WORDS, table, crc, b)
  {
    r := Add(table(Low(Add(crc, Read(b)))), Rest(crc));
  }

  /** `DO2`, `DO4` and `DO8`: two, four and eight bytes. */
  method Do2(table: bv8 -> bv32, crc: bv32, buf: array<bv8>, i: nat, ghost start: bv32) returns (r: bv32)
    requires i + 2 <= buf.Length && crc == ByTable(WORDS, table, start, buf[..][..i])
    ensures r == ByTable(WORDS, table, start, buf[..][..i + 2])
  {
    OneMore(WORDS, table, start, buf[..], i);
    OneMore(WORDS, table, start, buf[..], i + 1);
    r := Do1(table, crc, buf[i]);
    r := Do1(table, r, buf[i + 1]);
  }

  method Do4(table: bv8 -> bv32, crc: bv32, buf: array<bv8>, i: nat, ghost start: bv32) returns (r: bv32)
    requires i + 4 <= buf.Length && crc == ByTable(WORDS, table, start, buf[..][..i])
    ensures r == ByTable(WORDS, table, start, buf[..][..i + 4])
  {
    r := Do2(table, crc, buf, i, start);
    r := Do2(table, r, buf, i + 2, start);
  }

  method Do8(table: bv8 -> bv32, crc: bv32, buf: array<bv8>, i: nat, ghost start: bv32) returns (r: bv32)
    requires i + 8 <= buf.Length && crc == ByTable(WORDS, table, start, buf[..][..i])
    ensures r == ByTable(WORDS, table, start, buf[..][..i + 8])
  {
    r := Do4(table, crc, buf, i, start);
    r := Do4(table, r, buf, i + 4, start);
  }

  /** The loops of `crc32`: eight bytes a round, then the rest one by one. */
  method Loop(table: bv8 -> bv32, start: bv32, buf: array<bv8>, len: nat) returns (crc: bv32)
    requires len <= buf.Length
    ensures crc == ByTable(WORDS, table, start, buf[..][..len])
  {
    crc := start;
    var i, left := 0, len;
    while left >= 8
      invariant i + left == len && crc == ByTable(WORDS, table, start, buf[..][..i])
    {
      crc := Do8(table, crc, buf, i, start);
      i, left := i + 8, left - 8;
    }
    crc := Rounds(table, crc, buf, i, left, start);
  }

  /** The loop for the last bytes. */
  method Rounds(table: bv8 -> bv32, from: bv32, buf: array<bv8>, at: nat, len: nat, ghost start: bv32) returns (crc: bv32)
    requires at + len <= buf.Length && from == ByTable(WORDS, table, start, buf[..][..at])
    ensures crc == ByTable(WORDS, table, start, buf[..][..at + len])
  {
    crc := from;
    var i, left := at, len;
    while left > 0
      invariant i + left == at + len && crc == ByTable(WORDS, table, start, buf[..][..i])
    {
      OneMore(WORDS, table, start, buf[..], i);
      crc := Do1(table, crc, buf[i]);
      i, left := i + 1, left - 1;
    }
  }

  lemma TableLoopDivides(c: bv32, s: seq<bv8>)
    ensures ByTable(WORDS, CrcTable, c, s) == Divide(WORDS, c, s)
  {
    WordsHaveParts();
    TableIsRight();
    TableDivides(WORDS, CrcTable, c, s);
  }

  /** `crc32` */
  method Crc32(start: bv32, buf: array?<bv8>, len: nat) returns (crc: bv32)
    requires buf != null ==> len <= buf.Length
    ensures crc == if buf == null then 0 else Crc(start, buf[..len])
  {
    if buf == null {
      return 0;
    }
    crc := Loop(CrcTable, start ^ 0xFFFF_FFFF, buf, len);
    TableLoopDivides(start ^ 0xFFFF_FFFF, buf[..][..len]);
    assert buf[..][..len] == buf[..len];
    crc := crc ^ 0xFFFF_FFFF;
  }
}
