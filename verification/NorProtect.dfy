/**
 Block protection of a serial NOR flash: `spi_nor_lock` and `spi_nor_unlock` of
 nor-spi-driver/spi-nor.c. Three bits of the status register choose one of eight regions at the
 end of the chip, each but the first and the last twice the size of the one before.
 */
module NorProtect {
  import opened Numbers

  const SR_BP0: bv8 := 0x04
  const SR_BP1: bv8 := 0x08
  const SR_BP2: bv8 := 0x10
  const SR_BP: bv8 := 0x1C

  /** The number in the three bits. */
  function Level(sr: bv8): (v: nat)
    ensures v <= 7
  {
    (if sr & SR_BP2 != 0 then 4 else 0) + (if sr & SR_BP1 != 0 then 2 else 0) + (if sr & SR_BP0 != 0 then 1 else 0)
  }

  /** The fraction of the chip that a level between none and all protects. */
  function Fraction(v: nat): (d: nat)
    requires 1 <= v <= 6
    ensures d >= 2
  {
    if v == 1 then 64 else if v == 2 then 32 else if v == 3 then 16 else if v == 4 then 8 else if v == 5 then 4 else 2
  }

  /** Where the protected region starts; it goes to the end of the chip. */
  function Start(size: nat, v: nat): (s: nat)
    requires v <= 7
    ensures s <= size
  {
    if v == 0 then size else if v == 7 then 0 else size - size / Fraction(v)
  }

  /** Of a chip of whole 64ths the levels 1 to 6 protect 1, 2, 4, 8, 16 and 32 of them, 0 none and 7 all. */
  lemma SixtyFourths(size: nat, v: nat)
    requires size % 64 == 0 && v <= 7
    ensures 64 * (size - Start(size, v)) == size * [0, 1, 2, 4, 8, 16, 32, 64][v]
  {
    var n := size / 64;
    assert size / 32 == 2 * n && size / 16 == 4 * n && size / 8 == 8 * n && size / 4 == 16 * n && size / 2 == 32 * n;
  }

  predicate Protected(size: nat, v: nat, a: nat)
    requires v <= 7
  {
    Start(size, v) <= a < size
  }

  lemma StartFalls(size: nat, v: nat, w: nat)
    requires v <= w <= 7
    ensures Start(size, w) <= Start(size, v)
  {
  }

  /** The smallest region that covers an address, never none. */
  ghost predicate Covers(size: nat, offset: nat, v: nat) {
    1 <= v <= 7 && Start(size, v) <= offset && forall w :: 1 <= w < v ==> offset < Start(size, w)
  }

  /** The largest region short of the whole chip that leaves the addresses below `end` alone; none if
      every region reaches below. */
  ghost predicate Spares(size: nat, end: nat, v: nat) {
    v <= 6 && (v > 0 ==> end <= Start(size, v)) && forall w :: v < w <= 6 ==> Start(size, w) < end
  }

  /** The sum `offset + len` in 64 bits, for an offset that was cut to 32. */
  function EndOf(ofs: nat, len: nat): nat {
    (ofs % 0x1_0000_0000 + len) % 0x1_0000_0000_0000_0000
  }

  /** Setting and clearing the bits, as the code does for each level. */
  function WithLevel(sr: bv8, v: nat): bv8
    requires v <= 7
  {
    if v == 7 then sr | SR_BP2 | SR_BP1 | SR_BP0
    else if v == 6 then (sr & !SR_BP0) | SR_BP2 | SR_BP1
    else if v == 5 then (sr & !SR_BP1) | SR_BP2 | SR_BP0
    else if v == 4 then (sr & !(SR_BP0 | SR_BP1)) | SR_BP2
    else if v == 3 then (sr & !SR_BP2) | SR_BP1 | SR_BP0
    else if v == 2 then (sr & !(SR_BP2 | SR_BP0)) | SR_BP1
    else if v == 1 then (sr & !(SR_BP2 | SR_BP1)) | SR_BP0
    else sr & !(SR_BP2 | SR_BP1 | SR_BP0)
  }

  lemma LevelSet(sr: bv8, v: nat)
    requires v <= 7
    ensures Level(WithLevel(sr, v)) == v && WithLevel(sr, v) & !SR_BP == sr & !SR_BP
  {
  }

  /** The level is in the bits 2 to 4 of the register, and setting it leaves the others alone. */
  lemma LevelInBits(sr: bv8, v: nat)
    requires v <= 7
    ensures Level(sr) == ((sr >> 2) & 7) as nat
    ensures WithLevel(sr, v) == (sr & 0xE3) | ((v as bv8) << 2)
  {
  }

  /** Comparing the masked bits compares the levels. */
  lemma LevelsCompare(a: bv8, b: bv8)
    ensures (a & (SR_BP2 | SR_BP1 | SR_BP0)) > (b & (SR_BP2 | SR_BP1 | SR_BP0)) <==> Level(a) > Level(b)
  {
  }

  class Nor {
    const size: nat
    var sr: bv8

    constructor (size: nat, sr: bv8)
      ensures this.size == size && this.sr == sr
    {
      this.size, this.sr := size, sr;
    }

    /** The level `spi_nor_lock` asks for. */
    method LockLevel(offset: nat) returns (v: nat)
      ensures Covers(size, offset, v)
    {
      StartsFall();
      if offset < size - size / 2 {
        v := 7;
      } else if offset < size - size / 4 {
        v := 6;
      } else if offset < size - size / 8 {
        v := 5;
      } else if offset < size - size / 16 {
        v := 4;
      } else if offset < size - size / 32 {
        v := 3;
      } else if offset < size - size / 64 {
        v := 2;
      } else {
        v := 1;
      }
    }

    lemma StartsFall()
      ensures forall v, w :: 0 <= v <= w <= 7 ==> Start(size, w) <= Start(size, v)
    {
      forall v, w | 0 <= v <= w <= 7
        ensures Start(size, w) <= Start(size, v)
      {
        StartFalls(size, v, w);
      }
    }

    /** The level `spi_nor_unlock` asks for. */
    method UnlockLevel(end: nat) returns (v: nat)
      ensures Spares(size, end, v)
    {
      StartsFall();
      if end > size - size / 64 {
        v := 0;
      } else if end > size - size / 32 {
        v := 1;
      } else if end > size - size / 16 {
        v := 2;
      } else if end > size - size / 8 {
        v := 3;
      } else if end > size - size / 4 {
        v := 4;
      } else if end > size - size / 2 {
        v := 5;
      } else {
        v := 6;
      }
    }

    /** `spi_nor_lock`; the offset is cut to 32 bits. */
    method Lock(ofs: nat, len: nat)
      modifies this`sr
      ensures exists v :: Covers(size, ofs % 0x1_0000_0000, v) && Level(sr) == Max(old(Level(sr)), v)
      ensures sr & !SR_BP == old(sr) & !SR_BP
    {
      var v := LockLevel(ofs % 0x1_0000_0000);
      var status := WithLevel(sr, v);
      LevelSet(sr, v);
      LevelsCompare(status, sr);
      if (status & (SR_BP2 | SR_BP1 | SR_BP0)) > (sr & (SR_BP2 | SR_BP1 | SR_BP0)) {
        sr := status;
      }
    }

    /** `spi_nor_unlock` */
    method Unlock(ofs: nat, len: nat)
      modifies this`sr
      ensures exists v :: Spares(size, EndOf(ofs, len), v) && Level(sr) == Min(old(Level(sr)), v)
      ensures sr & !SR_BP == old(sr) & !SR_BP
    {
      var v := UnlockLevel(EndOf(ofs, len));
      var status := WithLevel(sr, v);
      LevelSet(sr, v);
      LevelsCompare(sr, status);
      ghost var before := Level(sr);
      if (status & (SR_BP2 | SR_BP1 | SR_BP0)) < (sr & (SR_BP2 | SR_BP1 | SR_BP0)) {
        assert Level(sr) > v;
        sr := status;
      } else {
        assert Level(sr) <= v;
      }
      assert Level(sr) == Min(before, v);
    }
  }

  /** After locking, everything from the offset on is protected, and so is what was before. */
  lemma LockProtects(size: nat, ofs: nat, before: nat, v: nat, a: nat)
    requires before <= 7 && Covers(size, ofs % 0x1_0000_0000, v)
    ensures ofs <= a < size ==> Protected(size, Max(before, v), a)
    ensures Protected(size, before, a) ==> Protected(size, Max(before, v), a)
  {
  }

  lemma EndOfIs(ofs: nat, len: nat)
    requires ofs + len < 0x1_0000_0000_0000_0000
    ensures EndOf(ofs, len) == ofs % 0x1_0000_0000 + len
    ensures ofs < 0x1_0000_0000 ==> EndOf(ofs, len) == ofs + len
  {
  }

  /** A region that spares what is below `end`. */
  lemma SparesBelow(size: nat, end: nat, before: nat, v: nat, a: nat)
    requires before <= 7 && Spares(size, end, v)
    ensures a < end ==> !Protected(size, Min(before, v), a)
    ensures Protected(size, Min(before, v), a) ==> Protected(size, before, a)
  {
    StartFalls(size, Min(before, v), v);
    StartFalls(size, Min(before, v), before);
  }

  /** After unlocking a range that starts below four gigabytes, the range can be written, and nothing
      is protected that was not before. */
  lemma UnlockFrees(size: nat, ofs: nat, len: nat, before: nat, v: nat, a: nat)
    requires before <= 7 && Spares(size, EndOf(ofs, len), v) && ofs < 0x1_0000_0000
    requires ofs + len < 0x1_0000_0000_0000_0000
    ensures ofs <= a < ofs + len ==> !Protected(size, Min(before, v), a)
    ensures Protected(size, Min(before, v), a) ==> Protected(size, before, a)
  {
    EndOfIs(ofs, len);
    SparesBelow(size, ofs + len, before, v, a);
  }

  /** Unlocking frees a range of the chip, whatever was protected before, if and only if it was free
      already, or no region that leaves the range at the cut offset alone reaches into the range
      itself. Below four gigabytes the two ranges are the same. */
  lemma UnlockFreesExactly(size: nat, ofs: nat, len: nat, before: nat, v: nat)
    requires len > 0 && ofs + len <= size < 0x1_0000_0000_0000_0000 && before <= 7 && Spares(size, EndOf(ofs, len), v)
    ensures (forall a :: ofs <= a < ofs + len ==> !Protected(size, Min(before, v), a)) <==>
      || ofs + len <= Start(size, before)
      || (forall w :: 1 <= w <= 6 && ofs % 0x1_0000_0000 + len <= Start(size, w) ==> ofs + len <= Start(size, w))
  {
    EndOfIs(ofs, len);
    FreesExactly(size, ofs, len, ofs % 0x1_0000_0000 + len, before, v);
  }

  lemma FreesExactly(size: nat, ofs: nat, len: nat, end: nat, before: nat, v: nat)
    requires len > 0 && ofs + len <= size && before <= 7 && Spares(size, end, v)
    ensures (forall a :: ofs <= a < ofs + len ==> !Protected(size, Min(before, v), a)) <==>
      || ofs + len <= Start(size, before)
      || (forall w :: 1 <= w <= 6 && end <= Start(size, w) ==> ofs + len <= Start(size, w))
  {
    forall w | v <= w <= 6
      ensures Start(size, w) <= Start(size, v)
    {
      StartFalls(size, v, w);
    }
    forall w | 1 <= w <= v
      ensures Start(size, v) <= Start(size, w)
    {
      StartFalls(size, w, v);
    }
    StartFalls(size, Min(before, v), before);
    if ofs + len > Start(size, Min(before, v)) {
      assert Protected(size, Min(before, v), ofs + len - 1);
    }
  }

  /** Such a range can stay protected. */
  lemma FarRangeStaysLocked()
    ensures Spares(0x2_0000_0000, EndOf(0x1_0000_0000, 1), 6)
    ensures Protected(0x2_0000_0000, Min(7, 6), 0x1_0000_0000)
  {
  }
}
